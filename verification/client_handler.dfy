/**
 * `ClientHandler.run` with `handleLogin` and `handleSignUp`, as a function
 * of the lines the peer sends. The lines end where the peer's stream ends
 * (or a read fails); every later step of the session is then the `finally`
 * teardown.
 */
module ClientHandler {
  import opened Wrappers
  import opened JavaStrings
  import opened UserStore
  import opened Broadcaster

  const LoginChoice: string := "1"
  const SignupChoice: string := "2"

  /** The fixed lines the handler itself sends to its peer during the handshake. */
  datatype Reply =
    | ChoicePrompt
    | LoginUserPrompt | LoginPasswordPrompt | LoginOk | LoginFailed
    | SignupUserPrompt | SignupPasswordPrompt | SignupOk | SignupFailed

  /** The exact text of each reply, as `println` sends it (without the line end). */
  function Wire(r: Reply): string
  {
    match r
    case ChoicePrompt => "Do you want to (1) Login or (2) Sign up?"
    case LoginUserPrompt => "Enter your username: "
    case LoginPasswordPrompt => "Enter your password: "
    case LoginOk => "Login successful! Welcome to the chat."
    case LoginFailed => "Invalid credentials. Please try again."
    case SignupUserPrompt => "Choose a username: "
    case SignupPasswordPrompt => "Choose a password: "
    case SignupOk => "Signup successful! You are now logged in."
    case SignupFailed => "Username already exists. Please try another username."
  }

  /** The peer can tell every reply apart from every other. */
  lemma WireDistinct(a: Reply, b: Reply)
    ensures Wire(a) == Wire(b) ==> a == b
  {
  }

  function WireAll(rs: seq<Reply>): (ws: seq<string>)
    ensures |ws| == |rs|
    ensures forall i :: 0 <= i < |rs| ==> ws[i] == Wire(rs[i])
  {
    seq(|rs|, i requires 0 <= i < |rs| => Wire(rs[i]))
  }

  /** Whether the handler's `username` field has been set. */
  datatype State = Unauthenticated | Authenticated(username: string)

  /** `getUsername()`: null until a login or sign-up succeeds. */
  function Username(s: State): (n: Option<string>)
    ensures n.Some? <==> s.Authenticated?
  {
    match s
    case Unauthenticated => None
    case Authenticated(u) => Some(u)
  }

  /**
   * How the authentication loop ended: the lines sent to the peer, the
   * credential file afterwards, the state, the input not yet read, and
   * whether a credential check threw.
   */
  datatype Handshake = Handshake(replies: seq<Reply>, store: seq<string>, state: State, rest: seq<string>, threw: bool)

  /** The result of one `handleLogin` or `handleSignUp` once both lines are read. */
  datatype Attempt = Attempt(outcome: Call<bool>, store: seq<string>)

  /** `handleLogin` past its two reads: `authenticate`, which never writes the file. */
  function HandleLogin(store: seq<string>, disk: Disk, u: string, p: string): (a: Attempt)
    ensures a.store == store
    ensures a.outcome == Returns(true) ==> exists i :: 0 <= i < |store| && Grants(store[i], u, p)
  {
    Attempt(Authenticate(store, disk, u, p), store)
  }

  /** `handleSignUp` past its two reads: `registerUser`, which appends on success only. */
  function HandleSignUp(store: seq<string>, disk: Disk, u: string, p: string): (a: Attempt)
    ensures a.outcome == Returns(true) ==> a.store == store + [Record(u, p)]
    ensures a.outcome != Returns(true) ==> a.store == store
    ensures a.outcome == OutOfBounds <==> RegisterUser(store, disk, u, p) == OutOfBounds
    ensures a.outcome.Returns? ==> RegisterUser(store, disk, u, p) == Returns(Registration(a.outcome.value, a.store))
  {
    match RegisterUser(store, disk, u, p)
    case OutOfBounds => Attempt(OutOfBounds, store)
    case Returns(reg) => Attempt(Returns(reg.ok), reg.store)
  }

  /** The handler the choice selects, run on the two lines it read. */
  function Attempted(login: bool, store: seq<string>, disk: Disk, u: string, p: string): (a: Attempt)
    ensures a.outcome != Returns(true) ==> a.store == store
  {
    if login then HandleLogin(store, disk, u, p) else HandleSignUp(store, disk, u, p)
  }

  /** The menu prompt and the two prompts of the chosen handler. */
  function Asks(login: bool): (rs: seq<Reply>)
    ensures |rs| == 3 && rs[0] == ChoicePrompt
    ensures forall i :: 0 <= i < |rs| ==> !IsSuccess(rs[i])
  {
    if login then [ChoicePrompt, LoginUserPrompt, LoginPasswordPrompt]
    else [ChoicePrompt, SignupUserPrompt, SignupPasswordPrompt]
  }

  function Verdict(login: bool, ok: bool): Reply
  {
    if login then (if ok then LoginOk else LoginFailed)
    else (if ok then SignupOk else SignupFailed)
  }

  predicate IsSuccess(r: Reply)
  {
    r == LoginOk || r == SignupOk
  }

  /** Prepends lines sent before a further round of the loop. */
  function Reprompt(sent: seq<Reply>, h: Handshake): Handshake
  {
    h.(replies := sent + h.replies)
  }

  /** How many input lines the handshake read. */
  function Read(input: seq<string>, h: Handshake): int
  {
    |input| - |h.rest|
  }

  /**
   * The successful round that ended the loop: the choice, user name and
   * password lines just before the unread input, and either
   * `authenticate` granted them on the unchanged file or `registerUser`
   * accepted them and produced the new file.
   */
  predicate EndedBySuccess(input: seq<string>, store: seq<string>, disk: Disk, h: Handshake)
  {
    var k := Read(input, h);
    && 3 <= k <= |input|
    && h.state.Authenticated?
    && h.state.username == input[k - 2]
    && ((input[k - 3] == LoginChoice && h.store == store
         && Authenticate(store, disk, input[k - 2], input[k - 1]) == Returns(true))
     || (input[k - 3] == SignupChoice
         && RegisterUser(store, disk, input[k - 2], input[k - 1]) == Returns(Registration(true, h.store))))
  }

  /** The round that ended the loop threw out of `authenticate` or `registerUser`. */
  predicate EndedByThrow(input: seq<string>, store: seq<string>, disk: Disk, h: Handshake)
  {
    var k := Read(input, h);
    && 3 <= k <= |input|
    && ((input[k - 3] == LoginChoice && Authenticate(store, disk, input[k - 2], input[k - 1]) == OutOfBounds)
     || (input[k - 3] == SignupChoice && RegisterUser(store, disk, input[k - 2], input[k - 1]) == OutOfBounds))
  }

  /**
   * What the authentication loop guarantees about how it ended: the first
   * line sent is the menu prompt; it read a prefix of the input; it is
   * authenticated exactly when its last line is a success line, and no
   * earlier line is one; a success is explained by its last round
   * (`EndedBySuccess`), a throw by its last round (`EndedByThrow`); an
   * unauthenticated end leaves the file unchanged and, without a throw, has
   * read all the input.
   */
  predicate Concludes(input: seq<string>, store: seq<string>, disk: Disk, h: Handshake)
  {
    && |h.replies| > 0 && h.replies[0] == ChoicePrompt
    && |h.rest| <= |input| && h.rest == input[|input| - |h.rest|..]
    && (h.state.Authenticated? <==> IsSuccess(h.replies[|h.replies| - 1]))
    && (forall i :: 0 <= i < |h.replies| - 1 ==> !IsSuccess(h.replies[i]))
    && (h.state.Unauthenticated? ==> h.store == store)
    && (h.state.Authenticated? ==> !h.threw && EndedBySuccess(input, store, disk, h))
    && (h.threw ==> EndedByThrow(input, store, disk, h))
    && (h.state.Unauthenticated? && !h.threw ==> h.rest == [])
  }

  /** One pass of the loop body: either the loop goes on, or it stops with its final result. */
  datatype Pass = Continue(sent: seq<Reply>, used: nat) | Stop(result: Handshake)

  /**
   * One iteration of the `while (!isAuthenticated)` loop: the menu prompt
   * and a choice; for "1" or "2" the chosen handler's two prompts, two reads
   * and its credential check. A failed check or any other choice lets the
   * loop go on past the lines it used; a success, a throw or the end of the
   * input stops it.
   */
  function Round(input: seq<string>, store: seq<string>, disk: Disk): (r: Pass)
    ensures r.Continue? ==>
      && 1 <= r.used <= |input|
      && |r.sent| > 0 && r.sent[0] == ChoicePrompt
      && forall i :: 0 <= i < |r.sent| ==> !IsSuccess(r.sent[i])
    ensures r.Stop? ==> Concludes(input, store, disk, r.result)
  {
    if |input| == 0 then Stop(Handshake([ChoicePrompt], store, Unauthenticated, [], false))
    else if input[0] != LoginChoice && input[0] != SignupChoice then Continue([ChoicePrompt], 1)
    else
      var login := input[0] == LoginChoice;
      var asks := Asks(login);
      if |input| < 3 then Stop(Handshake(asks[..|input| + 1], store, Unauthenticated, [], false))
      else
        var a := Attempted(login, store, disk, input[1], input[2]);
        match a.outcome
        case OutOfBounds =>
          var h := Handshake(asks, store, Unauthenticated, input[3..], true);
          RoundConcludes(input, store, disk, login, a, h);
          Stop(h)
        case Returns(ok) =>
          if ok then
            var h := Handshake(asks + [Verdict(login, true)], a.store, Authenticated(input[1]), input[3..], false);
            RoundConcludes(input, store, disk, login, a, h);
            Stop(h)
          else
            Continue(asks + [Verdict(login, false)], 3)
  }

  /**
   * The `while (!isAuthenticated)` loop of `run`: rounds until one stops
   * it. A failed check leaves the file as it was, so every round sees the
   * same file.
   */
  function Authenticating(input: seq<string>, store: seq<string>, disk: Disk): (h: Handshake)
    ensures Concludes(input, store, disk, h)
    decreases |input|
  {
    match Round(input, store, disk)
    case Stop(h) => h
    case Continue(sent, k) =>
      var later := Authenticating(input[k..], store, disk);
      RepromptConcludes(input, store, disk, sent, k, later);
      Reprompt(sent, later)
  }

  /** A round that ends the loop by success or by a throw concludes it. */
  lemma RoundConcludes(input: seq<string>, store: seq<string>, disk: Disk, login: bool, a: Attempt, h: Handshake)
    requires |input| >= 3 && input[0] == (if login then LoginChoice else SignupChoice)
    requires a == Attempted(login, store, disk, input[1], input[2])
    requires || (a.outcome == OutOfBounds && h == Handshake(Asks(login), store, Unauthenticated, input[3..], true))
             || (a.outcome == Returns(true)
                 && h == Handshake(Asks(login) + [Verdict(login, true)], a.store, Authenticated(input[1]), input[3..], false))
    ensures Concludes(input, store, disk, h)
  {
    assert Read(input, h) == 3;
    assert input[..3] + input[3..] == input;
    if login {
      assert !IsSuccess(ChoicePrompt) && !IsSuccess(LoginUserPrompt) && !IsSuccess(LoginPasswordPrompt);
      assert a.outcome == Authenticate(store, disk, input[1], input[2]);
      if a.outcome == OutOfBounds {
        assert EndedByThrow(input, store, disk, h);
      } else {
        assert EndedBySuccess(input, store, disk, h);
      }
    } else {
      assert !IsSuccess(ChoicePrompt) && !IsSuccess(SignupUserPrompt) && !IsSuccess(SignupPasswordPrompt);
      if a.outcome == OutOfBounds {
        assert EndedByThrow(input, store, disk, h);
      } else {
        assert EndedBySuccess(input, store, disk, h);
      }
    }
  }

  /** Lines sent before a later round keep everything that round concluded. */
  lemma RepromptConcludes(input: seq<string>, store: seq<string>, disk: Disk, sent: seq<Reply>, k: nat, h: Handshake)
    requires k <= |input|
    requires |sent| > 0 && sent[0] == ChoicePrompt
    requires forall i :: 0 <= i < |sent| ==> !IsSuccess(sent[i])
    requires Concludes(input[k..], store, disk, h)
    ensures Concludes(input, store, disk, Reprompt(sent, h))
  {
    var h' := Reprompt(sent, h);
    assert input[k..][|input[k..]| - |h.rest|..] == input[|input| - |h.rest|..];
    ShiftEnding(input, store, disk, k, h, h');
    forall i | 0 <= i < |h'.replies| - 1 ensures !IsSuccess(h'.replies[i]) {
      if i >= |sent| {
        assert h'.replies[i] == h.replies[i - |sent|];
      }
    }
  }

  /** The round that ended the loop on the input left after `k` lines ended it on the whole input too. */
  lemma ShiftEnding(input: seq<string>, store: seq<string>, disk: Disk, k: nat, h: Handshake, h': Handshake)
    requires k <= |input| && |h.rest| <= |input| - k
    requires h'.store == h.store && h'.state == h.state && h'.rest == h.rest
    ensures EndedBySuccess(input[k..], store, disk, h) ==> EndedBySuccess(input, store, disk, h')
    ensures EndedByThrow(input[k..], store, disk, h) ==> EndedByThrow(input, store, disk, h')
  {
    var j := Read(input[k..], h);
    assert Read(input, h') == k + j;
    if j >= 3 {
      assert input[k..][j - 3] == input[k + j - 3];
      assert input[k..][j - 2] == input[k + j - 2];
      assert input[k..][j - 1] == input[k + j - 1];
    }
  }

  /** Only menu choices other than "1" and "2": nothing but prompts, and nothing changes. */
  lemma {:induction false} OnlyInvalidChoices(input: seq<string>, store: seq<string>, disk: Disk)
    requires forall i :: 0 <= i < |input| ==> input[i] != LoginChoice && input[i] != SignupChoice
    ensures var h := Authenticating(input, store, disk);
      && |h.replies| == |input| + 1
      && (forall i :: 0 <= i < |h.replies| ==> h.replies[i] == ChoicePrompt)
      && h.state == Unauthenticated
      && h.store == store
    decreases |input|
  {
    if |input| > 0 {
      OnlyInvalidChoices(input[1..], store, disk);
      InvalidChoiceReprompts(input, store, disk);
    }
  }

  /** A choice other than "1" or "2" only costs the menu prompt. */
  lemma InvalidChoiceReprompts(input: seq<string>, store: seq<string>, disk: Disk)
    requires |input| > 0 && input[0] != LoginChoice && input[0] != SignupChoice
    ensures Authenticating(input, store, disk) == Reprompt([ChoicePrompt], Authenticating(input[1..], store, disk))
  {
    assert Round(input, store, disk) == Continue([ChoicePrompt], 1);
  }

  /** A round whose credentials are accepted ends the loop authenticated as the name just read. */
  lemma AcceptedRoundEnds(input: seq<string>, store: seq<string>, disk: Disk, login: bool)
    requires |input| >= 3 && input[0] == (if login then LoginChoice else SignupChoice)
    requires Attempted(login, store, disk, input[1], input[2]).outcome == Returns(true)
    ensures Authenticating(input, store, disk)
      == Handshake(Asks(login) + [Verdict(login, true)], Attempted(login, store, disk, input[1], input[2]).store,
                   Authenticated(input[1]), input[3..], false)
  {
    assert Round(input, store, disk).Stop?;
  }

  /** A round whose credentials are refused sends the failure line and starts the loop again on what follows. */
  lemma RefusedRoundReprompts(input: seq<string>, store: seq<string>, disk: Disk, login: bool)
    requires |input| >= 3 && input[0] == (if login then LoginChoice else SignupChoice)
    requires Attempted(login, store, disk, input[1], input[2]).outcome == Returns(false)
    ensures Authenticating(input, store, disk)
      == Reprompt(Asks(login) + [Verdict(login, false)], Authenticating(input[3..], store, disk))
  {
    assert Round(input, store, disk) == Continue(Asks(login) + [Verdict(login, false)], 3);
  }

  /**
   * Input made only of rounds the loop gets past: single lines that are
   * neither "1" nor "2", and whole rounds (choice, user name, password)
   * whose credential check returned false.
   */
  predicate Refused(pre: seq<string>, store: seq<string>, disk: Disk)
    decreases |pre|
  {
    if |pre| == 0 then true
    else if pre[0] != LoginChoice && pre[0] != SignupChoice then Refused(pre[1..], store, disk)
    else
      && |pre| >= 3
      && Attempted(pre[0] == LoginChoice, store, disk, pre[1], pre[2]).outcome == Returns(false)
      && Refused(pre[3..], store, disk)
  }

  /**
   * The first round that is not refused decides the loop: accepted
   * credentials authenticate as the name in that round, a throwing check
   * ends it unauthenticated, and in both cases exactly the input after that
   * round is left unread.
   */
  lemma FirstDecidingRound(pre: seq<string>, login: bool, u: string, p: string, post: seq<string>,
                           store: seq<string>, disk: Disk)
    requires Refused(pre, store, disk)
    requires Attempted(login, store, disk, u, p).outcome != Returns(false)
    ensures var h := Authenticating(pre + [if login then LoginChoice else SignupChoice, u, p] + post, store, disk);
      && h.rest == post
      && (Attempted(login, store, disk, u, p).outcome == Returns(true) <==> h.state == Authenticated(u))
      && (Attempted(login, store, disk, u, p).outcome == Returns(true) ==>
            !h.threw && h.store == Attempted(login, store, disk, u, p).store)
      && (Attempted(login, store, disk, u, p).outcome == OutOfBounds <==> h.threw)
      && (h.threw ==> h.state == Unauthenticated && h.store == store)
  {
    var round := [if login then LoginChoice else SignupChoice, u, p];
    var rest := round + post;
    assert pre + round + post == pre + rest;
    RefusedRoundsChangeNothing(pre, rest, store, disk);
    assert rest[1] == u && rest[2] == p && rest[3..] == post;
    DecidingRoundEnds(rest, store, disk, login);
  }

  /** A round whose check does not return false stops the loop right after it. */
  lemma DecidingRoundEnds(input: seq<string>, store: seq<string>, disk: Disk, login: bool)
    requires |input| >= 3 && input[0] == (if login then LoginChoice else SignupChoice)
    requires Attempted(login, store, disk, input[1], input[2]).outcome != Returns(false)
    ensures var a := Attempted(login, store, disk, input[1], input[2]);
      && Authenticating(input, store, disk).rest == input[3..]
      && (a.outcome == Returns(true) ==>
            Authenticating(input, store, disk)
            == Handshake(Asks(login) + [Verdict(login, true)], a.store, Authenticated(input[1]), input[3..], false))
      && (a.outcome == OutOfBounds ==>
            Authenticating(input, store, disk) == Handshake(Asks(login), store, Unauthenticated, input[3..], true))
  {
    assert Round(input, store, disk).Stop?;
  }

  /**
   * Refused rounds in front of the input change nothing about how the loop
   * ends: the same state, file, unread input and throw as without them. On
   * its own (`rest` empty), refused input leaves the client outside with
   * the file unchanged.
   */
  lemma {:induction false} RefusedRoundsChangeNothing(pre: seq<string>, rest: seq<string>, store: seq<string>, disk: Disk)
    requires Refused(pre, store, disk)
    ensures var a, b := Authenticating(pre + rest, store, disk), Authenticating(rest, store, disk);
      a.state == b.state && a.store == b.store && a.rest == b.rest && a.threw == b.threw
    decreases |pre|
  {
    if |pre| == 0 {
      assert pre + rest == rest;
    } else {
      var sent, k := SkipRefusedRound(pre, rest, store, disk);
      RefusedRoundsChangeNothing(pre[k..], rest, store, disk);
    }
  }

  /** The first refused round of `pre` only sends its lines, whatever follows `pre`. */
  lemma SkipRefusedRound(pre: seq<string>, rest: seq<string>, store: seq<string>, disk: Disk)
    returns (sent: seq<Reply>, k: nat)
    requires |pre| > 0 && Refused(pre, store, disk)
    ensures 1 <= k <= |pre| && Refused(pre[k..], store, disk)
    ensures Authenticating(pre + rest, store, disk) == Reprompt(sent, Authenticating(pre[k..] + rest, store, disk))
  {
    var input := pre + rest;
    k := if pre[0] != LoginChoice && pre[0] != SignupChoice then 1 else 3;
    if k == 1 {
      assert input[1..] == pre[1..] + rest;
      InvalidChoiceReprompts(input, store, disk);
      sent := [ChoicePrompt];
    } else {
      var login := pre[0] == LoginChoice;
      assert input[..3] == pre[..3] && input[3..] == pre[3..] + rest;
      RefusedRoundReprompts(input, store, disk, login);
      sent := Asks(login) + [Verdict(login, false)];
    }
  }

  /** Input made only of refused rounds leaves the client outside with the file unchanged. */
  lemma RefusedStaysOut(pre: seq<string>, store: seq<string>, disk: Disk)
    requires Refused(pre, store, disk)
    ensures var h := Authenticating(pre, store, disk);
      h.state == Unauthenticated && !h.threw && h.store == store && h.rest == []
  {
    RefusedRoundsChangeNothing(pre, [], store, disk);
    assert pre + [] == pre;
    assert Round([], store, disk).Stop?;
  }

  /** Input that ends inside a round after refused ones leaves the client outside with the file unchanged. */
  lemma RefusedThenCutOff(pre: seq<string>, tail: seq<string>, store: seq<string>, disk: Disk)
    requires Refused(pre, store, disk)
    requires 0 < |tail| < 3 && (tail[0] == LoginChoice || tail[0] == SignupChoice)
    ensures var h := Authenticating(pre + tail, store, disk);
      h.state == Unauthenticated && !h.threw && h.store == store && h.rest == []
  {
    RefusedRoundsChangeNothing(pre, tail, store, disk);
    assert Round(tail, store, disk).Stop?;
  }

  /** A chat line as relayed: the sender's name, a colon and a space, then the text. */
  function ChatLine(u: string, m: string): string
  {
    u + ": " + m
  }

  function ChatLines(u: string, msgs: seq<string>): (ls: seq<string>)
    ensures |ls| == |msgs|
    ensures forall i :: 0 <= i < |msgs| ==> ls[i] == ChatLine(u, msgs[i])
  {
    seq(|msgs|, i requires 0 <= i < |msgs| => ChatLine(u, msgs[i]))
  }

  /**
   * The message loop of `run`: each line read is broadcast as
   * `username: line` to every member but the sender, in the order read.
   */
  function Relay(r: Registry, h: HandlerId, u: string, msgs: seq<string>): (r': Registry)
    ensures r'.members == r.members
    ensures forall c :: c in r.members && c != h ==> Outbox(r', c) == Outbox(r, c) + ChatLines(u, msgs)
    ensures forall c :: c !in r.members || c == h ==> Outbox(r', c) == Outbox(r, c)
    decreases |msgs|
  {
    if |msgs| == 0 then r
    else
      var r1 := Broadcast(r, ChatLine(u, msgs[0]), Some(h));
      var r' := Relay(r1, h, u, msgs[1..]);
      RelayStep(r, h, u, msgs, r1, r');
      r'
  }

  lemma RelayStep(r: Registry, h: HandlerId, u: string, msgs: seq<string>, r1: Registry, r': Registry)
    requires |msgs| > 0
    requires r1 == Broadcast(r, ChatLine(u, msgs[0]), Some(h))
    requires r'.members == r1.members
    requires forall c :: c in r1.members && c != h ==> Outbox(r', c) == Outbox(r1, c) + ChatLines(u, msgs[1..])
    requires forall c :: c !in r1.members || c == h ==> Outbox(r', c) == Outbox(r1, c)
    ensures r'.members == r.members
    ensures forall c :: c in r.members && c != h ==> Outbox(r', c) == Outbox(r, c) + ChatLines(u, msgs)
    ensures forall c :: c !in r.members || c == h ==> Outbox(r', c) == Outbox(r, c)
  {
    ChatLinesCons(u, msgs);
    forall c | c in r.members && c != h ensures Outbox(r', c) == Outbox(r, c) + ChatLines(u, msgs) {
      Regroup(Outbox(r, c), Outbox(r1, c), Outbox(r', c), ChatLine(u, msgs[0]), ChatLines(u, msgs[1..]));
    }
    forall c | c !in r.members || c == h ensures Outbox(r', c) == Outbox(r, c) {
      assert Outbox(r1, c) == Outbox(r, c);
    }
  }

  lemma Regroup(o: seq<string>, o1: seq<string>, o2: seq<string>, first: string, later: seq<string>)
    requires o1 == o + [first] && o2 == o1 + later
    ensures o2 == o + ([first] + later)
  {
  }

  lemma ChatLinesCons(u: string, msgs: seq<string>)
    requires |msgs| > 0
    ensures ChatLines(u, msgs) == [ChatLine(u, msgs[0])] + ChatLines(u, msgs[1..])
  {
  }

  /** The handler's own `println`s to its peer. */
  function Tell(r: Registry, h: HandlerId, lines: seq<string>): (r': Registry)
    ensures r'.members == r.members
    ensures Outbox(r', h) == Outbox(r, h) + lines
    ensures forall c :: c != h ==> Outbox(r', c) == Outbox(r, c)
  {
    r.(outboxes := r.outboxes[h := Outbox(r, h) + lines])
  }

  /** One `broadcast` call: the line and the handler it excludes (`None` for null). */
  datatype Notice = Notice(text: string, exclude: Option<HandlerId>)

  /** A whole connection: how the handshake ended, the broadcasts made, and the registry afterwards. */
  datatype Session = Session(handshake: Handshake, broadcasts: seq<Notice>, registry: Registry)

  /** What every other member hears from an authenticated session, from its join to its leave. */
  function Membership(u: string, msgs: seq<string>): seq<string>
  {
    [JoinNotice(Some(u))] + ChatLines(u, msgs) + [LeaveNotice(Some(u))]
  }

  /** What every other member hears from a session. */
  function Heard(hs: Handshake): seq<string>
  {
    match hs.state
    case Authenticated(u) => Membership(u, hs.rest)
    case Unauthenticated => [LeaveNotice(None)]
  }

  /**
   * The last line the other members hear names the handler through
   * `getUsername()`: its user after a successful handshake, null otherwise;
   * a joined user is also announced first.
   */
  lemma HeardNamesUser(hs: Handshake)
    ensures |Heard(hs)| > 0 && Heard(hs)[|Heard(hs)| - 1] == LeaveNotice(Username(hs.state))
    ensures hs.state.Authenticated? ==> Heard(hs)[0] == JoinNotice(Username(hs.state))
    ensures hs.state.Unauthenticated? ==> Heard(hs) == [LeaveNotice(None)]
  {
  }

  /**
   * The `broadcast` calls `run` makes after the handshake `hs`: the join
   * notice, one chat line per remaining input line excluding the sender,
   * and the leave notice; only the leave notice when it never joined.
   */
  function Broadcasts(h: HandlerId, hs: Handshake): (ns: seq<Notice>)
    ensures forall i :: 0 <= i < |ns| ==> ns[i].exclude == None || ns[i].exclude == Some(h)
    ensures forall i :: 0 <= i < |ns| ==> (ns[i].exclude == Some(h) <==> 0 < i < |ns| - 1)
    ensures |ns| == if hs.state.Authenticated? then |hs.rest| + 2 else 1
    ensures |ns| == |Heard(hs)| && forall i :: 0 <= i < |ns| ==> ns[i].text == Heard(hs)[i]
  {
    match hs.state
    case Authenticated(u) =>
      [Notice(JoinNotice(Some(u)), None)]
      + seq(|hs.rest|, i requires 0 <= i < |hs.rest| => Notice(ChatLine(u, hs.rest[i]), Some(h)))
      + [Notice(LeaveNotice(Some(u)), None)]
    case Unauthenticated => [Notice(LeaveNotice(None), None)]
  }

  /**
   * `run` once the handshake has ended as `hs`: the handshake replies to
   * the peer; if it authenticated, `addClient` and the message loop over
   * the lines left; then, in every case, the `finally` block's
   * `removeClient`, whose leave notice names a null user when the handshake
   * never succeeded.
   */
  function Serve(h: HandlerId, hs: Handshake, reg: Registry): (s: Session)
    requires h !in reg.members
    ensures s.handshake == hs
    ensures s.broadcasts == Broadcasts(h, hs)
    ensures s.registry.members == reg.members
    ensures forall c :: c in reg.members ==> Outbox(s.registry, c) == Outbox(reg, c) + Heard(hs)
    ensures Outbox(s.registry, h) == Outbox(reg, h) + WireAll(hs.replies)
      + (if hs.state.Authenticated? then [JoinNotice(Some(hs.state.username))] else [])
    ensures forall c :: c !in reg.members && c != h ==> Outbox(s.registry, c) == Outbox(reg, c)
  {
    var r0 := Tell(reg, h, WireAll(hs.replies));
    match hs.state
    case Authenticated(u) =>
      TellThenChat(reg, h, WireAll(hs.replies), u, hs.rest);
      Session(hs, Broadcasts(h, hs), Chat(r0, h, u, hs.rest))
    case Unauthenticated =>
      TellThenLeave(reg, h, WireAll(hs.replies));
      Session(hs, Broadcasts(h, hs), RemoveClient(r0, h, None))
  }

  /** A handler that never joined still makes every member hear a leave notice for a null user. */
  lemma TellThenLeave(reg: Registry, h: HandlerId, lines: seq<string>)
    requires h !in reg.members
    ensures var r := RemoveClient(Tell(reg, h, lines), h, None);
      && r.members == reg.members
      && (forall c :: c in reg.members ==> Outbox(r, c) == Outbox(reg, c) + [LeaveNotice(None)])
      && Outbox(r, h) == Outbox(reg, h) + lines
      && (forall c :: c !in reg.members && c != h ==> Outbox(r, c) == Outbox(reg, c))
  {
    var r0 := Tell(reg, h, lines);
    forall c | c in reg.members ensures Outbox(r0, c) == Outbox(reg, c) {
      assert c != h;
    }
  }

  /** The authenticated part of `run`: `addClient`, the message loop, `removeClient`. */
  function Chat(r: Registry, h: HandlerId, u: string, msgs: seq<string>): (r': Registry)
    requires h !in r.members
    ensures r'.members == r.members
    ensures forall c :: c in r.members ==>
      Outbox(r', c) == Outbox(r, c) + Membership(u, msgs)
    ensures Outbox(r', h) == Outbox(r, h) + [JoinNotice(Some(u))]
    ensures forall c :: c !in r.members && c != h ==> Outbox(r', c) == Outbox(r, c)
  {
    var r1 := AddClient(r, h, Some(u));
    var r2 := Relay(r1, h, u, msgs);
    var r3 := RemoveClient(r2, h, Some(u));
    ChatOutboxes(r, h, u, msgs, r1, r2, r3);
    r3
  }

  lemma ChatOutboxes(r: Registry, h: HandlerId, u: string, msgs: seq<string>, r1: Registry, r2: Registry, r3: Registry)
    requires h !in r.members
    requires r1 == AddClient(r, h, Some(u)) && r2 == Relay(r1, h, u, msgs) && r3 == RemoveClient(r2, h, Some(u))
    ensures r3.members == r.members
    ensures forall c :: c in r.members ==>
      Outbox(r3, c) == Outbox(r, c) + Membership(u, msgs)
    ensures Outbox(r3, h) == Outbox(r, h) + [JoinNotice(Some(u))]
    ensures forall c :: c !in r.members && c != h ==> Outbox(r3, c) == Outbox(r, c)
  {
    assert r3.members == r.members;
    forall c | c in r.members
      ensures Outbox(r3, c) == Outbox(r, c) + Membership(u, msgs)
    {
      assert c != h && c in r1.members && c in r3.members;
      assert Outbox(r1, c) == Outbox(r, c) + [JoinNotice(Some(u))];
      assert Outbox(r2, c) == Outbox(r1, c) + ChatLines(u, msgs);
      AppendThree(Outbox(r, c), [JoinNotice(Some(u))], ChatLines(u, msgs), [LeaveNotice(Some(u))]);
    }
    assert Outbox(r1, h) == Outbox(r, h) + [JoinNotice(Some(u))];
    assert Outbox(r2, h) == Outbox(r1, h);
    forall c | c !in r.members && c != h ensures Outbox(r3, c) == Outbox(r, c) {
      assert c !in r1.members;
    }
  }

  lemma AppendThree(a: seq<string>, b: seq<string>, c: seq<string>, d: seq<string>)
    ensures a + b + c + d == a + (b + c + d)
  {
  }

  /** The handshake replies go to the peer before anything `Chat` sends. */
  lemma TellThenChat(reg: Registry, h: HandlerId, lines: seq<string>, u: string, msgs: seq<string>)
    requires h !in reg.members
    ensures var r := Chat(Tell(reg, h, lines), h, u, msgs);
      && r.members == reg.members
      && (forall c :: c in reg.members ==>
            Outbox(r, c) == Outbox(reg, c) + Membership(u, msgs))
      && Outbox(r, h) == Outbox(reg, h) + lines + [JoinNotice(Some(u))]
      && (forall c :: c !in reg.members && c != h ==> Outbox(r, c) == Outbox(reg, c))
  {
    var r0 := Tell(reg, h, lines);
    forall c | c in reg.members ensures Outbox(r0, c) == Outbox(reg, c) {
      assert c != h;
    }
  }

  /**
   * `run` for a fresh handler `h` (a new ClientHandler is never already a
   * member): the handshake over the input, then `Serve`.
   */
  function Run(h: HandlerId, input: seq<string>, store: seq<string>, disk: Disk, reg: Registry): (s: Session)
    requires h !in reg.members
    ensures Concludes(input, store, disk, s.handshake)
    ensures s.broadcasts == Broadcasts(h, s.handshake)
    ensures s.registry.members == reg.members
    ensures forall c :: c in reg.members ==> Outbox(s.registry, c) == Outbox(reg, c) + Heard(s.handshake)
    ensures Outbox(s.registry, h) == Outbox(reg, h) + WireAll(s.handshake.replies)
      + (if s.handshake.state.Authenticated? then [JoinNotice(Some(s.handshake.state.username))] else [])
    ensures forall c :: c !in reg.members && c != h ==> Outbox(s.registry, c) == Outbox(reg, c)
  {
    Serve(h, Authenticating(input, store, disk), reg)
  }

  /**
   * Every member already in the chat receives the connection's broadcasts,
   * one line per `broadcast` call and in the order they were made: none of
   * them excludes an earlier member.
   */
  lemma MembersHearEveryBroadcast(h: HandlerId, hs: Handshake, reg: Registry, c: HandlerId)
    requires h !in reg.members && c in reg.members
    ensures var s := Serve(h, hs, reg);
      && |Outbox(s.registry, c)| == |Outbox(reg, c)| + |s.broadcasts|
      && forall i :: 0 <= i < |s.broadcasts| ==>
           s.broadcasts[i].exclude != Some(c) && Outbox(s.registry, c)[|Outbox(reg, c)| + i] == s.broadcasts[i].text
  {
    var s := Serve(h, hs, reg);
    assert c != h;
    Received(Outbox(reg, c), Outbox(s.registry, c), Heard(hs), s.broadcasts);
  }

  /** An outbox grown by exactly the notices' texts holds them after what it had, in order. */
  lemma Received(before: seq<string>, after: seq<string>, heard: seq<string>, ns: seq<Notice>)
    requires after == before + heard
    requires |ns| == |heard| && forall i :: 0 <= i < |ns| ==> ns[i].text == heard[i]
    ensures |after| == |before| + |ns|
    ensures forall i :: 0 <= i < |ns| ==> after[|before| + i] == ns[i].text
  {
  }
}
