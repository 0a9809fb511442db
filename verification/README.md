# Chat server: credential file, client registry and client handshake

A Dafny model of the core of a small Java chat server (`ChatServer.java`).
Three parts of the server are modelled:

- **Credential file.** `users.txt` holds one `username:password` line per
  account. `authenticate` scans it for a matching line. `registerUser`
  refuses a name that is already present and otherwise appends a line.
- **Registry.** The server keeps a static set of joined `ClientHandler`s.
  - `broadcast` sends a line to every member except one.
  - `addClient` and `removeClient` change the set and announce the change.
- **Handler.** Each `ClientHandler` runs a login/sign-up loop, then relays
  the client's lines as `username: message`, and always ends with
  `removeClient`.

The modules follow the source:

| module | file | what it holds |
|---|---|---|
| `Wrappers` | `wrappers.dfy` | `Option`, where `None` plays Java's `null` |
| `JavaStrings` | `java_strings.dfy` | `String.split(":")` and how a null string prints |
| `UserStore` | `user_store.dfy` | the credential file, `authenticate`, `registerUser` |
| `Broadcaster` | `broadcaster.dfy` | the registry, `broadcast`, `addClient`, `removeClient`, `sendMessage` |
| `ClientHandler` | `client_handler.dfy` | `run`, `handleLogin`, `handleSignUp`, `getUsername` |

### How the model represents the source

- **The file.** The file is a `seq<string>` of lines.
- **Read faults.** A `Disk` value says how reading it fails.
  - `FaultAt(k)` stops reading after `k` lines.
  - `FaultAt(0)` is a missing or unreadable file.
  - The `appendOk` flag says whether the append succeeds.
- **`split`.** `split(":")` follows Java exactly.
  - A string without a colon gives itself, so `""` gives `[""]`.
  - Otherwise trailing empty fields are dropped, so `":"` gives `[]`.
- **Bad indexes.** `userDetails[0]` or `userDetails[1]` on a short array
  throws `ArrayIndexOutOfBoundsException`. The model returns `OutOfBounds`
  (datatype `Call`). In `run` that exception skips the rest of the
  `try` block and goes straight to the `finally` teardown.
- **Handlers and outboxes.** Handlers are compared by identity
  (`HandlerId`). Each handler's `PrintWriter` output is an outbox of lines.
- **The connection.** The peer's input is a `seq<string>` of lines.
  `Authenticating` consumes it and returns a `Handshake`, which records:
  - the replies sent;
  - the file afterwards;
  - the resulting state;
  - the unread lines, which become the chat messages;
  - whether a credential check threw.

  `Run` also records every `broadcast` call made and the registry
  afterwards.

### Behaviour followed where a plain reading might differ

- **Join notice.** `addClient` broadcasts the join notice with a null
  exclusion, so the joining client receives its own
  "`<name> has joined the chat!`" (`ChatServer.java:37`).
- **Teardown without login.** `removeClient` always broadcasts. A connection
  that never authenticated therefore makes every member receive
  "`null has left the chat!`" (`ChatServer.java:41-45`, `131`).
- **Unreadable file during sign-up.** `registerUser` swallows the read
  failure and appends anyway (`ChatServer.java:74-76`), which can
  duplicate a name.
- **Colon in a user name.** A user name containing `:` is stored unescaped.
  Its line then reads back under a different name, which can also
  duplicate a name.
- **Empty password.** An account created with an empty password is stored
  as `name:`. That line splits to `[name]`, so logging in as that user
  throws out of `authenticate` (`ChatServer.java:53`).

## Model

| member | source | states |
|---|---|---|
| `JavaStrings.SplitShape` | ChatServer.java:52 | `split(":")` gives an empty array exactly for a non-empty run of colons, and `[""]` exactly for the empty line; otherwise its last piece is non-empty |
| `JavaStrings.SplitRejoins` | ChatServer.java:52 | rejoining the pieces with `:` rebuilds the line up to the trailing colons Java drops |
| `JavaStrings.Split` | ChatServer.java:69 | no piece contains the delimiter |
| `JavaStrings.FieldsJoin` | ChatServer.java:80 | splitting colon-joined, colon-free fields at every colon gives the fields back |
| `JavaStrings.RecordSplit` | ChatServer.java:80 | a stored `u:p` line with colon-free parts splits to `[u, p]`, or to `[u]` when only `p` is empty, or to `[]` when both are empty |
| `UserStore.LinesRead` | ChatServer.java:49-51 | a read fault yields a prefix of the file; a missing file yields no lines; no fault yields every line |
| `UserStore.CheckLogin` | ChatServer.java:52-53 | a line matches exactly when its first two fields are the name and password; it throws exactly when the split is empty, or the name matches and there is no second field |
| `UserStore.CheckName` | ChatServer.java:69-70 | a line names the user exactly when its first field is the name; it throws exactly when the split is empty |
| `UserStore.ScanDecides` | ChatServer.java:51-56 | the scan stops at the first line that matches or throws; it returns false only when every line misses |
| `UserStore.Authenticate` | ChatServer.java:48-61 | `true` only when some stored line holds the name and password; a missing file gives `false` |
| `UserStore.AuthenticateExactly` | ChatServer.java:48-61 | on a readable file whose lines cannot throw for this user, login succeeds exactly when some line grants the name and password |
| `UserStore.FaultBeforeGrantDeniesLogin` | ChatServer.java:49-60 | a read fault before any granting line refuses the login even when a later line would grant it; a file that cannot be opened refuses everyone |
| `UserStore.RegisterUser` | ChatServer.java:64-87 | on success the file gains exactly `u:p` at its end, after every line read was checked to hold another name; on refusal the file is unchanged; success needs the append to work |
| `UserStore.RegisterRefusesTakenName` | ChatServer.java:68-72 | once the reader reaches a line naming the user, with every earlier line having a field 0, the registration is refused and the file stays unchanged; later lines are never looked at |
| `UserStore.RegisterAcceptsNewName` | ChatServer.java:78-82 | a healthy file without the name accepts it and appends `u:p` |
| `UserStore.UnreadableFileSkipsDuplicateCheck` | ChatServer.java:74-82 | when the file cannot be read, the name is appended without any check |
| `UserStore.RegisterKeepsNamesUnique` | ChatServer.java:64-87 | on a readable file, registering a colon-free name keeps every stored name unique |
| `UserStore.DelimiterInNameBreaksUniqueness` | ChatServer.java:80 | the name `a:b` is accepted next to `a:x` and then reads back as a second `a` |
| `UserStore.UnreadableFileBreaksUniqueness` | ChatServer.java:74-80 | with an unreadable file, a second `a` is appended next to `a:x` |
| `UserStore.RegisterThenLogin` | ChatServer.java:52-53 | after a successful sign-up with colon-free credentials and a non-empty password, logging in with them succeeds |
| `UserStore.EmptyPasswordLoginThrows` | ChatServer.java:53 | after signing up with an empty password, logging in with it throws out of `authenticate` |
| `Broadcaster.SendMessage` | ChatServer.java:175-177 | one more line on that handler's output; nobody else's changes |
| `Broadcaster.Broadcast` | ChatServer.java:26-32 | every member other than the excluded one gets the line exactly once; the excluded handler, non-members and the member set are unchanged |
| `Broadcaster.BroadcastInTurn` | ChatServer.java:27-31 | the loop over the members, in any order, ends in the registry `Broadcast` describes |
| `Broadcaster.ExcludingNonMember` | ChatServer.java:28 | excluding a non-member sends to the same members as excluding null |
| `Broadcaster.AddClient` | ChatServer.java:35-38 | the handler joins; it and every earlier member receive the join notice; nobody else receives anything |
| `Broadcaster.RemoveClient` | ChatServer.java:41-45 | the handler leaves, whether or not it was a member; every remaining member receives the leave notice |
| `Broadcaster.RemoveTwice` | ChatServer.java:41-45 | removal is idempotent on the member set, but a second removal sends a second leave notice |
| `Broadcaster.JoinThenLeave` | ChatServer.java:35-45 | joining then leaving restores the member set; the others hear both notices and the handler hears its own join |
| `ClientHandler.WireDistinct` | ChatServer.java:110-169 | no two protocol replies share a text, so the peer can tell every reply apart |
| `ClientHandler.Username` | ChatServer.java:180-182 | `getUsername()` is null exactly until a login or sign-up succeeds |
| `ClientHandler.HandleLogin` | ChatServer.java:141-155 | a login never changes the file, and succeeds only for a stored name and password |
| `ClientHandler.HandleSignUp` | ChatServer.java:158-172 | a sign-up changes the file only when it succeeds, by appending `u:p`; it throws exactly when `registerUser` throws |
| `ClientHandler.Round` | ChatServer.java:109-117 | one loop pass either continues with only non-success lines sent, or stops at a conclusive ending |
| `ClientHandler.Authenticating` | ChatServer.java:108-117 | the handshake starts with the menu prompt and reads a prefix of the input; it is authenticated exactly when its last reply is a success, which no earlier reply is; a success or a throw is explained by the last three lines read; failure leaves the file unchanged |
| `ClientHandler.RepromptConcludes` | ChatServer.java:109-117 | a further round keeps the guarantees of the rounds after it |
| `ClientHandler.OnlyInvalidChoices` | ChatServer.java:110-116 | input with no `1` or `2` gets one menu prompt per line plus one, and no login or change to the file |
| `ClientHandler.AcceptedRoundEnds` | ChatServer.java:147-150 | accepted credentials end the loop authenticated as the name just read, with the rest of the input left for chat |
| `ClientHandler.RefusedRoundReprompts` | ChatServer.java:151-153 | refused credentials send the failure line, then the loop starts again on the following input |
| `ClientHandler.RefusedRoundsChangeNothing` | ChatServer.java:109-117 | any run of refused rounds and invalid choices in front of the input leaves the loop's outcome unchanged: same state, file, unread input and throw |
| `ClientHandler.FirstDecidingRound` | ChatServer.java:109-117 | after any refused rounds, the first round whose check does not return false decides the loop: authenticated as that round's name exactly when it was accepted, ended by a throw exactly when it threw, with exactly the following input unread |
| `ClientHandler.RefusedStaysOut` | ChatServer.java:109-117 | input made only of refused rounds and invalid choices leaves the client unauthenticated, with no throw and the file unchanged |
| `ClientHandler.RefusedThenCutOff` | ChatServer.java:109-117 | input ending inside a round after refused ones leaves the client unauthenticated with the file unchanged |
| `ClientHandler.Relay` | ChatServer.java:123-127 | every other member receives `name: line` for each line read, in order; the sender and non-members receive nothing |
| `ClientHandler.HeardNamesUser` | ChatServer.java:37 | what the others hear ends with a leave notice naming `getUsername()`, and starts with the join notice for a joined user |
| `ClientHandler.Broadcasts` | ChatServer.java:120-131 | the `broadcast` calls of a connection carry, one for one and in order, the lines the other members hear; only the chat lines exclude the sender, while the join and leave notices exclude nobody |
| `ClientHandler.Serve` | ChatServer.java:119-137 | after the handshake every earlier member hears join, chat lines and leave (or a lone `null` leave); the handler's peer gets the replies and its own join notice; the member set is restored |
| `ClientHandler.Run` | ChatServer.java:101-138 | the whole connection: the handshake guarantees, the `broadcast` calls made, and the registry effects of `Serve` |
| `ClientHandler.MembersHearEveryBroadcast` | ChatServer.java:26-31 | every member already in the chat receives each of the connection's `broadcast` lines once, in the order they were made |

## Left out

- **Threads and locking.** Each handler runs on its own thread, and the
  shared `HashSet` is used without locking. The model runs one session
  against a registry in a sequential setting and does not model
  interleaving.
- **Sockets, streams and `main`.** The accept loop, socket closing and the
  port constant are not modelled. Reads and writes become the input
  sequence and the outboxes.
- **Console output.** `System.out` logging and `printStackTrace` are
  omitted: the peer never sees them.
- **File handling mechanics.** Opening, buffering, the newline after each
  record, and a final line without a newline are not modelled.
  - The file is a sequence of lines, and an append adds exactly one.
  - A line containing a newline, such as a user name with an embedded line
    break, is not modelled.
- **Faults.** A read fault is fixed per `Disk`, not chosen per call.
- ClientHandler.Authenticating: at end of input the model ends the
  handshake. In Java the missing line reads as `null`:
  - a null menu choice throws a NullPointerException, which likewise goes
    to the `finally` teardown;
  - a null user name or password is instead passed on to the credential
    check.
    - `authenticate` then refuses it, since no line can match a null. It
      throws instead when it reaches a line that splits to an empty array,
      or, for a null password, a line naming the user that has no field 1
      (such as the `name:` line an empty-password sign-up stores).
    - `registerUser` may store a line such as `alice:null` and sign the
      client in.

  The model does not send these extra replies or make these extra file
  changes.
- **`IOException` mid-chat.** An `IOException` while relaying ends the loop
  like end of input. The model treats the unread lines as everything
  received.
- **`ChatClient.java`.** The console client is not part of this model.
