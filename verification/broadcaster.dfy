/**
 * The static `clientHandlers` registry of `ChatServer` and its three
 * operations `broadcast`, `addClient` and `removeClient`. A handler is known
 * by identity (ClientHandler does not override `equals`), and what its
 * PrintWriter has sent so far is its outbox.
 */
module Broadcaster {
  import opened Wrappers
  import opened JavaStrings

  /** A ClientHandler object, compared by reference. */
  type HandlerId = nat

  /** The set of joined handlers, and the lines each handler has sent to its peer. */
  datatype Registry = Registry(members: set<HandlerId>, outboxes: map<HandlerId, seq<string>>)

  /** Everything handler `c` has sent so far (nothing, for a handler never written to). */
  function Outbox(r: Registry, c: HandlerId): seq<string>
  {
    if c in r.outboxes then r.outboxes[c] else []
  }

  /** `c.sendMessage(m)`: one more line on `c`'s output, nobody else's. */
  function SendMessage(r: Registry, c: HandlerId, m: string): (r': Registry)
    ensures r'.members == r.members
    ensures Outbox(r', c) == Outbox(r, c) + [m]
    ensures forall d :: d != c ==> Outbox(r', d) == Outbox(r, d)
  {
    r.(outboxes := r.outboxes[c := Outbox(r, c) + [m]])
  }

  /** The members a broadcast reaches: all but the excluded one (`None` is Java's null). */
  function Recipients(r: Registry, exclude: Option<HandlerId>): (to: set<HandlerId>)
    ensures to <= r.members
  {
    set c | c in r.members && exclude != Some(c)
  }

  /**
   * `broadcast(m, exclude)`: every member other than `exclude` gets exactly
   * one more line `m`; the excluded handler, non-members and the member set
   * are left alone.
   */
  function Broadcast(r: Registry, m: string, exclude: Option<HandlerId>): (r': Registry)
    ensures r'.members == r.members
    ensures forall c :: c in r.members && exclude != Some(c) ==> Outbox(r', c) == Outbox(r, c) + [m]
    ensures forall c :: c !in r.members || exclude == Some(c) ==> Outbox(r', c) == Outbox(r, c)
  {
    var to := Recipients(r, exclude);
    r.(outboxes := map c | c in r.outboxes.Keys + to :: if c in to then Outbox(r, c) + [m] else r.outboxes[c])
  }

  /**
   * The `for` loop of `broadcast`, visiting the members in whatever order
   * the HashSet yields them: it ends in the same registry as `Broadcast`.
   */
  method BroadcastInTurn(r: Registry, m: string, exclude: Option<HandlerId>) returns (r': Registry)
    ensures r' == Broadcast(r, m, exclude)
  {
    var to := Recipients(r, exclude);
    var pending := r.members;
    r' := r;
    while pending != {}
      invariant pending <= r.members
      invariant r'.members == r.members
      invariant r'.outboxes.Keys == r.outboxes.Keys + (to - pending)
      invariant forall c :: c in r'.outboxes ==>
        r'.outboxes[c] == if c in to - pending then Outbox(r, c) + [m] else r.outboxes[c]
      decreases pending
    {
      var c :| c in pending;
      if exclude != Some(c) {
        r' := SendMessage(r', c, m);
      }
      pending := pending - {c};
    }
    assert r'.outboxes == Broadcast(r, m, exclude).outboxes;
  }

  /** Excluding a handler that is not a member is the same as excluding nobody. */
  lemma ExcludingNonMember(r: Registry, m: string, x: HandlerId)
    requires x !in r.members
    ensures Broadcast(r, m, Some(x)) == Broadcast(r, m, None)
  {
    assert Recipients(r, Some(x)) == Recipients(r, None);
  }

  function JoinNotice(name: Option<string>): string
  {
    Text(name) + " has joined the chat!"
  }

  function LeaveNotice(name: Option<string>): string
  {
    Text(name) + " has left the chat!"
  }

  /**
   * `addClient(h)`: `h` becomes a member, then the join notice goes to
   * every member, `h` included, since the broadcast excludes null.
   */
  function AddClient(r: Registry, h: HandlerId, name: Option<string>): (r': Registry)
    ensures r'.members == r.members + {h}
    ensures Outbox(r', h) == Outbox(r, h) + [JoinNotice(name)]
    ensures forall c :: c in r.members ==> Outbox(r', c) == Outbox(r, c) + [JoinNotice(name)]
    ensures forall c :: c !in r'.members ==> Outbox(r', c) == Outbox(r, c)
  {
    Broadcast(r.(members := r.members + {h}), JoinNotice(name), None)
  }

  /**
   * `removeClient(h)`: `h` stops being a member (a no-op on the set if it
   * never was one), then the leave notice goes to every remaining member,
   * whether or not `h` had joined.
   */
  function RemoveClient(r: Registry, h: HandlerId, name: Option<string>): (r': Registry)
    ensures r'.members == r.members - {h}
    ensures forall c :: c in r'.members ==> Outbox(r', c) == Outbox(r, c) + [LeaveNotice(name)]
    ensures forall c :: c !in r'.members ==> Outbox(r', c) == Outbox(r, c)
  {
    Broadcast(r.(members := r.members - {h}), LeaveNotice(name), None)
  }

  /**
   * Removal is idempotent on the member set but not on the outboxes:
   * removing `h` a second time sends every remaining member a second leave
   * notice.
   */
  lemma RemoveTwice(r: Registry, h: HandlerId, name: Option<string>)
    ensures RemoveClient(RemoveClient(r, h, name), h, name).members == RemoveClient(r, h, name).members
    ensures forall c :: c in r.members && c != h ==>
      Outbox(RemoveClient(RemoveClient(r, h, name), h, name), c) == Outbox(r, c) + [LeaveNotice(name), LeaveNotice(name)]
  {
    var r1 := RemoveClient(r, h, name);
    var r2 := RemoveClient(r1, h, name);
    forall c | c in r.members && c != h
      ensures Outbox(r2, c) == Outbox(r, c) + [LeaveNotice(name), LeaveNotice(name)]
    {
      assert Outbox(r1, c) == Outbox(r, c) + [LeaveNotice(name)];
    }
  }

  /**
   * Joining then leaving restores the member set; every other member hears
   * both notices, and `h` hears only its own join notice.
   */
  lemma JoinThenLeave(r: Registry, h: HandlerId, name: Option<string>)
    requires h !in r.members
    ensures RemoveClient(AddClient(r, h, name), h, name).members == r.members
    ensures Outbox(RemoveClient(AddClient(r, h, name), h, name), h) == Outbox(r, h) + [JoinNotice(name)]
    ensures forall c :: c in r.members ==>
      Outbox(RemoveClient(AddClient(r, h, name), h, name), c) == Outbox(r, c) + [JoinNotice(name), LeaveNotice(name)]
  {
    var r1 := AddClient(r, h, name);
    var r2 := RemoveClient(r1, h, name);
    forall c | c in r.members
      ensures Outbox(r2, c) == Outbox(r, c) + [JoinNotice(name), LeaveNotice(name)]
    {
      assert Outbox(r1, c) == Outbox(r, c) + [JoinNotice(name)];
    }
  }
}
