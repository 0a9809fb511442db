/**
 * The credential file `users.txt` and the two static methods that use it,
 * `ChatServer.authenticate` and `ChatServer.registerUser`. The file is its
 * sequence of lines; each record is `username:password` in clear text.
 */
module UserStore {
  import opened Wrappers
  import opened JavaStrings

  /**
   * Where reading the file fails with an IOException: `FaultAt(k)` when
   * line `k` is about to be read, so `FaultAt(0)` is a missing or unreadable
   * file.
   */
  datatype ReadFault = NoFault | FaultAt(line: nat)

  /** How the file system behaves while one operation uses the file. */
  datatype Disk = Disk(read: ReadFault, appendOk: bool)

  const Healthy: Disk := Disk(NoFault, true)

  /**
   * The result of a call: a returned value, or the
   * ArrayIndexOutOfBoundsException raised by indexing a split line that has
   * too few fields. That exception is not an IOException, so neither method
   * catches it and it reaches the caller.
   */
  datatype Call<T> = Returns(value: T) | OutOfBounds

  /** What the scan loop concludes from one line. */
  datatype LineCheck = Hit | Miss | IndexFault

  /** The outcome of `registerUser`: its boolean result and the file afterwards. */
  datatype Registration = Registration(ok: bool, store: seq<string>)

  /** The line `registerUser` appends. */
  function Record(u: string, p: string): string
  {
    u + [Delimiter] + p
  }

  /** The lines a reader gets before the fault (all of them when there is none). */
  function LinesRead(store: seq<string>, fault: ReadFault): (r: seq<string>)
    ensures r <= store
    ensures fault.NoFault? ==> r == store
    ensures fault == FaultAt(0) ==> r == []
  {
    match fault
    case NoFault => store
    case FaultAt(k) => if k <= |store| then store[..k] else store
  }

  /** The user name a line records: its field 0, when it has one. */
  predicate Names(line: string, u: string)
  {
    var f := Split(line);
    |f| > 0 && f[0] == u
  }

  /** A line whose fields 0 and 1 are exactly these credentials. */
  predicate Grants(line: string, u: string, p: string)
  {
    var f := Split(line);
    |f| >= 2 && f[0] == u && f[1] == p
  }

  /**
   * One iteration of the `authenticate` loop. Field 1 is read only when
   * field 0 matches (the `&&` short-circuits), and each read can be out of
   * bounds.
   */
  function CheckLogin(line: string, u: string, p: string): (c: LineCheck)
    ensures c == Hit <==> Grants(line, u, p)
    ensures c == IndexFault <==> |Split(line)| == 0 || (Names(line, u) && |Split(line)| < 2)
  {
    var f := Split(line);
    if |f| == 0 then IndexFault
    else if f[0] != u then Miss
    else if |f| < 2 then IndexFault
    else if f[1] == p then Hit
    else Miss
  }

  /** One iteration of the duplicate check in `registerUser`. */
  function CheckName(line: string, u: string): (c: LineCheck)
    ensures c == Hit <==> Names(line, u)
    ensures c == IndexFault <==> |Split(line)| == 0
  {
    var f := Split(line);
    if |f| == 0 then IndexFault
    else if f[0] == u then Hit
    else Miss
  }

  predicate AllMiss(cs: seq<LineCheck>)
  {
    forall i :: 0 <= i < |cs| ==> cs[i] == Miss
  }

  /** `cs[i]` is the first check that is not a `Miss`. */
  predicate FirstDecisive(cs: seq<LineCheck>, i: int)
  {
    0 <= i < |cs| && cs[i] != Miss && AllMiss(cs[..i])
  }

  /**
   * A read loop that stops at the first decisive line: a hit returns true,
   * an index fault throws, and reaching the end returns false.
   */
  function Scan(cs: seq<LineCheck>): Call<bool>
    decreases |cs|
  {
    if |cs| == 0 then Returns(false)
    else if cs[0] == Hit then Returns(true)
    else if cs[0] == IndexFault then OutOfBounds
    else Scan(cs[1..])
  }

  /**
   * The scan is decided by its first decisive line: false when there is
   * none, true when it is a hit, a throw when it is an index fault.
   */
  lemma {:induction false} ScanDecides(cs: seq<LineCheck>)
    ensures Scan(cs) == Returns(false) <==> AllMiss(cs)
    ensures Scan(cs) == Returns(true) <==> exists i :: FirstDecisive(cs, i) && cs[i] == Hit
    ensures Scan(cs) == OutOfBounds <==> exists i :: FirstDecisive(cs, i) && cs[i] == IndexFault
    decreases |cs|
  {
    if |cs| == 0 {
    } else if cs[0] != Miss {
      assert FirstDecisive(cs, 0);
    } else {
      ScanDecides(cs[1..]);
      ShiftDecisive(cs);
      if exists i :: FirstDecisive(cs, i) {
        var i :| FirstDecisive(cs, i);
        assert FirstDecisive(cs[1..], i - 1);
      }
    }
  }

  /** Past a leading `Miss`, the decisive positions are those of the tail, shifted by one. */
  lemma ShiftDecisive(cs: seq<LineCheck>)
    requires |cs| > 0 && cs[0] == Miss
    ensures AllMiss(cs) <==> AllMiss(cs[1..])
    ensures forall i :: FirstDecisive(cs[1..], i) <==> FirstDecisive(cs, i + 1)
    ensures !FirstDecisive(cs, 0)
  {
    forall i | 0 <= i < |cs| - 1
      ensures FirstDecisive(cs[1..], i) <==> FirstDecisive(cs, i + 1)
    {
      assert cs[..i + 1] == [cs[0]] + cs[1..][..i];
    }
    if AllMiss(cs[1..]) {
      forall i | 0 <= i < |cs| ensures cs[i] == Miss {
        if i > 0 { assert cs[i] == cs[1..][i - 1]; }
      }
    }
  }

  function LoginChecks(lines: seq<string>, u: string, p: string): (cs: seq<LineCheck>)
    ensures |cs| == |lines|
    ensures forall i :: 0 <= i < |lines| ==> cs[i] == CheckLogin(lines[i], u, p)
  {
    seq(|lines|, i requires 0 <= i < |lines| => CheckLogin(lines[i], u, p))
  }

  function NameChecks(lines: seq<string>, u: string): (cs: seq<LineCheck>)
    ensures |cs| == |lines|
    ensures forall i :: 0 <= i < |lines| ==> cs[i] == CheckName(lines[i], u)
  {
    seq(|lines|, i requires 0 <= i < |lines| => CheckName(lines[i], u))
  }

  /**
   * `authenticate(u, p)`: scans the lines it can read; true at the first
   * line granting the credentials, false at end of file or on a read fault.
   */
  function Authenticate(store: seq<string>, disk: Disk, u: string, p: string): (r: Call<bool>)
    ensures r == Returns(true) ==> exists i :: 0 <= i < |store| && Grants(store[i], u, p)
    ensures disk.read == FaultAt(0) ==> r == Returns(false)
  {
    var lines := LinesRead(store, disk.read);
    var r := Scan(LoginChecks(lines, u, p));
    HitIsStored(store, lines, u, p);
    r
  }

  lemma HitIsStored(store: seq<string>, lines: seq<string>, u: string, p: string)
    requires lines <= store
    ensures Scan(LoginChecks(lines, u, p)) == Returns(true) ==> exists i :: 0 <= i < |store| && Grants(store[i], u, p)
  {
    ScanDecides(LoginChecks(lines, u, p));
    if Scan(LoginChecks(lines, u, p)) == Returns(true) {
      var i :| FirstDecisive(LoginChecks(lines, u, p), i) && LoginChecks(lines, u, p)[i] == Hit;
      assert store[i] == lines[i];
    }
  }

  /**
   * `registerUser(u, p)`: the duplicate check over the lines it can read,
   * then an append. A read fault ends the check early and the append still
   * happens; an append fault returns false and leaves the file as it was.
   */
  function RegisterUser(store: seq<string>, disk: Disk, u: string, p: string): (r: Call<Registration>)
    ensures r.Returns? && r.value.ok ==> r.value.store == store + [Record(u, p)]
    ensures r.Returns? && !r.value.ok ==> r.value.store == store
    ensures r.Returns? && r.value.ok ==>
      forall i :: 0 <= i < |LinesRead(store, disk.read)| ==>
        |Split(LinesRead(store, disk.read)[i])| > 0 && !Names(LinesRead(store, disk.read)[i], u)
    ensures r.Returns? && r.value.ok ==> disk.appendOk
  {
    var lines := LinesRead(store, disk.read);
    ScanDecides(NameChecks(lines, u));
    match Scan(NameChecks(lines, u))
    case OutOfBounds => OutOfBounds
    case Returns(taken) =>
      if taken || !disk.appendOk then Returns(Registration(false, store))
      else
        assert forall i :: 0 <= i < |lines| ==> NameChecks(lines, u)[i] == Miss;
        Returns(Registration(true, store + [Record(u, p)]))
  }

  /** No line is made of delimiters only, so every line has a field 0. */
  predicate HasNames(store: seq<string>)
  {
    forall i :: 0 <= i < |store| ==> |Split(store[i])| > 0
  }

  /**
   * Neither field read by `authenticate` for `u` is out of bounds: every
   * line has a field 0, and a line naming `u` also has a field 1.
   */
  predicate IndexSafe(store: seq<string>, u: string)
  {
    forall i :: 0 <= i < |store| ==> |Split(store[i])| > 0 && (Names(store[i], u) ==> |Split(store[i])| >= 2)
  }

  /** On a readable file that cannot make it throw, `authenticate` is exactly "some line grants". */
  lemma AuthenticateExactly(store: seq<string>, disk: Disk, u: string, p: string)
    requires disk.read == NoFault
    requires IndexSafe(store, u)
    ensures Authenticate(store, disk, u, p) == Returns(exists i :: 0 <= i < |store| && Grants(store[i], u, p))
  {
    var cs := LoginChecks(store, u, p);
    forall i | 0 <= i < |cs| ensures cs[i] != IndexFault {
      assert cs[i] == CheckLogin(store[i], u, p);
    }
    ScanWithoutFault(cs);
    assert (exists i :: 0 <= i < |cs| && cs[i] == Hit) <==> (exists i :: 0 <= i < |store| && Grants(store[i], u, p)) by {
      forall i | 0 <= i < |cs| ensures cs[i] == Hit <==> Grants(store[i], u, p) {
        assert cs[i] == CheckLogin(store[i], u, p);
      }
    }
  }

  /** Without index faults the scan answers "is there a hit". */
  lemma {:induction false} ScanWithoutFault(cs: seq<LineCheck>)
    requires forall i :: 0 <= i < |cs| ==> cs[i] != IndexFault
    ensures Scan(cs) == Returns(exists i :: 0 <= i < |cs| && cs[i] == Hit)
    decreases |cs|
  {
    if |cs| > 0 && cs[0] == Miss {
      ScanWithoutFault(cs[1..]);
      assert (exists i :: 0 <= i < |cs| && cs[i] == Hit) <==> (exists i :: 0 <= i < |cs[1..]| && cs[1..][i] == Hit) by {
        forall i | 0 <= i < |cs[1..]| ensures cs[1..][i] == cs[i + 1] {}
      }
    }
  }

  /**
   * A read fault before any granting line refuses the login, even when a
   * later line would grant it; a file that cannot be opened (`k == 0`)
   * refuses everyone.
   */
  lemma FaultBeforeGrantDeniesLogin(store: seq<string>, k: nat, appendOk: bool, u: string, p: string)
    requires forall i :: 0 <= i < k && i < |store| ==> CheckLogin(store[i], u, p) == Miss
    ensures Authenticate(store, Disk(FaultAt(k), appendOk), u, p) == Returns(false)
  {
    var lines := LinesRead(store, FaultAt(k));
    var cs := LoginChecks(lines, u, p);
    forall i | 0 <= i < |cs| ensures cs[i] == Miss {
      assert lines[i] == store[i];
    }
    ScanDecides(cs);
  }

  /**
   * A name on file is refused and the file is left alone, provided the
   * reader gets as far as a line naming it and no earlier line splits to an
   * empty array (lines after it are never looked at).
   */
  lemma RegisterRefusesTakenName(store: seq<string>, disk: Disk, u: string, p: string)
    requires exists k ::
      && 0 <= k < |LinesRead(store, disk.read)| && Names(store[k], u)
      && forall j :: 0 <= j < k ==> |Split(store[j])| > 0
    ensures RegisterUser(store, disk, u, p) == Returns(Registration(false, store))
  {
    var lines := LinesRead(store, disk.read);
    var cs := NameChecks(lines, u);
    var k :| 0 <= k < |lines| && Names(store[k], u) && forall j :: 0 <= j < k ==> |Split(store[j])| > 0;
    forall j | 0 <= j < k ensures cs[j] != IndexFault {
      assert lines[j] == store[j];
    }
    assert lines[k] == store[k];
    HitBeforeFault(cs, k);
  }

  /** A hit with no index fault before it makes the scan return true. */
  lemma {:induction false} HitBeforeFault(cs: seq<LineCheck>, k: nat)
    requires k < |cs| && cs[k] == Hit
    requires forall j :: 0 <= j < k ==> cs[j] != IndexFault
    ensures Scan(cs) == Returns(true)
    decreases k
  {
    if cs[0] == Miss {
      HitBeforeFault(cs[1..], k - 1);
    }
  }

  /** A name not on file is accepted and exactly one record is appended. */
  lemma RegisterAcceptsNewName(store: seq<string>, u: string, p: string)
    requires HasNames(store)
    requires forall i :: 0 <= i < |store| ==> !Names(store[i], u)
    ensures RegisterUser(store, Healthy, u, p) == Returns(Registration(true, store + [Record(u, p)]))
  {
    var cs := NameChecks(store, u);
    assert AllMiss(cs);
    ScanDecides(cs);
  }

  /**
   * A file that cannot be read looks empty to the duplicate check: the
   * record is appended whatever the file holds. This is how the first user
   * is created before `users.txt` exists.
   */
  lemma UnreadableFileSkipsDuplicateCheck(store: seq<string>, u: string, p: string)
    ensures RegisterUser(store, Disk(FaultAt(0), true), u, p) == Returns(Registration(true, store + [Record(u, p)]))
  {
    assert AllMiss(NameChecks([], u));
    ScanDecides(NameChecks([], u));
  }

  /** A line's key: its field 0, if it has one. */
  function Key(line: string): (k: Option<string>)
    ensures k.Some? <==> |Split(line)| > 0
    ensures k.Some? ==> Names(line, k.value)
  {
    var f := Split(line);
    if |f| > 0 then Some(f[0]) else None
  }

  /** No two lines record the same user name. */
  predicate UniqueNames(store: seq<string>)
  {
    forall i, j :: 0 <= i < j < |store| && Key(store[i]).Some? ==> Key(store[i]) != Key(store[j])
  }

  /**
   * Registration keeps user names unique when the name holds no delimiter
   * and the whole file was read.
   */
  lemma RegisterKeepsNamesUnique(store: seq<string>, disk: Disk, u: string, p: string)
    requires disk.read == NoFault
    requires UniqueNames(store)
    requires NoDelimiter(u)
    ensures RegisterUser(store, disk, u, p).Returns? ==> UniqueNames(RegisterUser(store, disk, u, p).value.store)
  {
    var r := RegisterUser(store, disk, u, p);
    if r.Returns? && r.value.ok {
      var s' := r.value.store;
      RecordKey(u, p);
      assert Key(s'[|store|]) == None || Key(s'[|store|]) == Some(u);
      forall i, j | 0 <= i < j < |s'| && Key(s'[i]).Some?
        ensures Key(s'[i]) != Key(s'[j])
      {
        if j == |store| {
          assert s'[i] == store[i];
          assert !Names(store[i], u);
        } else {
          assert s'[i] == store[i] && s'[j] == store[j];
        }
      }
    }
  }

  /** A delimiter in the user name defeats the duplicate check. */
  lemma DelimiterInNameBreaksUniqueness()
    ensures UniqueNames(["a:x"])
    ensures RegisterUser(["a:x"], Healthy, "a:b", "y") == Returns(Registration(true, ["a:x", "a:b:y"]))
    ensures !UniqueNames(["a:x", "a:b:y"])
  {
    var old1, rec := "a:x", Record("a:b", "y");
    assert old1 == "a" + [Delimiter] + "x";
    RecordSplit("a", "x");
    assert !Names(old1, "a:b");
    RegisterAcceptsNewName([old1], "a:b", "y");
    assert rec == "a:b:y";
    assert [old1] + [rec] == ["a:x", "a:b:y"];
    ColonNameKey();
    var s := [old1, rec];
    assert Key(s[0]).Some? && Key(s[0]) == Key(s[1]);
  }

  lemma ColonNameKey()
    ensures Key("a:b:y") == Some("a")
  {
    var rec := "a:b:y";
    var tail := "b" + [Delimiter] + "y";
    assert rec == "a" + [Delimiter] + tail;
    RecordKey("a", tail);
    assert rec[0] != Delimiter;
    SplitShape(rec);
  }

  /** So does a file that cannot be read. */
  lemma UnreadableFileBreaksUniqueness()
    ensures RegisterUser(["a:x"], Disk(FaultAt(0), true), "a", "y") == Returns(Registration(true, ["a:x", "a:y"]))
    ensures !UniqueNames(["a:x", "a:y"])
  {
    UnreadableFileSkipsDuplicateCheck(["a:x"], "a", "y");
    assert Record("a", "y") == "a:y";
    assert "a:x" == "a" + [Delimiter] + "x";
    assert "a:y" == "a" + [Delimiter] + "y";
    RecordSplit("a", "x");
    RecordSplit("a", "y");
    assert ["a:x"] + ["a:y"] == ["a:x", "a:y"];
    var s := ["a:x", "a:y"];
    assert s[0] == "a:x" && s[1] == "a:y";
    assert Key(s[0]).Some? && Key(s[0]) == Key(s[1]);
  }

  /** A line the duplicate check passed over cannot make `authenticate` for `u` stop. */
  lemma PassedOverLinesMiss(lines: seq<string>, u: string, p: string)
    requires forall i :: 0 <= i < |lines| ==> |Split(lines[i])| > 0 && !Names(lines[i], u)
    ensures AllMiss(LoginChecks(lines, u, p))
  {
    forall i | 0 <= i < |lines| ensures LoginChecks(lines, u, p)[i] == Miss {
      assert CheckLogin(lines[i], u, p) == Miss;
    }
  }

  /**
   * Sign-up then log-in: after a successful registration with
   * delimiter-free fields and a non-empty password, the same credentials
   * authenticate.
   */
  lemma RegisterThenLogin(store: seq<string>, disk: Disk, u: string, p: string)
    requires disk.read == NoFault
    requires NoDelimiter(u) && NoDelimiter(p) && p != ""
    requires RegisterUser(store, disk, u, p).Returns? && RegisterUser(store, disk, u, p).value.ok
    ensures Authenticate(RegisterUser(store, disk, u, p).value.store, Healthy, u, p) == Returns(true)
  {
    var s' := store + [Record(u, p)];
    PassedOverLinesMiss(store, u, p);
    RecordSplit(u, p);
    var cs := LoginChecks(s', u, p);
    assert cs[|store|] == Hit;
    assert cs[..|store|] == LoginChecks(store, u, p);
    assert FirstDecisive(cs, |store|);
    ScanDecides(cs);
  }

  /**
   * With an empty password the record `u:` splits into one field (or none
   * when `u` is empty too), so logging in with those credentials throws
   * ArrayIndexOutOfBoundsException instead of succeeding.
   */
  lemma EmptyPasswordLoginThrows(store: seq<string>, disk: Disk, u: string)
    requires disk.read == NoFault
    requires NoDelimiter(u)
    requires RegisterUser(store, disk, u, "").Returns? && RegisterUser(store, disk, u, "").value.ok
    ensures Authenticate(RegisterUser(store, disk, u, "").value.store, Healthy, u, "") == OutOfBounds
  {
    var s' := store + [Record(u, "")];
    PassedOverLinesMiss(store, u, "");
    RecordSplit(u, "");
    var cs := LoginChecks(s', u, "");
    assert cs[|store|] == IndexFault;
    assert cs[..|store|] == LoginChecks(store, u, "");
    assert FirstDecisive(cs, |store|);
    ScanDecides(cs);
  }
}
