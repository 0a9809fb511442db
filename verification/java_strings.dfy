/**
 * The two pieces of `java.lang.String` behaviour the server depends on:
 * `String.split(":")` (limit 0, a one-character delimiter) and the rendering
 * of a possibly-null reference by string concatenation.
 */
module JavaStrings {
  import opened Wrappers

  /** The record delimiter of the credential file. */
  const Delimiter: char := ':'

  /** Concatenating a null reference appends the four characters "null". */
  function Text(s: Option<string>): string
  {
    match s
    case Some(v) => v
    case None => "null"
  }

  predicate NoDelimiter(s: string)
  {
    Delimiter !in s
  }

  /** `k` delimiters in a row. */
  function Delimiters(k: nat): (r: string)
    ensures |r| == k
    ensures forall i :: 0 <= i < k ==> r[i] == Delimiter
  {
    seq(k, _ => Delimiter)
  }

  /**
   * Every piece between delimiters, empty ones included:
   * a string with n delimiters has n + 1 fields.
   */
  function Fields(s: string): (r: seq<string>)
    ensures |r| >= 1
    ensures forall i :: 0 <= i < |r| ==> NoDelimiter(r[i])
    decreases |s|
  {
    if |s| == 0 then [""]
    else
      var rest := Fields(s[1..]);
      if s[0] == Delimiter then [""] + rest
      else [[s[0]] + rest[0]] + rest[1..]
  }

  /** Puts a delimiter between consecutive fields: the inverse of `Fields`. */
  function Join(xs: seq<string>): string
    requires |xs| >= 1
    decreases |xs|
  {
    if |xs| == 1 then xs[0] else xs[0] + [Delimiter] + Join(xs[1..])
  }

  /**
   * The longest prefix of `xs` that does not end in an empty string:
   * what `split` does with limit 0 once it has found a delimiter.
   */
  function DropTrailingEmpty(xs: seq<string>): (r: seq<string>)
    ensures r <= xs
    ensures forall i :: |r| <= i < |xs| ==> xs[i] == ""
    ensures |r| > 0 ==> r[|r| - 1] != ""
    decreases |xs|
  {
    if |xs| == 0 || xs[|xs| - 1] != "" then xs
    else DropTrailingEmpty(xs[..|xs| - 1])
  }

  /**
   * `s.split(":")`. Without any delimiter Java returns `s` itself as the
   * only element, so `"".split(":")` is `[""]`; otherwise the trailing empty
   * fields are removed, so `":".split(":")` is the empty array.
   */
  function Split(s: string): (r: seq<string>)
    ensures forall i :: 0 <= i < |r| ==> NoDelimiter(r[i])
  {
    if NoDelimiter(s) then [s] else DropTrailingEmpty(Fields(s))
  }

  /**
   * When `split` gives an empty array or a single empty piece: the array is
   * empty exactly for a non-empty run of delimiters, it is `[""]` exactly
   * for the empty string, and otherwise its last piece is not empty.
   */
  lemma SplitShape(s: string)
    ensures Split(s) == [] <==> s != "" && forall i :: 0 <= i < |s| ==> s[i] == Delimiter
    ensures Split(s) == [""] <==> s == ""
    ensures |Split(s)| > 0 && s != "" ==> Split(s)[|Split(s)| - 1] != ""
  {
    if NoDelimiter(s) {
      FieldsWithoutDelimiter(s);
    } else {
      var xs := Fields(s);
      var r := DropTrailingEmpty(xs);
      FieldsAllEmpty(s);
      assert s != "";
      if forall i :: 0 <= i < |xs| ==> xs[i] == "" {
        if |r| > 0 {
          assert r[|r| - 1] == xs[|r| - 1];
        }
      }
      assert r != [""];
    }
  }

  /** Rejoining the pieces `split` gives rebuilds the string up to the trailing delimiters it dropped. */
  lemma SplitRejoins(s: string)
    ensures |Split(s)| > 0 ==> exists k: nat :: s == Join(Split(s)) + Delimiters(k)
  {
    if NoDelimiter(s) {
      FieldsWithoutDelimiter(s);
      assert s == Join([s]) + Delimiters(0);
    } else {
      JoinFields(s);
      DropTrailingEmptyJoin(Fields(s));
    }
  }

  lemma {:induction false} FieldsWithoutDelimiter(s: string)
    requires NoDelimiter(s)
    ensures Fields(s) == [s]
    decreases |s|
  {
    if |s| > 0 {
      FieldsWithoutDelimiter(s[1..]);
      assert [s[0]] + s[1..] == s;
    }
  }

  /** All fields are empty exactly when the string is made of delimiters only. */
  lemma {:induction false} FieldsAllEmpty(s: string)
    ensures (forall i :: 0 <= i < |Fields(s)| ==> Fields(s)[i] == "")
        <==> (forall i :: 0 <= i < |s| ==> s[i] == Delimiter)
    decreases |s|
  {
    if |s| > 0 {
      var t := s[1..];
      FieldsAllEmpty(t);
      var rest := Fields(t);
      var f := Fields(s);
      if s[0] == Delimiter {
        assert f == [""] + rest;
        assert (forall i :: 0 <= i < |f| ==> f[i] == "") <==> (forall i :: 0 <= i < |rest| ==> rest[i] == "") by {
          assert forall i :: 0 <= i < |rest| ==> rest[i] == f[i + 1];
        }
        assert (forall i :: 0 <= i < |s| ==> s[i] == Delimiter) <==> (forall i :: 0 <= i < |t| ==> t[i] == Delimiter) by {
          assert forall i :: 0 <= i < |t| ==> t[i] == s[i + 1];
        }
      } else {
        assert f[0] == [s[0]] + rest[0];
      }
    }
  }

  /** Joining the fields of a string gives the string back. */
  lemma {:induction false} JoinFields(s: string)
    ensures Join(Fields(s)) == s
    decreases |s|
  {
    if |s| > 0 {
      JoinFields(s[1..]);
      var rest := Fields(s[1..]);
      if s[0] == Delimiter {
        assert Fields(s) == [""] + rest;
        assert Fields(s)[1..] == rest;
        assert [s[0]] + s[1..] == s;
      } else {
        var f := [[s[0]] + rest[0]] + rest[1..];
        assert Fields(s) == f;
        if |rest| == 1 {
          assert [s[0]] + s[1..] == s;
        } else {
          assert f[1..] == rest[1..];
          assert Join(rest) == rest[0] + [Delimiter] + Join(rest[1..]);
          assert [s[0]] + s[1..] == s;
        }
      }
    }
  }

  /** A field followed by a delimiter contributes exactly itself. */
  lemma {:induction false} FieldsAfterField(a: string, b: string)
    requires NoDelimiter(a)
    ensures Fields(a + [Delimiter] + b) == [a] + Fields(b)
    decreases |a|
  {
    var s := a + [Delimiter] + b;
    if |a| == 0 {
      assert s == [Delimiter] + b;
      assert s[1..] == b;
    } else {
      FieldsAfterField(a[1..], b);
      assert s[1..] == a[1..] + [Delimiter] + b;
      assert [a[0]] + a[1..] == a;
    }
  }

  /** Splitting a join of delimiter-free fields gives the fields back. */
  lemma {:induction false} FieldsJoin(xs: seq<string>)
    requires |xs| >= 1
    requires forall i :: 0 <= i < |xs| ==> NoDelimiter(xs[i])
    ensures Fields(Join(xs)) == xs
    decreases |xs|
  {
    if |xs| == 1 {
      FieldsWithoutDelimiter(xs[0]);
    } else {
      FieldsJoin(xs[1..]);
      FieldsAfterField(xs[0], Join(xs[1..]));
      assert [xs[0]] + xs[1..] == xs;
    }
  }

  lemma {:induction false} JoinSnoc(xs: seq<string>, z: string)
    requires |xs| >= 1
    ensures Join(xs + [z]) == Join(xs) + [Delimiter] + z
    decreases |xs|
  {
    if |xs| == 1 {
      assert (xs + [z])[1..] == [z];
    } else {
      JoinSnoc(xs[1..], z);
      assert (xs + [z])[1..] == xs[1..] + [z];
    }
  }

  /** Dropping k trailing empty fields removes k trailing delimiters. */
  lemma {:induction false} DropTrailingEmptyJoin(xs: seq<string>)
    ensures |DropTrailingEmpty(xs)| > 0 ==>
      Join(xs) == Join(DropTrailingEmpty(xs)) + Delimiters(|xs| - |DropTrailingEmpty(xs)|)
    decreases |xs|
  {
    var r := DropTrailingEmpty(xs);
    if |r| == 0 {
    } else if xs[|xs| - 1] != "" {
      assert Delimiters(0) == [];
    } else {
      var ys := xs[..|xs| - 1];
      DropTrailingEmptyJoin(ys);
      assert ys + [""] == xs;
      JoinSnoc(ys, "");
      assert Delimiters(|ys| - |r|) + [Delimiter] == Delimiters(|xs| - |r|);
    }
  }

  /**
   * How the credential file's records split. A delimiter-free user name is
   * always the first field unless the whole record is a single delimiter;
   * an empty password leaves no second field.
   */
  lemma RecordSplit(u: string, p: string)
    requires NoDelimiter(u)
    requires NoDelimiter(p)
    ensures p != "" ==> Split(u + [Delimiter] + p) == [u, p]
    ensures p == "" && u != "" ==> Split(u + [Delimiter] + p) == [u]
    ensures p == "" && u == "" ==> Split(u + [Delimiter] + p) == []
  {
    var s := u + [Delimiter] + p;
    assert s[|u|] == Delimiter;
    FieldsAfterField(u, p);
    FieldsWithoutDelimiter(p);
    assert Fields(s) == [u, p];
    if p == "" {
      assert [u, p][..1] == [u];
      assert DropTrailingEmpty([u, p]) == DropTrailingEmpty([u]);
    }
  }

  /** The first field of a record whose user name has no delimiter is that name. */
  lemma RecordKey(u: string, p: string)
    requires NoDelimiter(u)
    ensures Split(u + [Delimiter] + p) == [] || Split(u + [Delimiter] + p)[0] == u
  {
    var s := u + [Delimiter] + p;
    assert s[|u|] == Delimiter;
    FieldsAfterField(u, p);
    var r := Split(s);
    assert r <= [u] + Fields(p);
  }
}
