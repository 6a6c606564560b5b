/**
 * The two string operations the category paths are built from: Python's
 * `str.split(sep)` for a non-empty separator and `sep.join(parts)`, with
 * the facts about them that the rest of the model relies on.  A category
 * path is a `::`-joined string and a keyword field a `,`-joined one; the
 * prefix test `str.startswith` is Dafny's sequence-prefix `<=`.
 */
module Strings {

  /** Python's `s.split(sep)`: cut at the leftmost, non-overlapping occurrences of `sep`. */
  function Split(s: string, sep: string): (r: seq<string>)
    requires |sep| > 0
    ensures |r| >= 1
    decreases |s|
  {
    if sep <= s then [""] + Split(s[|sep|..], sep)
    else if |s| == 0 then [""]
    else
      var t := Split(s[1..], sep);
      [[s[0]] + t[0]] + t[1..]
  }

  /** Python's `sep.join(parts)`. */
  function Join(parts: seq<string>, sep: string): string
  {
    if |parts| == 0 then ""
    else if |parts| == 1 then parts[0]
    else parts[0] + sep + Join(parts[1..], sep)
  }

  /** Python's `s.count(sep)` for a non-empty separator: the number of cuts `split` makes. */
  function Count(s: string, sep: string): nat
    requires |sep| > 0
  {
    |Split(s, sep)| - 1
  }

  /** The last piece of `s.split(sep)`, Python's `s.split(sep)[-1]`. */
  function LastPiece(s: string, sep: string): string
    requires |sep| > 0
  {
    var parts := Split(s, sep);
    parts[|parts| - 1]
  }

  /** `needle` occurs somewhere in `hay`. */
  predicate Contains(hay: string, needle: string)
  {
    exists i | 0 <= i <= |hay| :: needle <= hay[i..]
  }

  /** No occurrence of `sep` starts in `t` before position `n`. */
  predicate NoSepBefore(t: string, sep: string, n: nat)
  {
    forall j | 0 <= j < n && j <= |t| :: !(sep <= t[j..])
  }

  /** `a` can stand before a separator without the separator being found inside it. */
  predicate Delimited(a: string, sep: string)
  {
    NoSepBefore(a + sep, sep, |a|)
  }

  /** `a` holds no occurrence of `sep`. */
  predicate SepFree(a: string, sep: string)
  {
    NoSepBefore(a, sep, |a|)
  }

  /** The pieces `split` can return: all but the last delimited, the last separator-free. */
  predicate Splittable(parts: seq<string>, sep: string)
  {
    && |parts| >= 1
    && (forall i | 0 <= i < |parts| - 1 :: Delimited(parts[i], sep))
    && SepFree(parts[|parts| - 1], sep)
  }

  lemma JoinCons(a: string, rest: seq<string>, sep: string)
    requires |rest| >= 1
    ensures Join([a] + rest, sep) == a + sep + Join(rest, sep)
  {
    assert ([a] + rest)[1..] == rest;
  }

  /** Joining what `split` returns gives back the original string. */
  lemma {:induction false} JoinSplit(s: string, sep: string)
    requires |sep| > 0
    ensures Join(Split(s, sep), sep) == s
    decreases |s|
  {
    if sep <= s {
      var rest := s[|sep|..];
      JoinSplit(rest, sep);
      assert Split(s, sep) == [""] + Split(rest, sep);
      JoinCons("", Split(rest, sep), sep);
      assert s == sep + rest;
    } else if |s| > 0 {
      var t := Split(s[1..], sep);
      JoinSplit(s[1..], sep);
      assert Split(s, sep) == [[s[0]] + t[0]] + t[1..];
      JoinExtendHead(s[0], t, sep);
      assert s == [s[0]] + s[1..];
    }
  }

  /** Putting a character in front of the first part puts it in front of the join. */
  lemma JoinExtendHead(c: char, t: seq<string>, sep: string)
    requires |t| >= 1
    ensures Join([[c] + t[0]] + t[1..], sep) == [c] + Join(t, sep)
  {
    var u := [[c] + t[0]] + t[1..];
    if |t| > 1 {
      assert u[1..] == t[1..];
      assert Join(u, sep) == u[0] + sep + Join(t[1..], sep);
      assert Join(t, sep) == t[0] + sep + Join(t[1..], sep);
    }
  }

  /** Joining two non-empty runs of parts puts one separator between their joins. */
  lemma {:induction false} JoinAppend(a: seq<string>, b: seq<string>, sep: string)
    requires |a| >= 1 && |b| >= 1
    ensures Join(a + b, sep) == Join(a, sep) + sep + Join(b, sep)
    decreases |a|
  {
    if |a| == 1 {
      JoinCons(a[0], b, sep);
      assert a + b == [a[0]] + b;
    } else {
      JoinAppend(a[1..], b, sep);
      assert (a + b)[1..] == a[1..] + b;
      JoinCons(a[0], a[1..] + b, sep);
      JoinCons(a[0], a[1..], sep);
      assert a == [a[0]] + a[1..];
    }
  }

  /** A string that starts with `p` where `p` is at least as long as `sep`: `sep` starts both or neither. */
  lemma PrefixAgrees(p: string, s: string, sep: string)
    requires p <= s && |sep| <= |p|
    ensures (sep <= s) == (sep <= p)
  {
    if sep <= s {
      assert s[..|sep|] == p[..|sep|];
    }
  }

  lemma {:induction false} SplitDelimited(a: string, rest: string, sep: string)
    requires |sep| > 0 && Delimited(a, sep)
    ensures Split(a + sep + rest, sep) == [a] + Split(rest, sep)
    decreases |a|
  {
    var s := a + sep + rest;
    if |a| == 0 {
      assert s == sep + rest;
      assert s[|sep|..] == rest;
    } else {
      PrefixAgrees(a + sep, s, sep);
      assert !(sep <= (a + sep)[0..]);
      assert (a + sep)[0..] == a + sep;
      assert s[1..] == a[1..] + sep + rest;
      forall j | 0 <= j < |a[1..]| && j <= |a[1..] + sep|
        ensures !(sep <= (a[1..] + sep)[j..])
      {
        assert (a[1..] + sep)[j..] == (a + sep)[j + 1..];
      }
      SplitDelimited(a[1..], rest, sep);
      assert [a[0]] + a[1..] == a;
    }
  }

  lemma {:induction false} SplitSepFree(a: string, sep: string)
    requires |sep| > 0 && SepFree(a, sep)
    ensures Split(a, sep) == [a]
    decreases |a|
  {
    if |a| > 0 {
      assert !(sep <= a[0..]);
      assert a[0..] == a;
      forall j | 0 <= j < |a[1..]| && j <= |a[1..]|
        ensures !(sep <= a[1..][j..])
      {
        assert a[1..][j..] == a[j + 1..];
      }
      SplitSepFree(a[1..], sep);
      assert [a[0]] + a[1..] == a;
    }
  }

  /** Splitting a join gives back the parts, as long as the parts are ones `split` could return. */
  lemma {:induction false} SplitJoin(parts: seq<string>, sep: string)
    requires |sep| > 0 && Splittable(parts, sep)
    ensures Split(Join(parts, sep), sep) == parts
    decreases |parts|
  {
    if |parts| == 1 {
      SplitSepFree(parts[0], sep);
    } else {
      var rest := parts[1..];
      assert Splittable(rest, sep) by {
        forall i | 0 <= i < |rest| - 1 ensures Delimited(rest[i], sep) {
          assert rest[i] == parts[i + 1];
        }
      }
      SplitJoin(rest, sep);
      assert Delimited(parts[0], sep);
      SplitDelimited(parts[0], Join(rest, sep), sep);
      assert [parts[0]] + rest == parts;
    }
  }

  /** Every result of `split` is splittable, so `split` and `join` are inverse on it. */
  lemma {:induction false} SplitIsSplittable(s: string, sep: string)
    requires |sep| > 0
    ensures Splittable(Split(s, sep), sep)
    decreases |s|
  {
    if sep <= s {
      SplitIsSplittable(s[|sep|..], sep);
      SplittableCons("", Split(s[|sep|..], sep), sep);
    } else if |s| > 0 {
      SplitIsSplittable(s[1..], sep);
      SplittableExtend(s, sep);
    }
  }

  lemma SplittableCons(a: string, t: seq<string>, sep: string)
    requires Delimited(a, sep) && Splittable(t, sep)
    ensures Splittable([a] + t, sep)
  {
    var r := [a] + t;
    forall i | 0 <= i < |r| - 1 ensures Delimited(r[i], sep) {
      if i > 0 {
        assert r[i] == t[i - 1];
      }
    }
  }

  /** The step of `split` that moves one character onto the first piece keeps the pieces splittable. */
  lemma SplittableExtend(s: string, sep: string)
    requires |sep| > 0 && |s| > 0 && !(sep <= s)
    requires Splittable(Split(s[1..], sep), sep)
    ensures Splittable(Split(s, sep), sep)
  {
    var t := Split(s[1..], sep);
    var first := [s[0]] + t[0];
    assert Split(s, sep) == [first] + t[1..];
    JoinSplit(s[1..], sep);
    assert !(sep <= s[0..]) by { assert s[0..] == s; }
    if |t| == 1 {
      assert Join(t, sep) == t[0];
      ExtendLast(s, t[0], sep);
      assert Split(s, sep) == [first];
    } else {
      var rest := Join(t[1..], sep);
      JoinCons(t[0], t[1..], sep);
      assert t == [t[0]] + t[1..];
      assert s[1..] == t[0] + sep + rest;
      ExtendFirst(s, t[0], rest, sep);
      SplittableTail(t, sep);
      SplittableCons(first, t[1..], sep);
    }
  }

  lemma SplittableTail(t: seq<string>, sep: string)
    requires Splittable(t, sep) && |t| > 1
    ensures Splittable(t[1..], sep) && Delimited(t[0], sep)
  {
    forall i | 0 <= i < |t[1..]| - 1 ensures Delimited(t[1..][i], sep) {
      assert t[1..][i] == t[i + 1];
    }
  }

  lemma ExtendLast(s: string, a: string, sep: string)
    requires |s| > 0 && !(sep <= s[0..]) && s[1..] == a && SepFree(a, sep)
    ensures SepFree([s[0]] + a, sep)
  {
    var first := [s[0]] + a;
    forall j | 0 <= j < |first| && j <= |first| ensures !(sep <= first[j..]) {
      if j > 0 {
        assert first[j..] == a[j - 1..];
      } else {
        assert first[j..] == s[0..];
      }
    }
  }

  lemma ExtendFirst(s: string, a: string, rest: string, sep: string)
    requires |s| > 0 && !(sep <= s) && s[1..] == a + sep + rest && Delimited(a, sep)
    ensures Delimited([s[0]] + a, sep)
  {
    var first := [s[0]] + a;
    assert s == first + sep + rest by {
      assert s == [s[0]] + s[1..];
    }
    forall j | 0 <= j < |first| && j <= |first + sep| ensures !(sep <= (first + sep)[j..]) {
      if j > 0 {
        assert (first + sep)[j..] == (a + sep)[j - 1..];
      } else {
        assert (first + sep)[0..] == first + sep;
        PrefixAgrees(first + sep, s, sep);
      }
    }
  }

  /** The first piece of a split is a prefix of the string and splits into itself alone. */
  lemma {:induction false} FirstPiece(s: string, sep: string)
    requires |sep| > 0
    ensures Split(s, sep)[0] <= s && Split(Split(s, sep)[0], sep) == [Split(s, sep)[0]]
    decreases |s|
  {
    if !(sep <= s) && |s| > 0 {
      FirstPiece(s[1..], sep);
      var t := Split(s[1..], sep);
      var p := [s[0]] + t[0];
      assert p[1..] == t[0];
      assert s == [s[0]] + s[1..];
      assert p <= s;
    }
  }

  /** A string none of whose characters starts the separator is delimited and separator-free. */
  lemma NoSepChar(a: string, sep: string)
    requires |sep| > 0 && sep[0] !in a
    ensures Delimited(a, sep) && SepFree(a, sep)
  {
    forall j | 0 <= j < |a| && j <= |a + sep| ensures !(sep <= (a + sep)[j..]) {
      assert (a + sep)[j..][0] == a[j];
    }
    forall j | 0 <= j < |a| && j <= |a| ensures !(sep <= a[j..]) {
      assert a[j..][0] == a[j];
    }
  }

  /** Every character of a piece of `split` is a character of the original string. */
  lemma {:induction false} SplitChars(s: string, sep: string, i: nat, c: char)
    requires |sep| > 0 && i < |Split(s, sep)| && c in Split(s, sep)[i]
    ensures c in s
    decreases |s|
  {
    if sep <= s {
      if i > 0 {
        SplitChars(s[|sep|..], sep, i - 1, c);
      }
    } else if |s| > 0 {
      var t := Split(s[1..], sep);
      if i == 0 {
        if c != s[0] {
          assert c in t[0];
          SplitChars(s[1..], sep, 0, c);
        }
      } else {
        assert Split(s, sep)[i] == t[i];
        SplitChars(s[1..], sep, i, c);
      }
    }
  }

  /** Every character of a join comes from one of the parts or from the separator. */
  lemma {:induction false} JoinChars(parts: seq<string>, sep: string, c: char)
    requires c in Join(parts, sep)
    ensures c in sep || exists i | 0 <= i < |parts| :: c in parts[i]
    decreases |parts|
  {
    if |parts| > 1 {
      if c !in parts[0] && c !in sep {
        JoinChars(parts[1..], sep, c);
        var i :| 0 <= i < |parts[1..]| && c in parts[1..][i];
        assert c in parts[i + 1];
      }
    }
  }

  /** Every part of a join occurs in it. */
  lemma {:induction false} JoinContains(parts: seq<string>, sep: string, i: nat)
    requires i < |parts|
    ensures Contains(Join(parts, sep), parts[i])
    decreases |parts|
  {
    var j := Join(parts, sep);
    if |parts| == 1 {
      assert parts[i] <= j[0..];
    } else if i == 0 {
      assert parts[0] <= j[0..];
    } else {
      JoinContains(parts[1..], sep, i - 1);
      var rest := Join(parts[1..], sep);
      var k :| 0 <= k <= |rest| && parts[1..][i - 1] <= rest[k..];
      var off := |parts[0] + sep|;
      assert j[off + k..] == rest[k..];
    }
  }

  /** A string occurs in anything it is the middle of. */
  lemma ContainsMiddle(a: string, b: string, c: string)
    ensures Contains(a + b + c, b)
  {
    assert b <= (a + b + c)[|a|..];
  }

  /** A string occurs in any longer string that contains where it occurs. */
  lemma ContainsIn(a: string, b: string, c: string, needle: string)
    requires Contains(b, needle)
    ensures Contains(a + b + c, needle)
  {
    var k :| 0 <= k <= |b| && needle <= b[k..];
    assert (a + b + c)[|a| + k..] == b[k..] + c;
  }
}
