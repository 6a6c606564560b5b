/**
 * The `OrderedSet` the citation buckets are made of, and the insertion
 * order of a Python `dict`'s keys, both modelled as duplicate-free
 * sequences kept in first-insertion order.
 */
module OrderedSets {

  predicate NoDup<T(==)>(s: seq<T>)
  {
    forall i, j | 0 <= i < j < |s| :: s[i] != s[j]
  }

  /** `OrderedSet.add`: an element already present stays where it is, a new one goes last. */
  function Insert<T(==)>(s: seq<T>, x: T): (r: seq<T>)
    ensures x in r && (r == s || r == s + [x])
    ensures x in s ==> r == s
    ensures NoDup(s) ==> NoDup(r)
  {
    if x in s then s else s + [x]
  }

  /** The ordered set `s` after adding each element of `xs` in turn. */
  function InsertAll<T(==)>(s: seq<T>, xs: seq<T>): seq<T>
    decreases |xs|
  {
    if xs == [] then s else Insert(InsertAll(s, xs[..|xs| - 1]), xs[|xs| - 1])
  }

  /** The elements of a sequence, as a set. */
  function Elems<T(==)>(s: seq<T>): set<T>
  {
    set x | x in s
  }

  /**
   * First-occurrence deduplication: the keys of a `dict` filled from `xs`, in
   * order. The deduplication of every prefix of `xs` is a prefix of it, so an
   * element comes before another exactly when it occurs first earlier.
   */
  function Dedup<T(==)>(xs: seq<T>): (r: seq<T>)
    ensures NoDup(r) && Elems(r) == Elems(xs)
    ensures forall n | 0 <= n <= |xs| :: InsertAll([], xs[..n]) <= r
  {
    DedupMembers(xs);
    DedupPrefixes(xs);
    InsertAll([], xs)
  }

  lemma DedupMembers<T>(xs: seq<T>)
    ensures NoDup(InsertAll([], xs)) && Elems(InsertAll([], xs)) == Elems(xs)
  {
    InsertAllMembers([], xs);
    assert NoDup<T>([]);
    var r := InsertAll([], xs);
    assert forall x :: x in Elems(r) <==> x in r;
    assert forall x :: x in Elems(xs) <==> x in xs;
  }

  lemma DedupPrefixes<T>(xs: seq<T>)
    ensures forall n | 0 <= n <= |xs| :: InsertAll([], xs[..n]) <= InsertAll([], xs)
  {
    forall n | 0 <= n <= |xs| ensures InsertAll([], xs[..n]) <= InsertAll([], xs) {
      DedupPrefix(xs, n);
    }
  }

  lemma DedupPrefix<T>(xs: seq<T>, n: nat)
    requires n <= |xs|
    ensures InsertAll([], xs[..n]) <= InsertAll([], xs)
  {
    var a, b := xs[..n], xs[n..];
    assert a + b == xs;
    InsertAllConcat([], a, b);
    InsertAllMembers(InsertAll([], a), b);
  }

  /** Dropping the head of a sequence built as head and tail gives the tail. */
  lemma ConsTail<T>(x: T, t: seq<T>)
    ensures ([x] + t)[0] == x && ([x] + t)[1..] == t
  {
  }

  lemma AppendAssoc<T>(p: seq<T>, q: seq<T>, r: seq<T>)
    ensures p + (q + r) == p + q + r
  {
  }

  /** Adding elements in turn keeps what was there, in place, and adds exactly the new ones. */
  lemma {:induction false} InsertAllMembers<T>(s: seq<T>, xs: seq<T>)
    ensures forall y :: y in InsertAll(s, xs) <==> y in s || y in xs
    ensures s <= InsertAll(s, xs)
    ensures NoDup(s) ==> NoDup(InsertAll(s, xs))
    decreases |xs|
  {
    if xs != [] {
      var init := xs[..|xs| - 1];
      InsertAllMembers(s, init);
      assert xs == init + [xs[|xs| - 1]];
    }
  }

  /** Adding `xs` then `ys` is adding `xs + ys`. */
  lemma {:induction false} InsertAllConcat<T>(s: seq<T>, xs: seq<T>, ys: seq<T>)
    ensures InsertAll(s, xs + ys) == InsertAll(InsertAll(s, xs), ys)
    decreases |ys|
  {
    if ys == [] {
      assert xs + ys == xs;
    } else {
      var init := ys[..|ys| - 1];
      InsertAllConcat(s, xs, init);
      assert (xs + ys)[..|xs + ys| - 1] == xs + init;
      assert (xs + ys)[|xs + ys| - 1] == ys[|ys| - 1];
    }
  }

  /** A duplicate-free sequence is its own deduplication. */
  lemma {:induction false} DedupNoDup<T>(xs: seq<T>)
    requires NoDup(xs)
    ensures Dedup(xs) == xs
    decreases |xs|
  {
    if xs != [] {
      var init := xs[..|xs| - 1];
      assert NoDup(init);
      DedupNoDup(init);
      assert init + [xs[|xs| - 1]] == xs;
    }
  }

  /** A duplicate-free sequence has as many distinct elements as it is long. */
  lemma {:induction false} CardNoDup<T>(s: seq<T>)
    requires NoDup(s)
    ensures |set x | x in s| == |s|
    decreases |s|
  {
    if s != [] {
      var init := s[..|s| - 1];
      var last := s[|s| - 1];
      assert NoDup(init);
      CardNoDup(init);
      assert (set x | x in s) == (set x | x in init) + {last} by {
        assert s == init + [last];
      }
    }
  }
}
