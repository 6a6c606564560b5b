/**
 * The category taxonomy: the nested description read from the JSON table of
 * contents, and the walk (`inner` inside `CitationsMap.from_json`) that
 * flattens it into the ordered list of `::`-joined category paths.
 */
module Taxonomy {
  import opened Wrappers
  import opened Strings

  /** A value of the description: a list marks a leaf category, a mapping an internal one. */
  datatype Node = Leaf | Internal(children: seq<Entry>)

  /** One key of a mapping with its value, in the mapping's order. */
  datatype Entry = Entry(name: string, value: Node)

  const PathSep := "::"

  /** The paths the walk appends for the entries `d[i..]` of a mapping reached through `prefix`. */
  function EntryPaths(prefix: seq<string>, d: seq<Entry>, i: nat): seq<string>
    requires i <= |d|
    decreases d, |d| - i
  {
    if i == |d| then []
    else
      var p := prefix + [d[i].name];
      Block(p, d[i].value) + EntryPaths(prefix, d, i + 1)
  }

  /** What one entry contributes: its own path, then (for a mapping) the paths beneath it. */
  function Block(p: seq<string>, v: Node): seq<string>
    decreases v, 1
  {
    match v
    case Leaf => [Join(p, PathSep)]
    case Internal(ch) => [Join(p, PathSep)] + EntryPaths(p, ch, 0)
  }

  /** The category paths of a whole description, in the order the walk appends them. */
  function Paths(root: seq<Entry>): seq<string>
  {
    EntryPaths([], root, 0)
  }

  /**
   * `inner(d, prefix_cat)`: appends to `nestedCats` the path of `prefix`
   * (unless it is the root call) and then, mapping entry by mapping entry,
   * the path of each leaf and, recursively, each nested mapping.
   */
  method Inner(d: seq<Entry>, prefix: Option<seq<string>>, nestedCats: seq<string>) returns (out: seq<string>)
    decreases d
    ensures prefix.None? ==> out == nestedCats + EntryPaths([], d, 0)
    ensures prefix.Some? ==> out == nestedCats + [Join(prefix.value, PathSep)] + EntryPaths(prefix.value, d, 0)
  {
    var p: seq<string>;
    out := nestedCats;
    if prefix.None? {
      p := [];
    } else {
      p := prefix.value;
      out := out + [Join(p, PathSep)];
    }
    ghost var start := out;
    var i := 0;
    while i < |d|
      invariant 0 <= i <= |d|
      invariant out + EntryPaths(p, d, i) == start + EntryPaths(p, d, 0)
    {
      var k := d[i].name;
      match d[i].value {
        case Leaf =>
          out := out + [Join(p + [k], PathSep)];
        case Internal(ch) =>
          out := Inner(ch, Some(p + [k]), out);
      }
      i := i + 1;
    }
  }

  /** The list `from_json` builds: the walk started at the root with an empty list. */
  method Load(root: seq<Entry>) returns (nestedCats: seq<string>)
    ensures nestedCats == Paths(root)
  {
    nestedCats := Inner(root, None, []);
  }

  /** The full names and the value of the entry reached from `d` by the index path `idx`, if any. */
  function At(prefix: seq<string>, d: seq<Entry>, idx: seq<nat>): Option<(seq<string>, Node)>
    decreases d
  {
    if idx == [] || idx[0] >= |d| then None
    else
      var e := d[idx[0]];
      if |idx| == 1 then Some((prefix + [e.name], e.value))
      else match e.value
        case Leaf => None
        case Internal(ch) => At(prefix + [e.name], ch, idx[1..])
  }

  /** `b` is a contiguous run of `s`. */
  predicate Occurs(b: seq<string>, s: seq<string>)
  {
    exists m | 0 <= m <= |s| :: b <= s[m..]
  }

  lemma OccursWithin(b: seq<string>, x: seq<string>, y: seq<string>, z: seq<string>)
    requires Occurs(b, y)
    ensures Occurs(b, x + y + z)
  {
    var m :| 0 <= m <= |y| && b <= y[m..];
    assert (x + y + z)[|x| + m..] == y[m..] + z;
  }

  lemma {:induction false} DeclaredFrom(prefix: seq<string>, d: seq<Entry>, i: nat, idx: seq<nat>)
    requires i <= |d| && |idx| >= 1 && i <= idx[0]
    requires At(prefix, d, idx).Some?
    ensures Occurs(Block(At(prefix, d, idx).value.0, At(prefix, d, idx).value.1), EntryPaths(prefix, d, i))
    decreases d, |d| - i
  {
    var e := d[idx[0]];
    var found := At(prefix, d, idx).value;
    var b := Block(found.0, found.1);
    var here := Block(prefix + [d[i].name], d[i].value);
    var rest := EntryPaths(prefix, d, i + 1);
    assert EntryPaths(prefix, d, i) == here + rest;
    if i < idx[0] {
      DeclaredFrom(prefix, d, i + 1, idx);
      OccursWithin(b, here, rest, []);
      assert here + rest + [] == here + rest;
    } else if |idx| == 1 {
      assert b == here;
      assert b <= (here + rest)[0..];
    } else {
      var ch := e.value.children;
      var p := prefix + [e.name];
      assert At(prefix, d, idx) == At(p, ch, idx[1..]);
      DeclaredFrom(p, ch, 0, idx[1..]);
      assert here == [Join(p, PathSep)] + EntryPaths(p, ch, 0);
      OccursWithin(b, [Join(p, PathSep)], EntryPaths(p, ch, 0), rest);
    }
  }

  /**
   * Every entry of the description, leaf or mapping, at any depth, has its
   * `::`-joined path in the list; a mapping's path is followed immediately
   * by the paths of everything beneath it.
   */
  lemma Declared(root: seq<Entry>, idx: seq<nat>)
    requires At([], root, idx).Some?
    ensures var (names, v) := At([], root, idx).value;
      && Occurs(Block(names, v), Paths(root))
      && Join(names, PathSep) in Paths(root)
      && (v.Internal? ==> Occurs([Join(names, PathSep)] + EntryPaths(names, v.children, 0), Paths(root)))
  {
    DeclaredFrom([], root, 0, idx);
    var (names, v) := At([], root, idx).value;
    var m :| 0 <= m <= |Paths(root)| && Block(names, v) <= Paths(root)[m..];
    assert Paths(root)[m] == Block(names, v)[0];
  }

  /** Under a non-empty prefix every path the walk appends extends the prefix's path by `::`. */
  lemma {:induction false} Beneath(prefix: seq<string>, d: seq<Entry>, i: nat)
    requires |prefix| >= 1 && i <= |d|
    ensures forall q | q in EntryPaths(prefix, d, i) :: Join(prefix, PathSep) + PathSep <= q
    decreases d, |d| - i
  {
    if i < |d| {
      var p := prefix + [d[i].name];
      JoinAppend(prefix, [d[i].name], PathSep);
      var top := Join(prefix, PathSep) + PathSep;
      assert top <= Join(p, PathSep);
      Beneath(prefix, d, i + 1);
      match d[i].value {
        case Leaf =>
        case Internal(ch) =>
          Beneath(p, ch, 0);
          forall q | q in EntryPaths(p, ch, 0) ensures top <= q {
            assert Join(p, PathSep) + PathSep <= q;
            assert top <= Join(p, PathSep) + PathSep;
          }
      }
    }
  }

  /** Every path the walk lists for `d[i..]` at the root starts with the name of one of those top-level entries, itself listed. */
  lemma {:induction false} TopNamesFrom(d: seq<Entry>, i: nat)
    requires i <= |d|
    ensures forall q | q in EntryPaths([], d, i) ::
      exists j | i <= j < |d| :: d[j].name <= q && d[j].name in EntryPaths([], d, i)
    decreases |d| - i
  {
    if i < |d| {
      TopNamesFrom(d, i + 1);
      var n := d[i].name;
      assert [] + [n] == [n];
      assert Join([n], PathSep) == n;
      var here := Block([n], d[i].value);
      var rest := EntryPaths([], d, i + 1);
      assert EntryPaths([], d, i) == here + rest;
      assert here[0] == n;
      forall q | q in here + rest
        ensures exists j | i <= j < |d| :: d[j].name <= q && d[j].name in here + rest
      {
        if q in here {
          if q != n {
            var ch := d[i].value.children;
            assert q in EntryPaths([n], ch, 0);
            Beneath([n], ch, 0);
            assert n + PathSep <= q;
            assert q[..|n|] == (n + PathSep)[..|n|];
          }
          assert d[i].name <= q;
        } else {
          var j :| i + 1 <= j < |d| && d[j].name <= q && d[j].name in rest;
        }
      }
    }
  }

  /** Every listed path starts with the name of a top-level entry of the description, whose own path is listed. */
  lemma TopNames(root: seq<Entry>)
    ensures forall q | q in Paths(root) :: exists j | 0 <= j < |root| :: root[j].name <= q && root[j].name in Paths(root)
  {
    TopNamesFrom(root, 0);
  }

  /** The example description `{"aug": {"crop": [], "flip": []}}` declares three keys, in order. */
  lemma ExampleTaxonomy()
    ensures Paths([Entry("aug", Internal([Entry("crop", Leaf), Entry("flip", Leaf)]))])
         == ["aug", "aug::crop", "aug::flip"]
  {
    var ch := [Entry("crop", Leaf), Entry("flip", Leaf)];
    assert Join(["aug", "crop"], PathSep) == "aug::crop";
    assert Join(["aug", "flip"], PathSep) == "aug::flip";
    assert EntryPaths(["aug"], ch, 2) == [];
    assert EntryPaths(["aug"], ch, 1) == ["aug::flip"];
    assert EntryPaths(["aug"], ch, 0) == ["aug::crop", "aug::flip"];
  }
}
