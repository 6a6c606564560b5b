/**
 * The LaTeX body renderer of `main.py` (`fill_tex_body`): `make_sections`
 * arranges the declared keys into nested sections, and `write_tex` walks them
 * depth first, emitting for each key not yet used a heading, its children's
 * blocks and an `enumerate` block of its items.
 */
module Render {
  import opened Wrappers
  import opened Strings
  import opened OrderedSets
  import opened Citations
  import Taxonomy

  /** A key of the nested dict `make_sections` builds, with the keys nested under it (none for `None`). */
  datatype Section = Section(key: string, children: seq<Section>)

  /** `section_per_depth`. */
  const SectionPerDepth: seq<string> := ["section", "subsection", "subsubsection", "paragraph", "subparagraph"]
  const TocDepth := "\\addtocontents{toc}{\\setcounter{tocdepth}{6}}"
  const BeginEnum := "\\begin{enumerate}"
  const EndEnum := "\\end{enumerate}"
  const LoneItem := "\t\\item"

  // ---------------------------------------------------------------------------
  // Section tree

  /** The length of the longest key: the bound that makes the descent of `make_sections` terminate. */
  function MaxLen(keys: seq<string>): (r: nat)
    ensures forall k | k in keys :: |k| <= r
    ensures keys != [] ==> exists k | k in keys :: |k| == r
  {
    if keys == [] then 0
    else
      var m := MaxLen(keys[1..]);
      if |keys[0]| > m then |keys[0]| else m
  }

  /**
   * `make_sections(key)` restricted to `keys[i..]`: a section for every key
   * that `key` is a proper raw prefix of, in key order, each with its own
   * sub-sections.
   */
  function Children(keys: seq<string>, key: string, i: nat): seq<Section>
    requires |key| <= MaxLen(keys) && i <= |keys|
    decreases MaxLen(keys) - |key|, |keys| - i
  {
    if i == |keys| then []
    else if key < keys[i] then [Section(keys[i], Children(keys, keys[i], 0))] + Children(keys, key, i + 1)
    else Children(keys, key, i + 1)
  }

  /** `make_sections(key)`: one section per key that `key` properly prefixes, in key order. */
  function MakeSections(keys: seq<string>, key: string): (r: seq<Section>)
    requires key in keys
    ensures SectionKeys(r) == Extending(keys, key)
  {
    ChildrenKeys(keys, key, 0);
    assert keys[0..] == keys;
    Children(keys, key, 0)
  }

  /** `mlvl_keys` over `keys[..n]`: a top-level section for every key without `::`. */
  function Tops(keys: seq<string>, n: nat): seq<Section>
    requires n <= |keys|
  {
    if n == 0 then []
    else
      var k := keys[n - 1];
      Tops(keys, n - 1) + (if Count(k, PathSep) == 0 then [Section(k, MakeSections(keys, k))] else [])
  }

  /**
   * The top-level sections are exactly the keys without `::`, each holding
   * its own `make_sections`.
   */
  lemma TopsKeys(keys: seq<string>, n: nat)
    requires n <= |keys|
    ensures SectionKeys(Tops(keys, n)) == TopLevel(keys[..n])
    ensures forall s | s in Tops(keys, n) :: s.key in keys[..n] && Count(s.key, PathSep) == 0 && s.children == MakeSections(keys, s.key)
    ensures forall j | 0 <= j < n && Count(keys[j], PathSep) == 0 :: exists s | s in Tops(keys, n) :: s.key == keys[j]
  {
    TopsOnly(keys, n);
    TopsCover(keys, n);
    TopsOrder(keys, n);
  }

  /** The elements of `ks` without `::` (`k.count("::") == 0`), in order. */
  function TopLevel(ks: seq<string>): (r: seq<string>)
    ensures forall k :: k in r <==> k in ks && Count(k, PathSep) == 0
  {
    if ks == [] then []
    else (if Count(ks[0], PathSep) == 0 then [ks[0]] else []) + TopLevel(ks[1..])
  }

  lemma {:induction false} TopLevelSnoc(ks: seq<string>, k: string)
    ensures TopLevel(ks + [k]) == TopLevel(ks) + (if Count(k, PathSep) == 0 then [k] else [])
    decreases |ks|
  {
    if ks == [] {
      ConsTail(k, []);
      assert [] + [k] == [k];
    } else {
      var t := ks[1..];
      TopLevelSnoc(t, k);
      ConsTail(ks[0], t + [k]);
      AppendAssoc([ks[0]], t, [k]);
      assert ks == [ks[0]] + t;
      var h := if Count(ks[0], PathSep) == 0 then [ks[0]] else [];
      assert TopLevel(ks + [k]) == h + TopLevel(t + [k]);
      AppendAssoc(h, TopLevel(t), if Count(k, PathSep) == 0 then [k] else []);
    }
  }

  lemma {:induction false} SectionKeysConcat(a: seq<Section>, b: seq<Section>)
    ensures SectionKeys(a + b) == SectionKeys(a) + SectionKeys(b)
    decreases |a|
  {
    if a == [] {
      assert a + b == b;
    } else {
      SectionKeysConcat(a[1..], b);
      ConsTail(a[0], a[1..] + b);
      AppendAssoc([a[0]], a[1..], b);
      assert a == [a[0]] + a[1..];
      AppendAssoc([a[0].key], SectionKeys(a[1..]), SectionKeys(b));
    }
  }

  lemma {:induction false} TopsOrder(keys: seq<string>, n: nat)
    requires n <= |keys|
    ensures SectionKeys(Tops(keys, n)) == TopLevel(keys[..n])
    decreases n
  {
    if n == 0 {
      assert keys[..0] == [];
    } else {
      var k := keys[n - 1];
      var add := if Count(k, PathSep) == 0 then [Section(k, MakeSections(keys, k))] else [];
      TopsOrder(keys, n - 1);
      SectionKeysConcat(Tops(keys, n - 1), add);
      TopLevelSnoc(keys[..n - 1], k);
      assert keys[..n] == keys[..n - 1] + [k];
      assert SectionKeys(add) == if Count(k, PathSep) == 0 then [k] else [];
    }
  }

  lemma {:induction false} TopsOnly(keys: seq<string>, n: nat)
    requires n <= |keys|
    ensures forall s | s in Tops(keys, n) :: s.key in keys[..n] && Count(s.key, PathSep) == 0 && s.children == MakeSections(keys, s.key)
    decreases n
  {
    if n > 0 {
      TopsOnly(keys, n - 1);
      assert forall x | x in keys[..n - 1] :: x in keys[..n];
      assert keys[n - 1] in keys[..n];
    }
  }

  lemma {:induction false} TopsCover(keys: seq<string>, n: nat)
    requires n <= |keys|
    ensures forall j | 0 <= j < n && Count(keys[j], PathSep) == 0 :: exists s | s in Tops(keys, n) :: s.key == keys[j]
    decreases n
  {
    if n > 0 {
      TopsCover(keys, n - 1);
      var k := keys[n - 1];
      var prev := Tops(keys, n - 1);
      var add := if Count(k, PathSep) == 0 then [Section(k, MakeSections(keys, k))] else [];
      assert Tops(keys, n) == prev + add;
      forall j | 0 <= j < n && Count(keys[j], PathSep) == 0
        ensures exists s | s in Tops(keys, n) :: s.key == keys[j]
      {
        if j == n - 1 {
          assert add[0] in Tops(keys, n);
        } else {
          var s :| s in prev && s.key == keys[j];
          assert s in Tops(keys, n);
        }
      }
    }
  }

  /** The keys of a list of sections, in order. */
  function SectionKeys(d: seq<Section>): seq<string>
  {
    if d == [] then [] else [d[0].key] + SectionKeys(d[1..])
  }

  /** The elements of `ks` that `key` is a proper raw prefix of (`k.startswith(key) and k != key`), in order. */
  function Extending(ks: seq<string>, key: string): (r: seq<string>)
    ensures forall k :: k in r <==> k in ks && key < k
  {
    if ks == [] then []
    else (if key < ks[0] then [ks[0]] else []) + Extending(ks[1..], key)
  }

  /**
   * The sub-sections of `key` among `keys[i..]` are the keys it is a proper
   * raw prefix of, in key order.
   */
  lemma {:induction false} ChildrenKeys(keys: seq<string>, key: string, i: nat)
    requires |key| <= MaxLen(keys) && i <= |keys|
    ensures SectionKeys(Children(keys, key, i)) == Extending(keys[i..], key)
    ensures forall k :: k in SectionKeys(Children(keys, key, i)) <==> k in keys[i..] && key < k
    decreases |keys| - i
  {
    if i < |keys| {
      ChildrenKeys(keys, key, i + 1);
      var y := Children(keys, key, i + 1);
      ConsTail(keys[i], keys[i + 1..]);
      assert keys[i..] == [keys[i]] + keys[i + 1..];
      if key < keys[i] {
        var sec := Section(keys[i], Children(keys, keys[i], 0));
        ConsTail(sec, y);
        assert SectionKeys([sec] + y) == [keys[i]] + SectionKeys(y);
      }
    }
  }

  /** With distinct keys no sub-section is listed twice under the same parent. */
  lemma {:induction false} ChildrenDistinct(keys: seq<string>, key: string, i: nat)
    requires |key| <= MaxLen(keys) && i <= |keys| && NoDup(keys[i..])
    ensures NoDup(SectionKeys(Children(keys, key, i)))
    decreases |keys| - i
  {
    if i < |keys| {
      assert keys[i..] == [keys[i]] + keys[i + 1..];
      assert keys[i + 1..] == keys[i..][1..];
      ChildrenDistinct(keys, key, i + 1);
      var y := Children(keys, key, i + 1);
      if key < keys[i] {
        ChildrenKeys(keys, key, i + 1);
        var sec := Section(keys[i], Children(keys, keys[i], 0));
        assert ([sec] + y)[1..] == y;
        assert SectionKeys([sec] + y) == [keys[i]] + SectionKeys(y);
        NoDupJoin([keys[i]], SectionKeys(y));
      }
    }
  }

  /** Every sub-section carries its own key's sub-sections, as `make_sections(k)` builds them. */
  lemma {:induction false} ChildrenNested(keys: seq<string>, key: string, i: nat)
    requires |key| <= MaxLen(keys) && i <= |keys|
    ensures forall s | s in Children(keys, key, i) :: s.key in keys && s.children == MakeSections(keys, s.key)
    decreases |keys| - i
  {
    if i < |keys| {
      ChildrenNested(keys, key, i + 1);
    }
  }

  /**
   * `make_sections` lists a grandchild both under its parent and directly
   * under its grandparent: for keys `x`, `y`, `z`, each a proper prefix of
   * the next (say `a`, `a::b`, `a::b::c`), the sections of `x` are `y` with
   * `z` beneath it, and `z` again.
   */
  lemma GrandchildListedTwice(x: string, y: string, z: string)
    requires x < y && y < z
    ensures MakeSections([x, y, z], x) == [Section(y, [Section(z, [])]), Section(z, [])]
  {
    var keys := [x, y, z];
    PrefixTrans(x, y, z);
    assert MaxLen(keys) == |z|;
    assert Children(keys, z, 3) == [];
    assert Children(keys, z, 2) == [];
    assert Children(keys, z, 1) == [];
    assert Children(keys, z, 0) == [];
    assert Children(keys, y, 2) == [Section(z, [])];
    assert Children(keys, y, 0) == [Section(z, [])];
    assert Children(keys, x, 2) == [Section(z, [])];
    assert Children(keys, x, 0) == [Section(y, [Section(z, [])]), Section(z, [])];
  }

  // ---------------------------------------------------------------------------
  // Emitted lines

  /** `"\t" * n`. */
  function Tabs(n: nat): string
  {
    seq(n, _ => '\t')
  }

  /** A section heading: `tab\kind{name}`. */
  function HeaderLine(tab: string, kind: string, name: string): string
  {
    tab + "\\" + kind + "{" + name + "}"
  }

  /** The indentation of a key's lines: one tab per `::`. */
  function Indent(key: string): string
  {
    Tabs(Count(key, PathSep))
  }

  /** The heading of `key` at nesting `depth`: the depth's sectioning command on the last segment. */
  function Heading(key: string, depth: nat): string
    requires depth < |SectionPerDepth|
  {
    HeaderLine(Indent(key), SectionPerDepth[depth], LastPiece(key, PathSep))
  }

  /** The lines a key's block starts with: the table-of-contents depth line at the top level only, then the heading. */
  function Opening(key: string, depth: nat): seq<string>
    requires depth < |SectionPerDepth|
  {
    (if depth == 0 then [Indent(key) + TocDepth] else []) + [Heading(key, depth)]
  }

  /** The line for one item of a bucket. */
  function ItemLine(tab: string, item: CitedItem): string
  {
    tab + "\t" + ToLatex(item) + "\n"
  }

  function ItemLines(tab: string, items: seq<CitedItem>): seq<string>
  {
    seq(|items|, j requires 0 <= j < |items| => ItemLine(tab, items[j]))
  }

  /** A line closing an `enumerate` block, at some indentation. */
  predicate EndsBlock(line: string)
  {
    exists n: nat | n <= |line| :: line == Tabs(n) + EndEnum
  }

  /**
   * The tail of a section's block once its children are written: the
   * `enumerate` of its items, a lone `\item` when the last two lines are the
   * heading and the `\begin`, and the `\end`.
   */
  function Close(body: seq<string>, tab: string, header: string, items: seq<CitedItem>): seq<string>
    requires |body| >= 1
  {
    var begin := tab + BeginEnum;
    var filled := body + [begin] + ItemLines(tab, items);
    filled + (if filled[|filled| - 1] == begin && filled[|filled| - 2] == header then [tab + LoneItem] else []) + [tab + EndEnum]
  }

  /**
   * The closure state of `write_tex`: the lines so far and the keys already
   * written; `written` logs each key at the point its heading line is
   * appended, in that order.
   */
  datatype State = State(body: seq<string>, used: set<string>, written: seq<string>)

  /** The state once the opening lines of `s` are appended and its heading is logged. */
  function Started(s: Section, depth: nat, st: State): State
    requires depth < |SectionPerDepth|
  {
    State(st.body + Opening(s.key, depth), st.used, st.written + [s.key])
  }

  /** `write_tex` over the entries `d[i..]` of one dict at nesting `depth`. */
  function WriteAll(d: seq<Section>, i: nat, depth: nat, buckets: map<string, seq<CitedItem>>, st: State): (r: Result<State, Error>)
    requires i <= |d|
    ensures r.Ok? ==> st.body <= r.value.body && st.used <= r.value.used
    ensures r.Ok? && |r.value.body| > |st.body| ==> EndsBlock(r.value.body[|r.value.body| - 1])
    decreases d, |d| - i
  {
    if i == |d| then Ok(st)
    else
      match WriteOne(d[i], depth, buckets, st)
      case Err(e) => Err(e)
      case Ok(next) => WriteAll(d, i + 1, depth, buckets, next)
  }

  /** One iteration of `write_tex`'s loop: nothing for a used key, else the key's whole block. */
  function WriteOne(s: Section, depth: nat, buckets: map<string, seq<CitedItem>>, st: State): (r: Result<State, Error>)
    ensures r.Ok? ==> st.body <= r.value.body && st.used <= r.value.used
    ensures r.Ok? && |r.value.body| > |st.body| ==> EndsBlock(r.value.body[|r.value.body| - 1])
    ensures s.key !in st.used && depth >= |SectionPerDepth| ==> r == Err(DepthOutOfRange(depth))
    ensures r.Ok? && s.key !in st.used ==> s.key in r.value.used
    ensures s.key in st.used ==> r == Ok(st)
    decreases s, 1
  {
    if s.key in st.used then Ok(st)
    else if depth >= |SectionPerDepth| then Err(DepthOutOfRange(depth))
    else if s.key !in buckets then Err(MissingBucket(s.key))
    else
      match WriteAll(s.children, 0, depth + 1, buckets, Started(s, depth, st))
      case Err(e) => Err(e)
      case Ok(mid) =>
        var body := Close(mid.body, Indent(s.key), Heading(s.key, depth), buckets[s.key]);
        assert body[|body| - 1] == Tabs(Count(s.key, PathSep)) + EndEnum;
        Ok(State(body, mid.used + {s.key}, mid.written))
  }

  /** The state `fill_tex_body` ends in, from the map's keys and buckets. */
  function Rendered(keys: seq<string>, buckets: map<string, seq<CitedItem>>): Result<State, Error>
  {
    WriteAll(Tops(keys, |keys|), 0, 0, buckets, State([], {}, []))
  }

  // ---------------------------------------------------------------------------
  // The layout of a block

  /** No heading is a line closing an `enumerate` block. */
  lemma HeadingIsNoEnd(key: string, depth: nat, n: nat)
    requires depth < |SectionPerDepth|
    ensures Heading(key, depth) != Tabs(n) + EndEnum
  {
    var t := Count(key, PathSep);
    var h := Heading(key, depth);
    var e := Tabs(n) + EndEnum;
    if t == n {
      assert h[t + 1] == SectionPerDepth[depth][0] != 'e' == e[n + 1];
    } else if t < n {
      assert h[t] == '\\' && e[t] == '\t';
    } else {
      assert h[n] == '\t' && e[n] == '\\';
    }
  }

  /** No item line is a `\begin` line. */
  lemma ItemIsNoBegin(tab: string, item: CitedItem)
    ensures ItemLine(tab, item) != tab + BeginEnum
  {
    var l := ItemLine(tab, item);
    assert l[|l| - 1] == '\n';
  }

  /**
   * The block of a key not yet used: its opening lines, then its children's
   * blocks, then `\begin{enumerate}`, one line per item of its bucket, a lone
   * `\item` exactly when it has no items and its children wrote nothing, and
   * `\end{enumerate}`; the key joins the used keys.
   */
  lemma BlockLayout(s: Section, depth: nat, buckets: map<string, seq<CitedItem>>, st: State)
    requires s.key !in st.used && WriteOne(s, depth, buckets, st).Ok?
    ensures depth < |SectionPerDepth| && s.key in buckets
    ensures var started := st.body + Opening(s.key, depth);
      var mid := WriteAll(s.children, 0, depth + 1, buckets, Started(s, depth, st));
      var tab := Indent(s.key);
      var items := buckets[s.key];
      && mid.Ok? && started <= mid.value.body
      && WriteOne(s, depth, buckets, st).value == State(
           mid.value.body + [tab + BeginEnum] + ItemLines(tab, items)
             + (if items == [] && mid.value.body == started then [tab + LoneItem] else []) + [tab + EndEnum],
           mid.value.used + {s.key}, mid.value.written)
  {
    var started := st.body + Opening(s.key, depth);
    var mid := WriteAll(s.children, 0, depth + 1, buckets, Started(s, depth, st)).value;
    var header := Heading(s.key, depth);
    assert started[|started| - 1] == header;
    forall n: nat ensures header != Tabs(n) + EndEnum {
      HeadingIsNoEnd(s.key, depth, n);
    }
    CloseLayout(started, mid.body, Indent(s.key), header, buckets[s.key]);
  }

  /**
   * `Close` after a heading and the lines of the children: the lone `\item`
   * is added exactly when there are no items and the children wrote nothing.
   */
  lemma CloseLayout(started: seq<string>, body: seq<string>, tab: string, header: string, items: seq<CitedItem>)
    requires |started| >= 1 && started <= body && started[|started| - 1] == header
    requires body == started || EndsBlock(body[|body| - 1])
    requires forall n: nat :: header != Tabs(n) + EndEnum
    ensures Close(body, tab, header, items)
         == body + [tab + BeginEnum] + ItemLines(tab, items)
            + (if items == [] && body == started then [tab + LoneItem] else []) + [tab + EndEnum]
  {
    var filled := body + [tab + BeginEnum] + ItemLines(tab, items);
    if items != [] {
      ItemIsNoBegin(tab, items[|items| - 1]);
      assert filled[|filled| - 1] == ItemLine(tab, items[|items| - 1]);
    } else {
      assert filled == body + [tab + BeginEnum];
      if body != started {
        var n: nat :| n <= |body[|body| - 1]| && body[|body| - 1] == Tabs(n) + EndEnum;
        assert filled[|filled| - 2] == body[|body| - 1];
      }
    }
  }

  // ---------------------------------------------------------------------------
  // Which keys are written

  /** The keys whose blocks are written for the entries `d`, in the order of their headings. */
  function Visit(d: seq<Section>, used: set<string>): seq<string>
    decreases d
  {
    if d == [] then []
    else
      var o := VisitOne(d[0], used);
      o + Visit(d[1..], used + Elems(o))
  }

  /** The keys written for one entry: none if its key is used, else the key and then its children's. */
  function VisitOne(s: Section, used: set<string>): seq<string>
    decreases s
  {
    if s.key in used then [] else [s.key] + Visit(s.children, used)
  }

  /**
   * After a successful walk the used keys are those it started with and the
   * keys of `Visit`, and the headings it appended are logged in `Visit`'s order.
   */
  lemma {:induction false} UsedAll(d: seq<Section>, i: nat, depth: nat, buckets: map<string, seq<CitedItem>>, st: State)
    requires i <= |d| && WriteAll(d, i, depth, buckets, st).Ok?
    ensures WriteAll(d, i, depth, buckets, st).value.used == st.used + Elems(Visit(d[i..], st.used))
    ensures WriteAll(d, i, depth, buckets, st).value.written == st.written + Visit(d[i..], st.used)
    decreases d, |d| - i
  {
    if i < |d| {
      UsedOne(d[i], depth, buckets, st);
      var next := WriteOne(d[i], depth, buckets, st).value;
      UsedAll(d, i + 1, depth, buckets, next);
      assert d[i..][0] == d[i] && d[i..][1..] == d[i + 1..];
      AppendAssoc(st.written, VisitOne(d[i], st.used), Visit(d[i + 1..], next.used));
    }
  }

  lemma {:induction false} UsedOne(s: Section, depth: nat, buckets: map<string, seq<CitedItem>>, st: State)
    requires WriteOne(s, depth, buckets, st).Ok?
    ensures WriteOne(s, depth, buckets, st).value.used == st.used + Elems(VisitOne(s, st.used))
    ensures WriteOne(s, depth, buckets, st).value.written == st.written + VisitOne(s, st.used)
    decreases s, 1
  {
    if s.key !in st.used {
      BlockLayout(s, depth, buckets, st);
      UsedAll(s.children, 0, depth + 1, buckets, Started(s, depth, st));
      assert s.children[0..] == s.children;
      AppendAssoc(st.written, [s.key], Visit(s.children, st.used));
    }
  }

  /** Raw prefixes chain. */
  lemma PrefixTrans(a: string, b: string, c: string)
    requires a < b && b < c
    ensures a < c
  {
    assert c[..|b|][..|a|] == c[..|a|];
  }

  /** A used set that holds, with every key, every declared key extending it. */
  predicate Closed(keys: seq<string>, used: set<string>)
  {
    forall k, k' | k in used && k' in keys && k < k' :: k' in used
  }

  lemma NoDupJoin(a: seq<string>, b: seq<string>)
    requires NoDup(a) && NoDup(b) && forall k | k in b :: k !in a
    ensures NoDup(a + b)
  {
    forall i, j | 0 <= i < j < |a + b| ensures (a + b)[i] != (a + b)[j] {
      if j >= |a| && i < |a| {
        assert (a + b)[j] in b;
      }
    }
  }

  /** `v` writes no key twice and none of `used`, only keys extending `key`, and keeps `used` closed. */
  predicate Fresh(keys: seq<string>, key: string, used: set<string>, v: seq<string>)
  {
    && NoDup(v) && (forall k | k in v :: k !in used)
    && Closed(keys, used + Elems(v))
    && (forall k | k in v :: k in keys && key < k)
  }

  lemma FreshJoin(keys: seq<string>, key: string, used: set<string>, o: seq<string>, rest: seq<string>)
    requires Fresh(keys, key, used, o) && Fresh(keys, key, used + Elems(o), rest)
    ensures Fresh(keys, key, used, o + rest)
  {
    NoDupJoin(o, rest);
    assert (used + Elems(o)) + Elems(rest) == used + Elems(o + rest);
  }

  /** The walk over the section of a key extending `key` is fresh with respect to `key`. */
  lemma SectionFresh(keys: seq<string>, key: string, a: string, used: set<string>)
    requires a in keys && key < a && Closed(keys, used)
    ensures Fresh(keys, key, used, VisitOne(Section(a, Children(keys, a, 0)), used))
    ensures a in used || a in VisitOne(Section(a, Children(keys, a, 0)), used)
    decreases MaxLen(keys) - |a|, |keys| + 2
  {
    SectionVisit(keys, a, used);
    var o := VisitOne(Section(a, Children(keys, a, 0)), used);
    forall k | k in o ensures k in keys && key < k {
      if k != a {
        PrefixTrans(key, a, k);
      }
    }
  }

  /**
   * The walk over the sub-sections of `key` listed from `keys[i]` on, started
   * with a closed used set, writes no key twice and none already used, writes
   * only keys extending `key`, and leaves every such key from `keys[i..]`
   * used, the used set still closed.
   */
  lemma {:induction false} ChildrenVisit(keys: seq<string>, key: string, i: nat, used: set<string>)
    requires |key| <= MaxLen(keys) && i <= |keys| && Closed(keys, used)
    ensures Fresh(keys, key, used, Visit(Children(keys, key, i), used))
    ensures forall j | i <= j < |keys| && key < keys[j] ::
      keys[j] in used || keys[j] in Visit(Children(keys, key, i), used)
    decreases MaxLen(keys) - |key|, |keys| - i
  {
    if i < |keys| {
      if key < keys[i] {
        var a := keys[i];
        SectionFresh(keys, key, a, used);
        var o := VisitOne(Section(a, Children(keys, a, 0)), used);
        ChildrenVisit(keys, key, i + 1, used + Elems(o));
        ChildrenCons(keys, key, i, used);
      } else {
        ChildrenVisit(keys, key, i + 1, used);
        ChildrenSkip(keys, key, i, used);
      }
    }
  }

  /** A key that `key` does not prefix adds no sub-section. */
  lemma ChildrenSkip(keys: seq<string>, key: string, i: nat, used: set<string>)
    requires |key| <= MaxLen(keys) && i < |keys| && !(key < keys[i])
    requires Fresh(keys, key, used, Visit(Children(keys, key, i + 1), used))
    requires forall j | i + 1 <= j < |keys| && key < keys[j] ::
      keys[j] in used || keys[j] in Visit(Children(keys, key, i + 1), used)
    ensures Fresh(keys, key, used, Visit(Children(keys, key, i), used))
    ensures forall j | i <= j < |keys| && key < keys[j] ::
      keys[j] in used || keys[j] in Visit(Children(keys, key, i), used)
  {
    assert Children(keys, key, i) == Children(keys, key, i + 1);
  }

  /** One step of `ChildrenVisit`: a sub-section `keys[i]`, then the sub-sections after it. */
  lemma ChildrenCons(keys: seq<string>, key: string, i: nat, used: set<string>)
    requires |key| <= MaxLen(keys) && i < |keys| && key < keys[i]
    requires var o := VisitOne(Section(keys[i], Children(keys, keys[i], 0)), used);
      var used' := used + Elems(o);
      && Fresh(keys, key, used, o) && (keys[i] in used || keys[i] in o)
      && Fresh(keys, key, used', Visit(Children(keys, key, i + 1), used'))
      && forall j | i + 1 <= j < |keys| && key < keys[j] ::
           keys[j] in used' || keys[j] in Visit(Children(keys, key, i + 1), used')
    ensures Fresh(keys, key, used, Visit(Children(keys, key, i), used))
    ensures forall j | i <= j < |keys| && key < keys[j] ::
      keys[j] in used || keys[j] in Visit(Children(keys, key, i), used)
  {
    var sec := Section(keys[i], Children(keys, keys[i], 0));
    var y := Children(keys, key, i + 1);
    assert Children(keys, key, i) == [sec] + y;
    assert ([sec] + y)[0] == sec && ([sec] + y)[1..] == y;
    var o := VisitOne(sec, used);
    var rest := Visit(y, used + Elems(o));
    FreshJoin(keys, key, used, o, rest);
    assert Visit(Children(keys, key, i), used) == o + rest;
    CoverStep(keys, key, i, used, o, rest);
  }

  /** Coverage of `keys[i..]` from coverage of `keys[i]` by `o` and of `keys[i + 1..]` by `rest`. */
  lemma CoverStep(keys: seq<string>, key: string, i: nat, used: set<string>, o: seq<string>, rest: seq<string>)
    requires i < |keys| && (keys[i] in used || keys[i] in o)
    requires forall j | i + 1 <= j < |keys| && key < keys[j] :: keys[j] in used + Elems(o) || keys[j] in rest
    ensures forall j | i <= j < |keys| && key < keys[j] :: keys[j] in used || keys[j] in o + rest
  {
    forall j | i <= j < |keys| && key < keys[j] ensures keys[j] in used || keys[j] in o + rest {
      if j > i {
        assert keys[j] in used + Elems(o) || keys[j] in rest;
      }
    }
  }

  /**
   * The walk over the section of a declared key `a`, started with a closed
   * used set, writes no key twice and none already used, writes only `a` and
   * keys extending it, and leaves `a` and every key extending it used.
   */
  lemma {:induction false} SectionVisit(keys: seq<string>, a: string, used: set<string>)
    requires a in keys && Closed(keys, used)
    ensures var o := VisitOne(Section(a, Children(keys, a, 0)), used);
      && NoDup(o) && (forall k | k in o :: k !in used)
      && Closed(keys, used + Elems(o))
      && (forall k | k in o :: k == a || (k in keys && a < k))
      && (a in used || a in o)
      && (forall k | k in keys && a < k :: k in used || k in o)
    decreases MaxLen(keys) - |a|, |keys| + 1
  {
    if a !in used {
      ChildrenVisit(keys, a, 0, used);
      var w := Visit(Children(keys, a, 0), used);
      var o := [a] + w;
      NoDupJoin([a], w);
      forall k | k in keys && a < k ensures k in used || k in o {
        var j :| 0 <= j < |keys| && keys[j] == k;
      }
      var u := used + Elems(o);
      forall k, k' | k in u && k' in keys && k < k' ensures k' in u {
        if k == a {
          var j :| 0 <= j < |keys| && keys[j] == k';
        }
      }
    }
  }

  /** Visiting entries one list after another threads the used keys through. */
  lemma {:induction false} VisitAppend(a: seq<Section>, b: seq<Section>, used: set<string>)
    ensures Visit(a + b, used) == Visit(a, used) + Visit(b, used + Elems(Visit(a, used)))
    decreases |a|
  {
    if a == [] {
      assert a + b == b;
      assert Elems(Visit(a, used)) == {};
      assert used + Elems(Visit(a, used)) == used;
    } else {
      var o := VisitOne(a[0], used);
      assert (a + b)[0] == a[0] && (a + b)[1..] == a[1..] + b;
      VisitAppend(a[1..], b, used + Elems(o));
      var v1 := Visit(a[1..], used + Elems(o));
      assert (used + Elems(o)) + Elems(v1) == used + Elems(o + v1);
    }
  }

  /** `k` extends (or is) a key without `::` among `keys[..n]`, so some top-level section covers it. */
  predicate Rooted(keys: seq<string>, n: nat, k: string)
    requires n <= |keys|
  {
    exists j | 0 <= j < n :: Count(keys[j], PathSep) == 0 && keys[j] <= k
  }

  /** `v` writes no key twice and none of `used`, and keeps `used` closed. */
  predicate Walked(keys: seq<string>, used: set<string>, v: seq<string>)
  {
    && NoDup(v) && (forall k | k in v :: k !in used)
    && Closed(keys, used + Elems(v))
  }

  lemma WalkedJoin(keys: seq<string>, used: set<string>, v1: seq<string>, v2: seq<string>)
    requires Walked(keys, used, v1) && Walked(keys, used + Elems(v1), v2)
    ensures Walked(keys, used, v1 + v2)
  {
    NoDupJoin(v1, v2);
    assert (used + Elems(v1)) + Elems(v2) == used + Elems(v1 + v2);
  }

  /** The walk over the top-level section (if any) that `keys[n - 1]` adds. */
  lemma TopStep(keys: seq<string>, n: nat, used: set<string>)
    requires 0 < n <= |keys| && Closed(keys, used)
    ensures var t := keys[n - 1];
      var v := Visit(if Count(t, PathSep) == 0 then [Section(t, MakeSections(keys, t))] else [], used);
      && Walked(keys, used, v)
      && (forall k | k in v :: k in keys && Count(t, PathSep) == 0 && t <= k)
      && (Count(t, PathSep) == 0 ==> forall k | k in keys && t <= k :: k in used || k in v)
  {
    var t := keys[n - 1];
    if Count(t, PathSep) == 0 {
      var extra := [Section(t, MakeSections(keys, t))];
      assert extra[0] == Section(t, Children(keys, t, 0)) && extra[1..] == [];
      SectionVisit(keys, t, used);
      var v := VisitOne(extra[0], used);
      assert Visit(extra, used) == v;
      forall k | k in keys && t <= k ensures k in used || k in v {
        if k != t {
          assert t < k;
        }
      }
    }
  }

  /**
   * The walk over the top-level sections of `keys[..n]`, started with a closed
   * used set, writes no key twice and none already used, writes only rooted
   * keys, and leaves every rooted key used.
   */
  lemma {:induction false} TopsVisit(keys: seq<string>, n: nat, used: set<string>)
    requires n <= |keys| && Closed(keys, used)
    ensures Walked(keys, used, Visit(Tops(keys, n), used))
    ensures forall k | k in Visit(Tops(keys, n), used) :: k in keys && Rooted(keys, n, k)
    ensures forall k | k in keys && Rooted(keys, n, k) :: k in used || k in Visit(Tops(keys, n), used)
  {
    if n > 0 {
      var t := keys[n - 1];
      var extra := if Count(t, PathSep) == 0 then [Section(t, MakeSections(keys, t))] else [];
      TopsVisit(keys, n - 1, used);
      var v1 := Visit(Tops(keys, n - 1), used);
      var used' := used + Elems(v1);
      VisitAppend(Tops(keys, n - 1), extra, used);
      TopStep(keys, n, used');
      var v2 := Visit(extra, used');
      var v := Visit(Tops(keys, n), used);
      assert v == v1 + v2;
      WalkedJoin(keys, used, v1, v2);
      forall k | k in v ensures k in keys && Rooted(keys, n, k) {
        if k in v1 {
          var j :| 0 <= j < n - 1 && Count(keys[j], PathSep) == 0 && keys[j] <= k;
        }
      }
      forall k | k in keys && Rooted(keys, n, k) ensures k in used || k in v {
        var j :| 0 <= j < n && Count(keys[j], PathSep) == 0 && keys[j] <= k;
        if j < n - 1 {
          assert Rooted(keys, n - 1, k);
        }
      }
    }
  }

  /**
   * The order in which the walk from the top-level sections writes headings
   * has no repetition and holds exactly the rooted keys, even though
   * `make_sections` lists grandchildren both nested and directly.
   */
  lemma HeadingOrder(keys: seq<string>)
    ensures NoDup(Visit(Tops(keys, |keys|), {}))
    ensures forall k :: k in Visit(Tops(keys, |keys|), {}) <==> k in keys && Rooted(keys, |keys|, k)
  {
    assert Closed(keys, {});
    TopsVisit(keys, |keys|, {});
  }

  /**
   * `fill_tex_body` appends the heading of every key that extends a key
   * without `::`, and of no other key, each exactly once, and marks exactly
   * those keys used.
   */
  lemma EachKeyWrittenOnce(keys: seq<string>, buckets: map<string, seq<CitedItem>>)
    requires Rendered(keys, buckets).Ok?
    ensures NoDup(Rendered(keys, buckets).value.written)
    ensures forall k :: k in Rendered(keys, buckets).value.written <==> k in keys && Rooted(keys, |keys|, k)
    ensures Rendered(keys, buckets).value.used == set k | k in keys && Rooted(keys, |keys|, k)
  {
    HeadingOrder(keys);
    HeadingSet(keys);
    RenderedUsed(keys, buckets);
  }

  lemma HeadingSet(keys: seq<string>)
    ensures Elems(Visit(Tops(keys, |keys|), {})) == set k | k in keys && Rooted(keys, |keys|, k)
  {
    HeadingOrder(keys);
  }

  /** After a successful rendering the logged headings are the heading order, and its keys are the used keys. */
  lemma RenderedUsed(keys: seq<string>, buckets: map<string, seq<CitedItem>>)
    requires Rendered(keys, buckets).Ok?
    ensures Rendered(keys, buckets).value.written == Visit(Tops(keys, |keys|), {})
    ensures Rendered(keys, buckets).value.used == Elems(Visit(Tops(keys, |keys|), {}))
  {
    var top := Tops(keys, |keys|);
    var st := State([], {}, []);
    assert Rendered(keys, buckets) == WriteAll(top, 0, 0, buckets, st);
    TopUsed(top, buckets, st);
  }

  lemma TopUsed(top: seq<Section>, buckets: map<string, seq<CitedItem>>, st: State)
    requires st.used == {} && st.written == [] && WriteAll(top, 0, 0, buckets, st).Ok?
    ensures WriteAll(top, 0, 0, buckets, st).value.written == Visit(top, {})
    ensures WriteAll(top, 0, 0, buckets, st).value.used == Elems(Visit(top, {}))
  {
    UsedAll(top, 0, 0, buckets, st);
    assert top[0..] == top;
  }

  /**
   * On a map that has a bucket for every key, `cite_map[k]` cannot fail, so
   * the only error rendering can raise is the depth index error of
   * `section_per_depth[depth]`.
   */
  lemma RenderedOnlyDepth(keys: seq<string>, buckets: map<string, seq<CitedItem>>)
    requires Buckets(keys, buckets)
    ensures Rendered(keys, buckets).Err? ==> Rendered(keys, buckets).error.DepthOutOfRange?
  {
    TopsKeys(keys, |keys|);
    OnlyDepthAll(keys, buckets, Tops(keys, |keys|), 0, 0, State([], {}, []));
  }

  lemma {:induction false} OnlyDepthAll(keys: seq<string>, buckets: map<string, seq<CitedItem>>, d: seq<Section>, i: nat, depth: nat, st: State)
    requires (forall k | k in keys :: k in buckets) && i <= |d|
    requires forall s | s in d :: s.key in keys && s.children == MakeSections(keys, s.key)
    ensures WriteAll(d, i, depth, buckets, st).Err? ==> WriteAll(d, i, depth, buckets, st).error.DepthOutOfRange?
    decreases d, |d| - i
  {
    if i < |d| {
      OnlyDepthOne(keys, buckets, d[i], depth, st);
      match WriteOne(d[i], depth, buckets, st)
      case Err(e) =>
      case Ok(next) => OnlyDepthAll(keys, buckets, d, i + 1, depth, next);
    }
  }

  lemma {:induction false} OnlyDepthOne(keys: seq<string>, buckets: map<string, seq<CitedItem>>, s: Section, depth: nat, st: State)
    requires forall k | k in keys :: k in buckets
    requires s.key in keys && s.children == MakeSections(keys, s.key)
    ensures WriteOne(s, depth, buckets, st).Err? ==> WriteOne(s, depth, buckets, st).error.DepthOutOfRange?
    decreases s, 1
  {
    if s.key !in st.used && depth < |SectionPerDepth| {
      assert s.key in buckets;
      SectionNested(keys, s);
      OnlyDepthAll(keys, buckets, s.children, 0, depth + 1, Started(s, depth, st));
      WriteOneErr(s, depth, buckets, st);
    }
  }

  /** The sub-sections of a section built by `make_sections` are built the same way. */
  lemma SectionNested(keys: seq<string>, s: Section)
    requires s.key in keys && s.children == MakeSections(keys, s.key)
    ensures forall c | c in s.children :: c.key in keys && c.children == MakeSections(keys, c.key)
  {
    assert s.children == Children(keys, s.key, 0);
    ChildrenNested(keys, s.key, 0);
  }

  /** Past its guards, `write_tex` on one section fails only where its sub-sections do. */
  lemma WriteOneErr(s: Section, depth: nat, buckets: map<string, seq<CitedItem>>, st: State)
    requires s.key !in st.used && depth < |SectionPerDepth| && s.key in buckets
    ensures WriteOne(s, depth, buckets, st).Err? ==> WriteOne(s, depth, buckets, st) == WriteAll(s.children, 0, depth + 1, buckets, Started(s, depth, st))
  {
  }

  /** A key whose first segment is itself a declared key is rooted. */
  lemma FirstSegmentRoots(keys: seq<string>, k: string)
    requires Split(k, PathSep)[0] in keys
    ensures Rooted(keys, |keys|, k)
  {
    FirstPiece(k, PathSep);
    var j :| 0 <= j < |keys| && keys[j] == Split(k, PathSep)[0];
  }

  /**
   * For a map loaded from a description whose top-level names hold no `::`,
   * `fill_tex_body` writes the block of every declared category exactly once.
   */
  lemma TaxonomyKeysWrittenOnce(root: seq<Taxonomy.Entry>, buckets: map<string, seq<CitedItem>>)
    requires forall j | 0 <= j < |root| :: Count(root[j].name, PathSep) == 0
    requires Rendered(Dedup(Taxonomy.Paths(root)), buckets).Ok?
    ensures Rendered(Dedup(Taxonomy.Paths(root)), buckets).value.used == Elems(Taxonomy.Paths(root))
  {
    var paths := Taxonomy.Paths(root);
    var keys := Dedup(paths);
    InsertAllMembers([], paths);
    AllRooted(root, keys);
    EachKeyWrittenOnce(keys, buckets);
    assert (set k | k in keys && Rooted(keys, |keys|, k)) == Elems(paths);
  }

  /** Every key of such a map extends a top-level name, which is a key without `::`. */
  lemma AllRooted(root: seq<Taxonomy.Entry>, keys: seq<string>)
    requires forall j | 0 <= j < |root| :: Count(root[j].name, PathSep) == 0
    requires forall k :: k in keys <==> k in Taxonomy.Paths(root)
    ensures forall k | k in keys :: Rooted(keys, |keys|, k)
  {
    Taxonomy.TopNames(root);
    RootedFrom(root, Taxonomy.Paths(root), keys);
  }

  lemma RootedFrom(root: seq<Taxonomy.Entry>, paths: seq<string>, keys: seq<string>)
    requires forall j | 0 <= j < |root| :: Count(root[j].name, PathSep) == 0
    requires forall k :: k in keys <==> k in paths
    requires forall q | q in paths :: exists j | 0 <= j < |root| :: root[j].name <= q && root[j].name in paths
    ensures forall k | k in keys :: Rooted(keys, |keys|, k)
  {
    forall k | k in keys ensures Rooted(keys, |keys|, k) {
      var j :| 0 <= j < |root| && root[j].name <= k && root[j].name in paths;
      TopNameRoots(keys, root[j].name, k);
    }
  }

  lemma TopNameRoots(keys: seq<string>, n: string, k: string)
    requires n in keys && Count(n, PathSep) == 0 && n <= k
    ensures Rooted(keys, |keys|, k)
  {
    var m :| 0 <= m < |keys| && keys[m] == n;
  }

  /**
   * A section with no items of its own whose children wrote lines gets an
   * `enumerate` block with no `\item` in it: the `\begin` line is directly
   * followed by the `\end` line.
   */
  lemma EmptyListAfterChildren(s: Section, depth: nat, buckets: map<string, seq<CitedItem>>, st: State)
    requires s.key !in st.used && WriteOne(s, depth, buckets, st).Ok?
    requires s.key in buckets && buckets[s.key] == []
    requires depth < |SectionPerDepth|
    requires |WriteAll(s.children, 0, depth + 1, buckets, Started(s, depth, st)).value.body|
           > |st.body + Opening(s.key, depth)|
    ensures var body := WriteOne(s, depth, buckets, st).value.body;
      body[|body| - 2..] == [Indent(s.key) + BeginEnum, Indent(s.key) + EndEnum]
  {
    BlockLayout(s, depth, buckets, st);
  }

  /**
   * The heading table has five entries: a section at depth four with an
   * unused child fails on the child's heading, whatever else it holds.
   */
  lemma TooDeep(s: Section, buckets: map<string, seq<CitedItem>>, st: State)
    requires s.key !in st.used && s.key in buckets
    requires s.children != [] && s.children[0].key !in st.used
    ensures WriteOne(s, 4, buckets, st) == Err(DepthOutOfRange(5))
  {
    var next := Started(s, 4, st);
    assert WriteOne(s.children[0], 5, buckets, next) == Err(DepthOutOfRange(5));
    assert WriteAll(s.children, 0, 5, buckets, next) == Err(DepthOutOfRange(5));
  }

  // ---------------------------------------------------------------------------
  // The writer

  /** The closure of `write_tex`: the growing body, the used keys, and the map it reads. */
  class TexWriter {
    var body: seq<string>
    var used: set<string>
    /** The keys in the order their headings were appended. */
    ghost var written: seq<string>
    const buckets: map<string, seq<CitedItem>>

    constructor (buckets: map<string, seq<CitedItem>>)
      ensures body == [] && used == {} && written == [] && this.buckets == buckets
    {
      body := [];
      used := {};
      written := [];
      this.buckets := buckets;
    }

    /** `write_tex(d, depth)`; an exception comes back as `err`. */
    method WriteTex(d: seq<Section>, depth: nat) returns (err: Option<Error>)
      modifies this
      ensures match WriteAll(d, 0, depth, buckets, old(State(body, used, written)))
        case Ok(st) => err == None && body == st.body && used == st.used && written == st.written
        case Err(e) => err == Some(e)
      decreases d, 0
    {
      var i := 0;
      while i < |d|
        invariant 0 <= i <= |d|
        invariant WriteAll(d, 0, depth, buckets, old(State(body, used, written))) == WriteAll(d, i, depth, buckets, State(body, used, written))
      {
        err := WriteSection(d[i], depth);
        if err.Some? {
          return;
        }
        i := i + 1;
      }
      err := None;
    }

    /** One iteration of `write_tex`'s loop, for the entry `s`. */
    method WriteSection(s: Section, depth: nat) returns (err: Option<Error>)
      modifies this
      ensures match WriteOne(s, depth, buckets, old(State(body, used, written)))
        case Ok(st) => err == None && body == st.body && used == st.used && written == st.written
        case Err(e) => err == Some(e)
      decreases s
    {
      if s.key in used {
        return None;
      }
      if depth >= |SectionPerDepth| {
        return Some(DepthOutOfRange(depth));
      }
      if s.key !in buckets {
        return Some(MissingBucket(s.key));
      }
      ghost var st0 := State(body, used, written);
      var tab := Indent(s.key);
      if depth == 0 {
        body := body + [tab + TocDepth];
      }
      var header := Heading(s.key, depth);
      body := body + [header];
      written := written + [s.key];
      var citedItems := buckets[s.key];
      assert State(body, used, written) == Started(s, depth, st0);
      err := WriteTex(s.children, depth + 1);
      if err.None? {
        ghost var mid := State(body, used, written);
        assert WriteAll(s.children, 0, depth + 1, buckets, Started(s, depth, st0)) == Ok(mid);
        CloseBlock(tab, header, citedItems);
        used := used + {s.key};
        assert WriteOne(s, depth, buckets, st0) == Ok(State(body, used, written));
      } else {
        assert WriteOne(s, depth, buckets, st0) == Err(err.value);
      }
    }

    /** The `enumerate` block of a section, appended once its children are written. */
    method CloseBlock(tab: string, header: string, citedItems: seq<CitedItem>)
      requires |body| >= 1
      modifies this
      ensures body == Close(old(body), tab, header, citedItems) && used == old(used) && written == old(written)
    {
      var begin := tab + BeginEnum;
      body := body + [begin];
      var j := 0;
      while j < |citedItems|
        invariant 0 <= j <= |citedItems| && used == old(used) && written == old(written)
        invariant body == old(body) + [begin] + ItemLines(tab, citedItems[..j])
      {
        body := body + [ItemLine(tab, citedItems[j])];
        j := j + 1;
        assert ItemLines(tab, citedItems[..j]) == ItemLines(tab, citedItems[..j - 1]) + [ItemLine(tab, citedItems[j - 1])];
      }
      assert citedItems[..j] == citedItems;
      if body[|body| - 1] == begin && body[|body| - 2] == header {
        body := body + [tab + LoneItem];
      }
      body := body + [tab + EndEnum];
    }
  }

  /** `fill_tex_body`: the top-level sections, then `write_tex` from depth 0. */
  method FillTexBody(m: CitationsMap) returns (r: Result<seq<string>, Error>)
    requires m.Valid()
    ensures match Rendered(m.keys, m.buckets)
      case Ok(st) => r == Ok(st.body)
      case Err(e) => r == Err(e)
    ensures r.Err? ==> r.error.DepthOutOfRange?
  {
    RenderedOnlyDepth(m.keys, m.buckets);
    var keys := m.Toc();
    var mlvlKeys: seq<Section> := [];
    var i := 0;
    while i < |keys|
      invariant 0 <= i <= |keys|
      invariant mlvlKeys == Tops(keys, i)
    {
      if Count(keys[i], PathSep) == 0 {
        mlvlKeys := mlvlKeys + [Section(keys[i], MakeSections(keys, keys[i]))];
      }
      i := i + 1;
    }
    var writer := new TexWriter(m.buckets);
    var err := writer.WriteTex(mlvlKeys, 0);
    if err.Some? {
      return Err(err.value);
    }
    r := Ok(writer.body);
  }
}
