/**
 * The abbreviation table: a fixed bidirectional map from short codes to
 * canonical category-segment names (a `bidict`), and the per-segment
 * resolution `ABBREV_MAP.get(seg, seg)` that uses it.
 */
module Abbrev {
  import OrderedSets

  // `ABBREV_MAP` is one literal in the source. It is split here into runs of
  // five entries only so that each proof about the literal text stays small;
  // `Table` joins the runs back into the single table, in the source's order.

  const Rows0: seq<(string, string)> := [
    ("aug", "augmentations"),
    ("reg", "regularization"),
    ("con", "consistency"),
    ("arch", "architectures"),
    ("act", "activations")
  ]
  const Rows1: seq<(string, string)> := [
    ("norm", "normalizations"),
    ("tr", "transformers"),
    ("cl", "contrastive learning"),
    ("kd", "knowledge-distillation"),
    ("wsl", "weakly-supervised learning")
  ]
  const Rows2: seq<(string, string)> := [
    ("ssl", "semi-supervised learning"),
    ("pseudo", "pseudo-labeling"),
    ("usl", "unsupervised learning"),
    ("tl", "transfer learning"),
    ("xsl", "x-shot learning")
  ]
  const Rows3: seq<(string, string)> := [
    ("fsl", "few-shot learning"),
    ("osl", "one-shot learning"),
    ("zsl", "zero-shot learning"),
    ("ft", "fine-tuning"),
    ("od", "detection")
  ]
  const Rows4: seq<(string, string)> := [
    ("det", "detectors"),
    ("sod", "salient object detection"),
    ("seg", "segmentation"),
    ("nas", "neural architecture search"),
    ("comp", "compression")
  ]
  const Rows5: seq<(string, string)> := [
    ("mob", "mobile vision"),
    ("gan", "generative adversarial networks"),
    ("adv", "adversarial"),
    ("ae", "autoencoders"),
    ("vb", "variational bayes")
  ]
  const Rows6: seq<(string, string)> := [
    ("opt", "optimization"),
    ("hyp", "hyperparameter"),
    ("da", "domain adaptation"),
    ("rec", "recognition"),
    ("ner", "perception and the visual cortex")
  ]
  const Rows7: seq<(string, string)> := [
    ("de", "differential evolution"),
    ("llvp", "low-level visual processing"),
    ("stat", "statistics")
  ]

  // `TailK` is the table from run K on.
  const Tail7: seq<(string, string)> := Rows7
  const Tail6: seq<(string, string)> := Rows6 + Tail7
  const Tail5: seq<(string, string)> := Rows5 + Tail6
  const Tail4: seq<(string, string)> := Rows4 + Tail5
  const Tail3: seq<(string, string)> := Rows3 + Tail4
  const Tail2: seq<(string, string)> := Rows2 + Tail3
  const Tail1: seq<(string, string)> := Rows1 + Tail2

  /** The table's entries, code first, in the order they are declared. */
  const Table: seq<(string, string)> := Rows0 + Tail1

  /** The table as a map from short code to canonical name. */
  function AbbrevMap(): map<string, string>
  {
    CodesDistinct();
    map i | 0 <= i < |Table| :: Table[i].0 := Table[i].1
  }

  /** `ABBREV_MAP.get(seg, seg)`: a short code becomes its canonical name, anything else is kept. */
  function Resolve(seg: string): string
  {
    if seg in AbbrevMap() then AbbrevMap()[seg] else seg
  }

  /** Characters the table is written in: lower-case letters, blanks and hyphens. */
  predicate PlainChar(c: char)
  {
    'a' <= c <= 'z' || c == ' ' || c == '-'
  }

  predicate PlainWord(s: string)
  {
    forall k | 0 <= k < |s| :: PlainChar(s[k])
  }

  /** Every entry pairs a code of at most six characters with a name of at least nine, both plain. */
  predicate Shaped(rows: seq<(string, string)>)
  {
    forall i | 0 <= i < |rows| ::
      |rows[i].0| <= 6 && |rows[i].1| >= 9 && PlainWord(rows[i].0) && PlainWord(rows[i].1)
  }

  /** No two entries share a code, and no two share a name. */
  predicate Distinct(rows: seq<(string, string)>)
  {
    forall i, j | 0 <= i < j < |rows| :: rows[i].0 != rows[j].0 && rows[i].1 != rows[j].1
  }

  /** No entry of `a` shares a code or a name with an entry of `b`. */
  predicate Apart(a: seq<(string, string)>, b: seq<(string, string)>)
  {
    forall i, j | 0 <= i < |a| && 0 <= j < |b| :: a[i].0 != b[j].0 && a[i].1 != b[j].1
  }

  lemma ShapedJoin(a: seq<(string, string)>, b: seq<(string, string)>)
    requires Shaped(a) && Shaped(b)
    ensures Shaped(a + b)
  {
    forall i | |a| <= i < |a + b| ensures (a + b)[i] == b[i - |a|] {}
  }

  lemma DistinctJoin(a: seq<(string, string)>, b: seq<(string, string)>)
    requires Distinct(a) && Distinct(b) && Apart(a, b)
    ensures Distinct(a + b)
  {
    forall i | |a| <= i < |a + b| ensures (a + b)[i] == b[i - |a|] {}
  }

  // Facts about each run, checked on its literal text; `RowsKWords` restates
  // the run's codes and names so that their characters are checked one
  // string at a time.

  lemma Rows0Words()
    ensures PlainWord("aug") && PlainWord("reg") && PlainWord("con") && PlainWord("arch") && PlainWord("act")
    ensures PlainWord("augmentations") && PlainWord("regularization") && PlainWord("consistency") && PlainWord("architectures") && PlainWord("activations")
  {}

  lemma Rows0Shaped()
    ensures Shaped(Rows0)
  {
    Rows0Words();
  }

  lemma Rows0Distinct()
    ensures Distinct(Rows0)
  {}

  lemma Rows0Apart()
    ensures Apart(Rows0, Tail1)
  {}

  lemma Rows1Words()
    ensures PlainWord("norm") && PlainWord("tr") && PlainWord("cl") && PlainWord("kd") && PlainWord("wsl")
    ensures PlainWord("normalizations") && PlainWord("transformers") && PlainWord("contrastive learning") && PlainWord("knowledge-distillation") && PlainWord("weakly-supervised learning")
  {}

  lemma Rows1Shaped()
    ensures Shaped(Rows1)
  {
    Rows1Words();
  }

  lemma Rows1Distinct()
    ensures Distinct(Rows1)
  {}

  lemma Rows1Apart()
    ensures Apart(Rows1, Tail2)
  {}

  lemma Rows2Words()
    ensures PlainWord("ssl") && PlainWord("pseudo") && PlainWord("usl") && PlainWord("tl") && PlainWord("xsl")
    ensures PlainWord("semi-supervised learning") && PlainWord("pseudo-labeling") && PlainWord("unsupervised learning") && PlainWord("transfer learning") && PlainWord("x-shot learning")
  {}

  lemma Rows2Shaped()
    ensures Shaped(Rows2)
  {
    Rows2Words();
  }

  lemma Rows2Distinct()
    ensures Distinct(Rows2)
  {}

  lemma Rows2Apart()
    ensures Apart(Rows2, Tail3)
  {}

  lemma Rows3Words()
    ensures PlainWord("fsl") && PlainWord("osl") && PlainWord("zsl") && PlainWord("ft") && PlainWord("od")
    ensures PlainWord("few-shot learning") && PlainWord("one-shot learning") && PlainWord("zero-shot learning") && PlainWord("fine-tuning") && PlainWord("detection")
  {}

  lemma Rows3Shaped()
    ensures Shaped(Rows3)
  {
    Rows3Words();
  }

  lemma Rows3Distinct()
    ensures Distinct(Rows3)
  {}

  lemma Rows3Apart()
    ensures Apart(Rows3, Tail4)
  {}

  lemma Rows4Words()
    ensures PlainWord("det") && PlainWord("sod") && PlainWord("seg") && PlainWord("nas") && PlainWord("comp")
    ensures PlainWord("detectors") && PlainWord("salient object detection") && PlainWord("segmentation") && PlainWord("neural architecture search") && PlainWord("compression")
  {}

  lemma Rows4Shaped()
    ensures Shaped(Rows4)
  {
    Rows4Words();
  }

  lemma Rows4Distinct()
    ensures Distinct(Rows4)
  {}

  lemma Rows4Apart()
    ensures Apart(Rows4, Tail5)
  {}

  lemma Rows5Words()
    ensures PlainWord("mob") && PlainWord("gan") && PlainWord("adv") && PlainWord("ae") && PlainWord("vb")
    ensures PlainWord("mobile vision") && PlainWord("generative adversarial networks") && PlainWord("adversarial") && PlainWord("autoencoders") && PlainWord("variational bayes")
  {}

  lemma Rows5Shaped()
    ensures Shaped(Rows5)
  {
    Rows5Words();
  }

  lemma Rows5Distinct()
    ensures Distinct(Rows5)
  {}

  lemma Rows5Apart()
    ensures Apart(Rows5, Tail6)
  {}

  lemma Rows6Words()
    ensures PlainWord("opt") && PlainWord("hyp") && PlainWord("da") && PlainWord("rec") && PlainWord("ner")
    ensures PlainWord("optimization") && PlainWord("hyperparameter") && PlainWord("domain adaptation") && PlainWord("recognition") && PlainWord("perception and the visual cortex")
  {}

  lemma Rows6Shaped()
    ensures Shaped(Rows6)
  {
    Rows6Words();
  }

  lemma Rows6Distinct()
    ensures Distinct(Rows6)
  {}

  lemma Rows6Apart()
    ensures Apart(Rows6, Tail7)
  {}

  lemma Rows7Words()
    ensures PlainWord("de") && PlainWord("llvp") && PlainWord("stat")
    ensures PlainWord("differential evolution") && PlainWord("low-level visual processing") && PlainWord("statistics")
  {}

  lemma Rows7Shaped()
    ensures Shaped(Rows7)
  {
    Rows7Words();
  }

  lemma Rows7Distinct()
    ensures Distinct(Rows7)
  {}

  lemma TableShaped()
    ensures Shaped(Table)
  {
    Rows0Shaped();
    Rows1Shaped();
    Rows2Shaped();
    Rows3Shaped();
    Rows4Shaped();
    Rows5Shaped();
    Rows6Shaped();
    Rows7Shaped();
    ShapedJoin(Rows6, Tail7);
    ShapedJoin(Rows5, Tail6);
    ShapedJoin(Rows4, Tail5);
    ShapedJoin(Rows3, Tail4);
    ShapedJoin(Rows2, Tail3);
    ShapedJoin(Rows1, Tail2);
    ShapedJoin(Rows0, Tail1);
  }

  lemma TableDistinct()
    ensures Distinct(Table)
  {
    Rows0Distinct();
    Rows1Distinct();
    Rows2Distinct();
    Rows3Distinct();
    Rows4Distinct();
    Rows5Distinct();
    Rows6Distinct();
    Rows7Distinct();
    Rows0Apart();
    Rows1Apart();
    Rows2Apart();
    Rows3Apart();
    Rows4Apart();
    Rows5Apart();
    Rows6Apart();
    DistinctJoin(Rows6, Tail7);
    DistinctJoin(Rows5, Tail6);
    DistinctJoin(Rows4, Tail5);
    DistinctJoin(Rows3, Tail4);
    DistinctJoin(Rows2, Tail3);
    DistinctJoin(Rows1, Tail2);
    DistinctJoin(Rows0, Tail1);
  }

  lemma CodesDistinct()
    ensures forall i, j | 0 <= i < j < |Table| :: Table[i].0 != Table[j].0
  {
    TableDistinct();
  }

  /** No two codes share a canonical name, so the table is invertible (as `bidict` demands). */
  lemma NamesDistinct()
    ensures forall i, j | 0 <= i < j < |Table| :: Table[i].1 != Table[j].1
  {
    TableDistinct();
  }

  /** Codes are at most six characters long and names at least nine. */
  lemma Lengths()
    ensures forall i | 0 <= i < |Table| :: |Table[i].0| <= 6 && |Table[i].1| >= 9
  {
    TableShaped();
  }

  lemma CodesPlain()
    ensures forall i | 0 <= i < |Table| :: PlainWord(Table[i].0)
  {
    TableShaped();
  }

  lemma NamesPlain()
    ensures forall i | 0 <= i < |Table| :: PlainWord(Table[i].1)
  {
    TableShaped();
  }

  /** The map holds exactly the table's entries. */
  lemma MapIsTable()
    ensures forall i | 0 <= i < |Table| :: Table[i].0 in AbbrevMap() && AbbrevMap()[Table[i].0] == Table[i].1
    ensures forall c | c in AbbrevMap() :: exists i | 0 <= i < |Table| :: Table[i].0 == c && AbbrevMap()[c] == Table[i].1
  {
    CodesDistinct();
  }

  /** The codes of the table, in order. */
  function Codes(): (r: seq<string>)
    ensures |r| == |Table| && forall i | 0 <= i < |Table| :: r[i] == Table[i].0
  {
    seq(|Table|, i requires 0 <= i < |Table| => Table[i].0)
  }

  lemma CodesNoDup()
    ensures OrderedSets.NoDup(Codes())
  {
    CodesDistinct();
  }

  lemma KeysAreCodes()
    ensures AbbrevMap().Keys == set c | c in Codes()
  {
    MapIsTable();
    var codes := Codes();
    forall c | c in AbbrevMap() ensures c in codes {
      var i :| 0 <= i < |Table| && Table[i].0 == c && AbbrevMap()[c] == Table[i].1;
      assert codes[i] == c;
    }
    forall c | c in codes ensures c in AbbrevMap() {
      var i :| 0 <= i < |codes| && codes[i] == c;
      assert Table[i].0 in AbbrevMap();
    }
  }

  /** The table has exactly 38 short codes. */
  lemma Size()
    ensures |AbbrevMap()| == 38
  {
    CodesNoDup();
    OrderedSets.CardNoDup(Codes());
    KeysAreCodes();
  }

  /** No canonical name is itself a short code. */
  lemma NameIsNotCode(c: string)
    requires c in AbbrevMap()
    ensures AbbrevMap()[c] !in AbbrevMap()
  {
    MapIsTable();
    Lengths();
    var i :| 0 <= i < |Table| && Table[i].0 == c && AbbrevMap()[c] == Table[i].1;
  }

  /** A segment longer than every short code resolves to itself. */
  lemma LongIsNotCode(seg: string)
    requires |seg| > 6
    ensures seg !in AbbrevMap()
  {
    MapIsTable();
    Lengths();
  }

  /** A short code and its name are both written in plain characters. */
  lemma EntryPlain(c: string)
    requires c in AbbrevMap()
    ensures PlainWord(c) && PlainWord(AbbrevMap()[c])
  {
    MapIsTable();
    CodesPlain();
    NamesPlain();
    var i :| 0 <= i < |Table| && Table[i].0 == c && AbbrevMap()[c] == Table[i].1;
  }

  /** Each entry's code resolves to its name. */
  lemma Entry(i: nat)
    requires i < |Table|
    ensures Resolve(Table[i].0) == Table[i].1
  {
    MapIsTable();
  }

  /** Resolving an already-resolved segment leaves it unchanged. */
  lemma ResolveIdempotent(seg: string)
    ensures Resolve(Resolve(seg)) == Resolve(seg)
  {
    if seg in AbbrevMap() {
      NameIsNotCode(seg);
    }
  }

  /** Different short codes resolve to different names. */
  lemma ResolveInjective(c: string, d: string)
    requires c in AbbrevMap() && d in AbbrevMap() && c != d
    ensures Resolve(c) != Resolve(d)
  {
    MapIsTable();
    NamesDistinct();
    var i :| 0 <= i < |Table| && Table[i].0 == c && AbbrevMap()[c] == Table[i].1;
    var j :| 0 <= j < |Table| && Table[j].0 == d && AbbrevMap()[d] == Table[j].1;
    assert i != j;
    if i > j {
      assert Table[j].1 != Table[i].1;
    }
  }

  /** A resolved segment is either the segment itself or a name written in plain characters. */
  lemma ResolvePlain(seg: string)
    ensures Resolve(seg) == seg || PlainWord(Resolve(seg))
  {
    if seg in AbbrevMap() {
      MapIsTable();
      NamesPlain();
      var i :| 0 <= i < |Table| && Table[i].0 == seg && AbbrevMap()[seg] == Table[i].1;
    }
  }

  /** Codes resolve one way only: `od` and `det` name different categories. */
  lemma DetectionCodes()
    ensures Resolve("od") == "detection" && Resolve("det") == "detectors"
    ensures Resolve("detection") == "detection"
  {
    assert Table[19] == ("od", "detection");
    assert Table[20] == ("det", "detectors");
    Entry(19);
    Entry(20);
    LongIsNotCode("detection");
  }

  /** `seg` is no code of `rows`. */
  predicate NoCode(rows: seq<(string, string)>, seg: string)
  {
    forall i | 0 <= i < |rows| :: rows[i].0 != seg
  }

  lemma NoCodeJoin(a: seq<(string, string)>, b: seq<(string, string)>, seg: string)
    requires NoCode(a, seg) && NoCode(b, seg)
    ensures NoCode(a + b, seg)
  {
    forall i | |a| <= i < |a + b| ensures (a + b)[i] == b[i - |a|] {}
  }

  /** A segment that is no code of any run of the table is kept as it is. */
  lemma Absent(seg: string)
    requires NoCode(Rows0, seg) && NoCode(Rows1, seg) && NoCode(Rows2, seg) && NoCode(Rows3, seg) && NoCode(Rows4, seg) && NoCode(Rows5, seg) && NoCode(Rows6, seg) && NoCode(Rows7, seg)
    ensures Resolve(seg) == seg
  {
    NoCodeJoin(Rows6, Tail7, seg);
    NoCodeJoin(Rows5, Tail6, seg);
    NoCodeJoin(Rows4, Tail5, seg);
    NoCodeJoin(Rows3, Tail4, seg);
    NoCodeJoin(Rows2, Tail3, seg);
    NoCodeJoin(Rows1, Tail2, seg);
    NoCodeJoin(Rows0, Tail1, seg);
    MapIsTable();
  }

  /** `aug` is a short code; `crop` is not. */
  lemma AugAndCrop()
    ensures Resolve("aug") == "augmentations" && Resolve("crop") == "crop"
  {
    assert Table[0] == ("aug", "augmentations");
    Entry(0);
    Absent("crop");
  }

  /** A code with a leading space is no code. */
  lemma SpacedCode()
    ensures Resolve(" det") == " det"
  {
    Absent(" det");
  }
}
