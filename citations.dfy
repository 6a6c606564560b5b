/**
 * The citation map of `main.py`: canonical category paths, the validation
 * of a key against the declared ones, the parsing of a bibliography entry's
 * keyword field into locations, and the `CitationsMap` class that keeps one
 * insertion-ordered, duplicate-free bucket of cited items per declared path.
 */
module Citations {
  import opened Wrappers
  import opened Strings
  import opened OrderedSets
  import Abbrev
  import Taxonomy

  const PathSep := "::"
  const LocationSep := ","
  const NoCategory := "no-category"

  /** The exceptions the core raises. */
  datatype Error =
    | UnknownCategory(key: string, message: string) // KeyError raised by `_check_key`
    | MissingBucket(key: string)                     // KeyError of the dict lookup of a key that is only a prefix
    | UnplacedLocation(location: string)             // AssertionError of the entry reader
    | DepthOutOfRange(depth: nat)                    // IndexError of the heading table

  /** A bibliography entry as the BibTeX parser hands it over: the keywords field may be absent. */
  datatype BibRecord = BibRecord(id: string, title: string, keywords: Option<string>)

  /** `CitedItem`, a named tuple: compared by value. */
  datatype CitedItem = CitedItem(id: string, title: string, location: seq<string>)

  /** `CitedItem.to_latex`. */
  function ToLatex(item: CitedItem): string
  {
    "\\item " + item.title + " \\cite{" + item.id + "} "
  }

  // ---------------------------------------------------------------------------
  // Canonical paths

  /** Each segment through `ABBREV_MAP.get(seg, seg)`. */
  function ResolveAll(segs: seq<string>): seq<string>
  {
    seq(|segs|, i requires 0 <= i < |segs| => Abbrev.Resolve(segs[i]))
  }

  /** `"::".join(ABBREV_MAP.get(s, s) for s in path.split("::"))`. */
  function Canonicalize(path: string): string
  {
    Join(ResolveAll(Split(path, PathSep)), PathSep)
  }

  lemma PlainHasNo(w: string, c: char)
    requires Abbrev.PlainWord(w) && !Abbrev.PlainChar(c)
    ensures c !in w
  {
  }

  /** Resolving segments never creates a separator, for a separator that is not a plain character. */
  lemma ResolveKeepsSplittable(segs: seq<string>, sep: string)
    requires |sep| > 0 && !Abbrev.PlainChar(sep[0]) && Splittable(segs, sep)
    ensures Splittable(ResolveAll(segs), sep)
  {
    var r := ResolveAll(segs);
    forall i | 0 <= i < |r|
      ensures (i < |r| - 1 ==> Delimited(r[i], sep)) && (i == |r| - 1 ==> SepFree(r[i], sep))
    {
      Abbrev.ResolvePlain(segs[i]);
      if r[i] != segs[i] {
        PlainHasNo(r[i], sep[0]);
        NoSepChar(r[i], sep);
      }
    }
  }

  /** The table never changes how a path splits: the segments of a canonical path are the resolved segments. */
  lemma CanonicalSegments(path: string)
    ensures Split(Canonicalize(path), PathSep) == ResolveAll(Split(path, PathSep))
  {
    SplitIsSplittable(path, PathSep);
    ResolveKeepsSplittable(Split(path, PathSep), PathSep);
    SplitJoin(ResolveAll(Split(path, PathSep)), PathSep);
  }

  /** Canonicalising a canonical path changes nothing. */
  lemma CanonicalizeIdempotent(path: string)
    ensures Canonicalize(Canonicalize(path)) == Canonicalize(path)
  {
    CanonicalSegments(path);
    var segs := ResolveAll(Split(path, PathSep));
    forall i | 0 <= i < |segs| ensures Abbrev.Resolve(segs[i]) == segs[i] {
      Abbrev.ResolveIdempotent(Split(path, PathSep)[i]);
    }
    assert ResolveAll(segs) == segs;
  }

  /** A path none of whose segments is a short code is its own canonical form. */
  lemma CanonicalizeKeepsPlainPath(path: string)
    requires forall seg | seg in Split(path, PathSep) :: seg !in Abbrev.AbbrevMap()
    ensures Canonicalize(path) == path
  {
    var segs := Split(path, PathSep);
    assert ResolveAll(segs) == segs;
    JoinSplit(path, PathSep);
  }

  /** A short code and its canonical name are interchangeable in any segment of a path. */
  lemma CodeOrName(segs: seq<string>, i: nat, code: string)
    requires Splittable(segs, PathSep) && i < |segs| && code in Abbrev.AbbrevMap()
    ensures Canonicalize(Join(segs[i := code], PathSep))
         == Canonicalize(Join(segs[i := Abbrev.AbbrevMap()[code]], PathSep))
  {
    var name := Abbrev.AbbrevMap()[code];
    Abbrev.EntryPlain(code);
    PlainHasNo(code, ':');
    PlainHasNo(name, ':');
    NoSepChar(code, PathSep);
    NoSepChar(name, PathSep);
    var a := segs[i := code];
    var b := segs[i := name];
    assert Splittable(a, PathSep);
    assert Splittable(b, PathSep);
    SplitJoin(a, PathSep);
    SplitJoin(b, PathSep);
    Abbrev.NameIsNotCode(code);
    assert ResolveAll(a) == ResolveAll(b);
  }

  // ---------------------------------------------------------------------------
  // Entry locations

  /** The location transform of the entry reader: split the keywords on `,`, canonicalise each piece. */
  function Locations(keywords: Option<string>): seq<string>
  {
    var field := if keywords.Some? then keywords.value else NoCategory;
    var pieces := Split(field, LocationSep);
    seq(|pieces|, i requires 0 <= i < |pieces| => Canonicalize(pieces[i]))
  }

  /** An entry without a keywords field is placed in the single location `no-category`. */
  lemma LocationsDefault()
    ensures Locations(None) == [NoCategory]
  {
    SingleLocation(NoCategory);
  }

  /** A keyword field with neither separator, longer than any short code, is one location, unchanged. */
  lemma SingleLocation(field: string)
    requires forall j | 0 <= j < |field| :: field[j] != ',' && field[j] != ':'
    requires |field| > 6
    ensures Locations(Some(field)) == [field]
  {
    SingleSegment(field, LocationSep);
    SingleSegment(field, PathSep);
    Abbrev.LongIsNotCode(field);
    assert ResolveAll([field]) == [field];
    assert Canonicalize(field) == field;
  }

  /**
   * Pieces are not trimmed: in `od, det` the second piece keeps its leading
   * space, so it is no short code and stays as written.
   */
  lemma SpacesAreKept(a: string, b: string)
    requires a == "od" && b == " det"
    ensures Locations(Some(a + LocationSep + b)) == ["detection", " det"]
  {
    LocationPair(a, b);
    Abbrev.DetectionCodes();
    Abbrev.SpacedCode();
  }

  /** Two pieces without separators are two locations, each resolved as a single segment. */
  lemma LocationPair(a: string, b: string)
    requires ',' !in a && ':' !in a && ',' !in b && ':' !in b
    ensures Locations(Some(a + LocationSep + b)) == [Abbrev.Resolve(a), Abbrev.Resolve(b)]
  {
    SplitPair(a, b, LocationSep);
    CanonicalSingle(a);
    CanonicalSingle(b);
  }

  lemma SplitPair(a: string, b: string, sep: string)
    requires |sep| > 0 && sep[0] !in a && sep[0] !in b
    ensures Split(a + sep + b, sep) == [a, b]
  {
    NoSepChar(a, sep);
    NoSepChar(b, sep);
    assert Join([a, b], sep) == a + sep + b;
    assert Splittable([a, b], sep);
    SplitJoin([a, b], sep);
  }

  /** A single segment canonicalises to its resolution. */
  lemma CanonicalSingle(seg: string)
    requires ':' !in seg
    ensures Canonicalize(seg) == Abbrev.Resolve(seg)
  {
    SingleSegment(seg, PathSep);
    assert ResolveAll([seg]) == [Abbrev.Resolve(seg)];
  }

  lemma SingleSegment(a: string, sep: string)
    requires |sep| > 0 && forall j | 0 <= j < |a| :: a[j] != sep[0]
    ensures Split(a, sep) == [a]
  {
    NoSepChar(a, sep);
    SplitSepFree(a, sep);
  }

  lemma CommaFree(a: string, sep: string, c: char)
    requires |sep| == 1 && c == sep[0]
    ensures (Delimited(a, sep) || SepFree(a, sep)) ==> c !in a
  {
    if c in a {
      var j :| 0 <= j < |a| && a[j] == c;
      assert sep <= (a + sep)[j..];
      assert sep <= a[j..];
    }
  }

  /** Canonicalising a piece that holds no comma yields no comma. */
  lemma CanonicalHasNoComma(piece: string)
    requires ',' !in piece
    ensures ',' !in Canonicalize(piece)
  {
    var segs := Split(piece, PathSep);
    var r := ResolveAll(segs);
    forall i | 0 <= i < |r| ensures ',' !in r[i] {
      Abbrev.ResolvePlain(segs[i]);
      if r[i] == segs[i] {
        SplitNoChar(piece, PathSep, i, ',');
      } else {
        PlainHasNo(r[i], ',');
      }
    }
    if ',' in Canonicalize(piece) {
      JoinChars(r, PathSep, ',');
    }
  }

  /** A character missing from a string is missing from every piece of its split. */
  lemma SplitNoChar(s: string, sep: string, i: nat, c: char)
    requires |sep| > 0 && i < |Split(s, sep)| && c !in s
    ensures c !in Split(s, sep)[i]
  {
    if c in Split(s, sep)[i] {
      SplitChars(s, sep, i, c);
    }
  }

  /** The table never changes how a keyword string splits into locations. */
  lemma LocationsSplitBack(keywords: Option<string>)
    ensures Split(Join(Locations(keywords), LocationSep), LocationSep) == Locations(keywords)
  {
    var field := if keywords.Some? then keywords.value else NoCategory;
    var pieces := Split(field, LocationSep);
    var locs := Locations(keywords);
    SplitIsSplittable(field, LocationSep);
    forall i | 0 <= i < |locs|
      ensures (i < |locs| - 1 ==> Delimited(locs[i], LocationSep)) && (i == |locs| - 1 ==> SepFree(locs[i], LocationSep))
    {
      CommaFree(pieces[i], LocationSep, ',');
      CanonicalHasNoComma(pieces[i]);
      NoSepChar(locs[i], LocationSep);
    }
    SplitJoin(locs, LocationSep);
  }

  /** `p` is a raw string prefix (`str.startswith`) of some key. */
  predicate Addressable(p: string, keys: seq<string>)
  {
    exists key | key in keys :: p <= key
  }

  /** The first location the reader's `assert` rejects: one that is no prefix of an allowed key. */
  function FirstUnplaced(locs: seq<string>, allowed: seq<string>): (r: Option<string>)
    ensures r.None? <==> forall loc | loc in locs :: Addressable(loc, allowed)
    ensures r.Some? ==> r.value in locs && !Addressable(r.value, allowed)
    ensures r.Some? ==> exists i | 0 <= i < |locs| ::
      locs[i] == r.value && forall j | 0 <= j < i :: Addressable(locs[j], allowed)
  {
    if locs == [] then None
    else if Addressable(locs[0], allowed) then
      var r := FirstUnplaced(locs[1..], allowed);
      assert r.Some? ==> exists i | 1 <= i < |locs| :: locs[i] == r.value && forall j | 0 <= j < i :: Addressable(locs[j], allowed) by {
        if r.Some? {
          var i :| 0 <= i < |locs[1..]| && locs[1..][i] == r.value && forall j | 0 <= j < i :: Addressable(locs[1..][j], allowed);
          assert locs[i + 1] == r.value;
          assert forall j | 0 <= j < i + 1 :: Addressable(locs[j], allowed) by {
            forall j | 0 <= j < i + 1 ensures Addressable(locs[j], allowed) {
              if j > 0 { assert locs[j] == locs[1..][j - 1]; }
            }
          }
        }
      }
      r
    else Some(locs[0])
  }

  /** One step of `IterBibTex.__iter__`: the cited item for a parsed record, or the failed assertion. */
  function ReadEntry(rec: BibRecord, allowed: seq<string>): (r: Result<CitedItem, Error>)
    ensures r.Ok? <==> forall loc | loc in Locations(rec.keywords) :: Addressable(loc, allowed)
    ensures r.Ok? ==> r.value == CitedItem(rec.id, rec.title, Locations(rec.keywords))
    ensures r.Err? ==> && r.error.UnplacedLocation?
                       && r.error.location in Locations(rec.keywords)
                       && !Addressable(r.error.location, allowed)
    ensures r.Err? ==> var locs := Locations(rec.keywords);
      exists i | 0 <= i < |locs| :: locs[i] == r.error.location && forall j | 0 <= j < i :: Addressable(locs[j], allowed)
  {
    var locs := Locations(rec.keywords);
    match FirstUnplaced(locs, allowed)
    case Some(loc) => Err(UnplacedLocation(loc))
    case None => Ok(CitedItem(rec.id, rec.title, locs))
  }

  /** `filter_wonocat`: drop the items placed only in `no-category`, keeping the order of the rest. */
  function WithoutNoCategory(items: seq<CitedItem>): (r: seq<CitedItem>)
    ensures forall x :: x in r <==> x in items && x.location != [NoCategory]
    ensures |r| <= |items|
    ensures NoDup(items) ==> NoDup(r)
  {
    if items == [] then []
    else (if items[0].location != [NoCategory] then [items[0]] else []) + WithoutNoCategory(items[1..])
  }

  /** The filter keeps order: filtering a concatenation concatenates the filtered parts. */
  lemma {:induction false} WithoutNoCategoryConcat(a: seq<CitedItem>, b: seq<CitedItem>)
    ensures WithoutNoCategory(a + b) == WithoutNoCategory(a) + WithoutNoCategory(b)
    decreases |a|
  {
    if a == [] {
      assert a + b == b;
    } else {
      WithoutNoCategoryConcat(a[1..], b);
      ConcatStep(a[0], a[1..], b);
      assert a == [a[0]] + a[1..];
    }
  }

  lemma ConcatStep(x: CitedItem, a: seq<CitedItem>, b: seq<CitedItem>)
    requires WithoutNoCategory(a + b) == WithoutNoCategory(a) + WithoutNoCategory(b)
    ensures WithoutNoCategory([x] + a + b) == WithoutNoCategory([x] + a) + WithoutNoCategory(b)
  {
    ConsTail(x, a + b);
    ConsTail(x, a);
    AppendAssoc([x], a, b);
    var h := if x.location != [NoCategory] then [x] else [];
    assert WithoutNoCategory([x] + (a + b)) == h + WithoutNoCategory(a + b);
    assert WithoutNoCategory([x] + a) == h + WithoutNoCategory(a);
    AppendAssoc(h, WithoutNoCategory(a), WithoutNoCategory(b));
  }

  /** A single item is kept exactly when it is not placed only in `no-category`. */
  lemma WithoutNoCategorySingle(x: CitedItem)
    ensures WithoutNoCategory([x]) == if x.location != [NoCategory] then [x] else []
  {
    assert [x][1..] == [];
  }

  // ---------------------------------------------------------------------------
  // Key validation

  /** The text of the KeyError `_check_key` raises. */
  function KeyErrorMessage(k: string, keys: seq<string>): string
  {
    "input key '" + k + "' not one of:\n[" + Join(keys, ", ") + "]"
  }

  lemma MessageNamesKeys(k: string, keys: seq<string>)
    ensures Contains(KeyErrorMessage(k, keys), k)
    ensures forall key | key in keys :: Contains(KeyErrorMessage(k, keys), key)
  {
    ContainsMiddle("input key '", k, "' not one of:\n[" + Join(keys, ", ") + "]");
    assert KeyErrorMessage(k, keys) == "input key '" + k + ("' not one of:\n[" + Join(keys, ", ") + "]");
    forall key | key in keys ensures Contains(KeyErrorMessage(k, keys), key) {
      var i :| 0 <= i < |keys| && keys[i] == key;
      JoinContains(keys, ", ", i);
      ContainsIn("input key '" + k + "' not one of:\n[", Join(keys, ", "), "]", key);
    }
  }

  /**
   * `_check_key`: the canonical form of `k` if it is a declared key or a raw
   * prefix of one; otherwise a KeyError whose message lists every key.
   */
  function CheckKey(keys: seq<string>, k: string): (r: Result<string, Error>)
    ensures r.Ok? <==> Addressable(Canonicalize(k), keys)
    ensures r.Ok? ==> r.value == Canonicalize(k)
    ensures r.Err? ==> && r.error.UnknownCategory?
                       && r.error.key == Canonicalize(k)
                       && Contains(r.error.message, Canonicalize(k))
                       && forall key | key in keys :: Contains(r.error.message, key)
  {
    var c := Canonicalize(k);
    if c in keys then Ok(c)
    else if !Addressable(c, keys) then
      MessageNamesKeys(c, keys);
      Err(UnknownCategory(c, KeyErrorMessage(c, keys)))
    else Ok(c)
  }

  /** A declared key with no short-code segment is accepted unchanged. */
  lemma CheckStoredKey(keys: seq<string>, k: string)
    requires k in keys && forall seg | seg in Split(k, PathSep) :: seg !in Abbrev.AbbrevMap()
    ensures CheckKey(keys, k) == Ok(k)
  {
    CanonicalizeKeepsPlainPath(k);
  }

  /** Checking an accepted key again accepts it again, unchanged. */
  lemma CheckKeyIdempotent(keys: seq<string>, k: string)
    requires CheckKey(keys, k).Ok?
    ensures CheckKey(keys, CheckKey(keys, k).value) == CheckKey(keys, k)
  {
    CanonicalizeIdempotent(k);
  }

  /** A taxonomy key spelled with a short code is stored as spelled, so no key check can reach it. */
  lemma ShortCodeKeyUnreachable()
    ensures CheckKey(["od"], "od") == Err(UnknownCategory("detection", KeyErrorMessage("detection", ["od"])))
  {
    NoSepChar("od", PathSep);
    SplitSepFree("od", PathSep);
    Abbrev.DetectionCodes();
    assert ResolveAll(["od"]) == ["detection"];
  }

  /**
   * Taxonomy keys are stored as written while locations are canonicalised:
   * with a taxonomy spelled `{"aug": {"crop": []}}` the location `aug::crop`
   * becomes `augmentations::crop`, which no key starts with, so the entry is
   * rejected.
   */
  lemma AbbreviatedTaxonomyRejects(code: string, leaf: string)
    requires code == "aug" && leaf == "crop"
    ensures Locations(Some(code + PathSep + leaf)) == ["augmentations" + PathSep + leaf]
    ensures ReadEntry(BibRecord("x", "T", Some(code + PathSep + leaf)), [code, code + PathSep + leaf])
         == Err(UnplacedLocation("augmentations" + PathSep + leaf))
  {
    var loc := code + PathSep + leaf;
    SingleSegment(loc, LocationSep);
    Abbrev.AugAndCrop();
    CanonicalPair(code, leaf);
    var c := "augmentations" + PathSep + leaf;
    assert c[3] != loc[3];
    assert !(c <= code) && !(c <= loc);
    assert !Addressable(c, [code, loc]);
  }

  /** A two-segment path canonicalises segment by segment. */
  lemma CanonicalPair(a: string, b: string)
    requires forall j | 0 <= j < |a| :: a[j] != ':'
    requires forall j | 0 <= j < |b| :: b[j] != ':'
    ensures Canonicalize(a + PathSep + b) == Abbrev.Resolve(a) + PathSep + Abbrev.Resolve(b)
  {
    NoSepChar(a, PathSep);
    NoSepChar(b, PathSep);
    assert Join([a, b], PathSep) == a + PathSep + b;
    assert Splittable([a, b], PathSep);
    SplitJoin([a, b], PathSep);
    assert ResolveAll([a, b]) == [Abbrev.Resolve(a), Abbrev.Resolve(b)];
    JoinCons(Abbrev.Resolve(a), [Abbrev.Resolve(b)], PathSep);
  }

  // ---------------------------------------------------------------------------
  // Buckets

  /** A bucket map over the declared keys: one duplicate-free bucket per key and no other. */
  predicate Buckets(keys: seq<string>, buckets: map<string, seq<CitedItem>>)
  {
    && buckets.Keys == set k | k in keys
    && (forall k | k in buckets :: NoDup(buckets[k]))
  }

  /**
   * `add`: each location in turn is checked and the item inserted into its
   * bucket; the first failure stops the loop, leaving earlier insertions done.
   */
  function AddAt(buckets: map<string, seq<CitedItem>>, keys: seq<string>, locs: seq<string>, item: CitedItem)
    : (r: (map<string, seq<CitedItem>>, Option<Error>))
    ensures r.0.Keys == buckets.Keys
    decreases |locs|
  {
    if locs == [] then (buckets, None)
    else
      match CheckKey(keys, locs[0])
      case Err(e) => (buckets, Some(e))
      case Ok(k) =>
        if k in buckets then AddAt(buckets[k := Insert(buckets[k], item)], keys, locs[1..], item)
        else (buckets, Some(MissingBucket(k)))
  }

  /** The insertion of one step of `add`, on a key that has a bucket. */
  function Put(buckets: map<string, seq<CitedItem>>, c: string, item: CitedItem): map<string, seq<CitedItem>>
    requires c in buckets
  {
    buckets[c := Insert(buckets[c], item)]
  }

  lemma PutKeeps(keys: seq<string>, buckets: map<string, seq<CitedItem>>, c: string, item: CitedItem)
    requires Buckets(keys, buckets) && c in buckets
    ensures Buckets(keys, Put(buckets, c, item)) && item in Put(buckets, c, item)[c]
    ensures forall key | key in buckets ::
      || Put(buckets, c, item)[key] == buckets[key]
      || (item !in buckets[key] && Put(buckets, c, item)[key] == buckets[key] + [item])
  {
  }

  /** One step of `add` on a location whose canonical form has a bucket. */
  lemma AddUnfold(buckets: map<string, seq<CitedItem>>, keys: seq<string>, locs: seq<string>, item: CitedItem)
    requires Buckets(keys, buckets) && locs != [] && Canonicalize(locs[0]) in buckets
    ensures AddAt(buckets, keys, locs, item) == AddAt(Put(buckets, Canonicalize(locs[0]), item), keys, locs[1..], item)
  {
    assert CheckKey(keys, locs[0]) == Ok(Canonicalize(locs[0]));
  }

  /**
   * `add` keeps the key set and every bucket duplicate-free; each bucket either
   * keeps its contents or gains the item at its end.
   */
  lemma {:induction false} AddKeeps(buckets: map<string, seq<CitedItem>>, keys: seq<string>, locs: seq<string>, item: CitedItem)
    requires Buckets(keys, buckets)
    ensures Buckets(keys, AddAt(buckets, keys, locs, item).0)
    ensures forall key | key in buckets ::
      || AddAt(buckets, keys, locs, item).0[key] == buckets[key]
      || (item !in buckets[key] && AddAt(buckets, keys, locs, item).0[key] == buckets[key] + [item])
    decreases |locs|
  {
    if locs != [] && Canonicalize(locs[0]) in buckets {
      var c := Canonicalize(locs[0]);
      var next := Put(buckets, c, item);
      AddUnfold(buckets, keys, locs, item);
      PutKeeps(keys, buckets, c, item);
      AddKeeps(next, keys, locs[1..], item);
      var b := AddAt(next, keys, locs[1..], item).0;
      forall key | key in buckets ensures b[key] == buckets[key] || (item !in buckets[key] && b[key] == buckets[key] + [item]) {
        if next[key] != buckets[key] {
          assert item in next[key];
        }
      }
    }
  }

  /** The buckets of keys that no location names are untouched. */
  lemma {:induction false} AddFrame(buckets: map<string, seq<CitedItem>>, keys: seq<string>, locs: seq<string>, item: CitedItem, key: string)
    requires Buckets(keys, buckets) && key in buckets
    requires forall loc | loc in locs :: Canonicalize(loc) != key
    ensures AddAt(buckets, keys, locs, item).0[key] == buckets[key]
    decreases |locs|
  {
    if locs != [] && Canonicalize(locs[0]) in buckets {
      AddUnfold(buckets, keys, locs, item);
      PutKeeps(keys, buckets, Canonicalize(locs[0]), item);
      AddFrame(Put(buckets, Canonicalize(locs[0]), item), keys, locs[1..], item, key);
    }
  }

  /**
   * `add` succeeds exactly when every location canonicalises to a declared
   * key, and the item then sits in the bucket of each of them.
   */
  lemma {:induction false} AddSucceeds(buckets: map<string, seq<CitedItem>>, keys: seq<string>, locs: seq<string>, item: CitedItem)
    requires Buckets(keys, buckets)
    ensures AddAt(buckets, keys, locs, item).1.None? <==> forall loc | loc in locs :: Canonicalize(loc) in buckets
    ensures AddAt(buckets, keys, locs, item).1.None? ==>
      forall loc | loc in locs :: item in AddAt(buckets, keys, locs, item).0[Canonicalize(loc)]
    decreases |locs|
  {
    if locs != [] {
      var c := Canonicalize(locs[0]);
      assert forall loc | loc in locs :: loc == locs[0] || loc in locs[1..];
      if c in buckets {
        var next := Put(buckets, c, item);
        AddUnfold(buckets, keys, locs, item);
        PutKeeps(keys, buckets, c, item);
        AddSucceeds(next, keys, locs[1..], item);
        AddKeeps(next, keys, locs[1..], item);
      }
    }
  }

  /** Adding an item that is already in the bucket of every location changes nothing. */
  lemma {:induction false} AddPresent(buckets: map<string, seq<CitedItem>>, keys: seq<string>, locs: seq<string>, item: CitedItem)
    requires Buckets(keys, buckets)
    requires forall loc | loc in locs :: Canonicalize(loc) in buckets && item in buckets[Canonicalize(loc)]
    ensures AddAt(buckets, keys, locs, item) == (buckets, None)
    decreases |locs|
  {
    if locs != [] {
      AddUnfold(buckets, keys, locs, item);
      assert Put(buckets, Canonicalize(locs[0]), item) == buckets;
      AddPresent(buckets, keys, locs[1..], item);
    }
  }

  /** Re-adding an item that was added successfully duplicates nothing and changes nothing. */
  lemma AddTwice(buckets: map<string, seq<CitedItem>>, keys: seq<string>, item: CitedItem)
    requires Buckets(keys, buckets) && AddAt(buckets, keys, item.location, item).1.None?
    ensures AddAt(AddAt(buckets, keys, item.location, item).0, keys, item.location, item)
         == (AddAt(buckets, keys, item.location, item).0, None)
  {
    AddKeeps(buckets, keys, item.location, item);
    AddSucceeds(buckets, keys, item.location, item);
    AddPresent(AddAt(buckets, keys, item.location, item).0, keys, item.location, item);
  }

  /**
   * When `add` fails it fails at some location `i`: every earlier location's
   * bucket already holds the item (the operation is not atomic), location `i`
   * canonicalises to no declared key, and the error is the dict lookup's
   * KeyError when that canonical form is a prefix of a key, `_check_key`'s
   * otherwise.
   */
  lemma {:induction false} AddFailure(buckets: map<string, seq<CitedItem>>, keys: seq<string>, locs: seq<string>, item: CitedItem)
    returns (i: nat)
    requires Buckets(keys, buckets) && AddAt(buckets, keys, locs, item).1.Some?
    ensures i < |locs| && Canonicalize(locs[i]) !in buckets
    ensures forall j | 0 <= j < i ::
      Canonicalize(locs[j]) in buckets && item in AddAt(buckets, keys, locs, item).0[Canonicalize(locs[j])]
    ensures AddAt(buckets, keys, locs, item).1.value == FailureAt(keys, Canonicalize(locs[i]))
    decreases |locs|
  {
    var c := Canonicalize(locs[0]);
    if c in buckets {
      var next := Put(buckets, c, item);
      AddUnfold(buckets, keys, locs, item);
      PutKeeps(keys, buckets, c, item);
      var k := AddFailure(next, keys, locs[1..], item);
      AddKeeps(next, keys, locs[1..], item);
      i := k + 1;
      var b := AddAt(next, keys, locs[1..], item).0;
      forall j | 0 <= j < i ensures Canonicalize(locs[j]) in buckets && item in b[Canonicalize(locs[j])] {
        if j == 0 {
          assert item in next[c];
        } else {
          assert locs[j] == locs[1..][j - 1];
        }
      }
    } else {
      i := 0;
    }
  }

  /** The error of `add` at a canonical location without a bucket. */
  function FailureAt(keys: seq<string>, c: string): Error
  {
    if Addressable(c, keys) then MissingBucket(c) else UnknownCategory(c, KeyErrorMessage(c, keys))
  }


  // ---------------------------------------------------------------------------
  // Multi-level lookup

  /** The ordered, deduplicated union of the buckets of the keys that start with `k`, in key order. */
  function Gather(buckets: map<string, seq<CitedItem>>, keys: seq<string>, k: string): seq<CitedItem>
    requires forall key | key in keys :: key in buckets
    decreases |keys|
  {
    if keys == [] then []
    else
      var last := keys[|keys| - 1];
      var g := Gather(buckets, keys[..|keys| - 1], k);
      if k <= last then InsertAll(g, buckets[last]) else g
  }

  /** The buckets of the keys that start with `k`, one after another. */
  function Matching(buckets: map<string, seq<CitedItem>>, keys: seq<string>, k: string): seq<CitedItem>
    requires forall key | key in keys :: key in buckets
    decreases |keys|
  {
    if keys == [] then []
    else
      var last := keys[|keys| - 1];
      Matching(buckets, keys[..|keys| - 1], k) + (if k <= last then buckets[last] else [])
  }

  /** The multi-level result is the first-seen deduplication of the matching buckets laid end to end. */
  lemma {:induction false} GatherIsDedup(buckets: map<string, seq<CitedItem>>, keys: seq<string>, k: string)
    requires forall key | key in keys :: key in buckets
    ensures Gather(buckets, keys, k) == Dedup(Matching(buckets, keys, k))
    decreases |keys|
  {
    if keys != [] {
      var init := keys[..|keys| - 1];
      var last := keys[|keys| - 1];
      GatherIsDedup(buckets, init, k);
      if k <= last {
        InsertAllConcat([], Matching(buckets, init, k), buckets[last]);
      } else {
        assert Matching(buckets, keys, k) == Matching(buckets, init, k) + [];
        assert Matching(buckets, init, k) + [] == Matching(buckets, init, k);
      }
    }
  }

  /** An item is in the multi-level result exactly when some key starting with `k` holds it; none twice. */
  lemma {:induction false} GatherMembers(buckets: map<string, seq<CitedItem>>, keys: seq<string>, k: string)
    requires forall key | key in keys :: key in buckets
    ensures forall x :: x in Gather(buckets, keys, k) <==> exists key | key in keys && k <= key :: x in buckets[key]
    ensures NoDup(Gather(buckets, keys, k))
    decreases |keys|
  {
    if keys != [] {
      var init := keys[..|keys| - 1];
      var last := keys[|keys| - 1];
      GatherMembers(buckets, init, k);
      var g := Gather(buckets, init, k);
      if k <= last {
        InsertAllMembers(g, buckets[last]);
      }
      assert keys == init + [last];
      forall x ensures x in Gather(buckets, keys, k) <==> exists key | key in keys && k <= key :: x in buckets[key] {
        if x in Gather(buckets, keys, k) && !(x in g) {
          assert x in buckets[last];
        }
        if exists key | key in keys && k <= key :: x in buckets[key] {
          var key :| key in keys && k <= key && x in buckets[key];
          if key != last {
            assert key in init;
          }
        }
      }
    }
  }

  /** Looking at more keys only extends the multi-level result: earlier items keep their places. */
  lemma {:induction false} GatherExtends(buckets: map<string, seq<CitedItem>>, keys: seq<string>, k: string, n: nat)
    requires forall key | key in keys :: key in buckets
    requires n <= |keys|
    ensures Gather(buckets, keys[..n], k) <= Gather(buckets, keys, k)
    decreases |keys| - n
  {
    if n < |keys| {
      GatherExtends(buckets, keys, k, n + 1);
      var pre := keys[..n + 1];
      assert pre[..|pre| - 1] == keys[..n];
      if k <= pre[|pre| - 1] {
        InsertAllMembers(Gather(buckets, keys[..n], k), buckets[pre[|pre| - 1]]);
      }
    } else {
      assert keys[..n] == keys;
    }
  }

  /** The multi-level result for a declared key holds everything of that key's own bucket. */
  lemma GatherCoversExact(buckets: map<string, seq<CitedItem>>, keys: seq<string>, k: string)
    requires forall key | key in keys :: key in buckets
    requires k in keys
    ensures forall x | x in buckets[k] :: x in Gather(buckets, keys, k)
  {
    GatherMembers(buckets, keys, k);
  }

  // ---------------------------------------------------------------------------
  // The map

  /**
   * When no two entries of a taxonomy share a path, the keys `from_json`
   * declares are its paths exactly, in the order of the walk.
   */
  lemma DistinctPathsKept(root: seq<Taxonomy.Entry>)
    requires NoDup(Taxonomy.Paths(root))
    ensures Dedup(Taxonomy.Paths(root)) == Taxonomy.Paths(root)
  {
    DedupNoDup(Taxonomy.Paths(root));
  }

  class CitationsMap {
    /** The dict's keys in insertion order. */
    var keys: seq<string>
    /** The dict itself: key to its `OrderedSet` of items. */
    var buckets: map<string, seq<CitedItem>>

    ghost predicate Valid()
      reads this
    {
      NoDup(keys) && Buckets(keys, buckets)
    }

    /** `__init__`: an empty bucket per allowed key; a repeated key keeps its first position. */
    constructor (allowedKeys: seq<string>)
      ensures Valid() && keys == Dedup(allowedKeys)
      ensures forall k | k in buckets :: buckets[k] == []
    {
      var ks: seq<string> := [];
      var bs: map<string, seq<CitedItem>> := map[];
      var i := 0;
      while i < |allowedKeys|
        invariant 0 <= i <= |allowedKeys|
        invariant ks == InsertAll([], allowedKeys[..i])
        invariant NoDup(ks) && Buckets(ks, bs)
        invariant forall k | k in bs :: bs[k] == []
      {
        var k := allowedKeys[i];
        InsertAllMembers([], allowedKeys[..i]);
        if k !in bs {
          ks := ks + [k];
        }
        bs := bs[k := []];
        assert allowedKeys[..i + 1][..i] == allowedKeys[..i];
        i := i + 1;
      }
      assert allowedKeys[..i] == allowedKeys;
      keys := ks;
      buckets := bs;
    }

    /** `from_json`: the map over the paths of a taxonomy description. */
    static method FromJson(root: seq<Taxonomy.Entry>) returns (m: CitationsMap)
      ensures fresh(m) && m.Valid()
      ensures m.keys == Dedup(Taxonomy.Paths(root))
      ensures forall k | k in m.buckets :: m.buckets[k] == []
    {
      var nestedCats := Taxonomy.Load(root);
      m := new CitationsMap(nestedCats);
    }

    /** `toc`: the declared keys in insertion order. */
    function Toc(): seq<string>
      reads this
    {
      keys
    }

    /** `add`: insert the item into the bucket of each of its locations, in order. */
    method Add(item: CitedItem) returns (err: Option<Error>)
      requires Valid()
      modifies this
      ensures Valid() && keys == old(keys)
      ensures (buckets, err) == AddAt(old(buckets), keys, item.location, item)
    {
      var locs := item.location;
      var i := 0;
      while i < |locs|
        invariant 0 <= i <= |locs| && Valid() && keys == old(keys)
        invariant AddAt(buckets, keys, locs[i..], item) == AddAt(old(buckets), keys, locs, item)
      {
        assert locs[i..][1..] == locs[i + 1..];
        var checked := CheckKey(keys, locs[i]);
        if checked.Err? {
          return Some(checked.error);
        }
        var k := checked.value;
        if k !in buckets {
          return Some(MissingBucket(k));
        }
        buckets := buckets[k := Insert(buckets[k], item)];
        i := i + 1;
      }
      assert locs[i..] == [];
      err := None;
    }

    /**
     * `get`: the key is checked unless `skipCheck`; then either its own
     * bucket or, with `mlvl`, the ordered union over every key it prefixes.
     */
    method Get(k: string, mlvl: bool, skipCheck: bool) returns (r: Result<seq<CitedItem>, Error>)
      requires Valid()
      ensures var q := if skipCheck then Ok(k) else CheckKey(keys, k);
        match q
        case Err(e) => r == Err(e)
        case Ok(key) =>
          if !mlvl then r == (if key in buckets then Ok(buckets[key]) else Err(MissingBucket(key)))
          else r == Ok(Gather(buckets, keys, key))
    {
      var key := k;
      if !skipCheck {
        var checked := CheckKey(keys, k);
        if checked.Err? {
          return Err(checked.error);
        }
        key := checked.value;
      }
      if !mlvl {
        if key !in buckets {
          return Err(MissingBucket(key));
        }
        return Ok(buckets[key]);
      }
      var toc := Toc();
      var v: seq<CitedItem> := [];
      var i := 0;
      while i < |toc|
        invariant 0 <= i <= |toc|
        invariant v == Gather(buckets, toc[..i], key)
      {
        assert toc[..i + 1][..i] == toc[..i];
        if key <= toc[i] {
          var bucket := buckets[toc[i]];
          ghost var before := v;
          var j := 0;
          while j < |bucket|
            invariant 0 <= j <= |bucket|
            invariant v == InsertAll(before, bucket[..j])
          {
            assert bucket[..j + 1][..j] == bucket[..j];
            v := Insert(v, bucket[j]);
            j := j + 1;
          }
          assert bucket[..j] == bucket;
        }
        i := i + 1;
      }
      assert toc[..i] == toc;
      r := Ok(v);
    }

    /** The query of the command line: the multi-level lookup of a checked key, without `no-category` items. */
    method Query(k: string) returns (r: Result<seq<CitedItem>, Error>)
      requires Valid()
      ensures match CheckKey(keys, k)
        case Err(e) => r == Err(e)
        case Ok(key) => r == Ok(WithoutNoCategory(Gather(buckets, keys, key)))
    {
      var checked := CheckKey(keys, k);
      if checked.Err? {
        return Err(checked.error);
      }
      CheckKeyIdempotent(keys, k);
      var got := Get(checked.value, true, false);
      r := Ok(WithoutNoCategory(got.value));
    }
  }
}
