# Citation map and LaTeX body generator

This project models the core of a small bibliography tool. The tool reads a
JSON taxonomy of research categories and a BibTeX file whose entries list
their categories in a `keywords` field. It files every entry under each of
its categories and writes the body of a LaTeX survey: one heading per
category, nested by the taxonomy, each followed by an `enumerate` list of
the cited papers.

The model has seven modules:

- `Wrappers`: the `Option` and `Result` types.
- `Strings`: Python's `split`, `join` and `count` on strings, with the
  split/join round trip.
- `OrderedSets`: the insertion-ordered, duplicate-free set (`OrderedSet`)
  as a sequence.
- `Abbrev`: the 38-entry abbreviation table `ABBREV_MAP` and per-segment
  resolution.
- `Taxonomy`: the nested taxonomy description and the walk that flattens
  it into `::`-joined category paths.
- `Citations`: canonical paths, the reading of an entry's locations, key
  checking, and the `CitationsMap` class with its buckets, `add`, `get`
  and `toc`.
- `Render`: `make_sections`, `write_tex` (as the `TexWriter` class) and
  `fill_tex_body`, each with the pure functions that specify it.

Python exceptions become `Error` values:

- `KeyError` from the key check is `UnknownCategory`.
- `KeyError` from a dict lookup is `MissingBucket`.
- The entry reader's `AssertionError` is `UnplacedLocation`.
- The heading table's `IndexError` is `DepthOutOfRange`.

Where the description of the tool and its code disagree, the model follows
the code:

- Keys are canonicalised when items are added or looked up, but the taxonomy
  stores its keys as written. A taxonomy spelled with a short code (`{"aug":
  {"crop": []}}`) therefore rejects an entry tagged `aug::crop`, because
  `augmentations::crop` is no prefix of any stored key. This is proved in
  `Citations.AbbreviatedTaxonomyRejects`. The same mismatch means a short-code
  key cannot be looked up by its own name (`Citations.ShortCodeKeyUnreachable`).
  Its bucket is still reached by a multi-level lookup of a shorter prefix, and
  by `write_tex`, which reads buckets without the key check.
- "Is a prefix of a declared key" is a raw string prefix (`startswith`), not
  a segment-boundary prefix: `a` addresses `ab::c`.
- `add` does not require an exact key. A location that only prefixes a key
  passes the key check and then fails on the bucket lookup (`MissingBucket`).
  `add` is not atomic: the buckets of earlier locations keep the item.
- A section whose own bucket is empty but whose children wrote lines gets
  `\begin{enumerate}` directly followed by `\end{enumerate}`, with no `\item`
  (`Render.EmptyListAfterChildren`).
- The heading level comes from the nesting depth in the section tree. The
  indentation comes from the number of `::` in the key.
- `make_sections` lists every descendant, not only the direct children.
  A grandchild therefore appears twice in the tree (`Render.GrandchildListedTwice`).
  The used-key set still writes each heading once (`Render.EachKeyWrittenOnce`).

The state of `write_tex` (`Render.State`, and the fields of `Render.TexWriter`)
carries, besides the lines and the used keys, a log `written` of the keys in
the order their heading lines are appended. The program has no such list; it
records where each heading is emitted, so that "each key is written once" is
a statement about the emitted headings.

## Model

| member | source | states |
|---|---|---|
| Abbrev.CodesDistinct | abbrev.py:4-43 | no two entries of the table share a short code |
| Abbrev.NamesDistinct | abbrev.py:4-43 | no two entries share a canonical name, so the table is invertible as a `bidict` requires |
| Abbrev.Size | abbrev.py:4-43 | the map has exactly 38 codes |
| Abbrev.MapIsTable | abbrev.py:4-43 | the map holds exactly the declared pairs, code to name |
| Abbrev.Lengths | abbrev.py:4-43 | codes have at most 6 characters and names at least 9 |
| Abbrev.NameIsNotCode | abbrev.py:4-43 | no canonical name is itself a code |
| Abbrev.LongIsNotCode | abbrev.py:4-43 | a segment longer than 6 characters is no code |
| Abbrev.EntryPlain | abbrev.py:4-43 | codes and names use only lower-case letters, blanks and hyphens |
| Abbrev.Entry | abbrev.py:4-43 | each declared code resolves to its declared name |
| Abbrev.Absent | main.py:87 | a segment that is no declared code resolves to itself |
| Abbrev.ResolveIdempotent | main.py:87 | `ABBREV_MAP.get(s, s)` applied twice equals applying it once |
| Abbrev.ResolveInjective | main.py:87 | distinct codes resolve to distinct names |
| Abbrev.ResolvePlain | main.py:87 | a resolved segment is unchanged or a plain-character name |
| Abbrev.DetectionCodes | abbrev.py:24-25 | `od` resolves to `detection` and `det` to `detectors`; `detection` stays itself |
| Abbrev.AugAndCrop | abbrev.py:5 | `aug` resolves to `augmentations`; `crop` is kept |
| Abbrev.SpacedCode | main.py:73 | ` det` with its blank is no code and is kept |
| Strings.JoinSplit | main.py:87 | joining the pieces of a split with the same separator gives the string back |
| Strings.SplitJoin | main.py:73 | splitting a join gives the parts back, for parts a split could return |
| OrderedSets.Insert | main.py:100 | `OrderedSet.add`: a present element leaves the set unchanged, a new one goes last; no duplicates introduced |
| OrderedSets.Dedup | main.py:81-84 | the keys of the dict filled from a list: no duplicates, the same elements as the list, and the deduplication of every prefix of the list is a prefix of it (first-occurrence order) |
| Taxonomy.Inner | main.py:122-131 | `inner` appends the prefix's joined path (except at the root), then each leaf's path and, recursively, each nested mapping's paths, equal to the pure walk |
| Taxonomy.Load | main.py:121-132 | the list `from_json` builds is the walk's path list |
| Taxonomy.Declared | main.py:122-131 | every entry at any depth has its `::`-joined path listed, and a mapping's path is immediately followed by everything beneath it |
| Taxonomy.Beneath | main.py:126-131 | under a prefix every listed path extends the prefix's path by `::` |
| Taxonomy.TopNames | main.py:122-131 | every listed path starts with a listed top-level name |
| Taxonomy.ExampleTaxonomy | main.py:122-132 | `{"aug": {"crop": [], "flip": []}}` lists `aug`, `aug::crop`, `aug::flip` in order |
| Citations.CanonicalSegments | main.py:87 | canonicalising never changes how a path splits: its segments are the resolved segments |
| Citations.CanonicalizeIdempotent | main.py:87 | canonicalising a canonical path changes nothing |
| Citations.CanonicalizeKeepsPlainPath | main.py:87 | a path with no code segment is its own canonical form |
| Citations.CodeOrName | main.py:87 | a code and its name are interchangeable in any segment |
| Citations.CanonicalPair | main.py:87 | a two-segment path canonicalises segment by segment |
| Citations.LocationsDefault | main.py:73 | an entry without `keywords` has the single location `no-category` |
| Citations.SingleLocation | main.py:73 | a field without `,` or `:` and longer than any code is one unchanged location |
| Citations.SpacesAreKept | main.py:73 | pieces are not trimmed: `od, det` gives `detection` and ` det` |
| Citations.LocationPair | main.py:73 | two comma-separated pieces without `,` or `:` become two locations, each resolved through the table |
| Citations.LocationsSplitBack | main.py:73 | joining the locations with `,` and splitting again gives the same locations |
| Citations.FirstUnplaced | main.py:74-75 | none exactly when every location prefixes an allowed key; otherwise the first location that prefixes none |
| Citations.ReadEntry | main.py:72-77 | the item is produced exactly when every location prefixes an allowed key, with its id, title and canonical locations; otherwise the error names the first location that prefixes none |
| Citations.WithoutNoCategory | main.py:142-143 | keeps exactly the items whose locations are not just `no-category`; never longer; no duplicates introduced |
| Citations.WithoutNoCategoryConcat | main.py:143 | the filter of a concatenation is the concatenation of the filters, so the kept items stay in order |
| Citations.WithoutNoCategorySingle | main.py:143 | a single item is kept exactly when its locations are not just `no-category` |
| Citations.MessageNamesKeys | main.py:91 | the error message contains the key and every declared key |
| Citations.CheckKey | main.py:86-92 | accepts exactly when the canonical key prefixes some declared key, returning the canonical key; otherwise a `KeyError` for the canonical key whose message lists every key |
| Citations.CheckStoredKey | main.py:86-89 | a declared key without code segments is accepted unchanged |
| Citations.CheckKeyIdempotent | main.py:86-92 | checking an accepted key again accepts it again, unchanged (the double check of the query path) |
| Citations.ShortCodeKeyUnreachable | main.py:86-92 | a taxonomy key `od` cannot be looked up: `od` is checked as `detection` |
| Citations.AbbreviatedTaxonomyRejects | main.py:73-75 | with keys `aug` and `aug::crop`, the location `aug::crop` becomes `augmentations::crop` and the entry is rejected |
| Citations.AddKeeps | main.py:95-101 | `add` keeps one duplicate-free bucket per declared key; each bucket is unchanged or gains the item at its end |
| Citations.AddFrame | main.py:95-101 | buckets of keys that no location names are untouched |
| Citations.AddSucceeds | main.py:95-101 | `add` raises nothing exactly when every canonical location has a bucket, and then the item is in each of those buckets |
| Citations.AddPresent | main.py:97 | adding an item already in every location's bucket changes nothing |
| Citations.AddTwice | main.py:99-101 | re-adding an item that was added successfully changes nothing |
| Citations.AddFailure | main.py:96-101 | on failure, the first location without a bucket raises an unknown-key or missing-bucket error, and earlier locations keep the item |
| Citations.GatherIsDedup | main.py:108-112 | the multi-level result is the first-seen deduplication of the matching buckets, in key order |
| Citations.GatherMembers | main.py:108-112 | an item is in the multi-level result exactly when a key starting with the query holds it; no item twice |
| Citations.GatherExtends | main.py:109-111 | looking at more keys only extends the result |
| Citations.GatherCoversExact | main.py:103-112 | the multi-level result of a declared key holds its own bucket |
| Citations.AddAt | main.py:95-101 | inserting location by location never changes the set of keys with a bucket |
| Citations.DistinctPathsKept | main.py:117-133 | when the taxonomy's paths are distinct, the declared keys are exactly those paths, in walk order |
| Citations.CitationsMap.constructor | main.py:81-84 | one empty bucket per allowed key; keys in first-occurrence order |
| Citations.CitationsMap.FromJson | main.py:117-133 | a fresh map over the deduplicated walk of the taxonomy, with all buckets empty |
| Citations.CitationsMap.Add | main.py:95-101 | the new buckets and the error are those of the location-by-location insertion; keys unchanged |
| Citations.CitationsMap.Get | main.py:103-112 | key checked unless skipped; with `mlvl` false its own bucket or a missing-bucket error, otherwise the ordered union over the keys it prefixes |
| Citations.CitationsMap.Query | main.py:206-208 | the query result is the multi-level lookup of the checked key without `no-category` items, or the key error |
| Render.Extending | main.py:151 | the filter of `make_sections`: holds exactly the keys the given key is a proper raw prefix of |
| Render.ChildrenKeys | main.py:149-152 | the sub-sections of a key are the declared keys it properly prefixes, in the order of `toc()` |
| Render.MakeSections | main.py:149-155 | the keys of the sections are the declared keys that `key` properly prefixes, in order |
| Render.TopsKeys | main.py:157-158 | the top-level sections are the keys without `::`, in the order of `toc()`, each holding its own `make_sections` |
| Render.TopLevel | main.py:157 | the filter `k.count("::") == 0`: holds exactly the keys without `::` |
| Render.ChildrenDistinct | main.py:149-152 | with distinct keys no sub-section is listed twice under one parent |
| Render.ChildrenNested | main.py:152 | each sub-section holds its own `make_sections` result |
| Render.GrandchildListedTwice | main.py:149-155 | for keys `x`, `y`, `z` each a proper prefix of the next (such as `a`, `a::b`, `a::b::c`), the sections of `x` are `y` with `z` beneath it, and `z` again |
| Render.WriteAll | main.py:162-186 | the loop of `write_tex` only appends lines and used keys; the last appended line closes an `enumerate` |
| Render.WriteOne | main.py:163-186 | one entry: a used key leaves the state unchanged; an unused key at depth 5 or more raises the index error; on success the key becomes used |
| Render.HeadingIsNoEnd | main.py:169-184 | no heading line equals an `\end{enumerate}` line |
| Render.ItemIsNoBegin | main.py:177-180 | no item line equals the `\begin{enumerate}` line |
| Render.BlockLayout | main.py:166-186 | a key's block is its opening lines, its children's blocks, `\begin{enumerate}`, one `\item` line per bucket item, a lone `\item` exactly when the bucket is empty and the children wrote nothing, and `\end{enumerate}` |
| Render.EmptyListAfterChildren | main.py:173-184 | with an empty bucket and children that wrote lines, the block ends with `\begin` immediately followed by `\end` |
| Render.TooDeep | main.py:161-169 | a section at depth 4 with an unused child fails with the depth-5 index error |
| Render.UsedAll | main.py:163-186 | after a walk the used keys are those before plus the keys of the heading order, and the headings appended are logged in that order |
| Render.RenderedUsed | main.py:157-187 | after a successful rendering the headings were appended in the heading order, and the used keys are its keys |
| Render.RenderedOnlyDepth | main.py:161-187 | when every key has a bucket, the lookup at line 171 cannot fail: the only error rendering can raise is the depth index error |
| Render.CloseLayout | main.py:177-184 | after a heading and the children's lines, the block gets `\begin`, one line per item, a lone `\item` exactly when there are no items and the children wrote nothing, and `\end` |
| Render.TopsVisit | main.py:157-158 | the walk over the top-level sections writes no key twice and exactly the keys beneath a top-level key |
| Render.HeadingOrder | main.py:157-186 | the heading order has no repetition and holds exactly the keys extending a key without `::` |
| Render.EachKeyWrittenOnce | main.py:145-188 | a successful rendering appends the heading of each key extending a top-level key exactly once, of no other key, and marks exactly those keys used |
| Render.FirstSegmentRoots | main.py:157 | a key whose first segment is declared is reached from the top level |
| Render.TaxonomyKeysWrittenOnce | main.py:117-133 | for a map loaded from a taxonomy whose top-level names hold no `::`, a successful rendering marks every category used |
| Render.TexWriter.constructor | main.py:159-160 | an empty body, no used keys and no logged headings |
| Render.TexWriter.WriteTex | main.py:162-186 | the body, used keys and logged headings after `write_tex` are those of the pure walk, or its error |
| Render.TexWriter.WriteSection | main.py:163-186 | one loop iteration has the effect of the pure step |
| Render.TexWriter.CloseBlock | main.py:177-184 | appends the `enumerate` block of the items, with a lone `\item` in the empty case |
| Render.FillTexBody | main.py:145-188 | the returned body is the pure rendering of the map's keys and buckets, or its error; that error can only be the depth index error |

## Left out

- Command-line parsing (`parse_args`, `path_fixer`), `main`, and the lookup of the LaTeX support files: these are file-system and I/O work.
- Reading the JSON and BibTeX files: the parsers are foreign code. The taxonomy comes in as a `Taxonomy.Entry` tree and each BibTeX entry as a `BibRecord`.
- The `_TEX_IN` preamble, the closing lines and writing the `.tex` file: these are constant text and I/O.
- `CitedItem.__repr__`, `CitationsMap.__repr__` and `__iter__`: display and iteration helpers. `iter(cite_map)` is modelled as the key sequence.
- The string literal after the table in `abbrev.py`: it is dead code.
- `bidict` and `OrderedSet` internals: they are modelled by a map with distinct names and by a duplicate-free sequence.
- Render.TexWriter.WriteTex: on an exception the state that the partial write leaves behind is not stated. Only the error is stated, because the exception ends the run.
- Citations.ToLatex: it has no contract of its own. Its text is stated through `Render.BlockLayout` via `ItemLine`.
- Taxonomy values that are neither a list nor a mapping are not modelled. The walk recurses into any non-list value, so these would fail there.
