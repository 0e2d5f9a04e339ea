# ff-merge in Dafny

A model of the merge logic of `ff_merge/main.py`, the tool that joins
several ForeFlight KML flight logs into one KML document. The model covers:

- The ordering of the input documents by the start time of their tracks (`sort_and_select`).
- The folding of their `flightTitle` values into one route title (`combine_flight_titles`).
- The three merge strategies that rewrite the first document in place:
  - `google_earth_merge`: chains every donor's track placemark after the base's one.
  - `myflightbook_merge`: appends the donors' `when`/`gx:coord` pairs to the base `gx:Track`.
  - `merge_simplearraydata`: appends the donors' `gx:SimpleArrayData` values to the base series.
- `merge_ff_kmls`, which combines the title fold with one of the merges.
- The string helpers `ns_xpath` and `_fix_iso_dt`.

A KML document is a `Kml.Tree` object with three fields:

- the `Document/Placemark` list, where each placemark may hold the children of a `gx:Track`
- the `Document/ExtendedData/Data` name/value map
- the optional `SchemaData` element, a list of named series

The merges mutate the first tree in place. Each of them is a method whose
postcondition ties the outcome and the new state to a pure function of the
old state (`Google.GoogleMerge`, `Myflightbook.MfbMerge`,
`SimpleArrayData.MergedSchema`, `Merge.MergeDocs`). Lemmas about those
functions state what the merges promise. Each Python `assert`, and each
exception the code raises, becomes an `Error` value, carried either by a
`Result` or by the `Outcome` of a method, except the cases listed under
"Left out". Those are the failures on documents the model cannot represent,
and the ones the model excludes by a precondition or does not detect: series
names holding a quote or `/`, repeated series names, and negative or
out-of-range indices.

Element texts are strings. An element without text, which lxml reads as
`None` and never as `""`, is the empty string. This matters for titles: a
title without text after a non-empty one makes `combine_flight_titles` call
`None.split` and fail (`TitleWithoutText`).

Modules:

| module | contents |
|---|---|
| `Seqs` | small sequence identities |
| `PyStr` | `str.split`, `str.join`, `str.endswith`, `str.replace` |
| `Kml` | the data model and lookups, and `ns_xpath` |
| `Ordering` | `_fix_iso_dt`, start times, `sort_and_select` |
| `Titles` | `combine_flight_titles` |
| `Google` | `google_earth_merge` |
| `SimpleArrayData` | `merge_simplearraydata` |
| `Myflightbook` | `myflightbook_merge` |
| `Merge` | `MERGES` and `merge_ff_kmls` |

## Model

| member | source | states |
|---|---|---|
| Kml.Tree.AddNext | ff_merge/main.py:123 | `addnext` makes the moved placemark the next sibling of the one at the cursor; nothing else in the tree changes |
| Kml.Tree.AppendToTrack | ff_merge/main.py:174-175 | `append` on the base `gx:Track` adds one child at the end of that placemark's track; nothing else changes |
| Kml.Tree.AppendValue | ff_merge/main.py:149-150 | `append` of a `gx:value` adds one value at the end of one series; nothing else changes |
| Kml.Tree.SetData | ff_merge/main.py:198 | setting the `flightTitle` text replaces that one data value and nothing else |
| Kml.Tree.RemoveSchemaData | ff_merge/main.py:110-111 | `remove_el(find_schemadata(tree))` drops the `SchemaData`; without one the lookup yields `None` and the call fails |
| Kml.InsertAfter | ff_merge/main.py:123 | the placemarks with `extra` placed right after position `pos`: one placemark more per inserted one |
| Kml.FirstTrack | ff_merge/main.py:53-57 | the position of the first placemark with a `gx:Track`: nothing before it has one, and `None` exactly when no placemark has one |
| Kml.FindFirstTrackPlacemark | ff_merge/main.py:53-57 | the scan in document order returns exactly `FirstTrack` of the tree's placemarks |
| Kml.FirstTrackAppend | ff_merge/main.py:53-57 | placemarks added after the first track do not change which placemark is found |
| Kml.FirstTrackSameTracks | ff_merge/main.py:53-57 | lists with tracks at the same positions have the same first track, so appending to a track's children never moves it |
| Kml.Whens | ff_merge/main.py:66-67 | the texts of a track's `when` children, in order: at most one per child (the lemmas below state how it splits) |
| Kml.Coords | ff_merge/main.py:170-172 | the texts of a track's `gx:coord` children, in order: at most one per child |
| Kml.AllWhens | ff_merge/main.py:66-67 | `findall` of every `when` below a `gx:Track`, over all placemarks in document order; a definition whose properties are `Kml.AllWhensAppend` and `Kml.AllWhensUpdate` |
| Kml.AllCoords | ff_merge/main.py:170-172 | the same for every `gx:coord`; its properties are `Kml.AllCoordsAppend` and `Kml.AllWhensUpdate` |
| Kml.WhensAppend | ff_merge/main.py:67 | the `when` and `gx:coord` lists of a concatenation are the concatenations of the lists |
| Kml.AllWhensAppend | ff_merge/main.py:67 | `findall` of every `when` over two placemark lists is the concatenation of the two results |
| Kml.AllCoordsAppend | ff_merge/main.py:170-171 | the same for every `gx:coord` |
| Kml.AllWhensUpdate | ff_merge/main.py:67 | replacing one placemark changes the `when`/`gx:coord` lists only in that placemark's part |
| Kml.WhensOfPair | ff_merge/main.py:174-175 | an appended `when`, `gx:coord` pair adds one entry to each list |
| Kml.AddDefaultNs | ff_merge/main.py:24 | the lambda of `ns_xpath`: the result always holds a `:`, it is the segment itself exactly when the segment holds one, otherwise it is `prefix + ":" + segment` |
| Kml.NsXpath | ff_merge/main.py:22-25 | `ns_xpath`: split on `/`, `AddDefaultNs` on each piece, join with `/`; a definition whose properties are `Kml.NsXpathSegments` and `Kml.NsXpathIdempotent` |
| Kml.NsXpathSegments | ff_merge/main.py:22-25 | `ns_xpath` keeps the number of `/`-separated segments; segments with `:` are unchanged; every other segment becomes `prefix + ":" + segment` |
| Kml.NsXpathIdempotent | ff_merge/main.py:33-36 | applying `ns_xpath` again to its own output changes nothing, so the closure in `xpath` that rewrites its path on every call always queries the same path |
| PyStr.Split | ff_merge/main.py:23 | `str.split`: at least one piece, and the first piece is a prefix of the string; the lemmas below state how the pieces rebuild the string |
| PyStr.Join | ff_merge/main.py:25 | `str.join`: the result starts with the first part |
| PyStr.EndsWith | ff_merge/main.py:62 | `str.endswith`: the suffix is the end of the string (a definition) |
| PyStr.Replace | ff_merge/main.py:63 | `str.replace` for one character; a definition whose properties are `PyStr.ReplaceAppend`, `PyStr.ReplaceAbsent` and `PyStr.ReplaceRemoves` |
| PyStr.JoinSplit | ff_merge/main.py:23-25 | `sep.join(s.split(sep)) == s` |
| PyStr.SplitJoin | ff_merge/main.py:23-25 | splitting on a one-character separator the joined pieces, none holding it, gives the pieces back |
| PyStr.SplitPiecesWithout | ff_merge/main.py:23 | no piece of `split` contains the separator |
| PyStr.SplitNoOccurrence | ff_merge/main.py:102 | a string without the separator splits into itself alone |
| PyStr.SplitFirstPiece | ff_merge/main.py:102 | the first piece of `x + sep + y` is `x` when `x` cannot start the separator |
| PyStr.SplitWithout | ff_merge/main.py:23 | a string without the separator character splits into itself alone |
| PyStr.SplitAfter | ff_merge/main.py:23 | splitting `x + c + y` on `c` gives `x` followed by the pieces of `y` |
| PyStr.JoinReplacesFirstPiece | ff_merge/main.py:103-104 | joining `[head] + pieces[1:]` gives `head` followed by what follows the first piece of the split string |
| PyStr.ReplaceAppend | ff_merge/main.py:63 | `replace` of a concatenation is the concatenation of the replacements |
| PyStr.ReplaceAbsent | ff_merge/main.py:63 | `replace` leaves a string without the character unchanged |
| PyStr.ReplaceRemoves | ff_merge/main.py:63 | after `replace(c, repl)`, with `c` not in `repl`, no `c` is left |
| Ordering.FixIsoDt | ff_merge/main.py:60-63 | `_fix_iso_dt` succeeds exactly when the stamp ends with `Z`; the result has no `Z` and ends with `0+00:00` |
| Ordering.FixIsoDtSingleZ | ff_merge/main.py:60-63 | with exactly one `Z`, at the end, the result is the stamp without its last character followed by `0+00:00` |
| Ordering.StartKey | ff_merge/main.py:66-71 | `get_track_start_time`: a tree without any `when` fails with `NoTimestamp`; otherwise the read succeeds exactly when the first `when` ends with `Z` and the parser accepts the rewritten text, and the key is what the parser gives; a first `when` without the trailing `Z` fails with `TimestampNotUtc`, and one the parser rejects with `UnparsableTimestamp` |
| Ordering.StartKeys | ff_merge/main.py:203 | the keys `sorted` computes, one per tree when all succeed (`Ordering.StartKeysOk` and `Ordering.StartKeysErr` state the rest) |
| Ordering.StartKeysOk | ff_merge/main.py:70-71 | all start times are read exactly when each tree's first `when` can be read, rewritten and parsed; the keys are those of the trees position by position |
| Ordering.StartKeysErr | ff_merge/main.py:70-71 | a failed key read reports the error of the first tree whose start time cannot be read |
| Ordering.SortedMeaning | ff_merge/main.py:203 | the sort order is non-decreasing in the key, and equal keys keep their input order (Python's sort is stable) |
| Ordering.InsertSorted | ff_merge/main.py:203 | inserting a position into a sorted order keeps it sorted |
| Ordering.SortPositions | ff_merge/main.py:203 | the insertion sort behind `sorted`: a permutation of the positions it is given, all in range; `Ordering.SortPositionsSorted` proves it sorted and stable |
| Ordering.StableOrder | ff_merge/main.py:203 | the order `sorted` puts the trees in: a permutation of `0 .. n-1`, non-decreasing by key and stable on equal keys |
| Ordering.SortPositionsSorted | ff_merge/main.py:203 | the insertion sort of distinct positions is sorted by key and stable |
| Ordering.StableOrderCovers | ff_merge/main.py:203 | every input position appears in the sorted order |
| Ordering.PermuteInsert | ff_merge/main.py:203 | taking the trees at an extended order adds exactly the inserted tree |
| Ordering.PermuteSort | ff_merge/main.py:203 | sorting positions does not change the multiset of trees taken |
| Ordering.PermuteRange | ff_merge/main.py:203 | the identity order gives the trees back |
| Ordering.Select | ff_merge/main.py:204-205 | `[trees[i] for i in indices]`: one tree per index, the one at that index |
| Ordering.SortAndSelect | ff_merge/main.py:202-207 | `sort_and_select`: a successful result is non-empty, has one tree per tree (no indices) or per index, and holds only input trees |
| Ordering.SortAndSelectFailure | ff_merge/main.py:202-207 | an unreadable start time fails the whole call with that error; otherwise the call fails, with `EmptyInput`, exactly when there are no trees (every index must name a tree) |
| Ordering.SortAndSelectSorts | ff_merge/main.py:202-207 | without indices the result is a permutation of the input, non-decreasing by start time, and stable on ties |
| Ordering.SortAndSelectPicks | ff_merge/main.py:204-205 | with indices, `result[k] == sorted[indices[k]]` and the result has one tree per index |
| Ordering.StableOrderExample | ff_merge/main.py:202-207 | keys `[2, 1, 3]` sort to positions `[1, 0, 2]`; selecting `[2, 0]` then picks the third and the first sorted trees |
| Titles.CombineFlightTitles | ff_merge/main.py:96-107 | the loop over the titles computes the fold `FoldTitles`, including its failure on a title without text after a non-empty one |
| Titles.Step | ff_merge/main.py:99-106 | one step of the fold on a separator: an empty running title is replaced by the title; otherwise the running title is kept as a prefix of the result |
| Titles.FoldStep | ff_merge/main.py:98-106 | one step with `" - "`: it fails, with `TitleWithoutText`, exactly when a title without text follows a non-empty running title; a success keeps the running title as a prefix |
| Titles.FoldTitles | ff_merge/main.py:96-107 | the fold of all titles from `""`; a definition whose properties are `Titles.FoldTitlesMeaning`, `Titles.FoldTitlesSticky` and `Titles.EmptyTitlesIgnored` |
| Titles.FoldTitlesMeaning | ff_merge/main.py:96-107 | the fold fails, with `TitleWithoutText`, exactly when a title without text comes after a non-empty title; a successful fold is non-empty exactly when some title is |
| Titles.FoldTitlesSticky | ff_merge/main.py:97-102 | once a title makes the fold fail, no later title changes the outcome |
| Titles.StepKeepsNonEmpty | ff_merge/main.py:101-106 | a non-empty running title never becomes empty |
| Titles.StepOverlap | ff_merge/main.py:102-104 | when the accumulator ends with the title's first `" - "` piece, that piece is not repeated: the result is the accumulator without it, followed by the whole title |
| Titles.StepMeaning | ff_merge/main.py:99-105 | an empty accumulator is replaced by the title; otherwise it is the overlap join when it ends with the first piece, and plain concatenation when it does not |
| Titles.ContinueRoute | ff_merge/main.py:102-104 | `"... - KPAO"` followed by `"KPAO - KOAK"` gives `"... - KPAO - KOAK"` |
| Titles.RepeatedStopIgnored | ff_merge/main.py:102-104 | a title without `" - "` that already ends the accumulator leaves it unchanged |
| Titles.EmptyTitlesIgnored | ff_merge/main.py:99-100 | dropping the titles without text gives a fold that never fails, and a successful fold equals it: such titles can only come before the first real one, where each replaces the empty running title |
| Titles.RouteLegsFold | ff_merge/main.py:96-107 | for a route of at least two stops, none of which contains a space, folding the legs `"A - B"`, `"B - C"`, ... succeeds and gives the route `"A - B - C - ..."`; the condition is needed, since the stops `A`, `X - Y`, `Z` fold to `"A - X - YX - Y - Z"` |
| Titles.GlueExample | ff_merge/main.py:96-107 | no titles fold to `""`; `["A", "B"]` folds to `"AB"`, with no separator |
| Titles.TextlessTitleExample | ff_merge/main.py:99-102 | a title without text before `"KSJC - KPAO"` is skipped; after it the fold fails |
| Titles.JoinEndsWithLast | ff_merge/main.py:103 | a `" - "` join ends with its last piece |
| Titles.JoinSnoc | ff_merge/main.py:103 | a `" - "` join with one more piece adds the separator and that piece |
| Google.DonorTracks | ff_merge/main.py:119-122 | the track placemark of each donor, defined exactly when every donor has one |
| Google.ChainTracks | ff_merge/main.py:119-124 | the placemarks after the loop: a success has one placemark more per donor (`Google.ChainTracksShape` says where they go) |
| Google.GoogleMerge | ff_merge/main.py:114-127 | `google_earth_merge` on values: a success has no `SchemaData` and one placemark more per donor |
| Google.ChainTracksOk | ff_merge/main.py:119-124 | when every donor has a track and the base has one, the donors' track placemarks follow the base's first track, in order |
| Google.ChainTracksMissingDonor | ff_merge/main.py:121-122 | a donor without a track placemark fails the chaining with `MissingTrackPlacemark` |
| Google.InsertAfterSnoc | ff_merge/main.py:123-124 | one more `addnext` at the advanced cursor puts the next donor's placemark after the ones moved before it |
| Google.DonorTracksSnoc | ff_merge/main.py:120-124 | one more donor with a track adds its track placemark to those of the donors before it |
| Google.ChainNext | ff_merge/main.py:123-124 | `addnext` at the cursor, which sits on the last placemark chained so far, leaves the base's placemarks with the new one right after those chained before it; series and data are unchanged |
| Google.ChainTrackPlacemarks | ff_merge/main.py:118-124 | the cursor loop leaves exactly the placemarks `ChainTracks` describes, or fails with its error; series and data are unchanged |
| Google.GoogleEarthMerge | ff_merge/main.py:114-127 | `google_earth_merge` rewrites the base as `GoogleMerge` says: chained placemarks and no `SchemaData` |
| Google.GoogleMergeFails | ff_merge/main.py:114-127 | the merge fails exactly when a donor has no track, when there is a donor and the base has none, or when the base has no `SchemaData`; the base's missing track is reported only when the first donor has one |
| Google.InsertAfterShape | ff_merge/main.py:119-124 | inserting after the first track keeps that track, the placemarks before and after it, and the inserted ones in order |
| Google.ChainTracksShape | ff_merge/main.py:119-124 | after chaining, the base's first track is followed by each donor's track placemark in donor order, and the rest of the base keeps its order |
| Google.GoogleMergeShape | ff_merge/main.py:114-127 | a merged base has one placemark more per donor, the same first track, and no `SchemaData` |
| SimpleArrayData.SeriesIndex | ff_merge/main.py:136-141 | `find_sad`: the first series with that name, `None` exactly when there is none |
| SimpleArrayData.FindSad | ff_merge/main.py:136-141 | the lookup over a tree: no `SchemaData` gives `None`, otherwise `SeriesIndex` |
| SimpleArrayData.SeriesValues | ff_merge/main.py:136-141 | the values of the series named `name`: `None` exactly when there is no `SchemaData` or no such series, otherwise the values of the first series of that name (`SeriesIndex`) |
| SimpleArrayData.DonorValues | ff_merge/main.py:146-150 | the values all donors contribute to a series, in donor order; its properties are `SimpleArrayData.DonorValuesMeaning` and `SimpleArrayData.DonorValuesSnoc` |
| SimpleArrayData.MergeOne | ff_merge/main.py:145-157 | one base series after the merge: a success keeps the name, keeps the old values as a prefix and has exactly `rows` values; a failure is `MissingSeries` or `SeriesLengthMismatch` for that name |
| SimpleArrayData.MergeSeries | ff_merge/main.py:144-157 | all base series after the merge: a success has one series per base series (`SimpleArrayData.MergeSeriesMeaning` states the rest) |
| SimpleArrayData.MergedSchema | ff_merge/main.py:143-157 | the `SchemaData` after the merge: present exactly when it was present before |
| SimpleArrayData.MergeSeriesMeaning | ff_merge/main.py:144-157 | all series merge exactly when each one does; the merged series are the merged ones position by position; a failure carries the error of the first series that fails |
| SimpleArrayData.DonorValuesMeaning | ff_merge/main.py:146-148 | the donors' values of a series are missing exactly when some donor lacks that series |
| SimpleArrayData.DonorValuesSnoc | ff_merge/main.py:146-150 | one more donor adds its values after those of the donors before it |
| SimpleArrayData.MergeSeriesSnoc | ff_merge/main.py:144-157 | one more merged series extends the merged list by that series |
| SimpleArrayData.MergeSeriesFailsAt | ff_merge/main.py:144-157 | the first series that fails decides the error of the whole merge |
| SimpleArrayData.AppendValues | ff_merge/main.py:149-150 | the inner loop appends a donor's values, in order, to one series and changes nothing else |
| SimpleArrayData.AppendDonorValues | ff_merge/main.py:146-150 | the donor loop appends every donor's same-named values in donor order, or fails with `MissingSeries` when a donor lacks the series |
| SimpleArrayData.MergeSeriesAt | ff_merge/main.py:145-157 | one series is merged as `MergeOne` says, with its length check against the `when` count, or fails with its error |
| SimpleArrayData.MergeEachSeries | ff_merge/main.py:144-157 | the loop over the base series leaves exactly the series `MergeSeries` gives, or fails with its error |
| SimpleArrayData.MergeSimpleArrayData | ff_merge/main.py:130-159 | `merge_simplearraydata` counts the base's `when` elements before it appends anything, then leaves the schema `MergedSchema` gives; placemarks and data are unchanged |
| SimpleArrayData.MergedSchemaAligned | ff_merge/main.py:143-157 | after a successful merge each series keeps its name and position, holds its old values followed by every donor's same-named values, and has as many values as there are `when` elements |
| SimpleArrayData.MergedSchemaFails | ff_merge/main.py:143-157 | the merge fails exactly when some series is missing from a donor or ends up with a length other than the `when` count; without `SchemaData` nothing happens |
| Myflightbook.Zip | ff_merge/main.py:173-175 | the interleaving of equally long `when` and `coord` lists has two children per pair |
| Myflightbook.ZipPairs | ff_merge/main.py:173-175 | `zip` flattened: two children per pair, as many pairs as the shorter list |
| Myflightbook.ZipMeaning | ff_merge/main.py:173-175 | child `2k` is the `k`-th `when` and child `2k+1` the `k`-th `gx:coord` |
| Myflightbook.ZipUnzip | ff_merge/main.py:173-175 | the `when` and `gx:coord` lists of the interleaving are the two lists |
| Myflightbook.ZipPairsUnzip | ff_merge/main.py:173-175 | `zip` stops at the shorter list: the appended whens and coords are the first `min(|whens|, |coords|)` of each |
| Myflightbook.ZipSnoc | ff_merge/main.py:173-175 | one more pair of the `zip` loop appends one `when` and one `gx:coord` |
| Myflightbook.Points | ff_merge/main.py:169-175 | the children one donor contributes: two per pair |
| Myflightbook.DonorPoints | ff_merge/main.py:168-175 | the children all donors contribute, in donor order: `2 * TotalPairs` of them |
| Myflightbook.WithPoints | ff_merge/main.py:166-175 | the placemarks after the point loop: defined exactly when the base has a track; same length, and every placemark other than the first track's is unchanged |
| Myflightbook.MfbMerge | ff_merge/main.py:162-180 | `myflightbook_merge` on values: no base track fails with `MissingBaseTrack`; a success keeps the number of placemarks, and without series merging has no `SchemaData` |
| Myflightbook.AppendPoints | ff_merge/main.py:173-175 | the `zip` loop appends the interleaved pairs to the base track, in index order, and changes nothing else |
| Myflightbook.DonorPointsSnoc | ff_merge/main.py:168-175 | one more donor adds its pairs after those of the donors before it |
| Myflightbook.AppendDonorPoints | ff_merge/main.py:168-175 | the donor loop appends every donor's pairs, in donor order, to the base track |
| Myflightbook.DonorPointsContents | ff_merge/main.py:168-175 | the appended children hold `2 * TotalPairs` entries: every donor's first `min` whens and coords, in donor order |
| Myflightbook.MyflightbookMerge | ff_merge/main.py:162-180 | `myflightbook_merge` rewrites the base as `MfbMerge` says: points appended, then the series merged or the `SchemaData` removed |
| Myflightbook.AllWhensSnoc | ff_merge/main.py:169-171 | the `findall` lists of a prefix with one more placemark gain that placemark's entries |
| Myflightbook.WithPointsWhens | ff_merge/main.py:166-175 | after the append, the document's `when` list is the base's up to the track, then the donors' whens, then the rest; its length grows by `TotalPairs` |
| Myflightbook.WithPointsCoords | ff_merge/main.py:166-175 | the same for `gx:coord` |
| Myflightbook.MfbSadAligned | ff_merge/main.py:176-177 | with series merging, each merged series has as many values as the base had `when` elements plus all donor pairs |
| Myflightbook.MfbMergeFails | ff_merge/main.py:162-180 | the merge fails with `MissingBaseTrack` exactly when the base has no track; without series merging it fails otherwise only without `SchemaData`; on success only the first track placemark changes, keeping its name and gaining the donor pairs after its old children; `mfb` drops the `SchemaData` |
| Merge.DataMaps | ff_merge/main.py:74-94 | the `Data` pairs of each tree, position by position |
| Merge.MergeDocs | ff_merge/main.py:183-187 | `MERGES`: each kind's merge on values; a success never drops a placemark, and only `mfb-sad` keeps a `SchemaData` |
| Merge.FlightTitles | ff_merge/main.py:193-195 | the titles are read exactly when every tree has a `flightTitle`, and they are those values in tree order |
| Merge.RunMerge | ff_merge/main.py:183-187 | `MERGES[merge_type](trees)` rewrites the base as `MergeDocs` of that kind says and leaves its data alone |
| Merge.FirstUntitled | ff_merge/main.py:193-195 | the position of the first document without a `flightTitle`: every earlier one has it, and the count of documents when none lacks it |
| Merge.CombinedTitle | ff_merge/main.py:193-195 | the title computed before the merge; a definition whose property is `Merge.CombinedTitleMeaning` |
| Merge.CombinedTitleMeaning | ff_merge/main.py:193-195 | the title is computed exactly when every document has a `flightTitle` and their fold succeeds, and it is that fold |
| Merge.MergeFfKmls | ff_merge/main.py:190-199 | the titles are looked up lazily and folded before the merge; a missing title or a failing fold fails the call before anything changes; otherwise the base is rewritten as the chosen merge says, and after success its `flightTitle` is the folded title; a failed call never changes the `Data` values |
| Merge.MergeDocsNeedsBaseTrack | ff_merge/main.py:114-127 | with donors that all have a track, every kind of merge reports a base without a track as `MissingBaseTrack` |
| Merge.MergeDocsKeepsTrack | ff_merge/main.py:114-180 | a successful merge of any kind keeps the base's first track where it was and every base placemark in order: `google` adds one placemark per donor right after that track, and removing them gives the base list back; the `mfb` merges keep every placemark but the track one, which keeps its name and whose track only grows at its end |

## Left out

- Reading and writing files, lxml parsing and serialisation, and the XPath and `find` plumbing are not modelled. Documents are the `Kml.Tree` fields.
- `main`, argparse, and the output-file name derivation are not modelled; they are I/O and command-line handling.
- The `print` call inside `merge_simplearraydata` is not modelled; it is output only.
- `datetime.fromisoformat` is a library call. It is a parameter `parse: string -> Option<int>` of the ordering functions, and the start time is an integer key.
- Moving elements out of the donor trees (lxml's append semantics) is not modelled. The model copies the donors' elements and leaves the donors unchanged.
- Merge.MergeFfKmls: requires the trees to be distinct objects (`Kml.Distinct`). `sort_and_select` with a repeated index (`-i 0 0`, ff_merge/main.py:205) returns the same tree object twice, and `main` passes that list to `merge_ff_kmls` (ff_merge/main.py:222-223). `Ordering.SortAndSelect` allows such a list, so what lxml does when the base is also a donor is not modelled.
- Merge.RunMerge: requires distinct trees (`Kml.Distinct`), so a list with a repeated tree, as `sort_and_select` returns for a repeated index, is not covered.
- Google.GoogleEarthMerge: requires distinct trees (`Kml.Distinct`). With the base repeated as a donor, `addnext` would be asked to put the base's track placemark next to itself; what lxml does then is not modelled.
- Myflightbook.MyflightbookMerge: requires distinct trees (`Kml.Distinct`). With the base repeated as a donor, the loop would append elements of the base's own track to that track, which lxml does by moving them; this is not modelled.
- The state of the base tree after a failed merge is unspecified, except that its `Data` values are unchanged. The program aborts on these failures and writes nothing.
- Negative and out-of-range indices in `sort_and_select` are excluded by a precondition. Python would count negative indices from the end or raise `IndexError`.
- An unknown merge type (a `KeyError` on `MERGES`) cannot be expressed, because `Merge.MergeKind` has only the three keys.
- Each placemark holds at most one `gx:Track`, and each document at most one `SchemaData` element.
- `Data` and `SimpleArrayData` elements are looked up by their `name` attribute alone. The source compares the whole attribute dictionary, so an element with extra attributes would not match there.
- A `gx:value` without text is the empty string, as any text-less element is. Values are only moved, never read as strings, so this changes nothing there.
- Series names are used directly. The source builds an XPath from the name at ff_merge/main.py:153. A name holding a quote breaks that XPath. A name holding `/` does too, because `ns_xpath` splits the predicate there and prefixes its tail.
- A `gx:SimpleArrayData` element without a `name` attribute is not represented: `Kml.Series` always has a name. The source raises `KeyError` on it at ff_merge/main.py:145.
- A `flightTitle` `Data` element without a `value` child is not represented: a title is present or absent. The source raises `AttributeError` when it reads `.text` from such an element at ff_merge/main.py:87.
- SimpleArrayData.MergeSimpleArrayData: requires the base's series names to be distinct. With a repeated name, lxml would count the values of every series of that name in the length check.
- Myflightbook.MyflightbookMerge: requires distinct series names when series are merged, for the same reason.
- Merge.MergeFfKmls: requires distinct series names for the `mfb-sad` kind, for the same reason.
- Merge.RunMerge: requires distinct series names for the `mfb-sad` kind, for the same reason.
