/** `merge_ff_kmls`: the titles of all documents are folded into one, the
    chosen merge rewrites the first document, and the folded title becomes
    the `flightTitle` of the result. */
module Merge {
  import opened Kml
  import opened Titles
  import opened SimpleArrayData
  import opened Google
  import opened Myflightbook
  import opened Seqs

  /** The keys of `MERGES`: "google", "mfb" and "mfb-sad". */
  datatype MergeKind = GoogleEarth | Mfb | MfbSad

  /** What the merge of each kind does to the first document. */
  function MergeDocs(kind: MergeKind, base: Doc, donors: seq<Doc>): (r: Result<Doc>)
    ensures r.Ok? ==> |r.value.placemarks| >= |base.placemarks|
    ensures r.Ok? && kind != MfbSad ==> r.value.schema == None
  {
    match kind
    case GoogleEarth => GoogleMerge(base, donors)
    case Mfb => MfbMerge(false, base, donors)
    case MfbSad => MfbMerge(true, base, donors)
  }

  /** The `Data` name/value pairs of each document. */
  function DataMaps(ts: seq<Tree>): (ms: seq<map<string, string>>)
    reads ts
    ensures |ms| == |ts| && forall i :: 0 <= i < |ts| ==> ms[i] == ts[i].data
  {
    if ts == [] then [] else [ts[0].data] + DataMaps(ts[1..])
  }

  /** `map(extract "value", map(find_flight_title, trees))`: the flight
      title of every document, or `None` when one has none (the lookup
      yields `None` and reading its child raises). */
  function FlightTitles(ms: seq<map<string, string>>): (r: Option<seq<string>>)
    ensures r.Some? <==> forall i :: 0 <= i < |ms| ==> FlightTitleKey in ms[i]
    ensures r.Some? ==> |r.value| == |ms| && forall i :: 0 <= i < |ms| ==> r.value[i] == ms[i][FlightTitleKey]
  {
    if ms == [] then Some([])
    else
      var last := ms[|ms| - 1];
      match FlightTitles(ms[..|ms| - 1])
      case None => None
      case Some(titles) =>
        if FlightTitleKey in last then Some(titles + [last[FlightTitleKey]]) else None
  }

  /** `MERGES[merge_type](trees)` */
  method RunMerge(trees: seq<Tree>, kind: MergeKind) returns (r: Outcome)
    requires |trees| > 0 && Distinct(trees)
    requires kind == MfbSad ==> UniqueNames(trees[0].schema)
    modifies trees[0]
    ensures Applied(MergeDocs(kind, old(DocOf(trees[0])), old(Docs(trees[1..]))), r, DocOf(trees[0]))
    ensures trees[0].data == old(trees[0].data)
  {
    match kind
    case GoogleEarth => r := GoogleEarthMerge(trees);
    case Mfb => r := MyflightbookMerge(false, trees);
    case MfbSad => r := MyflightbookMerge(true, trees);
  }

  /** The position of the first document without a `flightTitle`, or the
      number of documents when all have one. */
  function FirstUntitled(ms: seq<map<string, string>>): (k: nat)
    ensures k <= |ms|
    ensures forall i :: 0 <= i < k ==> FlightTitleKey in ms[i]
    ensures k < |ms| ==> FlightTitleKey !in ms[k]
  {
    if ms == [] || FlightTitleKey !in ms[0] then 0 else 1 + FirstUntitled(ms[1..])
  }

  /** The title `merge_ff_kmls` computes before merging.  The titles are
      looked up lazily (`map` is an iterator), so the fold runs over the
      titles before the first document without one and fails there first
      when it can; reaching that document then fails the lookup. */
  function CombinedTitle(ms: seq<map<string, string>>): Result<string>
  {
    var k := FirstUntitled(ms);
    assert forall i :: 0 <= i < k ==> FlightTitleKey in ms[..k][i];
    match FoldTitles(FlightTitles(ms[..k]).value)
    case Err(e) => Err(e)
    case Ok(title) => if k < |ms| then Err(MissingFlightTitle) else Ok(title)
  }

  /** The title is computed exactly when every document has a title and
      their fold succeeds, and it is then that fold. */
  lemma CombinedTitleMeaning(ms: seq<map<string, string>>)
    ensures CombinedTitle(ms).Ok? <==> FlightTitles(ms).Some? && FoldTitles(FlightTitles(ms).value).Ok?
    ensures FlightTitles(ms).Some? ==> CombinedTitle(ms) == FoldTitles(FlightTitles(ms).value)
  {
    var k := FirstUntitled(ms);
    if k == |ms| {
      assert ms[..k] == ms;
    }
  }

  /** `merge_ff_kmls(trees, merge_type)`: the title is folded before the
      merge touches anything, and a failure there leaves every document as
      it was; after a successful merge the first document carries the
      folded title. */
  method MergeFfKmls(trees: seq<Tree>, kind: MergeKind) returns (r: Outcome)
    requires |trees| > 0 && Distinct(trees)
    requires kind == MfbSad ==> UniqueNames(trees[0].schema)
    modifies trees[0]
    ensures var title := CombinedTitle(old(DataMaps(trees)));
      && (title.Err? ==> r == Fail(title.error) && DocOf(trees[0]) == old(DocOf(trees[0])))
      && (title.Ok? ==> Applied(MergeDocs(kind, old(DocOf(trees[0])), old(Docs(trees[1..]))), r, DocOf(trees[0])))
      && (title.Ok? && r.Pass? ==> trees[0].data == old(trees[0].data)[FlightTitleKey := title.value])
    ensures r.Fail? ==> trees[0].data == old(trees[0].data)
  {
    var ms := DataMaps(trees);
    var k := FirstUntitled(ms);
    assert forall i :: 0 <= i < k ==> FlightTitleKey in ms[..k][i];
    var folded := CombineFlightTitles(FlightTitles(ms[..k]).value);
    assert CombinedTitle(ms) ==
      if folded.Err? then Err(folded.error) else if k < |ms| then Err(MissingFlightTitle) else Ok(folded.value);
    if folded.Err? {
      return Fail(folded.error);
    }
    if k < |ms| {
      return Fail(MissingFlightTitle);
    }
    ghost var m := MergeDocs(kind, DocOf(trees[0]), Docs(trees[1..]));
    r := RunMerge(trees, kind);
    assert Applied(m, r, DocOf(trees[0]));
    if r.Fail? {
      return;
    }
    ghost var merged := DocOf(trees[0]);
    trees[0].SetData(FlightTitleKey, folded.value);
    assert DocOf(trees[0]) == merged;
  }

  /** Every kind of merge needs the base to have a track once there is a
      donor, and each reports a base without one as such. */
  lemma MergeDocsNeedsBaseTrack(kind: MergeKind, base: Doc, donors: seq<Doc>)
    requires |donors| > 0 && FirstTrack(base.placemarks).None?
    requires forall i :: 0 <= i < |donors| ==> FirstTrack(donors[i].placemarks).Some?
    ensures MergeDocs(kind, base, donors) == Err(MissingBaseTrack)
  {
    if kind == GoogleEarth {
      GoogleMergeFails(base, donors);
    }
  }

  /** A successful merge of any kind keeps every placemark of the base in
      order and its first track in place: `google` only inserts one
      placemark per donor right after that track, and the `mfb` merges
      change only that placemark, whose track grows at its end. */
  lemma MergeDocsKeepsTrack(kind: MergeKind, base: Doc, donors: seq<Doc>)
    requires MergeDocs(kind, base, donors).Ok?
    ensures kind != GoogleEarth || donors != [] ==> FirstTrack(base.placemarks).Some?
    ensures FirstTrack(MergeDocs(kind, base, donors).value.placemarks) == FirstTrack(base.placemarks)
    ensures kind == GoogleEarth ==>
      var merged := MergeDocs(kind, base, donors).value.placemarks;
      && |merged| == |base.placemarks| + |donors|
      && (donors == [] ==> merged == base.placemarks)
      && (donors != [] ==>
            var c := FirstTrack(base.placemarks).value;
            merged[..c + 1] + merged[c + 1 + |donors|..] == base.placemarks)
    ensures kind != GoogleEarth ==>
      var merged, c := MergeDocs(kind, base, donors).value.placemarks, FirstTrack(base.placemarks).value;
      && |merged| == |base.placemarks|
      && (forall i :: 0 <= i < |merged| && i != c ==> merged[i] == base.placemarks[i])
      && merged[c].name == base.placemarks[c].name
      && merged[c].track.Some? && base.placemarks[c].track.value <= merged[c].track.value
  {
    if kind == GoogleEarth {
      GoogleMergeShape(base, donors);
      ChainTracksShape(base.placemarks, donors);
      if donors != [] {
        var c := FirstTrack(base.placemarks).value;
        PrefixRest(base.placemarks[..c + 1], base.placemarks);
      }
    } else {
      var out := MergeDocs(kind, base, donors).value.placemarks;
      MfbMergeFails(kind == MfbSad, base, donors);
      FirstTrackSameTracks(base.placemarks, out);
    }
  }
}
