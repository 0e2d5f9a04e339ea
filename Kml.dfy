/** The parts of a ForeFlight KML document that the merge reads and writes,
    the lookups it performs on them, and the namespace prefixing of XPath
    expressions.  The XML tree itself is abstracted to three fields: the
    `Document/Placemark` list, the `Document/ExtendedData/Data` name/value
    pairs and the optional `Document/ExtendedData/SchemaData` element with
    its `gx:SimpleArrayData` series. */
module Kml {
  import opened PyStr
  import opened Seqs

  datatype Option<T> = None | Some(value: T)

  /** Why a run aborts: each constructor stands for one `assert` or one
      exception the Python code raises. */
  datatype Error =
    | EmptyInput                    // no tree left after sorting and selection
    | NoTimestamp                   // no `when` element to read a start time from
    | TimestampNotUtc               // a start time that does not end with `Z`; a first `when`
                                    // without text is "" here and lands in this case too, where
                                    // the source raises `AttributeError` on `None.endswith`
                                    // (ff_merge/main.py:62); both abort the run
    | UnparsableTimestamp           // `datetime.fromisoformat` rejects the rewritten time
    | MissingTrackPlacemark         // a donor without a placemark holding a `gx:Track`
    | MissingBaseTrack              // the base tree has no `gx:Track` to merge into
    | MissingSeries(name: string)   // a donor lacks a series the base has
    | SeriesLengthMismatch(name: string)  // a merged series is not as long as the `when` list
    | MissingSchemaData             // removing a `SchemaData` element that is not there
    | MissingFlightTitle            // a tree without a `flightTitle` data value
    | TitleWithoutText              // a text-less title after a non-empty one: `None.split` raises

  datatype Result<T> = Ok(value: T) | Err(error: Error)

  datatype Outcome = Pass | Fail(error: Error)

  /** A run that changed something in place ended as `m` says: it passed
      and left `v`, or it failed with the same error. */
  predicate Applied<T(==)>(m: Result<T>, r: Outcome, v: T) {
    match m
    case Ok(w) => r == Pass && v == w
    case Err(e) => r == Fail(e)
  }

  /** A child of a `gx:Track`: a `when` timestamp, a `gx:coord` position, or
      anything else (`altitudeMode`, `ExtendedData`, ...), kept by tag. */
  datatype TrackChild = When(stamp: string) | Coord(position: string) | OtherChild(tag: string)

  /** A `Placemark`, with the children of its `gx:Track` when it has one. */
  datatype Placemark = Placemark(name: string, track: Option<seq<TrackChild>>)

  /** A `gx:SimpleArrayData` element: its `name` attribute and `gx:value` texts. */
  datatype Series = Series(name: string, values: seq<string>)

  /** The key of the `Data` element that holds the flight's title. */
  const FlightTitleKey := "flightTitle"

  /** `pms` with `extra` inserted right after position `pos`. */
  function InsertAfter(pms: seq<Placemark>, pos: nat, extra: seq<Placemark>): (r: seq<Placemark>)
    requires pos < |pms|
    ensures |r| == |pms| + |extra|
  {
    pms[..pos + 1] + extra + pms[pos + 1..]
  }

  /** One parsed KML document. */
  class Tree {
    var placemarks: seq<Placemark>
    var data: map<string, string>
    var schema: Option<seq<Series>>

    /** `addnext` on the placemark at `pos`: `pm` becomes its next sibling. */
    method AddNext(pos: nat, pm: Placemark)
      requires pos < |placemarks|
      modifies this
      ensures placemarks == InsertAfter(old(placemarks), pos, [pm])
      ensures data == old(data) && schema == old(schema)
    {
      placemarks := placemarks[..pos + 1] + [pm] + placemarks[pos + 1..];
    }

    /** `append` on the `gx:Track` of the placemark at `pos`. */
    method AppendToTrack(pos: nat, child: TrackChild)
      requires pos < |placemarks| && placemarks[pos].track.Some?
      modifies this
      ensures placemarks == old(placemarks[pos := WithChildren(placemarks[pos], [child])])
      ensures data == old(data) && schema == old(schema)
    {
      placemarks := placemarks[pos := WithChildren(placemarks[pos], [child])];
    }

    /** `append` of one `gx:value` element on the series at position `j`. */
    method AppendValue(j: nat, v: string)
      requires schema.Some? && j < |schema.value|
      modifies this
      ensures schema == old(Some(schema.value[j := Series(schema.value[j].name, schema.value[j].values + [v])]))
      ensures placemarks == old(placemarks) && data == old(data)
    {
      var s := schema.value[j];
      schema := Some(schema.value[j := Series(s.name, s.values + [v])]);
    }

    /** Setting the text of the `value` child of the `Data` element `key`. */
    method SetData(key: string, value: string)
      modifies this
      ensures data == old(data)[key := value]
      ensures placemarks == old(placemarks) && schema == old(schema)
    {
      data := data[key := value];
    }

    /** `remove_el(find_schemadata(tree))`: without a `SchemaData` element the
        lookup yields `None` and asking it for its parent raises. */
    method RemoveSchemaData() returns (r: Outcome)
      modifies this
      ensures r == if old(schema).Some? then Pass else Fail(MissingSchemaData)
      ensures schema == None
      ensures placemarks == old(placemarks) && data == old(data)
    {
      if schema.None? {
        return Fail(MissingSchemaData);
      }
      schema := None;
      r := Pass;
    }
  }

  /** What a merge reads and rewrites in a document: its placemarks and its
      series.  The `Data` values are handled by `merge_ff_kmls` alone. */
  datatype Doc = Doc(placemarks: seq<Placemark>, schema: Option<seq<Series>>)

  function DocOf(t: Tree): (d: Doc)
    reads t
    ensures d.placemarks == t.placemarks && d.schema == t.schema
  {
    Doc(t.placemarks, t.schema)
  }

  function Docs(ts: seq<Tree>): (ds: seq<Doc>)
    reads ts
    ensures |ds| == |ts| && forall i :: 0 <= i < |ts| ==> ds[i] == DocOf(ts[i])
  {
    if ts == [] then [] else [DocOf(ts[0])] + Docs(ts[1..])
  }

  /** No tree is given twice.  lxml moves the elements it appends, so a tree
      merged into itself, or twice, behaves differently; the model leaves
      that aliasing out. */
  predicate Distinct(ts: seq<Tree>) {
    forall i, j :: 0 <= i < j < |ts| ==> ts[i] != ts[j]
  }

  /** The placemark with `extra` appended to the children of its track. */
  function WithChildren(pm: Placemark, extra: seq<TrackChild>): Placemark
    requires pm.track.Some?
  {
    Placemark(pm.name, Some(pm.track.value + extra))
  }

  /** The position of the first placemark that has a `gx:Track`. */
  function FirstTrack(pms: seq<Placemark>): (r: Option<nat>)
    ensures r.None? <==> forall i :: 0 <= i < |pms| ==> pms[i].track.None?
    ensures r.Some? ==> r.value < |pms| && pms[r.value].track.Some?
    ensures r.Some? ==> forall i :: 0 <= i < r.value ==> pms[i].track.None?
  {
    if pms == [] then None
    else if pms[0].track.Some? then Some(0)
    else match FirstTrack(pms[1..])
      case None => None
      case Some(k) => Some(k + 1)
  }

  /** Lists whose placemarks have tracks at the same positions have their
      first track at the same position. */
  lemma FirstTrackSameTracks(a: seq<Placemark>, b: seq<Placemark>)
    requires |a| == |b| && forall i :: 0 <= i < |a| ==> a[i].track.Some? == b[i].track.Some?
    ensures FirstTrack(a) == FirstTrack(b)
  {
    var x, y := FirstTrack(a), FirstTrack(b);
    if x.Some? {
      assert b[x.value].track.Some?;
      assert y.Some?;
      assert a[y.value].track.Some?;
    } else {
      assert forall i :: 0 <= i < |b| ==> b[i].track.None?;
    }
  }

  /** Placemarks added after the first track do not change which one it is. */
  lemma FirstTrackAppend(a: seq<Placemark>, b: seq<Placemark>)
    requires FirstTrack(a).Some?
    ensures FirstTrack(a + b) == FirstTrack(a)
  {
    var k := FirstTrack(a).value;
    assert (a + b)[k] == a[k];
    forall i | 0 <= i < k ensures (a + b)[i].track.None? {
      assert (a + b)[i] == a[i];
    }
  }

  /** `find_first_track_placemark`: scan the placemarks in document order and
      return the first with a `gx:Track`, or `None`. */
  method FindFirstTrackPlacemark(tree: Tree) returns (r: Option<nat>)
    ensures r == FirstTrack(tree.placemarks)
  {
    var i := 0;
    while i < |tree.placemarks|
      invariant 0 <= i <= |tree.placemarks|
      invariant forall j :: 0 <= j < i ==> tree.placemarks[j].track.None?
    {
      if tree.placemarks[i].track.Some? {
        return Some(i);
      }
      i := i + 1;
    }
    return None;
  }

  /** The texts of the `when` children, in order. */
  function Whens(children: seq<TrackChild>): (r: seq<string>)
    ensures |r| <= |children|
  {
    if children == [] then []
    else
      var last := children[|children| - 1];
      Whens(children[..|children| - 1]) + (if last.When? then [last.stamp] else [])
  }

  /** The texts of the `gx:coord` children, in order. */
  function Coords(children: seq<TrackChild>): (r: seq<string>)
    ensures |r| <= |children|
  {
    if children == [] then []
    else
      var last := children[|children| - 1];
      Coords(children[..|children| - 1]) + (if last.Coord? then [last.position] else [])
  }

  function TrackWhens(pm: Placemark): seq<string> {
    match pm.track
    case None => []
    case Some(children) => Whens(children)
  }

  function TrackCoords(pm: Placemark): seq<string> {
    match pm.track
    case None => []
    case Some(children) => Coords(children)
  }

  /** A `when` followed by a `gx:coord`. */
  lemma WhensOfPair(w: string, c: string)
    ensures Whens([When(w), Coord(c)]) == [w] && Coords([When(w), Coord(c)]) == [c]
  {
    var pair := [When(w), Coord(c)];
    assert pair[..|pair| - 1] == [When(w)] && pair[|pair| - 1] == Coord(c);
    assert [When(w)][..0] == [];
    assert Whens([When(w)]) == [w] && Coords([When(w)]) == [];
  }

  /** `findall("Document/Placemark/gx:Track/when")`: every `when` of every
      track, in document order. */
  function AllWhens(pms: seq<Placemark>): seq<string>
  {
    if pms == [] then [] else AllWhens(pms[..|pms| - 1]) + TrackWhens(pms[|pms| - 1])
  }

  /** `findall("Document/Placemark/gx:Track/gx:coord")` */
  function AllCoords(pms: seq<Placemark>): seq<string>
  {
    if pms == [] then [] else AllCoords(pms[..|pms| - 1]) + TrackCoords(pms[|pms| - 1])
  }

  lemma {:induction false} WhensAppend(a: seq<TrackChild>, b: seq<TrackChild>)
    ensures Whens(a + b) == Whens(a) + Whens(b)
    ensures Coords(a + b) == Coords(a) + Coords(b)
    decreases |b|
  {
    if b == [] {
      assert a + b == a;
    } else {
      var b', last := b[..|b| - 1], b[|b| - 1];
      AppendInit(a, b);
      WhensAppend(a, b');
      Assoc(Whens(a), Whens(b'), if last.When? then [last.stamp] else []);
      Assoc(Coords(a), Coords(b'), if last.Coord? then [last.position] else []);
    }
  }

  lemma {:induction false} AllWhensAppend(a: seq<Placemark>, b: seq<Placemark>)
    ensures AllWhens(a + b) == AllWhens(a) + AllWhens(b)
    decreases |b|
  {
    if b == [] {
      assert a + b == a;
    } else {
      var b', last := b[..|b| - 1], b[|b| - 1];
      AppendInit(a, b);
      AllWhensAppend(a, b');
      Assoc(AllWhens(a), AllWhens(b'), TrackWhens(last));
    }
  }

  lemma {:induction false} AllCoordsAppend(a: seq<Placemark>, b: seq<Placemark>)
    ensures AllCoords(a + b) == AllCoords(a) + AllCoords(b)
    decreases |b|
  {
    if b == [] {
      assert a + b == a;
    } else {
      var b', last := b[..|b| - 1], b[|b| - 1];
      AppendInit(a, b);
      AllCoordsAppend(a, b');
      Assoc(AllCoords(a), AllCoords(b'), TrackCoords(last));
    }
  }

  /** One placemark between two lists contributes its own track's entries. */
  lemma AllWhensAround(pre: seq<Placemark>, pm: Placemark, post: seq<Placemark>)
    ensures AllWhens(pre + [pm] + post) == AllWhens(pre) + TrackWhens(pm) + AllWhens(post)
    ensures AllCoords(pre + [pm] + post) == AllCoords(pre) + TrackCoords(pm) + AllCoords(post)
  {
    AllWhensAppend(pre + [pm], post);
    AllWhensAppend(pre, [pm]);
    AllCoordsAppend(pre + [pm], post);
    AllCoordsAppend(pre, [pm]);
    assert [pm][..0] == [];
  }

  /** The `findall` results over a list with one placemark replaced change
      only by that placemark's contribution. */
  lemma AllWhensUpdate(pms: seq<Placemark>, c: nat, pm: Placemark)
    requires c < |pms|
    ensures AllWhens(pms[c := pm]) == AllWhens(pms[..c]) + TrackWhens(pm) + AllWhens(pms[c + 1..])
    ensures AllWhens(pms) == AllWhens(pms[..c]) + TrackWhens(pms[c]) + AllWhens(pms[c + 1..])
    ensures AllCoords(pms[c := pm]) == AllCoords(pms[..c]) + TrackCoords(pm) + AllCoords(pms[c + 1..])
    ensures AllCoords(pms) == AllCoords(pms[..c]) + TrackCoords(pms[c]) + AllCoords(pms[c + 1..])
  {
    UpdateSplit(pms, c, pm);
    AllWhensAround(pms[..c], pm, pms[c + 1..]);
    AllWhensAround(pms[..c], pms[c], pms[c + 1..]);
  }

  /** `ns_xpath`'s lambda: a segment without a namespace prefix gets `prefix`. */
  function AddDefaultNs(segment: string, prefix: string): (r: string)
    ensures ':' in r
    ensures r == segment <==> ':' in segment
    ensures ':' !in segment ==> r == prefix + ":" + segment
    ensures |segment| <= |r| && r[|r| - |segment|..] == segment
  {
    if ':' in segment then segment else prefix + ":" + segment
  }

  /** `ns_xpath(path, prefix)`: split on `/`, prefix every segment that has
      no `:`, join with `/`. */
  function NsXpath(path: string, prefix: string): string
  {
    var segments := Split(path, "/");
    Join("/", seq(|segments|, i requires 0 <= i < |segments| => AddDefaultNs(segments[i], prefix)))
  }

  /** `ns_xpath` keeps the number of `/`-separated segments, leaves the
      segments that contain `:` as they are and prefixes every other one. */
  lemma NsXpathSegments(path: string, prefix: string)
    requires '/' !in prefix
    ensures var before, after := Split(path, "/"), Split(NsXpath(path, prefix), "/");
      && |after| == |before|
      && (forall i :: 0 <= i < |before| && ':' in before[i] ==> after[i] == before[i])
      && (forall i :: 0 <= i < |before| && ':' !in before[i] ==> after[i] == prefix + ":" + before[i])
  {
    var segments := Split(path, "/");
    var mapped := seq(|segments|, i requires 0 <= i < |segments| => AddDefaultNs(segments[i], prefix));
    SplitPiecesWithout(path, '/');
    forall i | 0 <= i < |mapped| ensures '/' !in mapped[i] {
      assert '/' !in segments[i];
      if ':' !in segments[i] {
        assert mapped[i] == prefix + ":" + segments[i];
      }
    }
    SplitJoin(mapped, '/');
  }

  /** Applying `ns_xpath` to its own output changes nothing: every segment
      already carries a prefix.  The closure built by `xpath` rebinds its
      path to `ns_xpath(path)` on every call, so this is what makes repeated
      calls harmless. */
  lemma NsXpathIdempotent(path: string, prefix: string)
    requires '/' !in prefix
    ensures NsXpath(NsXpath(path, prefix), prefix) == NsXpath(path, prefix)
  {
    var once := NsXpath(path, prefix);
    var before, after := Split(path, "/"), Split(once, "/");
    NsXpathSegments(path, prefix);
    var again := seq(|after|, i requires 0 <= i < |after| => AddDefaultNs(after[i], prefix));
    forall i | 0 <= i < |after| ensures again[i] == after[i] {
      assert ':' in after[i] by {
        if ':' !in before[i] {
          assert after[i] == prefix + ":" + before[i];
          assert after[i][|prefix|] == ':';
        }
      }
    }
    assert again == after;
    JoinSplit(once, "/");
  }
}
