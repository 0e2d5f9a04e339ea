/** `google_earth_merge`: the first placemark with a `gx:Track` of every
    later document is moved into the first document, each right after the
    one moved before it, so that Google Earth shows one placemark per leg;
    the `SchemaData` element of the first document is then removed. */
module Google {
  import opened Kml

  /** The placemark with a track of each donor, or `None` when one has none. */
  function DonorTracks(donors: seq<Doc>): (r: Option<seq<Placemark>>)
    ensures r.Some? <==> forall i :: 0 <= i < |donors| ==> FirstTrack(donors[i].placemarks).Some?
    ensures r.Some? ==> |r.value| == |donors|
    ensures r.Some? ==> forall i :: 0 <= i < |donors| ==>
              r.value[i] == donors[i].placemarks[FirstTrack(donors[i].placemarks).value]
  {
    if donors == [] then Some([])
    else
      var last := donors[|donors| - 1];
      match DonorTracks(donors[..|donors| - 1])
      case None => None
      case Some(tracks) =>
        match FirstTrack(last.placemarks)
        case None => None
        case Some(k) => Some(tracks + [last.placemarks[k]])
  }

  /** The placemarks after the loop of `google_earth_merge`.  The first
      donor is checked before the base's own track (the base track is only
      used once there is something to put after it), then the others. */
  function ChainTracks(pms: seq<Placemark>, donors: seq<Doc>): (r: Result<seq<Placemark>>)
    ensures r.Ok? ==> |r.value| == |pms| + |donors|
  {
    if donors == [] then Ok(pms)
    else if FirstTrack(donors[0].placemarks).None? then Err(MissingTrackPlacemark)
    else if FirstTrack(pms).None? then Err(MissingBaseTrack)
    else match DonorTracks(donors)
      case None => Err(MissingTrackPlacemark)
      case Some(tracks) => Ok(InsertAfter(pms, FirstTrack(pms).value, tracks))
  }

  /** What `google_earth_merge` does to the first document, given the
      documents after it: the chaining, then the `SchemaData` removal. */
  function GoogleMerge(base: Doc, donors: seq<Doc>): (r: Result<Doc>)
    ensures r.Ok? ==> r.value.schema == None && |r.value.placemarks| == |base.placemarks| + |donors|
  {
    match ChainTracks(base.placemarks, donors)
    case Err(e) => Err(e)
    case Ok(pms) => if base.schema.None? then Err(MissingSchemaData) else Ok(Doc(pms, None))
  }

  lemma InsertAfterEmpty(pms: seq<Placemark>, c: nat)
    requires c < |pms|
    ensures InsertAfter(pms, c, []) == pms
  {
  }

  /** The chaining once every donor has a track and the base has one when needed. */
  lemma ChainTracksOk(pms: seq<Placemark>, donors: seq<Doc>, tracks: seq<Placemark>)
    requires DonorTracks(donors) == Some(tracks)
    requires donors != [] ==> FirstTrack(pms).Some?
    ensures ChainTracks(pms, donors) ==
      if donors == [] then Ok(pms) else Ok(InsertAfter(pms, FirstTrack(pms).value, tracks))
  {
    if donors != [] {
      assert DonorTracks(donors).value == tracks;
    }
  }

  /** A donor without a track stops the chaining, unless the first donor
      has one and the base does not. */
  lemma ChainTracksMissingDonor(pms: seq<Placemark>, donors: seq<Doc>, k: nat)
    requires k < |donors| && FirstTrack(donors[k].placemarks).None?
    requires DonorTracks(donors[..k]).Some?
    requires k > 0 ==> FirstTrack(pms).Some?
    ensures ChainTracks(pms, donors) == Err(MissingTrackPlacemark)
  {
    if k > 0 {
      assert donors[..k][0] == donors[0];
    }
  }

  lemma InsertAfterSnoc(pms: seq<Placemark>, c: nat, extra: seq<Placemark>, pm: Placemark)
    requires c < |pms|
    ensures InsertAfter(pms, c, extra + [pm]) == InsertAfter(InsertAfter(pms, c, extra), c + |extra|, [pm])
  {
    var before := InsertAfter(pms, c, extra);
    assert before[..c + 1 + |extra|] == pms[..c + 1] + extra;
    assert before[c + 1 + |extra|..] == pms[c + 1..];
  }

  /** One more donor with a track adds its track placemark. */
  lemma DonorTracksSnoc(donors: seq<Doc>, k: nat, tracks: seq<Placemark>, j: nat)
    requires k < |donors| && DonorTracks(donors[..k]) == Some(tracks)
    requires FirstTrack(donors[k].placemarks) == Some(j)
    ensures |tracks| == k
    ensures DonorTracks(donors[..k + 1]) == Some(tracks + [donors[k].placemarks[j]])
  {
    assert donors[..k + 1][..k] == donors[..k];
  }

  /** `cursor.addnext(pm)` in the loop of `google_earth_merge`, with the
      cursor on the last placemark chained so far: `pm` goes right after
      the ones chained before it. */
  method ChainNext(base: Tree, cursor: nat, pm: Placemark,
                   ghost pms: seq<Placemark>, ghost c: nat, ghost tracks: seq<Placemark>)
    requires c < |pms| && cursor == c + |tracks| && base.placemarks == InsertAfter(pms, c, tracks)
    modifies base
    ensures base.placemarks == InsertAfter(pms, c, tracks + [pm])
    ensures base.schema == old(base.schema) && base.data == old(base.data)
  {
    InsertAfterSnoc(pms, c, tracks, pm);
    base.AddNext(cursor, pm);
  }

  /** The loop of `google_earth_merge`: each donor's first track placemark
      is moved in after the one moved before it, starting at the base's
      first track placemark. */
  method ChainTrackPlacemarks(base: Tree, others: seq<Tree>) returns (r: Outcome)
    requires base !in others
    modifies base
    ensures Applied(ChainTracks(old(base.placemarks), old(Docs(others))), r, base.placemarks)
    ensures base.schema == old(base.schema) && base.data == old(base.data)
  {
    ghost var pms := base.placemarks;
    ghost var donors := Docs(others);
    var cursor := FindFirstTrackPlacemark(base);
    ghost var first := cursor;
    ghost var tracks: seq<Placemark> := [];
    if first.Some? {
      InsertAfterEmpty(pms, first.value);
    }
    var k := 0;
    while k < |others|
      invariant 0 <= k <= |others|
      invariant DonorTracks(donors[..k]) == Some(tracks)
      invariant first.None? ==> k == 0 && cursor.None? && base.placemarks == pms
      invariant first.Some? ==> cursor.Some? && cursor.value == first.value + k
      invariant first.Some? ==> base.placemarks == InsertAfter(pms, first.value, tracks)
      invariant base.schema == old(base.schema) && base.data == old(base.data)
      invariant forall i :: 0 <= i < |others| ==> others[i].placemarks == donors[i].placemarks
    {
      var next := FindFirstTrackPlacemark(others[k]);
      if next.None? {
        ChainTracksMissingDonor(pms, donors, k);
        return Fail(MissingTrackPlacemark);
      }
      if cursor.None? {
        assert k == 0 && FirstTrack(donors[0].placemarks).Some? && FirstTrack(pms).None?;
        assert ChainTracks(pms, donors) == Err(MissingBaseTrack);
        return Fail(MissingBaseTrack);
      }
      assert first.Some?;
      var pm := others[k].placemarks[next.value];
      DonorTracksSnoc(donors, k, tracks, next.value);
      ChainNext(base, cursor.value, pm, pms, first.value, tracks);
      cursor := Some(cursor.value + 1);
      tracks := tracks + [pm];
      k := k + 1;
    }
    assert donors[..k] == donors;
    ChainTracksOk(pms, donors, tracks);
    return Pass;
  }

  /** `google_earth_merge(trees)`: `trees[0]` is the base, mutated in place. */
  method GoogleEarthMerge(trees: seq<Tree>) returns (r: Outcome)
    requires |trees| > 0 && Distinct(trees)
    modifies trees[0]
    ensures Applied(GoogleMerge(old(DocOf(trees[0])), old(Docs(trees[1..]))), r, DocOf(trees[0]))
    ensures trees[0].data == old(trees[0].data)
  {
    var base, others := trees[0], trees[1..];
    assert base !in others by {
      forall k | 0 <= k < |others| ensures others[k] != base {
        assert others[k] == trees[k + 1];
      }
    }
    r := ChainTrackPlacemarks(base, others);
    if r.Fail? {
      return;
    }
    r := base.RemoveSchemaData();
  }

  /** The merge fails exactly when a donor has no track, when there is a
      donor and the base has no track, or when the base has no `SchemaData`. */
  lemma GoogleMergeFails(base: Doc, donors: seq<Doc>)
    ensures GoogleMerge(base, donors).Err? <==>
      || (exists i :: 0 <= i < |donors| && FirstTrack(donors[i].placemarks).None?)
      || (donors != [] && FirstTrack(base.placemarks).None?)
      || base.schema.None?
    ensures GoogleMerge(base, donors) == Err(MissingBaseTrack) <==>
      donors != [] && FirstTrack(donors[0].placemarks).Some? && FirstTrack(base.placemarks).None?
  {
  }

  /** Inserting after the first track keeps the list around it and that
      first track. */
  lemma InsertAfterShape(pms: seq<Placemark>, c: nat, extra: seq<Placemark>)
    requires FirstTrack(pms) == Some(c)
    ensures var out := InsertAfter(pms, c, extra);
      && |out| == |pms| + |extra|
      && FirstTrack(out) == Some(c)
      && out[..c + 1] == pms[..c + 1]
      && out[c + 1 + |extra|..] == pms[c + 1..]
      && forall i :: 0 <= i < |extra| ==> out[c + 1 + i] == extra[i]
  {
    var head, tail := pms[..c + 1], pms[c + 1..];
    assert InsertAfter(pms, c, extra) == head + (extra + tail);
    assert pms == head + tail;
    assert FirstTrack(head) == Some(c) by {
      assert head[c] == pms[c];
      forall i | 0 <= i < c ensures head[i].track.None? {
        assert head[i] == pms[i];
      }
    }
    FirstTrackAppend(head, extra + tail);
  }

  /** After successful chaining the base keeps its placemarks in order and
      its first track, and right after that track come the donors' track
      placemarks, in donor order. */
  lemma ChainTracksShape(pms: seq<Placemark>, donors: seq<Doc>)
    requires ChainTracks(pms, donors).Ok?
    ensures var out := ChainTracks(pms, donors).value;
      && |out| == |pms| + |donors|
      && FirstTrack(out) == FirstTrack(pms)
      && (donors != [] ==>
            var c := FirstTrack(pms).value;
            && out[..c + 1] == pms[..c + 1]
            && out[c + 1 + |donors|..] == pms[c + 1..]
            && forall i :: 0 <= i < |donors| ==>
                 out[c + 1 + i] == donors[i].placemarks[FirstTrack(donors[i].placemarks).value])
  {
    if donors != [] {
      var c := FirstTrack(pms).value;
      var tracks := DonorTracks(donors).value;
      var out := InsertAfter(pms, c, tracks);
      assert ChainTracks(pms, donors).value == out;
      InsertAfterShape(pms, c, tracks);
      forall i | 0 <= i < |donors|
        ensures out[c + 1 + i] == donors[i].placemarks[FirstTrack(donors[i].placemarks).value]
      {
        assert out[c + 1 + i] == tracks[i];
      }
    }
  }

  /** After a successful merge the base has the chained placemarks and no
      `SchemaData`; the merged list has one placemark more per donor and the
      same first track. */
  lemma GoogleMergeShape(base: Doc, donors: seq<Doc>)
    requires GoogleMerge(base, donors).Ok?
    ensures ChainTracks(base.placemarks, donors).Ok?
    ensures var merged := GoogleMerge(base, donors).value;
      && merged == Doc(ChainTracks(base.placemarks, donors).value, None)
      && |merged.placemarks| == |base.placemarks| + |donors|
      && FirstTrack(merged.placemarks) == FirstTrack(base.placemarks)
  {
    ChainTracksShape(base.placemarks, donors);
  }
}
