/** `myflightbook_merge`: the `when`/`gx:coord` points of every later
    document are appended, pair by pair, to the first `gx:Track` of the
    first document, so that MyFlightbook sees one long track.  The
    `SchemaData` series are then either merged as well (`mfb-sad`) or the
    `SchemaData` element is removed (`mfb`). */
module Myflightbook {
  import opened Kml
  import opened SimpleArrayData

  function Min(a: nat, b: nat): nat {
    if a <= b then a else b
  }

  /** `zip(whens, coords)` flattened, for lists of one length: a `when`
      then a `gx:coord` for each position. */
  function Zip(ws: seq<string>, cs: seq<string>): (r: seq<TrackChild>)
    requires |ws| == |cs|
    ensures |r| == 2 * |ws|
  {
    if ws == [] then []
    else Zip(ws[..|ws| - 1], cs[..|cs| - 1]) + [When(ws[|ws| - 1]), Coord(cs[|cs| - 1])]
  }

  /** `zip` stops at the end of the shorter list. */
  function ZipPairs(ws: seq<string>, cs: seq<string>): (r: seq<TrackChild>)
    ensures |r| == 2 * Min(|ws|, |cs|)
  {
    var m := Min(|ws|, |cs|);
    Zip(ws[..m], cs[..m])
  }

  /** The pairs are the `when` and the `gx:coord` of the same position, in order. */
  lemma {:induction false} ZipMeaning(ws: seq<string>, cs: seq<string>)
    requires |ws| == |cs|
    ensures var r := Zip(ws, cs);
      forall k :: 0 <= k < |ws| ==> r[2 * k] == When(ws[k]) && r[2 * k + 1] == Coord(cs[k])
    decreases |ws|
  {
    var n := |ws|;
    if n > 0 {
      var ws', cs' := ws[..n - 1], cs[..n - 1];
      ZipMeaning(ws', cs');
      var init := Zip(ws', cs');
      var r := Zip(ws, cs);
      assert r == init + [When(ws[n - 1]), Coord(cs[n - 1])];
      forall k | 0 <= k < n ensures r[2 * k] == When(ws[k]) && r[2 * k + 1] == Coord(cs[k]) {
        if k < n - 1 {
          assert r[2 * k] == init[2 * k] && r[2 * k + 1] == init[2 * k + 1];
          assert ws'[k] == ws[k] && cs'[k] == cs[k];
        }
      }
    }
  }

  /** Read back, the pairs give the `when`s and the `gx:coord`s in their order. */
  lemma {:induction false} ZipUnzip(ws: seq<string>, cs: seq<string>)
    requires |ws| == |cs|
    ensures Whens(Zip(ws, cs)) == ws && Coords(Zip(ws, cs)) == cs
    decreases |ws|
  {
    var n := |ws|;
    if n > 0 {
      var ws', cs' := ws[..n - 1], cs[..n - 1];
      ZipUnzip(ws', cs');
      WhensAppend(Zip(ws', cs'), [When(ws[n - 1]), Coord(cs[n - 1])]);
      WhensOfPair(ws[n - 1], cs[n - 1]);
      assert ws == ws' + [ws[n - 1]];
      assert cs == cs' + [cs[n - 1]];
    }
  }

  /** With lists of different lengths, the extra entries of the longer one
      are dropped. */
  lemma ZipPairsUnzip(ws: seq<string>, cs: seq<string>)
    ensures var m := Min(|ws|, |cs|);
      Whens(ZipPairs(ws, cs)) == ws[..m] && Coords(ZipPairs(ws, cs)) == cs[..m]
  {
    var m := Min(|ws|, |cs|);
    ZipUnzip(ws[..m], cs[..m]);
  }

  /** The number of points a document contributes. */
  function PairCount(d: Doc): nat {
    Min(|AllWhens(d.placemarks)|, |AllCoords(d.placemarks)|)
  }

  /** The points of one donor, as appended to the base track. */
  function Points(d: Doc): (r: seq<TrackChild>)
    ensures |r| == 2 * PairCount(d)
  {
    ZipPairs(AllWhens(d.placemarks), AllCoords(d.placemarks))
  }

  /** The points of every donor, in donor order. */
  function DonorPoints(donors: seq<Doc>): (r: seq<TrackChild>)
    ensures |r| == 2 * TotalPairs(donors)
  {
    if donors == [] then []
    else DonorPoints(donors[..|donors| - 1]) + Points(donors[|donors| - 1])
  }

  /** The number of points all donors contribute. */
  function TotalPairs(donors: seq<Doc>): nat
  {
    if donors == [] then 0
    else TotalPairs(donors[..|donors| - 1]) + PairCount(donors[|donors| - 1])
  }

  /** The `when` texts every donor contributes, in donor order: the first
      `PairCount` of each. */
  function DonorWhens(donors: seq<Doc>): seq<string>
  {
    if donors == [] then []
    else
      var d := donors[|donors| - 1];
      DonorWhens(donors[..|donors| - 1]) + AllWhens(d.placemarks)[..PairCount(d)]
  }

  /** The `gx:coord` texts every donor contributes, in donor order. */
  function DonorCoords(donors: seq<Doc>): seq<string>
  {
    if donors == [] then []
    else
      var d := donors[|donors| - 1];
      DonorCoords(donors[..|donors| - 1]) + AllCoords(d.placemarks)[..PairCount(d)]
  }

  /** The donors' points hold their paired `when`s and `gx:coord`s, two
      children per pair. */
  lemma {:induction false} DonorPointsContents(donors: seq<Doc>)
    ensures Whens(DonorPoints(donors)) == DonorWhens(donors)
    ensures Coords(DonorPoints(donors)) == DonorCoords(donors)
    ensures |DonorPoints(donors)| == 2 * TotalPairs(donors)
    ensures |DonorWhens(donors)| == |DonorCoords(donors)| == TotalPairs(donors)
    decreases |donors|
  {
    if donors != [] {
      var init, d := donors[..|donors| - 1], donors[|donors| - 1];
      DonorPointsContents(init);
      WhensAppend(DonorPoints(init), Points(d));
      ZipPairsUnzip(AllWhens(d.placemarks), AllCoords(d.placemarks));
    }
  }

  /** The placemarks after the point loop, when the base has a track. */
  function WithPoints(pms: seq<Placemark>, donors: seq<Doc>): (r: Option<seq<Placemark>>)
    ensures r.Some? <==> FirstTrack(pms).Some?
    ensures r.Some? ==> |r.value| == |pms|
    ensures r.Some? ==> forall i :: 0 <= i < |pms| && i != FirstTrack(pms).value ==> r.value[i] == pms[i]
  {
    match FirstTrack(pms)
    case None => None
    case Some(c) => Some(pms[c := WithChildren(pms[c], DonorPoints(donors))])
  }

  /** What `myflightbook_merge(merge_sad, trees)` does to the first
      document, given the documents after it.  The series are checked
      against the number of `when`s after the points were appended. */
  function MfbMerge(mergeSad: bool, base: Doc, donors: seq<Doc>): (r: Result<Doc>)
    ensures r.Ok? ==> |r.value.placemarks| == |base.placemarks|
    ensures FirstTrack(base.placemarks).None? ==> r == Err(MissingBaseTrack)
    ensures r.Ok? && !mergeSad ==> r.value.schema == None
  {
    match WithPoints(base.placemarks, donors)
    case None => Err(MissingBaseTrack)
    case Some(pms) =>
      if mergeSad then
        match MergedSchema(base.schema, donors, |AllWhens(pms)|)
        case Err(e) => Err(e)
        case Ok(schema) => Ok(Doc(pms, schema))
      else if base.schema.None? then Err(MissingSchemaData)
      else Ok(Doc(pms, None))
  }

  lemma WithChildrenTwice(pms: seq<Placemark>, c: nat, a: seq<TrackChild>, b: seq<TrackChild>)
    requires c < |pms| && pms[c].track.Some?
    ensures var p1 := pms[c := WithChildren(pms[c], a)];
      p1[c := WithChildren(p1[c], b)] == pms[c := WithChildren(pms[c], a + b)]
  {
    assert pms[c].track.value + a + b == pms[c].track.value + (a + b);
  }

  lemma ZipSnoc(ws: seq<string>, cs: seq<string>, i: nat)
    requires i < |ws| && i < |cs|
    ensures Zip(ws[..i + 1], cs[..i + 1]) == Zip(ws[..i], cs[..i]) + [When(ws[i]), Coord(cs[i])]
  {
    assert ws[..i + 1][..i] == ws[..i];
    assert cs[..i + 1][..i] == cs[..i];
  }

  /** `for when, coord in zip(whens, coords): append(when); append(coord)`
      on the track of the placemark at `c`. */
  method AppendPoints(base: Tree, c: nat, ws: seq<string>, cs: seq<string>)
    requires c < |base.placemarks| && base.placemarks[c].track.Some?
    modifies base
    ensures base.placemarks == old(base.placemarks[c := WithChildren(base.placemarks[c], ZipPairs(ws, cs))])
    ensures base.schema == old(base.schema) && base.data == old(base.data)
  {
    ghost var pms := base.placemarks;
    var i := 0;
    assert ws[..0] == [] && cs[..0] == [];
    assert pms[c := WithChildren(pms[c], [])] == pms by {
      assert pms[c].track.value + [] == pms[c].track.value;
    }
    while i < |ws| && i < |cs|
      invariant 0 <= i <= Min(|ws|, |cs|)
      invariant base.placemarks == pms[c := WithChildren(pms[c], Zip(ws[..i], cs[..i]))]
      invariant base.schema == old(base.schema) && base.data == old(base.data)
    {
      ghost var got := Zip(ws[..i], cs[..i]);
      base.AppendToTrack(c, When(ws[i]));
      WithChildrenTwice(pms, c, got, [When(ws[i])]);
      base.AppendToTrack(c, Coord(cs[i]));
      WithChildrenTwice(pms, c, got + [When(ws[i])], [Coord(cs[i])]);
      ZipSnoc(ws, cs, i);
      assert got + [When(ws[i])] + [Coord(cs[i])] == got + [When(ws[i]), Coord(cs[i])];
      i := i + 1;
    }
  }

  lemma DonorPointsSnoc(donors: seq<Doc>, k: nat)
    requires k < |donors|
    ensures DonorPoints(donors[..k + 1]) == DonorPoints(donors[..k]) + Points(donors[k])
  {
    assert donors[..k + 1][..k] == donors[..k];
  }

  /** The loop of `myflightbook_merge` over the later documents: their
      points go, donor by donor, to the end of the track at `c`. */
  method AppendDonorPoints(base: Tree, c: nat, others: seq<Tree>)
    requires base !in others && c < |base.placemarks| && base.placemarks[c].track.Some?
    modifies base
    ensures base.placemarks == old(base.placemarks[c := WithChildren(base.placemarks[c], DonorPoints(Docs(others)))])
    ensures base.schema == old(base.schema) && base.data == old(base.data)
  {
    ghost var pms := base.placemarks;
    ghost var ds := Docs(others);
    ghost var got: seq<TrackChild> := [];
    var k := 0;
    assert ds[..0] == [];
    assert pms[c := WithChildren(pms[c], [])] == pms by {
      assert pms[c].track.value + [] == pms[c].track.value;
    }
    while k < |others|
      invariant 0 <= k <= |others|
      invariant DonorPoints(ds[..k]) == got
      invariant base.placemarks == pms[c := WithChildren(pms[c], got)]
      invariant base.schema == old(base.schema) && base.data == old(base.data)
    {
      assert others[k].placemarks == old(others[k].placemarks) == ds[k].placemarks;
      var ws := AllWhens(others[k].placemarks);
      var cs := AllCoords(others[k].placemarks);
      AppendPoints(base, c, ws, cs);
      WithChildrenTwice(pms, c, got, Points(ds[k]));
      DonorPointsSnoc(ds, k);
      got := got + Points(ds[k]);
      k := k + 1;
    }
    assert ds[..k] == ds;
  }

  /** `myflightbook_merge(merge_sad, trees)`: `trees[0]` is the base,
      mutated in place. */
  method MyflightbookMerge(mergeSad: bool, trees: seq<Tree>) returns (r: Outcome)
    requires |trees| > 0 && Distinct(trees)
    requires mergeSad ==> UniqueNames(trees[0].schema)
    modifies trees[0]
    ensures Applied(MfbMerge(mergeSad, old(DocOf(trees[0])), old(Docs(trees[1..]))), r, DocOf(trees[0]))
    ensures trees[0].data == old(trees[0].data)
  {
    var base, others := trees[0], trees[1..];
    assert base !in others by {
      forall k | 0 <= k < |others| ensures others[k] != base {
        assert others[k] == trees[k + 1];
      }
    }
    ghost var doc, ds := DocOf(base), Docs(others);
    var c := FindFirstTrackPlacemark(base);
    if c.None? {
      return Fail(MissingBaseTrack);
    }
    AppendDonorPoints(base, c.value, others);
    assert Docs(others) == ds;
    assert WithPoints(doc.placemarks, ds) == Some(base.placemarks);
    if mergeSad {
      r := MergeSimpleArrayData(base, others);
    } else {
      r := base.RemoveSchemaData();
    }
  }

  lemma Regroup<T>(a: seq<T>, b: seq<T>, c: seq<T>, d: seq<T>)
    ensures a + (b + c) + d == (a + b) + c + d
  {
  }

  lemma AllWhensSnoc(pms: seq<Placemark>, c: nat)
    requires c < |pms|
    ensures AllWhens(pms[..c + 1]) == AllWhens(pms[..c]) + TrackWhens(pms[c])
    ensures AllCoords(pms[..c + 1]) == AllCoords(pms[..c]) + TrackCoords(pms[c])
  {
    assert pms[..c + 1][..c] == pms[..c];
  }

  /** The merged track holds the base's `when`s up to the end of its first
      track, then every donor's paired `when`s in donor order, then the
      base's remaining `when`s.  It grows by one `when` per pair. */
  lemma WithPointsWhens(pms: seq<Placemark>, donors: seq<Doc>)
    requires FirstTrack(pms).Some?
    ensures var c, out := FirstTrack(pms).value, WithPoints(pms, donors).value;
      && AllWhens(out) == AllWhens(pms[..c + 1]) + DonorWhens(donors) + AllWhens(pms[c + 1..])
      && |AllWhens(out)| == |AllWhens(pms)| + TotalPairs(donors)
  {
    var c := FirstTrack(pms).value;
    var points := DonorPoints(donors);
    var pm := WithChildren(pms[c], points);
    AllWhensUpdate(pms, c, pm);
    DonorPointsContents(donors);
    WhensAppend(pms[c].track.value, points);
    AllWhensSnoc(pms, c);
    var before, t, rest := AllWhens(pms[..c]), TrackWhens(pms[c]), AllWhens(pms[c + 1..]);
    assert WithPoints(pms, donors).value == pms[c := pm];
    assert TrackWhens(pm) == t + DonorWhens(donors);
    Regroup(before, t, DonorWhens(donors), rest);
  }

  /** The same for the `gx:coord`s. */
  lemma WithPointsCoords(pms: seq<Placemark>, donors: seq<Doc>)
    requires FirstTrack(pms).Some?
    ensures var c, out := FirstTrack(pms).value, WithPoints(pms, donors).value;
      && AllCoords(out) == AllCoords(pms[..c + 1]) + DonorCoords(donors) + AllCoords(pms[c + 1..])
      && |AllCoords(out)| == |AllCoords(pms)| + TotalPairs(donors)
  {
    var c := FirstTrack(pms).value;
    var points := DonorPoints(donors);
    var pm := WithChildren(pms[c], points);
    AllWhensUpdate(pms, c, pm);
    DonorPointsContents(donors);
    WhensAppend(pms[c].track.value, points);
    AllWhensSnoc(pms, c);
    var before, t, rest := AllCoords(pms[..c]), TrackCoords(pms[c]), AllCoords(pms[c + 1..]);
    assert WithPoints(pms, donors).value == pms[c := pm];
    assert TrackCoords(pm) == t + DonorCoords(donors);
    Regroup(before, t, DonorCoords(donors), rest);
  }

  /** `mfb-sad` on success: every series holds one value per `when` of the
      merged track, that is per `when` of the base plus one per donor pair. */
  lemma MfbSadAligned(base: Doc, donors: seq<Doc>)
    requires MfbMerge(true, base, donors).Ok? && base.schema.Some?
    ensures var merged := MfbMerge(true, base, donors).value;
      && merged.schema.Some? && |merged.schema.value| == |base.schema.value|
      && forall j :: 0 <= j < |merged.schema.value| ==>
           |merged.schema.value[j].values| == |AllWhens(base.placemarks)| + TotalPairs(donors)
  {
    var pms := WithPoints(base.placemarks, donors).value;
    WithPointsWhens(base.placemarks, donors);
    MergedSchemaAligned(base.schema, donors, |AllWhens(pms)|);
  }

  /** The merge fails exactly when the base has no track, or, for `mfb`,
      when it has no `SchemaData`, or, for `mfb-sad`, when the series merge
      fails; on success the base keeps its placemarks but the one track,
      and `mfb` drops the `SchemaData`. */
  lemma MfbMergeFails(mergeSad: bool, base: Doc, donors: seq<Doc>)
    ensures MfbMerge(mergeSad, base, donors) == Err(MissingBaseTrack) <==>
      FirstTrack(base.placemarks).None?
    ensures FirstTrack(base.placemarks).Some? && !mergeSad ==>
      (MfbMerge(mergeSad, base, donors).Err? <==> base.schema.None?)
    ensures MfbMerge(mergeSad, base, donors).Ok? ==>
      var c, out := FirstTrack(base.placemarks).value, MfbMerge(mergeSad, base, donors).value.placemarks;
      && |out| == |base.placemarks|
      && (forall i :: 0 <= i < |out| && i != c ==> out[i] == base.placemarks[i])
      && out[c].name == base.placemarks[c].name
      && out[c].track == Some(base.placemarks[c].track.value + DonorPoints(donors))
    ensures !mergeSad && MfbMerge(mergeSad, base, donors).Ok? ==>
      MfbMerge(mergeSad, base, donors).value.schema == None
  {
    if FirstTrack(base.placemarks).Some? && mergeSad {
      var pms := WithPoints(base.placemarks, donors).value;
      var m := MergedSchema(base.schema, donors, |AllWhens(pms)|);
      if m.Err? {
        assert m.error != MissingBaseTrack by {
          if base.schema.Some? {
            MergeSeriesMeaning(base.schema.value, donors, |AllWhens(pms)|);
          }
        }
      }
    }
  }
}
