/** `merge_simplearraydata`: each `gx:SimpleArrayData` series of the base
    document gets the values of the series of the same name in every donor,
    in donor order, and must then hold exactly one value per `when` of the
    base document. */
module SimpleArrayData {
  import opened Kml

  /** Series names are unique in the document's `SchemaData`. */
  predicate UniqueNames(schema: Option<seq<Series>>) {
    schema.Some? ==>
      forall i, j :: 0 <= i < j < |schema.value| ==> schema.value[i].name != schema.value[j].name
  }

  /** The position of the first series named `name`. */
  function SeriesIndex(ss: seq<Series>, name: string): (r: Option<nat>)
    ensures r.None? <==> forall k :: 0 <= k < |ss| ==> ss[k].name != name
    ensures r.Some? ==> r.value < |ss| && ss[r.value].name == name
    ensures r.Some? ==> forall k :: 0 <= k < r.value ==> ss[k].name != name
  {
    if ss == [] then None
    else if ss[0].name == name then Some(0)
    else match SeriesIndex(ss[1..], name)
      case None => None
      case Some(k) => Some(k + 1)
  }

  /** `find_sad(tree, name)`: scan the series of the document in order and
      return the first with that name; a document without `SchemaData` has
      no series. */
  method FindSad(tree: Tree, name: string) returns (r: Option<nat>)
    ensures r == if tree.schema.None? then None else SeriesIndex(tree.schema.value, name)
  {
    if tree.schema.None? {
      return None;
    }
    var ss := tree.schema.value;
    var k := 0;
    while k < |ss|
      invariant 0 <= k <= |ss|
      invariant forall i :: 0 <= i < k ==> ss[i].name != name
    {
      if ss[k].name == name {
        return Some(k);
      }
      k := k + 1;
    }
    return None;
  }

  /** The values of the document's series named `name`, if it has one. */
  function SeriesValues(schema: Option<seq<Series>>, name: string): (r: Option<seq<string>>)
    ensures r.None? <==> schema.None? || forall k :: 0 <= k < |schema.value| ==> schema.value[k].name != name
    ensures r.Some? ==> SeriesIndex(schema.value, name).Some? &&
                        r.value == schema.value[SeriesIndex(schema.value, name).value].values
  {
    if schema.None? then None
    else match SeriesIndex(schema.value, name)
      case None => None
      case Some(k) => Some(schema.value[k].values)
  }

  /** The values every donor contributes to the series `name`, in donor
      order, or `None` when some donor lacks the series. */
  function DonorValues(donors: seq<Doc>, name: string): Option<seq<string>>
  {
    if donors == [] then Some([])
    else
      match DonorValues(donors[..|donors| - 1], name)
      case None => None
      case Some(vs) =>
        match SeriesValues(donors[|donors| - 1].schema, name)
        case None => None
        case Some(ws) => Some(vs + ws)
  }

  /** One base series after the merge: the donors' values appended, then
      the check against the number of rows. */
  function MergeOne(s: Series, donors: seq<Doc>, rows: nat): (r: Result<Series>)
    ensures r.Ok? ==> r.value.name == s.name && s.values <= r.value.values && |r.value.values| == rows
    ensures r.Err? ==> r.error == MissingSeries(s.name) || r.error == SeriesLengthMismatch(s.name)
  {
    match DonorValues(donors, s.name)
    case None => Err(MissingSeries(s.name))
    case Some(vs) =>
      if |s.values| + |vs| == rows then Ok(Series(s.name, s.values + vs))
      else Err(SeriesLengthMismatch(s.name))
  }

  /** All base series, in order; the first failure ends the merge. */
  function MergeSeries(ss: seq<Series>, donors: seq<Doc>, rows: nat): (r: Result<seq<Series>>)
    ensures r.Ok? ==> |r.value| == |ss|
  {
    if ss == [] then Ok([])
    else
      var init := ss[..|ss| - 1];
      match MergeSeries(init, donors, rows)
      case Err(e) => Err(e)
      case Ok(done) =>
        match MergeOne(ss[|ss| - 1], donors, rows)
        case Err(e) => Err(e)
        case Ok(s) => Ok(done + [s])
  }

  /** The `SchemaData` after `merge_simplearraydata`; without one there is
      nothing to merge. */
  function MergedSchema(schema: Option<seq<Series>>, donors: seq<Doc>, rows: nat): (r: Result<Option<seq<Series>>>)
    ensures r.Ok? ==> (r.value.None? <==> schema.None?)
  {
    match schema
    case None => Ok(None)
    case Some(ss) =>
      match MergeSeries(ss, donors, rows)
      case Err(e) => Err(e)
      case Ok(merged) => Ok(Some(merged))
  }

  /** The merge of all series passes exactly when every series passes, and
      then holds each merged series in place; otherwise it fails with the
      error of the first series that fails. */
  lemma {:induction false} MergeSeriesMeaning(ss: seq<Series>, donors: seq<Doc>, rows: nat)
    ensures var r := MergeSeries(ss, donors, rows);
      && (r.Ok? <==> forall j :: 0 <= j < |ss| ==> MergeOne(ss[j], donors, rows).Ok?)
      && (r.Ok? ==> (|r.value| == |ss| &&
            forall j :: 0 <= j < |ss| ==> r.value[j] == MergeOne(ss[j], donors, rows).value))
      && (r.Err? ==> exists j :: (0 <= j < |ss| && MergeOne(ss[j], donors, rows) == Err(r.error) &&
            forall i :: 0 <= i < j ==> MergeOne(ss[i], donors, rows).Ok?))
    decreases |ss|
  {
    if ss != [] {
      var init, last := ss[..|ss| - 1], ss[|ss| - 1];
      MergeSeriesMeaning(init, donors, rows);
      assert forall j :: 0 <= j < |init| ==> init[j] == ss[j];
      var r, done, one := MergeSeries(ss, donors, rows), MergeSeries(init, donors, rows), MergeOne(last, donors, rows);
      if done.Err? {
        assert r == done;
        var j :| 0 <= j < |init| && MergeOne(init[j], donors, rows) == Err(done.error) &&
          forall i :: 0 <= i < j ==> MergeOne(init[i], donors, rows).Ok?;
        assert MergeOne(ss[j], donors, rows) == Err(r.error);
      } else if one.Err? {
        assert r == Err(one.error);
        assert MergeOne(ss[|ss| - 1], donors, rows) == Err(r.error);
      } else {
        assert r == Ok(done.value + [one.value]);
      }
    }
  }

  /** The donors' values are missing exactly when one donor lacks the series. */
  lemma {:induction false} DonorValuesMeaning(donors: seq<Doc>, name: string)
    ensures DonorValues(donors, name).None? <==>
      exists i :: 0 <= i < |donors| && SeriesValues(donors[i].schema, name).None?
    decreases |donors|
  {
    if donors != [] {
      var init := donors[..|donors| - 1];
      DonorValuesMeaning(init, name);
      assert forall i :: 0 <= i < |init| ==> init[i] == donors[i];
    }
  }

  lemma DonorValuesSnoc(donors: seq<Doc>, n: nat, name: string, k: nat)
    requires n < |donors| && DonorValues(donors[..n], name).Some?
    requires donors[n].schema.Some? && SeriesIndex(donors[n].schema.value, name) == Some(k)
    ensures DonorValues(donors[..n + 1], name) ==
      Some(DonorValues(donors[..n], name).value + donors[n].schema.value[k].values)
  {
    assert donors[..n + 1][..n] == donors[..n];
  }

  lemma MergeSeriesSnoc(ss: seq<Series>, j: nat, donors: seq<Doc>, rows: nat)
    requires j < |ss| && MergeSeries(ss[..j], donors, rows).Ok? && MergeOne(ss[j], donors, rows).Ok?
    ensures MergeSeries(ss[..j + 1], donors, rows) ==
      Ok(MergeSeries(ss[..j], donors, rows).value + [MergeOne(ss[j], donors, rows).value])
  {
    assert ss[..j + 1][..j] == ss[..j];
  }

  /** A failing series ends the merge with its error when all before it passed. */
  lemma MergeSeriesFailsAt(ss: seq<Series>, j: nat, donors: seq<Doc>, rows: nat)
    requires j < |ss| && MergeSeries(ss[..j], donors, rows).Ok? && MergeOne(ss[j], donors, rows).Err?
    ensures MergeSeries(ss, donors, rows) == Err(MergeOne(ss[j], donors, rows).error)
  {
    MergeSeriesMeaning(ss[..j], donors, rows);
    MergeSeriesMeaning(ss, donors, rows);
    assert forall i :: 0 <= i < j ==> ss[..j][i] == ss[i];
    var e := MergeSeries(ss, donors, rows);
    var j' :| 0 <= j' < |ss| && MergeOne(ss[j'], donors, rows) == Err(e.error) &&
      forall i :: 0 <= i < j' ==> MergeOne(ss[i], donors, rows).Ok?;
    assert j' == j;
  }

  /** `for val_el in sad.findall("gx:value"): base_sad.append(val_el)` */
  method AppendValues(base: Tree, j: nat, vs: seq<string>)
    requires base.schema.Some? && j < |base.schema.value|
    modifies base
    ensures base.schema == old(Some(base.schema.value[j := Series(base.schema.value[j].name, base.schema.value[j].values + vs)]))
    ensures base.placemarks == old(base.placemarks) && base.data == old(base.data)
  {
    ghost var ss := base.schema.value;
    var i := 0;
    assert ss[j := Series(ss[j].name, ss[j].values + vs[..0])] == ss by {
      assert ss[j].values + vs[..0] == ss[j].values;
    }
    while i < |vs|
      invariant 0 <= i <= |vs|
      invariant base.schema == Some(ss[j := Series(ss[j].name, ss[j].values + vs[..i])])
      invariant base.placemarks == old(base.placemarks) && base.data == old(base.data)
    {
      ghost var before := Series(ss[j].name, ss[j].values + vs[..i]);
      base.AppendValue(j, vs[i]);
      assert vs[..i + 1] == vs[..i] + [vs[i]];
      assert before.values + [vs[i]] == ss[j].values + vs[..i + 1];
      assert ss[j := before][j := Series(before.name, before.values + [vs[i]])] ==
        ss[j := Series(ss[j].name, ss[j].values + vs[..i + 1])];
      i := i + 1;
    }
    assert vs[..i] == vs;
  }

  /** Appending `b` to the series just set to `pre + got` sets it to `pre + (got + b)`. */
  lemma SetValuesTwice(ss: seq<Series>, j: nat, name: string, pre: seq<string>, got: seq<string>, b: seq<string>)
    requires j < |ss|
    ensures var s1 := ss[j := Series(name, pre + got)];
      s1[j := Series(s1[j].name, s1[j].values + b)] == ss[j := Series(name, pre + (got + b))]
  {
    assert pre + got + b == pre + (got + b);
  }

  /** The donor loop of `merge_simplearraydata` for the series at `j`: each
      donor's series of the same name is looked up and its values appended;
      a donor without one stops the run. */
  method AppendDonorValues(base: Tree, j: nat, donors: seq<Tree>) returns (r: Outcome)
    requires base !in donors && base.schema.Some? && j < |base.schema.value|
    modifies base
    ensures var s := old(base.schema.value[j]);
      var vs := DonorValues(old(Docs(donors)), s.name);
      && (r.Pass? <==> vs.Some?)
      && (r.Fail? ==> r.error == MissingSeries(s.name))
      && (vs.Some? ==> base.schema == old(Some(base.schema.value[j := Series(s.name, s.values + vs.value)])))
    ensures base.schema.Some?
    ensures base.placemarks == old(base.placemarks) && base.data == old(base.data)
  {
    ghost var ss := base.schema.value;
    ghost var ds := Docs(donors);
    var name := base.schema.value[j].name;
    ghost var got: seq<string> := [];
    var i := 0;
    assert ds[..0] == [];
    assert ss[j := Series(name, ss[j].values + [])] == ss by {
      assert ss[j].values + [] == ss[j].values;
    }
    while i < |donors|
      invariant 0 <= i <= |donors|
      invariant DonorValues(ds[..i], name) == Some(got)
      invariant base.schema == Some(ss[j := Series(name, ss[j].values + got)])
      invariant base.placemarks == old(base.placemarks) && base.data == old(base.data)
    {
      var k := FindSad(donors[i], name);
      assert donors[i].schema == old(donors[i].schema) == ds[i].schema;
      if k.None? {
        DonorValuesMeaning(ds, name);
        return Fail(MissingSeries(name));
      }
      var vs := donors[i].schema.value[k.value].values;
      DonorValuesSnoc(ds, i, name, k.value);
      AppendValues(base, j, vs);
      SetValuesTwice(ss, j, name, ss[j].values, got, vs);
      got := got + vs;
      i := i + 1;
    }
    assert ds[..i] == ds;
    return Pass;
  }

  /** Setting the series at `j` in merged-so-far followed by the rest. */
  lemma SetNext(done: seq<Series>, ss: seq<Series>, j: nat, x: Series)
    requires |done| == j < |ss|
    ensures (done + ss[j..])[j] == ss[j]
    ensures (done + ss[j..])[j := x] == done + [x] + ss[j + 1..]
  {
    assert ss[j..] == [ss[j]] + ss[j + 1..];
  }

  /** One turn of the loop over the base series: the donors' values are
      appended to the series at `j`, which must then hold `rows` values. */
  method MergeSeriesAt(base: Tree, j: nat, donors: seq<Tree>, rows: nat) returns (r: Outcome)
    requires base !in donors && base.schema.Some? && j < |base.schema.value|
    modifies base
    ensures var m := MergeOne(old(base.schema.value[j]), old(Docs(donors)), rows);
      && (r.Pass? <==> m.Ok?)
      && (r.Fail? ==> r.error == m.error)
      && (m.Ok? ==> base.schema == old(Some(base.schema.value[j := m.value])))
    ensures base.schema.Some?
    ensures base.placemarks == old(base.placemarks) && base.data == old(base.data)
  {
    var name := base.schema.value[j].name;
    r := AppendDonorValues(base, j, donors);
    if r.Fail? {
      return;
    }
    var n := |base.schema.value[j].values|;
    if n != rows {
      return Fail(SeriesLengthMismatch(name));
    }
  }

  /** The loop of `merge_simplearraydata` over the base series; the first
      series that fails ends it. */
  method MergeEachSeries(base: Tree, donors: seq<Tree>, rows: nat) returns (r: Outcome)
    requires base !in donors && base.schema.Some?
    modifies base
    ensures base.schema.Some?
    ensures Applied(MergeSeries(old(base.schema.value), old(Docs(donors)), rows), r, base.schema.value)
    ensures base.placemarks == old(base.placemarks) && base.data == old(base.data)
  {
    ghost var ss := base.schema.value;
    ghost var ds := Docs(donors);
    ghost var done: seq<Series> := [];
    var count := |base.schema.value|;
    var j := 0;
    assert ss[..0] == [] && [] + ss[0..] == ss;
    while j < count
      invariant 0 <= j <= count && count == |ss|
      invariant MergeSeries(ss[..j], ds, rows) == Ok(done) && |done| == j
      invariant base.schema == Some(done + ss[j..])
      invariant base.placemarks == old(base.placemarks) && base.data == old(base.data)
    {
      SetNext(done, ss, j, ss[j]);
      r := MergeSeriesAt(base, j, donors, rows);
      if r.Fail? {
        MergeSeriesFailsAt(ss, j, ds, rows);
        return;
      }
      ghost var merged := MergeOne(ss[j], ds, rows).value;
      SetNext(done, ss, j, merged);
      MergeSeriesSnoc(ss, j, ds, rows);
      done := done + [merged];
      j := j + 1;
    }
    assert ss[..j] == ss && ss[j..] == [];
    assert done + [] == done;
    return Pass;
  }

  /** `merge_simplearraydata(base_tree, other_trees)`: the number of rows is
      the number of `when` elements of the base document. */
  method MergeSimpleArrayData(base: Tree, donors: seq<Tree>) returns (r: Outcome)
    requires base !in donors && UniqueNames(base.schema)
    modifies base
    ensures Applied(MergedSchema(old(base.schema), old(Docs(donors)), |AllWhens(old(base.placemarks))|), r, base.schema)
    ensures base.placemarks == old(base.placemarks) && base.data == old(base.data)
  {
    var rows := |AllWhens(base.placemarks)|;
    if base.schema.None? {
      return Pass;
    }
    r := MergeEachSeries(base, donors, rows);
  }

  /** After a successful merge every series keeps its name and its values,
      is followed by the donors' values of that name, and holds exactly one
      value per row. */
  lemma MergedSchemaAligned(schema: Option<seq<Series>>, donors: seq<Doc>, rows: nat)
    requires MergedSchema(schema, donors, rows).Ok?
    ensures var merged := MergedSchema(schema, donors, rows).value;
      && merged.Some? == schema.Some?
      && (schema.Some? ==>
            && |merged.value| == |schema.value|
            && forall j :: 0 <= j < |schema.value| ==>
                 && merged.value[j].name == schema.value[j].name
                 && DonorValues(donors, schema.value[j].name).Some?
                 && merged.value[j].values == schema.value[j].values + DonorValues(donors, schema.value[j].name).value
                 && |merged.value[j].values| == rows)
  {
    if schema.Some? {
      MergeSeriesMeaning(schema.value, donors, rows);
    }
  }

  /** The merge fails exactly when a base series has a donor without that
      series, or ends up with a number of values other than `rows`; the
      first such series, in document order, names the error. */
  lemma MergedSchemaFails(ss: seq<Series>, donors: seq<Doc>, rows: nat)
    ensures MergedSchema(Some(ss), donors, rows).Err? <==>
      exists j :: 0 <= j < |ss| &&
        (DonorValues(donors, ss[j].name).None? ||
         |ss[j].values| + |DonorValues(donors, ss[j].name).value| != rows)
    ensures MergedSchema(None, donors, rows) == Ok(None)
  {
    MergeSeriesMeaning(ss, donors, rows);
    if MergedSchema(Some(ss), donors, rows).Err? {
      var j :| 0 <= j < |ss| && MergeOne(ss[j], donors, rows).Err?;
    }
  }
}
