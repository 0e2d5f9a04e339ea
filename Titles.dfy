/** `combine_flight_titles`: one title for the merged flight, folded from
    the titles of the legs.  A leg titled "B - C" that follows a title ending
    in "B" continues the route ("A - B" becomes "A - B - C"); any other title
    is glued on with no separator. */
module Titles {
  import opened PyStr
  import opened Seqs
  import opened Kml

  const Separator := " - "

  /** One step of the fold: how the running title absorbs the next one,
      for a given separator (the fold uses " - "). */
  function Step(acc: string, title: string, sep: string): (r: string)
    requires sep != []
    ensures acc == [] ==> r == title
    ensures acc <= r
  {
    if acc == [] then title
    else
      var pieces := Split(title, sep);
      if EndsWith(acc, pieces[0]) then Join(sep, [acc] + pieces[1..])
      else acc + title
  }

  /** One step of `combine_flight_titles` on the running title `acc`.  An
      empty string stands for a title element without text: lxml reads its
      `.text` as `None`, never as "", and `None` is falsy like "".  Such a
      title replaces an empty running title; after a non-empty one the call
      `None.split(" - ")` raises. */
  function FoldStep(acc: string, title: string): (r: Result<string>)
    ensures r.Err? <==> acc != [] && title == []
    ensures r.Err? ==> r.error == TitleWithoutText
    ensures r.Ok? ==> acc <= r.value
  {
    if acc != [] && title == [] then Err(TitleWithoutText)
    else Ok(Step(acc, title, Separator))
  }

  /** The title folded from `titles`, left to right, from the empty string;
      the first failing step ends the fold. */
  function FoldTitles(titles: seq<string>): Result<string>
  {
    if titles == [] then Ok([])
    else match FoldTitles(titles[..|titles| - 1])
      case Err(e) => Err(e)
      case Ok(acc) => FoldStep(acc, titles[|titles| - 1])
  }

  /** `combine_flight_titles(titles)` */
  method CombineFlightTitles(titles: seq<string>) returns (r: Result<string>)
    ensures r == FoldTitles(titles)
  {
    var title := "";
    var i := 0;
    while i < |titles|
      invariant 0 <= i <= |titles|
      invariant FoldTitles(titles[..i]) == Ok(title)
    {
      var next := titles[i];
      assert titles[..i + 1][..i] == titles[..i];
      if title == [] {
        title := next;
      } else if next == [] {
        FoldTitlesSticky(titles, i + 1);
        return Err(TitleWithoutText);
      } else {
        var pieces := Split(next, Separator);
        if EndsWith(title, pieces[0]) {
          title := Join(Separator, [title] + pieces[1..]);
        } else {
          title := title + next;
        }
      }
      i := i + 1;
    }
    assert titles[..i] == titles;
    return Ok(title);
  }

  /** A failure stays a failure whatever titles follow. */
  lemma {:induction false} FoldTitlesSticky(titles: seq<string>, n: nat)
    requires n <= |titles| && FoldTitles(titles[..n]).Err?
    ensures FoldTitles(titles) == FoldTitles(titles[..n])
    decreases |titles| - n
  {
    if n < |titles| {
      var init := titles[..|titles| - 1];
      assert init[..n] == titles[..n];
      FoldTitlesSticky(init, n);
    } else {
      assert titles[..n] == titles;
    }
  }

  /** A non-empty running title stays non-empty. */
  lemma StepKeepsNonEmpty(acc: string, title: string, sep: string)
    requires sep != [] && acc != []
    ensures Step(acc, title, sep) != []
  {
    var pieces := Split(title, sep);
    if EndsWith(acc, pieces[0]) {
      JoinCons(sep, acc, pieces[1..]);
    }
  }

  /** The fold fails, always with `TitleWithoutText`, exactly when a title
      without text comes after a non-empty one; a successful fold is
      non-empty exactly when some title is. */
  lemma {:induction false} FoldTitlesMeaning(titles: seq<string>)
    ensures FoldTitles(titles).Err? <==>
      exists i, j :: 0 <= i < j < |titles| && titles[i] != [] && titles[j] == []
    ensures FoldTitles(titles).Err? ==> FoldTitles(titles).error == TitleWithoutText
    ensures FoldTitles(titles).Ok? ==>
      (FoldTitles(titles).value != [] <==> exists i :: 0 <= i < |titles| && titles[i] != [])
    decreases |titles|
  {
    if titles != [] {
      var init, last := titles[..|titles| - 1], titles[|titles| - 1];
      FoldTitlesMeaning(init);
      assert forall i :: 0 <= i < |init| ==> init[i] == titles[i];
      match FoldTitles(init)
      case Err(_) =>
        var i, j :| 0 <= i < j < |init| && init[i] != [] && init[j] == [];
        assert titles[i] != [] && titles[j] == [];
      case Ok(acc) =>
        if acc != [] {
          var i :| 0 <= i < |init| && init[i] != [];
          assert titles[i] != [];
          if last != [] {
            StepKeepsNonEmpty(acc, last, Separator);
          }
        }
    }
  }

  /** When the running title ends with the first piece of the new title,
      that piece is kept once and the rest of the new title follows it. */
  lemma StepOverlap(acc: string, title: string, sep: string)
    requires sep != [] && acc != []
    requires EndsWith(acc, Split(title, sep)[0])
    ensures Step(acc, title, sep) == acc[..|acc| - |Split(title, sep)[0]|] + title
  {
    var first := Split(title, sep)[0];
    var head, rest := acc[..|acc| - |first|], title[|first|..];
    JoinReplacesFirstPiece(acc, title, sep);
    assert Step(acc, title, sep) == acc + rest;
    PrefixRest(first, title);
    EndsWithRest(acc, first);
    Assoc(head, first, rest);
  }

  /** What a step does: an empty running title is replaced; otherwise the
      overlap between the end of the running title and the first piece of
      the new title is kept once, and without an overlap the two are glued. */
  lemma StepMeaning(acc: string, title: string, sep: string)
    requires sep != []
    ensures var first := Split(title, sep)[0];
      Step(acc, title, sep) ==
        if acc == [] then title
        else if EndsWith(acc, first) then acc[..|acc| - |first|] + title
        else acc + title
  {
    if acc != [] && EndsWith(acc, Split(title, sep)[0]) {
      StepOverlap(acc, title, sep);
    }
  }

  /** A title that continues the route: when the running title ends with the
      stop `from` (which has no space), "from - rest" adds " - rest". */
  lemma ContinueRoute(acc: string, from: string, rest: string, sep: string)
    requires sep != [] && acc != [] && EndsWith(acc, from) && sep[0] !in from
    ensures Step(acc, from + sep + rest, sep) == acc + sep + rest
  {
    var title := from + sep + rest;
    SplitFirstPiece(from, sep, rest);
    StepMeaning(acc, title, sep);
    assert acc == acc[..|acc| - |from|] + from;
  }

  /** A title without the separator that the running title already ends
      with adds nothing. */
  lemma RepeatedStopIgnored(acc: string, title: string, sep: string)
    requires sep != [] && acc != [] && EndsWith(acc, title)
    requires forall i :: !OccursAt(title, sep, i)
    ensures Step(acc, title, sep) == acc
  {
    SplitNoOccurrence(title, sep);
    JoinCons(sep, acc, []);
  }

  /** The titles that are not empty. */
  function NonEmpty(titles: seq<string>): (r: seq<string>)
    ensures forall i :: 0 <= i < |r| ==> r[i] != []
  {
    if titles == [] then []
    else NonEmpty(titles[..|titles| - 1]) + (if titles[|titles| - 1] == [] then [] else [titles[|titles| - 1]])
  }

  /** Empty titles change nothing in a fold that succeeds: there they can
      only come before the first non-empty title, where each one replaces
      the empty running title by itself.  Without them the fold never fails. */
  lemma {:induction false} EmptyTitlesIgnored(titles: seq<string>)
    ensures FoldTitles(NonEmpty(titles)).Ok?
    ensures FoldTitles(titles).Ok? ==> FoldTitles(titles) == FoldTitles(NonEmpty(titles))
    decreases |titles|
  {
    if titles != [] {
      var init, last := titles[..|titles| - 1], titles[|titles| - 1];
      EmptyTitlesIgnored(init);
      if last == [] {
        assert NonEmpty(titles) == NonEmpty(init);
      } else {
        var ne := NonEmpty(init) + [last];
        assert ne[..|ne| - 1] == NonEmpty(init);
      }
    }
  }

  /** The legs of a route through `stops`: "s0 - s1", "s1 - s2", ... */
  function Legs(stops: seq<string>): (r: seq<string>)
    requires |stops| >= 1
    ensures |r| == |stops| - 1
  {
    seq(|stops| - 1, i requires 0 <= i < |stops| - 1 => stops[i] + Separator + stops[i + 1])
  }

  lemma {:induction false} JoinEndsWithLast(parts: seq<string>)
    requires |parts| >= 1
    ensures EndsWith(Join(Separator, parts), parts[|parts| - 1])
    ensures |parts| >= 2 ==> Join(Separator, parts) != []
  {
    if |parts| >= 2 {
      JoinEndsWithLast(parts[1..]);
      var tail := Join(Separator, parts[1..]);
      var whole := parts[0] + Separator + tail;
      assert whole[|whole| - |tail|..] == tail;
    }
  }

  lemma {:induction false} JoinSnoc(parts: seq<string>, last: string)
    requires |parts| >= 1
    ensures Join(Separator, parts + [last]) == Join(Separator, parts) + Separator + last
  {
    if |parts| == 1 {
      assert (parts + [last])[1..] == [last];
    } else {
      assert (parts + [last])[1..] == parts[1..] + [last];
      JoinSnoc(parts[1..], last);
    }
  }

  /** The titles of consecutive legs fold into the whole route: for stops
      without spaces, "KSJC - KPAO", "KPAO - KOAK" give "KSJC - KPAO - KOAK". */
  lemma {:induction false} RouteLegsFold(stops: seq<string>)
    requires |stops| >= 2
    requires forall i :: 0 <= i < |stops| ==> ' ' !in stops[i]
    ensures FoldTitles(Legs(stops)) == Ok(Join(Separator, stops))
  {
    var legs := Legs(stops);
    if |stops| == 2 {
      assert legs == [stops[0] + Separator + stops[1]];
      assert legs[..0] == [];
      JoinCons(Separator, stops[0], [stops[1]]);
      assert stops == [stops[0]] + [stops[1]];
    } else {
      var init := stops[..|stops| - 1];
      RouteLegsFold(init);
      assert legs[..|legs| - 1] == Legs(init);
      var acc := Join(Separator, init);
      JoinEndsWithLast(init);
      assert Separator[0] == ' ';
      ContinueRoute(acc, init[|init| - 1], stops[|stops| - 1], Separator);
      JoinSnoc(init, stops[|stops| - 1]);
      InitLast(stops);
    }
  }

  /** Titles that share nothing are glued; no titles give the empty title. */
  lemma GlueExample()
    ensures FoldTitles([]) == Ok("")
    ensures FoldTitles(["A", "B"]) == Ok("AB")
  {
    assert ["A", "B"][..1] == ["A"] && ["A"][..0] == [];
    assert FoldTitles(["A"]) == Ok("A");
    SplitNoOccurrence("B", Separator);
    assert !EndsWith("A", "B");
    assert Step("A", "B", Separator) == "AB";
  }

  /** A title without text is skipped before the first title and fails
      the fold after it. */
  lemma TextlessTitleExample()
    ensures FoldTitles(["", "KSJC - KPAO"]) == Ok("KSJC - KPAO")
    ensures FoldTitles(["KSJC - KPAO", ""]) == Err(TitleWithoutText)
  {
    assert ["", "KSJC - KPAO"][..1] == [""];
    assert ["KSJC - KPAO", ""][..1] == ["KSJC - KPAO"];
  }
}
