/** `sort_and_select` and the start time it sorts by: the first `when` of a
    tree, rewritten by `_fix_iso_dt` and parsed.  The parser
    (`datetime.fromisoformat`) is a library call and is passed in as a
    function from the rewritten text to an ordered instant. */
module Ordering {
  import opened PyStr
  import opened Kml

  /** `_fix_iso_dt`: the text must end with `Z`; every `Z` is replaced by
      `0+00:00` (padding the two-digit fraction and spelling out UTC). */
  function FixIsoDt(stamp: string): (r: Result<string>)
    ensures r.Ok? <==> EndsWith(stamp, "Z")
    ensures r.Err? ==> r.error == TimestampNotUtc
    ensures r.Ok? ==> 'Z' !in r.value && EndsWith(r.value, "0+00:00")
  {
    if |stamp| > 0 && stamp[|stamp| - 1] == 'Z' then
      var fixed := Replace(stamp, 'Z', "0+00:00");
      ReplaceAppend(stamp[..|stamp| - 1], "Z", 'Z', "0+00:00");
      assert stamp == stamp[..|stamp| - 1] + "Z";
      ReplaceRemoves(stamp, 'Z', "0+00:00");
      Ok(fixed)
    else
      Err(TimestampNotUtc)
  }

  /** For a time with its only `Z` at the end, the rewrite drops the `Z` and
      appends `0+00:00`. */
  lemma FixIsoDtSingleZ(stamp: string)
    requires EndsWith(stamp, "Z") && 'Z' !in stamp[..|stamp| - 1]
    ensures FixIsoDt(stamp) == Ok(stamp[..|stamp| - 1] + "0+00:00")
  {
    var body := stamp[..|stamp| - 1];
    assert stamp == body + "Z";
    ReplaceAppend(body, "Z", 'Z', "0+00:00");
    ReplaceAbsent(body, 'Z', "0+00:00");
  }

  /** `get_track_start_time`: the first `when` of the tree (a missing one
      raises on `.text`), checked and rewritten, then parsed. */
  function StartKey(tree: Tree, parse: string -> Option<int>): (r: Result<int>)
    reads tree
    ensures AllWhens(tree.placemarks) == [] ==> r == Err(NoTimestamp)
    ensures r.Ok? ==> EndsWith(AllWhens(tree.placemarks)[0], "Z")
    ensures r.Ok? ==> parse(FixIsoDt(AllWhens(tree.placemarks)[0]).value) == Some(r.value)
    ensures AllWhens(tree.placemarks) != [] ==>
      (r.Ok? <==> EndsWith(AllWhens(tree.placemarks)[0], "Z") &&
                  parse(FixIsoDt(AllWhens(tree.placemarks)[0]).value).Some?)
    ensures AllWhens(tree.placemarks) != [] && !EndsWith(AllWhens(tree.placemarks)[0], "Z") ==>
      r == Err(TimestampNotUtc)
    ensures AllWhens(tree.placemarks) != [] && EndsWith(AllWhens(tree.placemarks)[0], "Z") &&
            parse(FixIsoDt(AllWhens(tree.placemarks)[0]).value).None? ==>
      r == Err(UnparsableTimestamp)
  {
    var whens := AllWhens(tree.placemarks);
    if whens == [] then Err(NoTimestamp)
    else match FixIsoDt(whens[0])
      case Err(e) => Err(e)
      case Ok(iso) =>
        match parse(iso)
        case None => Err(UnparsableTimestamp)
        case Some(k) => Ok(k)
  }

  /** The start keys of all trees, computed in list order as `sorted` does;
      the first tree whose key cannot be computed aborts with its error. */
  function StartKeys(trees: seq<Tree>, parse: string -> Option<int>): (r: Result<seq<int>>)
    reads trees
    ensures r.Ok? ==> |r.value| == |trees|
  {
    if trees == [] then Ok([])
    else match StartKey(trees[0], parse)
      case Err(e) => Err(e)
      case Ok(k) =>
        match StartKeys(trees[1..], parse)
        case Err(e) => Err(e)
        case Ok(ks) => Ok([k] + ks)
  }

  /** The keys are computed exactly when every tree has one, and then are
      those keys in order. */
  lemma {:induction false} StartKeysOk(trees: seq<Tree>, parse: string -> Option<int>)
    ensures var r := StartKeys(trees, parse);
      && (r.Ok? <==> forall i :: 0 <= i < |trees| ==> StartKey(trees[i], parse).Ok?)
      && (r.Ok? ==> forall i :: 0 <= i < |trees| ==> StartKey(trees[i], parse) == Ok(r.value[i]))
    decreases |trees|
  {
    if trees != [] {
      var tail := trees[1..];
      StartKeysOk(tail, parse);
      var r, head, rest := StartKeys(trees, parse), StartKey(trees[0], parse), StartKeys(tail, parse);
      assert r == if head.Err? then Err(head.error) else if rest.Err? then Err(rest.error)
                   else Ok([head.value] + rest.value);
      if r.Ok? {
        forall i | 0 <= i < |trees| ensures StartKey(trees[i], parse) == Ok(r.value[i]) {
          if i > 0 {
            assert trees[i] == tail[i - 1];
          }
        }
      } else if head.Ok? {
        var i :| 0 <= i < |tail| && StartKey(tail[i], parse).Err?;
        assert trees[i + 1] == tail[i];
      }
    }
  }

  /** A failure carries the error of the first tree without a key. */
  lemma {:induction false} StartKeysErr(trees: seq<Tree>, parse: string -> Option<int>)
    requires StartKeys(trees, parse).Err?
    ensures exists i :: (0 <= i < |trees| && StartKey(trees[i], parse) == Err(StartKeys(trees, parse).error) &&
      forall j :: 0 <= j < i ==> StartKey(trees[j], parse).Ok?)
    decreases |trees|
  {
    var tail := trees[1..];
    if StartKey(trees[0], parse).Ok? {
      StartKeysErr(tail, parse);
      var e := StartKeys(tail, parse).error;
      var i :| 0 <= i < |tail| && StartKey(tail[i], parse) == Err(e) &&
        forall j :: 0 <= j < i ==> StartKey(tail[j], parse).Ok?;
      assert StartKey(trees[i + 1], parse) == Err(e);
      forall j | 0 <= j < i + 1 ensures StartKey(trees[j], parse).Ok? {
        if j > 0 {
          assert trees[j] == tail[j - 1];
        }
      }
    }
  }

  /** Position `a` goes before position `b` when its key is smaller, or the
      keys are equal and `a` came first: a stable sort by key. */
  predicate KeyBefore(keys: seq<int>, a: nat, b: nat)
    requires a < |keys| && b < |keys|
  {
    keys[a] < keys[b] || (keys[a] == keys[b] && a < b)
  }

  predicate InRange(keys: seq<int>, ps: seq<nat>) {
    forall i :: 0 <= i < |ps| ==> ps[i] < |keys|
  }

  predicate SortedByKey(keys: seq<int>, ps: seq<nat>)
    requires InRange(keys, ps)
  {
    forall i, j :: 0 <= i < j < |ps| ==> KeyBefore(keys, ps[i], ps[j])
  }

  /** In a list sorted by key the keys do not decrease, and equal keys keep
      their positions' order. */
  lemma SortedMeaning(keys: seq<int>, ps: seq<nat>)
    requires InRange(keys, ps) && SortedByKey(keys, ps)
    ensures forall k, l :: 0 <= k < l < |ps| ==> keys[ps[k]] <= keys[ps[l]]
    ensures forall k, l :: 0 <= k < l < |ps| && keys[ps[k]] == keys[ps[l]] ==> ps[k] < ps[l]
  {
    forall k, l | 0 <= k < l < |ps| ensures keys[ps[k]] <= keys[ps[l]] {
      assert KeyBefore(keys, ps[k], ps[l]);
    }
  }

  /** 0, 1, ..., n - 1 */
  function Range(n: nat): (r: seq<nat>)
    ensures |r| == n && forall i :: 0 <= i < n ==> r[i] == i
  {
    seq(n, i requires 0 <= i < n => i)
  }

  /** Put position `p` before the first element it precedes. */
  function Insert(keys: seq<int>, p: nat, ps: seq<nat>): (r: seq<nat>)
    requires p < |keys| && InRange(keys, ps)
    ensures multiset(r) == multiset(ps) + multiset{p}
    ensures InRange(keys, r)
  {
    if ps == [] then [p]
    else if KeyBefore(keys, p, ps[0]) then [p] + ps
    else
      assert ps == [ps[0]] + ps[1..];
      [ps[0]] + Insert(keys, p, ps[1..])
  }

  /** Insertion sort of a list of positions. */
  function SortPositions(keys: seq<int>, ps: seq<nat>): (r: seq<nat>)
    requires InRange(keys, ps)
    ensures multiset(r) == multiset(ps)
    ensures InRange(keys, r)
  {
    if ps == [] then []
    else
      assert ps == [ps[0]] + ps[1..];
      Insert(keys, ps[0], SortPositions(keys, ps[1..]))
  }

  lemma {:induction false} InsertSorted(keys: seq<int>, p: nat, ps: seq<nat>)
    requires p < |keys| && InRange(keys, ps) && SortedByKey(keys, ps) && p !in ps
    ensures SortedByKey(keys, Insert(keys, p, ps))
  {
    if ps != [] && !KeyBefore(keys, p, ps[0]) {
      assert KeyBefore(keys, ps[0], p) by { assert p != ps[0]; }
      InsertSorted(keys, p, ps[1..]);
      var tail := Insert(keys, p, ps[1..]);
      forall k | 0 <= k < |tail| ensures KeyBefore(keys, ps[0], tail[k]) {
        assert tail[k] in multiset(ps[1..]) + multiset{p};
        if tail[k] != p {
          assert tail[k] in ps[1..];
        }
      }
    }
  }

  lemma {:induction false} SortPositionsSorted(keys: seq<int>, ps: seq<nat>)
    requires InRange(keys, ps)
    requires forall i, j :: 0 <= i < j < |ps| ==> ps[i] != ps[j]
    ensures SortedByKey(keys, SortPositions(keys, ps))
  {
    if ps != [] {
      SortPositionsSorted(keys, ps[1..]);
      var rest := SortPositions(keys, ps[1..]);
      assert ps[0] !in ps[1..] by {
        forall j | 0 <= j < |ps[1..]| ensures ps[1..][j] != ps[0] {
          assert ps[1..][j] == ps[j + 1];
        }
      }
      assert ps[0] !in multiset(rest);
      InsertSorted(keys, ps[0], rest);
    }
  }

  /** The order `sorted(trees, key=...)` puts the input positions in:
      a permutation of the positions, increasing by key, ties in input order. */
  function StableOrder(keys: seq<int>): (r: seq<nat>)
    ensures |r| == |keys| && InRange(keys, r)
    ensures multiset(r) == multiset(Range(|keys|))
    ensures SortedByKey(keys, r)
  {
    var r := SortPositions(keys, Range(|keys|));
    SortPositionsSorted(keys, Range(|keys|));
    assert |r| == |multiset(r)| == |Range(|keys|)|;
    r
  }

  /** Every input position appears in the stable order exactly once. */
  lemma StableOrderCovers(keys: seq<int>, p: nat)
    requires p < |keys|
    ensures p in StableOrder(keys)
  {
    assert Range(|keys|)[p] == p;
    assert p in multiset(Range(|keys|));
  }

  /** The list whose `k`-th element is `xs[ps[k]]`. */
  function Permute<T>(xs: seq<T>, ps: seq<nat>): (r: seq<T>)
    requires forall i :: 0 <= i < |ps| ==> ps[i] < |xs|
    ensures |r| == |ps| && forall k :: 0 <= k < |ps| ==> r[k] == xs[ps[k]]
  {
    seq(|ps|, k requires 0 <= k < |ps| => xs[ps[k]])
  }

  lemma PermuteCons<T>(xs: seq<T>, p: nat, ps: seq<nat>)
    requires p < |xs| && forall i :: 0 <= i < |ps| ==> ps[i] < |xs|
    ensures Permute(xs, [p] + ps) == [xs[p]] + Permute(xs, ps)
  {
  }

  lemma {:induction false} PermuteInsert<T>(xs: seq<T>, keys: seq<int>, p: nat, ps: seq<nat>)
    requires |keys| == |xs| && p < |keys| && InRange(keys, ps)
    ensures multiset(Permute(xs, Insert(keys, p, ps))) == multiset(Permute(xs, ps)) + multiset{xs[p]}
  {
    if ps == [] {
    } else if KeyBefore(keys, p, ps[0]) {
      assert Insert(keys, p, ps) == [p] + ps;
      PermuteCons(xs, p, ps);
    } else {
      var rest := Insert(keys, p, ps[1..]);
      assert Insert(keys, p, ps) == [ps[0]] + rest;
      PermuteInsert(xs, keys, p, ps[1..]);
      PermuteCons(xs, ps[0], rest);
      PermuteCons(xs, ps[0], ps[1..]);
      assert ps == [ps[0]] + ps[1..];
    }
  }

  lemma {:induction false} PermuteSort<T>(xs: seq<T>, keys: seq<int>, ps: seq<nat>)
    requires |keys| == |xs| && InRange(keys, ps)
    ensures multiset(Permute(xs, SortPositions(keys, ps))) == multiset(Permute(xs, ps))
  {
    if ps != [] {
      var p, tail := ps[0], ps[1..];
      assert ps == [p] + tail;
      assert InRange(keys, tail);
      var rest := SortPositions(keys, tail);
      assert SortPositions(keys, ps) == Insert(keys, p, rest);
      PermuteSort(xs, keys, tail);
      PermuteInsert(xs, keys, p, rest);
      PermuteCons(xs, p, tail);
      assert multiset(Permute(xs, ps)) == multiset{xs[p]} + multiset(Permute(xs, tail));
    }
  }

  lemma PermuteRange<T>(xs: seq<T>)
    ensures Permute(xs, Range(|xs|)) == xs
  {
  }

  /** `[trees[i] for i in indices]` */
  function Select<T>(xs: seq<T>, indices: seq<int>): (r: seq<T>)
    requires forall k :: 0 <= k < |indices| ==> 0 <= indices[k] < |xs|
    ensures |r| == |indices| && forall k :: 0 <= k < |indices| ==> r[k] == xs[indices[k]]
  {
    seq(|indices|, k requires 0 <= k < |indices| => xs[indices[k]])
  }

  /** `sort_and_select(indices, trees)`: sort by start time (stably), then,
      when `indices` is non-empty, pick by position in the sorted list; an
      empty result fails the final `assert`.  Python's negative indices are
      not modelled, so every index is a position of the list. */
  function SortAndSelect(indices: seq<int>, trees: seq<Tree>, parse: string -> Option<int>): (r: Result<seq<Tree>>)
    reads trees
    requires forall k :: 0 <= k < |indices| ==> 0 <= indices[k] < |trees|
    ensures r.Ok? ==> r.value != [] && |r.value| == if indices == [] then |trees| else |indices|
    ensures r.Ok? ==> forall t :: t in r.value ==> t in trees
  {
    match StartKeys(trees, parse)
    case Err(e) => Err(e)
    case Ok(keys) =>
      var sorted := Permute(trees, StableOrder(keys));
      var chosen := if indices == [] then sorted else Select(sorted, indices);
      if chosen == [] then Err(EmptyInput) else Ok(chosen)
  }

  /** Failures: a start time that cannot be read, otherwise an empty input. */
  lemma SortAndSelectFailure(indices: seq<int>, trees: seq<Tree>, parse: string -> Option<int>)
    requires forall k :: 0 <= k < |indices| ==> 0 <= indices[k] < |trees|
    ensures StartKeys(trees, parse).Err? ==> SortAndSelect(indices, trees, parse) == Err(StartKeys(trees, parse).error)
    ensures StartKeys(trees, parse).Ok? ==>
              (SortAndSelect(indices, trees, parse).Err? <==> trees == []) &&
              (trees == [] ==> SortAndSelect(indices, trees, parse) == Err(EmptyInput))
  {
    if StartKeys(trees, parse).Ok? && indices != [] {
      assert 0 <= indices[0] < |trees|;
    }
  }

  /** Without indices the result is the input, permuted, in non-decreasing
      order of start time, with trees of equal start time in input order. */
  lemma SortAndSelectSorts(trees: seq<Tree>, parse: string -> Option<int>)
    requires trees != [] && StartKeys(trees, parse).Ok?
    ensures var keys := StartKeys(trees, parse).value;
            var order := StableOrder(keys);
            var r := SortAndSelect([], trees, parse);
      && r.Ok? && |r.value| == |trees|
      && multiset(r.value) == multiset(trees)
      && (forall i :: 0 <= i < |trees| ==> StartKey(trees[i], parse) == Ok(keys[i]))
      && (forall k :: 0 <= k < |trees| ==> r.value[k] == trees[order[k]])
      && (forall k, l :: 0 <= k < l < |trees| ==> keys[order[k]] <= keys[order[l]])
      && (forall k, l :: 0 <= k < l < |trees| && keys[order[k]] == keys[order[l]] ==> order[k] < order[l])
  {
    var keys := StartKeys(trees, parse).value;
    var order := StableOrder(keys);
    StartKeysOk(trees, parse);
    PermuteSort(trees, keys, Range(|keys|));
    PermuteRange(trees);
    SortedMeaning(keys, order);
  }

  /** With indices, the `k`-th result is the tree at sorted position `indices[k]`. */
  lemma SortAndSelectPicks(indices: seq<int>, trees: seq<Tree>, parse: string -> Option<int>)
    requires indices != [] && forall k :: 0 <= k < |indices| ==> 0 <= indices[k] < |trees|
    requires StartKeys(trees, parse).Ok?
    ensures var keys := StartKeys(trees, parse).value;
            var sorted := Permute(trees, StableOrder(keys));
            var r := SortAndSelect(indices, trees, parse);
      && r.Ok? && |r.value| == |indices|
      && forall k :: 0 <= k < |indices| ==> r.value[k] == sorted[indices[k]]
  {
  }

  /** Start times [T2, T1, T3] sort to [T1, T2, T3]; indices [2, 0] then
      pick [T3, T1]. */
  lemma StableOrderExample()
    ensures StableOrder([2, 1, 3]) == [1, 0, 2]
    ensures Select(Permute(["T2", "T1", "T3"], StableOrder([2, 1, 3])), [2, 0]) == ["T3", "T1"]
  {
    var r := StableOrder([2, 1, 3]);
    assert 0 in r && 1 in r && 2 in r by {
      StableOrderCovers([2, 1, 3], 0);
      StableOrderCovers([2, 1, 3], 1);
      StableOrderCovers([2, 1, 3], 2);
    }
    assert KeyBefore([2, 1, 3], r[0], r[1]) && KeyBefore([2, 1, 3], r[1], r[2]);
  }
}
