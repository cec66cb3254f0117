/**
 * The registrar's layer-peeling topological sort. Each pass walks the
 * remaining dict in iteration order, places every key whose remaining
 * dependency set is empty, and rebuilds the dict from the keys it did not
 * place, with every placed key removed from their dependency sets.
 */
module TopoSort {
  import opened DepGraph

  /** `k` is a key of `deps` with no remaining dependency. */
  predicate IsReady<K(==, !new)>(deps: map<K, set<K>>, k: K)
  {
    k in deps && deps[k] == {}
  }

  /** The keys of `s` that a pass places, in the order the pass meets them. */
  function Ready<K(==, !new)>(deps: map<K, set<K>>, s: seq<K>): seq<K>
    decreases |s|
  {
    if s == [] then []
    else Ready(deps, s[..|s| - 1]) + if IsReady(deps, s[|s| - 1]) then [s[|s| - 1]] else []
  }

  /** The keys of `s` that a pass leaves for the next pass (`unsorted`), in the order the pass meets them. */
  function Blocked<K(==, !new)>(deps: map<K, set<K>>, s: seq<K>): seq<K>
    decreases |s|
  {
    if s == [] then []
    else Blocked(deps, s[..|s| - 1]) + if IsReady(deps, s[|s| - 1]) then [] else [s[|s| - 1]]
  }

  /** A pass places exactly the ready keys of `s` and leaves exactly the others. */
  lemma {:induction false} SplitMembers<K(!new)>(deps: map<K, set<K>>, s: seq<K>)
    ensures forall x :: x in Ready(deps, s) <==> x in s && IsReady(deps, x)
    ensures forall x :: x in Blocked(deps, s) <==> x in s && !IsReady(deps, x)
    decreases |s|
  {
    if s != [] {
      var init, last := s[..|s| - 1], s[|s| - 1];
      SplitMembers(deps, init);
      assert s == init + [last];
      assert forall x :: x in s <==> x in init || x == last;
      if IsReady(deps, last) {
        assert Ready(deps, s) == Ready(deps, init) + [last] && Blocked(deps, s) == Blocked(deps, init);
      } else {
        assert Ready(deps, s) == Ready(deps, init) && Blocked(deps, s) == Blocked(deps, init) + [last];
      }
    }
  }

  /** Every key of `s` goes to exactly one of the two lists. */
  lemma {:induction false} SplitLengths<K(!new)>(deps: map<K, set<K>>, s: seq<K>)
    ensures |Ready(deps, s)| + |Blocked(deps, s)| == |s|
    decreases |s|
  {
    if s != [] {
      SplitLengths(deps, s[..|s| - 1]);
    }
  }

  /** Neither list repeats a key when `s` does not. */
  lemma {:induction false} SplitDistinct<K(!new)>(deps: map<K, set<K>>, s: seq<K>)
    requires Distinct(s)
    ensures Distinct(Ready(deps, s)) && Distinct(Blocked(deps, s))
    decreases |s|
  {
    if s != [] {
      var init, last := s[..|s| - 1], s[|s| - 1];
      assert Distinct(init);
      SplitDistinct(deps, init);
      SplitMembers(deps, init);
      assert last !in init;
      DistinctSnoc(Ready(deps, init), last);
      DistinctSnoc(Blocked(deps, init), last);
    }
  }

  /** Scanning one more key extends exactly one of the two lists by that key. */
  lemma ScanStep<K(!new)>(deps: map<K, set<K>>, s: seq<K>, i: nat)
    requires i < |s|
    ensures Ready(deps, s[..i + 1]) == Ready(deps, s[..i]) + if IsReady(deps, s[i]) then [s[i]] else []
    ensures Blocked(deps, s[..i + 1]) == Blocked(deps, s[..i]) + if IsReady(deps, s[i]) then [] else [s[i]]
  {
    assert s[..i + 1][..i] == s[..i];
  }

  /** When every key of `s` is ready, a pass places all of `s` in order. */
  lemma {:induction false} AllReady<K(!new)>(deps: map<K, set<K>>, s: seq<K>)
    requires forall i :: 0 <= i < |s| ==> IsReady(deps, s[i])
    ensures Ready(deps, s) == s && Blocked(deps, s) == []
    decreases |s|
  {
    if s != [] {
      var init, last := s[..|s| - 1], s[|s| - 1];
      AllReady(deps, init);
      assert IsReady(deps, last);
      assert Ready(deps, s) == init + [last] == s;
      assert Blocked(deps, s) == Blocked(deps, init) == [];
    }
  }

  /** When no key of `s` is ready, a pass leaves all of `s`, in order. */
  lemma {:induction false} NoneReady<K(!new)>(deps: map<K, set<K>>, s: seq<K>)
    requires forall i :: 0 <= i < |s| ==> !IsReady(deps, s[i])
    ensures Ready(deps, s) == [] && Blocked(deps, s) == s
    decreases |s|
  {
    if s != [] {
      var init, last := s[..|s| - 1], s[|s| - 1];
      NoneReady(deps, init);
      assert !IsReady(deps, last);
      assert Blocked(deps, s) == init + [last] == s;
      assert Ready(deps, s) == Ready(deps, init) == [];
    }
  }

  /** What one pass of the while loop produces: the keys it appends to the output, and the rebuilt dict. */
  datatype Step<K(==, !new)> = Step(placed: seq<K>, next: Dict<K>)

  /**
   * One pass of the while loop, given the dict and the set of values sorted
   * in earlier passes. `placed` is appended to the output; the next dict
   * holds the unplaced keys in encounter order, each with every value sorted
   * so far removed from its dependency set.
   */
  function Pass<K(==, !new)>(d: Dict<K>, sortedValues: set<K>): (r: Step<K>)
    requires d.Valid()
    ensures r.next.Valid()
    ensures forall x :: x in r.placed <==> x in d.order && d.deps[x] == {}
    ensures forall x :: x in r.next.deps <==> x in d.order && d.deps[x] != {}
    ensures forall x :: x in r.next.deps ==> r.next.deps[x] == d.deps[x] - sortedValues - Elems(r.placed)
    ensures Distinct(r.placed) && |r.placed| + |r.next.order| == |d.order|
  {
    SplitMembers(d.deps, d.order);
    SplitLengths(d.deps, d.order);
    SplitDistinct(d.deps, d.order);
    var placed := Ready(d.deps, d.order);
    var unsorted := Blocked(d.deps, d.order);
    var sorted := sortedValues + Elems(placed);
    Step(placed, Dict(unsorted, map v | v in unsorted :: d.deps[v] - sorted))
  }

  /**
   * The whole output of the while loop on `d` when `sorted` is already
   * output: each pass appends what it places and the loop goes on with the
   * dict it rebuilds. It stops at an empty dict, and also at a pass that
   * places nothing, where the source would loop forever.
   */
  ghost function Peel<K(!new)>(d: Dict<K>, sorted: seq<K>): seq<K>
    requires d.Valid()
    decreases |d.order|
  {
    var step := Pass(d, Elems(sorted));
    if d.order == [] || step.placed == [] then sorted
    else Peel(step.next, sorted + step.placed)
  }

  /** When a pass places nothing and all dependencies are keys, every key depends on some key. */
  lemma AllKeysBlocked<K(!new)>(d: Dict<K>)
    requires d.Valid() && Closed(d)
    requires Ready(d.deps, d.order) == []
    ensures forall v {:trigger DependsInto(d, v, d.deps.Keys)} :: v in d.deps ==> DependsInto(d, v, d.deps.Keys)
  {
    SplitMembers(d.deps, d.order);
    forall v | v in d.deps
      ensures DependsInto(d, v, d.deps.Keys)
    {
      assert v in d.order && !IsReady(d.deps, v);
      assert d.deps[v] <= d.deps.Keys;
    }
  }

  /** A pass over a nonempty dict whose dependencies are all keys places nothing only if the dict has a cycle. */
  lemma NothingReadyMeansCycle<K(!new)>(d: Dict<K>)
    requires d.Valid() && d.order != [] && Closed(d)
    requires Ready(d.deps, d.order) == []
    ensures !Acyclic(d)
  {
    AllKeysBlocked(d);
    assert d.order[0] in d.deps;
    NoSourceMeansCycle(d, d.deps.Keys);
  }

  /**
   * Progress: on a nonempty dict whose dependencies are all keys and that
   * has no cycle, a pass places at least one key, so the dict shrinks.
   */
  lemma PassPlacesOne<K(!new)>(d: Dict<K>, sortedValues: set<K>)
    requires d.Valid() && d.order != [] && Closed(d) && Acyclic(d)
    ensures Pass(d, sortedValues).placed != []
    ensures |Pass(d, sortedValues).next.order| < |d.order|
  {
    if Ready(d.deps, d.order) == [] {
      NothingReadyMeansCycle(d);
      assert false;
    }
  }

  /** Removing values that no dependency set contains rebuilds the same map. */
  lemma RebuildUnchanged<K(!new)>(deps: map<K, set<K>>, order: seq<K>, sorted: set<K>)
    requires Elems(order) == deps.Keys
    requires forall x :: x in deps ==> deps[x] !! sorted
    ensures (map v | v in order :: deps[v] - sorted) == deps
  {
    var m := map v | v in order :: deps[v] - sorted;
    assert m.Keys == deps.Keys;
    forall x | x in m ensures m[x] == deps[x] {
      assert deps[x] - sorted == deps[x];
    }
  }

  /**
   * When every key still has a dependency and none of them is sorted yet, a
   * pass places nothing and rebuilds the very same dict: the source's loop
   * condition never changes.
   */
  lemma StuckPassIsFixedPoint<K(!new)>(d: Dict<K>, sortedValues: set<K>)
    requires d.Valid()
    requires forall x :: x in d.order ==> d.deps[x] != {}
    requires forall x :: x in d.deps ==> d.deps[x] !! sortedValues
    ensures Pass(d, sortedValues) == Step([], d)
  {
    NoneReady(d.deps, d.order);
    assert Elems<K>([]) == {};
    assert sortedValues + Elems<K>([]) == sortedValues;
    RebuildUnchanged(d.deps, d.order, sortedValues);
  }

  /** A pass over a dict with no dependencies at all places every key in iteration order and leaves an empty dict. */
  lemma EdgelessSinglePass<K(!new)>(d: Dict<K>, sortedValues: set<K>)
    requires d.Valid() && Edgeless(d)
    ensures Pass(d, sortedValues) == Step(d.order, Dict([], map[]))
  {
    AllReady(d.deps, d.order);
  }

  /** The dict {X: {Y}, Y: {X}}: the source's first pass over it rebuilds the same dict, forever. */
  lemma TwoCycleNeverShrinks()
    ensures var d := Dict(["X", "Y"], map["X" := {"Y"}, "Y" := {"X"}]);
            d.Valid() && Pass(d, {}) == Step([], d)
  {
    var d := Dict(["X", "Y"], map["X" := {"Y"}, "Y" := {"X"}]);
    assert Elems(d.order) == d.deps.Keys;
    StuckPassIsFixedPoint(d, {});
  }

  /** What the sort ends with: the registration order, or the dict on which the source loops forever. */
  datatype Outcome<K(==, !new)> = Sorted(order: seq<K>) | Hangs(placed: seq<K>, stuck: Dict<K>)

  /** `s` extends `start` by the keys of `layer`, each placed after all of its dependencies in `d`, which all lie in `start`. */
  lemma {:induction false} DepsFirstExtend<K(!new)>(d: Dict<K>, start: seq<K>, layer: seq<K>)
    requires DepsFirst(d, start)
    requires forall x :: x in layer ==> x in d.deps && d.deps[x] <= Elems(start)
    ensures DepsFirst(d, start + layer)
  {
    var s := start + layer;
    forall i | 0 <= i < |s|
      ensures s[i] in d.deps && d.deps[s[i]] <= Elems(s[..i])
    {
      if i < |start| {
        assert s[..i] == start[..i];
      } else {
        assert s[i] in layer;
        assert s[..i] == start + layer[..i - |start|];
      }
    }
  }

  /** The remaining dict keeps only edges of the original one, and only keys as targets when the original did. */
  lemma RemainderInherits<K(!new)>(d: Dict<K>, rest: Dict<K>, sortedValues: set<K>)
    requires rest.deps.Keys == d.deps.Keys - sortedValues
    requires forall k :: k in rest.deps ==> rest.deps[k] == d.deps[k] - sortedValues
    ensures Closed(d) ==> Closed(rest)
    ensures Acyclic(d) ==> Acyclic(rest)
  {
    forall p | IsPath(rest, p)
      ensures IsPath(d, p)
    {
    }
  }

  /**
   * The state of the while loop after some passes over `d`: `sorted` is the
   * output so far and `rest` the dict still to place, holding the other keys
   * with the sorted values removed from their dependency sets.
   */
  ghost predicate Progressed<K(!new)>(d: Dict<K>, sorted: seq<K>, rest: Dict<K>)
  {
    && rest.Valid()
    && Distinct(sorted)
    && Elems(sorted) !! rest.deps.Keys
    && Elems(sorted) + rest.deps.Keys == d.deps.Keys
    && (forall k :: k in rest.deps ==> k in d.deps && rest.deps[k] == d.deps[k] - Elems(sorted))
    && DepsFirst(d, sorted)
  }

  /** Before the first pass nothing is sorted and the whole dict remains. */
  lemma ProgressedInitially<K(!new)>(d: Dict<K>)
    requires d.Valid()
    ensures Progressed(d, [], d)
  {
    assert Elems<K>([]) == {};
  }

  /**
   * One pass keeps the loop state consistent: the keys it places go after
   * everything placed before them, each after all of its dependencies.
   */
  lemma PassPreserves<K(!new)>(d: Dict<K>, sorted: seq<K>, rest: Dict<K>)
    requires Progressed(d, sorted, rest)
    ensures Progressed(d, sorted + Pass(rest, Elems(sorted)).placed, Pass(rest, Elems(sorted)).next)
  {
    var step := Pass(rest, Elems(sorted));
    var sorted' := sorted + step.placed;
    assert Elems(sorted') == Elems(sorted) + Elems(step.placed);
    forall x | x in step.placed
      ensures x in d.deps && d.deps[x] <= Elems(sorted)
    {
      assert x in rest.order && x in rest.deps;
      assert rest.deps[x] == {} && rest.deps[x] == d.deps[x] - Elems(sorted);
      forall y | y in d.deps[x]
        ensures y in Elems(sorted)
      {
        assert y !in rest.deps[x];
      }
    }
    DepsFirstExtend(d, sorted, step.placed);
    forall i, j | 0 <= i < j < |sorted'|
      ensures sorted'[i] != sorted'[j]
    {
      if j >= |sorted| && i < |sorted| {
        assert sorted'[j] in step.placed;
        assert sorted'[i] in sorted;
      }
    }
  }

  /**
   * A pass that places nothing: the source loops forever on `rest`, and the
   * original dict either has a dependency that is not a key or has a cycle.
   */
  lemma StuckPass<K(!new)>(d: Dict<K>, sorted: seq<K>, rest: Dict<K>)
    requires Progressed(d, sorted, rest) && rest.order != []
    requires Pass(rest, Elems(sorted)).placed == []
    ensures !(Closed(d) && Acyclic(d))
    ensures Closed(d) ==> !Acyclic(rest)
    ensures Pass(rest, Elems(sorted)) == Step([], rest)
  {
    assert Ready(rest.deps, rest.order) == [];
    StuckPassIsFixedPoint(rest, Elems(sorted));
    RemainderInherits(d, rest, Elems(sorted));
    if Closed(d) {
      NothingReadyMeansCycle(rest);
    }
  }

  /** When nothing remains, the output lists every key once, dependencies first, so the dict was closed and acyclic. */
  lemma Finished<K(!new)>(d: Dict<K>, sorted: seq<K>, rest: Dict<K>)
    requires Progressed(d, sorted, rest) && rest.order == []
    ensures Closed(d) && Acyclic(d)
    ensures Distinct(sorted) && Elems(sorted) == d.deps.Keys
    ensures forall i, j :: 0 <= i < |sorted| && 0 <= j < |sorted| && sorted[j] in d.deps[sorted[i]] ==> j < i
  {
    TopoOrderMeansAcyclic(d, sorted);
    DepsFirstOrders(d, sorted);
  }

  /** The source's dict comprehension over `unsorted` builds the dict that `Pass` describes. */
  lemma RebuildIsNext<K(!new)>(d: Dict<K>, sortedValues: set<K>, sortedValues': set<K>, unsorted: seq<K>)
    requires d.Valid()
    requires unsorted == Blocked(d.deps, d.order)
    requires forall v :: v in unsorted ==> v in d.deps
    requires forall x :: x in sortedValues' <==> x in sortedValues || x in Ready(d.deps, d.order)
    ensures Dict(unsorted, map v | v in unsorted :: d.deps[v] - sortedValues') == Pass(d, sortedValues).next
  {
    var step := Pass(d, sortedValues);
    assert sortedValues' == sortedValues + Elems(step.placed);
  }

  /**
   * A pass that placed something: the rebuilt dict and the extended output
   * are again a loop state, with fewer keys left; on an edgeless dict the
   * first pass places every key in dict order.
   */
  lemma AdvanceStep<K(!new)>(d: Dict<K>, start: seq<K>, deps: Dict<K>,
                             sortedList': seq<K>, sortedValues': set<K>, unsorted: seq<K>)
    requires Progressed(d, start, deps)
    requires sortedList' == start + Ready(deps.deps, deps.order) && |sortedList'| > |start|
    requires forall x :: x in sortedValues' <==> x in Elems(start) || x in Ready(deps.deps, deps.order)
    requires unsorted == Blocked(deps.deps, deps.order)
    requires forall v :: v in unsorted ==> v in deps.deps
    ensures Progressed(d, sortedList', Dict(unsorted, map v | v in unsorted :: deps.deps[v] - sortedValues'))
    ensures sortedValues' == Elems(sortedList')
    ensures |unsorted| < |deps.order|
    ensures Edgeless(d) && start == [] && deps == d ==> sortedList' == d.order && unsorted == []
    ensures Pass(deps, Elems(start)) == Step(Ready(deps.deps, deps.order), Dict(unsorted, map v | v in unsorted :: deps.deps[v] - sortedValues'))
  {
    var step := Pass(deps, Elems(start));
    PassPreserves(d, start, deps);
    RebuildIsNext(deps, Elems(start), sortedValues', unsorted);
    assert sortedValues' == Elems(sortedList');
    if Edgeless(d) && start == [] && deps == d {
      EdgelessSinglePass(deps, {});
    }
  }

  /**
   * A pass that placed nothing: the output is unchanged, the source would
   * loop forever on `deps`, and the original dict is neither edgeless nor
   * both closed and acyclic.
   */
  lemma StuckStep<K(!new)>(d: Dict<K>, start: seq<K>, deps: Dict<K>, sortedList': seq<K>)
    requires Progressed(d, start, deps) && deps.order != []
    requires sortedList' == start + Ready(deps.deps, deps.order) && |sortedList'| == |start|
    ensures sortedList' == start
    ensures !(Closed(d) && Acyclic(d)) && !Edgeless(d)
    ensures Closed(d) ==> !Acyclic(deps)
    ensures Pass(deps, Elems(sortedList')) == Step([], deps)
  {
    assert Ready(deps.deps, deps.order) == [];
    StuckPass(d, start, deps);
    if Edgeless(d) {
      EdgelessIsSortable(d);
    }
  }

  /** A dict without edges is closed and acyclic. */
  lemma EdgelessIsSortable<K(!new)>(d: Dict<K>)
    requires Edgeless(d)
    ensures Closed(d) && Acyclic(d)
  {
    forall p | IsPath(d, p) && |p| >= 2
      ensures p[1] in d.deps[p[0]]
    {
    }
  }

  /**
   * The `for` loop of one pass: walks the dict in iteration order, appends
   * each key with an empty dependency set to the output and to the sorted
   * values, and collects the other keys in `unsorted`.
   */
  method ScanPass<K(==, !new)>(deps: Dict<K>, sortedList: seq<K>, sortedValues: set<K>)
    returns (sortedList': seq<K>, sortedValues': set<K>, unsorted: seq<K>)
    requires deps.Valid()
    ensures sortedList' == sortedList + Ready(deps.deps, deps.order)
    ensures forall x :: x in sortedValues' <==> x in sortedValues || x in Ready(deps.deps, deps.order)
    ensures unsorted == Blocked(deps.deps, deps.order)
    ensures forall v :: v in unsorted ==> v in deps.deps
  {
    sortedList', sortedValues', unsorted := sortedList, sortedValues, [];
    for i := 0 to |deps.order|
      invariant sortedList' == sortedList + Ready(deps.deps, deps.order[..i])
      invariant forall x :: x in sortedValues' <==> x in sortedValues || x in Ready(deps.deps, deps.order[..i])
      invariant unsorted == Blocked(deps.deps, deps.order[..i])
    {
      var value := deps.order[i];
      ScanStep(deps.deps, deps.order, i);
      if deps.deps[value] == {} {
        sortedList' := sortedList' + [value];
        sortedValues' := sortedValues' + {value};
      } else {
        unsorted := unsorted + [value];
      }
    }
    assert deps.order[..|deps.order|] == deps.order;
    SplitMembers(deps.deps, deps.order);
  }

  /**
   * The source's `toposort`. Where the source terminates the result is
   * `Sorted` with the source's list; where a pass places nothing the source
   * loops forever, and the model stops with `Hangs` instead.
   */
  method Toposort<K(==, !new)>(d: Dict<K>) returns (r: Outcome<K>)
    requires d.Valid()
    ensures r.Sorted? <==> Closed(d) && Acyclic(d)
    ensures r.Sorted? ==> Distinct(r.order) && Elems(r.order) == d.deps.Keys
    ensures r.Sorted? ==>
              forall i, j :: 0 <= i < |r.order| && 0 <= j < |r.order| && r.order[j] in d.deps[r.order[i]] ==> j < i
    ensures r.Sorted? ==> r.order == Peel(d, [])
    ensures r.Hangs? ==> Progressed(d, r.placed, r.stuck) && r.stuck.order != [] &&
                         Pass(r.stuck, Elems(r.placed)) == Step([], r.stuck)
    ensures r.Hangs? ==> r.placed == Peel(d, [])
    ensures r.Hangs? && Closed(d) ==> !Acyclic(r.stuck)
    ensures Edgeless(d) ==> r == Sorted(d.order)
  {
    var sortedList: seq<K> := [];
    var sortedValues: set<K> := {};
    var deps := d;
    ProgressedInitially(d);
    while |deps.order| > 0
      invariant Progressed(d, sortedList, deps)
      invariant sortedValues == Elems(sortedList)
      invariant Peel(d, []) == Peel(deps, sortedList)
      invariant Edgeless(d) ==> (sortedList == [] && deps == d) || (sortedList == d.order && deps.order == [])
      decreases |deps.order|
    {
      ghost var start := sortedList;
      var placedBefore := |sortedList|;
      var unsorted;
      sortedList, sortedValues, unsorted := ScanPass(deps, sortedList, sortedValues);
      if |sortedList| == placedBefore {
        StuckStep(d, start, deps, sortedList);
        r := Hangs(sortedList, deps);
        return;
      }
      AdvanceStep(d, start, deps, sortedList, sortedValues, unsorted);
      deps := Dict(unsorted, map v | v in unsorted :: deps.deps[v] - sortedValues);
    }
    Finished(d, sortedList, deps);
    r := Sorted(sortedList);
  }
}
