/**
 * The dependency dictionary that the plugin's registrar builds and sorts:
 * a Python dict from a registrable class to the set of classes it depends
 * on. Python dicts iterate in insertion order, so the model keeps that
 * order explicitly next to the map.
 */
module DepGraph {

  /** The elements of a sequence, as a set. */
  function Elems<K(==, !new)>(s: seq<K>): (r: set<K>)
    ensures forall x :: x in r <==> x in s
  {
    set x | x in s
  }

  /** No element occurs twice. */
  predicate Distinct<K(==, !new)>(s: seq<K>)
  {
    forall i, j :: 0 <= i < j < |s| ==> s[i] != s[j]
  }

  /** Appending `x` keeps a sequence free of repeats exactly when `x` is new. */
  lemma DistinctSnoc<K(!new)>(s: seq<K>, x: K)
    ensures Distinct(s + [x]) <==> Distinct(s) && x !in s
  {
    if Distinct(s + [x]) {
      assert forall i, j :: 0 <= i < j < |s| ==> (s + [x])[i] == s[i] && (s + [x])[j] == s[j];
      assert forall i :: 0 <= i < |s| ==> (s + [x])[i] == s[i] && (s + [x])[|s|] == x;
    }
  }

  /**
   * A dict from keys to dependency sets. `order` is the iteration order of
   * the keys; `deps` holds the values.
   */
  datatype Dict<K(==, !new)> = Dict(order: seq<K>, deps: map<K, set<K>>)
  {
    /** Keys are unique and `order` lists exactly the keys of `deps`. */
    predicate Valid()
    {
      Distinct(order) && Elems(order) == deps.Keys
    }

    /**
     * `d[k] = v`: a new key goes to the end of the iteration order, an
     * existing key keeps its place and gets the new value.
     */
    function Put(k: K, v: set<K>): (r: Dict<K>)
      requires Valid()
      ensures r.Valid()
      ensures r.deps == deps[k := v]
      ensures r.deps.Keys == deps.Keys + {k}
    {
      if k in deps then Dict(order, deps[k := v])
      else
        assert Elems(order + [k]) == Elems(order) + {k};
        Dict(order + [k], deps[k := v])
    }
  }

  /** Every dependency is itself a key of the dict. */
  predicate Closed<K(==, !new)>(d: Dict<K>)
  {
    forall k {:trigger d.deps[k]} :: k in d.deps ==> d.deps[k] <= d.deps.Keys
  }

  /** No key depends on anything. */
  predicate Edgeless<K(==, !new)>(d: Dict<K>)
  {
    forall k :: k in d.deps ==> d.deps[k] == {}
  }

  /** `p` follows dependency edges: every element but the last is a key that depends on the next one. */
  ghost predicate IsPath<K(!new)>(d: Dict<K>, p: seq<K>)
  {
    |p| >= 1 && forall i :: 0 <= i < |p| - 1 ==> p[i] in d.deps && p[i + 1] in d.deps[p[i]]
  }

  /** No chain of dependencies leads from a class back to itself (a self-dependency included). */
  ghost predicate Acyclic<K(!new)>(d: Dict<K>)
  {
    forall p :: IsPath(d, p) && |p| >= 2 ==> p[0] != p[|p| - 1]
  }

  /** `s` lists keys of `d`, each one after all of its dependencies. */
  ghost predicate DepsFirst<K(!new)>(d: Dict<K>, s: seq<K>)
  {
    forall i :: 0 <= i < |s| ==> s[i] in d.deps && d.deps[s[i]] <= Elems(s[..i])
  }

  /** Key `v` depends on some member of `s`. */
  ghost predicate DependsInto<K(!new)>(d: Dict<K>, v: K, s: set<K>)
  {
    v in d.deps && d.deps[v] * s != {}
  }

  /**
   * A nonempty set of keys in which every key depends on some key of the
   * same set contains a cycle. Contrapositively: a nonempty acyclic graph
   * always has a key whose dependencies all lie outside any given set of
   * its keys.
   */
  lemma {:induction false} NoSourceMeansCycle<K(!new)>(d: Dict<K>, s: set<K>)
    requires s != {} && s <= d.deps.Keys
    requires forall v {:trigger DependsInto(d, v, s)} :: v in s ==> DependsInto(d, v, s)
    ensures !Acyclic(d)
  {
    var v :| v in s;
    WalkFindsCycle(d, s, [v]);
  }

  /** A walk whose last node depends on its `k`th node closes a cycle. */
  lemma {:induction false} ClosingWalkIsCycle<K(!new)>(d: Dict<K>, p: seq<K>, k: nat)
    requires IsPath(d, p) && k < |p|
    requires p[|p| - 1] in d.deps && p[k] in d.deps[p[|p| - 1]]
    ensures !Acyclic(d)
  {
    var q := p[k..] + [p[k]];
    forall i | 0 <= i < |q| - 1
      ensures q[i] in d.deps && q[i + 1] in d.deps[q[i]]
    {
      if i < |q| - 2 {
        assert q[i] == p[k + i] && q[i + 1] == p[k + i + 1];
      }
    }
    assert IsPath(d, q) && |q| >= 2 && q[0] == q[|q| - 1];
  }

  /**
   * Extending a walk inside `s` one edge at a time either revisits a node,
   * which closes a cycle, or visits a new node of the finite set `s`.
   */
  lemma {:induction false} WalkFindsCycle<K(!new)>(d: Dict<K>, s: set<K>, p: seq<K>)
    requires s <= d.deps.Keys
    requires forall v {:trigger DependsInto(d, v, s)} :: v in s ==> DependsInto(d, v, s)
    requires IsPath(d, p) && Elems(p) <= s
    ensures !Acyclic(d)
    decreases |s - Elems(p)|
  {
    var last := p[|p| - 1];
    assert DependsInto(d, last, s);
    var w :| w in d.deps[last] * s;
    if w in p {
      var k :| 0 <= k < |p| && p[k] == w;
      ClosingWalkIsCycle(d, p, k);
    } else {
      var p' := p + [w];
      ExtendWalk(d, p, w);
      assert Elems(p') == Elems(p) + {w};
      assert s - Elems(p') == (s - Elems(p)) - {w};
      WalkFindsCycle(d, s, p');
    }
  }

  /** A walk extended by a dependency of its last node is still a walk. */
  lemma {:induction false} ExtendWalk<K(!new)>(d: Dict<K>, p: seq<K>, w: K)
    requires IsPath(d, p) && p[|p| - 1] in d.deps && w in d.deps[p[|p| - 1]]
    ensures IsPath(d, p + [w])
  {
    var p' := p + [w];
    forall i | 0 <= i < |p'| - 1
      ensures p'[i] in d.deps && p'[i + 1] in d.deps[p'[i]]
    {
      if i < |p| - 1 {
        assert p'[i] == p[i] && p'[i + 1] == p[i + 1];
      }
    }
  }

  /**
   * Following a dependency path in a dependencies-first order leads to
   * strictly earlier positions.
   */
  lemma {:induction false} PathGoesBackward<K(!new)>(d: Dict<K>, order: seq<K>, p: seq<K>, i: nat)
    requires DepsFirst(d, order)
    requires IsPath(d, p) && |p| >= 2
    requires i < |order| && order[i] == p[0]
    ensures exists j :: 0 <= j < i && order[j] == p[|p| - 1]
    decreases |p|
  {
    assert p[1] in d.deps[order[i]];
    assert p[1] in Elems(order[..i]);
    var j :| 0 <= j < i && order[j] == p[1];
    if |p| > 2 {
      var p' := p[1..];
      assert IsPath(d, p') by {
        forall m | 0 <= m < |p'| - 1
          ensures p'[m] in d.deps && p'[m + 1] in d.deps[p'[m]]
        {
          assert p'[m] == p[m + 1] && p'[m + 1] == p[m + 2];
        }
      }
      PathGoesBackward(d, order, p', j);
    }
  }

  /**
   * A dict whose keys can be listed with each key after its dependencies,
   * every key once, has only keys as dependencies and no cycle.
   */
  lemma {:induction false} TopoOrderMeansAcyclic<K(!new)>(d: Dict<K>, order: seq<K>)
    requires Distinct(order) && Elems(order) == d.deps.Keys && DepsFirst(d, order)
    ensures Closed(d) && Acyclic(d)
  {
    forall k | k in d.deps
      ensures d.deps[k] <= d.deps.Keys
    {
      var i :| 0 <= i < |order| && order[i] == k;
      assert d.deps[order[i]] <= Elems(order[..i]);
    }
    forall p | IsPath(d, p) && |p| >= 2
      ensures p[0] != p[|p| - 1]
    {
      assert p[0] in Elems(order);
      var i :| 0 <= i < |order| && order[i] == p[0];
      PathGoesBackward(d, order, p, i);
    }
  }

  /** In a dependencies-first order of distinct keys, a dependency sits at a smaller index than its dependent. */
  lemma {:induction false} DepsFirstOrders<K(!new)>(d: Dict<K>, order: seq<K>)
    requires Distinct(order) && DepsFirst(d, order)
    ensures forall i, j :: 0 <= i < |order| && 0 <= j < |order| && order[j] in d.deps[order[i]] ==> j < i
  {
    forall i, j | 0 <= i < |order| && 0 <= j < |order| && order[j] in d.deps[order[i]]
      ensures j < i
    {
      assert order[j] in Elems(order[..i]);
      var k :| 0 <= k < i && order[k] == order[j];
    }
  }
}
