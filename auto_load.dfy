/**
 * The registrar's entry points: the order in which the plugin's classes
 * are registered, and the reverse order in which they are unregistered.
 */
module AutoLoad {
  import opened DepGraph
  import opened TopoSort
  import opened RegisterDeps

  /** Among the plugin's classes found in `decls`, class `x` waits for class `y`. */
  ghost predicate Waits(decls: seq<ClassDecl>, x: ClassId, y: ClassId)
  {
    exists i :: 0 <= i < |MyClasses(decls)| && MyClasses(decls)[i].id == x &&
                DependsOn(MyClasses(decls)[i], y, MyClasses(decls))
  }

  /** Every waiting relation is an edge of the dependency dict. */
  lemma WaitsIsEdge(decls: seq<ClassDecl>, x: ClassId, y: ClassId)
    requires UniqueIds(decls) && Waits(decls, x, y)
    ensures x in RegisterDepsDict(decls).deps && y in RegisterDepsDict(decls).deps[x]
  {
    var mine := MyClasses(decls);
    var i :| 0 <= i < |mine| && mine[i].id == x && DependsOn(mine[i], y, mine);
    RegisterDepsDictShape(decls);
    assert x == Ids(mine)[i];
    RegisterEdge(decls, i, y);
  }

  /** Every edge of the dependency dict is a waiting relation. */
  lemma EdgeIsWaits(decls: seq<ClassDecl>, i: nat, y: ClassId)
    requires UniqueIds(decls) && i < |MyClasses(decls)|
    ensures y in RegisterDepsDict(decls).deps[MyClasses(decls)[i].id] ==> Waits(decls, MyClasses(decls)[i].id, y)
  {
    RegisterEdge(decls, i, y);
  }

  /** When no class waits for another, the dependency dict has no edge. */
  lemma NoWaitsEdgeless(decls: seq<ClassDecl>)
    requires UniqueIds(decls)
    requires forall x, y :: !Waits(decls, x, y)
    ensures Edgeless(RegisterDepsDict(decls))
  {
    var mine := MyClasses(decls);
    var d := RegisterDepsDict(decls);
    RegisterDepsDictShape(decls);
    forall k | k in d.deps
      ensures d.deps[k] == {}
    {
      var i :| 0 <= i < |mine| && Ids(mine)[i] == k;
      forall y
        ensures y !in d.deps[k]
      {
        EdgeIsWaits(decls, i, y);
      }
    }
  }

  /**
   * The source's `get_ordered_classes_to_register`. When the classes do
   * not wait for each other in a cycle, the result lists each of the
   * plugin's classes once, every class after the classes it waits for, in
   * the order the passes of `toposort` produce; when they do, the source
   * never returns and the model reports `Hangs` with the classes placed so
   * far and the stuck remainder of the dict, which holds a cycle.
   */
  method OrderedClassesToRegister(decls: seq<ClassDecl>) returns (r: Outcome<ClassId>)
    requires UniqueIds(decls)
    ensures r.Sorted? <==> Acyclic(RegisterDepsDict(decls))
    ensures r.Sorted? ==> Distinct(r.order) && Elems(r.order) == Elems(Ids(MyClasses(decls)))
    ensures r.Sorted? ==>
              forall i, j :: 0 <= i < |r.order| && 0 <= j < |r.order| && Waits(decls, r.order[i], r.order[j]) ==> j < i
    ensures r.Sorted? ==> r.order == Peel(RegisterDepsDict(decls), [])
    ensures r.Hangs? ==> Progressed(RegisterDepsDict(decls), r.placed, r.stuck) && r.stuck.order != [] &&
                         Pass(r.stuck, Elems(r.placed)) == Step([], r.stuck)
    ensures r.Hangs? ==> r.placed == Peel(RegisterDepsDict(decls), []) && !Acyclic(r.stuck)
    ensures (forall x, y :: !Waits(decls, x, y)) ==> r == Sorted(Ids(MyClasses(decls)))
  {
    var g := GetRegisterDepsDict(decls);
    RegisterDepsDictShape(decls);
    r := Toposort(g);
    if r.Sorted? {
      forall i, j | 0 <= i < |r.order| && 0 <= j < |r.order| && Waits(decls, r.order[i], r.order[j])
        ensures j < i
      {
        WaitsIsEdge(decls, r.order[i], r.order[j]);
      }
    }
    if forall x, y :: !Waits(decls, x, y) {
      NoWaitsEdgeless(decls);
    }
  }

  /** The loop of the source's `unregister`: the classes in reverse registration order. */
  method UnregisterOrder(ordered: seq<ClassId>) returns (calls: seq<ClassId>)
    ensures |calls| == |ordered|
    ensures forall i :: 0 <= i < |ordered| ==> calls[i] == ordered[|ordered| - 1 - i]
  {
    calls := [];
    var i := |ordered|;
    while i > 0
      invariant 0 <= i <= |ordered|
      invariant |calls| == |ordered| - i
      invariant forall k :: 0 <= k < |calls| ==> calls[k] == ordered[|ordered| - 1 - k]
    {
      i := i - 1;
      calls := calls + [ordered[i]];
    }
  }

  /** Unregistering in reverse removes every class before the classes it waits for. */
  lemma UnregisterDependentsFirst(decls: seq<ClassDecl>, ordered: seq<ClassId>, calls: seq<ClassId>)
    requires forall i, j :: 0 <= i < |ordered| && 0 <= j < |ordered| && Waits(decls, ordered[i], ordered[j]) ==> j < i
    requires |calls| == |ordered| && forall i :: 0 <= i < |ordered| ==> calls[i] == ordered[|ordered| - 1 - i]
    ensures forall i, j :: 0 <= i < |calls| && 0 <= j < |calls| && Waits(decls, calls[i], calls[j]) ==> i < j
  {
    forall i, j | 0 <= i < |calls| && 0 <= j < |calls| && Waits(decls, calls[i], calls[j])
      ensures i < j
    {
      var n := |ordered|;
      assert Waits(decls, ordered[n - 1 - i], ordered[n - 1 - j]);
    }
  }

  /** A panel whose `bl_parent_id` is its own `bl_idname`. */
  function SelfParentPanel(): ClassDecl
  {
    ClassDecl("SELF_PT_panel", [HostType("Panel")], false, Some("SELF_PT_panel"), Some("SELF_PT_panel"), [])
  }

  /** The self-parented panel is one of the plugin's classes, and the idname dict maps its idname to it. */
  lemma SelfParentPanelIsMine()
    ensures MyClasses([SelfParentPanel()]) == [SelfParentPanel()]
    ensures IdnameMap([SelfParentPanel()]) == map["SELF_PT_panel" := "SELF_PT_panel"]
  {
    var p := SelfParentPanel();
    assert IsMine(p) by {
      assert p.bases[0] == HostType("Panel");
    }
    assert [p][..0] == [];
    assert MyClasses([p]) == MyClasses([]) + [p];
  }

  /** The dependency dict of the self-parented panel maps the panel to itself. */
  lemma SelfParentPanelDict()
    ensures RegisterDepsDict([SelfParentPanel()]) == Dict(["SELF_PT_panel"], map["SELF_PT_panel" := {"SELF_PT_panel"}])
  {
    var p := SelfParentPanel();
    SelfParentPanelIsMine();
    SelfParentPanelDeps();
    assert [p][..0] == [];
    assert Ids([p]) == [p.id];
    assert Elems([p.id]) == {p.id};
  }

  /** The self-parented panel's only dependency is itself. */
  lemma SelfParentPanelDeps()
    ensures RegisterDepsOf(SelfParentPanel(), {"SELF_PT_panel"}, map["SELF_PT_panel" := "SELF_PT_panel"]) == ["SELF_PT_panel"]
  {
    var p := SelfParentPanel();
    assert DepsFromAnnotations(p.annotationTargets, {p.id}) == [];
    assert p.bases[0] == HostType("Panel");
  }

  /**
   * On the self-parented panel a pass of the source's while loop places
   * nothing and leaves the dict as it was, so `while len(deps_dict) > 0`
   * never ends.
   */
  lemma SelfParentPanelHangs()
    ensures RegisterDepsDict([SelfParentPanel()]).order != []
    ensures Pass(RegisterDepsDict([SelfParentPanel()]), {}) == Step([], RegisterDepsDict([SelfParentPanel()]))
    ensures !Acyclic(RegisterDepsDict([SelfParentPanel()]))
  {
    SelfParentPanelDict();
    SelfLoopIsStuck("SELF_PT_panel");
  }

  /** A single key that depends on itself: a pass leaves the dict unchanged, and the dict has a cycle. */
  lemma SelfLoopIsStuck(k: ClassId)
    ensures Pass(Dict([k], map[k := {k}]), {}) == Step([], Dict([k], map[k := {k}]))
    ensures !Acyclic(Dict([k], map[k := {k}]))
  {
    var d := Dict([k], map[k := {k}]);
    assert d.Valid();
    StuckPassIsFixedPoint(d, {});
    assert IsPath(d, [k, k]);
  }
}
