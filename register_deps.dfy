/**
 * How the registrar finds the classes it must register and what each of
 * them depends on. A class is described by what the registrar reads from
 * it: its identity, its direct bases, its `is_registered` flag, its
 * `bl_idname` and `bl_parent_id` attributes, and the class each of its
 * annotations refers to (if any).
 */
module RegisterDeps {
  import opened DepGraph

  datatype Option<T> = None | Some(value: T)

  /** A class, by an identity unique to it (for instance its module together with its qualified name). */
  type ClassId = string

  /** A direct base of a class: a type of the host application (`bpy.types.Name`) or some other class. */
  datatype Base = HostType(name: string) | OtherClass(id: ClassId)

  /** The host types whose direct subclasses are registered. */
  const RegisterBaseTypes: set<Base> := {
    HostType("Panel"), HostType("Operator"), HostType("PropertyGroup"),
    HostType("AddonPreferences"), HostType("Header"), HostType("Menu"),
    HostType("Node"), HostType("NodeSocket"), HostType("NodeTree"),
    HostType("UIList"), HostType("RenderEngine"),
    HostType("Gizmo"), HostType("GizmoGroup")
  }

  /**
   * What the registrar reads from one class. `idname` and `parentId` are
   * `None` when the attribute is absent; `annotationTargets` holds, per
   * type hint, the class a pointer or collection property refers to, or
   * `None` when the hint is not such a property.
   */
  datatype ClassDecl = ClassDecl(
    id: ClassId,
    bases: seq<Base>,
    isRegistered: bool,
    idname: Option<string>,
    parentId: Option<string>,
    annotationTargets: seq<Option<ClassId>>)

  /** Some direct base is a registrable host type and the class is not registered yet. */
  predicate IsMine(c: ClassDecl)
  {
    (exists b :: b in c.bases && b in RegisterBaseTypes) && !c.isRegistered
  }

  /** The classes of the plugin that it must register, in discovery order. */
  function MyClasses(decls: seq<ClassDecl>): (r: seq<ClassDecl>)
    ensures forall c :: c in r <==> c in decls && IsMine(c)
    ensures |r| <= |decls|
    decreases |decls|
  {
    if decls == [] then []
    else
      var last := decls[|decls| - 1];
      MyClasses(decls[..|decls| - 1]) + if IsMine(last) then [last] else []
  }

  /** The identities of a list of classes. */
  function Ids(cs: seq<ClassDecl>): (r: seq<ClassId>)
    ensures |r| == |cs| && forall i :: 0 <= i < |cs| ==> r[i] == cs[i].id
    decreases |cs|
  {
    if cs == [] then [] else Ids(cs[..|cs| - 1]) + [cs[|cs| - 1].id]
  }

  /** No two classes share an identity: the list stands for a set of classes. */
  predicate UniqueIds(cs: seq<ClassDecl>)
  {
    Distinct(Ids(cs))
  }

  /** Filtering a set of classes yields a set of classes. */
  lemma {:induction false} MyClassesUniqueIds(decls: seq<ClassDecl>)
    requires UniqueIds(decls)
    ensures UniqueIds(MyClasses(decls))
    decreases |decls|
  {
    if decls != [] {
      var init, last := decls[..|decls| - 1], decls[|decls| - 1];
      DistinctSnoc(Ids(init), last.id);
      MyClassesUniqueIds(init);
      if IsMine(last) {
        var m := MyClasses(init);
        assert m + [last] == MyClasses(decls);
        assert (m + [last])[..|m|] == m;
        forall k | 0 <= k < |m|
          ensures Ids(m)[k] != last.id
        {
          assert m[k] in init;
          var j :| 0 <= j < |init| && init[j] == m[k];
          assert Ids(init)[j] == m[k].id;
        }
        DistinctSnoc(Ids(m), last.id);
      }
    }
  }

  /**
   * The dict from `bl_idname` to class, over the classes that have one.
   * The comprehension runs in list order, so a later class with the same
   * idname replaces an earlier one.
   */
  function IdnameMap(cs: seq<ClassDecl>): (r: map<string, ClassId>)
    ensures forall n :: n in r ==> r[n] in Ids(cs)
    decreases |cs|
  {
    if cs == [] then map[]
    else
      var last := cs[|cs| - 1];
      var m := IdnameMap(cs[..|cs| - 1]);
      assert forall n :: n in m ==> m[n] in Ids(cs) by {
        assert Ids(cs[..|cs| - 1]) == Ids(cs)[..|cs| - 1];
      }
      if last.idname.Some? then m[last.idname.value := last.id] else m
  }

  /** `cs[j]` is the last class of `cs` whose idname is `n`. */
  ghost predicate LastWithIdname(cs: seq<ClassDecl>, j: int, n: string)
  {
    0 <= j < |cs| && cs[j].idname == Some(n) &&
    forall k :: j < k < |cs| ==> cs[k].idname != Some(n)
  }

  /** The last class with idname `n` is what the idname dict maps `n` to. */
  lemma {:induction false} IdnameMapHas(cs: seq<ClassDecl>, j: int, n: string)
    requires LastWithIdname(cs, j, n)
    ensures n in IdnameMap(cs) && IdnameMap(cs)[n] == cs[j].id
    decreases |cs|
  {
    if j < |cs| - 1 {
      var init := cs[..|cs| - 1];
      assert LastWithIdname(init, j, n);
      IdnameMapHas(init, j, n);
    }
  }

  /** Every idname in the dict comes from the last class that has it. */
  lemma {:induction false} IdnameMapOnly(cs: seq<ClassDecl>, n: string)
    requires n in IdnameMap(cs)
    ensures exists j :: LastWithIdname(cs, j, n) && cs[j].id == IdnameMap(cs)[n]
    decreases |cs|
  {
    var init, last := cs[..|cs| - 1], cs[|cs| - 1];
    var m := IdnameMap(init);
    if last.idname == Some(n) {
      assert IdnameMap(cs) == m[n := last.id];
      assert LastWithIdname(cs, |cs| - 1, n);
    } else {
      assert n in m && IdnameMap(cs)[n] == m[n];
      IdnameMapOnly(init, n);
      var j :| LastWithIdname(init, j, n) && init[j].id == m[n];
      assert cs[j] == init[j];
      forall k | j < k < |cs|
        ensures cs[k].idname != Some(n)
      {
        if k < |cs| - 1 {
          assert cs[k] == init[k];
        }
      }
      assert LastWithIdname(cs, j, n);
    }
  }

  /** The idname dict maps `n` to `y` exactly when the last class with idname `n` is `y`. */
  lemma IdnameMapLastWins(cs: seq<ClassDecl>, n: string, y: ClassId)
    ensures (n in IdnameMap(cs) && IdnameMap(cs)[n] == y) <==>
            exists j :: LastWithIdname(cs, j, n) && cs[j].id == y
  {
    if n in IdnameMap(cs) {
      IdnameMapOnly(cs, n);
    }
    if exists j :: LastWithIdname(cs, j, n) && cs[j].id == y {
      var j :| LastWithIdname(cs, j, n) && cs[j].id == y;
      IdnameMapHas(cs, j, n);
    }
  }

  /**
   * The classes of the plugin that the annotations refer to, in hint
   * order: hints that are not pointer or collection properties, and
   * properties whose type is not one of `myIds`, yield nothing.
   */
  function DepsFromAnnotations(targets: seq<Option<ClassId>>, myIds: set<ClassId>): (r: seq<ClassId>)
    ensures forall x :: x in r <==> Some(x) in targets && x in myIds
    decreases |targets|
  {
    if targets == [] then []
    else
      var first := targets[0];
      assert forall t :: t in targets <==> t == first || t in targets[1..];
      (if first.Some? && first.value in myIds then [first.value] else []) +
      DepsFromAnnotations(targets[1..], myIds)
  }

  /** A panel's parent panel, when its `bl_parent_id` names a class of the plugin: at most one class, and one the idname dict holds. */
  function DepsFromParentId(c: ClassDecl, byIdname: map<string, ClassId>): (r: seq<ClassId>)
    ensures |r| <= 1
    ensures forall x :: x in r ==> x in byIdname.Values
  {
    if HostType("Panel") in c.bases && c.parentId.Some? && c.parentId.value in byIdname
    then [byIdname[c.parentId.value]]
    else []
  }

  /** Everything a class must wait for: its annotation dependencies, then its parent panel. */
  function RegisterDepsOf(c: ClassDecl, myIds: set<ClassId>, byIdname: map<string, ClassId>): (r: seq<ClassId>)
    ensures forall x :: x in r ==> x in myIds || x in byIdname.Values
  {
    DepsFromAnnotations(c.annotationTargets, myIds) + DepsFromParentId(c, byIdname)
  }

  /** The dict that the loop of `get_register_deps_dict` has built after visiting `cs`. */
  function Entries(cs: seq<ClassDecl>, myIds: set<ClassId>, byIdname: map<string, ClassId>): (r: Dict<ClassId>)
    ensures r.Valid()
    ensures r.deps.Keys == Elems(Ids(cs))
    decreases |cs|
  {
    if cs == [] then Dict([], map[])
    else
      var last := cs[|cs| - 1];
      assert Ids(cs) == Ids(cs[..|cs| - 1]) + [last.id];
      Entries(cs[..|cs| - 1], myIds, byIdname).Put(last.id, Elems(RegisterDepsOf(last, myIds, byIdname)))
  }

  /** The dependency dict of the plugin's classes. */
  function RegisterDepsDict(decls: seq<ClassDecl>): (r: Dict<ClassId>)
    ensures r.Valid()
  {
    var mine := MyClasses(decls);
    Entries(mine, Elems(Ids(mine)), IdnameMap(mine))
  }

  /** Visiting one more class stores its dependencies under its key. */
  lemma EntriesStep(cs: seq<ClassDecl>, myIds: set<ClassId>, byIdname: map<string, ClassId>, i: nat)
    requires i < |cs|
    ensures Entries(cs[..i + 1], myIds, byIdname) ==
            Entries(cs[..i], myIds, byIdname).Put(cs[i].id, Elems(RegisterDepsOf(cs[i], myIds, byIdname)))
  {
    assert cs[..i + 1][..i] == cs[..i];
  }

  /**
   * The source's `get_register_deps_dict`: filters the classes, builds the
   * idname dict, then fills the dependency dict one class at a time.
   */
  method GetRegisterDepsDict(decls: seq<ClassDecl>) returns (g: Dict<ClassId>)
    ensures g == RegisterDepsDict(decls)
  {
    var mine := MyClasses(decls);
    var myIds := Elems(Ids(mine));
    var byIdname := IdnameMap(mine);
    g := Dict([], map[]);
    for i := 0 to |mine|
      invariant g == Entries(mine[..i], myIds, byIdname)
    {
      EntriesStep(mine, myIds, byIdname, i);
      g := g.Put(mine[i].id, Elems(RegisterDepsOf(mine[i], myIds, byIdname)));
    }
    assert mine[..|mine|] == mine;
  }

  /** With distinct identities every class becomes a new key, in list order. */
  lemma {:induction false} EntriesOrder(cs: seq<ClassDecl>, myIds: set<ClassId>, byIdname: map<string, ClassId>)
    requires UniqueIds(cs)
    ensures Entries(cs, myIds, byIdname).order == Ids(cs)
    decreases |cs|
  {
    if cs != [] {
      var init, last := cs[..|cs| - 1], cs[|cs| - 1];
      DistinctSnoc(Ids(init), last.id);
      EntriesOrder(init, myIds, byIdname);
    }
  }

  /** With distinct identities every class's key holds that class's own dependencies. */
  lemma {:induction false} EntriesValue(cs: seq<ClassDecl>, myIds: set<ClassId>, byIdname: map<string, ClassId>, i: nat)
    requires UniqueIds(cs) && i < |cs|
    ensures Entries(cs, myIds, byIdname).deps[cs[i].id] == Elems(RegisterDepsOf(cs[i], myIds, byIdname))
    decreases |cs|
  {
    var init, last := cs[..|cs| - 1], cs[|cs| - 1];
    if i < |cs| - 1 {
      DistinctSnoc(Ids(init), last.id);
      assert Ids(init)[i] == cs[i].id;
      EntriesValue(init, myIds, byIdname, i);
    }
  }

  /** `c` depends on `y` through a pointer or collection property whose type is one of the plugin's classes. */
  ghost predicate AnnotationEdge(c: ClassDecl, y: ClassId, mine: seq<ClassDecl>)
  {
    Some(y) in c.annotationTargets && y in Ids(mine)
  }

  /** `c` is a panel whose `bl_parent_id` is the idname of `y`, the last of the plugin's classes with that idname. */
  ghost predicate ParentEdge(c: ClassDecl, y: ClassId, mine: seq<ClassDecl>)
  {
    HostType("Panel") in c.bases && c.parentId.Some? &&
    exists j :: LastWithIdname(mine, j, c.parentId.value) && mine[j].id == y
  }

  /** `c` waits for `y`: through an annotation or as its parent panel. */
  ghost predicate DependsOn(c: ClassDecl, y: ClassId, mine: seq<ClassDecl>)
  {
    AnnotationEdge(c, y, mine) || ParentEdge(c, y, mine)
  }

  /** A class of the plugin depends on `y` in the dict exactly when it waits for `y`. */
  lemma RegisterEdge(decls: seq<ClassDecl>, i: nat, y: ClassId)
    requires UniqueIds(decls) && i < |MyClasses(decls)|
    ensures y in RegisterDepsDict(decls).deps[MyClasses(decls)[i].id] <==>
            DependsOn(MyClasses(decls)[i], y, MyClasses(decls))
  {
    var mine := MyClasses(decls);
    var c := mine[i];
    MyClassesUniqueIds(decls);
    EntriesValue(mine, Elems(Ids(mine)), IdnameMap(mine), i);
    if c.parentId.Some? {
      IdnameMapLastWins(mine, c.parentId.value, y);
    }
  }

  /**
   * The dependency dict has one key per class of the plugin, in discovery
   * order, and every dependency is itself such a key.
   */
  lemma RegisterDepsDictShape(decls: seq<ClassDecl>)
    requires UniqueIds(decls)
    ensures RegisterDepsDict(decls).order == Ids(MyClasses(decls))
    ensures Closed(RegisterDepsDict(decls))
  {
    var mine := MyClasses(decls);
    var myIds, byIdname := Elems(Ids(mine)), IdnameMap(mine);
    var d := RegisterDepsDict(decls);
    MyClassesUniqueIds(decls);
    EntriesOrder(mine, myIds, byIdname);
    forall k | k in d.deps
      ensures d.deps[k] <= d.deps.Keys
    {
      var i :| 0 <= i < |mine| && Ids(mine)[i] == k;
      EntriesValue(mine, myIds, byIdname, i);
      forall x | x in d.deps[k]
        ensures x in d.deps.Keys
      {
        assert x in RegisterDepsOf(mine[i], myIds, byIdname);
      }
    }
  }
}
