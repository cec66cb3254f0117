# Registration order of a Blender plugin's classes

The plugin's registrar (`auto_load.py`) collects the plugin's classes and
registers them with Blender. A class may need another class to be
registered first. This happens when one of its annotations is a pointer or
collection property whose type is one of the plugin's classes. It also
happens when it is a panel whose `bl_parent_id` names the `bl_idname` of one
of the plugin's classes, panel or not, possibly the panel itself. The registrar turns these relations into a dict from each class to
the set of classes it waits for. It then sorts the dict with a
layer-peeling topological sort. On unload it unregisters the classes in
reverse order.

This project models that core in Dafny.

- `dep_graph.dfy` (module `DepGraph`): the dependency dict. It is a Python
  dict, modelled as an iteration order next to a map. The module also
  defines paths, cycles and the "dependencies first" property of a listing,
  with the graph lemmas the sort needs.
- `toposort.dfy` (module `TopoSort`): the sort. `Toposort` is a method with
  the source's `while` loop, and `ScanPass` holds its inner `for` loop. Both
  are proved against `Pass`, a function that describes one pass of the
  `while` loop. `Peel` chains the passes into the loop's whole output, so
  the sorted order is pinned down for every input, not only its
  dependencies-first property.
- `register_deps.dfy` (module `RegisterDeps`): which classes are the
  plugin's (`MyClasses`) and the idname dict. It also covers the two sources
  of dependencies and the loop of `get_register_deps_dict`
  (`GetRegisterDepsDict`), proved equal to the function `RegisterDepsDict`.
- `auto_load.dfy` (module `AutoLoad`): `get_ordered_classes_to_register`,
  the reversed order of `unregister`, and the self-parented panel on which
  the source's sort never ends.

Several facts about the model:

- A class is a `ClassDecl` value. It holds only what the registrar reads:
  - its identity;
  - its direct bases;
  - `is_registered`;
  - `bl_idname`;
  - `bl_parent_id`;
  - for each type hint, the class a pointer or collection property refers
    to.
- The source works on a Python set of classes, so the top-level contracts
  require distinct identities (`UniqueIds`). The set's iteration order
  (arbitrary in Python) is taken to be the order of the input sequence.
- Where the source's sort would loop forever, the model returns
  `Hangs(placed, stuck)`. This happens when a pass places no class. The
  model proves that this pass leaves the dict as it was, so the source's
  loop condition never changes.
- `iter_my_deps_from_parent_id` uses any `bl_parent_id` that is present, an
  empty string included. It does not require a non-empty idname, and the
  model follows the code.

## Model

| member | source | states |
|---|---|---|
| DepGraph.Dict.Put | auto_load.py:161 | `d[k] = v` keeps the dict well formed (unique keys, order lists exactly the keys), stores `v` under `k` and adds `k` to the keys |
| DepGraph.NoSourceMeansCycle | auto_load.py:228-236 | a nonempty set of keys in which every key depends on a key of the same set contains a cycle, so an acyclic dict always has a key the pass can place |
| DepGraph.TopoOrderMeansAcyclic | auto_load.py:225-237 | if all keys can be listed once each, every key after its dependencies, then every dependency is a key and there is no cycle |
| DepGraph.DepsFirstOrders | auto_load.py:225-237 | in such a listing every dependency sits at a smaller index than the class that depends on it |
| TopoSort.SplitMembers | auto_load.py:230-235 | the `for` loop appends exactly the keys with an empty dependency set to the output and puts exactly the others in `unsorted` |
| TopoSort.SplitLengths | auto_load.py:230-235 | every key of the dict goes to exactly one of the output and `unsorted` |
| TopoSort.SplitDistinct | auto_load.py:230-235 | neither the keys placed nor `unsorted` repeats a key |
| TopoSort.ScanStep | auto_load.py:230-235 | visiting one more key appends it to the placed keys when its dependency set is empty and to `unsorted` otherwise |
| TopoSort.AllReady | auto_load.py:230-235 | when every key has no dependency, the pass places all keys in dict order and leaves nothing |
| TopoSort.NoneReady | auto_load.py:230-235 | when every key has a dependency, the pass places nothing and leaves all keys in dict order |
| TopoSort.Pass | auto_load.py:229-236 | one pass places exactly the keys whose dependency set is empty, without repeats; the next dict is well formed and holds exactly the other keys, each with all values sorted so far removed; placed and remaining keys add up to the dict's size |
| TopoSort.AllKeysBlocked | auto_load.py:230-235 | if a pass over a dict whose dependencies are all keys places nothing, every key depends on some key |
| TopoSort.NothingReadyMeansCycle | auto_load.py:228-236 | a pass over a nonempty dict whose dependencies are all keys places nothing only if the dict has a cycle |
| TopoSort.PassPlacesOne | auto_load.py:228-236 | progress: on a nonempty acyclic dict whose dependencies are all keys, a pass places at least one key and the dict shrinks |
| TopoSort.RebuildUnchanged | auto_load.py:236 | rebuilding the dict with values that no dependency set contains gives back the same dict |
| TopoSort.StuckPassIsFixedPoint | auto_load.py:228-236 | when every key still has a dependency and none of them is sorted, a pass places nothing and rebuilds the very same dict, so the loop never ends |
| TopoSort.EdgelessSinglePass | auto_load.py:229-236 | on a dict without dependencies a single pass places every key in dict order and leaves an empty dict |
| TopoSort.TwoCycleNeverShrinks | auto_load.py:228-236 | on `{X: {Y}, Y: {X}}` the first pass places nothing and rebuilds the same dict |
| TopoSort.DepsFirstExtend | auto_load.py:231-233 | appending keys whose dependencies are all already in the output keeps the output dependencies-first |
| TopoSort.RemainderInherits | auto_load.py:236 | the rebuilt dict has only edges of the original, so it is acyclic when the original is, and its dependencies are keys when the original's are |
| TopoSort.ProgressedInitially | auto_load.py:226-228 | before the first pass, the empty output and the whole dict form a consistent loop state |
| TopoSort.PassPreserves | auto_load.py:228-236 | loop invariant: after a pass the output is still distinct and dependencies-first. The output and the remaining keys still partition the original keys, and each remaining key keeps its original dependencies minus the output |
| TopoSort.StuckPass | auto_load.py:228-236 | if a pass places nothing while keys remain, the original dict has a dependency that is not a key or has a cycle; if it is closed, the stuck remainder itself has a cycle; and the pass leaves the dict unchanged |
| TopoSort.Finished | auto_load.py:228-237 | when the loop exits, the output lists every key once, each after its dependencies, so the dict was closed and acyclic |
| TopoSort.RebuildIsNext | auto_load.py:236 | the source's comprehension over `unsorted`, with the updated `sorted_values`, builds exactly the next dict of `Pass` |
| TopoSort.AdvanceStep | auto_load.py:228-236 | a pass that placed something yields a loop state with fewer keys and keeps `sorted_values` equal to the output's elements; the `for` loop and the dict comprehension together compute exactly the one pass `Pass` describes; on an edgeless dict the first pass places every key in dict order |
| TopoSort.StuckStep | auto_load.py:228-236 | a pass that placed nothing leaves the output unchanged and leaves the dict unchanged; the original dict is then neither edgeless nor both closed and acyclic, and if it is closed the remaining dict has a cycle |
| TopoSort.EdgelessIsSortable | auto_load.py:225-237 | a dict without dependencies is closed and acyclic |
| TopoSort.ScanPass | auto_load.py:229-235 | the `for` loop appends to the output exactly the keys `Pass` places, in dict order, and adds them to `sorted_values`; it collects the other keys, in dict order, into `unsorted` |
| TopoSort.Toposort | auto_load.py:225-237 | the sort succeeds exactly when every dependency is a key and there is no cycle. On success the result lists every key once, each after its dependencies, and is exactly the pass-by-pass output `Peel` of the input (each pass's ready keys in dict order). Otherwise it returns the output of the passes so far and the remaining dict: they form a consistent loop state of the input (the output holds the other keys, dependencies first, and the remainder holds the input's unplaced keys with the placed ones removed from their sets), a pass on the remainder is a fixed point, where the source loops forever, and when every dependency is a key the remainder has a cycle. A dict without dependencies comes back in dict order |
| RegisterDeps.MyClasses | auto_load.py:193-198 | a class is kept exactly when one of its direct bases is one of the 13 registrable host types (`get_register_base_types`, lines 212-219) and it is not registered yet |
| RegisterDeps.MyClassesUniqueIds | auto_load.py:156 | filtering a set of classes gives classes with distinct identities |
| RegisterDeps.IdnameMap | auto_load.py:157 | the idname dict maps idnames only to the plugin's classes |
| RegisterDeps.IdnameMapHas | auto_load.py:157 | the last class carrying idname `n` is what the idname dict maps `n` to |
| RegisterDeps.IdnameMapOnly | auto_load.py:157 | every entry of the idname dict comes from the last class carrying that idname |
| RegisterDeps.IdnameMapLastWins | auto_load.py:157 | the idname dict maps `n` to `y` exactly when `y` is the last class whose `bl_idname` is `n` |
| RegisterDeps.DepsFromAnnotations | auto_load.py:168-173 | a class is yielded exactly when some annotation is a property whose type is that class and that class is one of the plugin's |
| RegisterDeps.DepsFromParentId | auto_load.py:185-191 | at most one class is yielded, and it is a value of the idname dict |
| RegisterDeps.RegisterDepsOf | auto_load.py:164-166 | every dependency yielded is one of the plugin's classes or a value of the idname dict |
| RegisterDeps.Entries | auto_load.py:159-161 | the dict built so far is well formed and its keys are the classes visited |
| RegisterDeps.RegisterDepsDict | auto_load.py:155-162 | the dependency dict is well formed |
| RegisterDeps.EntriesStep | auto_load.py:160-161 | visiting one more class stores that class's dependency set under its key |
| RegisterDeps.GetRegisterDepsDict | auto_load.py:155-162 | the method's loop builds exactly `RegisterDepsDict` |
| RegisterDeps.EntriesOrder | auto_load.py:159-161 | with distinct classes, the dict's iteration order is the order in which the classes were visited |
| RegisterDeps.EntriesValue | auto_load.py:159-161 | with distinct classes, each class's key holds that class's own dependency set |
| RegisterDeps.RegisterEdge | auto_load.py:164-191 | a class depends on `y` in the dict exactly when it has a property annotation whose type is `y` (one of the plugin's classes), or when it is a direct `Panel` subclass whose `bl_parent_id` is the idname of `y`, the last of the plugin's classes with that idname |
| RegisterDeps.RegisterDepsDictShape | auto_load.py:155-162 | the dict has one key per class of the plugin, in discovery order, and every dependency is itself a key |
| AutoLoad.WaitsIsEdge | auto_load.py:155-191 | every waiting relation between the plugin's classes is an edge of the dependency dict |
| AutoLoad.EdgeIsWaits | auto_load.py:155-191 | every edge of the dependency dict is a waiting relation |
| AutoLoad.NoWaitsEdgeless | auto_load.py:155-162 | when no class waits for another, the dependency dict has no dependencies |
| AutoLoad.OrderedClassesToRegister | auto_load.py:152-153 | the plugin's classes get an order exactly when the waiting relation has no cycle. That order lists each class once, every class after the classes it waits for, and is the pass-by-pass output of `toposort` on the dependency dict. Where the source never returns, the result holds the classes placed so far and the stuck remainder of the dict, a loop state of that dict on which a pass is a fixed point and which has a cycle. Without any waiting relation it is the discovery order |
| AutoLoad.UnregisterOrder | auto_load.py:116-118 | classes are unregistered in exactly the reverse of the registration order |
| AutoLoad.UnregisterDependentsFirst | auto_load.py:116-118 | unregistering in reverse removes every class before the classes it waits for |
| AutoLoad.SelfParentPanelIsMine | auto_load.py:193-198 | the panel `SELF_PT_panel`, not registered yet and alone in the list, is one of the plugin's classes, and the idname dict maps its idname to it |
| AutoLoad.SelfParentPanelDeps | auto_load.py:185-191 | the panel `SELF_PT_panel`, alone in the list, without annotations and with `bl_parent_id` equal to its own idname, depends on itself and on nothing else |
| AutoLoad.SelfParentPanelDict | auto_load.py:155-162 | the dependency dict of the list holding only `SELF_PT_panel` maps the panel to itself |
| AutoLoad.SelfLoopIsStuck | auto_load.py:228-236 | on a single key that depends on itself, a pass leaves the dict unchanged, and the dict has a cycle |
| AutoLoad.SelfParentPanelHangs | auto_load.py:228-236 | on the list holding only `SELF_PT_panel`, a pass of the source's while loop places nothing and leaves the dict unchanged, so the loop never ends; the dict has a cycle |

## Left out

- The bodies of `SvgTo3d`'s methods (auto_load.py:19-80) and `menu_func` (auto_load.py:94-95) are not modelled: `execute` drives host mesh operators and `menu_func` adds a menu entry. The `SvgTo3d` class itself is one of the classes the registrar orders (it is a direct `Operator` subclass in a scanned module, and the initial value of `ordered_classes` at auto_load.py:92); the model takes it as an ordinary `ClassDecl`, an `Operator` with no annotations and no parent id.
- Module discovery (auto_load.py:132-146) is not modelled. It imports modules from the file system.
- Collecting classes from module dictionaries (auto_load.py:200-210) is not modelled. It is runtime reflection. The model takes the discovered classes as a sequence of `ClassDecl` values.
- `get_dependency_from_annotation` (auto_load.py:175-183) is not modelled. It inspects property objects and branches on the Blender version. Each `ClassDecl` carries the already resolved class, or `None`, per type hint.
- `typing.get_type_hints` is not modelled, including the hints it collects from base classes. The resolved hints are part of the input.
- The host calls `bpy.utils.register_class`, `unregister_class` and the menu append/remove are not modelled. The per-module `register`/`unregister` hooks (auto_load.py:104-126) are not modelled either. Only the order in which classes are unregistered is modelled. `register` walks `ordered_classes` front to back, which needs no model of its own.
- `init` and the module-level globals `modules` and `ordered_classes` (auto_load.py:91-102) are not modelled. They are global state.
- The iteration order of Python sets is arbitrary. The model takes the order of the input sequence, both for the classes and for the idname dict, where a later class with the same idname wins.
- Class identity is a `ClassId` string rather than a Python class object. Host base types are identified by their `bpy.types` name.
- TopoSort.Toposort: where the source never returns, the model returns `Hangs` instead. It does not model an endless loop.
- AutoLoad.OrderedClassesToRegister: requires distinct class identities, because the source receives a set of classes.

## Findings

| source | as written | input that shows it | evidently intended | confidence | as-written member | corrected member |
|---|---|---|---|---|---|---|
| auto_load.py:228-236 | the `while` loop runs until the dict is empty and never checks that a pass placed a class | one `Panel` subclass, not yet registered, whose `bl_parent_id` equals its own `bl_idname`; its dict is `{P: {P}}` and every pass rebuilds the same dict | stop and report the classes left in a dependency cycle instead of looping forever | not executed; the model shows the pass is a fixed point on this input | AutoLoad.SelfParentPanelHangs | TopoSort.Toposort |
