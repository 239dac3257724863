/**
 * src/routes/index-routes.ts: the `RouteNodeBucket` that `createRoutes`
 * returns, and what it holds after the whole definition tree is created.
 *
 * The bucket reads the name-to-node map: `get(name)` looks a name up, `all()`
 * lists the nodes in the order their names were first registered, and
 * `definitions()` lists those nodes' definitions.  Because every definition is
 * registered as it is visited (each before its children), the node kept for a
 * name is the one for the LAST definition with that name in visiting order,
 * while its position is where that name was FIRST registered.
 */
module RouteBuckets {
  import opened Wrappers
  import opened OrderedMaps
  import opened Routes
  import Seqs

  /** The nodes at the given arena positions; a position outside the arena has no node. */
  function NodesAt(arena: seq<RouteNode>, ids: seq<nat>): (r: seq<RouteNode>)
    ensures (forall j :: 0 <= j < |ids| ==> ids[j] < |arena|) ==>
      |r| == |ids| && forall j :: 0 <= j < |ids| ==> r[j] == arena[ids[j]]
  {
    if ids == [] then []
    else (if ids[0] < |arena| then [arena[ids[0]]] else []) + NodesAt(arena, ids[1..])
  }

  /** `get(name)`: `nodeMap.get(name)`, `None` for `undefined`. */
  function BucketGet(reg: Registry, name: string): Option<RouteNode> {
    Resolve(reg.arena, Get(NodeMap(reg), name))
  }

  /** The node at a map entry's position, if there is an entry. */
  function Resolve(arena: seq<RouteNode>, position: Option<nat>): Option<RouteNode> {
    match position
    case None => None
    case Some(i) => if i < |arena| then Some(arena[i]) else None
  }

  /** `all()`: the values of `nodeMap`, in its order. */
  function BucketAll(reg: Registry): seq<RouteNode> {
    NodesAt(reg.arena, Values(NodeMap(reg)))
  }

  /** `definitions()`: the definition of each node of `all()`, in the same order. */
  function BucketDefinitions(reg: Registry): (r: seq<RouteDefinition>)
    ensures |r| == |BucketAll(reg)|
    ensures forall j :: 0 <= j < |r| ==> r[j] == BucketAll(reg)[j].route
  {
    var all := BucketAll(reg);
    seq(|all|, j requires 0 <= j < |all| => all[j].route)
  }

  /** The names of the definitions, in order. */
  function Names(defs: seq<RouteDefinition>): (r: seq<string>)
    ensures |r| == |defs| && forall i :: 0 <= i < |defs| ==> r[i] == defs[i].name
  {
    seq(|defs|, i requires 0 <= i < |defs| => defs[i].name)
  }

  /** The position of the last definition called `name`: a reference for last-write-wins. */
  function LastNamed(defs: seq<RouteDefinition>, name: string): (r: Option<nat>)
    ensures r.Some? ==> r.value < |defs| && defs[r.value].name == name
    ensures r.Some? ==> forall j :: r.value < j < |defs| ==> defs[j].name != name
    ensures r.None? ==> forall j :: 0 <= j < |defs| ==> defs[j].name != name
  {
    if defs == [] then None
    else if defs[|defs| - 1].name == name then Some(|defs| - 1)
    else LastNamed(defs[..|defs| - 1], name)
  }

  /** The last registration under `name` is the one for the last definition called `name`. */
  lemma {:induction false} LastForRegistrations(defs: seq<RouteDefinition>, base: nat, name: string)
    ensures LastFor(Registrations(defs, base), name)
         == match LastNamed(defs, name) case None => None case Some(i) => Some(base + i)
    decreases |defs|
  {
    if defs != [] {
      var init := defs[..|defs| - 1];
      var regs := Registrations(defs, base);
      assert regs[..|regs| - 1] == Registrations(init, base);
      LastForRegistrations(init, base, name);
    }
  }

  /** Sets of any entries keep a duplicate-free map duplicate-free. */
  lemma {:induction false} SetAllValid<K(!new), V>(m: OMap<K, V>, kvs: OMap<K, V>)
    requires Valid(m)
    ensures Valid(SetAll(m, kvs))
    decreases |kvs|
  {
    if kvs != [] {
      SetAllValid(m, kvs[..|kvs| - 1]);
    }
  }

  /**
   * What creating the definitions `pre` (in visiting order) leaves behind:
   * one node per definition, each for its own definition, and one
   * `nodeMap.set` per node.
   */
  ghost predicate Built(reg: Registry, pre: seq<RouteDefinition>) {
    && |reg.arena| == |pre|
    && RoutesAt(reg.arena, 0, pre)
    && reg.sets == Registrations(pre, 0)
  }

  lemma CreateRoutesShape(defs: seq<RouteDefinition>)
    ensures Built(CreateRoutes(defs), PreorderAll(defs))
  {
    var empty := Registry([], []);
    NodeForKeepsRoute();
    CreateChildrenRoutes(defs, None, empty, NodeFor);
    CreateChildrenSets(defs, None, empty, NodeFor);
  }

  /** The registered node's position for `name`, read from the map the sets build. */
  lemma NodeMapGet(reg: Registry, pre: seq<RouteDefinition>, name: string)
    requires Built(reg, pre)
    ensures Get(NodeMap(reg), name) == LastNamed(pre, name)
  {
    var regs := Registrations(pre, 0);
    var none: OMap<string, nat> := [];
    assert NodeMap(reg) == SetAll(none, regs);
    assert Get(none, name) == None;
    SetAllGet(none, regs, name);
    LastForRegistrationsFromStart(pre, name);
  }

  lemma LastForRegistrationsFromStart(defs: seq<RouteDefinition>, name: string)
    ensures LastFor(Registrations(defs, 0), name) == LastNamed(defs, name)
  {
    LastForRegistrations(defs, 0, name);
  }

  /** The map's keys are the definitions' names in the order each was first registered. */
  lemma NodeMapKeys(reg: Registry, pre: seq<RouteDefinition>)
    requires Built(reg, pre)
    ensures Valid(NodeMap(reg)) && Keys(NodeMap(reg)) == Seqs.FirstOccurrences(Names(pre), {})
  {
    var regs := Registrations(pre, 0);
    assert Keys(regs) == Names(pre);
    var none: OMap<string, nat> := [];
    SetAllKeys(none, regs);
    assert (set k | k in Keys(none)) == {};
    SetAllValid(none, regs);
  }

  /** Each entry of the map holds the position of the last definition with its name. */
  lemma NodeMapEntries(reg: Registry, pre: seq<RouteDefinition>)
    requires Built(reg, pre)
    ensures forall j :: 0 <= j < |NodeMap(reg)| ==> LastNamed(pre, NodeMap(reg)[j].0) == Some(NodeMap(reg)[j].1)
  {
    var nodeMap := NodeMap(reg);
    NodeMapKeys(reg, pre);
    forall j | 0 <= j < |nodeMap|
      ensures LastNamed(pre, nodeMap[j].0) == Some(nodeMap[j].1)
    {
      ValidGetAt(nodeMap, j);
      NodeMapGet(reg, pre, nodeMap[j].0);
    }
  }

  lemma BuiltGet(reg: Registry, pre: seq<RouteDefinition>, name: string)
    requires Built(reg, pre)
    ensures var found := BucketGet(reg, name);
      match LastNamed(pre, name)
      case None => found == None && forall i :: 0 <= i < |pre| ==> pre[i].name != name
      case Some(i) => found.Some? && found.value.route == pre[i] && found.value.route.name == name
  {
    var position := LastNamed(pre, name);
    NodeMapGet(reg, pre, name);
    assert BucketGet(reg, name) == Resolve(reg.arena, position);
    if position.Some? {
      NodeAtRoute(reg, pre, position.value);
    }
  }

  lemma NodeAtRoute(reg: Registry, pre: seq<RouteDefinition>, i: nat)
    requires Built(reg, pre) && i < |pre|
    ensures i < |reg.arena| && reg.arena[i].route == pre[i]
  {
  }

  lemma BuiltDefinitions(reg: Registry, pre: seq<RouteDefinition>)
    requires Built(reg, pre)
    ensures var order := Seqs.FirstOccurrences(Names(pre), {});
      var ds := BucketDefinitions(reg);
      && |ds| == |order|
      && forall j :: 0 <= j < |ds| ==>
           && ds[j].name == order[j]
           && LastNamed(pre, order[j]).Some?
           && ds[j] == pre[LastNamed(pre, order[j]).value]
  {
    NodeMapKeys(reg, pre);
    NodeMapEntries(reg, pre);
    DefinitionsOfEntries(reg.arena, NodeMap(reg), pre);
  }

  /**
   * The definitions of the nodes a map points at, when each entry holds the
   * position of the last definition with its key.
   */
  lemma DefinitionsOfEntries(arena: seq<RouteNode>, nodeMap: OMap<string, nat>, pre: seq<RouteDefinition>)
    requires |arena| == |pre| && RoutesAt(arena, 0, pre)
    requires forall j :: 0 <= j < |nodeMap| ==> LastNamed(pre, nodeMap[j].0) == Some(nodeMap[j].1)
    ensures var all := NodesAt(arena, Values(nodeMap));
      && |all| == |nodeMap|
      && forall j :: 0 <= j < |nodeMap| ==>
           && all[j].route.name == nodeMap[j].0
           && LastNamed(pre, nodeMap[j].0).Some?
           && all[j].route == pre[LastNamed(pre, nodeMap[j].0).value]
  {
    var ids := Values(nodeMap);
    forall j | 0 <= j < |ids| ensures ids[j] < |arena| {
      assert LastNamed(pre, nodeMap[j].0) == Some(ids[j]);
    }
  }

  /**
   * `get(name)` finds a node exactly when some definition in the tree is
   * called `name`, and then it is the node of the last such definition in
   * visiting order: a later definition, or a descendant with the same name,
   * replaces an earlier one.
   */
  lemma CreateRoutesGet(defs: seq<RouteDefinition>, name: string)
    ensures var pre := PreorderAll(defs);
      var found := BucketGet(CreateRoutes(defs), name);
      match LastNamed(pre, name)
      case None => found == None && forall i :: 0 <= i < |pre| ==> pre[i].name != name
      case Some(i) => found.Some? && found.value.route == pre[i] && found.value.route.name == name
  {
    CreateRoutesShape(defs);
    BuiltGet(CreateRoutes(defs), PreorderAll(defs), name);
  }

  /**
   * `definitions()` lists one definition per distinct name, the names in the
   * order they were first registered, and for each name the last definition
   * carrying it.
   */
  lemma CreateRoutesDefinitions(defs: seq<RouteDefinition>)
    ensures var pre := PreorderAll(defs);
      var order := Seqs.FirstOccurrences(Names(pre), {});
      var ds := BucketDefinitions(CreateRoutes(defs));
      && |ds| == |order|
      && forall j :: 0 <= j < |ds| ==>
           && ds[j].name == order[j]
           && LastNamed(pre, order[j]).Some?
           && ds[j] == pre[LastNamed(pre, order[j]).value]
  {
    CreateRoutesShape(defs);
    BuiltDefinitions(CreateRoutes(defs), PreorderAll(defs));
  }

  /** Every name of a definition in the tree is a name the bucket can look up. */
  lemma CreateRoutesNames(defs: seq<RouteDefinition>)
    ensures var pre := PreorderAll(defs);
      forall i :: 0 <= i < |pre| ==> BucketGet(CreateRoutes(defs), pre[i].name).Some?
  {
    var pre := PreorderAll(defs);
    forall i | 0 <= i < |pre| ensures BucketGet(CreateRoutes(defs), pre[i].name).Some? {
      CreateRoutesGet(defs, pre[i].name);
    }
  }
}
