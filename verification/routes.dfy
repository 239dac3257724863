/**
 * src/routes/index-routes.ts: building the route tree from route definitions.
 *
 * Each definition becomes a node whose path is joined onto its parent's,
 * whose serializer map is its parent's overlaid with its own parameters, and
 * whose enter/exit hooks are normalised.  Every node is registered by name in
 * an insertion-ordered map before its children are built, so a later
 * definition with the same name replaces an earlier one.
 *
 * The JavaScript objects linked by `parent`/`children` references are kept in
 * an arena (a sequence of nodes, in creation order), and the links are
 * positions in it.  Hook functions are opaque ids.
 */
module Routes {
  import opened Wrappers
  import opened OrderedMaps
  import opened Paths
  import Serializers
  import Seqs

  type HookId = nat
  type SerializerMap = OMap<string, Serializers.Serializer>

  /** `RoutePipelineTrigger`: the reducers and effects run on entering or leaving a route. */
  datatype Hooks = Hooks(reducers: seq<HookId>, effects: seq<HookId>)

  /** `Partial<RoutePipelineTrigger>`: a field left out of the object literal is `None`. */
  datatype PartialHooks = PartialHooks(reducers: Option<seq<HookId>>, effects: Option<seq<HookId>>)

  /** The three kinds of route definition; `children` of a view is `[]` when left out. */
  datatype RouteDefinition =
    | View(name: string, path: string, params: SerializerMap, children: seq<RouteDefinition>,
           onEnter: Option<PartialHooks>, onExit: Option<PartialHooks>)
    | Redirect(name: string, path: string, to: string)
    | Default(name: string)

  datatype RouteNode = RouteNode(
    path: string,
    serializers: SerializerMap,
    route: RouteDefinition,
    parent: Option<nat>,
    children: seq<nat>,
    onEnter: Hooks,
    onExit: Hooks)

  /** What `createNode` reads from its `parent` argument. */
  datatype Parent = Parent(index: nat, path: string, serializers: SerializerMap)

  /** `DEFAULT_HOOKS` */
  const DefaultHooks := Hooks([], [])

  // ---------------------------------------------------------------------------
  // Hooks

  /** `normalizeHooks`: missing hooks are the defaults; present ones fill their missing fields with `[]`. */
  function NormalizeHooks(hooks: Option<PartialHooks>): Hooks {
    match hooks
    case None => DefaultHooks
    case Some(h) => Hooks(h.reducers.GetOr(DefaultHooks.reducers), h.effects.GetOr(DefaultHooks.effects))
  }

  /** Provided fields are kept as given and missing ones become empty lists. */
  lemma NormalizeHooksFills(hooks: Option<PartialHooks>)
    ensures hooks.None? ==> NormalizeHooks(hooks) == Hooks([], [])
    ensures hooks.Some? && hooks.value.reducers.Some? ==> NormalizeHooks(hooks).reducers == hooks.value.reducers.value
    ensures hooks.Some? && hooks.value.reducers.None? ==> NormalizeHooks(hooks).reducers == []
    ensures hooks.Some? && hooks.value.effects.Some? ==> NormalizeHooks(hooks).effects == hooks.value.effects.value
    ensures hooks.Some? && hooks.value.effects.None? ==> NormalizeHooks(hooks).effects == []
  {
  }

  /** The partial view of a complete set of hooks. */
  function ToPartial(h: Hooks): PartialHooks {
    PartialHooks(Some(h.reducers), Some(h.effects))
  }

  /** Normalising complete hooks gives them back, so normalising twice changes nothing. */
  lemma NormalizeHooksComplete(h: Hooks, hooks: Option<PartialHooks>)
    ensures NormalizeHooks(Some(ToPartial(h))) == h
    ensures NormalizeHooks(Some(ToPartial(NormalizeHooks(hooks)))) == NormalizeHooks(hooks)
  {
  }

  // ---------------------------------------------------------------------------
  // Nodes

  /** `parent?.path ?? '/'` */
  function ParentPath(parent: Option<Parent>): string {
    if parent.Some? then parent.value.path else "/"
  }

  /** `parent?.serializers ?? {}` */
  function ParentSerializers(parent: Option<Parent>): SerializerMap {
    if parent.Some? then parent.value.serializers else []
  }

  function ParentIndex(parent: Option<Parent>): Option<nat> {
    if parent.Some? then Some(parent.value.index) else None
  }

  /** The parameters a definition contributes: a view's `params`, nothing for the others. */
  function OwnParams(def: RouteDefinition): SerializerMap {
    if def.View? then def.params else []
  }

  function ChildrenOf(def: RouteDefinition): seq<RouteDefinition> {
    if def.View? then def.children else []
  }

  /** The node `createNode` builds for `def`, before its children are attached. */
  function NodeFor(def: RouteDefinition, parent: Option<Parent>): RouteNode {
    match def
    case Default(_) =>
      RouteNode(ParentPath(parent), ParentSerializers(parent), def, ParentIndex(parent), [], DefaultHooks, DefaultHooks)
    case _ =>
      RouteNode(
        Join(ParentPath(parent), def.path),
        SetAll(SetAll([], ParentSerializers(parent)), OwnParams(def)),
        def,
        ParentIndex(parent),
        [],
        NormalizeHooks(if def.View? then def.onEnter else None),
        NormalizeHooks(if def.View? then def.onExit else None))
  }

  /**
   * A default route shares its parent's path (`/` at top level) and
   * serializers (none at top level), and gets the default hooks.
   */
  lemma DefaultNodeCopiesParent(name: string, parent: Option<Parent>)
    ensures var node := NodeFor(Default(name), parent);
      && node.path == (if parent.Some? then parent.value.path else "/")
      && node.serializers == (if parent.Some? then parent.value.serializers else [])
      && node.onEnter == Hooks([], []) && node.onExit == Hooks([], [])
      && node.children == []
  {
  }

  /**
   * A node's serializers are its parent's overlaid by its own parameters: a
   * key it declares gets its own serializer, any other key keeps the parent's.
   */
  lemma NodeSerializersOverlay(def: RouteDefinition, parent: Option<Parent>, k: string)
    requires !def.Default?
    requires Valid(ParentSerializers(parent)) && Valid(OwnParams(def))
    ensures Get(NodeFor(def, parent).serializers, k)
         == if k in Keys(OwnParams(def)) then Get(OwnParams(def), k) else Get(ParentSerializers(parent), k)
  {
    var ps := ParentSerializers(parent);
    var own := OwnParams(def);
    SetAllGet(SetAll([], ps), own, k);
    SetAllGet([], ps, k);
    ValidLastFor(own, k);
    ValidLastFor(ps, k);
    GetSomeIffKey(own, k);
  }

  /** The parent's serializer keys come first, then the node's new ones in declaration order. */
  lemma NodeSerializerKeys(def: RouteDefinition, parent: Option<Parent>)
    requires !def.Default?
    requires Valid(ParentSerializers(parent))
    ensures Keys(NodeFor(def, parent).serializers)
         == Keys(ParentSerializers(parent))
          + Seqs.FirstOccurrences(Keys(OwnParams(def)), set k | k in Keys(ParentSerializers(parent)))
  {
    var ps := ParentSerializers(parent);
    SetAllOfValid(ps);
    SetAllKeys(ps, OwnParams(def));
  }

  /** A redirect adds no serializers and has the default hooks. */
  lemma RedirectNodeDefaults(name: string, path: string, to: string, parent: Option<Parent>)
    requires Valid(ParentSerializers(parent))
    ensures var node := NodeFor(Redirect(name, path, to), parent);
      && node.serializers == ParentSerializers(parent)
      && node.onEnter == DefaultHooks && node.onExit == DefaultHooks
      && node.path == Join(ParentPath(parent), path)
  {
    SetAllOfValid(ParentSerializers(parent));
  }

  /** Copying the entries of a duplicate-free map into an empty one gives the same map. */
  lemma {:induction false} SetAllOfValid<K(!new), V>(m: OMap<K, V>)
    requires Valid(m)
    ensures SetAll([], m) == m
    decreases |m|
  {
    if m != [] {
      var init := m[..|m| - 1];
      var (k, v) := m[|m| - 1];
      assert Keys(init) == Keys(m)[..|m| - 1];
      SetAllOfValid(init);
      assert k !in Keys(init) by {
        forall j | 0 <= j < |init| ensures Keys(init)[j] != k {
          assert Keys(m)[j] != Keys(m)[|m| - 1];
        }
      }
      SetAppends(init, k, v);
      assert m == init + [(k, v)];
    }
  }

  // ---------------------------------------------------------------------------
  // The tree

  /**
   * The arena of created nodes, and the `nodeMap.set(name, node)` calls made
   * so far, in order; the map itself is what those calls build (`NodeMap`).
   */
  datatype Registry = Registry(arena: seq<RouteNode>, sets: OMap<string, nat>)

  function NodeMap(reg: Registry): OMap<string, nat> {
    SetAll([], reg.sets)
  }

  /** Definitions in the order `createNode` visits them: each before its children. */
  function Preorder(def: RouteDefinition): (r: seq<RouteDefinition>)
    ensures |r| >= 1 && r[0] == def
    decreases def, 1
  {
    [def] + if def.View? then PreorderAll(def.children) else []
  }

  function PreorderAll(defs: seq<RouteDefinition>): seq<RouteDefinition>
    decreases defs, 0
  {
    if defs == [] then [] else Preorder(defs[0]) + PreorderAll(defs[1..])
  }

  /** The `nodeMap.set(def.name, node)` calls for definitions created from arena position `base` on. */
  function Registrations(defs: seq<RouteDefinition>, base: nat): (r: OMap<string, nat>)
    ensures |r| == |defs|
    ensures forall i :: 0 <= i < |defs| ==> r[i] == (defs[i].name, base + i)
  {
    seq(|defs|, i requires 0 <= i < |defs| => (defs[i].name, base + i))
  }

  lemma RegistrationsAppend(a: seq<RouteDefinition>, b: seq<RouteDefinition>, base: nat)
    ensures Registrations(a + b, base) == Registrations(a, base) + Registrations(b, base + |a|)
  {
  }

  /** Arena positions below `|older.arena|` hold the same nodes in `newer`. */
  ghost predicate Extends(newer: Registry, older: Registry) {
    && |older.arena| <= |newer.arena|
    && forall i :: 0 <= i < |older.arena| ==> newer.arena[i] == older.arena[i]
  }

  /** Put `node` at the end of the arena and register it under `def`'s name. */
  function Enter(def: RouteDefinition, node: RouteNode, reg: Registry): (r: Registry)
    ensures r.arena == reg.arena + [node]
    ensures r.sets == reg.sets + Registrations([def], |reg.arena|)
  {
    var entry: (string, nat) := (def.name, |reg.arena|);
    Registry(reg.arena + [node], reg.sets + [entry])
  }

  /** `node.children = ...`: only the node at `index` changes, and only in its children. */
  function SetChildren(reg: Registry, index: nat, children: seq<nat>): (r: Registry)
    requires index < |reg.arena|
    ensures r.sets == reg.sets && |r.arena| == |reg.arena|
    ensures forall i :: 0 <= i < |reg.arena| && i != index ==> r.arena[i] == reg.arena[i]
    ensures r.arena[index] == reg.arena[index].(children := children)
  {
    reg.(arena := reg.arena[index := reg.arena[index].(children := children)])
  }

  /** From arena position `base` on, the nodes are those of `defs`, in order. */
  ghost predicate RoutesAt(arena: seq<RouteNode>, base: nat, defs: seq<RouteDefinition>) {
    && base + |defs| <= |arena|
    && forall i :: 0 <= i < |defs| ==> arena[base + i].route == defs[i]
  }

  lemma RoutesAtConcat(arena: seq<RouteNode>, base: nat, a: seq<RouteDefinition>, b: seq<RouteDefinition>)
    requires RoutesAt(arena, base, a) && RoutesAt(arena, base + |a|, b)
    ensures RoutesAt(arena, base, a + b)
  {
    forall i | 0 <= i < |a + b| ensures arena[base + i].route == (a + b)[i] {
      if i >= |a| {
        assert base + i == (base + |a|) + (i - |a|);
      }
    }
  }

  lemma RoutesAtKept(newer: seq<RouteNode>, older: seq<RouteNode>, base: nat, defs: seq<RouteDefinition>)
    requires RoutesAt(older, base, defs)
    requires |older| <= |newer|
    requires forall i :: 0 <= i < |older| ==> newer[i].route == older[i].route
    ensures RoutesAt(newer, base, defs)
  {
  }

  /**
   * How `createNode` builds one node from its definition and its parent.  The
   * tree walk below is written for any builder that records the definition
   * in the node; `createRoutes` uses `NodeFor`.
   */
  type NodeBuilder = (RouteDefinition, Option<Parent>) -> RouteNode

  ghost predicate KeepsRoute(build: NodeBuilder) {
    forall def, parent :: build(def, parent).route == def
  }

  lemma NodeForKeepsRoute()
    ensures KeepsRoute(NodeFor)
  {
  }

  /**
   * `createNode(def, parent)`: the built node goes at the end of the arena and
   * is registered under its name, then its children are created with it as
   * their parent, then its `children` are set to them.  The arena grows by
   * one node per definition in `def`'s subtree and nodes already there stay.
   */
  function CreateNode(def: RouteDefinition, parent: Option<Parent>, reg: Registry, build: NodeBuilder): (res: (nat, Registry))
    ensures res.0 == |reg.arena|
    ensures |res.1.arena| == |reg.arena| + |Preorder(def)|
    ensures Extends(res.1, reg)
    decreases def, 1
  {
    var index := |reg.arena|;
    var node := build(def, parent);
    var reg1 := Enter(def, node, reg);
    if def.View? then
      var res := CreateChildren(def.children, Some(Parent(index, node.path, node.serializers)), reg1, build);
      (index, SetChildren(res.1, index, res.0))
    else if def.Redirect? then
      (index, SetChildren(reg1, index, []))
    else
      (index, reg1)
  }

  /** `def.children?.map(x => createNode(x, node))`: siblings are created in order. */
  function CreateChildren(defs: seq<RouteDefinition>, parent: Option<Parent>, reg: Registry, build: NodeBuilder): (res: (seq<nat>, Registry))
    ensures |res.0| == |defs|
    ensures |res.1.arena| == |reg.arena| + |PreorderAll(defs)|
    ensures Extends(res.1, reg)
    decreases defs, 0
  {
    if defs == [] then ([], reg)
    else
      var first := CreateNode(defs[0], parent, reg, build);
      var rest := CreateChildren(defs[1..], parent, first.1, build);
      ([first.0] + rest.0, rest.1)
  }

  /**
   * The created node is the built one with its children filled in: one
   * child per child definition of a view, and none for a redirect.  A
   * default node is returned as built, before any children are set.
   */
  lemma CreateNodeBuilds(def: RouteDefinition, parent: Option<Parent>, reg: Registry, build: NodeBuilder)
    ensures var res := CreateNode(def, parent, reg, build);
      var node := res.1.arena[res.0];
      && node == build(def, parent).(children := node.children)
      && (def.View? ==> |node.children| == |def.children|)
      && (def.Redirect? ==> node.children == [])
      && (def.Default? ==> node == build(def, parent))
  {
  }

  /** Each created node is for its own definition, in the order the definitions are visited. */
  lemma {:induction false} CreateNodeRoutes(def: RouteDefinition, parent: Option<Parent>, reg: Registry, build: NodeBuilder)
    requires KeepsRoute(build)
    ensures RoutesAt(CreateNode(def, parent, reg, build).1.arena, |reg.arena|, Preorder(def))
    decreases def, 1
  {
    var index := |reg.arena|;
    var node := build(def, parent);
    var reg1 := Enter(def, node, reg);
    assert RoutesAt(reg1.arena, index, [def]);
    if def.View? {
      var res := CreateChildren(def.children, Some(Parent(index, node.path, node.serializers)), reg1, build);
      CreateChildrenRoutes(def.children, Some(Parent(index, node.path, node.serializers)), reg1, build);
      RoutesAtKept(res.1.arena, reg1.arena, index, [def]);
      RoutesAtConcat(res.1.arena, index, [def], PreorderAll(def.children));
      RoutesAtKept(SetChildren(res.1, index, res.0).arena, res.1.arena, index, Preorder(def));
    } else {
      assert Preorder(def) == [def];
    }
  }

  lemma {:induction false} CreateChildrenRoutes(defs: seq<RouteDefinition>, parent: Option<Parent>, reg: Registry, build: NodeBuilder)
    requires KeepsRoute(build)
    ensures RoutesAt(CreateChildren(defs, parent, reg, build).1.arena, |reg.arena|, PreorderAll(defs))
    decreases defs, 0
  {
    if defs != [] {
      var first := CreateNode(defs[0], parent, reg, build);
      var rest := CreateChildren(defs[1..], parent, first.1, build);
      CreateNodeRoutes(defs[0], parent, reg, build);
      CreateChildrenRoutes(defs[1..], parent, first.1, build);
      RoutesAtKept(rest.1.arena, first.1.arena, |reg.arena|, Preorder(defs[0]));
      RoutesAtConcat(rest.1.arena, |reg.arena|, Preorder(defs[0]), PreorderAll(defs[1..]));
    }
  }

  /** Each created node is registered under its definition's name as it is created. */
  lemma {:induction false} CreateNodeSets(def: RouteDefinition, parent: Option<Parent>, reg: Registry, build: NodeBuilder)
    ensures CreateNode(def, parent, reg, build).1.sets == reg.sets + Registrations(Preorder(def), |reg.arena|)
    decreases def, 1
  {
    var index := |reg.arena|;
    var node := build(def, parent);
    var reg1 := Enter(def, node, reg);
    if def.View? {
      var children := PreorderAll(def.children);
      var res := CreateChildren(def.children, Some(Parent(index, node.path, node.serializers)), reg1, build);
      CreateChildrenSets(def.children, Some(Parent(index, node.path, node.serializers)), reg1, build);
      RegistrationsChain(reg.sets, reg1.sets, res.1.sets, [def], children, index, |reg1.arena|);
    } else {
      assert Preorder(def) == [def];
    }
  }

  lemma {:induction false} CreateChildrenSets(defs: seq<RouteDefinition>, parent: Option<Parent>, reg: Registry, build: NodeBuilder)
    ensures CreateChildren(defs, parent, reg, build).1.sets == reg.sets + Registrations(PreorderAll(defs), |reg.arena|)
    decreases defs, 0
  {
    if defs == [] {
      assert reg.sets + [] == reg.sets;
    } else {
      var first := CreateNode(defs[0], parent, reg, build);
      var rest := CreateChildren(defs[1..], parent, first.1, build);
      assert CreateChildren(defs, parent, reg, build).1 == rest.1;
      var pre0 := Preorder(defs[0]);
      var others := PreorderAll(defs[1..]);
      assert PreorderAll(defs) == pre0 + others;
      CreateNodeSets(defs[0], parent, reg, build);
      CreateChildrenSets(defs[1..], parent, first.1, build);
      RegistrationsChain(reg.sets, first.1.sets, rest.1.sets, pre0, others, |reg.arena|, |first.1.arena|);
    }
  }

  /** Registering `a` and then `b` right after it is registering `a + b`. */
  lemma RegistrationsChain(s0: OMap<string, nat>, s1: OMap<string, nat>, s2: OMap<string, nat>,
                           a: seq<RouteDefinition>, b: seq<RouteDefinition>, base: nat, mid: nat)
    requires mid == base + |a|
    requires s1 == s0 + Registrations(a, base)
    requires s2 == s1 + Registrations(b, mid)
    ensures s2 == s0 + Registrations(a + b, base)
  {
    RegistrationsAppend(a, b, base);
    ConcatAssoc(s0, Registrations(a, base), Registrations(b, base + |a|));
  }

  lemma ConcatAssoc<T>(a: seq<T>, b: seq<T>, c: seq<T>)
    ensures a + b + c == a + (b + c)
  {
  }

  /** `createRoutes(defs)`: every top-level definition is created with no parent. */
  function CreateRoutes(defs: seq<RouteDefinition>): Registry {
    CreateChildren(defs, None, Registry([], []), NodeFor).1
  }
}
