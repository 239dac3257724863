# fun-bits, modelled in Dafny

This project models the logic of the fun-bits React utility library once React, timers and
foreign libraries are removed. What remains is small, deterministic bookkeeping: a shared-state
store that batches its change notifications, an event bus, pipeline combinators over records,
route-tree construction, and a set of data-structure utilities (a segment trie, a lazy
enumerable, comparators, a bucket map, a lookup, a flag-gated pipe and the route parameter
serializers). Each JavaScript object becomes an immutable datatype, and each mutation becomes a
function that returns the new state.

Modules, one per source file (shared helpers first):

- `Wrappers`, `Seqs`, `OrderedMaps`, `Values`, `Numbers`: `Option`, sequence filtering and
  first occurrences, insertion-ordered maps (a JavaScript `Map` or the keys of a plain object),
  JavaScript values with strict (`===`) and deep (lodash `isEqual`) equality, and decimal digits.
- `SharedState` (src/shared-state/shared-state-context.tsx): the provider's `api` object and
  the batch-collapse callback. The store holds the value map, the batcher and the `changed`
  event.
- `StateKeys` (src/shared-state/symbols.ts): `createStateKey` and `propertyCompare`. A
  `Symbol` is a number issued by a registry that never issues the same number twice.
- `Batching` (src/hooks/use-batch.ts): the append / timer / flush machine. The timer firing is
  the explicit step `Tick`, and the React effect that runs on the new signal is `Flush`.
- `Events` (src/hooks/use-events.ts): `createEvent`. Handlers are opaque ids, and `fire`
  returns the calls it makes.
- `Pipeline` (src/pipeline/pipeline.ts and its Flow twin src/pipeline/pipeline.js): reducers
  over records, with the store as the api. The two `compose`s differ and are modelled apart:
  `Compose` is the TypeScript one and `ComposeFlow` is the Flow one.
- `Routes`, `RouteBuckets`, `Paths` (src/routes/index-routes.ts): `createRoutes`, `createNode`,
  `normalizeHooks`, `join`, `trimSlashes` and the returned bucket. Nodes live in an arena, and
  parent/children links are positions in it.
- `RouteParams` (src/routes/utils.ts): `groupParams` and the `:name` placeholder scan.
- `Strings` (src/utils/string.ts): `trimEnd`, and `trimStart` as its mirror (see below).
- `Tries` (src/utils/trie.ts), `Enumerable` (src/utils/enumerable.ts; the Flow twin
  src/utils/enumerable.js has the same operators and iterator and is covered by the same
  model), `Sorting` (src/utils/sort.ts), `BucketMaps` (src/utils/unique-bucket-map.ts),
  `Lookups` (src/utils/object.ts), `Pipes` (src/utils/pipe.ts) and `Serializers`
  (src/serializers/serializers.ts).

Assumptions where the code leaves something open:

- `trimStart` is imported by src/routes/index-routes.ts but is not defined in
  src/utils/string.ts. `Strings.TrimStart` is the mirror image of `trimEnd`: it removes leading
  copies of a one-character `charToTrim` and leaves the text alone for any other `charToTrim`.
- `nodeMap` in `createRoutes` is represented by the log of its `set` calls. The map itself is
  that log replayed, so a repeated name keeps its first position and takes the last node.
- The enumerable `map` operator keeps the element type, so one chain has one element type.
- Serializers, reducers, effects and comparators are Dafny functions. Route hooks and event
  handlers are opaque ids, because they are only stored and compared.

## Model

| member | source | states |
|---|---|---|
| SharedState.CreateStore | src/shared-state/shared-state-context.tsx:70-71 | A new store holds exactly the initial values, and nothing is pending or scheduled. |
| SharedState.Notify | src/shared-state/shared-state-context.tsx:91 | `notify` is true when the options are omitted, lack `notify`, or set it to true. |
| SharedState.Get | src/shared-state/shared-state-context.tsx:83-89 | A present key reads its stored value, even `undefined`. An absent key reads the key's default. |
| SharedState.Set | src/shared-state/shared-state-context.tsx:90-98 | The entry is always overwritten. A `{key, value}` change is queued iff notifying and `equals` rejects the raw previous value; otherwise the batcher is untouched. |
| SharedState.Clear | src/shared-state/shared-state-context.tsx:99-105 | The key is removed. When notifying, `{key, undefined}` is queued even for an absent key. |
| SharedState.All | src/shared-state/shared-state-context.tsx:73-82 | `all()` has exactly one entry per present key, carrying its value. |
| SharedState.GetAfterSet | src/shared-state/shared-state-context.tsx:90-93 | `get` after `set` reads the new value, with or without notification. Every other key reads as before. |
| SharedState.GetAfterClear | src/shared-state/shared-state-context.tsx:99-101 | `get` after `clear` reads the default and `all()` omits the key. Other keys are unchanged. |
| SharedState.SilentSetKeepsPending | src/shared-state/shared-state-context.tsx:95 | A `set` with `notify: false` never grows the pending list. |
| SharedState.SetDefaultOnFreshKeyNotifies | src/shared-state/shared-state-context.tsx:92-97 | The comparison is against the raw stored value. Setting an absent key to its own default therefore notifies when `equals(undefined, default)` fails. |
| SharedState.EqualSetIsSilent | src/shared-state/shared-state-context.tsx:95-97 | Setting a present key to a value its `equals` accepts queues nothing. |
| SharedState.LastOfValuesFor | src/shared-state/shared-state-context.tsx:64 | `values.at(-1)` of a key's group is the value of the last event for that key. |
| SharedState.Collapse | src/shared-state/shared-state-context.tsx:59-65 | No contract of its own. Its meaning is stated by SharedState.CollapseIsLastWriteWins: one event per distinct key, in first-appearance order, each with the key's last value. |
| SharedState.Tick | src/hooks/use-batch.ts:25-28 | The batcher's timer firing leaves the stored values, the `changed` event and the pending list alone. It disarms the timer and raises the signal iff a timer was armed or the signal was already up. |
| SharedState.CollapseIsLastWriteWins | src/shared-state/shared-state-context.tsx:57-65 | The collapse yields one event per distinct key, in order of first appearance, each with the value of the last event for that key. |
| SharedState.FireAll | src/shared-state/shared-state-context.tsx:67 | Its own contract gives the number of calls: one per event per subscriber. Which calls, in which order, is stated by SharedState.FireAllAppend and SharedState.FireAllSingle. |
| SharedState.FireAllAppend | src/shared-state/shared-state-context.tsx:67 | `forEach` fires the events in list order: firing `a + b` makes the calls of `a` followed by the calls of `b`. |
| SharedState.FireAllSingle | src/shared-state/shared-state-context.tsx:67 | Firing one event makes exactly the calls `changedEvent.fire(event)` makes: every subscriber once, in subscription order, with that event. |
| SharedState.Flush | src/shared-state/shared-state-context.tsx:57-68 | Flushing leaves the stored values and the event untouched. |
| SharedState.SetsAreCollapsedOnFlush | src/shared-state/shared-state-context.tsx:57-98 | Setting `a`, `b`, then `a` again from idle arms a timer. The flush after it fires `a = v3` then `b = v2`. |
| SharedState.CollapseExampleValues | src/shared-state/shared-state-context.tsx:57-65 | The batch `a = v1, b = v2, a = v3` collapses to `a = v3, b = v2`. |
| StateKeys.CreateStateKey | src/shared-state/symbols.ts:47-58 | The key's symbol was never issued before and is issued now. Name and default are kept. `equals` is deep equality when omitted, the property comparison for a string, and the function itself otherwise. |
| StateKeys.CreateStateKeys | src/shared-state/symbols.ts:57 | Each minted key carries its name and a symbol that is new to the registry. |
| StateKeys.MintedKeysAreDistinct | src/shared-state/symbols.ts:57 | Keys minted one after another have pairwise distinct symbols, even when their names are equal. |
| StateKeys.PropertyCompare | src/shared-state/symbols.ts:7-11 | No contract of its own. Its meaning is stated by StateKeys.CreateStateKey (the `equals` it installs for a property name) and StateKeys.PropertyCompareLaws. |
| StateKeys.PropertyCompareLaws | src/shared-state/symbols.ts:7-11 | The property comparison is symmetric. It accepts two sides only when they read the same property value, and it accepts a value against itself unless that property is `NaN`. |
| StateKeys.PropertyCompareOnMissing | src/shared-state/symbols.ts:7-11 | Two sides that both read the property as `undefined` compare equal. |
| StateKeys.PropertyCompareNullish | src/shared-state/symbols.ts:7-11 | Two nullish sides compare equal. |
| Batching.Append | src/hooks/use-batch.ts:22-29 | The item goes at the end of the pending list. A timer is armed iff none was outstanding, so at most one exists. |
| Batching.Tick | src/hooks/use-batch.ts:25-28 | The timer firing clears the timer flag and raises the signal. The pending list is unchanged. |
| Batching.FlushWith | src/hooks/use-batch.ts:12-20 | Without a signal nothing happens, and an empty list is not delivered. Otherwise the whole list is delivered once, and appends made during the callback form the next list. |
| Batching.Flush | src/hooks/use-batch.ts:12-20 | A delivery is the pending list, never empty, and leaves the list empty. Without a delivery the list is kept. |
| Batching.AppendAll | src/hooks/use-batch.ts:22-29 | A burst of appends extends the list in order and arms at most one timer. |
| Batching.BurstIsDeliveredOnce | src/hooks/use-batch.ts:12-29 | A burst from idle arms exactly one timer. After it fires, the callback receives the whole burst in order, and the batcher is idle again. |
| Batching.ReentrantAppendsGoToNextBatch | src/hooks/use-batch.ts:15-18 | Items appended while the callback runs go to the next batch, not the one being delivered. |
| Batching.StepOnce | src/hooks/use-batch.ts:12-29 | After one step, what was delivered followed by what is pending equals what was pending plus what the step appended. |
| Batching.RunDeliversEverythingInOrder | src/hooks/use-batch.ts:12-29 | Over any sequence of appends, ticks and flushes, the delivered batches followed by the pending list are exactly the appended items, in order. Each batch is non-empty. |
| Events.CreateEvent | src/hooks/use-events.ts:48-49 | A new event has no subscriber: every handler occurs zero times. |
| Events.Dispose | src/hooks/use-events.ts:59 | The disposer removes every entry of its handler, older duplicates included, and every other handler keeps its entries. Events.SubscribeThenDispose relates it to the `subscribe` that made it. |
| Events.Fire | src/hooks/use-events.ts:51-55 | `fire(arg)` calls each subscriber entry once, in subscription order, with `arg`. |
| Events.Subscribe | src/hooks/use-events.ts:57-60 | The handler is appended and duplicates are kept. The disposer is for that handler. |
| Events.Unsubscribe | src/hooks/use-events.ts:62-64 | Every entry of the handler is removed. Every other handler keeps its count. |
| Events.UnsubscribeIsFilter | src/hooks/use-events.ts:62-64 | `unsubscribe` is the order-preserving filter `sub !== cb`. |
| Events.SubscribeThenFire | src/hooks/use-events.ts:51-58 | A subscription adds one call at the end of every later fire. |
| Events.SubscribeThenDispose | src/hooks/use-events.ts:57-64 | Calling the disposer is `unsubscribe(cb)`: it also removes older duplicates. |
| Events.FireCountsLiveSubscriptions | src/hooks/use-events.ts:48-71 | After any history, a fire calls a handler once per subscription made since its last unsubscribe. It is never called again after unsubscribing unless it is re-subscribed. |
| Events.ReplayOccurrences | src/hooks/use-events.ts:57-64 | After any history, a handler is listed once per subscription made since its last unsubscribe. |
| Events.FireMultiset | src/hooks/use-events.ts:51-55 | A fire calls a handler as many times as it is listed. |
| Pipeline.CreatePipeline | src/pipeline/pipeline.ts:23-24 | A new pipeline's previous value is `{}`. |
| Pipeline.Call | src/pipeline/pipeline.ts:25-29 | A call runs `fn` on the value and the remembered previous value, returns its output and remembers it. |
| Pipeline.CallAll | src/pipeline/pipeline.ts:23-30 | Over successive calls, each call sees its input, and each call after the first sees the previous call's output as its previous value. |
| Pipeline.CallAllCallsFn | src/pipeline/pipeline.ts:25-29 | Each recorded call's output is `fn` applied to what that call saw. |
| Pipeline.PipelineThreadsPrevious | src/pipeline/pipeline.ts:23-30 | A fresh pipeline's first call sees `{}` as its previous value. |
| Pipeline.ComposeStages | src/pipeline/pipeline.ts:35-41 | Stage i gets stage i-1's output as its value. Stage 0 gets the outer previous value, and stage i≥1 gets stage i-1's input. The result is the last stage's output. |
| Pipeline.ComposeStagesCallFns | src/pipeline/pipeline.ts:37 | Each stage's output is its reducer applied to what it saw. |
| Pipeline.Compose | src/pipeline/pipeline.ts:32-42 | With no stages, the input is returned, `{}` when it is undefined. |
| Pipeline.ComposeFlowStages | src/pipeline/pipeline.js:30-40 | In the Flow version, every stage gets the composition's own previous value, because `lastValue` is never reassigned. |
| Pipeline.ComposeFlowStagesCallFns | src/pipeline/pipeline.js:35 | Each Flow stage's output is its reducer applied to what it saw. |
| Pipeline.ComposeFlow | src/pipeline/pipeline.js:30-40 | With no stages, the Flow `compose` returns its input, `{}` when it is undefined. |
| Pipeline.ComposeSingle | src/pipeline/pipeline.ts:32-42 | A one-stage composition is the stage itself, in both versions. |
| Pipeline.ComposeTwoStages | src/pipeline/pipeline.ts:35-40 | With two stages, the second gets the first's input as its previous value in TypeScript, and the outer previous value in Flow. |
| Pipeline.DecodeThenMerge | src/pipeline/pipeline.ts:32-85 | Decoding then merging lays the decoded fields over the raw record in TypeScript, and over the previous value in Flow. |
| Pipeline.ComposeTwinsDiffer | src/pipeline/pipeline.js:30-40 | A field only the previous value has survives the Flow composition and is lost by the TypeScript one. |
| Pipeline.MergeWithPrevious | src/pipeline/pipeline.ts:80-85 | The keys are the union of both records, and `value`'s entries override `prevValue`'s. |
| Pipeline.ApplyCodecs | src/pipeline/pipeline.ts:47-59 | Folding over the serializer keys adds exactly the keys whose coded value is not `undefined`, with that value, to what is already there. |
| Pipeline.CodecRec | src/pipeline/pipeline.ts:47-59 | A key is present iff it has a serializer and its coded value is not `undefined`. Its value is then the coded value. |
| Pipeline.ApplyDecoders | src/pipeline/pipeline.ts:44-60 | The result is fresh. A key is present iff it has a serializer and `decode(value[k])` is not `undefined`, and then holds that decoded value. |
| Pipeline.ApplyEncoders | src/pipeline/pipeline.ts:62-78 | The same presence rule holds with `encode`. |
| Pipeline.DecodeAfterEncode | src/pipeline/pipeline.ts:44-78 | Encoding then decoding a record whose serializer fields round-trip gives back exactly those fields. Keys without a serializer are dropped. |
| Pipeline.CodecRoundTrip | src/pipeline/pipeline.ts:47-77 | The two codec folds compose to the identity on round-tripping fields. |
| Pipeline.FieldRoundTrip | src/pipeline/pipeline.ts:52-70 | A single round-tripping field survives encoding and decoding. |
| Pipeline.IntFieldRoundTrip | src/pipeline/pipeline.ts:44-78 | An integer `page` field survives the trip through the `int` serializer. |
| Pipeline.ExecuteSideEffects | src/pipeline/pipeline.ts:91-98 | The value passes through unchanged. With no effects, the store is unchanged. |
| Pipeline.ExecuteSideEffectsAppend | src/pipeline/pipeline.ts:94-96 | Effects run in order with the same arguments: running `a` then `b` is running `a + b`. |
| Pipeline.StoreValue | src/pipeline/pipeline.ts:110-113 | The value is stored under the key and no notification is queued. Every other key reads as before. |
| Pipeline.FirstChanged | src/pipeline/pipeline.ts:123-129 | The index found is the first watched key whose value is `!==` its previous one, or the end of the list. |
| Pipeline.ClearOnChange | src/pipeline/pipeline.ts:115-131 | The returned record and api: if `keyToClear` itself changed (`!==`), the record comes back as it was. Otherwise it comes back without `keyToClear` iff some watched key changed, and is otherwise as it was. The api is not touched. That the source deletes from the very record it was handed is not modelled (see Left out). |
| Pipeline.ClearOnChangeNaN | src/pipeline/pipeline.ts:125 | A watched field holding `NaN` always counts as changed, since `NaN !== NaN`. |
| Pipeline.ClearStateOnMissing | src/pipeline/pipeline.ts:133-140 | The state key is cleared, with notification, iff `value[idKey]` is falsy. |
| Pipeline.MissingIdClearsAndNotifies | src/pipeline/pipeline.ts:133-140 | A missing id resets the state key to its default and queues `{key, undefined}`. |
| Pipeline.IfChanged | src/pipeline/pipeline.ts:142-149 | The effect runs on the field's new and old values iff they are not deep-equal. |
| Pipeline.IfChangedNaNIsUnchanged | src/pipeline/pipeline.ts:145 | A field that is `NaN` on both sides is unchanged for `ifChanged`, though `!==` calls it changed. |
| Pipeline.IfChangedWatchesOneKey | src/pipeline/pipeline.ts:145 | A field missing on both sides runs nothing, whatever else differs. |
| Pipeline.IfChangedOnAppearance | src/pipeline/pipeline.ts:145-146 | A field that appears runs the effect with the new value and `undefined`. |
| Paths.TrimSlashes | src/routes/index-routes.ts:82-84 | No contract of its own. Its meaning is stated by Paths.TrimSlashesIsCore, Paths.TrimSlashesAllSlashes and Paths.TrimSlashesIdempotent. |
| Paths.Join | src/routes/index-routes.ts:78-80 | No contract of its own. Its meaning is stated by Paths.JoinShape and Paths.JoinTopLevel. |
| Paths.TrimSlashesIsCore | src/routes/index-routes.ts:82-84 | `trimSlashes` is the slice between the leading and the trailing run of slashes. When non-empty, it neither starts nor ends with `/`. |
| Paths.LeadingSlashesCut | src/routes/index-routes.ts:83 | The `trimStart` step removes exactly the leading run of slashes. |
| Paths.TrailingSlashesCut | src/routes/index-routes.ts:83 | The `trimEnd` step removes exactly the trailing run of slashes. |
| Paths.TrimSlashesAllSlashes | src/routes/index-routes.ts:82-84 | A path made only of slashes trims to the empty string. |
| Paths.TrimSlashesIdempotent | src/routes/index-routes.ts:82-84 | Trimming twice is trimming once. |
| Paths.JoinTopLevel | src/routes/index-routes.ts:31 | A top-level path becomes `/` followed by the trimmed path. |
| Paths.JoinShape | src/routes/index-routes.ts:78-80 | The separator is the only slash at the junction. The joined path starts with `/` iff the left side trims to nothing, so nested paths lose their leading slash. |
| Routes.NormalizeHooks | src/routes/index-routes.ts:71-76 | No contract of its own. Its meaning is stated by Routes.NormalizeHooksFills and Routes.NormalizeHooksComplete. |
| Routes.NodeFor | src/routes/index-routes.ts:16-44 | No contract of its own. Its meaning is stated by Routes.DefaultNodeCopiesParent, Routes.NodeSerializersOverlay, Routes.NodeSerializerKeys and Routes.RedirectNodeDefaults. |
| Routes.CreateRoutes | src/routes/index-routes.ts:14-56 | No contract of its own. Its meaning is stated by RouteBuckets.CreateRoutesShape, RouteBuckets.CreateRoutesGet and RouteBuckets.CreateRoutesDefinitions. |
| Routes.NormalizeHooksFills | src/routes/index-routes.ts:71-76 | Missing hooks are the defaults. A partial hooks object keeps its fields and fills the missing ones with `[]`. |
| Routes.NormalizeHooksComplete | src/routes/index-routes.ts:71-76 | Complete hooks are kept as they are, and normalising twice is normalising once. |
| Routes.DefaultNodeCopiesParent | src/routes/index-routes.ts:17-28 | A default node has its parent's path (`/` at top level), its parent's serializers (none at top level), the default hooks and no children. |
| Routes.NodeSerializersOverlay | src/routes/index-routes.ts:38 | A key the route declares gets its own serializer, and any other key keeps the parent's. |
| Routes.NodeSerializerKeys | src/routes/index-routes.ts:38 | The parent's serializer keys come first, then the route's new keys in declaration order. |
| Routes.RedirectNodeDefaults | src/routes/index-routes.ts:31-41 | A redirect joins its path onto its parent's, adds no serializers and has the default hooks. |
| Routes.Registrations | src/routes/index-routes.ts:27 | The i-th registration is the i-th definition's name with its arena position. |
| Routes.Enter | src/routes/index-routes.ts:44 | A built node is appended to the arena and registered under its name. |
| Routes.SetChildren | src/routes/index-routes.ts:46 | Setting a node's children changes only that node. |
| Routes.CreateNode | src/routes/index-routes.ts:16-49 | A node goes at the end of the arena, followed by its whole subtree, and the nodes already there keep their definitions. |
| Routes.CreateChildren | src/routes/index-routes.ts:46 | Siblings are created in order, one position each, each followed by its subtree. |
| Routes.CreateNodeBuilds | src/routes/index-routes.ts:16-49 | A created node is the built node with its children attached. A view has one child per child definition, a redirect has none, and a default node is returned as built. |
| Routes.CreateNodeRoutes | src/routes/index-routes.ts:16-49 | The nodes created for a definition are for its subtree in pre-order: each node before its children. |
| Routes.CreateChildrenRoutes | src/routes/index-routes.ts:46 | The nodes created for a list of definitions are for their subtrees in pre-order. |
| Routes.CreateNodeSets | src/routes/index-routes.ts:27-46 | Each node is registered before its children are built, one `nodeMap.set` per node in pre-order. |
| Routes.CreateChildrenSets | src/routes/index-routes.ts:46-56 | The registrations made for a list of definitions follow their pre-order. |
| RouteBuckets.BucketGet | src/routes/index-routes.ts:59-61 | No contract of its own. Its meaning is stated by RouteBuckets.CreateRoutesGet: a name is found iff some definition has it, and the node found is the one for the last such definition. |
| RouteBuckets.BucketAll | src/routes/index-routes.ts:62-64 | No contract of its own. Its meaning is stated by RouteBuckets.NodeMapEntries and RouteBuckets.CreateRoutesDefinitions: one node per distinct name, in first-registration order, each for the last definition with that name. |
| RouteBuckets.BucketDefinitions | src/routes/index-routes.ts:65-67 | `definitions()` is `all()` mapped to each node's definition, in the same order. |
| RouteBuckets.LastNamed | src/routes/index-routes.ts:27-44 | The position found is that of the last definition with the name, and none means no definition has it. |
| RouteBuckets.LastForRegistrations | src/routes/index-routes.ts:27-44 | The last registration under a name is that of the last definition with the name. |
| RouteBuckets.NodeMapKeys | src/routes/index-routes.ts:15 | The map's keys are the names in the order each was first registered, each once. |
| RouteBuckets.NodeMapEntries | src/routes/index-routes.ts:15-44 | Each entry points at the last definition with its name. |
| RouteBuckets.CreateRoutesShape | src/routes/index-routes.ts:14-56 | After `createRoutes`, there is one node per definition in pre-order, each for its own definition, and one registration per node. |
| RouteBuckets.CreateRoutesGet | src/routes/index-routes.ts:58-61 | `get(name)` finds a node iff some definition in the tree has the name, and then it is the last such definition in pre-order. |
| RouteBuckets.CreateRoutesDefinitions | src/routes/index-routes.ts:62-67 | `definitions()` lists one definition per distinct name, the names in first-registration order, each the last definition with that name. |
| RouteBuckets.CreateRoutesNames | src/routes/index-routes.ts:58-61 | Every name in the tree can be looked up. |
| RouteParams.Run | src/routes/utils.ts:1 | The run read after a colon is the longest slash-free prefix. |
| RouteParams.Segments | src/routes/utils.ts:1 | A template splits into slash-free segments. |
| RouteParams.SegmentCapture | src/routes/utils.ts:1 | A segment captures at most one name, which is non-empty and follows a colon. |
| RouteParams.ScanFirstSegment | src/routes/utils.ts:1-9 | The left-to-right regex scan of a template yields the captures of its first segment, then those of the rest. |
| RouteParams.RouteArgs | src/routes/utils.ts:1-9 | No contract of its own. Its meaning is stated by RouteParams.RouteArgsArePlaceholders and RouteParams.ScanFirstSegment. |
| RouteParams.RouteArgsArePlaceholders | src/routes/utils.ts:1-9 | The captured route arguments are, in order, everything after the FIRST colon of each segment that has a colon and something after it, so a segment `a:b:c` captures `b:c`. |
| RouteParams.IsRouteArgIffPlaceholder | src/routes/utils.ts:9-13 | A key is a route argument iff it is one of those placeholder names. |
| RouteParams.NoColonNoRouteArgs | src/routes/utils.ts:9-13 | A template with no colon has no route arguments. |
| RouteParams.GroupParams | src/routes/utils.ts:8-19 | `path` holds only route arguments and `query` only other keys, and both only keys of `obj`. |
| RouteParams.GroupParamsPartitions | src/routes/utils.ts:11-18 | Every key lands in exactly one group, with its value unchanged. |
| RouteParams.GroupParamsKeyOrder | src/routes/utils.ts:11-18 | Both groups keep `obj`'s key order. |
| RouteParams.NoPlaceholdersAllQuery | src/routes/utils.ts:9-13 | With no placeholders in the template, every key goes to `query` and `path` is empty. |
| Strings.TrimEnd | src/utils/string.ts:1-9 | The result is a prefix of the text that does not end with the character. Everything cut off is that character. |
| Strings.TrimStart | src/routes/index-routes.ts:1 | The mirror of `trimEnd`: a suffix that does not start with the character, with everything cut off being that character. |
| Strings.TrimEndIsLongest | src/utils/string.ts:2-8 | `trimEnd` keeps the longest prefix that does not end with the character. |
| Strings.TrimEndIdempotent | src/utils/string.ts:2-8 | Trimming twice is trimming once. |
| Strings.TrimEndAllTrimmed | src/utils/string.ts:7-8 | Text made only of the character, or empty text, trims to `''`. |
| Strings.TrimEndMultiCharacter | src/utils/string.ts:3-4 | A `charToTrim` that is not one character leaves the text unchanged. |
| Tries.Empty | src/utils/trie.ts:22-24 | A new trie holds no value at any path, the root included. |
| Tries.Lookup | src/utils/trie.ts:26-31 | No contract of its own. It is the node that `add`'s loop reaches along `path` when every segment already exists, and Tries.AddStores and Tries.AddKeepsOthers state what `add` does to it. |
| Tries.FindChild | src/utils/trie.ts:85 | The child found is the first one with the segment, and none means no child has it. |
| Tries.Add | src/utils/trie.ts:26-33 | Adding keeps the root's segment. |
| Tries.AddStores | src/utils/trie.ts:26-33 | After `add(v, ...p)`, the node at path `p` holds `v`, overwriting any earlier value. |
| Tries.AddKeepsOthers | src/utils/trie.ts:26-33 | `add` changes no other path's value. |
| Tries.FreshHoldsNothing | src/utils/trie.ts:109 | A freshly created child holds no value at any path. |
| Tries.AddChildren | src/utils/trie.ts:106-113 | `getOrCreate` reuses an existing child in place and appends a new child at the end. |
| Tries.AddKeepsUnique | src/utils/trie.ts:106-113 | Sibling segments stay unique. |
| Tries.Matched | src/utils/trie.ts:83-99 | The matched nodes follow the segments one by one, at most one per segment. |
| Tries.MatchedIsLongestPrefix | src/utils/trie.ts:80-100 | The walk follows the longest prefix that leads somewhere. Its i-th node is the one the first i+1 segments lead to, and when it stops early one more segment leads nowhere. |
| Tries.Walk | src/utils/trie.ts:80-100 | The visitor gets one context per matched node, never the root, with the node, its index, the length, and `isLastSegment` true exactly at the final index. |
| Tries.WalkNodes | src/utils/trie.ts:83-99 | The loop passes exactly the matched nodes. |
| Tries.Collect | src/utils/trie.ts:35-43 | `collect` returns the values present along the matched prefix, in path order. |
| Tries.PresentValuesArePathValues | src/utils/trie.ts:35-43 | The values of the matched nodes are the values stored at the matched prefixes. |
| Tries.GetLeaf | src/utils/trie.ts:45-49 | `getLeaf` is the deepest node the segments lead to, even with extra segments. It is none iff the first segment is missing or there are no segments. |
| Tries.CollectNodes | src/utils/trie.ts:51-67 | `collectNodes` returns exactly the matched nodes that hold a value, in order. |
| Enumerable.Append | src/utils/enumerable.ts:107-109 | Appending an operator keeps the source and the earlier operators and adds the operator at the end. |
| Enumerable.ApplyOp | src/utils/enumerable.ts:154-181 | `filter` yields iff its predicate holds. `take` yields while its counter is below the count and answers `OperationBreak`, never `OperationRemove`, once it is not. `map` yields `f(v)` and keeps no state. `skip` removes while below the count. `distinct` yields iff the value is unseen. Counters and seen-sets advance. |
| Enumerable.Pass | src/utils/enumerable.ts:118-123 | One element's pass keeps one state per operator. |
| Enumerable.Iterate | src/utils/enumerable.ts:115-133 | An iteration yields at most one value per source element and keeps one state per operator. |
| Enumerable.IterateNoOps | src/utils/enumerable.ts:10-12 | A chain with no operators yields its source unchanged. |
| Enumerable.PassAppend | src/utils/enumerable.ts:118-123 | Passing through one more operator is passing through the others and then through it, unless an earlier one dropped the element. |
| Enumerable.IterateAppend | src/utils/enumerable.ts:115-133 | The values a chain yields with one more operator are what that operator yields over the chain's own output. An element removed earlier never reaches later operators. |
| Enumerable.Filter | src/utils/enumerable.ts:154-156 | No contract of its own. Its meaning is stated by Enumerable.FilterIsSelect. |
| Enumerable.Map | src/utils/enumerable.ts:158-160 | No contract of its own. Its meaning is stated by Enumerable.MapIsPointwise. |
| Enumerable.Take | src/utils/enumerable.ts:162-165 | No contract of its own. Its meaning is stated by Enumerable.TakeIsPrefix and Enumerable.ReiteratedTakeIsEmpty. |
| Enumerable.Skip | src/utils/enumerable.ts:167-170 | No contract of its own. Its meaning is stated by Enumerable.SkipIsSuffix. |
| Enumerable.Distinct | src/utils/enumerable.ts:172-181 | No contract of its own. Its meaning is stated by Enumerable.DistinctIsFirstOccurrences. |
| Enumerable.ToArray | src/utils/enumerable.ts:111-113 | The chain keeps its source and its number of operators. What is yielded is stated by Enumerable.IterateAppend and the per-operator lemmas. |
| Enumerable.FilterIsSelect | src/utils/enumerable.ts:154-156 | `filter` yields exactly the elements satisfying the predicate, in order. |
| Enumerable.MapIsPointwise | src/utils/enumerable.ts:158-160 | `map` yields every element transformed, in order. |
| Enumerable.TakeIsPrefix | src/utils/enumerable.ts:162-165 | `take(n)` yields the first elements that reach it, as many as its counter still allows, then ends the iteration. |
| Enumerable.SkipIsSuffix | src/utils/enumerable.ts:167-170 | `skip(n)` drops the first elements that reach it, as many as its counter still allows, and yields the rest. |
| Enumerable.DistinctIsFirstOccurrences | src/utils/enumerable.ts:172-181 | `distinct` yields the first occurrence of each value not yet seen, in order. |
| Enumerable.FilterThenTake | src/utils/enumerable.ts:118-122 | `take` after `filter` counts only the elements that passed the filter. |
| Enumerable.TakeCounterAfterPass | src/utils/enumerable.ts:162-165 | A pass over `source` leaves the `take` counter with its `count` and advances its index by at least the number of elements it yielded, which is `count - index` capped at the length of `source`, and 0 when `count - index` is negative. A source at least as long as the remaining count runs the counter out. |
| Enumerable.ReiteratedTakeIsEmpty | src/utils/enumerable.ts:107-108 | Counters live in closures. Once a chain ending in `take(n)` has been iterated over at least n elements, iterating it again yields nothing. |
| Enumerable.Find | src/utils/enumerable.ts:196-205 | A value found satisfies the predicate, and the chain keeps its shape. |
| Enumerable.FindIsFirstMatch | src/utils/enumerable.ts:196-205 | `find` returns the first yielded value that satisfies the predicate, or nothing. |
| Enumerable.First | src/utils/enumerable.ts:95-97 | A value `first()` returns is truthy. |
| Enumerable.FirstIsFirstTruthy | src/utils/enumerable.ts:95-97 | `first()` returns the first truthy yielded value, and nothing iff none is truthy. |
| Enumerable.FoldLeftCons | src/utils/enumerable.ts:188-192 | The left fold consumes its first element first. |
| Enumerable.Reduce | src/utils/enumerable.ts:183-194 | `reduce` is the left fold of the reducer over the yielded values, and it leaves the operators as a full iteration does. |
| Enumerable.GroupBy | src/utils/enumerable.ts:215-242 | One group per entry of the lookup map. The chain is left as a full iteration leaves it. The groups can be re-read (see Left out). |
| Enumerable.GroupIntoKeys | src/utils/enumerable.ts:224-236 | The groups' keys are the distinct keys in order of first occurrence. |
| Enumerable.GroupIntoValues | src/utils/enumerable.ts:234-239 | Each group holds the selected values of the elements with its key, in source order. |
| Enumerable.GroupByGroups | src/utils/enumerable.ts:215-242 | `groupBy` yields one group per distinct key, in order of first occurrence, with its values in source order. |
| Sorting.FirstNonZero | src/utils/sort.ts:5-13 | `cascade` returns the first non-zero result. It returns 0 iff every comparator ties, including when there are none. |
| Sorting.Cascade | src/utils/sort.ts:5-13 | No contract of its own. It is Sorting.FirstNonZero applied to both arguments, and Sorting.CascadeAntisymmetric states that it stays consistent. |
| Sorting.ByProperty | src/utils/sort.ts:15-21 | No contract of its own. Its meaning is stated by Sorting.ByPropertyIsByValue. |
| Sorting.ByValue | src/utils/sort.ts:23-29 | No contract of its own. Its meaning is stated by Sorting.ByValueAntisymmetric. |
| Sorting.Ordered | src/utils/sort.ts:31-48 | No contract of its own. Its meaning is stated by Sorting.OrderedComparesRanks, Sorting.OrderedTiesUseFallback, Sorting.OrderedUnlistedLast, Sorting.OrderedAntisymmetric and Sorting.OrderedTransitive. |
| Sorting.CascadeAntisymmetric | src/utils/sort.ts:5-13 | A cascade of antisymmetric comparators is antisymmetric. |
| Sorting.ByPropertyIsByValue | src/utils/sort.ts:15-29 | `byProperty` is `byValue` with the property read as the accessor: the inner comparator on the projected values. |
| Sorting.ByValueAntisymmetric | src/utils/sort.ts:23-29 | Comparing projections with an antisymmetric comparator is antisymmetric. |
| Sorting.IndexOf | src/utils/sort.ts:33-34 | `indexOf` is the first position strictly equal to the item, or -1. |
| Sorting.OrderedComparesRanks | src/utils/sort.ts:31-47 | Without a fallback, listed items compare by position, and an unlisted item sorts after every listed one and ties with other unlisted items. |
| Sorting.OrderedTiesUseFallback | src/utils/sort.ts:35-37 | Equal positions, including both unlisted, give the fallback's result. |
| Sorting.OrderedUnlistedLast | src/utils/sort.ts:39-45 | A listed item sorts before an unlisted one, whatever the fallback. |
| Sorting.OrderedAntisymmetric | src/utils/sort.ts:31-47 | Without a fallback, `ordered(l, r) = -ordered(r, l)`. |
| Sorting.OrderedTransitive | src/utils/sort.ts:31-47 | Without a fallback, `ordered` is transitive. |
| Sorting.NaNIsUnlisted | src/utils/sort.ts:33 | `NaN` is never found by `indexOf`, so it ranks as unlisted. |
| Sorting.LessTotal | src/utils/sort.ts:80 | String `<` is a strict total order. |
| Sorting.SortCalendars | src/utils/sort.ts:71-84 | `sortCalendars` never returns 0. |
| Sorting.SortCalendarsInconsistent | src/utils/sort.ts:71-84 | A calendar compared with itself gives 1, so the comparator is not antisymmetric. |
| Sorting.SortCalendarsFixedConsistent | src/utils/sort.ts:71-84 | The corrected comparator is antisymmetric, ties a calendar with itself, and agrees with the original wherever it does not tie. |
| BucketMaps.Empty | src/utils/unique-bucket-map.ts:2 | A new bucket map has no key, so `get` answers `[]` for every key. It is well formed: no key twice and no bucket with a repeat. |
| BucketMaps.SetAdd | src/utils/unique-bucket-map.ts:4 | `set.add` keeps a set free of repeats, and adds exactly the value. |
| BucketMaps.BucketFor | src/utils/unique-bucket-map.ts:34-40 | An existing bucket is returned as is. Otherwise an empty one is stored and returned. |
| BucketMaps.Add | src/utils/unique-bucket-map.ts:3-5 | The key's bucket afterwards holds `value` and every value it held before, and nothing else. Every other key's bucket is unchanged. |
| BucketMaps.GetBucket | src/utils/unique-bucket-map.ts:7-10 | No contract of its own. Its meaning is stated by BucketMaps.GetUnknown, BucketMaps.AddSemantics and BucketMaps.DeleteSemantics. |
| BucketMaps.Delete | src/utils/unique-bucket-map.ts:12-16 | `delete` answers exactly what `get` would have answered, `[]` for an unknown key. The key is gone afterwards, and every other key's bucket is unchanged. |
| BucketMaps.AddSemantics | src/utils/unique-bucket-map.ts:3-5 | After `add(k, v)`, k's bucket holds v exactly once, appended when new and left in place otherwise. Other buckets are unchanged and the map stays well formed. |
| BucketMaps.AddIdempotent | src/utils/unique-bucket-map.ts:3-5 | Adding the same value twice is adding it once. |
| BucketMaps.GetUnknown | src/utils/unique-bucket-map.ts:7-10 | `get` of an unknown key is `[]`. |
| BucketMaps.DeleteSemantics | src/utils/unique-bucket-map.ts:12-16 | `delete(k)` returns k's values (`[]` when unknown) and removes k. Other buckets keep their contents and order, an absent key leaves the key list unchanged, and the map stays well formed. |
| BucketMaps.ToMap | src/utils/unique-bucket-map.ts:30-32 | `toMap()` has the same keys, in order, and the same buckets. |
| Lookups.Lookup | src/utils/object.ts:13-23 | No contract of its own. Its meaning is stated by Lookups.LookupFallsBack and Lookups.DefaultNormalizerIsIdentity. |
| Lookups.LookupFallsBack | src/utils/object.ts:13-23 | The lookup answers the entry at the normalised key unless it is nullish, and the default key's entry otherwise. It is nullish exactly when both are. |
| Lookups.DefaultNormalizerIsIdentity | src/utils/object.ts:16 | Without a normaliser, the key is used as given. |
| Pipes.Pipe | src/utils/pipe.ts:16-21 | The pipe applies, in key order, exactly the operations that run, each to the previous result. |
| Pipes.NothingRunsIsIdentity | src/utils/pipe.ts:17-20 | With no `_` operation and no truthy flag, the pipe returns its input. |
| Pipes.BaseOpsAlwaysRun | src/utils/pipe.ts:18 | Every `_` operation runs, whatever the flags. |
| Pipes.FlagsDecide | src/utils/pipe.ts:18 | Only the truthiness of the flags of non-`_` operations decides what runs. |
| Pipes.AllRun | src/utils/pipe.ts:17-20 | When every operation runs, the pipe is their composition in key order. |
| Serializers.StringSerializer | src/serializers/serializers.ts:10 | No contract of its own. Its meaning is stated by Serializers.StringSerializerIsIdentity. |
| Serializers.IntSerializer | src/serializers/serializers.ts:11 | No contract of its own. Its meaning is stated by Serializers.IntRoundTrip, Serializers.IntDecodeUndefinedIsNaN and Serializers.IntDecodeHexPrefix. |
| Serializers.BooleanSerializer | src/serializers/serializers.ts:13 | No contract of its own. Its meaning is stated by Serializers.BooleanDecodeIsTrueOnlyForTrue and Serializers.BooleanRoundTrip. |
| Serializers.StringSerializerIsIdentity | src/serializers/serializers.ts:10 | `string` encodes and decodes as the identity, so it round-trips. |
| Serializers.BooleanDecodeIsTrueOnlyForTrue | src/serializers/serializers.ts:13 | `boolean.decode(t)` is true iff `t` is exactly `"true"`, and never `undefined`. |
| Serializers.BooleanRoundTrip | src/serializers/serializers.ts:13 | `boolean` encodes to `"true"`/`"false"` and decodes back. |
| Serializers.ParseInt | src/serializers/serializers.ts:11 | `parseInt` gives an integer or `NaN`. |
| Serializers.IntRoundTrip | src/serializers/serializers.ts:11 | `int.encode` is the decimal rendering, and `int.decode` reads it back to the same integer. |
| Serializers.IntDecodeUndefinedIsNaN | src/serializers/serializers.ts:11 | Decoding a missing parameter reads `"undefined"` and gives `NaN`. |
| Serializers.IntDecodeHexPrefix | src/serializers/serializers.ts:11 | A `0x` prefix switches `parseInt` to base 16: `"0x1A"` decodes to 26. |

## Left out

- React glue: `SharedStateContext`, the provider's rendering and `useMemo`, the `mergeState`
  subscription, `useEvent`, `useEventHandler`, `use-shared-state.ts`, `use-force-update.ts` and
  `router.tsx`. They need a component tree to run.
- Timers and frames: `setTimeout` becomes the explicit `Tick` step, and the React effect becomes
  `Flush`. `executeAsyncSideEffects` is left out: it defers to a frame, and the deferred callback
  only builds a reducer.
- URL parsing and generation (src/routes/pipeline.ts and .js): they rely on `url-parse`,
  react-router and `qs`.
- The stale src/shared-state/shared-state-context.ts copy, and the type-only files.
- lodash `isEqual` is structural equality on the modelled values. Objects are compared by
  content, and reference identity and aliasing between objects are not modelled.
- `caseInsensitive`, which uses `localeCompare`, the float and Luxon `dateTime` serializers, and
  the enumerable `sort`, which uses `Array.prototype.sort`: these are locale or engine semantics.
- `Trie.toJSON`/`replacer`, `qualifiedPath`, the nodes' `parent` links, `print`, and the demo
  pipe with its `console.log`.
- `collect` and `collectNodes` call `.flat()`. The model returns the values unflattened, which
  is the same for values that are not arrays.
- Numbers are unbounded integers plus `NaN`: JavaScript's doubles, their precision limit and
  `-0` are not modelled, so `IntRoundTrip` holds for all integers rather than for the safe range.
  Comparators return integers, and a comparator returning `NaN` is not modelled.
- `toLowerCase` is modelled on ASCII letters only, and string `<` compares code points, not
  UTF-16 code units.
- `Object.keys` puts integer-like keys first. Ordered records keep insertion order for all keys.
- `createLookup` reads own entries only. Properties inherited through the prototype are not
  modelled.
- The enumerable's closure state is shared between chains derived from one chain. The model
  keeps the state with each chain and threads it through explicitly.
- `walk`'s visitor is modelled as the list of contexts it would be handed.
- `groupParams` models the `:name` alternative of its regex. The `*` alternative matches with
  no capture, so it never adds a route argument.
- The enumerable's `map` operator is modelled as type-preserving, so one chain has one element
  type.
- Tries.Add: its own contract only keeps the root's segment. What `add` stores, and that it
  changes nothing else, is stated by Tries.AddStores and Tries.AddKeepsOthers.
- Enumerable.Pass, Enumerable.Iterate: their own contracts bound lengths only. What each
  operator yields is stated by the per-operator lemmas (Enumerable.FilterIsSelect,
  Enumerable.TakeIsPrefix and the others) and by Enumerable.IterateAppend.
- Enumerable.Find, Enumerable.First, Enumerable.GroupBy: their own contracts are partial. The
  full results are stated by Enumerable.FindIsFirstMatch, Enumerable.FirstIsFirstTruthy and
  Enumerable.GroupByGroups.
- Pipeline.Compose, Pipeline.ComposeFlow: their own contracts cover the empty composition only.
  Stage threading is stated by Pipeline.ComposeStages and Pipeline.ComposeFlowStages.
- Enumerable.GroupBy: the source returns `chain(lookup.values())`, a chain over a one-shot
  `Map` iterator, so only the first iteration of the result yields the groups and any later
  `toArray()` or `for..of` yields nothing. The model returns the groups as a sequence that can
  be read any number of times. Its only caller, the batch collapse in the shared-state provider,
  reads it once.
- SharedState.Flush: its own contract says only that stored values are kept. What is fired is
  stated by SharedState.CollapseIsLastWriteWins and SharedState.SetsAreCollapsedOnFlush.
- Serializers.ParseInt: its own contract says only that the result is a number or `NaN`. Its
  meaning on decimal text is stated by Serializers.IntRoundTrip.
- Pipeline.ClearOnChange: the source deletes `keyToClear` from the record it was handed and
  returns that same object. The TypeScript `compose` then passes that object on as the next
  stage's previous value, so the next stage sees the deletion there too. For example,
  `compose(clearOnChange('a', ['b']), mergeWithPrevious())({a: 1, b: 2}, {a: 1, b: 1})` gives
  `{b: 2}` and also removes `a` from the caller's record. The model's records are values, so
  `Pipeline.Compose` hands the next stage the record from before the delete and gives
  `{a: 1, b: 2}`. Object identity and in-place mutation are not modelled anywhere.
- Pipeline.IfChanged: the source's `ifChanged` ends with `return value`, which the model drops.
  Its type is a side effect, and it is only ever run through `executeSideEffects`, which
  ignores what each effect returns and hands back `value` itself.
- Strings.TrimEnd, Strings.Matches, Strings.TrimEndMultiCharacter: Dafny strings are sequences
  of Unicode code points, while JavaScript's `text[index]` and `.length` count UTF-16 code
  units. A `charToTrim` outside the Basic Multilingual Plane is two units long in JavaScript, so
  the source never trims it: `trimEnd("a😀", "😀")` is `"a😀"` there. In the model it is one
  character, and the result is `"a"`. For characters inside that plane the two agree.
- Sorting.ByProperty: the source reads `l[prop]` without `?.`, so a `null` or `undefined` element
  makes the comparator throw a `TypeError`. The model reads the property as `undefined` and
  calls `fn` on it. Throwing is not modelled.
- Values.OptionalProp, StateKeys.PropertyCompare: a property read on anything but an object
  gives `undefined` here. In JavaScript a primitive has properties too, for example
  `'ab'?.['length']` is 2. So a `propertyCompare` or `byProperty` on a primitive property of a
  string, number or boolean is not modelled.
- Routes.NormalizeHooks: the hooks' fields are `Option`s, so a field explicitly set to
  `undefined` is modelled as a missing field and becomes `[]`. In the source, `Object.assign`
  copies that `undefined` over the default `[]`.
- Tries.Collect, Tries.CollectNodes: the source skips a node whose value is `null` or `undefined`
  (`value != null`). The model skips only a node that holds no value. With `T = Value`, a
  stored `Null` or `Undefined` is therefore collected.

## Findings

| source | as written | input that shows it | evidently intended | confidence | as-written member | corrected member |
|---|---|---|---|---|---|---|
| src/utils/sort.ts:71-84 | When neither `primary`, `mine` nor title order decides, the comparator falls through to `return 1`, so it never answers 0. | Any calendar compared with itself gives 1, in both argument orders, so `cmp(a, a) != -cmp(a, a)`. The same holds for two calendars whose titles are equal once lower-cased. | Equal calendars tie with 0, which makes the comparator consistent, as `Array.prototype.sort` requires. | not executed | Sorting.SortCalendarsInconsistent | Sorting.SortCalendarsFixedConsistent |
