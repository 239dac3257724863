/**
 * src/pipeline/pipeline.ts and its Flow twin src/pipeline/pipeline.js: small
 * combinators that turn a record into the next record, given the previous
 * output and an api whose only member is the shared-state store.  A reducer
 * returns the next record and the store as it left it; a side effect returns
 * only the store.
 */
module Pipeline {
  import opened Wrappers
  import opened Values
  import opened OrderedMaps
  import opened StateKeys
  import Serializers
  import SharedState

  type Store = SharedState.Store

  /** `PipelineReducer`: `(value, previousValue, api) => next`. */
  type Reducer = (Rec, Rec, Store) -> (Rec, Store)

  /** `PipelineSideEffect`: `(value, previousValue, api) => void`. */
  type SideEffect = (Rec, Rec, Store) -> Store

  /** The effect `ifChanged` wraps, which receives single field values. */
  type FieldEffect = (Value, Value, Store) -> Store

  /** `SerializerMap`: a plain object from keys to serializers, in key order. */
  type SerializerMap = OMap<string, Serializers.Serializer>

  /** The closure returned by `createPipeline`, with its `previousValue`. */
  datatype PipelineInstance = PipelineInstance(fn: Reducer, previousValue: Rec)

  /** `createPipeline(api, fn)`: the first call sees `{}` as its previous value. */
  function CreatePipeline(fn: Reducer): (p: PipelineInstance)
    ensures p.previousValue == map[]
  {
    PipelineInstance(fn, map[])
  }

  /** Calling the pipeline once: run `fn` and remember its output. */
  function Call(p: PipelineInstance, value: Rec, api: Store): (res: (Rec, PipelineInstance, Store))
    ensures (res.0, res.2) == p.fn(value, p.previousValue, api)
    ensures res.1 == p.(previousValue := res.0)
  {
    var (next, api') := p.fn(value, p.previousValue, api);
    (next, p.(previousValue := next), api')
  }

  /** What one call of a reducer saw and produced. */
  datatype CallRecord = CallRecord(value: Rec, previousValue: Rec, api: Store, output: Rec)

  /** Calling the pipeline on each input in turn. */
  function CallAll(p: PipelineInstance, inputs: seq<Rec>, api: Store): (res: (seq<CallRecord>, PipelineInstance, Store))
    ensures |res.0| == |inputs|
    ensures forall i :: 0 <= i < |inputs| ==> res.0[i].value == inputs[i]
    ensures inputs != [] ==> res.0[0].previousValue == p.previousValue && res.0[0].api == api
    ensures forall i :: 0 < i < |inputs| ==> res.0[i].previousValue == res.0[i - 1].output
    ensures res.1.fn == p.fn
    ensures res.1.previousValue == if inputs == [] then p.previousValue else res.0[|inputs| - 1].output
    decreases |inputs|
  {
    if inputs == [] then ([], p, api)
    else
      var (out, p1, api1) := Call(p, inputs[0], api);
      var (rest, p2, api2) := CallAll(p1, inputs[1..], api1);
      var calls := [CallRecord(inputs[0], p.previousValue, api, out)] + rest;
      assert forall i :: 0 < i < |inputs| ==> calls[i] == rest[i - 1];
      assert p1.previousValue == out;
      assert |inputs| > 1 ==> calls[1].previousValue == calls[0].output;
      assert |inputs| > 1 ==> calls[|inputs| - 1] == rest[|rest| - 1];
      (calls, p2, api2)
  }

  /** Every recorded call is a call of `fn` on what it saw. */
  lemma {:induction false} CallAllCallsFn(p: PipelineInstance, inputs: seq<Rec>, api: Store, i: nat)
    requires i < |inputs|
    ensures var calls := CallAll(p, inputs, api).0;
      calls[i].output == p.fn(calls[i].value, calls[i].previousValue, calls[i].api).0
    decreases i
  {
    var (out, p1, api1) := Call(p, inputs[0], api);
    if i > 0 {
      CallAllCallsFn(p1, inputs[1..], api1, i - 1);
      var calls := CallAll(p, inputs, api).0;
      assert calls[i] == CallAll(p1, inputs[1..], api1).0[i - 1];
    }
  }

  /** A fresh pipeline feeds `{}` first, then each output back in as the next previous value. */
  lemma PipelineThreadsPrevious(fn: Reducer, inputs: seq<Rec>, api: Store)
    requires inputs != []
    ensures var calls := CallAll(CreatePipeline(fn), inputs, api).0;
      calls[0].previousValue == map[] &&
      forall i :: 0 < i < |calls| ==> calls[i].previousValue == calls[i - 1].output
  {
  }

  /** What one stage of a composition saw and produced. */
  datatype StageCall = StageCall(value: Rec, previousValue: Rec, api: Store, output: Rec)

  /**
   * The `fns.reduce` of the TypeScript `compose`, from stage `fns[0]` on:
   * each stage gets the previous stage's output as its value and, after it
   * runs, `lastValue` becomes the value that stage was given.
   */
  function ComposeStages(fns: seq<Reducer>, value: Rec, lastValue: Rec, api: Store): (res: (Rec, Store, seq<StageCall>))
    ensures |res.2| == |fns|
    ensures fns == [] ==> res.0 == value && res.1 == api
    ensures fns != [] ==> res.2[0].value == value && res.2[0].previousValue == lastValue && res.2[0].api == api
    ensures fns != [] ==> res.0 == res.2[|fns| - 1].output
    ensures forall i :: 0 < i < |fns| ==> res.2[i].value == res.2[i - 1].output
    ensures forall i :: 0 < i < |fns| ==> res.2[i].previousValue == res.2[i - 1].value
    decreases |fns|
  {
    if fns == [] then (value, api, [])
    else
      var (newValue, api1) := fns[0](value, lastValue, api);
      var (result, api2, rest) := ComposeStages(fns[1..], newValue, value, api1);
      var calls := [StageCall(value, lastValue, api, newValue)] + rest;
      assert forall i :: 0 < i < |fns| ==> calls[i] == rest[i - 1];
      (result, api2, calls)
  }

  /** Stage `i` of the TypeScript composition is a call of `fns[i]` on what it saw. */
  lemma {:induction false} ComposeStagesCallFns(fns: seq<Reducer>, value: Rec, lastValue: Rec, api: Store, i: nat)
    requires i < |fns|
    ensures var calls := ComposeStages(fns, value, lastValue, api).2;
      calls[i].output == fns[i](calls[i].value, calls[i].previousValue, calls[i].api).0
    decreases i
  {
    var (newValue, api1) := fns[0](value, lastValue, api);
    if i > 0 {
      ComposeStagesCallFns(fns[1..], newValue, value, api1, i - 1);
      assert ComposeStages(fns, value, lastValue, api).2[i] == ComposeStages(fns[1..], newValue, value, api1).2[i - 1];
    }
  }

  /** `compose(...fns)(value = {}, prevValue = {}, api)`; `None` stands for `undefined`. */
  function Compose(fns: seq<Reducer>, value: Option<Rec>, prevValue: Option<Rec>, api: Store): (res: (Rec, Store))
    ensures fns == [] ==> res == (value.GetOr(map[]), api)
  {
    var (result, api', _) := ComposeStages(fns, value.GetOr(map[]), prevValue.GetOr(map[]), api);
    (result, api')
  }

  /**
   * The Flow `compose`: `lastValue` is never reassigned, so every stage gets
   * the composition's own `prevValue` as its previous value.
   */
  function ComposeFlowStages(fns: seq<Reducer>, value: Rec, lastValue: Rec, api: Store): (res: (Rec, Store, seq<StageCall>))
    ensures |res.2| == |fns|
    ensures fns == [] ==> res.0 == value && res.1 == api
    ensures fns != [] ==> res.2[0].value == value && res.2[0].api == api
    ensures fns != [] ==> res.0 == res.2[|fns| - 1].output
    ensures forall i :: 0 < i < |fns| ==> res.2[i].value == res.2[i - 1].output
    ensures forall i :: 0 <= i < |fns| ==> res.2[i].previousValue == lastValue
    decreases |fns|
  {
    if fns == [] then (value, api, [])
    else
      var (newValue, api1) := fns[0](value, lastValue, api);
      var (result, api2, rest) := ComposeFlowStages(fns[1..], newValue, lastValue, api1);
      var calls := [StageCall(value, lastValue, api, newValue)] + rest;
      assert forall i :: 0 < i < |fns| ==> calls[i] == rest[i - 1];
      (result, api2, calls)
  }

  /** Stage `i` of the Flow composition is a call of `fns[i]` on what it saw. */
  lemma {:induction false} ComposeFlowStagesCallFns(fns: seq<Reducer>, value: Rec, lastValue: Rec, api: Store, i: nat)
    requires i < |fns|
    ensures var calls := ComposeFlowStages(fns, value, lastValue, api).2;
      calls[i].output == fns[i](calls[i].value, calls[i].previousValue, calls[i].api).0
    decreases i
  {
    var (newValue, api1) := fns[0](value, lastValue, api);
    if i > 0 {
      ComposeFlowStagesCallFns(fns[1..], newValue, lastValue, api1, i - 1);
      assert ComposeFlowStages(fns, value, lastValue, api).2[i] == ComposeFlowStages(fns[1..], newValue, lastValue, api1).2[i - 1];
    }
  }

  function ComposeFlow(fns: seq<Reducer>, value: Option<Rec>, prevValue: Option<Rec>, api: Store): (res: (Rec, Store))
    ensures fns == [] ==> res == (value.GetOr(map[]), api)
  {
    var (result, api', _) := ComposeFlowStages(fns, value.GetOr(map[]), prevValue.GetOr(map[]), api);
    (result, api')
  }

  /** A one-stage composition is the stage itself, in both versions. */
  lemma ComposeSingle(fn: Reducer, value: Rec, prevValue: Rec, api: Store)
    ensures Compose([fn], Some(value), Some(prevValue), api) == fn(value, prevValue, api)
    ensures ComposeFlow([fn], Some(value), Some(prevValue), api) == fn(value, prevValue, api)
  {
  }

  /** `mergeWithPrevious()`: `{ ...prevValue, ...value }`. */
  function MergeWithPrevious(value: Rec, prevValue: Rec, api: Store): (res: (Rec, Store))
    ensures forall k :: k in res.0 <==> k in value || k in prevValue
    ensures forall k :: k in value ==> res.0[k] == value[k]
    ensures forall k :: k in prevValue && k !in value ==> res.0[k] == prevValue[k]
    ensures res.1 == api
  {
    (prevValue + value, api)
  }

  function MergeReducer(): Reducer {
    (v: Rec, p: Rec, api: Store) => MergeWithPrevious(v, p, api)
  }

  /** Two stages: the second gets the first's input (TypeScript) or the outer previous value (Flow). */
  lemma ComposeTwoStages(f: Reducer, g: Reducer, value: Rec, prevValue: Rec, api: Store)
    ensures var (v1, api1) := f(value, prevValue, api);
      Compose([f, g], Some(value), Some(prevValue), api) == g(v1, value, api1) &&
      ComposeFlow([f, g], Some(value), Some(prevValue), api) == g(v1, prevValue, api1)
  {
    var (v1, api1) := f(value, prevValue, api);
    var (v2, api2) := g(v1, value, api1);
    var (w2, apiw) := g(v1, prevValue, api1);
    assert [f, g][1..] == [g] && [g][1..] == [];
    var ts := ComposeStages([g], v1, value, api1);
    assert ts.0 == v2 && ts.1 == api2;
    var flow := ComposeFlowStages([g], v1, prevValue, api1);
    assert flow.0 == w2 && flow.1 == apiw;
  }

  function DecodeReducer(serializers: SerializerMap): Reducer {
    (v: Rec, p: Rec, api: Store) => ApplyDecoders(serializers, v, p, api)
  }

  /**
   * `compose(applyDecoders(serializers), mergeWithPrevious())`: in the
   * TypeScript version the merge stage receives the first stage's input as
   * its previous value, so the decoded fields are laid over the raw record;
   * in the Flow version they are laid over the composition's previous value.
   */
  lemma DecodeThenMerge(serializers: SerializerMap, value: Rec, prevValue: Rec, api: Store)
    ensures Compose([DecodeReducer(serializers), MergeReducer()], Some(value), Some(prevValue), api).0 ==
      value + CodecRec(serializers, Decode, value)
    ensures ComposeFlow([DecodeReducer(serializers), MergeReducer()], Some(value), Some(prevValue), api).0 ==
      prevValue + CodecRec(serializers, Decode, value)
  {
    ComposeTwoStages(DecodeReducer(serializers), MergeReducer(), value, prevValue, api);
  }

  /**
   * The two `compose`s differ from the second stage on: with no serializers,
   * a field only the previous value has survives the Flow composition and is
   * lost by the TypeScript one.
   */
  lemma ComposeTwinsDiffer(value: Rec, prevValue: Rec, api: Store, key: string)
    requires key in prevValue && key !in value
    ensures key !in Compose([DecodeReducer([]), MergeReducer()], Some(value), Some(prevValue), api).0
    ensures key in ComposeFlow([DecodeReducer([]), MergeReducer()], Some(value), Some(prevValue), api).0
  {
    DecodeThenMerge([], value, prevValue, api);
  }

  /** `serializers[key]` for one of the map's own keys. */
  function SerializerFor(serializers: SerializerMap, key: string): Serializers.Serializer
    requires key in Keys(serializers)
  {
    GetSomeIffKey(serializers, key);
    Get(serializers, key).value
  }

  /** One codec direction of a serializer. */
  datatype Direction = Decode | Encode

  function Codec(s: Serializers.Serializer, d: Direction): Value -> Value {
    match d
    case Decode => s.decode
    case Encode => s.encode
  }

  /** What the serializer for `k` makes of `value`'s field `k`, in direction `d`. */
  function Coded(serializers: SerializerMap, d: Direction, value: Rec, k: string): Value
    requires k in Keys(serializers)
  {
    Codec(SerializerFor(serializers, k), d)(Field(value, k))
  }

  /**
   * The `Object.keys(serializers).reduce` shared by `applyDecoders` and
   * `applyEncoders`, over the keys `keys` still to visit.
   */
  function ApplyCodecs(serializers: SerializerMap, d: Direction, keys: seq<string>, value: Rec, obj: Rec): (r: Rec)
    requires forall k :: k in keys ==> k in Keys(serializers)
    ensures forall k :: k in r <==>
      k in obj || (k in keys && Coded(serializers, d, value, k) != Undefined)
    ensures forall k :: k in r ==>
      r[k] == if k in keys && Coded(serializers, d, value, k) != Undefined
        then Coded(serializers, d, value, k) else obj[k]
    decreases |keys|
  {
    if keys == [] then obj
    else
      var key := keys[0];
      var coded := Coded(serializers, d, value, key);
      var obj' := if coded != Undefined then obj[key := coded] else obj;
      ApplyCodecs(serializers, d, keys[1..], value, obj')
  }

  function CodecRec(serializers: SerializerMap, d: Direction, value: Rec): (r: Rec)
    ensures forall k :: k in r <==> k in Keys(serializers) && Coded(serializers, d, value, k) != Undefined
    ensures forall k :: k in r ==> r[k] == Coded(serializers, d, value, k)
  {
    ApplyCodecs(serializers, d, Keys(serializers), value, map[])
  }

  lemma CodecRecAt(serializers: SerializerMap, d: Direction, value: Rec, k: string)
    requires k in Keys(serializers)
    ensures var coded := Coded(serializers, d, value, k);
      (k in CodecRec(serializers, d, value) <==> coded != Undefined) &&
      (coded != Undefined ==> CodecRec(serializers, d, value)[k] == coded)
  {
  }

  lemma CodecRecKeys(serializers: SerializerMap, d: Direction, value: Rec, k: string)
    requires k in CodecRec(serializers, d, value)
    ensures k in Keys(serializers)
  {
  }

  /**
   * `applyDecoders(serializers)`: a fresh record holding, for each serializer
   * key, the decoded value unless it decoded to `undefined`.
   */
  function ApplyDecoders(serializers: SerializerMap, value: Rec, prevValue: Rec, api: Store): (res: (Rec, Store))
    ensures forall k :: k in res.0 <==> k in Keys(serializers) && SerializerFor(serializers, k).decode(Field(value, k)) != Undefined
    ensures forall k :: k in res.0 ==> res.0[k] == SerializerFor(serializers, k).decode(Field(value, k))
    ensures res.1 == api
  {
    (CodecRec(serializers, Decode, value), api)
  }

  /** `applyEncoders(serializers)`: the same with `encode`. */
  function ApplyEncoders(serializers: SerializerMap, value: Rec, prevValue: Rec, api: Store): (res: (Rec, Store))
    ensures forall k :: k in res.0 <==> k in Keys(serializers) && SerializerFor(serializers, k).encode(Field(value, k)) != Undefined
    ensures forall k :: k in res.0 ==> res.0[k] == SerializerFor(serializers, k).encode(Field(value, k))
    ensures res.1 == api
  {
    (CodecRec(serializers, Encode, value), api)
  }

  /**
   * Encoding and then decoding a record whose serializer fields all
   * round-trip gives back exactly those fields; keys without a serializer
   * are dropped.
   */
  lemma DecodeAfterEncode(serializers: SerializerMap, value: Rec, prev: Rec, api: Store)
    requires FieldsRoundTrip(serializers, value)
    ensures ApplyDecoders(serializers, ApplyEncoders(serializers, value, prev, api).0, prev, api).0 ==
      map k | k in value && k in Keys(serializers) :: value[k]
  {
    CodecRoundTrip(serializers, value);
  }

  /** Every serializer key is present in `value` and its codec pair round-trips that field. */
  predicate FieldsRoundTrip(serializers: SerializerMap, value: Rec) {
    forall k :: k in Keys(serializers) ==>
      && k in value && value[k] != Undefined
      && SerializerFor(serializers, k).encode(value[k]) != Undefined
      && SerializerFor(serializers, k).decode(SerializerFor(serializers, k).encode(value[k])) == value[k]
  }

  lemma CodecRoundTrip(serializers: SerializerMap, value: Rec)
    requires FieldsRoundTrip(serializers, value)
    ensures CodecRec(serializers, Decode, CodecRec(serializers, Encode, value)) ==
      map k | k in value && k in Keys(serializers) :: value[k]
  {
    var encoded := CodecRec(serializers, Encode, value);
    var decoded := CodecRec(serializers, Decode, encoded);
    var expected := map k | k in value && k in Keys(serializers) :: value[k];
    forall k | k in expected
      ensures k in decoded && decoded[k] == expected[k]
    {
      FieldRoundTrip(serializers, value, k);
      CodecRecAt(serializers, Decode, encoded, k);
    }
    forall k | k in decoded ensures k in expected {
      CodecRecKeys(serializers, Decode, encoded, k);
    }
    MapEq(decoded, expected);
  }

  /** One serializer field of `value` survives encoding and decoding. */
  lemma FieldRoundTrip(serializers: SerializerMap, value: Rec, k: string)
    requires FieldsRoundTrip(serializers, value) && k in Keys(serializers)
    ensures Coded(serializers, Decode, CodecRec(serializers, Encode, value), k) == value[k]
  {
    var encoded := CodecRec(serializers, Encode, value);
    var s := SerializerFor(serializers, k);
    assert Field(value, k) == value[k];
    CodecRecAt(serializers, Encode, value, k);
    assert encoded[k] == s.encode(value[k]);
    assert Field(encoded, k) == encoded[k];
  }

  lemma MapEq<K, V>(a: map<K, V>, b: map<K, V>)
    requires forall k :: k in b ==> k in a && a[k] == b[k]
    requires forall k :: k in a ==> k in b
    ensures a == b
  {
  }


  /** A `page` number survives the trip into a URL string and back. */
  lemma IntFieldRoundTrip(n: int, prev: Rec, api: Store)
    ensures var serializers := [("page", Serializers.IntSerializer())];
      var value := map["page" := Num(n)];
      ApplyDecoders(serializers, ApplyEncoders(serializers, value, prev, api).0, prev, api).0 == value
  {
    var serializers := [("page", Serializers.IntSerializer())];
    var value := map["page" := Num(n)];
    assert Keys(serializers) == ["page"];
    assert SerializerFor(serializers, "page") == Serializers.IntSerializer();
    Serializers.IntRoundTrip(n);
    assert FieldsRoundTrip(serializers, value);
    CodecRoundTrip(serializers, value);
    var expected := map k | k in value && k in Keys(serializers) :: value[k];
    MapEq(expected, value);
  }


  /** `executeSideEffects(...effects)`: each effect in order with the same arguments; the value passes through. */
  function ExecuteSideEffects(effects: seq<SideEffect>, value: Rec, prevValue: Rec, api: Store): (res: (Rec, Store))
    ensures res.0 == value
    ensures effects == [] ==> res.1 == api
    decreases |effects|
  {
    if effects == [] then (value, api)
    else ExecuteSideEffects(effects[1..], value, prevValue, effects[0](value, prevValue, api))
  }

  /** Running two lists of effects in a row is running their concatenation. */
  lemma {:induction false} ExecuteSideEffectsAppend(a: seq<SideEffect>, b: seq<SideEffect>, value: Rec, prevValue: Rec, api: Store)
    ensures ExecuteSideEffects(a + b, value, prevValue, api) ==
      ExecuteSideEffects(b, value, prevValue, ExecuteSideEffects(a, value, prevValue, api).1)
    decreases |a|
  {
    if a == [] {
      assert a + b == b;
    } else {
      assert (a + b)[1..] == a[1..] + b;
      ExecuteSideEffectsAppend(a[1..], b, value, prevValue, a[0](value, prevValue, api));
    }
  }

  /** `storeValue(key)`: `state.set(key, value, { notify: false })`. */
  function StoreValue(key: StateKey, value: Rec, prevValue: Rec, api: Store): (api': Store)
    ensures SharedState.Get(api', key) == Obj(value)
    ensures api'.batch == api.batch
    ensures forall other: StateKey :: other.key != key.key ==> SharedState.Get(api', other) == SharedState.Get(api, other)
  {
    SharedState.Set(api, key, Obj(value), Some(SharedState.StateOptions(Some(false))))
  }

  /** The index of the first watched key whose value differs, or `|keys|`. */
  function FirstChanged(keys: seq<string>, value: Rec, prevValue: Rec): (i: nat)
    ensures i <= |keys|
    ensures i < |keys| ==> !StrictEquals(Field(value, keys[i]), Field(prevValue, keys[i]))
    ensures forall j :: 0 <= j < i ==> StrictEquals(Field(value, keys[j]), Field(prevValue, keys[j]))
    decreases |keys|
  {
    if keys == [] then 0
    else if !StrictEquals(Field(value, keys[0]), Field(prevValue, keys[0])) then 0
    else FirstChanged(keys[1..], value, prevValue) + 1
  }

  /**
   * `clearOnChange(keyToClear, keys)`: when `keyToClear` itself is unchanged
   * and some watched key changed (`!==`), the stale `keyToClear` is deleted.
   */
  function ClearOnChange(keyToClear: string, keys: seq<string>, value: Rec, prevValue: Rec, api: Store): (res: (Rec, Store))
    ensures res.1 == api
    ensures !StrictEquals(Field(value, keyToClear), Field(prevValue, keyToClear)) ==> res.0 == value
    ensures StrictEquals(Field(value, keyToClear), Field(prevValue, keyToClear)) ==>
      res.0 == if exists i :: 0 <= i < |keys| && !StrictEquals(Field(value, keys[i]), Field(prevValue, keys[i]))
        then value - {keyToClear} else value
  {
    if !StrictEquals(Field(value, keyToClear), Field(prevValue, keyToClear)) then (value, api)
    else if FirstChanged(keys, value, prevValue) < |keys| then (value - {keyToClear}, api)
    else (value, api)
  }

  /** A watched key holding `NaN` always counts as changed, since `NaN !== NaN`. */
  lemma ClearOnChangeNaN(keyToClear: string, key: string, value: Rec, prevValue: Rec, api: Store)
    requires key != keyToClear
    requires Field(value, key) == NaN
    requires keyToClear in value && StrictEquals(Field(value, keyToClear), Field(prevValue, keyToClear))
    ensures keyToClear !in ClearOnChange(keyToClear, [key], value, prevValue, api).0
  {
  }

  /** `clearStateOnMissing(idKey, stateToClear)`: clear the state key unless `value[idKey]` is truthy. */
  function ClearStateOnMissing(idKey: string, stateToClear: StateKey, value: Rec, prevValue: Rec, api: Store): (api': Store)
    ensures Truthy(Field(value, idKey)) ==> api' == api
    ensures !Truthy(Field(value, idKey)) ==> api' == SharedState.Clear(api, stateToClear, None)
  {
    if Truthy(Field(value, idKey)) then api else SharedState.Clear(api, stateToClear, None)
  }

  /** A missing id clears the state key and notifies its listeners. */
  lemma MissingIdClearsAndNotifies(idKey: string, stateToClear: StateKey, value: Rec, prevValue: Rec, api: Store)
    requires idKey !in value
    ensures var api' := ClearStateOnMissing(idKey, stateToClear, value, prevValue, api);
      SharedState.Get(api', stateToClear) == stateToClear.defaultValue &&
      api'.batch.items == api.batch.items + [SharedState.ChangeEvent(stateToClear.key, Undefined)]
  {
  }

  /** `ifChanged(key, effect)`: run the effect on the field's new and old value iff they are not deep-equal. */
  function IfChanged(key: string, effect: FieldEffect, value: Rec, prevValue: Rec, api: Store): (api': Store)
    ensures DeepEquals(Field(value, key), Field(prevValue, key)) ==> api' == api
    ensures !DeepEquals(Field(value, key), Field(prevValue, key)) ==> api' == effect(Field(value, key), Field(prevValue, key), api)
  {
    if !DeepEquals(Field(value, key), Field(prevValue, key)) then effect(Field(value, key), Field(prevValue, key), api)
    else api
  }
  /**
   * `ifChanged` compares deeply where `clearOnChange` compares strictly: a
   * field that is `NaN` on both sides is unchanged for `ifChanged`, yet
   * `!==` reports it as changed.  A field missing on both sides is unchanged.
   */
  lemma IfChangedNaNIsUnchanged(key: string, effect: FieldEffect, value: Rec, prevValue: Rec, api: Store)
    requires Field(value, key) == NaN && Field(prevValue, key) == NaN
    ensures IfChanged(key, effect, value, prevValue, api) == api
    ensures !StrictEquals(Field(value, key), Field(prevValue, key))
  {
  }

  /** The effect sees only the watched field: records that differ elsewhere run nothing. */
  lemma IfChangedWatchesOneKey(key: string, effect: FieldEffect, value: Rec, prevValue: Rec, api: Store)
    requires key !in value && key !in prevValue
    ensures IfChanged(key, effect, value, prevValue, api) == api
  {
  }

  /** A field that appears runs the effect with the new value and `undefined` as the old one. */
  lemma IfChangedOnAppearance(key: string, effect: FieldEffect, value: Rec, prevValue: Rec, api: Store)
    requires key in value && value[key] != Undefined && key !in prevValue
    ensures IfChanged(key, effect, value, prevValue, api) == effect(value[key], Undefined, api)
  {
  }
}
