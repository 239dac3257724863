/**
 * src/shared-state/shared-state-context.tsx: the store behind
 * `SharedStateProvider`, without React.  The store is a map from state keys
 * to values, a batcher collecting change notifications and the `changed`
 * event those notifications are fired on once the batch is flushed.
 *
 * The source's map is keyed by the state-key object; every key object carries
 * its own symbol, so the model keys the map, and the events, by that symbol.
 */
module SharedState {
  import opened Wrappers
  import opened Values
  import opened StateKeys
  import Seqs
  import Batching
  import Events
  import Enumerable

  /** `{ key, value }`, the payload of both a pending and a fired change. */
  datatype ChangeEvent = ChangeEvent(key: nat, value: Value)

  /** `StateOptions`: `{ notify?: boolean }`. */
  datatype StateOptions = StateOptions(notify: Option<bool>)

  datatype Store = Store(
    values: map<nat, Value>,
    batch: Batching.Batcher<ChangeEvent>,
    changed: Events.EventSource)

  /** A provider's store: `new Map(props.initialValues)` and nothing pending. */
  function CreateStore(initialValues: map<nat, Value>, changed: Events.EventSource): (st: Store)
    ensures st.values == initialValues && st.batch.items == [] && !st.batch.timerScheduled
  {
    Store(initialValues, Batching.Idle(), changed)
  }

  /** `const { notify = true } = options ?? {}` */
  function Notify(options: Option<StateOptions>): (notify: bool)
    ensures notify <==> options.None? || options.value.notify.None? || options.value.notify == Some(true)
  {
    match options
    case None => true
    case Some(o) => o.notify.GetOr(true)
  }

  /** `get(key)`: the stored value when present (even `undefined`), otherwise the key's default. */
  function Get(st: Store, key: StateKey): (v: Value)
    ensures key.key in st.values ==> v == st.values[key.key]
    ensures key.key !in st.values ==> v == key.defaultValue
  {
    if key.key in st.values then st.values[key.key] else key.defaultValue
  }

  /** `state.get(key)`: the raw stored value, `undefined` when absent. */
  function Raw(st: Store, key: StateKey): Value {
    if key.key in st.values then st.values[key.key] else Undefined
  }

  /**
   * `set(key, value, options)`: always overwrites, and queues a change iff
   * notifying and the key's `equals` rejects the previous raw value.
   */
  function Set(st: Store, key: StateKey, value: Value, options: Option<StateOptions>): (st': Store)
    ensures st'.values == st.values[key.key := value]
    ensures st'.changed == st.changed
    ensures Notify(options) && !key.equals(Raw(st, key), value) ==>
      st'.batch == Batching.Append(st.batch, ChangeEvent(key.key, value)).0
    ensures !(Notify(options) && !key.equals(Raw(st, key), value)) ==> st'.batch == st.batch
  {
    var previousValue := Raw(st, key);
    var st1 := st.(values := st.values[key.key := value]);
    if Notify(options) && !key.equals(previousValue, value) then
      st1.(batch := Batching.Append(st.batch, ChangeEvent(key.key, value)).0)
    else st1
  }

  /** `clear(key, options)`: removes the key and, when notifying, queues `{key, undefined}` unconditionally. */
  function Clear(st: Store, key: StateKey, options: Option<StateOptions>): (st': Store)
    ensures st'.values == st.values - {key.key}
    ensures st'.changed == st.changed
    ensures Notify(options) ==> st'.batch == Batching.Append(st.batch, ChangeEvent(key.key, Undefined)).0
    ensures !Notify(options) ==> st'.batch == st.batch
  {
    var st1 := st.(values := st.values - {key.key});
    if Notify(options) then st1.(batch := Batching.Append(st.batch, ChangeEvent(key.key, Undefined)).0)
    else st1
  }

  /** `all()`: one entry per present key, indexed by the key's symbol. */
  function All(st: Store): (obj: map<nat, Value>)
    ensures forall k :: k in obj <==> k in st.values
    ensures forall k :: k in obj ==> obj[k] == st.values[k]
  {
    map k | k in st.values :: st.values[k]
  }

  /** The last element of a non-empty list: `values.at(-1)`; `undefined` for an empty one. */
  function AtLast(vs: seq<Value>): Value {
    if vs == [] then Undefined else vs[|vs| - 1]
  }

  function EventKey(): ChangeEvent -> nat { (e: ChangeEvent) => e.key }
  function EventValue(): ChangeEvent -> Value { (e: ChangeEvent) => e.value }

  /**
   * The batch callback's collapse: `chain(events).groupBy(e => e.key, e =>
   * e.value).map(g => ({ key: g.key, value: g.values.at(-1) }))`.
   */
  function Collapse(events: seq<ChangeEvent>): seq<ChangeEvent> {
    var groups := Enumerable.GroupBy(Enumerable.Chain(events, []), EventKey(), EventValue()).0;
    seq(|groups|, i requires 0 <= i < |groups| => ChangeEvent(groups[i].key, AtLast(groups[i].values)))
  }

  /** The value of the last event for `k`. */
  function LastValueFor(events: seq<ChangeEvent>, k: nat): Value {
    if events == [] then Undefined
    else if events[|events| - 1].key == k then events[|events| - 1].value
    else LastValueFor(events[..|events| - 1], k)
  }

  function EventKeys(events: seq<ChangeEvent>): seq<nat> {
    Enumerable.KeySeq(events, EventKey())
  }

  /** The last value selected for `k` is the value of the last event for `k`. */
  lemma {:induction false} LastOfValuesFor(events: seq<ChangeEvent>, k: nat)
    ensures AtLast(Enumerable.ValuesFor(events, EventKey(), EventValue(), k)) == LastValueFor(events, k)
    decreases |events|
  {
    if events != [] {
      var init := events[..|events| - 1];
      LastOfValuesFor(init, k);
      Enumerable.ValuesForSnoc(events, EventKey(), EventValue(), k);
    }
  }

  /**
   * Collapsing a batch yields one event per distinct key, in the order the
   * keys first appear, each carrying the value of the last event for it.
   */
  lemma CollapseIsLastWriteWins(events: seq<ChangeEvent>)
    ensures var out := Collapse(events);
      var keys := Seqs.FirstOccurrences(EventKeys(events), {});
      |out| == |keys| &&
      forall i :: 0 <= i < |out| ==> out[i] == ChangeEvent(keys[i], LastValueFor(events, keys[i]))
  {
    var c := Enumerable.Chain(events, []);
    Enumerable.IterateNoOps(events);
    Enumerable.GroupByGroups(c, EventKey(), EventValue());
    var keys := Seqs.FirstOccurrences(EventKeys(events), {});
    forall i | 0 <= i < |keys| ensures LastValueFor(events, keys[i]) == AtLast(Enumerable.ValuesFor(events, EventKey(), EventValue(), keys[i])) {
      LastOfValuesFor(events, keys[i]);
    }
  }

  /** `batchedEvents.forEach(event => changedEvent.fire(event))`. */
  function FireAll(e: Events.EventSource, events: seq<ChangeEvent>): (calls: seq<Events.Invocation<ChangeEvent>>)
    ensures |calls| == |events| * |e.subscribers|
    decreases |events|
  {
    if events == [] then []
    else Events.Fire(e, events[0]) + FireAll(e, events[1..])
  }

  /** Firing two lists of events one after the other is firing their concatenation. */
  lemma {:induction false} FireAllAppend(e: Events.EventSource, a: seq<ChangeEvent>, b: seq<ChangeEvent>)
    ensures FireAll(e, a + b) == FireAll(e, a) + FireAll(e, b)
    decreases |a|
  {
    if a == [] {
      assert a + b == b;
    } else {
      assert (a + b)[0] == a[0];
      assert (a + b)[1..] == a[1..] + b;
      FireAllAppend(e, a[1..], b);
      calc {
        FireAll(e, a + b);
        Events.Fire(e, a[0]) + FireAll(e, a[1..] + b);
        Events.Fire(e, a[0]) + (FireAll(e, a[1..]) + FireAll(e, b));
        (Events.Fire(e, a[0]) + FireAll(e, a[1..])) + FireAll(e, b);
        FireAll(e, a) + FireAll(e, b);
      }
    }
  }

  /** Firing one event calls every subscriber with it, in subscription order. */
  lemma FireAllSingle(e: Events.EventSource, x: ChangeEvent)
    ensures FireAll(e, [x]) == Events.Fire(e, x)
  {
    assert [x][1..] == [];
  }

  /** The timer firing: only the batcher moves, and nothing is delivered yet. */
  function Tick(st: Store): (r: Store)
    ensures r.values == st.values && r.changed == st.changed
    ensures r.batch.items == st.batch.items && !r.batch.timerScheduled
    ensures r.batch.signalled <==> st.batch.signalled || st.batch.timerScheduled
  {
    st.(batch := Batching.Tick(st.batch))
  }

  /** The batcher's effect: the calls made on the `changed` event's subscribers. */
  function Flush(st: Store): (res: (Store, seq<Events.Invocation<ChangeEvent>>))
    ensures res.0.values == st.values && res.0.changed == st.changed
  {
    var (b', delivered) := Batching.Flush(st.batch);
    var st' := st.(batch := b');
    match delivered
    case None => (st', [])
    case Some(events) => (st', FireAll(st.changed, Collapse(events)))
  }

  /** `set` then `get` reads the value set, whether or not anything was notified. */
  lemma GetAfterSet(st: Store, key: StateKey, value: Value, options: Option<StateOptions>, other: StateKey)
    ensures Get(Set(st, key, value, options), key) == value
    ensures other.key != key.key ==> Get(Set(st, key, value, options), other) == Get(st, other)
  {
  }

  /** `clear` then `get` reads the default; other keys are untouched. */
  lemma GetAfterClear(st: Store, key: StateKey, options: Option<StateOptions>, other: StateKey)
    ensures Get(Clear(st, key, options), key) == key.defaultValue
    ensures other.key != key.key ==> Get(Clear(st, key, options), other) == Get(st, other)
    ensures key.key !in All(Clear(st, key, options))
  {
  }

  /** A `set` without notification, as `storeValue` makes, never grows the pending list. */
  lemma SilentSetKeepsPending(st: Store, key: StateKey, value: Value)
    ensures Set(st, key, value, Some(StateOptions(Some(false)))).batch.items == st.batch.items
  {
  }

  /**
   * The previous value compared is the raw stored one: setting a fresh key to
   * its own default still notifies when the default is not `undefined`.
   */
  lemma SetDefaultOnFreshKeyNotifies(st: Store, key: StateKey)
    requires key.key !in st.values
    requires !key.equals(Undefined, key.defaultValue)
    ensures Get(st, key) == key.defaultValue
    ensures Set(st, key, key.defaultValue, None).batch.items == st.batch.items + [ChangeEvent(key.key, key.defaultValue)]
  {
  }

  /** Setting a present key to a value its `equals` accepts as unchanged queues nothing. */
  lemma EqualSetIsSilent(st: Store, key: StateKey, value: Value, options: Option<StateOptions>)
    requires key.key in st.values && key.equals(st.values[key.key], value)
    ensures Set(st, key, value, options).batch == st.batch
  {
  }

  /**
   * Two sets of the same key and one of another, from idle, then the timer:
   * one timer was armed, and the flush fires the collapsed batch.
   */
  lemma SetsAreCollapsedOnFlush(st: Store, a: StateKey, b: StateKey, v1: Value, v2: Value, v3: Value)
    requires st.batch == Batching.Idle()
    requires a.key != b.key
    requires !a.equals(Raw(st, a), v1)
    requires !b.equals(Raw(st, b), v2)
    requires !a.equals(v1, v3)
    ensures var st3 := Set(Set(Set(st, a, v1, None), b, v2, None), a, v3, None);
      st3.batch.timerScheduled &&
      Flush(Tick(st3)).1 == FireAll(st.changed, [ChangeEvent(a.key, v3), ChangeEvent(b.key, v2)])
  {
    var st1 := Set(st, a, v1, None);
    var st2 := Set(st1, b, v2, None);
    assert Raw(st1, b) == Raw(st, b);
    var st3 := Set(st2, a, v3, None);
    assert Raw(st2, a) == v1;
    assert st3.batch.items == [ChangeEvent(a.key, v1), ChangeEvent(b.key, v2), ChangeEvent(a.key, v3)];
    CollapseExampleValues(a.key, b.key, v1, v2, v3);
  }

  /** `a = v1; b = v2; a = v3` in one batch fires `a = v3` then `b = v2`. */
  lemma CollapseExampleValues(a: nat, b: nat, v1: Value, v2: Value, v3: Value)
    requires a != b
    ensures Collapse([ChangeEvent(a, v1), ChangeEvent(b, v2), ChangeEvent(a, v3)]) ==
      [ChangeEvent(a, v3), ChangeEvent(b, v2)]
  {
    var events := [ChangeEvent(a, v1), ChangeEvent(b, v2), ChangeEvent(a, v3)];
    var out := Collapse(events);
    CollapseIsLastWriteWins(events);
    ExampleKeys(a, b, v1, v2, v3);
    FirstOccurrencesABA(a, b);
    ExampleLastValues(a, b, v1, v2, v3);
    assert |out| == 2;
    assert out[0] == ChangeEvent(a, v3);
    assert out[1] == ChangeEvent(b, v2);
  }

  lemma ExampleKeys(a: nat, b: nat, v1: Value, v2: Value, v3: Value)
    ensures EventKeys([ChangeEvent(a, v1), ChangeEvent(b, v2), ChangeEvent(a, v3)]) == [a, b, a]
  {
  }

  lemma ExampleLastValues(a: nat, b: nat, v1: Value, v2: Value, v3: Value)
    requires a != b
    ensures LastValueFor([ChangeEvent(a, v1), ChangeEvent(b, v2), ChangeEvent(a, v3)], a) == v3
    ensures LastValueFor([ChangeEvent(a, v1), ChangeEvent(b, v2), ChangeEvent(a, v3)], b) == v2
  {
    var events := [ChangeEvent(a, v1), ChangeEvent(b, v2), ChangeEvent(a, v3)];
    assert events[..2] == [ChangeEvent(a, v1), ChangeEvent(b, v2)];
  }

  lemma FirstOccurrencesABA(a: nat, b: nat)
    requires a != b
    ensures Seqs.FirstOccurrences([a, b, a], {}) == [a, b]
  {
    var ks := [a, b, a];
    assert ks[..2] == [a, b];
    assert [a, b][..1] == [a];
    assert [a][..0] == [];
    assert Seqs.FirstOccurrences([a], {}) == [a];
    assert Seqs.FirstOccurrences([a, b], {}) == [a, b];
  }
}
