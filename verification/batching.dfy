/**
 * src/hooks/use-batch.ts: the micro-batcher behind the shared-state store.
 * `append` collects items and arms at most one timer; the timer firing
 * (`Tick`) clears the timer and raises the signal; the effect that reacts to
 * the signal (`Flush`) hands the collected items to the callback.
 */
module Batching {
  import opened Wrappers

  datatype Batcher<T> = Batcher(
    items: seq<T>,         // items.current
    timerScheduled: bool,  // timer.current !== null
    signalled: bool)       // a setSignal whose effect has not yet run

  function Idle<T>(): Batcher<T> {
    Batcher([], false, false)
  }

  /** `append(item)`; the boolean says whether a new timer was armed. */
  function Append<T>(b: Batcher<T>, x: T): (res: (Batcher<T>, bool))
    ensures res.0.items == b.items + [x]
    ensures res.1 <==> !b.timerScheduled
    ensures res.0.timerScheduled
    ensures res.0.signalled == b.signalled
  {
    var b' := b.(items := b.items + [x]);
    if b.timerScheduled then (b', false)
    else (b'.(timerScheduled := true), true)
  }

  /** The timer callback: `timer.current = null; setSignal(...)`.  Without an armed timer nothing fires. */
  function Tick<T>(b: Batcher<T>): (r: Batcher<T>)
    ensures !r.timerScheduled
    ensures r.items == b.items
    ensures r.signalled <==> b.signalled || b.timerScheduled
  {
    if b.timerScheduled then b.(timerScheduled := false, signalled := true) else b
  }

  /**
   * The effect on `signal`, where the callback itself appends `during`.  The
   * result is the batcher afterwards and the list the callback was handed,
   * if it was called at all.
   */
  function FlushWith<T>(b: Batcher<T>, during: seq<T>): (res: (Batcher<T>, Option<seq<T>>))
    ensures !b.signalled ==> res == (b, None)
    ensures b.signalled && b.items == [] ==> res.1 == None && res.0 == b.(signalled := false)
    ensures b.signalled && b.items != [] ==> res.1 == Some(b.items) && res.0.items == during
    ensures !res.0.signalled || res.0 == b
    ensures res.1.None? ==> res.0.items == b.items
  {
    if !b.signalled then (b, None)
    else if |b.items| == 0 then (b.(signalled := false), None)
    else
      var local := b.items;
      var b1 := b.(items := [], signalled := false);
      (AppendAll(b1, during).0, Some(local))
  }

  /** The effect when the callback appends nothing. */
  function Flush<T>(b: Batcher<T>): (res: (Batcher<T>, Option<seq<T>>))
    ensures res.1.Some? ==> res.1.value == b.items && b.items != [] && res.0.items == []
    ensures res.1.None? ==> res.0.items == b.items
    ensures res.0.timerScheduled == b.timerScheduled
  {
    FlushWith(b, [])
  }

  /** Appending several items one after another; the count is the number of timers armed. */
  function AppendAll<T>(b: Batcher<T>, xs: seq<T>): (res: (Batcher<T>, nat))
    ensures res.0.items == b.items + xs
    ensures res.0.signalled == b.signalled
    ensures res.0.timerScheduled <==> b.timerScheduled || xs != []
    ensures res.1 == if xs != [] && !b.timerScheduled then 1 else 0
    decreases |xs|
  {
    if xs == [] then (b, 0)
    else
      var (b1, armed) := Append(b, xs[0]);
      var (b2, n) := AppendAll(b1, xs[1..]);
      assert b.items + xs == b.items + [xs[0]] + xs[1..];
      (b2, n + (if armed then 1 else 0))
  }

  /**
   * A burst of appends from idle arms exactly one timer, and once it fires
   * the callback receives the whole burst, in order, once.
   */
  lemma BurstIsDeliveredOnce<T>(xs: seq<T>)
    requires xs != []
    ensures var (b1, timers) := AppendAll(Idle<T>(), xs);
      timers == 1 &&
      Flush(Tick(b1)) == (Idle<T>(), Some(xs))
  {
    var b1 := AppendAll(Idle<T>(), xs).0;
    var b2 := Tick(b1);
    assert b2 == Batcher(xs, false, true);
    assert AppendAll(Batcher([], false, false), []) == (Idle<T>(), 0);
  }

  /** Items appended while the callback runs are kept for the next batch, not mixed into this one. */
  lemma ReentrantAppendsGoToNextBatch<T>(b: Batcher<T>, during: seq<T>)
    requires b.signalled && b.items != []
    ensures var (b', delivered) := FlushWith(b, during);
      delivered == Some(b.items) && b'.items == during && !b'.signalled
  {
  }

  /** Steps of the environment around one batcher. */
  datatype Step<T> = DoAppend(item: T) | DoTick | DoFlush

  /** One step: the batcher afterwards and the lists handed to the callback by it. */
  function StepOnce<T>(b: Batcher<T>, step: Step<T>): (res: (Batcher<T>, seq<seq<T>>))
    ensures Concat(res.1) + res.0.items == b.items + Added(step)
    ensures forall i :: 0 <= i < |res.1| ==> res.1[i] != []
  {
    match step
    case DoAppend(x) => (Append(b, x).0, [])
    case DoTick => (Tick(b), [])
    case DoFlush =>
      var (b', d) := Flush(b);
      var out := if d.Some? then [d.value] else [];
      assert Concat(out) == if d.Some? then d.value else [];
      (b', out)
  }

  /** The item a step appends, if it is an append. */
  function Added<T>(step: Step<T>): seq<T> {
    if step.DoAppend? then [step.item] else []
  }

  /** Runs the steps in order, collecting every list handed to the callback. */
  function Run<T>(b: Batcher<T>, steps: seq<Step<T>>): (res: (Batcher<T>, seq<seq<T>>))
    decreases |steps|
  {
    if steps == [] then (b, [])
    else
      var (b1, out) := StepOnce(b, steps[0]);
      var (b2, rest) := Run(b1, steps[1..]);
      (b2, out + rest)
  }

  function Appended<T>(steps: seq<Step<T>>): seq<T>
    decreases |steps|
  {
    if steps == [] then []
    else Added(steps[0]) + Appended(steps[1..])
  }

  function Concat<T>(ss: seq<seq<T>>): seq<T>
    decreases |ss|
  {
    if ss == [] then [] else ss[0] + Concat(ss[1..])
  }

  lemma {:induction false} ConcatAppend<T>(a: seq<seq<T>>, b: seq<seq<T>>)
    ensures Concat(a + b) == Concat(a) + Concat(b)
    decreases |a|
  {
    if a == [] {
      assert a + b == b;
    } else {
      assert (a + b)[1..] == a[1..] + b;
      ConcatAppend(a[1..], b);
    }
  }

  /**
   * Nothing is lost, duplicated or reordered: the batches delivered, followed
   * by what is still pending, are exactly the items appended, in order.
   * Every delivered batch is non-empty.
   */
  lemma {:induction false} RunDeliversEverythingInOrder<T>(b: Batcher<T>, steps: seq<Step<T>>)
    ensures var (b', delivered) := Run(b, steps);
      Concat(delivered) + b'.items == b.items + Appended(steps) &&
      forall i :: 0 <= i < |delivered| ==> delivered[i] != []
    decreases |steps|
  {
    if steps != [] {
      var (b1, out) := StepOnce(b, steps[0]);
      var (b2, rest) := Run(b1, steps[1..]);
      RunDeliversEverythingInOrder(b1, steps[1..]);
      ConcatAppend(out, rest);
      Chain(Concat(out), Concat(rest), b.items, b1.items, b2.items, Added(steps[0]), Appended(steps[1..]));
    }
  }

  /** Gluing two steps of "delivered then pending is what came in" together. */
  lemma Chain<T>(out: seq<T>, rest: seq<T>, items0: seq<T>, items1: seq<T>, items2: seq<T>, head: seq<T>, tail: seq<T>)
    requires out + items1 == items0 + head
    requires rest + items2 == items1 + tail
    ensures out + rest + items2 == items0 + (head + tail)
  {
    calc {
      out + rest + items2;
      out + (rest + items2);
      out + (items1 + tail);
      (out + items1) + tail;
      (items0 + head) + tail;
    }
  }
}
