/**
 * src/hooks/use-events.ts: `createEvent`, a subscriber list with ordered
 * fan-out.  Handlers are opaque ids compared by identity (`!==`), so
 * subscribing the same handler twice keeps two entries.
 */
module Events {
  import Seqs

  type HandlerId = nat

  datatype EventSource = EventSource(subscribers: seq<HandlerId>)

  /** One call `sub(arg)` made by `fire`. */
  datatype Invocation<A> = Invocation(handler: HandlerId, arg: A)

  /** The closure returned by `subscribe`: `() => unsubscribe(cb)`. */
  datatype Disposer = Disposer(handler: HandlerId)

  /** `createEvent()`: no handler is subscribed yet. */
  function CreateEvent(): (e: EventSource)
    ensures forall h :: Occurrences(e.subscribers, h) == 0
  {
    EventSource([])
  }

  function Occurrences(s: seq<HandlerId>, h: HandlerId): nat {
    multiset(s)[h]
  }

  /** `fire(arg)`: `subscribers.forEach(sub => sub(arg))`. */
  function Fire<A>(e: EventSource, arg: A): (calls: seq<Invocation<A>>)
    ensures |calls| == |e.subscribers|
    ensures forall i :: 0 <= i < |calls| ==> calls[i].handler == e.subscribers[i] && calls[i].arg == arg
    decreases |e.subscribers|
  {
    if e.subscribers == [] then []
    else [Invocation(e.subscribers[0], arg)] + Fire(EventSource(e.subscribers[1..]), arg)
  }

  /** `subscribe(cb)`: push, and hand back the disposer. */
  function Subscribe(e: EventSource, h: HandlerId): (res: (EventSource, Disposer))
    ensures |res.0.subscribers| == |e.subscribers| + 1
    ensures res.0.subscribers[..|e.subscribers|] == e.subscribers
    ensures res.0.subscribers[|e.subscribers|] == h
    ensures res.1.handler == h
  {
    (EventSource(e.subscribers + [h]), Disposer(h))
  }

  /** `unsubscribe(cb)`: `subscribers.filter(sub => sub !== cb)`. */
  function Unsubscribe(e: EventSource, h: HandlerId): (r: EventSource)
    ensures h !in r.subscribers
    ensures forall x :: x != h ==> Occurrences(r.subscribers, x) == Occurrences(e.subscribers, x)
    ensures |r.subscribers| == |e.subscribers| - Occurrences(e.subscribers, h)
    decreases |e.subscribers|
  {
    if e.subscribers == [] then e
    else
      var rest := Unsubscribe(EventSource(e.subscribers[1..]), h).subscribers;
      assert e.subscribers == [e.subscribers[0]] + e.subscribers[1..];
      if e.subscribers[0] == h then EventSource(rest)
      else EventSource([e.subscribers[0]] + rest)
  }

  /** Calling the disposer: every entry of its handler goes, and the other handlers keep theirs. */
  function Dispose(e: EventSource, d: Disposer): (r: EventSource)
    ensures d.handler !in r.subscribers
    ensures forall x :: x != d.handler ==> Occurrences(r.subscribers, x) == Occurrences(e.subscribers, x)
  {
    Unsubscribe(e, d.handler)
  }

  /** The filter predicate `sub => sub !== cb`. */
  function Other(h: HandlerId): HandlerId -> bool {
    x => x != h
  }

  /** `unsubscribe` keeps the remaining subscribers in their order: it is the filter `sub !== cb`. */
  lemma {:induction false} UnsubscribeIsFilter(e: EventSource, h: HandlerId)
    ensures Unsubscribe(e, h).subscribers == Seqs.Select(e.subscribers, Other(h))
    decreases |e.subscribers|
  {
    if e.subscribers != [] {
      var s := e.subscribers;
      assert s == [s[0]] + s[1..];
      UnsubscribeIsFilter(EventSource(s[1..]), h);
      Seqs.SelectAppend([s[0]], s[1..], Other(h));
      assert Seqs.Select([s[0]], Other(h)) == if s[0] != h then [s[0]] else [] by {
        assert [s[0]][..0] == [];
      }
    }
  }

  /** Subscribing appends one call to every later fire. */
  lemma SubscribeThenFire<A>(e: EventSource, h: HandlerId, arg: A)
    ensures Fire(Subscribe(e, h).0, arg) == Fire(e, arg) + [Invocation(h, arg)]
  {
  }

  /** Subscribing then disposing removes every entry of the handler, including older duplicates. */
  lemma SubscribeThenDispose(e: EventSource, h: HandlerId)
    ensures var (e1, d) := Subscribe(e, h); Dispose(e1, d) == Unsubscribe(e, h)
  {
    var (e1, d) := Subscribe(e, h);
    UnsubscribeIsFilter(e1, h);
    UnsubscribeIsFilter(e, h);
    Seqs.SelectAppend(e.subscribers, [h], Other(h));
  }

  /** A subscription history: the calls made on one event source, in order. */
  datatype BusOp = Sub(handler: HandlerId) | Unsub(handler: HandlerId)

  function Replay(ops: seq<BusOp>): EventSource
    decreases |ops|
  {
    if ops == [] then CreateEvent()
    else
      var e := Replay(ops[..|ops| - 1]);
      match ops[|ops| - 1]
      case Sub(h) => Subscribe(e, h).0
      case Unsub(h) => Unsubscribe(e, h)
  }

  /** Number of `Sub(h)` after the last `Unsub(h)` of the history. */
  function LiveSubscriptions(ops: seq<BusOp>, h: HandlerId): nat
    decreases |ops|
  {
    if ops == [] then 0
    else if ops[|ops| - 1] == Unsub(h) then 0
    else LiveSubscriptions(ops[..|ops| - 1], h) + (if ops[|ops| - 1] == Sub(h) then 1 else 0)
  }

  /**
   * A fire after a history invokes `h` once per subscription made since its
   * last unsubscribe; in particular never, when nothing re-subscribed it.
   */
  lemma FireCountsLiveSubscriptions<A>(ops: seq<BusOp>, h: HandlerId, arg: A)
    ensures multiset(Fire(Replay(ops), arg))[Invocation(h, arg)] == LiveSubscriptions(ops, h)
  {
    FireMultiset(Replay(ops), h, arg);
    ReplayOccurrences(ops, h);
  }

  /** After a history, `h` is subscribed once per subscription made since its last unsubscribe. */
  lemma {:induction false} ReplayOccurrences(ops: seq<BusOp>, h: HandlerId)
    ensures Occurrences(Replay(ops).subscribers, h) == LiveSubscriptions(ops, h)
    decreases |ops|
  {
    if ops != [] {
      var init := ops[..|ops| - 1];
      var e := Replay(init);
      ReplayOccurrences(init, h);
      match ops[|ops| - 1]
      case Sub(g) =>
        assert Replay(ops).subscribers == e.subscribers + [g];
        assert multiset(e.subscribers + [g]) == multiset(e.subscribers) + multiset{g};
      case Unsub(g) =>
        assert Replay(ops) == Unsubscribe(e, g);
        if g == h {
          assert h !in Replay(ops).subscribers;
        }
    }
  }

  lemma {:induction false} FireMultiset<A>(e: EventSource, h: HandlerId, arg: A)
    ensures multiset(Fire(e, arg))[Invocation(h, arg)] == Occurrences(e.subscribers, h)
    decreases |e.subscribers|
  {
    if e.subscribers != [] {
      var rest := EventSource(e.subscribers[1..]);
      FireMultiset(rest, h, arg);
      FireMultisetStep(e, h, arg);
    }
  }

  /** The step of `FireMultiset`: the count for the rest extends to the whole list. */
  lemma FireMultisetStep<A>(e: EventSource, h: HandlerId, arg: A)
    requires e.subscribers != []
    requires multiset(Fire(EventSource(e.subscribers[1..]), arg))[Invocation(h, arg)]
          == Occurrences(e.subscribers[1..], h)
    ensures multiset(Fire(e, arg))[Invocation(h, arg)] == Occurrences(e.subscribers, h)
  {
    var s := e.subscribers;
    FireCons(e, arg);
    assert s == [s[0]] + s[1..];
    CountCons(h, s[0], arg, s[1..], Fire(EventSource(s[1..]), arg));
  }

  /** One unfolding of `Fire`: the first subscriber is called first. */
  lemma FireCons<A>(e: EventSource, arg: A)
    requires e.subscribers != []
    ensures Fire(e, arg) == [Invocation(e.subscribers[0], arg)] + Fire(EventSource(e.subscribers[1..]), arg)
  {
  }

  /** Putting one more call in front of the calls counts one more for its handler. */
  lemma CountCons<A>(h: HandlerId, first: HandlerId, arg: A, subscribers: seq<HandlerId>, calls: seq<Invocation<A>>)
    requires multiset(calls)[Invocation(h, arg)] == multiset(subscribers)[h]
    ensures multiset([Invocation(first, arg)] + calls)[Invocation(h, arg)] == multiset([first] + subscribers)[h]
  {
    assert multiset([first] + subscribers) == multiset{first} + multiset(subscribers);
    assert multiset([Invocation(first, arg)] + calls) == multiset{Invocation(first, arg)} + multiset(calls);
  }
}
