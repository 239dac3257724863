/**
 * src/utils/enumerable.ts (and its Flow twin src/utils/enumerable.js): a lazy
 * chain of operators over a source.  Each operator is a closure; `take`,
 * `skip` and `distinct` carry state (a counter or a seen-set) that survives
 * from one iteration of the chain to the next.  Here the state is explicit:
 * applying an operator returns its signal and its next state.
 */
module Enumerable {
  import opened Wrappers
  import opened Values
  import opened OrderedMaps
  import Seqs

  /**
   * One operator with its closure state.  `map` keeps the element type
   * (see README).
   */
  datatype Op<!T> =
    | MapOp(f: T -> T)
    | FilterOp(p: T -> bool)
    | TakeOp(count: int, index: nat)
    | SkipOp(count: int, index: nat)
    | DistinctOp(keys: set<T>)

  /** What an operator returns: a value, `OperationRemove` or `OperationBreak`. */
  datatype Signal<T> = Yield(value: T) | Remove | Break

  /** A chain: the source and the operators appended to it, in order. */
  datatype Chain<!T> = Chain(source: seq<T>, ops: seq<Op<T>>)

  function Filter<T>(p: T -> bool): Op<T> { FilterOp(p) }
  function Map<T>(f: T -> T): Op<T> { MapOp(f) }
  /** `take(count)`: `index++ < count ? value : OperationBreak`, the index starting at 0. */
  function Take<T>(count: int): Op<T> { TakeOp(count, 0) }
  /** `skip(count)`: `index++ < count ? OperationRemove : value`. */
  function Skip<T>(count: int): Op<T> { SkipOp(count, 0) }
  function Distinct<T>(): Op<T> { DistinctOp({}) }

  /** `this.append(op)`: a new chain over the same source. */
  function Append<T>(c: Chain<T>, op: Op<T>): (r: Chain<T>)
    ensures r.source == c.source && |r.ops| == |c.ops| + 1
    ensures r.ops[..|c.ops|] == c.ops && r.ops[|c.ops|] == op
  {
    Chain(c.source, c.ops + [op])
  }

  /** Calling one operator on one value. */
  function ApplyOp<T(==)>(op: Op<T>, v: T): (res: (Signal<T>, Op<T>))
    ensures res.0.Yield? && !op.MapOp? ==> res.0.value == v
    ensures res.0.Break? ==> op.TakeOp?
    ensures op.TakeOp? ==> res.1 == TakeOp(op.count, op.index + 1) && (res.0.Yield? <==> op.index < op.count)
    ensures op.TakeOp? ==> (res.0.Break? <==> op.index >= op.count)
    ensures op.MapOp? ==> res == (Yield(op.f(v)), op)
    ensures op.SkipOp? ==> res.1 == SkipOp(op.count, op.index + 1) && (res.0.Remove? <==> op.index < op.count)
    ensures op.DistinctOp? ==> res.1 == DistinctOp(op.keys + {v}) && (res.0.Yield? <==> v !in op.keys)
    ensures op.FilterOp? ==> res.1 == op && (res.0.Yield? <==> op.p(v))
  {
    match op
    case MapOp(f) => (Yield(f(v)), op)
    case FilterOp(p) => (if p(v) then Yield(v) else Remove, op)
    case TakeOp(count, index) => (if index < count then Yield(v) else Break, TakeOp(count, index + 1))
    case SkipOp(count, index) => (if index < count then Remove else Yield(v), SkipOp(count, index + 1))
    case DistinctOp(keys) =>
      if v in keys then (Remove, DistinctOp(keys + {v})) else (Yield(v), DistinctOp(keys + {v}))
  }

  /**
   * The inner loop of `createIterator`: each operator gets the previous one's
   * value, and the first `Remove` or `Break` ends the loop, so later operators
   * neither see the element nor advance their state.
   */
  function Pass<T(==)>(ops: seq<Op<T>>, v: T): (res: (Signal<T>, seq<Op<T>>))
    ensures |res.1| == |ops|
    decreases |ops|
  {
    if ops == [] then (Yield(v), [])
    else
      var (s, op') := ApplyOp(ops[0], v);
      if s.Yield? then
        var (s2, rest') := Pass(ops[1..], s.value);
        (s2, [op'] + rest')
      else (s, [op'] + ops[1..])
  }

  /**
   * `createIterator` run to the end: the values yielded and the operators'
   * states afterwards.  A `Break` ends the iteration, a `Remove` drops the
   * element.
   */
  function Iterate<T(==)>(ops: seq<Op<T>>, source: seq<T>): (res: (seq<T>, seq<Op<T>>))
    ensures |res.0| <= |source|
    ensures |res.1| == |ops|
    decreases |source|
  {
    if source == [] then ([], ops)
    else
      var (s, ops1) := Pass(ops, source[0]);
      match s
      case Break => ([], ops1)
      case Remove => Iterate(ops1, source[1..])
      case Yield(v) =>
        var (ys, ops2) := Iterate(ops1, source[1..]);
        ([v] + ys, ops2)
  }

  /** `toArray()`; the chain's operators keep the state the pass left them in. */
  function ToArray<T(==)>(c: Chain<T>): (res: (seq<T>, Chain<T>))
    ensures res.1.source == c.source && |res.1.ops| == |c.ops|
  {
    var (ys, ops') := Iterate(c.ops, c.source);
    (ys, Chain(c.source, ops'))
  }

  lemma PassSingle<T>(op: Op<T>, v: T)
    ensures Pass([op], v) == (ApplyOp(op, v).0, [ApplyOp(op, v).1])
  {
    var one := [op];
    assert one[0] == op && one[1..] == [];
    var (s, op') := ApplyOp(op, v);
    assert [op'] + one[1..] == [op'];
    if s.Yield? {
      assert Pass(one[1..], s.value) == (Yield(s.value), []);
    }
  }

  /** One element of an iteration through a single operator. */
  lemma IterateSingle<T>(op: Op<T>, source: seq<T>)
    requires source != []
    ensures var (s, op') := ApplyOp(op, source[0]);
      var (ys, after) := Iterate([op'], source[1..]);
      Iterate([op], source) ==
        match s
        case Break => ([], [op'])
        case Remove => (ys, after)
        case Yield(v) => ([v] + ys, after)
  {
    PassSingle(op, source[0]);
  }

  /** `chain(source)` with no operators yields the source unchanged. */
  lemma {:induction false} IterateNoOps<T>(source: seq<T>)
    ensures Iterate([], source) == (source, [])
    decreases |source|
  {
    if source != [] {
      IterateNoOps(source[1..]);
      assert source == [source[0]] + source[1..];
    }
  }

  /** Passing through one more operator is passing through the others and then through it. */
  lemma {:induction false} PassAppend<T>(ops: seq<Op<T>>, op: Op<T>, v: T)
    ensures var (s1, ops1) := Pass(ops, v);
      Pass(ops + [op], v) ==
        if s1.Yield? then (ApplyOp(op, s1.value).0, ops1 + [ApplyOp(op, s1.value).1])
        else (s1, ops1 + [op])
    decreases |ops|
  {
    if ops == [] {
      assert ops + [op] == [op];
      PassSingle(op, v);
      var empty: seq<Op<T>> := [];
      assert empty + [ApplyOp(op, v).1] == [ApplyOp(op, v).1];
    } else {
      assert (ops + [op])[0] == ops[0];
      assert (ops + [op])[1..] == ops[1..] + [op];
      var (s, op') := ApplyOp(ops[0], v);
      if s.Yield? {
        PassAppend(ops[1..], op, s.value);
        var (s2, rest1) := Pass(ops[1..], s.value);
        if s2.Yield? {
          var last := ApplyOp(op, s2.value).1;
          assert [op'] + (rest1 + [last]) == ([op'] + rest1) + [last];
        } else {
          assert [op'] + (rest1 + [op]) == ([op'] + rest1) + [op];
        }
      } else {
        assert [op'] + (ops[1..] + [op]) == ([op'] + ops[1..]) + [op];
      }
    }
  }

  /**
   * Fusion: the values a chain yields with one more operator are the values
   * that operator yields when run over the chain's own output.  Operators
   * compose as stages, and an element removed by an earlier operator is
   * never seen by a later one.
   */
  lemma {:induction false} IterateAppend<T>(ops: seq<Op<T>>, op: Op<T>, source: seq<T>)
    ensures Iterate(ops + [op], source).0 == Iterate([op], Iterate(ops, source).0).0
    decreases |source|
  {
    if source != [] {
      var v := source[0];
      PassAppend(ops, op, v);
      var (s1, ops1) := Pass(ops, v);
      var ys := Iterate(ops1, source[1..]).0;
      match s1
      case Break =>
      case Remove =>
        IterateAppend(ops1, op, source[1..]);
      case Yield(w) =>
        var (s2, op') := ApplyOp(op, w);
        IterateAppend(ops1, op', source[1..]);
        assert Iterate(ops, source).0 == [w] + ys;
        assert ([w] + ys)[0] == w && ([w] + ys)[1..] == ys;
        IterateSingle(op, [w] + ys);
    }
  }

  /** A single `filter` yields exactly the elements satisfying the predicate, in order. */
  lemma {:induction false} FilterIsSelect<T>(p: T -> bool, source: seq<T>)
    ensures Iterate([FilterOp(p)], source).0 == Seqs.Select(source, p)
    decreases |source|
  {
    if source != [] {
      IterateSingle(FilterOp(p), source);
      FilterIsSelect(p, source[1..]);
      assert source == [source[0]] + source[1..];
      Seqs.SelectAppend([source[0]], source[1..], p);
      assert Seqs.Select([source[0]], p) == if p(source[0]) then [source[0]] else [] by {
        assert [source[0]][..0] == [];
      }
    }
  }

  /** A single `map` yields every element transformed, in order. */
  lemma {:induction false} MapIsPointwise<T>(f: T -> T, source: seq<T>)
    ensures var ys := Iterate([MapOp(f)], source).0;
      |ys| == |source| && forall i :: 0 <= i < |source| ==> ys[i] == f(source[i])
    decreases |source|
  {
    if source != [] {
      IterateSingle(MapOp(f), source);
      MapIsPointwise(f, source[1..]);
    }
  }

  /** `min(|source|, max(0, count - index))`: how many elements a counter at `index` still lets through. */
  function Remaining(count: int, index: nat, len: nat): (n: nat)
    ensures n <= len
  {
    if count - index < 0 then 0 else if count - index > len then len else count - index
  }

  /**
   * `take(count)`, with `index` elements already seen, yields the first
   * `count - index` elements (none once the counter has run out).
   */
  lemma {:induction false} TakeIsPrefix<T>(count: int, index: nat, source: seq<T>)
    ensures Iterate([TakeOp(count, index)], source).0 == source[..Remaining(count, index, |source|)]
    decreases |source|
  {
    if source != [] {
      IterateSingle(TakeOp(count, index), source);
      TakeIsPrefix(count, index + 1, source[1..]);
      var n := Remaining(count, index, |source|);
      if index < count {
        assert n == Remaining(count, index + 1, |source| - 1) + 1;
        assert source[..n] == [source[0]] + source[1..][..n - 1];
      }
    }
  }

  /** `skip(count)`, with `index` elements already seen, drops the first `count - index` elements. */
  lemma {:induction false} SkipIsSuffix<T>(count: int, index: nat, source: seq<T>)
    ensures Iterate([SkipOp(count, index)], source).0 == source[Remaining(count, index, |source|)..]
    decreases |source|
  {
    if source != [] {
      IterateSingle(SkipOp(count, index), source);
      SkipIsSuffix(count, index + 1, source[1..]);
      var n := Remaining(count, index, |source|);
      if index < count {
        assert n == Remaining(count, index + 1, |source| - 1) + 1;
        assert source[n..] == source[1..][n - 1..];
      } else {
        assert source == [source[0]] + source[1..];
      }
    }
  }

  /** `distinct`, having seen `keys`, yields the first occurrence of each new value, in order. */
  lemma {:induction false} DistinctIsFirstOccurrences<T>(keys: set<T>, source: seq<T>)
    ensures Iterate([DistinctOp(keys)], source).0 == Seqs.FirstOccurrences(source, keys)
    decreases |source|
  {
    if source != [] {
      var v := source[0];
      IterateSingle(DistinctOp(keys), source);
      DistinctIsFirstOccurrences(keys + {v}, source[1..]);
      assert source == [v] + source[1..];
      Seqs.FirstOccurrencesAppend([v], source[1..], keys);
      assert (set x | x in [v]) == {v};
      assert Seqs.FirstOccurrences([v], keys) == if v in keys then [] else [v] by {
        assert [v][..0] == [];
      }
    }
  }

  /**
   * `take` after `filter` counts only the elements that passed the filter:
   * the chain yields the first `n` matching elements.
   */
  lemma FilterThenTake<T>(p: T -> bool, n: nat, source: seq<T>)
    ensures var matching := Seqs.Select(source, p);
      Iterate([Filter(p), Take(n)], source).0 == matching[..Remaining(n, 0, |matching|)]
  {
    IterateAppend([FilterOp(p)], TakeOp(n, 0), source);
    FilterIsSelect(p, source);
    TakeIsPrefix(n, 0, Seqs.Select(source, p));
  }

  /** After a pass over `source`, a lone `take` counter has advanced by at least the number of elements it yielded. */
  lemma {:induction false} TakeCounterAfterPass<T>(count: int, index: nat, source: seq<T>)
    ensures var after := Iterate([TakeOp(count, index)], source).1;
      after[0].TakeOp? && after[0].count == count &&
      after[0].index >= index + Remaining(count, index, |source|) &&
      (|source| >= count - index ==> after[0].index >= count)
    decreases |source|
  {
    if source == [] {
      assert Iterate([TakeOp(count, index)], source).1 == [TakeOp(count, index)];
    } else {
      IterateSingle(TakeOp(count, index), source);
      TakeCounterAfterPass(count, index + 1, source[1..]);
    }
  }

  /**
   * The counters live in closures: once a chain ending in `take(n)` has been
   * iterated over at least `n` elements, iterating it again yields nothing.
   */
  lemma ReiteratedTakeIsEmpty<T>(n: int, source: seq<T>)
    requires |source| >= n
    ensures var (_, used) := ToArray(Chain(source, [Take(n)]));
      ToArray(used).0 == []
  {
    TakeCounterAfterPass(n, 0, source);
    var after := Iterate([TakeOp(n, 0)], source).1;
    assert after == [TakeOp(n, after[0].index)];
    TakeIsPrefix(n, after[0].index, source);
  }

  /**
   * `find(predicate)`: consumes the chain only up to the first match, so the
   * operators after it keep the state they had at that point.
   */
  function Find<T(==)>(c: Chain<T>, pred: T -> bool): (res: (Option<T>, Chain<T>))
    ensures res.0.Some? ==> pred(res.0.value)
    ensures res.1.source == c.source && |res.1.ops| == |c.ops|
    decreases |c.source|
  {
    if c.source == [] then (None, c)
    else
      var (s, ops1) := Pass(c.ops, c.source[0]);
      match s
      case Break => (None, Chain(c.source, ops1))
      case Remove =>
        var (r, c') := Find(Chain(c.source[1..], ops1), pred);
        (r, Chain(c.source, c'.ops))
      case Yield(v) =>
        if pred(v) then (Some(v), Chain(c.source, ops1))
        else
          var (r, c') := Find(Chain(c.source[1..], ops1), pred);
          (r, Chain(c.source, c'.ops))
  }

  /** The first element of `ys` satisfying `pred`, if any. */
  function FirstMatch<T>(ys: seq<T>, pred: T -> bool): Option<T> {
    var matching := Seqs.Select(ys, pred);
    if matching == [] then None else Some(matching[0])
  }

  /** `find` returns the first value the chain yields that satisfies the predicate, or nothing. */
  lemma {:induction false} FindIsFirstMatch<T>(c: Chain<T>, pred: T -> bool)
    ensures Find(c, pred).0 == FirstMatch(ToArray(c).0, pred)
    decreases |c.source|
  {
    if c.source != [] {
      var (s, ops1) := Pass(c.ops, c.source[0]);
      var rest := Chain(c.source[1..], ops1);
      var ys := Iterate(ops1, c.source[1..]).0;
      match s
      case Break =>
      case Remove =>
        FindIsFirstMatch(rest, pred);
      case Yield(v) =>
        FindIsFirstMatch(rest, pred);
        Seqs.SelectAppend([v], ys, pred);
        assert Seqs.Select([v], pred) == if pred(v) then [v] else [] by {
          assert [v][..0] == [];
        }
    }
  }

  function IsTruthy(): Value -> bool {
    v => Truthy(v)
  }

  /** `first()`: `find(x => !!x)`. */
  function First(c: Chain<Value>): (res: (Option<Value>, Chain<Value>))
    ensures res.0.Some? ==> Truthy(res.0.value)
  {
    Find(c, IsTruthy())
  }

  /** `first()` returns the first truthy value the chain yields; falsy values before it are passed over. */
  lemma FirstIsFirstTruthy(c: Chain<Value>)
    ensures var ys := ToArray(c).0;
      var r := First(c).0;
      (r.None? <==> forall i :: 0 <= i < |ys| ==> !Truthy(ys[i])) &&
      (r.Some? ==> exists i :: 0 <= i < |ys| && ys[i] == r.value && forall j :: 0 <= j < i ==> !Truthy(ys[j]))
  {
    var ys := ToArray(c).0;
    FindIsFirstMatch(c, IsTruthy());
    if Seqs.Select(ys, IsTruthy()) != [] {
      var i := SelectFirst(ys, IsTruthy());
    }
  }

  /** The first element of `Select(ys, p)` is the first element of `ys` satisfying `p`. */
  lemma {:induction false} SelectFirst<T>(ys: seq<T>, p: T -> bool) returns (i: nat)
    requires Seqs.Select(ys, p) != []
    ensures i < |ys| && ys[i] == Seqs.Select(ys, p)[0]
    ensures forall j :: 0 <= j < i ==> !p(ys[j])
    decreases |ys|
  {
    var init := ys[..|ys| - 1];
    var last := ys[|ys| - 1];
    var m0 := Seqs.Select(init, p);
    assert ys == init + [last];
    Seqs.SelectSnoc(init, last, p);
    if m0 != [] {
      i := SelectFirst(init, p);
      assert Seqs.Select(ys, p)[0] == m0[0];
      assert ys[i] == init[i];
      forall j | 0 <= j < i ensures !p(ys[j]) {
        assert ys[j] == init[j];
      }
    } else {
      i := |ys| - 1;
      assert Seqs.Select(ys, p) == (if p(last) then [last] else []);
      forall j | 0 <= j < i ensures !p(ys[j]) {
        assert ys[j] == init[j];
        assert !p(init[j]);
      }
    }
  }

  /** `reducer` folded over `ys` from the left, starting at `acc`. */
  function FoldLeft<T, U>(reducer: (U, T) -> U, acc: U, ys: seq<T>): U
    decreases |ys|
  {
    if ys == [] then acc
    else reducer(FoldLeft(reducer, acc, ys[..|ys| - 1]), ys[|ys| - 1])
  }

  /** The left fold consumes its first element first. */
  lemma {:induction false} FoldLeftCons<T, U>(reducer: (U, T) -> U, acc: U, x: T, ys: seq<T>)
    ensures FoldLeft(reducer, acc, [x] + ys) == FoldLeft(reducer, reducer(acc, x), ys)
    decreases |ys|
  {
    if ys == [] {
      assert ([x] + ys)[..0] == [];
    } else {
      assert ([x] + ys)[..|ys|] == [x] + ys[..|ys| - 1];
      FoldLeftCons(reducer, acc, x, ys[..|ys| - 1]);
    }
  }

  /** `reduce(reducer, initialValue)`: the loop over the chain's values. */
  method Reduce<T(==), U>(c: Chain<T>, reducer: (U, T) -> U, initialValue: U) returns (result: U, used: Chain<T>)
    ensures result == FoldLeft(reducer, initialValue, ToArray(c).0)
    ensures used == ToArray(c).1
  {
    var ys;
    ys, used := ToArray(c).0, ToArray(c).1;
    result := initialValue;
    var i := 0;
    while i < |ys|
      invariant 0 <= i <= |ys|
      invariant result == FoldLeft(reducer, initialValue, ys[..i])
    {
      assert ys[..i + 1][..i] == ys[..i];
      result := reducer(result, ys[i]);
      i := i + 1;
    }
    assert ys[..|ys|] == ys;
  }

  /** One group of `groupBy`: `{ key, values }`. */
  datatype Group<K, V> = Group(key: K, values: seq<V>)

  /** The keys of `ys`, in order, with repeats. */
  function KeySeq<T, K>(ys: seq<T>, keyOf: T -> K): (ks: seq<K>)
    ensures |ks| == |ys| && forall i :: 0 <= i < |ys| ==> ks[i] == keyOf(ys[i])
  {
    seq(|ys|, i requires 0 <= i < |ys| => keyOf(ys[i]))
  }

  function KeyIs<T, K(==)>(keyOf: T -> K, k: K): T -> bool {
    y => keyOf(y) == k
  }

  /** The values selected from the elements with key `k`, in source order. */
  function ValuesFor<T, K(==), V>(ys: seq<T>, keyOf: T -> K, valueOf: T -> V, k: K): seq<V> {
    var members := Seqs.Select(ys, KeyIs(keyOf, k));
    seq(|members|, i requires 0 <= i < |members| => valueOf(members[i]))
  }

  /** The `lookup` map after the loop over `ys`: each element's value pushed onto its key's group. */
  function GroupInto<T, K(==,!new), V>(ys: seq<T>, keyOf: T -> K, valueOf: T -> V): OMap<K, seq<V>>
    decreases |ys|
  {
    if ys == [] then []
    else
      var m := GroupInto(ys[..|ys| - 1], keyOf, valueOf);
      var y := ys[|ys| - 1];
      var k := keyOf(y);
      Set(m, k, Get(m, k).GetOr([]) + [valueOf(y)])
  }

  /** `groupBy(keySelector, valueSelector)`; an omitted `valueSelector` is `x => x`. */
  function GroupBy<T(==), K(==,!new), V>(c: Chain<T>, keyOf: T -> K, valueOf: T -> V): (res: (seq<Group<K, V>>, Chain<T>))
    ensures |res.0| == |GroupInto(ToArray(c).0, keyOf, valueOf)|
    ensures res.1 == ToArray(c).1
  {
    var (ys, used) := ToArray(c);
    var m := GroupInto(ys, keyOf, valueOf);
    (seq(|m|, i requires 0 <= i < |m| => Group(m[i].0, m[i].1)), used)
  }

  /** The groups appear in the order their keys first occur. */
  lemma {:induction false} GroupIntoKeys<T, K(!new), V>(ys: seq<T>, keyOf: T -> K, valueOf: T -> V)
    ensures Keys(GroupInto(ys, keyOf, valueOf)) == Seqs.FirstOccurrences(KeySeq(ys, keyOf), {})
    decreases |ys|
  {
    if ys != [] {
      var init := ys[..|ys| - 1];
      GroupIntoKeys(init, keyOf, valueOf);
      assert KeySeq(ys, keyOf)[..|ys| - 1] == KeySeq(init, keyOf);
      var k := keyOf(ys[|ys| - 1]);
      var m := GroupInto(init, keyOf, valueOf);
      assert k in Keys(m) <==> k in KeySeq(init, keyOf);
    }
  }

  /** Each group holds the selected values of the elements with its key, in source order. */
  lemma {:induction false} GroupIntoValues<T, K(!new), V>(ys: seq<T>, keyOf: T -> K, valueOf: T -> V, k: K)
    ensures Get(GroupInto(ys, keyOf, valueOf), k) ==
      if k in KeySeq(ys, keyOf) then Some(ValuesFor(ys, keyOf, valueOf, k)) else None
    decreases |ys|
  {
    if ys != [] {
      var init := ys[..|ys| - 1];
      var y := ys[|ys| - 1];
      var m := GroupInto(init, keyOf, valueOf);
      var ky := keyOf(y);
      assert GroupInto(ys, keyOf, valueOf) == Set(m, ky, Get(m, ky).GetOr([]) + [valueOf(y)]);
      var r := Set(m, ky, Get(m, ky).GetOr([]) + [valueOf(y)]);
      var before := ValuesFor(init, keyOf, valueOf, k);
      var after := ValuesFor(ys, keyOf, valueOf, k);
      GroupIntoValues(init, keyOf, valueOf, k);
      KeySeqSnoc(ys, keyOf, k);
      ValuesForSnoc(ys, keyOf, valueOf, k);
      if ky == k {
        if k !in KeySeq(init, keyOf) {
          Seqs.SelectNone(init, KeyIs(keyOf, k));
          assert before == [];
        }
        assert Get(m, k).GetOr([]) == before;
        assert after == before + [valueOf(y)];
        assert Get(r, k) == Some(after);
      } else {
        assert Get(r, k) == Get(m, k);
        assert after == before;
      }
    }
  }

  /** A key occurs in `ys` when it occurs before the last element or is the last element's key. */
  lemma KeySeqSnoc<T, K>(ys: seq<T>, keyOf: T -> K, k: K)
    requires ys != []
    ensures k in KeySeq(ys, keyOf) <==> k in KeySeq(ys[..|ys| - 1], keyOf) || k == keyOf(ys[|ys| - 1])
  {
    assert KeySeq(ys, keyOf) == KeySeq(ys[..|ys| - 1], keyOf) + [keyOf(ys[|ys| - 1])];
  }

  /** The values for `k` grow by the last element's value exactly when its key is `k`. */
  lemma ValuesForSnoc<T, K, V>(ys: seq<T>, keyOf: T -> K, valueOf: T -> V, k: K)
    requires ys != []
    ensures var y := ys[|ys| - 1];
      ValuesFor(ys, keyOf, valueOf, k)
        == ValuesFor(ys[..|ys| - 1], keyOf, valueOf, k) + (if keyOf(y) == k then [valueOf(y)] else [])
  {
    var init := ys[..|ys| - 1];
    var y := ys[|ys| - 1];
    assert ys == init + [y];
    Seqs.SelectSnoc(init, y, KeyIs(keyOf, k));
  }

  /** `groupBy` yields one group per distinct key, in first-occurrence order, with its values in source order. */
  lemma GroupByGroups<T, K(!new), V>(c: Chain<T>, keyOf: T -> K, valueOf: T -> V)
    ensures var ys := ToArray(c).0;
      var groups := GroupBy(c, keyOf, valueOf).0;
      var keys := Seqs.FirstOccurrences(KeySeq(ys, keyOf), {});
      |groups| == |keys| &&
      forall i :: 0 <= i < |groups| ==>
        groups[i].key == keys[i] && groups[i].values == ValuesFor(ys, keyOf, valueOf, keys[i])
  {
    var ys := ToArray(c).0;
    var m := GroupInto(ys, keyOf, valueOf);
    GroupIntoKeys(ys, keyOf, valueOf);
    var keys := Seqs.FirstOccurrences(KeySeq(ys, keyOf), {});
    assert Valid(m) by {
      assert Keys(m) == keys;
    }
    forall i | 0 <= i < |m|
      ensures m[i].1 == ValuesFor(ys, keyOf, valueOf, m[i].0)
    {
      var k := m[i].0;
      assert Keys(m)[i] == k;
      GroupIntoValues(ys, keyOf, valueOf, k);
      ValidGetAt(m, i);
    }
  }
}
