/**
 * src/utils/pipe.ts: `definePipe().with(ops)(flags)(value)`.  The named
 * operations are applied in the order of their keys, each to the previous
 * result; an operation whose key starts with `_` always runs, any other runs
 * only when its flag is truthy.
 */
module Pipes {
  import opened Wrappers
  import opened Values
  import opened OrderedMaps
  import Seqs

  /** `String(key).startsWith('_')` */
  predicate IsBase(key: string) {
    |key| > 0 && key[0] == '_'
  }

  /** Whether the operation under `key` runs for these flags; a missing flag reads as `undefined`. */
  predicate Runs(flags: Rec, key: string) {
    IsBase(key) || Truthy(Field(flags, key))
  }

  function RunsFn<T>(flags: Rec): ((string, T -> T)) -> bool {
    (op: (string, T -> T)) => Runs(flags, op.0)
  }

  /** The operations applied one after another, first to last. */
  function ApplyAll<T>(ops: seq<(string, T -> T)>, value: T): T {
    if ops == [] then value
    else ops[|ops| - 1].1(ApplyAll(ops[..|ops| - 1], value))
  }

  /**
   * The reduce over the keys of `ops`: each operation that runs is applied
   * to the running value, the others are passed over.  The result is the
   * operations that run, composed in key order.
   */
  method Pipe<T>(ops: OMap<string, T -> T>, flags: Rec, value: T) returns (result: T)
    ensures result == ApplyAll(Seqs.Select(ops, RunsFn(flags)), value)
  {
    ghost var ran: seq<(string, T -> T)> := [];
    result := value;
    var i := 0;
    while i < |ops|
      invariant i <= |ops|
      invariant ran == Seqs.Select(ops[..i], RunsFn(flags))
      invariant result == ApplyAll(ran, value)
    {
      var (key, op) := ops[i];
      PrefixStep(ops, i, RunsFn(flags));
      if IsBase(key) || Truthy(Field(flags, key)) {
        ApplyAllSnoc(ran, ops[i], value);
        ran := ran + [ops[i]];
        result := op(result);
      }
      i := i + 1;
    }
    assert ops[..i] == ops;
  }

  lemma PrefixStep<T>(s: seq<T>, i: nat, p: T -> bool)
    requires i < |s|
    ensures Seqs.Select(s[..i + 1], p) == Seqs.Select(s[..i], p) + (if p(s[i]) then [s[i]] else [])
  {
    assert s[..i + 1] == s[..i] + [s[i]];
    Seqs.SelectSnoc(s[..i], s[i], p);
  }

  lemma ApplyAllSnoc<T>(ops: seq<(string, T -> T)>, op: (string, T -> T), value: T)
    ensures ApplyAll(ops + [op], value) == op.1(ApplyAll(ops, value))
  {
    assert (ops + [op])[..|ops|] == ops;
  }

  /** With no `_` operation and no truthy flag, the pipe returns its input. */
  lemma NothingRunsIsIdentity<T>(ops: OMap<string, T -> T>, flags: Rec, value: T)
    requires forall i :: 0 <= i < |ops| ==> !IsBase(ops[i].0) && !Truthy(Field(flags, ops[i].0))
    ensures ApplyAll(Seqs.Select(ops, RunsFn(flags)), value) == value
  {
    Seqs.SelectNone(ops, RunsFn(flags));
  }

  /** Every `_` operation runs, whatever the flags. */
  lemma BaseOpsAlwaysRun<T>(ops: OMap<string, T -> T>, flags: Rec)
    ensures forall i :: 0 <= i < |ops| && IsBase(ops[i].0) ==> ops[i] in Seqs.Select(ops, RunsFn(flags))
  {
  }

  /**
   * Only the truthiness of the flags of non-`_` operations matters: flag
   * objects that agree on it run the same operations.
   */
  lemma {:induction false} FlagsDecide<T>(ops: OMap<string, T -> T>, flags1: Rec, flags2: Rec)
    requires forall i :: 0 <= i < |ops| && !IsBase(ops[i].0) ==>
      Truthy(Field(flags1, ops[i].0)) == Truthy(Field(flags2, ops[i].0))
    ensures Seqs.Select(ops, RunsFn(flags1)) == Seqs.Select(ops, RunsFn(flags2))
    decreases |ops|
  {
    if ops != [] {
      FlagsDecide(ops[..|ops| - 1], flags1, flags2);
      assert Runs(flags1, ops[|ops| - 1].0) == Runs(flags2, ops[|ops| - 1].0);
    }
  }

  /** When every operation runs, the pipe is the composition of all of them in key order. */
  lemma AllRun<T>(ops: OMap<string, T -> T>, flags: Rec, value: T)
    requires forall i :: 0 <= i < |ops| ==> Runs(flags, ops[i].0)
    ensures ApplyAll(Seqs.Select(ops, RunsFn(flags)), value) == ApplyAll(ops, value)
  {
    Seqs.SelectAll(ops, RunsFn(flags));
  }
}
