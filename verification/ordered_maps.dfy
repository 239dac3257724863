/**
 * Insertion-ordered string-or-other keyed maps: JavaScript's `Map`, and plain
 * objects whose keys are iterated in insertion order.  Setting an existing key
 * replaces its value where it stands; setting a new key appends it.
 */
module OrderedMaps {
  import opened Wrappers
  import Seqs

  /** Entries in insertion order. */
  type OMap<K, V> = seq<(K, V)>

  function Keys<K, V>(m: OMap<K, V>): seq<K> {
    seq(|m|, i requires 0 <= i < |m| => m[i].0)
  }

  function Values<K, V>(m: OMap<K, V>): seq<V> {
    seq(|m|, i requires 0 <= i < |m| => m[i].1)
  }

  /** No key appears twice, as in every `Map` and object. */
  predicate Valid<K(==), V>(m: OMap<K, V>) {
    Seqs.Distinct(Keys(m))
  }

  /** The position of `k`'s entry. */
  function IndexOf<K(==), V>(m: OMap<K, V>, k: K): (r: Option<nat>)
    ensures r.Some? ==> r.value < |m| && m[r.value].0 == k
    ensures r.Some? ==> forall j :: 0 <= j < r.value ==> m[j].0 != k
    ensures r.None? ==> forall j :: 0 <= j < |m| ==> m[j].0 != k
  {
    if m == [] then None
    else if m[0].0 == k then Some(0)
    else
      match IndexOf(m[1..], k)
      case None => None
      case Some(i) => Some(i + 1)
  }

  /** `map.get(k)`, with `None` for a missing key. */
  function Get<K(==), V>(m: OMap<K, V>, k: K): Option<V> {
    match IndexOf(m, k)
    case None => None
    case Some(i) => Some(m[i].1)
  }

  /** A key has an entry exactly when it is among the keys. */
  lemma GetSomeIffKey<K, V>(m: OMap<K, V>, k: K)
    ensures Get(m, k).Some? <==> k in Keys(m)
  {
    if k in Keys(m) {
      var i :| 0 <= i < |Keys(m)| && Keys(m)[i] == k;
      assert m[i].0 == k;
    }
    match IndexOf(m, k)
    case None =>
    case Some(j) => assert Keys(m)[j] == k;
  }

  /** `map.set(k, v)` / `obj[k] = v` */
  function Set<K(==,!new), V>(m: OMap<K, V>, k: K, v: V): (r: OMap<K, V>)
    ensures Get(r, k) == Some(v)
    ensures forall k' :: k' != k ==> Get(r, k') == Get(m, k')
    ensures k in Keys(m) ==> Keys(r) == Keys(m)
    ensures k !in Keys(m) ==> Keys(r) == Keys(m) + [k]
    ensures Valid(m) ==> Valid(r)
  {
    match IndexOf(m, k)
    case Some(i) =>
      var r := m[i := (k, v)];
      assert Keys(m)[i] == k;
      assert Keys(r) == Keys(m);
      IndexOfSameHits(r, m, k);
      forall k' | k' != k
        ensures Get(r, k') == Get(m, k')
      {
        IndexOfSameHits(r, m, k');
      }
      r
    case None =>
      var r := m + [(k, v)];
      assert Keys(r) == Keys(m) + [k];
      assert k !in Keys(m);
      assert r[|m|] == (k, v);
      forall k' | k' != k
        ensures Get(r, k') == Get(m, k')
      {
        IndexOfAppend(m, (k, v), k');
      }
      r
  }

  /** Setting a key that has no entry appends it at the end. */
  lemma SetAppends<K(!new), V>(m: OMap<K, V>, k: K, v: V)
    requires k !in Keys(m)
    ensures Set(m, k, v) == m + [(k, v)]
  {
  }

  /** `map.delete(k)` */
  function Remove<K(==,!new), V>(m: OMap<K, V>, k: K): (r: OMap<K, V>)
    ensures Get(r, k) == None
    ensures forall k' :: k' != k ==> Get(r, k') == Get(m, k')
    ensures forall i :: 0 <= i < |r| ==> r[i] in m && r[i].0 != k
    ensures Valid(m) ==> Valid(r)
  {
    if m == [] then []
    else
      var rest := Remove(m[1..], k);
      RemoveStep(m, k, rest);
      if m[0].0 == k then rest else [m[0]] + rest
  }

  /** One step of `Remove`: the first entry is dropped when it carries `k` and kept otherwise. */
  lemma RemoveStep<K(!new), V>(m: OMap<K, V>, k: K, rest: OMap<K, V>)
    requires m != []
    requires Get(rest, k) == None
    requires forall k' :: k' != k ==> Get(rest, k') == Get(m[1..], k')
    requires forall i :: 0 <= i < |rest| ==> rest[i] in m[1..] && rest[i].0 != k
    requires Valid(m[1..]) ==> Valid(rest)
    ensures var r := if m[0].0 == k then rest else [m[0]] + rest;
      && Get(r, k) == None
      && (forall k' :: k' != k ==> Get(r, k') == Get(m, k'))
      && (forall i :: 0 <= i < |r| ==> r[i] in m && r[i].0 != k)
      && (Valid(m) ==> Valid(r))
  {
    assert m == [m[0]] + m[1..];
    assert Keys(m[1..]) == Keys(m)[1..];
    forall k' ensures Get(m, k') == if m[0].0 == k' then Some(m[0].1) else Get(m[1..], k') {
      GetCons(m[0], m[1..], k');
    }
    if m[0].0 != k {
      var r := [m[0]] + rest;
      assert r[1..] == rest;
      forall k' ensures Get(r, k') == if m[0].0 == k' then Some(m[0].1) else Get(rest, k') {
        GetCons(m[0], rest, k');
      }
      if Valid(m) {
        assert Keys(r) == [m[0].0] + Keys(rest);
        assert Keys(m)[0] == m[0].0;
        forall i | 0 <= i < |rest| ensures rest[i].0 != m[0].0 {
          var j :| 0 <= j < |m[1..]| && m[1..][j] == rest[i];
          assert Keys(m)[j + 1] == rest[i].0;
        }
      }
    }
  }

  /** Two maps whose entries carry `k` at the same positions find `k` at the same position. */
  lemma IndexOfSameHits<K, V>(m1: OMap<K, V>, m2: OMap<K, V>, k: K)
    requires |m1| == |m2|
    requires forall j :: 0 <= j < |m1| ==> (m1[j].0 == k <==> m2[j].0 == k)
    ensures IndexOf(m1, k) == IndexOf(m2, k)
  {
    match IndexOf(m1, k)
    case None =>
    case Some(a) =>
  }

  lemma IndexOfAppend<K, V>(m: OMap<K, V>, e: (K, V), k: K)
    requires e.0 != k
    ensures IndexOf(m + [e], k) == IndexOf(m, k)
  {
    assert forall j :: 0 <= j < |m| ==> (m + [e])[j] == m[j];
    assert (m + [e])[|m|] == e;
    match IndexOf(m, k)
    case None =>
    case Some(b) =>
  }

  lemma GetCons<K, V>(e: (K, V), rest: OMap<K, V>, k: K)
    ensures Get([e] + rest, k) == if e.0 == k then Some(e.1) else Get(rest, k)
  {
    assert ([e] + rest)[1..] == rest;
  }

  /** The entries of `kvs` set one after another into `m`: `Object.assign(m, kvs)`. */
  function SetAll<K(==,!new), V>(m: OMap<K, V>, kvs: OMap<K, V>): OMap<K, V> {
    if kvs == [] then m
    else Set(SetAll(m, kvs[..|kvs| - 1]), kvs[|kvs| - 1].0, kvs[|kvs| - 1].1)
  }

  /** The value of the last entry for `k` in `kvs`. */
  function LastFor<K(==), V>(kvs: OMap<K, V>, k: K): Option<V> {
    if kvs == [] then None
    else if kvs[|kvs| - 1].0 == k then Some(kvs[|kvs| - 1].1)
    else LastFor(kvs[..|kvs| - 1], k)
  }

  /** After a sequence of sets, a key holds the value it was last set to, or its old value. */
  lemma {:induction false} SetAllGet<K(!new), V>(m: OMap<K, V>, kvs: OMap<K, V>, k: K)
    ensures Get(SetAll(m, kvs), k) == if LastFor(kvs, k).Some? then LastFor(kvs, k) else Get(m, k)
    decreases |kvs|
  {
    if kvs != [] {
      SetAllGet(m, kvs[..|kvs| - 1], k);
    }
  }

  /**
   * After a sequence of sets, the keys are the old keys followed by the new
   * ones in the order they were first set.
   */
  lemma {:induction false} SetAllKeys<K(!new), V>(m: OMap<K, V>, kvs: OMap<K, V>)
    ensures Keys(SetAll(m, kvs)) == Keys(m) + Seqs.FirstOccurrences(Keys(kvs), set k | k in Keys(m))
    decreases |kvs|
  {
    if kvs != [] {
      var init := kvs[..|kvs| - 1];
      var (k, v) := kvs[|kvs| - 1];
      SetAllKeys(m, init);
      assert Keys(kvs)[..|kvs| - 1] == Keys(init);
      var before := SetAll(m, init);
      assert k in Keys(before) <==> k in Keys(m) || k in Keys(init);
    }
  }

  /** In a valid map the last entry for a key is its only entry. */
  lemma {:induction false} ValidLastFor<K, V>(m: OMap<K, V>, k: K)
    requires Valid(m)
    ensures LastFor(m, k) == Get(m, k)
    decreases |m|
  {
    if m != [] {
      var init := m[..|m| - 1];
      var last := m[|m| - 1];
      assert m == init + [last];
      assert Keys(init) == Keys(m)[..|m| - 1];
      ValidLastFor(init, k);
      if last.0 != k {
        IndexOfAppend(init, last, k);
      } else {
        forall j | 0 <= j < |m| - 1 ensures m[j].0 != k {
          assert Keys(m)[j] != Keys(m)[|m| - 1];
        }
        assert IndexOf(m, k) == Some(|m| - 1);
      }
    }
  }

  /** In a valid map the entry at position `i` is the one `get` finds for its key. */
  lemma ValidGetAt<K, V>(m: OMap<K, V>, i: nat)
    requires Valid(m) && i < |m|
    ensures Get(m, m[i].0) == Some(m[i].1)
  {
    var k := m[i].0;
    forall j | 0 <= j < i ensures m[j].0 != k {
      assert Keys(m)[j] != Keys(m)[i];
    }
    assert IndexOf(m, k) == Some(i);
  }

  /** Setting two runs of entries is setting the first run, then the second. */
  lemma {:induction false} SetAllAppend<K(!new), V>(m: OMap<K, V>, a: OMap<K, V>, b: OMap<K, V>)
    ensures SetAll(m, a + b) == SetAll(SetAll(m, a), b)
    decreases |b|
  {
    if b == [] {
      assert a + b == a;
    } else {
      var b' := b[..|b| - 1];
      assert (a + b)[..|a + b| - 1] == a + b';
      assert (a + b)[|a + b| - 1] == b[|b| - 1];
      SetAllAppend(m, a, b');
    }
  }
}
