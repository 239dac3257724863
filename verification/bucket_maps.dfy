/**
 * src/utils/unique-bucket-map.ts: a `Map` from string keys to insertion-ordered
 * sets of values.  A set is a sequence without repeats here; adding a value
 * already present leaves it where it is.
 */
module BucketMaps {
  import opened Wrappers
  import opened OrderedMaps
  import Seqs

  type BucketMap<T> = OMap<string, seq<T>>

  /** Every key once, and every bucket without repeats. */
  predicate WellFormed<T(==)>(m: BucketMap<T>) {
    && Valid(m)
    && forall i :: 0 <= i < |m| ==> Seqs.Distinct(m[i].1)
  }

  /** `new UniqueBucketMap()` */
  function Empty<T>(): (r: BucketMap<T>)
    ensures WellFormed(r)
    ensures forall k :: GetBucket(r, k) == [] && k !in Keys(r)
  {
    []
  }

  /** `set.add(value)`: appended when new, otherwise the set is unchanged. */
  function SetAdd<T(==)>(bucket: seq<T>, value: T): (r: seq<T>)
    ensures Seqs.Distinct(bucket) ==> Seqs.Distinct(r)
    ensures value in r && forall x :: x in bucket ==> x in r
    ensures forall x :: x in r ==> x == value || x in bucket
  {
    if value in bucket then bucket else bucket + [value]
  }

  /** `bucketFor(key)`: the key's bucket, first storing an empty one when there is none. */
  function BucketFor<T>(m: BucketMap<T>, key: string): (r: (BucketMap<T>, seq<T>))
    ensures Get(r.0, key) == Some(r.1)
    ensures Get(m, key).Some? ==> r == (m, Get(m, key).value)
    ensures Get(m, key).None? ==> r == (Set(m, key, []), [])
  {
    match Get(m, key)
    case Some(bucket) => (m, bucket)
    case None => (Set(m, key, []), [])
  }

  /** `add(key, value)`: add the value to the key's bucket, creating the bucket if needed. */
  function Add<T(==)>(m: BucketMap<T>, key: string, value: T): (r: BucketMap<T>)
    ensures value in GetBucket(r, key)
    ensures forall x :: x in GetBucket(m, key) ==> x in GetBucket(r, key)
    ensures forall x :: x in GetBucket(r, key) ==> x == value || x in GetBucket(m, key)
    ensures forall k :: k != key ==> GetBucket(r, k) == GetBucket(m, k)
  {
    var (m1, bucket) := BucketFor(m, key);
    Set(m1, key, SetAdd(bucket, value))
  }

  /** `get(key)`: the key's values in the order first added, or `[]` for an unknown key. */
  function GetBucket<T>(m: BucketMap<T>, key: string): seq<T> {
    match Get(m, key)
    case Some(bucket) => bucket
    case None => []
  }

  /** `delete(key)`: the key's values (`[]` for an unknown key), and the map without the key. */
  function Delete<T>(m: BucketMap<T>, key: string): (r: (BucketMap<T>, seq<T>))
    ensures r.1 == GetBucket(m, key)
    ensures Get(r.0, key) == None
    ensures forall k :: k != key ==> GetBucket(r.0, k) == GetBucket(m, k)
  {
    var (m1, bucket) := BucketFor(m, key);
    (Remove(m1, key), bucket)
  }

  /** `toMap()`: each key with its values as a list, in the map's order. */
  function ToMap<T>(m: BucketMap<T>): (r: OMap<string, seq<T>>)
    ensures Keys(r) == Keys(m)
    ensures forall k :: Get(r, k) == Get(m, k)
  {
    m
  }

  lemma ValidEntries<T>(m: BucketMap<T>)
    requires WellFormed(m)
    ensures forall k :: Get(m, k).Some? ==> Seqs.Distinct(Get(m, k).value)
  {
    forall k | Get(m, k).Some? ensures Seqs.Distinct(Get(m, k).value) {
      var i := IndexOf(m, k).value;
      assert Get(m, k).value == m[i].1;
    }
  }

  /** A valid map whose looked-up buckets are all without repeats is well formed. */
  lemma WellFormedByGet<T>(m: BucketMap<T>)
    requires Valid(m)
    requires forall k :: Get(m, k).Some? ==> Seqs.Distinct(Get(m, k).value)
    ensures WellFormed(m)
  {
    forall i | 0 <= i < |m| ensures Seqs.Distinct(m[i].1) {
      ValidGetAt(m, i);
    }
  }

  /**
   * After `add(key, value)` the key's bucket holds `value` exactly once: it
   * is appended when new and left in place otherwise.  No other key's bucket
   * changes, and the map stays well formed.
   */
  lemma AddSemantics<T>(m: BucketMap<T>, key: string, value: T)
    requires WellFormed(m)
    ensures var before := GetBucket(m, key);
      GetBucket(Add(m, key, value), key) == if value in before then before else before + [value]
    ensures multiset(GetBucket(Add(m, key, value), key))[value] == 1
    ensures forall k :: k != key ==> GetBucket(Add(m, key, value), k) == GetBucket(m, k)
    ensures WellFormed(Add(m, key, value))
  {
    var r := Add(m, key, value);
    var before := GetBucket(m, key);
    ValidEntries(m);
    assert Seqs.Distinct(before);
    var after := GetBucket(r, key);
    assert after == SetAdd(before, value);
    DistinctCountsOnce(after, value);
    forall k | Get(r, k).Some? ensures Seqs.Distinct(Get(r, k).value) {
    }
    WellFormedByGet(r);
  }

  /** In a sequence without repeats, a member occurs exactly once. */
  lemma {:induction false} DistinctCountsOnce<T>(s: seq<T>, x: T)
    requires Seqs.Distinct(s) && x in s
    ensures multiset(s)[x] == 1
    decreases |s|
  {
    var init := s[..|s| - 1];
    var last := s[|s| - 1];
    assert s == init + [last];
    assert multiset(s) == multiset(init) + multiset{last};
    assert Seqs.Distinct(init);
    if last == x {
      assert x !in init by {
        forall j | 0 <= j < |init| ensures init[j] != x {
          assert init[j] == s[j];
        }
      }
    } else {
      DistinctCountsOnce(init, x);
    }
  }

  /** Adding the same value twice is adding it once. */
  lemma AddIdempotent<T>(m: BucketMap<T>, key: string, value: T)
    requires WellFormed(m)
    ensures GetBucket(Add(Add(m, key, value), key, value), key) == GetBucket(Add(m, key, value), key)
  {
    AddSemantics(m, key, value);
    AddSemantics(Add(m, key, value), key, value);
  }

  /** `get` of an unknown key is `[]`; reading a bucket creates nothing. */
  lemma GetUnknown<T>(m: BucketMap<T>, key: string)
    requires key !in Keys(m)
    ensures GetBucket(m, key) == []
  {
    GetSomeIffKey(m, key);
  }

  /**
   * `delete(key)` answers the key's values (`[]` for an unknown key) and
   * removes the key; the other keys keep their buckets and their order.
   */
  lemma DeleteSemantics<T>(m: BucketMap<T>, key: string)
    requires WellFormed(m)
    ensures Delete(m, key).1 == GetBucket(m, key)
    ensures key !in Keys(Delete(m, key).0)
    ensures forall k :: k != key ==> GetBucket(Delete(m, key).0, k) == GetBucket(m, k)
    ensures key !in Keys(m) ==> Keys(Delete(m, key).0) == Keys(m)
    ensures WellFormed(Delete(m, key).0)
  {
    var (m1, bucket) := BucketFor(m, key);
    var r := Remove(m1, key);
    GetSomeIffKey(r, key);
    ValidEntries(m);
    forall k | Get(r, k).Some? ensures Seqs.Distinct(Get(r, k).value) {
    }
    WellFormedByGet(r);
    if key !in Keys(m) {
      GetSomeIffKey(m, key);
      RemoveAppended(m, key, []);
    }
  }

  /** Removing a key that was just appended gives back the map as it was. */
  lemma RemoveAppended<V>(m: OMap<string, V>, key: string, v: V)
    requires key !in Keys(m)
    ensures Remove(Set(m, key, v), key) == m
  {
    GetSomeIffKey(m, key);
    assert Set(m, key, v) == m + [(key, v)];
    RemoveMissing(m, key);
    RemoveAppend(m, (key, v), key);
  }

  lemma {:induction false} RemoveMissing<V>(m: OMap<string, V>, key: string)
    requires key !in Keys(m)
    ensures Remove(m, key) == m
    decreases |m|
  {
    if m != [] {
      assert Keys(m)[0] == m[0].0;
      assert Keys(m[1..]) == Keys(m)[1..];
      RemoveMissing(m[1..], key);
      assert m == [m[0]] + m[1..];
    }
  }

  lemma {:induction false} RemoveAppend<V>(m: OMap<string, V>, e: (string, V), key: string)
    requires e.0 == key
    ensures Remove(m + [e], key) == Remove(m, key)
    decreases |m|
  {
    if m == [] {
      assert Remove([e], key) == Remove([e][1..], key);
    } else {
      assert (m + [e])[0] == m[0];
      assert (m + [e])[1..] == m[1..] + [e];
      RemoveAppend(m[1..], e, key);
    }
  }
}
