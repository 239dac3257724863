/**
 * src/shared-state/symbols.ts: minting state keys.  A key's identity is the
 * `Symbol` it carries, modelled as a number issued by a registry that never
 * issues the same number twice; the name is only a label.
 */
module StateKeys {
  import opened Values

  /** The symbols issued so far are `0 .. next - 1`. */
  datatype Registry = Registry(next: nat)

  datatype StateKey = StateKey(
    name: string,
    key: nat,
    defaultValue: Value,
    equals: (Value, Value) -> bool)

  /** The optional third argument of `createStateKey`. */
  datatype EqualsArg =
    | Omitted
    | ByProperty(prop: string)
    | ByFunction(fn: (Value, Value) -> bool)

  /** Whether `reg` has already issued symbol `key`. */
  predicate Issued(reg: Registry, key: nat) {
    key < reg.next
  }

  /** `propertyCompare(key)`: `(l, r) => l?.[key] === r?.[key]` */
  function PropertyCompare(prop: string): (Value, Value) -> bool {
    (l: Value, r: Value) => StrictEquals(OptionalProp(l, prop), OptionalProp(r, prop))
  }

  /**
   * `createStateKey(name, defaultValue, equals)`.  An omitted default value is
   * passed as `Undefined`.
   */
  function CreateStateKey(reg: Registry, name: string, defaultValue: Value, equals: EqualsArg): (res: (StateKey, Registry))
    ensures !Issued(reg, res.0.key)
    ensures forall k: nat :: Issued(res.1, k) <==> Issued(reg, k) || k == res.0.key
    ensures res.0.name == name && res.0.defaultValue == defaultValue
    ensures equals.Omitted? ==> forall l, r :: res.0.equals(l, r) == DeepEquals(l, r)
    ensures equals.ByProperty? ==>
      forall l, r :: res.0.equals(l, r) == StrictEquals(OptionalProp(l, equals.prop), OptionalProp(r, equals.prop))
    ensures equals.ByFunction? ==> res.0.equals == equals.fn
  {
    var eq := match equals
      case Omitted => (l: Value, r: Value) => DeepEquals(l, r)
      case ByProperty(prop) => PropertyCompare(prop)
      case ByFunction(fn) => fn;
    (StateKey(name, reg.next, defaultValue, eq), Registry(reg.next + 1))
  }

  /** Mints one key per name, in order. */
  function CreateStateKeys(reg: Registry, names: seq<string>): (res: (seq<StateKey>, Registry))
    ensures |res.0| == |names|
    ensures forall i :: 0 <= i < |names| ==> res.0[i].name == names[i]
    ensures forall i :: 0 <= i < |names| ==> Issued(res.1, res.0[i].key) && !Issued(reg, res.0[i].key)
    ensures forall k: nat :: Issued(reg, k) ==> Issued(res.1, k)
    decreases |names|
  {
    if names == [] then ([], reg)
    else
      var (key, reg1) := CreateStateKey(reg, names[0], Undefined, Omitted);
      var (rest, reg2) := CreateStateKeys(reg1, names[1..]);
      ([key] + rest, reg2)
  }

  /** Keys minted one after another are pairwise distinct, even when their names are equal. */
  lemma {:induction false} MintedKeysAreDistinct(reg: Registry, names: seq<string>)
    ensures var keys := CreateStateKeys(reg, names).0;
      forall i, j :: 0 <= i < j < |keys| ==> keys[i].key != keys[j].key
    decreases |names|
  {
    if names != [] {
      var (key, reg1) := CreateStateKey(reg, names[0], Undefined, Omitted);
      MintedKeysAreDistinct(reg1, names[1..]);
      var keys := CreateStateKeys(reg, names).0;
      assert keys == [key] + CreateStateKeys(reg1, names[1..]).0;
      forall i, j | 0 <= i < j < |keys| ensures keys[i].key != keys[j].key {
        if i == 0 {
          assert Issued(reg1, key.key);
          assert !Issued(reg1, keys[j].key);
        }
      }
    }
  }

  /**
   * A property comparison treats two sides as equal whenever both read the
   * property as `undefined`, including `null` against an object lacking it.
   */
  lemma PropertyCompareOnMissing(prop: string, l: Value, r: Value)
    requires OptionalProp(l, prop) == Undefined && OptionalProp(r, prop) == Undefined
    ensures PropertyCompare(prop)(l, r)
  {
  }

  /**
   * A property comparison is symmetric, accepts two sides only when they read
   * the same property value, and accepts a value against itself unless that
   * value's property is `NaN`.
   */
  lemma PropertyCompareLaws(prop: string, l: Value, r: Value)
    ensures PropertyCompare(prop)(l, r) == PropertyCompare(prop)(r, l)
    ensures PropertyCompare(prop)(l, r) ==> OptionalProp(l, prop) == OptionalProp(r, prop)
    ensures PropertyCompare(prop)(l, l) <==> OptionalProp(l, prop) != NaN
  {
  }

  /** Two `null`s, or `null` against `undefined`, are equal under every property comparison. */
  lemma PropertyCompareNullish(prop: string, l: Value, r: Value)
    requires IsNullish(l) && IsNullish(r)
    ensures PropertyCompare(prop)(l, r)
  {
  }
}
