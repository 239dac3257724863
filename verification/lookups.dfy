/**
 * src/utils/object.ts: `createLookup(obj, defaultKey, normalizer)`, a
 * function that reads `obj` at the normalised key and falls back to the
 * default key's entry when that read is `null` or `undefined`.
 */
module Lookups {
  import opened Wrappers
  import opened Values

  /** The normaliser given to `createLookup`, or the identity when it is left out. */
  function Normalizer(normalizer: Option<string -> string>): string -> string {
    normalizer.GetOr(key => key)
  }

  /** `createLookup(obj, defaultKey, normalizer)(key)`: `obj[normalizer(key)] ?? obj[defaultKey]`. */
  function Lookup(obj: Rec, defaultKey: string, normalizer: Option<string -> string>, key: string): Value {
    var value := Field(obj, Normalizer(normalizer)(key));
    if IsNullish(value) then Field(obj, defaultKey) else value
  }

  /**
   * The lookup answers the entry at the normalised key when it is neither
   * `null` nor `undefined`, and the default key's entry otherwise; it is
   * nullish exactly when both entries are.
   */
  lemma LookupFallsBack(obj: Rec, defaultKey: string, normalizer: Option<string -> string>, key: string)
    ensures var k := Normalizer(normalizer)(key);
      && (k in obj && !IsNullish(obj[k]) ==> Lookup(obj, defaultKey, normalizer, key) == obj[k])
      && (k !in obj || IsNullish(obj[k]) ==> Lookup(obj, defaultKey, normalizer, key) == Field(obj, defaultKey))
      && (IsNullish(Lookup(obj, defaultKey, normalizer, key))
          <==> IsNullish(Field(obj, k)) && IsNullish(Field(obj, defaultKey)))
  {
  }

  /** Without a normaliser the key is used as given. */
  lemma DefaultNormalizerIsIdentity(obj: Rec, defaultKey: string, key: string)
    ensures Lookup(obj, defaultKey, None, key) == (if key in obj && !IsNullish(obj[key]) then obj[key] else Field(obj, defaultKey))
  {
  }
}
