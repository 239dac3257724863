/**
 * src/utils/string.ts: trimming one repeated character from the end of a
 * string, and its mirror for the start of a string.
 */
module Strings {

  /**
   * `text[i] === charToTrim`: a one-character string equals `charToTrim` only
   * when `charToTrim` is that very character, so a `charToTrim` of any other
   * length never matches.
   */
  predicate Matches(ch: char, charToTrim: string) {
    |charToTrim| == 1 && charToTrim[0] == ch
  }

  /**
   * `trimEnd`: the longest prefix of `text` that does not end with
   * `charToTrim`; every character cut off is `charToTrim`.
   */
  function TrimEnd(text: string, charToTrim: string): (r: string)
    ensures r <= text
    ensures r == "" || !Matches(r[|r| - 1], charToTrim)
    ensures forall i :: |r| <= i < |text| ==> Matches(text[i], charToTrim)
  {
    if |text| == 0 then ""
    else if !Matches(text[|text| - 1], charToTrim) then text
    else TrimEnd(text[..|text| - 1], charToTrim)
  }

  /**
   * `trimStart`, which src/routes/index-routes.ts imports but src/utils/string.ts
   * does not define.  ASSUMED here to mirror `trimEnd`: the longest suffix of
   * `text` that does not start with `charToTrim`.
   */
  function TrimStart(text: string, charToTrim: string): (r: string)
    ensures |r| <= |text| && r == text[|text| - |r|..]
    ensures r == "" || !Matches(r[0], charToTrim)
    ensures forall i :: 0 <= i < |text| - |r| ==> Matches(text[i], charToTrim)
  {
    if |text| == 0 then ""
    else if !Matches(text[0], charToTrim) then text
    else TrimStart(text[1..], charToTrim)
  }

  /** No prefix of `text` that keeps more characters also avoids ending with `charToTrim`. */
  lemma TrimEndIsLongest(text: string, charToTrim: string, p: string)
    requires p <= text
    requires p == "" || !Matches(p[|p| - 1], charToTrim)
    ensures |p| <= |TrimEnd(text, charToTrim)|
  {
    var r := TrimEnd(text, charToTrim);
    if |p| > |r| {
      assert p[|p| - 1] == text[|p| - 1];
    }
  }

  lemma TrimEndIdempotent(text: string, charToTrim: string)
    ensures TrimEnd(TrimEnd(text, charToTrim), charToTrim) == TrimEnd(text, charToTrim)
  {
  }

  /** Text made only of `charToTrim` (including empty text) trims to the empty string. */
  lemma TrimEndAllTrimmed(text: string, charToTrim: string)
    requires forall i :: 0 <= i < |text| ==> Matches(text[i], charToTrim)
    ensures TrimEnd(text, charToTrim) == ""
  {
  }

  /** A `charToTrim` that is not a single character leaves the text unchanged. */
  lemma TrimEndMultiCharacter(text: string, charToTrim: string)
    requires |charToTrim| != 1
    ensures TrimEnd(text, charToTrim) == text
  {
  }
}
