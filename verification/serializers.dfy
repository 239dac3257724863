/**
 * src/serializers/serializers.ts: the `string`, `int` and `boolean` route
 * parameter serializers.  A serializer's `decode` is handed whatever the
 * record holds under its key (a string from the URL, or `undefined` when the
 * key is missing), so both directions are modelled on all values.
 */
module Serializers {
  import opened Values
  import Numbers

  datatype Serializer = Serializer(encode: Value -> Value, decode: Value -> Value)

  /** `string`: both directions are the identity. */
  function StringSerializer(): Serializer {
    Serializer(x => x, x => x)
  }

  /** `int`: `String(x)` one way, `parseInt(x)` the other. */
  function IntSerializer(): Serializer {
    Serializer(x => Str(ToJsString(x)), x => ParseInt(ToJsString(x)))
  }

  /** `boolean`: `String(value)` one way, `text === 'true'` the other. */
  function BooleanSerializer(): Serializer {
    Serializer(v => Str(ToJsString(v)), t => Bool(t == Str("true")))
  }

  /** The white-space characters `parseInt` skips before the number. */
  predicate IsJsWhitespace(c: char) {
    || c == '\t' || c == '\n' || c == '\U{000B}' || c == '\U{000C}' || c == '\r' || c == ' '
    || c == '\U{00A0}' || c == '\U{1680}' || ('\U{2000}' <= c <= '\U{200A}')
    || c == '\U{2028}' || c == '\U{2029}' || c == '\U{202F}' || c == '\U{205F}'
    || c == '\U{3000}' || c == '\U{FEFF}'
  }

  function TrimLeadingWhitespace(s: string): (r: string)
    ensures r == "" || !IsJsWhitespace(r[0])
    ensures |r| <= |s| && r == s[|s| - |r|..]
  {
    if |s| > 0 && IsJsWhitespace(s[0]) then TrimLeadingWhitespace(s[1..]) else s
  }

  /**
   * `parseInt(text)` with no radix: skip leading white space, read an optional
   * sign, then the magnitude.
   */
  function ParseInt(text: string): (r: Value)
    ensures r.Num? || r.NaN?
  {
    var s := TrimLeadingWhitespace(text);
    if |s| > 0 && s[0] == '-' then
      match ParseMagnitude(s[1..])
      case Num(n) => Num(-n)
      case other => other
    else if |s| > 0 && s[0] == '+' then ParseMagnitude(s[1..])
    else ParseMagnitude(s)
  }

  /**
   * The unsigned part of `parseInt`: base 16 after a `0x`/`0X` prefix, else
   * base 10; the longest run of digits is read, and no digits at all is `NaN`.
   */
  function ParseMagnitude(s: string): (r: Value)
    ensures (r.Num? && r.n >= 0) || r.NaN?
  {
    var hex := |s| >= 2 && s[0] == '0' && (s[1] == 'x' || s[1] == 'X');
    var radix := if hex then 16 else 10;
    var digits := Numbers.DigitPrefix(if hex then s[2..] else s, radix);
    if digits == "" then NaN else Num(Numbers.DigitsValue(digits, radix))
  }

  lemma StringSerializerIsIdentity(v: Value)
    ensures StringSerializer().encode(v) == v
    ensures StringSerializer().decode(StringSerializer().encode(v)) == v
  {
  }

  /** `boolean.decode(t)` is `true` exactly for the string `"true"`, and is never `undefined`. */
  lemma BooleanDecodeIsTrueOnlyForTrue(t: Value)
    ensures BooleanSerializer().decode(t) == Bool(t == Str("true"))
    ensures BooleanSerializer().decode(t) != Undefined
  {
  }

  lemma BooleanRoundTrip(b: bool)
    ensures BooleanSerializer().encode(Bool(b)) == Str(if b then "true" else "false")
    ensures BooleanSerializer().decode(BooleanSerializer().encode(Bool(b))) == Bool(b)
  {
  }

  /** `int.encode` renders the integer in decimal; `int.decode` reads it back. */
  lemma IntRoundTrip(n: int)
    ensures IntSerializer().encode(Num(n)) == Str(Numbers.IntToDecimal(n))
    ensures IntSerializer().decode(IntSerializer().encode(Num(n))) == Num(n)
  {
    var codec := IntSerializer();
    var s := Numbers.IntToDecimal(n);
    assert codec.encode(Num(n)) == Str(s);
    assert codec.decode(Str(s)) == ParseInt(s);
    ParseIntOfDecimal(n);
  }

  lemma ParseIntOfDecimal(n: int)
    ensures ParseInt(Numbers.IntToDecimal(n)) == Num(n)
  {
    if n < 0 {
      var m: nat := -n;
      assert Numbers.IntToDecimal(n) == "-" + Numbers.NatToDecimal(m);
      ParseIntOfNegative(m);
    } else {
      var s := Numbers.NatToDecimal(n);
      assert Numbers.IntToDecimal(n) == s;
      NoLeadingWhitespace(s);
      MagnitudeOfDecimal(n);
      assert s[0] != '-' && s[0] != '+';
      ParseIntUnsigned(s);
    }
  }

  /** Text that starts with neither white space nor a sign is read as a magnitude. */
  lemma ParseIntUnsigned(s: string)
    requires TrimLeadingWhitespace(s) == s
    requires |s| > 0 && s[0] != '-' && s[0] != '+'
    ensures ParseInt(s) == ParseMagnitude(s)
  {
  }

  /** Text that starts with neither a digit nor `0x` has no magnitude. */
  lemma MagnitudeOfNonDigit(s: string)
    requires |s| > 0 && !Numbers.IsDecimalDigit(s[0])
    ensures ParseMagnitude(s) == NaN
  {
    assert s[0] != '0';
    assert Numbers.DigitPrefix(s, 10) == "";
  }

  lemma ParseIntOfNegative(m: nat)
    ensures ParseInt("-" + Numbers.NatToDecimal(m)) == Num(0 - m)
  {
    var digits := Numbers.NatToDecimal(m);
    var s := "-" + digits;
    NoLeadingWhitespace(s);
    assert s[0] == '-';
    assert s[1..] == digits;
    MagnitudeOfDecimal(m);
  }

  lemma NoLeadingWhitespace(s: string)
    requires |s| > 0 && (s[0] == '-' || Numbers.IsDecimalDigit(s[0]))
    ensures TrimLeadingWhitespace(s) == s
  {
    assert '0' <= s[0] <= '9' || s[0] == '-';
    assert !IsJsWhitespace(s[0]);
  }

  /** The magnitude reader reads a decimal rendering back to its number. */
  lemma MagnitudeOfDecimal(m: nat)
    ensures ParseMagnitude(Numbers.NatToDecimal(m)) == Num(m)
  {
    var digits := Numbers.NatToDecimal(m);
    assert !(|digits| >= 2 && digits[0] == '0');
    assert Numbers.DigitPrefix(digits, 10) == digits;
  }

  /** `int.decode` of `undefined` (a missing parameter) reads `"undefined"` and gives `NaN`. */
  lemma IntDecodeUndefinedIsNaN()
    ensures IntSerializer().decode(Undefined) == NaN
  {
    var s := "undefined";
    assert ToJsString(Undefined) == s;
    assert s[0] == 'u' && !IsJsWhitespace(s[0]);
    assert TrimLeadingWhitespace(s) == s;
    ParseIntUnsigned(s);
    MagnitudeOfNonDigit(s);
  }

  /** A `0x` prefix switches `parseInt` to base 16: `int.decode("0x1A")` is 26. */
  lemma IntDecodeHexPrefix()
    ensures IntSerializer().decode(Str("0x1A")) == Num(26)
  {
    var s := "0x1A";
    assert ToJsString(Str(s)) == s;
    assert s[0] == '0' && !IsJsWhitespace(s[0]);
    assert TrimLeadingWhitespace(s) == s;
    ParseIntUnsigned(s);
    HexMagnitude();
  }

  lemma HexMagnitude()
    ensures ParseMagnitude("0x1A") == Num(26)
  {
    var s := "0x1A";
    assert s[2..] == "1A";
    assert Numbers.DigitPrefix("1A", 16) == "1A";
    assert "1A"[..1] == "1";
    assert Numbers.DigitsValue("1A", 16) == 26;
  }
}
