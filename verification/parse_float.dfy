/** `parseFloat`: the longest prefix of the text (after leading whitespace)
    that reads as a decimal literal, or NaN when there is none. Values are
    exact; rounding to the nearest double is not modelled. */
module NumberParsing {
  import opened Wrappers
  import opened Text
  import opened JsNumber
  import opened Lexer

  predicate StartsWith(s: string, p: string) {
    |p| <= |s| && s[..|p|] == p
  }

  /** `10^e` for any integer exponent. */
  function Power10(e: int): (r: real)
    ensures r > 0.0
  {
    if e >= 0 then Pow10(e) as real else 1.0 / Pow10(-e) as real
  }

  /** The exponent part `e`/`E`, optional sign and at least one digit at
      the start of `s`: its value and length, or `(0, 0)` when there is none
      (then the `e` is not part of the literal). */
  function ExponentPart(s: string): (r: (int, nat))
    ensures r.1 <= |s|
  {
    if s == [] || (s[0] != 'e' && s[0] != 'E') then (0, 0)
    else
      var signLen := if |s| > 1 && (s[1] == '+' || s[1] == '-') then 1 else 0;
      var rest := s[1 + signLen..];
      var k := DigitRun(rest);
      if k == 0 then (0, 0)
      else
        var mag := DigitsValue(rest[..k]) as int;
        (if signLen == 1 && s[1] == '-' then -mag else mag, 1 + signLen + k)
  }

  /** Digits, optionally a point and more digits, with at least one digit
      in all: the value and length of that mantissa at the start of `s`. */
  function MantissaPrefix(s: string): (r: Option<(real, nat)>)
    ensures r.Some? ==> r.value.0 >= 0.0 && 1 <= r.value.1 <= |s|
  {
    var n := DigitRun(s);
    if n < |s| && s[n] == '.' then
      var p := PointLiteral(s, n);
      if n == 0 && p.1 == 1 then None else Some(p)
    else if n == 0 then None
    else Some((DecimalValue(s[..n], ""), n))
  }

  /** StrUnsignedDecimalLiteral at the start of `s`. */
  function UnsignedPrefix(s: string): (r: Option<Num>)
    ensures r.Some? && r.value.Finite? ==> r.value.v >= 0.0
  {
    if StartsWith(s, "Infinity") then Some(Infinite(false))
    else match MantissaPrefix(s)
      case None => None
      case Some((m, k)) =>
        var scale := Power10(ExponentPart(s[k..]).0);
        ScaledNonNegative(m, scale);
        Some(Finite(m * scale))
  }

  lemma ScaledNonNegative(m: real, scale: real)
    requires m >= 0.0 && scale > 0.0
    ensures m * scale >= 0.0
  {
  }

  /** `parseFloat(s)` */
  function ParseFloat(s: string): (r: Num)
    ensures AllSpace(s) ==> r == NaN
  {
    var t := TrimStart(s);
    if t != [] && t[0] == '-' then
      match UnsignedPrefix(t[1..])
      case None => NaN
      case Some(x) => Neg(x)
    else
      var u := if t != [] && t[0] == '+' then t[1..] else t;
      match UnsignedPrefix(u)
      case None => NaN
      case Some(x) => x
  }

  /** A plain digit string reads as its value. */
  lemma UnsignedDigits(d: string)
    requires d != [] && AllDigits(d)
    ensures UnsignedPrefix(d) == Some(Finite(DigitsValue(d) as real))
  {
    NoInfinityPrefix(d);
    MantissaDigits(d);
    assert d[|d|..] == [];
    UnsignedWithoutExponent(d, DigitsValue(d) as real, |d|);
  }

  lemma NoInfinityPrefix(s: string)
    requires s != [] && IsDigit(s[0])
    ensures !StartsWith(s, "Infinity")
  {
    assert s[0] != 'I';
  }

  /** A mantissa followed by no exponent part is the whole value. */
  lemma UnsignedWithoutExponent(s: string, m: real, k: nat)
    requires !StartsWith(s, "Infinity")
    requires MantissaPrefix(s) == Some((m, k))
    requires ExponentPart(s[k..]).0 == 0
    ensures UnsignedPrefix(s) == Some(Finite(m))
  {
    assert Power10(0) == 1.0;
  }

  lemma MantissaDigits(d: string)
    requires d != [] && AllDigits(d)
    ensures MantissaPrefix(d) == Some((DigitsValue(d) as real, |d|))
  {
    DigitRunOfDigits(d, []);
    assert d + [] == d;
    assert d[..|d|] == d;
    assert DecimalValue(d, "") == DigitsValue(d) as real;
  }

  lemma UnsignedNat(n: nat)
    ensures UnsignedPrefix(NatToString(n)) == Some(Finite(n as real))
  {
    UnsignedDigits(NatToString(n));
    NatToStringValue(n);
  }

  /** `parseFloat` reads the rendering of a natural number back exactly. */
  lemma ParseNat(n: nat)
    ensures ParseFloat(NatToString(n)) == Finite(n as real)
  {
    var d := NatToString(n);
    UnsignedNat(n);
    ParseDigitsFirst(d);
  }

  /** Text that starts with a digit has no sign and no leading space, so
      `parseFloat` reads it as an unsigned literal. */
  lemma ParseDigitsFirst(s: string)
    requires s != [] && IsDigit(s[0])
    ensures ParseFloat(s) == match UnsignedPrefix(s) case None => NaN case Some(x) => x
  {
    DigitIsNotSpace(s[0]);
    assert TrimStart(s) == s;
  }

  /** ... and of any integer. */
  lemma ParseInt(i: int)
    ensures ParseFloat(IntToString(i)) == Finite(i as real)
  {
    if i >= 0 {
      ParseNat(i);
    } else {
      var d := NatToString(-i);
      var s := "-" + d;
      assert TrimStart(s) == s;
      assert s[1..] == d;
      UnsignedNat(-i);
    }
  }
}
