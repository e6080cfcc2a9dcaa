/** JavaScript numbers as the model sees them: exact rationals extended with
    the two infinities and NaN. IEEE-754 rounding and the sign of zero are
    not modelled; the rules for infinities and NaN follow the standard. */
module JsNumber {
  import opened Text

  datatype Num = Finite(v: real) | Infinite(negative: bool) | NaN {
    /** `Number.isFinite` */
    predicate IsFinite() { Finite? }
  }

  function Neg(a: Num): (r: Num)
    ensures a.Finite? <==> r.Finite?
    ensures a.Finite? ==> r.v == -a.v
  {
    match a
    case Finite(x) => Finite(-x)
    case Infinite(n) => Infinite(!n)
    case NaN => NaN
  }

  function Add(a: Num, b: Num): (r: Num)
    ensures r.Finite? <==> a.Finite? && b.Finite?
    ensures r.Finite? ==> r.v == a.v + b.v
  {
    match (a, b)
    case (Finite(x), Finite(y)) => Finite(x + y)
    case (NaN, _) => NaN
    case (_, NaN) => NaN
    case (Infinite(n), Finite(_)) => Infinite(n)
    case (Finite(_), Infinite(n)) => Infinite(n)
    case (Infinite(n), Infinite(m)) => if n == m then Infinite(n) else NaN
  }

  function Sub(a: Num, b: Num): (r: Num)
    ensures r.Finite? <==> a.Finite? && b.Finite?
    ensures r.Finite? ==> r.v == a.v - b.v
  {
    Add(a, Neg(b))
  }

  function Mul(a: Num, b: Num): (r: Num)
    ensures r.Finite? <==> a.Finite? && b.Finite?
    ensures r.Finite? ==> r.v == a.v * b.v
  {
    match (a, b)
    case (Finite(x), Finite(y)) => Finite(x * y)
    case (NaN, _) => NaN
    case (_, NaN) => NaN
    case (Infinite(n), Finite(y)) => if y == 0.0 then NaN else Infinite(n != (y < 0.0))
    case (Finite(x), Infinite(n)) => if x == 0.0 then NaN else Infinite(n != (x < 0.0))
    case (Infinite(n), Infinite(m)) => Infinite(n != m)
  }

  /** Division; a finite quotient needs a non-zero finite divisor or an
      infinite one (`x / Infinity` is 0). */
  function Div(a: Num, b: Num): (r: Num)
    ensures a.Finite? && b.Finite? && b.v != 0.0 ==> r == Finite(a.v / b.v)
    ensures r.Finite? ==> a.Finite? && (b.Infinite? || (b.Finite? && b.v != 0.0))
    ensures a.Finite? && b.Finite? && b.v == 0.0 ==> !r.Finite?
  {
    match (a, b)
    case (Finite(x), Finite(y)) =>
      if y != 0.0 then Finite(x / y)
      else if x == 0.0 then NaN
      else Infinite(x < 0.0)
    case (NaN, _) => NaN
    case (_, NaN) => NaN
    case (Finite(_), Infinite(_)) => Finite(0.0)
    case (Infinite(n), Finite(y)) => Infinite(n != (y < 0.0))
    case (Infinite(_), Infinite(_)) => NaN
  }

  /** `x > 0`: true for a positive finite value and for `Infinity`. */
  predicate Positive(x: Num) {
    (x.Finite? && x.v > 0.0) || x == Infinite(false)
  }

  /** `Math.floor`: infinities and NaN are returned as they are. */
  function Floor(a: Num): (r: Num)
    ensures a.Finite? <==> r.Finite?
    ensures a.Finite? ==> r.v == r.v.Floor as real && r.v <= a.v < r.v + 1.0
    ensures !a.Finite? ==> r == a
  {
    match a
    case Finite(x) => Finite(x.Floor as real)
    case _ => a
  }

  /** The integer part of `x`, rounding toward zero. */
  function Trunc(x: real): (q: int)
    ensures x >= 0.0 ==> q == x.Floor
    ensures x < 0.0 ==> q == -((-x).Floor)
  {
    if x >= 0.0 then x.Floor else -((-x).Floor)
  }

  /** The `%` operator: the remainder of a division rounded toward zero, so
      it takes the sign of the dividend (unlike Dafny's `%`). It is NaN when
      the dividend is infinite or the divisor is zero, and the dividend
      itself when the divisor is infinite. */
  function Rem(a: Num, b: Num): (r: Num)
    ensures r.Finite? <==> a.Finite? && (b.Infinite? || (b.Finite? && b.v != 0.0))
    ensures a.Finite? && b.Infinite? ==> r == a
    ensures a.Finite? && b.Finite? && b.v > 0.0 && a.v >= 0.0 ==> 0.0 <= r.v < b.v
    ensures a.Finite? && b.Finite? && b.v > 0.0 && a.v <= 0.0 ==> -b.v < r.v <= 0.0
  {
    match (a, b)
    case (Finite(x), Finite(y)) =>
      if y == 0.0 then NaN
      else
        var q := Trunc(x / y);
        RemBounds(x, y, q);
        Finite(x - y * q as real)
    case (Finite(x), Infinite(_)) => a
    case _ => NaN
  }

  /** Bounds of `x - y * trunc(x / y)` for a positive divisor. */
  lemma RemBounds(x: real, y: real, q: int)
    requires y != 0.0 && q == Trunc(x / y)
    ensures y > 0.0 && x >= 0.0 ==> 0.0 <= x - y * (q as real) < y
    ensures y > 0.0 && x <= 0.0 ==> -y < x - y * (q as real) <= 0.0
  {
    if y > 0.0 {
      var t := x / y;
      assert y * t == x;
      QuotientSign(x, y);
      if x >= 0.0 {
        assert q == t.Floor;
        assert q as real <= t < q as real + 1.0;
        MulLe(y, q as real, t);
        MulLt(y, t, q as real + 1.0);
        assert y * (q as real + 1.0) == y * (q as real) + y;
        if x == 0.0 {
          assert t == 0.0 && q == 0;
        }
      } else {
        var k := (-t).Floor;
        assert q == -k;
        assert q as real - 1.0 < t <= q as real;
        MulLt(y, q as real - 1.0, t);
        MulLe(y, t, q as real);
        assert y * (q as real - 1.0) == y * (q as real) - y;
      }
    }
  }

  lemma QuotientSign(x: real, y: real)
    requires y > 0.0
    ensures x >= 0.0 ==> x / y >= 0.0
    ensures x <= 0.0 ==> x / y <= 0.0
  {
  }

  lemma MulLe(y: real, a: real, b: real)
    requires y > 0.0 && a <= b
    ensures y * a <= y * b
  {
    assert y * b - y * a == y * (b - a);
  }

  lemma MulLt(y: real, a: real, b: real)
    requires y > 0.0 && a < b
    ensures y * a < y * b
  {
    assert y * b - y * a == y * (b - a);
  }

  /** Number of fractional decimal digits kept when a non-integer is shown. */
  const FractionWidth: nat := 16

  function Pow10(k: nat): (p: nat)
    ensures p >= 1
  {
    if k == 0 then 1 else 10 * Pow10(k - 1)
  }

  /** 10^FractionWidth */
  const Scale: nat := 10_000_000_000_000_000

  lemma ScaleIsPow10()
    ensures Scale == Pow10(FractionWidth)
  {
    assert Pow10(4) == 10_000;
    assert Pow10(8) == 10_000 * Pow10(4) by { Pow10Add(4, 4); }
    assert Pow10(16) == Pow10(8) * Pow10(8) by { Pow10Add(8, 8); }
  }

  lemma {:induction false} Pow10Add(a: nat, b: nat)
    ensures Pow10(a + b) == Pow10(a) * Pow10(b)
  {
    if a > 0 {
      Pow10Add(a - 1, b);
      assert Pow10(a + b) == 10 * Pow10(a - 1 + b);
    }
  }

  function Zeros(k: nat): (z: string)
    ensures |z| == k && AllDigits(z)
    ensures forall i :: 0 <= i < k ==> z[i] == '0'
  {
    if k == 0 then [] else Zeros(k - 1) + "0"
  }

  /** `d.padStart(width, "0")` */
  function PadLeft(d: string, width: nat): (r: string)
    ensures r == if |d| < width then Zeros(width - |d|) + d else d
  {
    if |d| < width then Zeros(width - |d|) + d else d
  }

  /** The string without its trailing run of `'0'` characters. */
  function TrimTrailingZeros(s: string): (r: string)
    ensures |r| <= |s| && r == s[..|r|]
    ensures r == [] || r[|r| - 1] != '0'
    ensures forall i :: |r| <= i < |s| ==> s[i] == '0'
  {
    if s != [] && s[|s| - 1] == '0' then TrimTrailingZeros(s[..|s| - 1]) else s
  }

  /** The fractional digits shown for `fp` units of 10^-FractionWidth. */
  function FractionText(fp: nat): string
  {
    TrimTrailingZeros(PadLeft(NatToString(fp), FractionWidth))
  }

  /** `|x| * 10^FractionWidth`, rounded down: the digits that are shown. */
  function ShownUnits(x: real): nat
  {
    var a := if x < 0.0 then -x else x;
    (a * Scale as real).Floor
  }

  /** `String(x)` for a finite `x`: sign, integer digits and, when the value
      is not an integer, a point and at most FractionWidth fractional digits
      with trailing zeros removed. */
  function ShowFinite(x: real): (s: string)
    ensures s != []
  {
    var n := ShownUnits(x);
    var ip := n / Scale;
    var fp := n % Scale;
    var body := if fp == 0 then NatToString(ip) else NatToString(ip) + "." + FractionText(fp);
    if x < 0.0 && n > 0 then "-" + body else body
  }

  /** `String(x)` / `x.toString()` for any number. */
  function ToString(x: Num): (s: string)
    ensures s != []
    ensures x.NaN? ==> s == "NaN"
    ensures x.Infinite? ==> s == (if x.negative then "-Infinity" else "Infinity")
    ensures x.Finite? && x.v.Floor as real == x.v ==> s == IntToString(x.v.Floor)
  {
    match x
    case NaN => "NaN"
    case Infinite(n) => if n then "-Infinity" else "Infinity"
    case Finite(r) =>
      IntegerShown(r);
      ShowFinite(r)
  }

  /** An integral value is shown as its integer rendering. */
  lemma IntegerShown(x: real)
    ensures x.Floor as real == x ==> ShowFinite(x) == IntToString(x.Floor)
  {
    if x.Floor as real == x {
      var a := if x < 0.0 then -x else x;
      var m: nat := if x < 0.0 then -x.Floor else x.Floor;
      assert a == m as real;
      assert a * Scale as real == (m * Scale) as real;
      assert ShownUnits(x) == m * Scale;
    }
  }


  lemma FractionTextDigits(fp: nat)
    ensures AllDigits(FractionText(fp))
  {
    var padded := PadLeft(NatToString(fp), FractionWidth);
    var r := FractionText(fp);
    assert AllDigits(padded);
    assert forall i :: 0 <= i < |r| ==> r[i] == padded[i];
  }

  /** A rendered finite number holds at most one decimal point. */
  lemma ShowFiniteOnePoint(x: real)
    ensures Count(ShowFinite(x), '.') <= 1
  {
    var n := ShownUnits(x);
    var ip := n / Scale;
    var fp := n % Scale;
    var whole := NatToString(ip);
    DigitsHaveNoPoint(whole);
    var body := if fp == 0 then whole else whole + "." + FractionText(fp);
    if fp != 0 {
      FractionTextDigits(fp);
      DigitsHaveNoPoint(FractionText(fp));
      CountAppend(whole, ".", '.');
      CountAppend(whole + ".", FractionText(fp), '.');
      assert Count(".", '.') == 1 by {
        assert "."[..0] == [];
      }
    }
    assert Count(body, '.') <= 1;
    if x < 0.0 && n > 0 {
      CountAppend("-", body, '.');
      assert Count("-", '.') == 0 by {
        assert "-"[..0] == [];
      }
    }
  }

  /** The rendering of any number holds at most one decimal point. */
  lemma ToStringOnePoint(x: Num)
    ensures Count(ToString(x), '.') <= 1
  {
    match x
    case Finite(r) => ShowFiniteOnePoint(r);
    case NaN => CountAbsent("NaN", '.');
    case Infinite(neg) =>
      CountAbsent("Infinity", '.');
      CountAbsent("-Infinity", '.');
  }
}
