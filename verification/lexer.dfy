/** The tokens of the arithmetic sub-language that `new Function` sees after
    the allow-list: numeric literals, `+ - * /`, parentheses, whitespace and
    comments. `strict` selects strict-mode literal rules (the current
    evaluator runs `"use strict"`, the legacy one does not). */
module Lexer {
  import opened Wrappers
  import opened Text
  import opened JsNumber

  datatype Token = Number(value: real) | Plus | Minus | Star | Slash | LParen | RParen

  predicate IsOctalDigit(c: char) {
    '0' <= c <= '7'
  }

  predicate AllOctal(s: string) {
    forall i :: 0 <= i < |s| ==> IsOctalDigit(s[i])
  }

  function OctalValue(s: string): nat
    requires AllOctal(s)
  {
    if s == [] then 0
    else
      assert IsOctalDigit(s[|s| - 1]);
      OctalValue(s[..|s| - 1]) * 8 + (s[|s| - 1] as int - '0' as int)
  }

  /** Value of a decimal literal `int.frac` (either part may be empty). */
  function DecimalValue(intPart: string, frac: string): (v: real)
    requires AllDigits(intPart) && AllDigits(frac)
    ensures v >= 0.0
  {
    DigitsValue(intPart) as real + DigitsValue(frac) as real / Pow10(|frac|) as real
  }

  /** The literal `int.frac` whose integer digits are `s[..n]` and whose
      point is `s[n]`: its value and length. The fraction digits run as far
      as they go and may be none. */
  function PointLiteral(s: string, n: nat): (r: (real, nat))
    requires n < |s| && s[n] == '.' && AllDigits(s[..n])
    ensures n < r.1 <= |s| && r.0 >= 0.0
    ensures r.1 == |s| || !IsDigit(s[r.1])
    ensures r.1 == n + 1 <==> (n + 1 == |s| || !IsDigit(s[n + 1]))
  {
    var f := DigitRun(s[n + 1..]);
    assert s[n + 1..n + 1 + f] == s[n + 1..][..f];
    (DecimalValue(s[..n], s[n + 1..n + 1 + f]), n + 1 + f)
  }

  /** Scans the numeric literal at the start of `s`, returning its value and
      length; `None` when the text there is not a valid literal. */
  function ScanNumber(strict: bool, s: string): (r: Option<(real, nat)>)
    requires s != [] && (IsDigit(s[0]) || s[0] == '.')
    ensures r.Some? ==> 1 <= r.value.1 <= |s| && r.value.0 >= 0.0
    ensures r.Some? ==> r.value.1 == |s| || !IsDigit(s[r.value.1])
    // A leading zero followed by more digits is an error in strict mode.
    ensures strict && |s| > 1 && s[0] == '0' && IsDigit(s[1]) ==> r.None?
  {
    var n := DigitRun(s);
    if n == 0 then
      // `.5`: a literal with no integer part needs at least one fraction digit.
      var p := PointLiteral(s, 0);
      if p.1 == 1 then None else Some(p)
    else if n > 1 && s[0] == '0' && (strict || AllOctal(s[..n])) then
      if strict then None
      // Legacy octal literal (`010` is 8); it cannot carry a fraction.
      else if n < |s| && s[n] == '.' then None
      else Some((OctalValue(s[..n]) as real, n))
    else if n < |s| && s[n] == '.' then
      Some(PointLiteral(s, n))
    else
      Some((DecimalValue(s[..n], ""), n))
  }

  /** A literal with a leading zero: in sloppy mode `010` is the octal
      literal 8, in strict mode it is an error. */
  lemma LeadingZeroLiteral()
    ensures ScanNumber(false, "010") == Some((8.0, 3))
    ensures ScanNumber(true, "010") == None
  {
    var s := "010";
    assert DigitRun(s[2..]) == 1;
    assert DigitRun(s[1..]) == 2;
    assert DigitRun(s) == 3;
    assert s[..3] == s;
    assert s[..2] == "01" && "01"[..1] == "0" && "0"[..0] == [];
    assert OctalValue("0") == 0;
    assert OctalValue("01") == 1;
    assert OctalValue(s) == 8;
  }

  /** Length of the text of a `//` comment: up to the next line terminator. */
  function LineCommentLength(s: string): (n: nat)
    ensures n <= |s|
    ensures n == |s| || IsLineTerminator(s[n])
    ensures forall i :: 0 <= i < n ==> !IsLineTerminator(s[i])
  {
    if s == [] || IsLineTerminator(s[0]) then 0 else 1 + LineCommentLength(s[1..])
  }

  // Index of the first "*" "/" pair (the end of a block comment) in `s`, if any.
  function BlockCommentEnd(s: string): (r: Option<nat>)
    ensures r.Some? ==> r.value + 1 < |s| && s[r.value] == '*' && s[r.value + 1] == '/'
    ensures r.None? ==> forall i :: 0 <= i < |s| - 1 ==> !(s[i] == '*' && s[i + 1] == '/')
  {
    if |s| < 2 then None
    else if s[0] == '*' && s[1] == '/' then Some(0)
    else match BlockCommentEnd(s[1..])
      case None => None
      case Some(k) => Some(k + 1)
  }

  function Prepend(t: Token, rest: Option<seq<Token>>): (r: Option<seq<Token>>)
    ensures r.Some? <==> rest.Some?
    ensures r.Some? ==> r.value == [t] + rest.value
  {
    match rest
    case None => None
    case Some(ts) => Some([t] + ts)
  }

  /** Splits source text into tokens. `None` stands for a SyntaxError raised
      while reading the text: an unknown character, a malformed literal, an
      unterminated comment, or an update operator `++`/`--` (which never has
      a valid operand here). `**` is also refused: exponentiation is not part
      of this model. */
  function Tokenize(strict: bool, s: string): (r: Option<seq<Token>>)
    decreases |s|
  {
    if s == [] then Some([])
    else
      var c := s[0];
      if IsSpace(c) then Tokenize(strict, s[1..])
      else if c == '/' && |s| > 1 && s[1] == '/' then
        Tokenize(strict, s[2 + LineCommentLength(s[2..])..])
      else if c == '/' && |s| > 1 && s[1] == '*' then
        match BlockCommentEnd(s[2..])
        case None => None
        case Some(k) => Tokenize(strict, s[k + 4..])
      else if c == '+' then
        if |s| > 1 && s[1] == '+' then None else Prepend(Plus, Tokenize(strict, s[1..]))
      else if c == '-' then
        if |s| > 1 && s[1] == '-' then None else Prepend(Minus, Tokenize(strict, s[1..]))
      else if c == '*' then
        if |s| > 1 && s[1] == '*' then None else Prepend(Star, Tokenize(strict, s[1..]))
      else if c == '/' then Prepend(Slash, Tokenize(strict, s[1..]))
      else if c == '(' then Prepend(LParen, Tokenize(strict, s[1..]))
      else if c == ')' then Prepend(RParen, Tokenize(strict, s[1..]))
      else if IsDigit(c) || c == '.' then
        match ScanNumber(strict, s)
        case None => None
        case Some((v, k)) => Prepend(Number(v), Tokenize(strict, s[k..]))
      else None
  }
}
