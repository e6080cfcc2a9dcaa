/** `safeEval`: the keypad's guarded evaluator. The text is normalised
    (`×` to `*`, `÷` to `/`), a trailing run of operators and points is cut
    off, an allow-list of characters is checked, and what remains is
    evaluated as the JavaScript expression `(text)` in strict mode. Anything
    that fails, and any result that is not finite, becomes `"0"`. */
module Utils {
  import opened Wrappers
  import opened Text
  import opened JsNumber
  import opened Lexer
  import opened Parser
  import opened Expression

  /** An argument of `safeEval`: the keypad always passes a string, but the
      function guards against anything else. */
  datatype Argument = StringArg(s: string) | NonStringArg

  function NormaliseChar(c: char): char {
    if c == '×' then '*' else if c == '÷' then '/' else c
  }

  /** `expr.replace(/×/g, '*').replace(/÷/g, '/')` */
  function Normalise(s: string): (r: string)
    ensures |r| == |s|
    ensures forall i :: 0 <= i < |s| ==> r[i] == NormaliseChar(s[i])
    ensures forall i :: 0 <= i < |s| ==> r[i] != '×' && r[i] != '÷'
  {
    seq(|s|, i requires 0 <= i < |s| => NormaliseChar(s[i]))
  }

  // Characters of the class `[+\-*/.]`, cut from the end of the text.
  predicate IsTrailingJunk(c: char) {
    c == '+' || c == '-' || c == '*' || c == '/' || c == '.'
  }

  // `s.replace(/[+\-*/.]+$/, '')`: removes the maximal trailing run of
  // operator and point characters.
  function StripTrailing(s: string): (r: string)
    ensures |r| <= |s| && r == s[..|r|]
    ensures r == [] || !IsTrailingJunk(r[|r| - 1])
    ensures forall i :: |r| <= i < |s| ==> IsTrailingJunk(s[i])
  {
    if s != [] && IsTrailingJunk(s[|s| - 1]) then StripTrailing(s[..|s| - 1]) else s
  }

  // Characters of the class `[0-9+\-*/().\s]`.
  predicate IsAllowed(c: char) {
    IsDigit(c) || c == '+' || c == '-' || c == '*' || c == '/' || c == '(' || c == ')' || c == '.' || IsSpace(c)
  }

  // `/^[0-9+\-*/().\s]+$/.test(s)`
  predicate PassesAllowList(s: string) {
    |s| > 0 && forall i :: 0 <= i < |s| ==> IsAllowed(s[i])
  }

  /** The value of `return (src)` in a function body, or `None` when the
      body raises: the source is lexed and parsed as one parenthesised
      expression, so text such as `1)+(2` is read as `(1)+(2)`. */
  function RunExpression(strict: bool, src: string): Option<Num> {
    match Tokenize(strict, "(" + src + ")")
    case None => None
    case Some(ts) => Evaluate(ts)
  }

  /** `safeEval(expr)` for a string argument. */
  function SafeEval(expr: string): (r: string)
    ensures r != []
    ensures AllSpace(expr) ==> r == "0"
    ensures r == "0" || exists x: real :: r == ToString(Finite(x))
  {
    if Trim(expr) == [] then "0" else EvalCleaned(StripTrailing(Normalise(expr)))
  }

  /** The steps after the blank check: the allow-list, then the strict-mode
      evaluation, with a thrown error or a non-finite value giving `"0"`. */
  function EvalCleaned(cleaned: string): (r: string)
    ensures r != []
    ensures !PassesAllowList(cleaned) ==> r == "0"
    ensures r == "0" || exists x: real :: r == ToString(Finite(x))
  {
    if !PassesAllowList(cleaned) then "0"
    else match RunExpression(true, cleaned)
      case Some(v) => FiniteOrZero(v)
      case None => "0"
  }

  /** `safeEval(x)` for any argument: a non-string gives `"0"`. */
  function SafeEvalArgument(x: Argument): (r: string)
    ensures x.NonStringArg? ==> r == "0"
    ensures x.StringArg? ==> r == SafeEval(x.s)
  {
    match x
    case StringArg(s) => SafeEval(s)
    case NonStringArg => "0"
  }

  // ----- Properties of the pre-processing -----

  lemma NormaliseIdempotent(s: string)
    ensures Normalise(Normalise(s)) == Normalise(s)
  {
  }

  lemma NormaliseAppend(s: string, t: string)
    ensures Normalise(s + t) == Normalise(s) + Normalise(t)
  {
  }

  /** `×` and `÷` are not whitespace, so normalising keeps blankness. */
  lemma NormaliseKeepsBlankness(s: string)
    ensures AllSpace(Normalise(s)) <==> AllSpace(s)
  {
    assert forall i :: 0 <= i < |s| ==> (IsSpace(Normalise(s)[i]) <==> IsSpace(s[i]));
  }

  /** `×` and `÷` are rewritten before any other step: evaluating the
      normalised text gives the same result. */
  lemma NormaliseFirst(expr: string)
    ensures SafeEval(Normalise(expr)) == SafeEval(expr)
  {
    NormaliseKeepsBlankness(expr);
    NormaliseIdempotent(expr);
  }

  /** Junk appended after a text is stripped again. */
  lemma {:induction false} StripAppendedJunk(x: string, j: string)
    requires forall i :: 0 <= i < |j| ==> IsTrailingJunk(j[i])
    ensures StripTrailing(x + j) == StripTrailing(x)
    decreases |j|
  {
    if j == [] {
      assert x + j == x;
    } else {
      assert (x + j)[..|x + j| - 1] == x + j[..|j| - 1];
      StripAppendedJunk(x, j[..|j| - 1]);
    }
  }

  /** A text made only of operator and point characters strips to nothing. */
  lemma {:induction false} StripAllJunk(j: string)
    requires forall i :: 0 <= i < |j| ==> IsTrailingJunk(j[i])
    ensures StripTrailing(j) == []
  {
    StripAppendedJunk([], j);
    assert [] + j == j;
  }

  lemma {:induction false} TokenizeSkipsSpace(strict: bool, w: string, t: string)
    requires AllSpace(w)
    ensures Tokenize(strict, w + t) == Tokenize(strict, t)
  {
    if w != [] {
      assert (w + t)[1..] == w[1..] + t;
      TokenizeSkipsSpace(strict, w[1..], t);
    } else {
      assert w + t == t;
    }
  }

  /** `return ( )` is a SyntaxError. */
  lemma BlankSourceFails(strict: bool, w: string)
    requires AllSpace(w)
    ensures RunExpression(strict, w) == None
  {
    TokenizeOpenParen(strict, w + ")");
    TokenizeSkipsSpace(strict, w, ")");
    TokenizeCloseParen(strict, []);
    assert ")" + [] == ")";
    assert Tokenize(strict, []) == Some([]);
    assert [RParen] + [] == [RParen];
    assert Tokenize(strict, ")") == Some([RParen]);
    assert Tokenize(strict, w + ")") == Some([RParen]);
    assert "(" + w + ")" == "(" + (w + ")");
    assert [LParen] + [RParen] == [LParen, RParen];
    assert Tokenize(strict, "(" + w + ")") == Some([LParen, RParen]);
    assert [LParen, RParen][1..] == [RParen];
    assert ParseUnary([RParen]) == None;
    assert ParseTerm([RParen]) == None;
    assert ParseExpr([RParen]) == None;
    assert ParseUnary([LParen, RParen]) == None;
    assert ParseTerm([LParen, RParen]) == None;
  }

  /** A trailing run of `+ - × ÷ * / .` does not change the result:
      `"12+"` and `"12×"` evaluate as `"12"`. */
  lemma TrailingOperatorsIgnored(s: string, j: string)
    requires forall i :: 0 <= i < |j| ==> IsTrailingJunk(NormaliseChar(j[i]))
    ensures SafeEval(s + j) == SafeEval(s)
  {
    if j == [] {
      assert s + j == s;
    } else {
      NormaliseAppend(s, j);
      StripAppendedJunk(Normalise(s), Normalise(j));
      assert StripTrailing(Normalise(s + j)) == StripTrailing(Normalise(s));
      JunkIsNotSpace(j[|j| - 1]);
      assert (s + j)[|s + j| - 1] == j[|j| - 1];
      assert !AllSpace(s + j);
      if AllSpace(s) {
        BlankCleanedGivesZero(s);
      }
    }
  }

  lemma JunkIsNotSpace(c: char)
    requires IsTrailingJunk(NormaliseChar(c))
    ensures !IsSpace(c)
  {
  }

  /** Blank text survives normalising and stripping as blank text, which
      fails to evaluate. */
  lemma BlankCleanedGivesZero(s: string)
    requires AllSpace(s)
    ensures EvalCleaned(StripTrailing(Normalise(s))) == "0"
  {
    var w := Normalise(s);
    NormaliseKeepsBlankness(s);
    assert StripTrailing(w) == w by {
      if w != [] {
        assert IsSpace(w[|w| - 1]);
      }
    }
    if w != [] {
      BlankSourceFails(true, w);
    }
  }

  /** A text made only of operators and points is stripped to nothing, fails
      the allow-list and gives `"0"`. */
  lemma OnlyOperatorsGiveZero(s: string)
    requires forall i :: 0 <= i < |s| ==> IsTrailingJunk(NormaliseChar(s[i]))
    ensures SafeEval(s) == "0"
  {
    StripAllJunk(Normalise(s));
  }

  /** A character outside the allow-list anywhere in the normalised text
      gives `"0"`: stripping never removes it. */
  lemma DisallowedCharacterGivesZero(s: string, k: nat)
    requires k < |s| && !IsAllowed(NormaliseChar(s[k]))
    ensures SafeEval(s) == "0"
  {
    var cleaned := StripTrailing(Normalise(s));
    assert !IsTrailingJunk(Normalise(s)[k]);
    assert cleaned[k] == Normalise(s)[k];
  }

  // ----- The evaluator computes the value of well-formed arithmetic -----

  /** `"0"` for a non-finite value, its rendering otherwise. */
  function FiniteOrZero(x: Num): string {
    if x.Finite? then ToString(x) else "0"
  }

  /** Printed text needs no normalising, stripping or allow-list rejection. */
  lemma PrintedTextIsClean(t: string)
    requires t != [] && (t[|t| - 1] == ')' || IsDigit(t[|t| - 1]))
    requires forall i :: 0 <= i < |t| ==> IsDigit(t[i]) || t[i] in "()+-*/"
    ensures Trim(t) != [] && StripTrailing(Normalise(t)) == t && PassesAllowList(t)
  {
    assert Normalise(t) == t;
    CloseIsNotSpace(t[|t| - 1]);
    assert !AllSpace(t);
    assert StripTrailing(t) == t;
    forall i | 0 <= i < |t| ensures IsAllowed(t[i]) {
      PrintedCharAllowed(t[i]);
    }
  }

  lemma PrintedCharAllowed(c: char)
    requires IsDigit(c) || c in "()+-*/"
    ensures IsAllowed(c)
  {
    if !IsDigit(c) {
      assert c == '(' || c == ')' || c == '+' || c == '-' || c == '*' || c == '/';
    }
  }

  lemma CloseIsNotSpace(c: char)
    requires c == ')' || IsDigit(c)
    ensures !IsSpace(c) && !IsTrailingJunk(c)
  {
  }

  /** Any fully parenthesised expression evaluates to its mathematical
      value, or to `"0"` when that value is infinite or NaN. */
  lemma SafeEvalPrinted(e: Expr)
    ensures SafeEval(PrintText(e)) == FiniteOrZero(Denote(e))
  {
    var t := PrintText(e);
    PrintTextChars(e);
    PrintedTextIsClean(t);
    EvaluateWrappedText(true, e);
    assert RunExpression(true, t) == Some(Denote(e));
    SafeEvalOfClean(t, Denote(e));
  }

  /** A printed expression that starts with `(` has a non-empty inside
      ending in a digit or `)`. */
  lemma PrintTextInside(e: Expr)
    ensures var p := PrintText(e);
      p[0] == '(' ==> |p| > 2 && (p[|p| - 2] == ')' || IsDigit(p[|p| - 2]))
  {
    match e
    case Lit(n) =>
    case Negate(x) =>
      var px := PrintText(x);
      assert PrintText(e)[|PrintText(e)| - 2] == px[|px| - 1];
    case Bin(op, l, r) =>
      var pr := PrintText(r);
      assert PrintText(e)[|PrintText(e)| - 2] == pr[|pr| - 1];
  }

  lemma CleanInside(t: string, p: string)
    requires "(" + t + ")" == p && |p| > 2 && (p[|p| - 2] == ')' || IsDigit(p[|p| - 2]))
    requires forall i :: 0 <= i < |p| ==> IsDigit(p[i]) || p[i] in "()+-*/"
    ensures Trim(t) != [] && StripTrailing(Normalise(t)) == t && PassesAllowList(t)
  {
    assert |t| > 0;
    forall i | 0 <= i < |t| ensures IsDigit(t[i]) || t[i] in "()+-*/" {
      assert t[i] == p[i + 1];
    }
    assert t[|t| - 1] == p[|p| - 2];
    PrintedTextIsClean(t);
  }

  /** The inside of a printed parenthesised expression is clean text. */
  lemma InnerIsClean(t: string, e: Expr)
    requires "(" + t + ")" == PrintText(e)
    ensures Trim(t) != [] && StripTrailing(Normalise(t)) == t && PassesAllowList(t)
  {
    PrintTextChars(e);
    PrintTextInside(e);
    CleanInside(t, PrintText(e));
  }

  /** Running the inside of a printed expression gives its value. */
  lemma RunInner(strict: bool, t: string, e: Expr)
    requires "(" + t + ")" == PrintText(e)
    ensures RunExpression(strict, t) == Some(Denote(e))
  {
    var p := PrintText(e);
    TokenizePrintText(strict, e, []);
    assert p + [] == p;
    assert Tokenize(strict, []) == Some([]);
    assert Print(e) + [] == Print(e);
    assert Tokenize(strict, p) == Some(Print(e));
    EvaluatePrint(e);
  }

  /** A text whose parenthesised form is a printed expression evaluates to
      that expression's value. */
  lemma SafeEvalInner(t: string, e: Expr)
    requires "(" + t + ")" == PrintText(e)
    ensures SafeEval(t) == FiniteOrZero(Denote(e))
  {
    InnerIsClean(t, e);
    RunInner(true, t, e);
    SafeEvalOfClean(t, Denote(e));
  }

  /** The same for a top-level binary expression written without its outer
      parentheses: `l op r`. */
  lemma SafeEvalBinary(op: BinOp, l: Expr, r: Expr)
    ensures SafeEval(PrintText(l) + [OpChar(op)] + PrintText(r)) == FiniteOrZero(Apply(op, Denote(l), Denote(r)))
  {
    var t := PrintText(l) + [OpChar(op)] + PrintText(r);
    BinaryInside(op, l, r);
    SafeEvalInner(t, Bin(op, l, r));
  }

  lemma BinaryInside(op: BinOp, l: Expr, r: Expr)
    ensures "(" + (PrintText(l) + [OpChar(op)] + PrintText(r)) + ")" == PrintText(Bin(op, l, r))
    ensures Denote(Bin(op, l, r)) == Apply(op, Denote(l), Denote(r))
  {
    var pl, pr := PrintText(l), PrintText(r);
    assert PrintText(Bin(op, l, r)) == "(" + pl + [OpChar(op)] + pr + ")";
    RegroupMiddle("(", pl, [OpChar(op)], pr, ")");
  }

  lemma RegroupMiddle<T>(a: seq<T>, b: seq<T>, c: seq<T>, d: seq<T>, e: seq<T>)
    ensures a + (b + c + d) + e == a + b + c + d + e
  {
  }

  predicate PrintedChars(t: string) {
    forall i :: 0 <= i < |t| ==> IsDigit(t[i]) || t[i] in "()+-*/"
  }

  lemma PrintedCharsAppend(a: string, b: string)
    requires PrintedChars(a) && PrintedChars(b)
    ensures PrintedChars(a + b)
  {
    forall i | 0 <= i < |a + b| ensures IsDigit((a + b)[i]) || (a + b)[i] in "()+-*/" {
      if i < |a| {
        assert (a + b)[i] == a[i];
      } else {
        assert (a + b)[i] == b[i - |a|];
      }
    }
  }

  lemma PrecedenceTextClean(px: string, py: string, pz: string)
    requires PrintedChars(px) && PrintedChars(py) && PrintedChars(pz)
    requires pz != [] && (pz[|pz| - 1] == ')' || IsDigit(pz[|pz| - 1]))
    ensures var t := px + "+" + py + "*" + pz;
      Trim(t) != [] && StripTrailing(Normalise(t)) == t && PassesAllowList(t)
  {
    var t := px + "+" + py + "*" + pz;
    assert PrintedChars("+") && PrintedChars("*");
    PrintedCharsAppend(px, "+");
    PrintedCharsAppend(px + "+", py);
    PrintedCharsAppend(px + "+" + py, "*");
    PrintedCharsAppend(px + "+" + py + "*", pz);
    assert t[|t| - 1] == pz[|pz| - 1];
    PrintedTextIsClean(t);
  }

  /** Clean text that runs to a value evaluates to that value, or to `"0"`
      when it is infinite or NaN. */
  lemma SafeEvalOfClean(t: string, v: Num)
    requires Trim(t) != [] && StripTrailing(Normalise(t)) == t && PassesAllowList(t)
    requires RunExpression(true, t) == Some(v)
    ensures SafeEval(t) == FiniteOrZero(v)
  {
  }

  lemma RunOf(src: string, ts: seq<Token>, v: Num)
    requires Tokenize(true, "(" + src + ")") == Some(ts) && Evaluate(ts) == Some(v)
    ensures RunExpression(true, src) == Some(v)
  {
  }

  lemma PrecedenceTextShape(px: string, py: string, pz: string)
    ensures "(" + (px + "+" + py + "*" + pz) + ")"
         == "(" + (px + ([OpChar(AddOp)] + (py + ([OpChar(MulOp)] + (pz + ")")))))
  {
  }

  lemma RunPrecedence(x: Expr, y: Expr, z: Expr)
    ensures RunExpression(true, PrintText(x) + "+" + PrintText(y) + "*" + PrintText(z))
         == Some(Add(Denote(x), Mul(Denote(y), Denote(z))))
  {
    TokenizePrecedenceText(true, x, y, z);
    PrecedenceTextShape(PrintText(x), PrintText(y), PrintText(z));
    EvaluatePrecedence(x, y, z);
    RunOf(PrintText(x) + "+" + PrintText(y) + "*" + PrintText(z),
          [LParen] + Print(x) + [Plus] + Print(y) + [Star] + Print(z) + [RParen],
          Add(Denote(x), Mul(Denote(y), Denote(z))));
  }

  /** `*` binds tighter than `+`: the text `x+y*z` evaluates to
      `x + (y * z)`. */
  lemma SafeEvalPrecedence(x: Expr, y: Expr, z: Expr)
    ensures SafeEval(PrintText(x) + "+" + PrintText(y) + "*" + PrintText(z))
         == FiniteOrZero(Add(Denote(x), Mul(Denote(y), Denote(z))))
  {
    PrintTextChars(x);
    PrintTextChars(y);
    PrintTextChars(z);
    PrecedenceTextClean(PrintText(x), PrintText(y), PrintText(z));
    RunPrecedence(x, y, z);
    SafeEvalOfClean(PrintText(x) + "+" + PrintText(y) + "*" + PrintText(z),
                    Add(Denote(x), Mul(Denote(y), Denote(z))));
  }

  // ----- Worked examples -----

  lemma ExampleText()
    ensures "2+3*4" == PrintText(Lit(2)) + "+" + PrintText(Lit(3)) + "*" + PrintText(Lit(4))
  {
    assert NatToString(2) == "2" && NatToString(3) == "3" && NatToString(4) == "4";
  }

  lemma ExampleValue()
    ensures FiniteOrZero(Add(Denote(Lit(2)), Mul(Denote(Lit(3)), Denote(Lit(4))))) == "14"
  {
    assert NatToString(1) == "1";
    assert NatToString(14) == "14";
  }

  /** `"2+3*4"` evaluates to `"14"`, not `"20"`. */
  lemma PrecedenceExample()
    ensures SafeEval("2+3*4") == "14"
  {
    ExampleText();
    ExampleValue();
    SafeEvalPrecedence(Lit(2), Lit(3), Lit(4));
  }

  /** Parentheses override precedence: `"(2+3)*4"` evaluates to `"20"`. */
  lemma ParenthesesExample()
    ensures SafeEval("(2+3)*4") == "20"
  {
    ParenthesesText();
    ParenthesesValue();
    SafeEvalBinary(MulOp, Bin(AddOp, Lit(2), Lit(3)), Lit(4));
  }

  lemma ParenthesesText()
    ensures "(2+3)*4" == PrintText(Bin(AddOp, Lit(2), Lit(3))) + [OpChar(MulOp)] + PrintText(Lit(4))
  {
    assert NatToString(2) == "2" && NatToString(3) == "3" && NatToString(4) == "4";
  }

  lemma ParenthesesValue()
    ensures FiniteOrZero(Apply(MulOp, Denote(Bin(AddOp, Lit(2), Lit(3))), Denote(Lit(4)))) == "20"
  {
    assert NatToString(2) == "2";
    assert NatToString(20) == "20";
  }

  /** A dangling operator is dropped: a number followed by any run of
      trailing operators (`"12+"`, `"12×÷"`) evaluates to that number. */
  lemma NumberThenOperators(n: nat, j: string)
    requires forall i :: 0 <= i < |j| ==> IsTrailingJunk(NormaliseChar(j[i]))
    ensures SafeEval(NatToString(n) + j) == NatToString(n)
  {
    TrailingOperatorsIgnored(NatToString(n), j);
    SafeEvalPrinted(Lit(n));
    NumberShownAsItself(n);
  }

  lemma NumberShownAsItself(n: nat)
    ensures FiniteOrZero(Denote(Lit(n))) == NatToString(n)
  {
    assert (n as real).Floor == n;
  }

  /** Division by zero is infinite, which is reported as `"0"`; `÷` is
      read as `/`. */
  lemma DivisionByZeroExample()
    ensures SafeEval("8/0") == "0"
  {
    DivisionText();
    DivisionValue();
    SafeEvalBinary(DivOp, Lit(8), Lit(0));
  }

  lemma DivisionValue()
    ensures FiniteOrZero(Apply(DivOp, Denote(Lit(8)), Denote(Lit(0)))) == "0"
  {
  }

  lemma DivisionSignExample()
    ensures SafeEval("8÷0") == "0"
  {
    NormaliseDivision();
    NormaliseFirst("8÷0");
    DivisionByZeroExample();
  }

  lemma DivisionText()
    ensures "8/0" == PrintText(Lit(8)) + [OpChar(DivOp)] + PrintText(Lit(0))
  {
    assert NatToString(8) == "8" && NatToString(0) == "0";
  }

  lemma NormaliseDivision()
    ensures Normalise("8÷0") == "8/0"
  {
    var n := Normalise("8÷0");
    assert n[0] == '8' && n[1] == '/' && n[2] == '0';
  }

  /** The result of `safeEval` holds at most one decimal point. */
  lemma SafeEvalOnePoint(s: string)
    ensures Count(SafeEval(s), '.') <= 1
  {
    ResultOnePoint(SafeEval(s));
  }

  /** `"0"` and the rendering of a finite number hold at most one point. */
  lemma ResultOnePoint(r: string)
    requires r == "0" || exists x: real :: r == ToString(Finite(x))
    ensures Count(r, '.') <= 1
  {
    if r == "0" {
      CountAbsent(r, '.');
    } else {
      var x :| r == ToString(Finite(x));
      ToStringOnePoint(Finite(x));
    }
  }
}
