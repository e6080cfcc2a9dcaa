/** Reference semantics for the evaluator: arithmetic expression trees, their
    mathematical value, and a printer producing the source text a user could
    type. The round-trip lemmas show that reading the printed text back with
    the lexer and parser yields exactly the value of the tree, so operator
    precedence, associativity and the IEEE rules for infinities and NaN are
    honoured. */
module Expression {
  import opened Wrappers
  import opened Text
  import opened JsNumber
  import opened Lexer
  import opened Parser

  datatype BinOp = AddOp | SubOp | MulOp | DivOp

  datatype Expr = Lit(n: nat) | Negate(e: Expr) | Bin(op: BinOp, l: Expr, r: Expr)

  function Apply(op: BinOp, a: Num, b: Num): Num {
    match op
    case AddOp => Add(a, b)
    case SubOp => Sub(a, b)
    case MulOp => Mul(a, b)
    case DivOp => Div(a, b)
  }

  /** The value of an expression tree. */
  function Denote(e: Expr): Num {
    match e
    case Lit(n) => Finite(n as real)
    case Negate(x) => Neg(Denote(x))
    case Bin(op, l, r) => Apply(op, Denote(l), Denote(r))
  }

  function OpToken(op: BinOp): Token {
    match op
    case AddOp => Plus
    case SubOp => Minus
    case MulOp => Star
    case DivOp => Slash
  }

  function OpChar(op: BinOp): char {
    match op
    case AddOp => '+'
    case SubOp => '-'
    case MulOp => '*'
    case DivOp => '/'
  }

  /** Tokens of the fully parenthesised form of `e`. */
  function Print(e: Expr): seq<Token> {
    match e
    case Lit(n) => [Number(n as real)]
    case Negate(x) => [LParen, Minus] + Print(x) + [RParen]
    case Bin(op, l, r) => [LParen] + Print(l) + [OpToken(op)] + Print(r) + [RParen]
  }

  /** Source text of the fully parenthesised form of `e`. */
  function PrintText(e: Expr): (s: string)
    ensures |s| > 0 && (s[0] == '(' || IsDigit(s[0]))
    ensures s[|s| - 1] == ')' || IsDigit(s[|s| - 1])
  {
    match e
    case Lit(n) => NatToString(n)
    case Negate(x) => "(-" + PrintText(x) + ")"
    case Bin(op, l, r) => "(" + PrintText(l) + [OpChar(op)] + PrintText(r) + ")"
  }

  /** A unary operand not followed by `*` or `/` is a whole term. */
  lemma TermFromUnary(ts: seq<Token>, v: Num, rest: seq<Token>)
    requires ParseUnary(ts) == Some(Parsed(v, rest))
    requires rest == [] || !IsMultiplicative(rest[0])
    ensures ParseTerm(ts) == Some(Parsed(v, rest))
  {
  }

  /** A term not followed by `+` or `-` is a whole expression. */
  lemma ExprFromTerm(ts: seq<Token>, v: Num, rest: seq<Token>)
    requires ParseTerm(ts) == Some(Parsed(v, rest))
    requires rest == [] || !IsAdditive(rest[0])
    ensures ParseExpr(ts) == Some(Parsed(v, rest))
  {
  }

  /** A parenthesised expression is a primary operand. */
  lemma UnaryFromParen(inner: seq<Token>, v: Num, rest: seq<Token>)
    requires ParseExpr(inner) == Some(Parsed(v, [RParen] + rest))
    ensures ParseUnary([LParen] + inner) == Some(Parsed(v, rest))
  {
    assert ([LParen] + inner)[1..] == inner;
    assert ([RParen] + rest)[1..] == rest;
  }

  /** `l op r )`: the operand `l`, one binary operator and the operand `r`
      evaluate to `l op r` and stop at the closing parenthesis. */
  lemma BinaryStep(op: BinOp, lt: seq<Token>, vl: Num, rt: seq<Token>, vr: Num, rest: seq<Token>)
    requires ParseUnary(lt + ([OpToken(op)] + rt + ([RParen] + rest))) == Some(Parsed(vl, [OpToken(op)] + rt + ([RParen] + rest)))
    requires ParseUnary(rt + ([RParen] + rest)) == Some(Parsed(vr, [RParen] + rest))
    ensures ParseExpr(lt + ([OpToken(op)] + rt + ([RParen] + rest))) == Some(Parsed(Apply(op, vl, vr), [RParen] + rest))
  {
    var after := [RParen] + rest;
    var tail := [OpToken(op)] + rt + after;
    var inner := lt + tail;
    assert tail[1..] == rt + after;
    if op == MulOp || op == DivOp {
      assert TermTail(vl, tail) == TermTail(Apply(op, vl, vr), after);
      assert ParseTerm(inner) == Some(Parsed(Apply(op, vl, vr), after));
      ExprFromTerm(inner, Apply(op, vl, vr), after);
    } else {
      assert ParseTerm(inner) == Some(Parsed(vl, tail));
      TermFromUnary(rt + after, vr, after);
      assert ExprTail(vl, tail) == ExprTail(Apply(op, vl, vr), after);
    }
  }

  /** Printed text uses only digits, parentheses and the four operators. */
  lemma {:induction false} PrintTextChars(e: Expr)
    ensures forall i :: 0 <= i < |PrintText(e)| ==> IsDigit(PrintText(e)[i]) || PrintText(e)[i] in "()+-*/"
  {
    match e
    case Lit(n) =>
    case Negate(x) =>
      PrintTextChars(x);
      var s := PrintText(e);
      forall i | 0 <= i < |s| ensures IsDigit(s[i]) || s[i] in "()+-*/" {
        if 2 <= i < |s| - 1 { assert s[i] == PrintText(x)[i - 2]; }
      }
    case Bin(op, l, r) =>
      PrintTextChars(l);
      PrintTextChars(r);
      var s := PrintText(e);
      var nl := |PrintText(l)|;
      forall i | 0 <= i < |s| ensures IsDigit(s[i]) || s[i] in "()+-*/" {
        if 1 <= i < 1 + nl { assert s[i] == PrintText(l)[i - 1]; }
        else if 2 + nl <= i < |s| - 1 { assert s[i] == PrintText(r)[i - 2 - nl]; }
      }
  }

  /** Parsing a printed tree as a unary operand consumes exactly its tokens
      and yields its value, whatever follows. */
  lemma {:induction false} UnaryRoundTrip(e: Expr, rest: seq<Token>)
    ensures ParseUnary(Print(e) + rest) == Some(Parsed(Denote(e), rest))
  {
    match e
    case Lit(n) =>
      assert (Print(e) + rest)[1..] == rest;
    case Negate(x) =>
      var after := [RParen] + rest;
      var inner := [Minus] + Print(x) + after;
      assert Print(e) + rest == [LParen] + inner;
      assert inner[1..] == Print(x) + after;
      UnaryRoundTrip(x, after);
      assert ParseUnary(inner) == Some(Parsed(Denote(e), after));
      TermFromUnary(inner, Denote(e), after);
      ExprFromTerm(inner, Denote(e), after);
      UnaryFromParen(inner, Denote(e), rest);
    case Bin(op, l, r) =>
      var after := [RParen] + rest;
      var tail := [OpToken(op)] + Print(r) + after;
      var inner := Print(l) + tail;
      assert Print(e) + rest == [LParen] + inner;
      UnaryRoundTrip(l, tail);
      UnaryRoundTrip(r, after);
      BinaryStep(op, Print(l), Denote(l), Print(r), Denote(r), rest);
      UnaryFromParen(inner, Denote(e), rest);
  }

  /** The printed tokens of a tree form one complete expression whose value
      is the tree's value. */
  lemma EvaluatePrint(e: Expr)
    ensures Evaluate(Print(e)) == Some(Denote(e))
  {
    UnaryRoundTrip(e, []);
    assert Print(e) + [] == Print(e);
    TermFromUnary(Print(e), Denote(e), []);
    ExprFromTerm(Print(e), Denote(e), []);
  }

  /** `ts` followed by the tokens of a later text, when that text lexes. */
  function Concat(ts: seq<Token>, o: Option<seq<Token>>): (r: Option<seq<Token>>)
    ensures r.Some? <==> o.Some?
  {
    match o
    case None => None
    case Some(us) => Some(ts + us)
  }

  /** A rendered natural number followed by a non-digit lexes as one
      numeric literal with that value, in strict and sloppy mode alike. */
  lemma ScanNatLiteral(strict: bool, n: nat, t: string)
    requires t == [] || !(IsDigit(t[0]) || t[0] == '.')
    ensures ScanNumber(strict, NatToString(n) + t) == Some((n as real, |NatToString(n)|))
  {
    var d := NatToString(n);
    var s := d + t;
    DigitRunOfDigits(d, t);
    assert s[..|d|] == d;
    NatToStringValue(n);
    assert |d| < |s| ==> s[|d|] == t[0];
  }

  /** Lexing the printed text of a tree gives the printed tokens, and the
      text after it lexes on its own. */
  lemma {:induction false} TokenizePrintText(strict: bool, e: Expr, t: string)
    requires t == [] || !(IsDigit(t[0]) || t[0] == '.')
    ensures Tokenize(strict, PrintText(e) + t) == Concat(Print(e), Tokenize(strict, t))
  {
    match e
    case Lit(n) =>
      var s := PrintText(e) + t;
      ScanNatLiteral(strict, n, t);
      assert s[|NatToString(n)|..] == t;
    case Negate(x) =>
      TokenizePrintText(strict, x, ")" + t);
      TokenizeNegateText(strict, x, t);
    case Bin(op, l, r) =>
      var afterR := ")" + t;
      var afterL := [OpChar(op)] + (PrintText(r) + afterR);
      TokenizePrintText(strict, l, afterL);
      TokenizePrintText(strict, r, afterR);
      TokenizeBinText(strict, op, l, r, t);
  }

  lemma TokenizeCloseParen(strict: bool, t: string)
    ensures Tokenize(strict, ")" + t) == Prepend(RParen, Tokenize(strict, t))
  {
    assert (")" + t)[1..] == t;
  }

  lemma TokenizeOpenParen(strict: bool, t: string)
    ensures Tokenize(strict, "(" + t) == Prepend(LParen, Tokenize(strict, t))
  {
    assert ("(" + t)[1..] == t;
  }

  /** A binary operator character not doubled and not opening a comment is
      one operator token. */
  lemma TokenizeOperator(strict: bool, op: BinOp, t: string)
    requires t != [] && (t[0] == '(' || IsDigit(t[0]))
    ensures Tokenize(strict, [OpChar(op)] + t) == Prepend(OpToken(op), Tokenize(strict, t))
  {
    assert ([OpChar(op)] + t)[1..] == t;
    assert ([OpChar(op)] + t)[1] == t[0];
  }

  lemma NegateTokens(px: seq<Token>, a: Option<seq<Token>>)
    ensures Prepend(LParen, Prepend(Minus, Concat(px, Prepend(RParen, a))))
         == Concat([LParen, Minus] + px + [RParen], a)
  {
    if a.Some? {
      assert [LParen] + ([Minus] + (px + ([RParen] + a.value))) == [LParen, Minus] + px + [RParen] + a.value;
    }
  }

  lemma BinTokens(pl: seq<Token>, o: Token, pr: seq<Token>, a: Option<seq<Token>>)
    ensures Prepend(LParen, Concat(pl, Prepend(o, Concat(pr, Prepend(RParen, a)))))
         == Concat([LParen] + pl + [o] + pr + [RParen], a)
  {
    if a.Some? {
      assert [LParen] + (pl + ([o] + (pr + ([RParen] + a.value)))) == [LParen] + pl + [o] + pr + [RParen] + a.value;
    }
  }

  lemma TokenizeNegateText(strict: bool, x: Expr, t: string)
    requires Tokenize(strict, PrintText(x) + (")" + t)) == Concat(Print(x), Tokenize(strict, ")" + t))
    ensures Tokenize(strict, PrintText(Negate(x)) + t) == Concat(Print(Negate(x)), Tokenize(strict, t))
  {
    var body := PrintText(x) + (")" + t);
    var minusBody := [OpChar(SubOp)] + body;
    NegateTextShape(x, t);
    TokenizeOpenParen(strict, minusBody);
    TokenizeOperator(strict, SubOp, body);
    TokenizeCloseParen(strict, t);
    NegateTokens(Print(x), Tokenize(strict, t));
  }

  /** The printed text and tokens of a negation, split at their parts. */
  lemma NegateTextShape(x: Expr, t: string)
    ensures PrintText(Negate(x)) + t == "(" + ([OpChar(SubOp)] + (PrintText(x) + (")" + t)))
    ensures Print(Negate(x)) == [LParen, Minus] + Print(x) + [RParen]
  {
  }

  /** The printed text and tokens of a binary node, split at their parts. */
  lemma BinTextShape(op: BinOp, l: Expr, r: Expr, t: string)
    ensures PrintText(Bin(op, l, r)) + t == "(" + (PrintText(l) + ([OpChar(op)] + (PrintText(r) + (")" + t))))
    ensures Print(Bin(op, l, r)) == [LParen] + Print(l) + [OpToken(op)] + Print(r) + [RParen]
  {
    var pl, pr := PrintText(l), PrintText(r);
    assert PrintText(Bin(op, l, r)) == "(" + pl + [OpChar(op)] + pr + ")";
    RegroupFive("(", pl, [OpChar(op)], pr, ")", t);
  }

  lemma RegroupFive<T>(a: seq<T>, b: seq<T>, c: seq<T>, d: seq<T>, e: seq<T>, t: seq<T>)
    ensures a + b + c + d + e + t == a + (b + (c + (d + (e + t))))
  {
  }

  lemma TokenizeBinChain(strict: bool, pl: string, c: char, o: Token, pr: string, t: string,
                         tl: seq<Token>, tr: seq<Token>)
    requires Tokenize(strict, [c] + (pr + (")" + t))) == Prepend(o, Tokenize(strict, pr + (")" + t)))
    requires Tokenize(strict, pl + ([c] + (pr + (")" + t)))) == Concat(tl, Tokenize(strict, [c] + (pr + (")" + t))))
    requires Tokenize(strict, pr + (")" + t)) == Concat(tr, Tokenize(strict, ")" + t))
    ensures Tokenize(strict, "(" + (pl + ([c] + (pr + (")" + t)))))
         == Concat([LParen] + tl + [o] + tr + [RParen], Tokenize(strict, t))
  {
    TokenizeOpenParen(strict, pl + ([c] + (pr + (")" + t))));
    TokenizeCloseParen(strict, t);
    BinTokens(tl, o, tr, Tokenize(strict, t));
  }

  lemma TokenizeBinText(strict: bool, op: BinOp, l: Expr, r: Expr, t: string)
    requires Tokenize(strict, PrintText(l) + ([OpChar(op)] + (PrintText(r) + (")" + t))))
          == Concat(Print(l), Tokenize(strict, [OpChar(op)] + (PrintText(r) + (")" + t))))
    requires Tokenize(strict, PrintText(r) + (")" + t)) == Concat(Print(r), Tokenize(strict, ")" + t))
    ensures Tokenize(strict, PrintText(Bin(op, l, r)) + t) == Concat(Print(Bin(op, l, r)), Tokenize(strict, t))
  {
    var pl, pr := PrintText(l), PrintText(r);
    var rText := pr + (")" + t);
    assert rText[0] == pr[0];
    TokenizeOperator(strict, op, rText);
    TokenizeBinChain(strict, pl, OpChar(op), OpToken(op), pr, t, Print(l), Print(r));
    BinTextShape(op, l, r, t);
  }

  /** The text `"(" + PrintText(e) + ")"` evaluates to the value of `e`. */
  lemma EvaluateWrappedText(strict: bool, e: Expr)
    ensures Tokenize(strict, "(" + PrintText(e) + ")") == Some([LParen] + Print(e) + [RParen])
    ensures Evaluate([LParen] + Print(e) + [RParen]) == Some(Denote(e))
  {
    TokenizeWrappedText(strict, e);
    EvaluateWrappedTokens(e);
  }

  lemma TokenizeWrappedText(strict: bool, e: Expr)
    ensures Tokenize(strict, "(" + PrintText(e) + ")") == Some([LParen] + Print(e) + [RParen])
  {
    var body := PrintText(e) + ")";
    assert "(" + PrintText(e) + ")" == "(" + body;
    TokenizeOpenParen(strict, body);
    TokenizePrintText(strict, e, ")");
    TokenizeClose(strict);
    assert [LParen] + (Print(e) + [RParen]) == [LParen] + Print(e) + [RParen];
  }

  lemma EvaluateWrappedTokens(e: Expr)
    ensures Evaluate([LParen] + Print(e) + [RParen]) == Some(Denote(e))
  {
    var inner := Print(e) + [RParen];
    UnaryRoundTrip(e, [RParen]);
    TermFromUnary(inner, Denote(e), [RParen]);
    ExprFromTerm(inner, Denote(e), [RParen]);
    assert [RParen] == [RParen] + [];
    UnaryFromParen(inner, Denote(e), []);
    assert [LParen] + Print(e) + [RParen] == [LParen] + inner;
    TermFromUnary([LParen] + inner, Denote(e), []);
    ExprFromTerm([LParen] + inner, Denote(e), []);
  }

  /** `*` binds tighter than `+`: the tokens of `x + y * z` read as
      `x + (y * z)`, not `(x + y) * z`. */
  lemma PrecedenceTokens(x: Expr, y: Expr, z: Expr, rest: seq<Token>)
    ensures ParseExpr(Print(x) + ([Plus] + (Print(y) + ([Star] + (Print(z) + ([RParen] + rest))))))
         == Some(Parsed(Add(Denote(x), Mul(Denote(y), Denote(z))), [RParen] + rest))
  {
    var after := [RParen] + rest;
    var zs := Print(z) + after;
    var ys := Print(y) + ([Star] + zs);
    var t1 := [Plus] + ys;
    var ts := Print(x) + t1;
    UnaryRoundTrip(x, t1);
    TermFromUnary(ts, Denote(x), t1);
    var m := Mul(Denote(y), Denote(z));
    ProductTerm(y, z, rest);
    assert t1[1..] == ys;
    PlusStep(Denote(x), t1, m, after);
    ExprFromTermTail(ts, Denote(x), t1);
  }

  /** An expression is its first term followed by the additive tail. */
  lemma ExprFromTermTail(ts: seq<Token>, v: Num, rest: seq<Token>)
    requires ParseTerm(ts) == Some(Parsed(v, rest))
    ensures ParseExpr(ts) == ExprTail(v, rest)
  {
  }

  /** One `+` step of the additive tail, followed by no further operator. */
  lemma PlusStep(acc: Num, ts: seq<Token>, v: Num, rest: seq<Token>)
    requires ts != [] && ts[0] == Plus
    requires ParseTerm(ts[1..]) == Some(Parsed(v, rest))
    requires rest == [] || !IsAdditive(rest[0])
    ensures ExprTail(acc, ts) == Some(Parsed(Add(acc, v), rest))
  {
  }

  /** The tokens of `y * z` followed by `)` read as one term. */
  lemma ProductTerm(y: Expr, z: Expr, rest: seq<Token>)
    ensures ParseTerm(Print(y) + ([Star] + (Print(z) + ([RParen] + rest))))
         == Some(Parsed(Mul(Denote(y), Denote(z)), [RParen] + rest))
  {
    var after := [RParen] + rest;
    var zs := Print(z) + after;
    UnaryRoundTrip(y, [Star] + zs);
    UnaryRoundTrip(z, after);
    assert ([Star] + zs)[1..] == zs;
    var m := Mul(Denote(y), Denote(z));
    assert TermTail(m, after) == Some(Parsed(m, after));
    assert TermTail(Denote(y), [Star] + zs) == Some(Parsed(m, after));
  }

  lemma PrecedenceShape(px: seq<Token>, py: seq<Token>, pz: seq<Token>)
    ensures [LParen] + px + [Plus] + py + [Star] + pz + [RParen]
         == [LParen] + (px + ([Plus] + (py + ([Star] + (pz + ([RParen] + []))))))
  {
  }

  /** The tokens of `(x + y * z)` evaluate to `x + y * z` with standard
      precedence. */
  lemma EvaluatePrecedence(x: Expr, y: Expr, z: Expr)
    ensures Evaluate([LParen] + Print(x) + [Plus] + Print(y) + [Star] + Print(z) + [RParen])
         == Some(Add(Denote(x), Mul(Denote(y), Denote(z))))
  {
    var inner := Print(x) + ([Plus] + (Print(y) + ([Star] + (Print(z) + ([RParen] + [])))));
    var v := Add(Denote(x), Mul(Denote(y), Denote(z)));
    PrecedenceTokens(x, y, z, []);
    PrecedenceShape(Print(x), Print(y), Print(z));
    UnaryFromParen(inner, v, []);
    TermFromUnary([LParen] + inner, v, []);
    ExprFromTerm([LParen] + inner, v, []);
  }

  lemma PrecedenceChain(strict: bool, px: string, py: string, pz: string,
                        kx: seq<Token>, ky: seq<Token>, kz: seq<Token>)
    requires Tokenize(strict, ")") == Some([RParen])
    requires Tokenize(strict, pz + ")") == Concat(kz, Tokenize(strict, ")"))
    requires Tokenize(strict, [OpChar(MulOp)] + (pz + ")")) == Prepend(Star, Tokenize(strict, pz + ")"))
    requires Tokenize(strict, py + ([OpChar(MulOp)] + (pz + ")")))
          == Concat(ky, Tokenize(strict, [OpChar(MulOp)] + (pz + ")")))
    requires Tokenize(strict, [OpChar(AddOp)] + (py + ([OpChar(MulOp)] + (pz + ")"))))
          == Prepend(Plus, Tokenize(strict, py + ([OpChar(MulOp)] + (pz + ")"))))
    requires Tokenize(strict, px + ([OpChar(AddOp)] + (py + ([OpChar(MulOp)] + (pz + ")")))))
          == Concat(kx, Tokenize(strict, [OpChar(AddOp)] + (py + ([OpChar(MulOp)] + (pz + ")")))))
    ensures Tokenize(strict, "(" + (px + ([OpChar(AddOp)] + (py + ([OpChar(MulOp)] + (pz + ")"))))))
         == Some([LParen] + kx + [Plus] + ky + [Star] + kz + [RParen])
  {
    TokenizeOpenParen(strict, px + ([OpChar(AddOp)] + (py + ([OpChar(MulOp)] + (pz + ")")))));
    assert [LParen] + (kx + ([Plus] + (ky + ([Star] + (kz + [RParen])))))
        == [LParen] + kx + [Plus] + ky + [Star] + kz + [RParen];
  }

  lemma TokenizeClose(strict: bool)
    ensures Tokenize(strict, ")") == Some([RParen])
  {
    TokenizeCloseParen(strict, []);
    assert ")" + [] == ")";
    assert [RParen] + [] == [RParen];
  }

  /** The text `(x+y*z)` lexes to the tokens of `x`, `+`, `y`, `*`, `z`
      between parentheses. */
  lemma TokenizePrecedenceText(strict: bool, x: Expr, y: Expr, z: Expr)
    ensures Tokenize(strict, "(" + (PrintText(x) + ([OpChar(AddOp)] + (PrintText(y) + ([OpChar(MulOp)] + (PrintText(z) + ")"))))))
         == Some([LParen] + Print(x) + [Plus] + Print(y) + [Star] + Print(z) + [RParen])
  {
    var px, py, pz := PrintText(x), PrintText(y), PrintText(z);
    var s4 := pz + ")";
    var s3 := [OpChar(MulOp)] + s4;
    var s2 := py + s3;
    var s1 := [OpChar(AddOp)] + s2;
    TokenizeClose(strict);
    TokenizePrintText(strict, z, ")");
    assert s4[0] == pz[0];
    TokenizeOperator(strict, MulOp, s4);
    TokenizePrintText(strict, y, s3);
    assert s2[0] == py[0];
    TokenizeOperator(strict, AddOp, s2);
    TokenizePrintText(strict, x, s1);
    PrecedenceChain(strict, px, py, pz, Print(x), Print(y), Print(z));
  }
}
