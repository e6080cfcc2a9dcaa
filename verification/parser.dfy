/** Recursive-descent evaluation of a token sequence with the precedence of
    JavaScript: unary `+`/`-` bind tightest, then `*` and `/`, then binary
    `+` and `-`, all binary operators associating to the left.

      Expr  := Term (('+' | '-') Term)*
      Term  := Unary (('*' | '/') Unary)*
      Unary := ('+' | '-') Unary | Primary
      Primary := Number | '(' Expr ')'

    Each function returns the value of the longest phrase it recognises and
    the tokens after it, or `None` where JavaScript raises a SyntaxError. */
module Parser {
  import opened Wrappers
  import opened JsNumber
  import opened Lexer

  datatype Parsed = Parsed(value: Num, rest: seq<Token>)

  predicate IsAdditive(t: Token) { t == Plus || t == Minus }
  predicate IsMultiplicative(t: Token) { t == Star || t == Slash }

  function ParseExpr(ts: seq<Token>): (r: Option<Parsed>)
    decreases |ts|, 5
    ensures r.Some? ==> |r.value.rest| < |ts|
  {
    match ParseTerm(ts)
    case None => None
    case Some(p) => ExprTail(p.value, p.rest)
  }

  function ExprTail(acc: Num, ts: seq<Token>): (r: Option<Parsed>)
    decreases |ts|, 4
    ensures r.Some? ==> |r.value.rest| <= |ts|
    // The loop stops exactly where no additive operator follows.
    ensures r.Some? ==> r.value.rest == [] || !IsAdditive(r.value.rest[0])
  {
    if |ts| > 0 && IsAdditive(ts[0]) then
      match ParseTerm(ts[1..])
      case None => None
      case Some(p) =>
        ExprTail(if ts[0] == Plus then Add(acc, p.value) else Sub(acc, p.value), p.rest)
    else Some(Parsed(acc, ts))
  }

  function ParseTerm(ts: seq<Token>): (r: Option<Parsed>)
    decreases |ts|, 3
    ensures r.Some? ==> |r.value.rest| < |ts|
    ensures r.Some? ==> r.value.rest == [] || !IsMultiplicative(r.value.rest[0])
  {
    match ParseUnary(ts)
    case None => None
    case Some(p) => TermTail(p.value, p.rest)
  }

  function TermTail(acc: Num, ts: seq<Token>): (r: Option<Parsed>)
    decreases |ts|, 2
    ensures r.Some? ==> |r.value.rest| <= |ts|
    ensures r.Some? ==> r.value.rest == [] || !IsMultiplicative(r.value.rest[0])
  {
    if |ts| > 0 && IsMultiplicative(ts[0]) then
      match ParseUnary(ts[1..])
      case None => None
      case Some(p) =>
        TermTail(if ts[0] == Star then Mul(acc, p.value) else Div(acc, p.value), p.rest)
    else Some(Parsed(acc, ts))
  }

  function ParseUnary(ts: seq<Token>): (r: Option<Parsed>)
    decreases |ts|, 1
    ensures r.Some? ==> |r.value.rest| < |ts|
  {
    if |ts| > 0 && ts[0] == Plus then ParseUnary(ts[1..])
    else if |ts| > 0 && ts[0] == Minus then
      match ParseUnary(ts[1..])
      case None => None
      case Some(p) => Some(Parsed(Neg(p.value), p.rest))
    else ParsePrimary(ts)
  }

  function ParsePrimary(ts: seq<Token>): (r: Option<Parsed>)
    decreases |ts|, 0
    ensures r.Some? ==> |r.value.rest| < |ts|
    ensures r.Some? ==> ts[0].Number? || ts[0] == LParen
  {
    if |ts| == 0 then None
    else match ts[0]
      case Number(v) => Some(Parsed(Finite(v), ts[1..]))
      case LParen =>
        (match ParseExpr(ts[1..])
         case Some(p) =>
           if |p.rest| > 0 && p.rest[0] == RParen then Some(Parsed(p.value, p.rest[1..])) else None
         case None => None)
      case _ => None
  }

  /** The value of a complete token sequence: one expression and nothing
      after it. */
  function Evaluate(ts: seq<Token>): (r: Option<Num>)
    ensures ts == [] ==> r.None?
  {
    match ParseExpr(ts)
    case Some(p) => if p.rest == [] then Some(p.value) else None
    case None => None
  }
}
