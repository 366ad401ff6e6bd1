/** The text of an intarray boolean query: its tokens as gettoken cuts them, and the infix grammar with its
    meaning ("!" over "&" over "|"), stated without reference to the parser. */
module IntQueryText {

  type int32 = v: int | -0x8000_0000 <= v < 0x8000_0000

  datatype State = WaitOperand | WaitOperator

  datatype Token = END | ERR | VAL(val: int32) | OPR(op: char) | OPEN | CLOSE

  /** A token and what is left: the text behind it, the lexer state and the parenthesis count. */
  datatype Next = Next(token: Token, rest: string, state: State, count: int)

  /** The character the pointer is at; '\0' past the end. */
  function Head(s: string): char { if s == "" then '\0' else s[0] }

  predicate IsDigit(c: char) { '0' <= c <= '9' }

  function DigitRun(s: string): (n: nat)
    ensures n <= |s| && forall i :: 0 <= i < n ==> IsDigit(s[i])
    ensures n < |s| ==> !IsDigit(s[n])
  {
    if s != "" && IsDigit(s[0]) then 1 + DigitRun(s[1..]) else 0
  }

  function DigitValue(c: char): nat
    requires IsDigit(c)
  {
    c as int - '0' as int
  }

  /** Digits of the base up to the first character that is none. */
  function Magnitude(s: string, base: nat, acc: nat): nat {
    if s == "" || !IsDigit(s[0]) || DigitValue(s[0]) >= base then acc
    else Magnitude(s[1..], base, acc * base + DigitValue(s[0]))
  }

  /** strtol(nnn, NULL, 0) on an optional minus sign and digits: a leading zero means octal. */
  function Strtol(s: string): int {
    var digits := if Head(s) == '-' then s[1..] else s;
    var m: int := Magnitude(digits, if Head(digits) == '0' then 8 else 10, 0);
    if Head(s) == '-' then -m else m
  }

  const NNN_SIZE: nat := 16

  /** A number literal starting here: at most 15 characters, in the range of int32, and not the end of the text
      inside parentheses. */
  function Number(s: string, count: int): Next
    requires s != ""
  {
    var n := 1 + DigitRun(s[1..]);
    if n >= NNN_SIZE then Next(ERR, s, WaitOperand, count) else
    var v := Strtol(s[..n]);
    if !(-0x8000_0000 <= v < 0x8000_0000) then Next(ERR, s[n..], WaitOperand, count) else
    Next(if count != 0 && Head(s[n..]) == '\0' then ERR else VAL(v), s[n..], WaitOperator, count)
  }

  /** gettoken. */
  function NextToken(s: string, state: State, count: int): (r: Next)
    ensures r.token != END && r.token != ERR ==> |r.rest| < |s|
  {
    var c := Head(s);
    match state
    case WaitOperand =>
      if s != "" && (IsDigit(c) || c == '-') then Number(s, count)
      else if s != "" && c == '!' then Next(OPR('!'), s[1..], WaitOperand, count)
      else if s != "" && c == '(' then Next(OPEN, s[1..], WaitOperand, count + 1)
      else if s != "" && c == ' ' then NextToken(s[1..], state, count)
      else Next(ERR, s, state, count)
    case WaitOperator =>
      if s != "" && (c == '&' || c == '|') then Next(OPR(c), s[1..], WaitOperand, count)
      else if s != "" && c == ')' then Next(if count - 1 < 0 then ERR else CLOSE, s[1..], state, count - 1)
      else if c == '\0' then Next(if count != 0 then ERR else END, s, state, count)
      else if c == ' ' then NextToken(s[1..], state, count)
      else Next(ERR, s, state, count)
  }

  /** All tokens of a text, up to and including the first END or ERR. */
  function Lex(s: string, state: State, count: int): (toks: seq<Token>)
    ensures toks != [] && (toks[|toks| - 1] == END || toks[|toks| - 1] == ERR)
    decreases |s|
  {
    var n := NextToken(s, state, count);
    if n.token == END || n.token == ERR then [n.token] else [n.token] + Lex(n.rest, n.state, n.count)
  }

  function Tokens(s: string): seq<Token> {
    Lex(s, WaitOperand, 0)
  }

  // ---- The grammar ----

  /** A query: terms joined by "|", each term factors joined by "&". */
  datatype Query = Query(terms: seq<Term>)
  datatype Term = Term(factors: seq<Factor>)
  datatype Factor = Value(val: int32) | Not(f: Factor) | Paren(q: Query)

  /** No empty lists anywhere. */
  predicate ProperQuery(q: Query) {
    q.terms != [] && forall t <- q.terms :: ProperTerm(t)
  }

  predicate ProperTerm(t: Term) {
    t.factors != [] && forall f <- t.factors :: ProperFactor(f)
  }

  predicate ProperFactor(f: Factor) {
    match f
    case Value(_) => true
    case Not(g) => ProperFactor(g)
    case Paren(q) => ProperQuery(q)
  }

  function QueryTokens(q: Query): seq<Token> {
    TermsTokens(q.terms)
  }

  function TermsTokens(ts: seq<Term>): seq<Token> {
    if ts == [] then []
    else if |ts| == 1 then TermTokens(ts[0])
    else TermTokens(ts[0]) + [OPR('|')] + TermsTokens(ts[1..])
  }

  function TermTokens(t: Term): seq<Token> {
    FactorsTokens(t.factors)
  }

  function FactorsTokens(fs: seq<Factor>): seq<Token> {
    if fs == [] then []
    else if |fs| == 1 then FactorTokens(fs[0])
    else FactorTokens(fs[0]) + [OPR('&')] + FactorsTokens(fs[1..])
  }

  function FactorTokens(f: Factor): seq<Token> {
    match f
    case Value(v) => [VAL(v)]
    case Not(g) => [OPR('!')] + FactorTokens(g)
    case Paren(q) => [OPEN] + QueryTokens(q) + [CLOSE]
  }

  // ---- The meaning ----

  predicate QueryHolds(q: Query, present: int32 -> bool) {
    exists i :: 0 <= i < |q.terms| && TermHolds(q.terms[i], present)
  }

  predicate TermHolds(t: Term, present: int32 -> bool) {
    forall i :: 0 <= i < |t.factors| ==> FactorHolds(t.factors[i], present)
  }

  predicate FactorHolds(f: Factor, present: int32 -> bool) {
    match f
    case Value(v) => present(v)
    case Not(g) => !FactorHolds(g, present)
    case Paren(q) => QueryHolds(q, present)
  }
}
