/** How the tokens of a boolean query are written: numerals, single characters, and any number of blanks before each.
    The lexer finds exactly the tokens that are written. */
module IntQueryLexing {
  import opened IntQueryText
  import opened IntQueryParse
  import opened IntQueryAccept
  import opened IntQueryInput

  /** A token, the blanks before it, and the digits of a number. */
  datatype Mark = Mark(blanks: nat, token: Token, numeral: string)

  // ---- Numerals ----

  /** What a sequence of digits stands for in a base. */
  function Weight(ds: string, base: nat): nat
    requires forall c <- ds :: IsDigit(c)
  {
    if ds == "" then 0 else Weight(ds[..|ds| - 1], base) * base + DigitValue(ds[|ds| - 1])
  }

  /** An optional minus sign and digits, at most 15 characters; the digits may be missing. */
  predicate IsNumeral(s: string) {
    0 < |s| < NNN_SIZE && (s[0] == '-' || IsDigit(s[0])) && forall i :: 1 <= i < |s| ==> IsDigit(s[i])
  }

  lemma {:induction false} MagnitudeIs(ds: string, rest: string, base: nat)
    requires forall c <- ds :: IsDigit(c) && DigitValue(c) < base
    requires rest == "" || !IsDigit(rest[0]) || DigitValue(rest[0]) >= base
    ensures Magnitude(ds + rest, base, 0) == Weight(ds, base)
  {
    MagnitudeFrom(ds, rest, base, 0);
    assert forall acc: nat :: acc == 0 ==> acc * Shift(base, |ds|) == 0;
  }

  function Shift(base: nat, n: nat): nat { if n == 0 then 1 else base * Shift(base, n - 1) }

  lemma {:induction false} MagnitudeFrom(ds: string, rest: string, base: nat, acc: nat)
    requires forall c <- ds :: IsDigit(c) && DigitValue(c) < base
    requires rest == "" || !IsDigit(rest[0]) || DigitValue(rest[0]) >= base
    ensures Magnitude(ds + rest, base, acc) == acc * Shift(base, |ds|) + Weight(ds, base)
  {
    if ds == "" {
      assert ds + rest == rest;
    } else {
      assert (ds + rest)[0] == ds[0] && (ds + rest)[1..] == ds[1..] + rest;
      MagnitudeFrom(ds[1..], rest, base, acc * base + DigitValue(ds[0]));
      WeightFirst(ds, base);
      Distribute(acc, base, Shift(base, |ds| - 1), DigitValue(ds[0]));
    }
  }

  lemma Distribute(acc: int, base: int, shift: int, d: int)
    ensures (acc * base + d) * shift == acc * (base * shift) + d * shift
  {
  }

  lemma {:induction false} WeightFirst(ds: string, base: nat)
    requires ds != "" && forall c <- ds :: IsDigit(c)
    ensures Weight(ds, base) == DigitValue(ds[0]) * Shift(base, |ds| - 1) + Weight(ds[1..], base)
  {
    if |ds| == 1 {
      assert ds[..0] == "" && ds[1..] == "";
    } else {
      var front := ds[..|ds| - 1];
      WeightFirst(front, base);
      assert front[1..] == ds[1..][..|ds[1..]| - 1] && front[0] == ds[0];
      Carry(DigitValue(ds[0]), Shift(base, |ds| - 2), Weight(front[1..], base), base);
    }
  }

  lemma Carry(d: int, shift: int, w: int, base: int)
    ensures (d * shift + w) * base == d * (base * shift) + w * base
  {
  }

  /** strtol with base 0: octal behind a leading zero, decimal otherwise; a digit that the base does not have ends it.
      */
  lemma StrtolIs(minus: bool, ds: string, rest: string)
    requires ds != "" && forall c <- ds :: IsDigit(c)
    requires var base := if ds[0] == '0' then 8 else 10;
             && (forall c <- ds :: DigitValue(c) < base)
             && (rest == "" || !IsDigit(rest[0]) || DigitValue(rest[0]) >= base)
    ensures var w: int := Weight(ds, if ds[0] == '0' then 8 else 10);
            Strtol((if minus then "-" else "") + (ds + rest)) == if minus then -w else w
  {
    var base := if ds[0] == '0' then 8 else 10;
    var digits := ds + rest;
    MagnitudeIs(ds, rest, base);
    assert digits[0] == ds[0];
    if minus {
      assert ("-" + digits)[1..] == digits;
    } else {
      assert "" + digits == digits;
    }
  }

  // ---- Written tokens ----

  function TokensOf(ms: seq<Mark>): (toks: seq<Token>)
    ensures |toks| == |ms|
  {
    seq(|ms|, i requires 0 <= i < |ms| => ms[i].token)
  }

  function Written(m: Mark): string {
    match m.token
    case VAL(_) => m.numeral
    case OPR(c) => [c]
    case OPEN => "("
    case CLOSE => ")"
    case END => ""
    case ERR => ""
  }

  /** A number can be written as any numeral that strtol reads as it. */
  predicate MarkOk(m: Mark) {
    match m.token
    case VAL(v) => IsNumeral(m.numeral) && Strtol(m.numeral) == v
    case END => false
    case ERR => false
    case _ => true
  }

  predicate MarksOk(ms: seq<Mark>) { forall m <- ms :: MarkOk(m) }

  function Blanks(n: nat): (s: string)
    ensures |s| == n
  {
    seq(n, _ => ' ')
  }

  /** The text of some tokens, blanks behind them, and some rest. */
  function Put(ms: seq<Mark>, end: nat, rest: string): string {
    if ms == [] then Blanks(end) + rest else Blanks(ms[0].blanks) + (Written(ms[0]) + Put(ms[1..], end, rest))
  }

  lemma BlankFirst(n: nat, s: string)
    requires n > 0
    ensures var b := Blanks(n) + s; b != "" && b[0] == ' ' && b[1..] == Blanks(n - 1) + s
  {
  }

  lemma NoBlanks(s: string)
    ensures Blanks(0) + s == s
  {
  }

  lemma {:induction false} SkipBlanks(n: nat, s: string, state: State, count: int)
    ensures NextToken(Blanks(n) + s, state, count) == NextToken(s, state, count)
    decreases n
  {
    hide Blanks, Number;
    if n == 0 {
      NoBlanks(s);
    } else {
      BlankFirst(n, s);
      SkipBlanks(n - 1, s, state, count);
    }
  }

  /** A single character that is a token. */
  lemma CharToken(c: char, s: string, state: State, count: int)
    ensures var n := NextToken([c] + s, state, count);
            && (state == WaitOperand && c == '!' ==> n == Next(OPR(c), s, WaitOperand, count))
            && (state == WaitOperand && c == '(' ==> n == Next(OPEN, s, WaitOperand, count + 1))
            && (state == WaitOperator && (c == '&' || c == '|') ==> n == Next(OPR(c), s, WaitOperand, count))
            && (state == WaitOperator && c == ')' && count > 0 ==> n == Next(CLOSE, s, WaitOperator, count - 1))
  {
    assert ([c] + s)[1..] == s && ([c] + s)[0] == c;
    hide Number;
  }

  lemma NumeralToken(d: string, s: string, count: int)
    requires IsNumeral(d) && -0x8000_0000 <= Strtol(d) < 0x8000_0000
    requires !IsDigit(Head(s)) && (count != 0 ==> Head(s) != '\0')
    ensures NextToken(d + s, WaitOperand, count) == Next(VAL(Strtol(d)), s, WaitOperator, count)
  {
    var t := d + s;
    assert t[0] == d[0] && t[1..] == d[1..] + s && t[..|d|] == d && t[|d|..] == s;
    DigitsBehind(d[1..], s);
    hide Strtol, DigitRun;
  }

  lemma DigitsBehind(ds: string, s: string)
    requires !IsDigit(Head(s)) && forall i :: 0 <= i < |ds| ==> IsDigit(ds[i])
    ensures DigitRun(ds + s) == |ds|
  {
    var t := ds + s;
    assert forall i :: 0 <= i < |ds| ==> t[i] == ds[i];
    DigitsAhead(t, |ds|);
    assert t[|ds|..] == s;
  }

  /** Behind a number comes a blank, an operator, a closing bracket or the end. */
  lemma NoDigitNext(ms: seq<Mark>, end: nat, rest: string, depth: nat)
    requires MarksOk(ms) && Alternates(TokensOf(ms) + [END], WaitOperator, depth) && Head(rest) == '\0'
    ensures !IsDigit(Head(Put(ms, end, rest))) && (depth != 0 ==> Head(Put(ms, end, rest)) != '\0')
  {
    var toks := TokensOf(ms) + [END];
    if ms == [] {
      if end > 0 { BlankFirst(end, rest); } else { NoBlanks(rest); }
    } else {
      var s := Written(ms[0]) + Put(ms[1..], end, rest);
      assert toks[0] == ms[0].token && MarkOk(ms[0]);
      if ms[0].blanks > 0 { BlankFirst(ms[0].blanks, s); } else { NoBlanks(s); }
      hide Put;
    }
  }

  lemma TokensTail(ms: seq<Mark>)
    requires ms != []
    ensures (TokensOf(ms) + [END])[0] == ms[0].token && (TokensOf(ms) + [END])[1..] == TokensOf(ms[1..]) + [END]
    ensures TokensOf(ms) == [ms[0].token] + TokensOf(ms[1..])
  {
  }

  /** One written token and the state behind it. */
  lemma MarkRead(ms: seq<Mark>, end: nat, rest: string, state: State, depth: nat) returns (state': State, depth': nat)
    requires ms != [] && MarksOk(ms) && Alternates(TokensOf(ms) + [END], state, depth) && Head(rest) == '\0'
    ensures NextToken(Put(ms, end, rest), state, depth) == Next(ms[0].token, Put(ms[1..], end, rest), state', depth')
    ensures Alternates(TokensOf(ms[1..]) + [END], state', depth') && MarksOk(ms[1..])
    ensures ms[0].token != END && ms[0].token != ERR
  {
    var m, s := ms[0], Put(ms[1..], end, rest);
    TokensTail(ms);
    assert MarkOk(m);
    SkipBlanks(m.blanks, Written(m) + s, state, depth);
    hide NextToken, Put, TokensOf, Strtol, Blanks;
    match m.token
    case VAL(v) =>
      state', depth' := WaitOperator, depth;
      NoDigitNext(ms[1..], end, rest, depth);
      NumeralToken(m.numeral, s, depth);
      PutMark(ms, end, rest);
    case OPR(c) =>
      state', depth' := WaitOperand, depth;
      CharToken(c, s, state, depth);
      PutMark(ms, end, rest);
    case OPEN =>
      state', depth' := WaitOperand, depth + 1;
      CharToken('(', s, state, depth);
      PutMark(ms, end, rest);
    case CLOSE =>
      state', depth' := WaitOperator, depth - 1;
      CharToken(')', s, state, depth);
      PutMark(ms, end, rest);
  }

  lemma PutMark(ms: seq<Mark>, end: nat, rest: string)
    requires ms != []
    ensures Put(ms, end, rest) == Blanks(ms[0].blanks) + (Written(ms[0]) + Put(ms[1..], end, rest))
  {
  }

  /** Whatever the blanks and numerals, the lexer finds exactly the tokens written. */
  lemma {:induction false} LexWritten(ms: seq<Mark>, end: nat, rest: string, state: State, depth: nat)
    requires MarksOk(ms) && Alternates(TokensOf(ms) + [END], state, depth) && Head(rest) == '\0'
    ensures Lex(Put(ms, end, rest), state, depth) == TokensOf(ms) + [END]
    decreases |ms|
  {
    hide NextToken, MarksOk, Alternates, Lex, Put, TokensOf;
    if ms == [] {
      EndRead(end, rest, state, depth);
    } else {
      var state', depth' := MarkRead(ms, end, rest, state, depth);
      LexWritten(ms[1..], end, rest, state', depth');
      WrittenLaw(ms);
      LexStep(Put(ms, end, rest), state, depth);
    }
  }

  lemma LexStep(s: string, state: State, count: int)
    ensures var n := NextToken(s, state, count);
            Lex(s, state, count) == if n.token == END || n.token == ERR then [n.token]
                                    else [n.token] + Lex(n.rest, n.state, n.count)
  {
    hide NextToken;
  }

  lemma WrittenLaw(ms: seq<Mark>)
    requires ms != []
    ensures TokensOf(ms) + [END] == [ms[0].token] + (TokensOf(ms[1..]) + [END])
  {
  }

  lemma EndRead(end: nat, rest: string, state: State, depth: nat)
    requires Alternates(TokensOf([]) + [END], state, depth) && Head(rest) == '\0'
    ensures NextToken(Put([], end, rest), state, depth).token == END
    ensures Lex(Put([], end, rest), state, depth) == TokensOf([]) + [END]
  {
    assert TokensOf([]) + [END] == [END];
    SkipBlanks(end, rest, state, depth);
    hide Number;
  }

  // ---- Nothing else is found ----

  lemma {:induction false} FindBlanks(s: string) returns (n: nat, rest: string)
    ensures s == Blanks(n) + rest && Head(rest) != ' '
  {
    if s != "" && s[0] == ' ' {
      n, rest := FindBlanks(s[1..]);
      n := n + 1;
      assert s == [' '] + s[1..];
      assert Blanks(n) == [' '] + Blanks(n - 1);
    } else {
      n, rest := 0, s;
      NoBlanks(s);
    }
  }

  /** The written form of the token that is found. */
  lemma FindMark(s: string, state: State, count: int) returns (m: Mark)
    requires var t := NextToken(s, state, count).token; t != END && t != ERR
    ensures var n := NextToken(s, state, count);
            m.token == n.token && MarkOk(m) && s == Blanks(m.blanks) + (Written(m) + n.rest)
  {
    var n := NextToken(s, state, count);
    var blanks, behind := FindBlanks(s);
    SkipBlanks(blanks, behind, state, count);
    if n.token.VAL? {
      var k := FindNumeral(behind, count);
      m := Mark(blanks, n.token, behind[..k]);
      assert behind == behind[..k] + behind[k..];
    } else {
      m := Mark(blanks, n.token, "");
      assert behind == [behind[0]] + behind[1..];
    }
  }

  lemma FindNumeral(s: string, count: int) returns (k: nat)
    requires NextToken(s, WaitOperand, count).token.VAL? && Head(s) != ' '
    ensures k <= |s| && IsNumeral(s[..k])
    ensures NextToken(s, WaitOperand, count).token.val == Strtol(s[..k])
    ensures NextToken(s, WaitOperand, count).rest == s[k..]
  {
    k := 1 + DigitRun(s[1..]);
    hide Strtol, DigitRun;
    assert forall i :: 1 <= i < k ==> s[i] == s[1..][i - 1];
  }

  lemma EndFound(s: string, state: State, count: int) returns (end: nat, rest: string)
    requires NextToken(s, state, count).token == END
    ensures s == Blanks(end) + rest && Head(rest) == '\0'
  {
    end, rest := FindBlanks(s);
    SkipBlanks(end, rest, state, count);
  }

  /** The written form of a text without a lexical error. */
  lemma {:induction false} FindMarks(s: string, state: State, count: int)
    returns (ms: seq<Mark>, end: nat, rest: string)
    requires var toks := Lex(s, state, count); toks[|toks| - 1] == END
    ensures MarksOk(ms) && s == Put(ms, end, rest) && Head(rest) == '\0' && Lex(s, state, count) == TokensOf(ms) + [END]
    decreases |s|
  {
    hide NextToken, Strtol, MarkOk, Put, Blanks;
    var n := NextToken(s, state, count);
    if n.token == END {
      end, rest := EndFound(s, state, count);
      ms := [];
      NothingWritten(end, rest);
    } else {
      LastStays(s, state, count);
      var m := FindMark(s, state, count);
      ms, end, rest := FindMarks(n.rest, n.state, n.count);
      AddMark(m, ms, end, rest);
      ms := [m] + ms;
    }
  }

  lemma NothingWritten(end: nat, rest: string)
    ensures Put([], end, rest) == Blanks(end) + rest && TokensOf([]) + [END] == [END]
  {
  }

  lemma LastStays(s: string, state: State, count: int)
    requires var toks := Lex(s, state, count); toks[|toks| - 1] == END
    requires NextToken(s, state, count).token != END
    ensures var n := NextToken(s, state, count);
            var toks := Lex(n.rest, n.state, n.count);
            n.token != ERR && toks[|toks| - 1] == END
  {
    hide NextToken;
    LexStep(s, state, count);
  }

  lemma AddMark(m: Mark, ms: seq<Mark>, end: nat, rest: string)
    ensures Put([m] + ms, end, rest) == Blanks(m.blanks) + (Written(m) + Put(ms, end, rest))
    ensures TokensOf([m] + ms) + [END] == [m.token] + (TokensOf(ms) + [END])
    ensures MarkOk(m) && MarksOk(ms) ==> MarksOk([m] + ms)
  {
    assert ([m] + ms)[1..] == ms;
    PutMark([m] + ms, end, rest);
    TokensTail([m] + ms);
    hide Put, MarkOk;
  }

  /** The text, up to a NUL, is a way to write these tokens. */
  ghost predicate Writes(s: string, toks: seq<Token>) {
    exists ms, end, rest :: MarksOk(ms) && s == Put(ms, end, rest) && Head(rest) == '\0' && TokensOf(ms) == toks
  }

  /** A text has these tokens and no lexical error exactly if it is a way to write them: numbers as any numerals, every
      other token as its character, any number of blanks before each and at the end. */
  lemma TokensExactly(s: string, toks: seq<Token>)
    requires Alternates(toks + [END], WaitOperand, 0)
    ensures Tokens(s) == toks + [END] <==> Writes(s, toks)
  {
    hide Lex, MarksOk, Put, Alternates;
    if Tokens(s) == toks + [END] {
      var ms, end, rest := FindMarks(s, WaitOperand, 0);
      assert TokensOf(ms) == (TokensOf(ms) + [END])[..|ms|] == toks;
    }
    forall ms, end, rest | MarksOk(ms) && s == Put(ms, end, rest) && Head(rest) == '\0' && TokensOf(ms) == toks
      ensures Tokens(s) == toks + [END]
    {
      LexWritten(ms, end, rest, WaitOperand, 0);
    }
  }

  // ---- Texts of queries ----

  lemma {:induction false} FactorAlternates(f: Factor, rest: seq<Token>, depth: nat)
    requires ProperFactor(f) && Alternates(rest, WaitOperator, depth)
    ensures Alternates(FactorTokens(f) + rest, WaitOperand, depth)
    decreases f, 0
  {
    hide TermsTokens, FactorsTokens, ProperTerm, ProperQuery;
    match f
    case Value(v) =>
      assert (FactorTokens(f) + rest)[1..] == rest;
    case Not(g) =>
      FactorAlternates(g, rest, depth);
      assert (FactorTokens(f) + rest)[1..] == FactorTokens(g) + rest;
    case Paren(q) =>
      var behind := [CLOSE] + rest;
      assert behind[1..] == rest;
      QueryAlternates(q, behind, depth + 1);
      assert (FactorTokens(f) + rest)[1..] == QueryTokens(q) + behind;
  }

  lemma {:induction false} FactorsAlternate(fs: seq<Factor>, rest: seq<Token>, depth: nat)
    requires fs != [] && (forall f <- fs :: ProperFactor(f)) && Alternates(rest, WaitOperator, depth)
    ensures Alternates(FactorsTokens(fs) + rest, WaitOperand, depth)
    decreases fs, 1
  {
    hide FactorTokens, ProperFactor;
    assert fs[0] in fs;
    if |fs| == 1 {
      FactorAlternates(fs[0], rest, depth);
    } else {
      assert forall f <- fs[1..] :: f in fs;
      FactorsAlternate(fs[1..], rest, depth);
      var behind := [OPR('&')] + (FactorsTokens(fs[1..]) + rest);
      assert behind[1..] == FactorsTokens(fs[1..]) + rest;
      FactorAlternates(fs[0], behind, depth);
      SplitFactorsTokens(fs, rest);
    }
  }

  lemma {:induction false} TermsAlternate(ts: seq<Term>, rest: seq<Token>, depth: nat)
    requires ts != [] && (forall t <- ts :: ProperTerm(t)) && Alternates(rest, WaitOperator, depth)
    ensures Alternates(TermsTokens(ts) + rest, WaitOperand, depth)
    decreases ts, 2
  {
    hide FactorsTokens, ProperFactor;
    assert ts[0] in ts && ProperTerm(ts[0]);
    if |ts| == 1 {
      FactorsAlternate(ts[0].factors, rest, depth);
    } else {
      assert forall t <- ts[1..] :: t in ts;
      TermsAlternate(ts[1..], rest, depth);
      var behind := [OPR('|')] + (TermsTokens(ts[1..]) + rest);
      assert behind[1..] == TermsTokens(ts[1..]) + rest;
      FactorsAlternate(ts[0].factors, behind, depth);
      SplitTermsTokens(ts, rest);
    }
  }

  lemma {:induction false} QueryAlternates(q: Query, rest: seq<Token>, depth: nat)
    requires ProperQuery(q) && Alternates(rest, WaitOperator, depth)
    ensures Alternates(QueryTokens(q) + rest, WaitOperand, depth)
    decreases q, 3
  {
    hide ProperTerm;
    TermsAlternate(q.terms, rest, depth);
  }

  /** The texts of a query are exactly the ways to write its tokens; bqarr_in stores it from any of them. */
  lemma QueryTexts(s: string, q: Query)
    requires ProperQuery(q)
    ensures IsQuery(Tokens(s), q) <==> Writes(s, QueryTokens(q))
  {
    QueryAlternates(q, [END], 0);
    hide Alternates, Writes, QueryTokens, ProperQuery;
    TokensExactly(s, QueryTokens(q));
  }
}
