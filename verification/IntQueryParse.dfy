/** makepol: tokens to postfix over an operator stack of bounded depth, against the grammar. */
module IntQueryParse {
  import opened IntQueryText

  const STACKDEPTH: nat := 16

  /** A node of the postfix list: an operand or an operator character. */
  datatype Node = Operand(val: int32) | Operator(op: char)

  /** What one invocation of makepol leaves: the list so far and the tokens behind it, or an error. */
  datatype Pol = Done(out: seq<Node>, rest: seq<Token>) | SyntaxError | TooComplex

  /** Pop "&" and "!" off the stack into the list. */
  function PopTight(stack: seq<char>, out: seq<Node>): (r: (seq<char>, seq<Node>))
    ensures |r.0| <= |stack|
  {
    if stack != [] && (stack[|stack| - 1] == '&' || stack[|stack| - 1] == '!') then
      PopTight(stack[..|stack| - 1], out + [Operator(stack[|stack| - 1])])
    else (stack, out)
  }

  function PopAll(stack: seq<char>, out: seq<Node>): seq<Node> {
    if stack == [] then out else PopAll(stack[..|stack| - 1], out + [Operator(stack[|stack| - 1])])
  }

  /** makepol on the tokens still to come. */
  function MakePol(toks: seq<Token>, stack: seq<char>, out: seq<Node>): (r: Pol)
    ensures r.Done? ==> |r.rest| <= |toks|
    decreases |toks|
  {
    if toks == [] then SyntaxError else
    match toks[0]
    case VAL(v) =>
      var (stack', out') := PopTight(stack, out + [Operand(v)]);
      MakePol(toks[1..], stack', out')
    case OPR(c) =>
      if stack != [] && c == '|' then MakePol(toks[1..], stack, out + [Operator(c)])
      else if |stack| == STACKDEPTH then TooComplex
      else MakePol(toks[1..], stack + [c], out)
    case OPEN =>
      (match MakePol(toks[1..], [], out)
       case Done(inner, rest) =>
         var (stack', out') := PopTight(stack, inner);
         MakePol(rest, stack', out')
       case SyntaxError => SyntaxError
       case TooComplex => TooComplex)
    case CLOSE => Done(PopAll(stack, out), toks[1..])
    case END => Done(PopAll(stack, out), toks)
    case ERR => SyntaxError
  }

  // ---- What a derivation compiles to ----

  /** The stack between two tokens: "|" of the query, "&" of the term, and pending "!". */
  function Stack(o: bool, a: bool, nots: nat): seq<char> {
    (if o then ['|'] else []) + (if a then ['&'] else []) + seq(nots, _ => '!')
  }

  function Emit(b: bool, op: char): seq<Node> { if b then [Operator(op)] else [] }

  function PostQuery(q: Query): seq<Node> { PostTerms(q.terms, false) }

  function PostTerms(ts: seq<Term>, joined: bool): seq<Node> {
    if ts == [] then [] else PostFactors(ts[0].factors, false) + Emit(joined, '|') + PostTerms(ts[1..], true)
  }

  function PostFactors(fs: seq<Factor>, joined: bool): seq<Node> {
    if fs == [] then [] else PostFactor(fs[0]) + Emit(joined, '&') + PostFactors(fs[1..], true)
  }

  function PostFactor(f: Factor): seq<Node> {
    match f
    case Value(v) => [Operand(v)]
    case Not(g) => PostFactor(g) + [Operator('!')]
    case Paren(q) => PostQuery(q)
  }

  /** The operator stack never overflows: in no factor does a run of "!" outgrow what "|" and "&" leave of it. */
  predicate FitsQuery(q: Query) { FitsTerms(q.terms, false) }

  predicate FitsTerms(ts: seq<Term>, o: bool) {
    ts == [] || (FitsFactors(ts[0].factors, o, false) && FitsTerms(ts[1..], true))
  }

  predicate FitsFactors(fs: seq<Factor>, o: bool, a: bool) {
    fs == [] || (FitsFactor(fs[0], o, a, 0) && FitsFactors(fs[1..], o, true))
  }

  predicate FitsFactor(f: Factor, o: bool, a: bool, nots: nat) {
    match f
    case Value(_) => true
    case Not(g) => |Stack(o, a, nots)| < STACKDEPTH && FitsFactor(g, o, a, nots + 1)
    case Paren(q) => FitsQuery(q)
  }

  // ---- The machine follows the grammar ----

  function Bangs(n: nat): seq<Node> { seq(n, _ => Operator('!')) }

  lemma PopsAnd(o: bool, a: bool, out: seq<Node>)
    ensures PopTight(Stack(o, a, 0), out) == (Stack(o, false, 0), out + Emit(a, '&'))
  {
    var base := Stack(o, false, 0);
    assert base == if o then ['|'] else [];
    if !a {
      assert out + Emit(false, '&') == out;
    } else {
      var s := Stack(o, a, 0);
      assert s[..|s| - 1] == base && s[|s| - 1] == '&';
      assert PopTight(base, out + [Operator('&')]) == (base, out + [Operator('&')]);
    }
  }

  lemma {:induction false} PopsOperators(o: bool, a: bool, nots: nat, out: seq<Node>)
    ensures PopTight(Stack(o, a, nots), out) == (Stack(o, false, 0), out + (Bangs(nots) + Emit(a, '&')))
    decreases nots
  {
    if nots == 0 {
      PopsAnd(o, a, out);
      assert Bangs(0) + Emit(a, '&') == Emit(a, '&');
    } else {
      var s := Stack(o, a, nots);
      var rest := Bangs(nots - 1) + Emit(a, '&');
      PopsOperators(o, a, nots - 1, out + [Operator('!')]);
      BangOnTop(o, a, nots);
      hide Stack, Bangs, Emit;
      assert PopTight(s, out) == PopTight(s[..|s| - 1], out + [Operator('!')]);
      Regroup(out, [Operator('!')], rest);
    }
  }

  lemma BangOnTop(o: bool, a: bool, nots: nat)
    requires nots > 0
    ensures var s := Stack(o, a, nots); s != [] && s[..|s| - 1] == Stack(o, a, nots - 1) && s[|s| - 1] == '!'
    ensures [Operator('!')] + (Bangs(nots - 1) + Emit(a, '&')) == Bangs(nots) + Emit(a, '&')
  {
  }

  lemma FlushesOr(o: bool, out: seq<Node>)
    ensures PopAll(Stack(o, false, 0), out) == out + Emit(o, '|')
  {
    var s := Stack(o, false, 0);
    if o {
      assert s == ['|'] && s[..0] == [];
      assert PopAll(s[..0], out + [Operator('|')]) == out + [Operator('|')];
    } else {
      assert s == [];
    }
  }

  /** What running over one factor comes to: its postfix, then the operators that were waiting for it. */
  function AfterFactor(f: Factor, rest: seq<Token>, o: bool, a: bool, nots: nat, out: seq<Node>): Pol {
    if FitsFactor(f, o, a, nots)
    then MakePol(rest, Stack(o, false, 0), out + (PostFactor(f) + (Bangs(nots) + Emit(a, '&'))))
    else TooComplex
  }

  lemma {:induction false} RunsFactor(f: Factor, rest: seq<Token>, o: bool, a: bool, nots: nat, out: seq<Node>)
    requires ProperFactor(f) && |Stack(o, a, nots)| <= STACKDEPTH
    ensures MakePol(FactorTokens(f) + rest, Stack(o, a, nots), out) == AfterFactor(f, rest, o, a, nots, out)
    decreases f, 0
  {
    match f
    case Value(v) => RunsValue(v, rest, o, a, nots, out);
    case Not(g) =>
      if |Stack(o, a, nots)| < STACKDEPTH {
        RunsFactor(g, rest, o, a, nots + 1, out);
      }
      RunsNot(g, rest, o, a, nots, out);
    case Paren(q) =>
      RunsTerms(q.terms, [CLOSE] + rest, false, out);
      RunsParen(q, rest, o, a, nots, out);
  }

  lemma RunsValue(v: int32, rest: seq<Token>, o: bool, a: bool, nots: nat, out: seq<Node>)
    ensures MakePol(FactorTokens(Value(v)) + rest, Stack(o, a, nots), out)
            == AfterFactor(Value(v), rest, o, a, nots, out)
  {
    var toks := FactorTokens(Value(v)) + rest;
    assert toks[1..] == rest && toks[0] == VAL(v);
    PopsOperators(o, a, nots, out + [Operand(v)]);
    hide PopTight, Stack, Bangs, Emit;
    assert out + [Operand(v)] + (Bangs(nots) + Emit(a, '&')) == out + ([Operand(v)] + (Bangs(nots) + Emit(a, '&')));
  }

  lemma RunsBang(rest: seq<Token>, o: bool, a: bool, nots: nat, out: seq<Node>)
    requires |Stack(o, a, nots)| <= STACKDEPTH
    ensures MakePol([OPR('!')] + rest, Stack(o, a, nots), out)
            == if |Stack(o, a, nots)| < STACKDEPTH then MakePol(rest, Stack(o, a, nots + 1), out) else TooComplex
  {
    assert ([OPR('!')] + rest)[1..] == rest;
    assert Stack(o, a, nots) + ['!'] == Stack(o, a, nots + 1);
  }

  lemma RunsNot(g: Factor, rest: seq<Token>, o: bool, a: bool, nots: nat, out: seq<Node>)
    requires |Stack(o, a, nots)| <= STACKDEPTH
    requires |Stack(o, a, nots)| < STACKDEPTH ==>
               MakePol(FactorTokens(g) + rest, Stack(o, a, nots + 1), out) == AfterFactor(g, rest, o, a, nots + 1, out)
    ensures MakePol(FactorTokens(Not(g)) + rest, Stack(o, a, nots), out) == AfterFactor(Not(g), rest, o, a, nots, out)
  {
    hide MakePol, Stack;
    assert FactorTokens(Not(g)) + rest == [OPR('!')] + (FactorTokens(g) + rest);
    RunsBang(FactorTokens(g) + rest, o, a, nots, out);
    assert PostFactor(g) + (Bangs(nots + 1) + Emit(a, '&')) == PostFactor(Not(g)) + (Bangs(nots) + Emit(a, '&'));
  }

  lemma RunsParen(q: Query, rest: seq<Token>, o: bool, a: bool, nots: nat, out: seq<Node>)
    requires MakePol(QueryTokens(q) + ([CLOSE] + rest), Stack(false, false, 0), out)
             == if FitsQuery(q) then Done(out + PostQuery(q), rest) else TooComplex
    ensures MakePol(FactorTokens(Paren(q)) + rest, Stack(o, a, nots), out)
            == AfterFactor(Paren(q), rest, o, a, nots, out)
  {
    var toks := FactorTokens(Paren(q)) + rest;
    assert toks[1..] == QueryTokens(q) + ([CLOSE] + rest) && toks[0] == OPEN;
    assert Stack(false, false, 0) == [];
    PopsOperators(o, a, nots, out + PostQuery(q));
    hide PopTight, Stack, Bangs, Emit, QueryTokens;
    assert out + PostQuery(q) + (Bangs(nots) + Emit(a, '&')) == out + (PostQuery(q) + (Bangs(nots) + Emit(a, '&')));
  }

  lemma {:induction false} RunsFactors(fs: seq<Factor>, rest: seq<Token>, o: bool, a: bool, out: seq<Node>)
    requires fs != [] && forall f <- fs :: ProperFactor(f)
    ensures MakePol(FactorsTokens(fs) + rest, Stack(o, a, 0), out)
            == if FitsFactors(fs, o, a) then MakePol(rest, Stack(o, false, 0), out + PostFactors(fs, a)) else TooComplex
    decreases fs, 1
  {
    hide PostFactor, FactorTokens, FitsFactor, ProperFactor, PopTight, PopAll;
    var first := PostFactor(fs[0]) + Emit(a, '&');
    assert PostFactor(fs[0]) + (Bangs(0) + Emit(a, '&')) == first;
    assert |Stack(o, a, 0)| <= STACKDEPTH && |Stack(o, false, 0)| < STACKDEPTH;
    assert Stack(o, false, 0) + ['&'] == Stack(o, true, 0);
    hide Stack;
    if |fs| == 1 {
      RunsFactor(fs[0], rest, o, a, 0, out);
      assert PostFactors(fs, a) == first + PostFactors(fs[1..], true) == first;
    } else {
      var rest' := FactorsTokens(fs[1..]) + rest;
      assert FactorsTokens(fs) + rest == FactorTokens(fs[0]) + ([OPR('&')] + rest');
      RunsFactor(fs[0], [OPR('&')] + rest', o, a, 0, out);
      if FitsFactor(fs[0], o, a, 0) {
        assert ([OPR('&')] + rest')[1..] == rest';
        RunsFactors(fs[1..], rest, o, true, out + first);
        assert out + first + PostFactors(fs[1..], true) == out + PostFactors(fs, a);
      }
    }
  }

  /** What is left when the invocation returns: CLOSE is consumed, END is not. */
  function Behind(rest: seq<Token>): seq<Token>
    requires rest != []
  {
    if rest[0] == CLOSE then rest[1..] else rest
  }

  /** A "|" behind a complete term: emitted in place of the stacked one, if any. */
  lemma RunsBar(rest: seq<Token>, o: bool, out: seq<Node>)
    ensures MakePol([OPR('|')] + rest, Stack(o, false, 0), out)
            == MakePol(rest, Stack(true, false, 0), out + Emit(o, '|'))
  {
    assert ([OPR('|')] + rest)[1..] == rest;
    assert !o ==> Stack(false, false, 0) + ['|'] == Stack(true, false, 0);
    assert !o ==> out + Emit(o, '|') == out;
    assert Stack(o, false, 0) == if o then ['|'] else [];
  }

  lemma RunsEnd(rest: seq<Token>, o: bool, out: seq<Node>)
    requires rest != [] && (rest[0] == CLOSE || rest[0] == END)
    ensures MakePol(rest, Stack(o, false, 0), out) == Done(out + Emit(o, '|'), Behind(rest))
  {
    FlushesOr(o, out);
  }

  lemma {:induction false} RunsTerms(ts: seq<Term>, rest: seq<Token>, o: bool, out: seq<Node>)
    requires ts != [] && forall t <- ts :: ProperTerm(t)
    requires rest != [] && (rest[0] == CLOSE || rest[0] == END)
    ensures MakePol(TermsTokens(ts) + rest, Stack(o, false, 0), out)
            == if FitsTerms(ts, o) then Done(out + PostTerms(ts, o), Behind(rest)) else TooComplex
    decreases ts, 2
  {
    var fs := ts[0].factors;
    assert ProperTerm(ts[0]);
    hide FactorsTokens, PostFactors, FitsFactors, PopTight, PopAll, ProperTerm, Stack, MakePol;
    var first := PostFactors(fs, false);
    if |ts| == 1 {
      RunsFactors(fs, rest, o, false, out);
      RunsEnd(rest, o, out + first);
      assert ts[1..] == [];
      assert PostTerms(ts, o) == first + Emit(o, '|') by {
        assert PostTerms(ts[1..], true) == [];
      }
      Regroup(out, first, Emit(o, '|'));
    } else {
      var rest' := TermsTokens(ts[1..]) + rest;
      SplitTermsTokens(ts, rest);
      RunsFactors(fs, [OPR('|')] + rest', o, false, out);
      RunsBar(rest', o, out + first);
      Regroup(out, first, Emit(o, '|'));
      RunsTerms(ts[1..], rest, true, out + (first + Emit(o, '|')));
      Regroup(out, first + Emit(o, '|'), PostTerms(ts[1..], true));
    }
  }

  lemma SplitTermsTokens(ts: seq<Term>, rest: seq<Token>)
    requires |ts| > 1
    ensures TermsTokens(ts) + rest == FactorsTokens(ts[0].factors) + ([OPR('|')] + (TermsTokens(ts[1..]) + rest))
  {
    assert TermsTokens(ts) == FactorsTokens(ts[0].factors) + [OPR('|')] + TermsTokens(ts[1..]);
    hide *;
    RegroupTokens(FactorsTokens(ts[0].factors), OPR('|'), TermsTokens(ts[1..]), rest);
  }

  lemma RegroupTokens(a: seq<Token>, op: Token, b: seq<Token>, rest: seq<Token>)
    ensures a + [op] + b + rest == a + ([op] + (b + rest))
  {
  }

  lemma Regroup(a: seq<Node>, b: seq<Node>, c: seq<Node>)
    ensures a + b + c == a + (b + c)
  {
  }

  /** Every proper query is parsed to its postfix form, or is too deep in "!" for the stack; never a syntax error. */
  lemma ParsesQuery(q: Query)
    requires ProperQuery(q)
    ensures MakePol(QueryTokens(q) + [END], [], [])
            == if FitsQuery(q) then Done(PostQuery(q), [END]) else TooComplex
  {
    RunsTerms(q.terms, [END], false, []);
    assert Stack(false, false, 0) == [];
    assert [] + PostTerms(q.terms, false) == PostQuery(q);
  }
}
