/** The converse: every text the parser accepts is a query of the grammar, so acceptance is decided exactly. */
module IntQueryAccept {
  import opened IntQueryText
  import opened IntQueryParse

  /** The shape the lexer's two states and parenthesis count force on a token sequence. */
  predicate Alternates(toks: seq<Token>, state: State, depth: nat)
    decreases |toks|
  {
    && toks != []
    && match toks[0]
       case ERR => |toks| == 1
       case VAL(_) => state == WaitOperand && Alternates(toks[1..], WaitOperator, depth)
       case OPEN => state == WaitOperand && Alternates(toks[1..], WaitOperand, depth + 1)
       case OPR(c) => (if state == WaitOperand then c == '!' else c == '&' || c == '|')
                      && Alternates(toks[1..], WaitOperand, depth)
       case CLOSE => state == WaitOperator && depth > 0 && Alternates(toks[1..], WaitOperator, depth - 1)
       case END => state == WaitOperator && depth == 0 && |toks| == 1
  }

  /** One token at a time. */
  lemma {:induction false} NextFits(s: string, state: State, count: nat)
    ensures var n := NextToken(s, state, count);
            match n.token
            case ERR => true
            case VAL(_) => state == WaitOperand && n.state == WaitOperator && n.count == count
            case OPEN => state == WaitOperand && n.state == WaitOperand && n.count == count + 1
            case OPR(c) =>
              && (if state == WaitOperand then c == '!' else c == '&' || c == '|')
              && n.state == WaitOperand && n.count == count
            case CLOSE => state == WaitOperator && count > 0 && n.state == WaitOperator && n.count == count - 1
            case END => state == WaitOperator && count == 0
  {
    if s != "" && s[0] == ' ' {
      NextFits(s[1..], state, count);
    }
  }

  lemma {:induction false} LexAlternates(s: string, state: State, count: nat)
    ensures Alternates(Lex(s, state, count), state, count)
    decreases |s|
  {
    hide NextToken;
    NextFits(s, state, count);
    var n := NextToken(s, state, count);
    if n.token != END && n.token != ERR {
      LexAlternates(n.rest, n.state, n.count);
      var toks := Lex(s, state, count);
      assert toks[0] == n.token && toks[1..] == Lex(n.rest, n.state, n.count);
      hide Lex;
    }
  }

  /** Recover the factor an accepted run reads next. */
  lemma {:induction false} FindFactor(toks: seq<Token>, depth: nat, o: bool, a: bool, nots: nat, out: seq<Node>)
    returns (f: Factor, rest: seq<Token>)
    requires Alternates(toks, WaitOperand, depth) && |Stack(o, a, nots)| <= STACKDEPTH
    requires MakePol(toks, Stack(o, a, nots), out).Done?
    ensures ProperFactor(f) && toks == FactorTokens(f) + rest
    ensures |rest| < |toks| && Alternates(rest, WaitOperator, depth)
    decreases |toks|, 0
  {
    hide FactorsTokens, PopTight, PopAll, FitsFactor, PostFactor, TermsTokens, FitsQuery;
    match toks[0]
    case VAL(v) =>
      f, rest := Value(v), toks[1..];
    case OPR(c) =>
      hide MakePol;
      assert toks == [OPR('!')] + toks[1..];
      RunsBang(toks[1..], o, a, nots, out);
      var g;
      g, rest := FindFactor(toks[1..], depth, o, a, nots + 1, out);
      f := Not(g);
    case OPEN =>
      assert Stack(false, false, 0) == [];
      var ts, behind := FindTerms(toks[1..], depth + 1, false, out);
      f, rest := Paren(Query(ts)), behind[1..];
      hide MakePol;
      ClosesHere(toks, depth, ts, behind);
  }

  lemma ClosesHere(toks: seq<Token>, depth: nat, ts: seq<Term>, behind: seq<Token>)
    requires toks != [] && toks[0] == OPEN && toks[1..] == TermsTokens(ts) + behind
    requires behind != [] && Alternates(behind, WaitOperator, depth + 1) && (behind[0] == CLOSE || behind[0] == END)
    ensures toks == FactorTokens(Paren(Query(ts))) + behind[1..] && Alternates(behind[1..], WaitOperator, depth)
  {
    hide TermsTokens, FactorTokens;
    assert behind == [CLOSE] + behind[1..];
    SplitParenTokens(Query(ts), behind[1..]);
    assert toks == [OPEN] + toks[1..];
  }

  lemma SplitParenTokens(q: Query, rest: seq<Token>)
    ensures FactorTokens(Paren(q)) + rest == [OPEN] + (TermsTokens(q.terms) + ([CLOSE] + rest))
  {
  }

  lemma {:induction false} FindFactors(toks: seq<Token>, depth: nat, o: bool, a: bool, out: seq<Node>)
    returns (fs: seq<Factor>, rest: seq<Token>)
    requires Alternates(toks, WaitOperand, depth)
    requires MakePol(toks, Stack(o, a, 0), out).Done?
    ensures fs != [] && (forall f <- fs :: ProperFactor(f)) && toks == FactorsTokens(fs) + rest
    ensures |rest| < |toks| && Alternates(rest, WaitOperator, depth) && rest[0] != OPR('&') && rest[0] != ERR
    ensures MakePol(rest, Stack(o, false, 0), out + PostFactors(fs, a)).Done?
    decreases |toks|, 1
  {
    hide MakePol, FactorTokens, PostFactor, FitsFactor, ProperFactor;
    var f, behind := FindFactor(toks, depth, o, a, 0, out);
    RunsFactor(f, behind, o, a, 0, out);
    var out' := out + (PostFactor(f) + (Bangs(0) + Emit(a, '&')));
    if behind[0] == OPR('&') {
      RunsAnd(behind[1..], o, out');
      assert behind == [OPR('&')] + behind[1..];
      var gs;
      gs, rest := FindFactors(behind[1..], depth, o, true, out');
      fs := [f] + gs;
      assert fs[1..] == gs;
      SplitFactorsTokens(fs, rest);
    } else {
      fs, rest := [f], behind;
    }
    RunsFactors(fs, rest, o, a, out);
    DoneIsNoError(rest, Stack(o, false, 0), out + PostFactors(fs, a));
  }

  lemma DoneIsNoError(toks: seq<Token>, stack: seq<char>, out: seq<Node>)
    requires MakePol(toks, stack, out).Done?
    ensures toks != [] && toks[0] != ERR
  {
  }

  lemma SplitFactorsTokens(fs: seq<Factor>, rest: seq<Token>)
    requires |fs| > 1
    ensures FactorsTokens(fs) + rest == FactorTokens(fs[0]) + ([OPR('&')] + (FactorsTokens(fs[1..]) + rest))
  {
    assert FactorsTokens(fs) == FactorTokens(fs[0]) + [OPR('&')] + FactorsTokens(fs[1..]);
    hide *;
    RegroupTokens(FactorTokens(fs[0]), OPR('&'), FactorsTokens(fs[1..]), rest);
  }

  lemma RunsAnd(rest: seq<Token>, o: bool, out: seq<Node>)
    ensures MakePol([OPR('&')] + rest, Stack(o, false, 0), out) == MakePol(rest, Stack(o, true, 0), out)
  {
    assert ([OPR('&')] + rest)[1..] == rest;
    assert Stack(o, false, 0) + ['&'] == Stack(o, true, 0);
  }

  lemma {:induction false} FindTerms(toks: seq<Token>, depth: nat, o: bool, out: seq<Node>)
    returns (ts: seq<Term>, rest: seq<Token>)
    requires Alternates(toks, WaitOperand, depth)
    requires MakePol(toks, Stack(o, false, 0), out).Done?
    ensures ts != [] && (forall t <- ts :: ProperTerm(t)) && toks == TermsTokens(ts) + rest
    ensures |rest| < |toks| && Alternates(rest, WaitOperator, depth) && (rest[0] == CLOSE || rest[0] == END)
    decreases |toks|, 2
  {
    var fs, behind := FindFactors(toks, depth, o, false, out);
    var t := Term(fs);
    if behind[0] == OPR('|') {
      assert behind == [OPR('|')] + behind[1..];
      RunsBar(behind[1..], o, out + PostFactors(fs, false));
      var us;
      us, rest := FindTerms(behind[1..], depth, true, out + PostFactors(fs, false) + Emit(o, '|'));
      ts := [t] + us;
      assert ts[1..] == us;
      SplitTermsTokens(ts, rest);
    } else {
      ts, rest := [t], behind;
    }
  }

  /** The texts the parser accepts, by the grammar alone. */
  ghost predicate IsQuery(toks: seq<Token>, q: Query) {
    ProperQuery(q) && toks == QueryTokens(q) + [END]
  }

  /** Accepted exactly when the text is a query whose runs of "!" fit the stack; the result is its postfix form. A query
      that does not fit is reported as too complex, never as a syntax error. */
  lemma AcceptsExactly(s: string)
    ensures MakePol(Tokens(s), [], []).Done? <==> exists q :: IsQuery(Tokens(s), q) && FitsQuery(q)
    ensures forall q :: IsQuery(Tokens(s), q) ==>
              MakePol(Tokens(s), [], []) == if FitsQuery(q) then Done(PostQuery(q), [END]) else TooComplex
  {
    var toks := Tokens(s);
    forall q | IsQuery(toks, q)
      ensures MakePol(toks, [], []) == if FitsQuery(q) then Done(PostQuery(q), [END]) else TooComplex
    {
      ParsesQuery(q);
    }
    if MakePol(toks, [], []).Done? {
      LexAlternates(s, WaitOperand, 0);
      assert Stack(false, false, 0) == [];
      var ts, rest := FindTerms(toks, 0, false, []);
      assert rest == [END];
      assert IsQuery(toks, Query(ts));
    }
  }
}
