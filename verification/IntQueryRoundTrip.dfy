/** Reading back what was printed: accepted, the same meaning, the same size, and the same text again. */
module IntQueryRoundTrip {
  import opened IntQueryText
  import opened IntQueryParse
  import opened IntQueryAccept
  import opened IntQueryItems
  import opened IntQueryEval
  import opened IntQueryInput
  import opened IntQueryPrint

  // ---- Numbers ----

  lemma {:induction false} MagnitudeJoins(a: string, b: string, acc: nat)
    requires forall c <- a :: IsDigit(c)
    ensures Magnitude(a + b, 10, acc) == Magnitude(b, 10, Magnitude(a, 10, acc))
  {
    if a == [] {
      assert a + b == b;
    } else {
      assert (a + b)[1..] == a[1..] + b && (a + b)[0] == a[0];
      MagnitudeJoins(a[1..], b, acc * 10 + DigitValue(a[0]));
    }
  }

  lemma {:induction false} DigitsReadBack(n: nat)
    ensures Magnitude(Digits(n), 10, 0) == n
    ensures n > 0 ==> Digits(n)[0] != '0'
  {
    if n >= 10 {
      DigitsReadBack(n / 10);
      MagnitudeJoins(Digits(n / 10), [DigitChar(n % 10)], 0);
    }
  }

  /** "%d" reads back through strtol, whose base depends on how the text begins. */
  lemma DecimalReadsBack(v: int32)
    ensures Strtol(Decimal(v)) == v
  {
    var n: nat := if v < 0 then -(v as int) else v as int;
    DigitsReadBack(n);
    assert v < 0 ==> Decimal(v)[1..] == Digits(n);
    assert Magnitude("0", 8, 0) == 0;
  }

  /** What may follow a number or a query for it to be read to its end. */
  predicate Ends(tail: string, count: int) {
    if tail == "" then count == 0 else tail[0] == ' '
  }

  lemma LexNumber(v: int32, tail: string, count: int)
    requires Ends(tail, count)
    ensures Lex(Decimal(v) + tail, WaitOperand, count) == [VAL(v)] + Lex(tail, WaitOperator, count)
  {
    var d := Decimal(v);
    DecimalLength(v);
    DecimalReadsBack(v);
    assert IsDigit(d[0]) || d[0] == '-';
    assert forall i :: 1 <= i < |d| ==> IsDigit(d[i]);
    hide Decimal, Strtol, Number, IsDigit;
    NumberOf(d, tail, count);
  }

  lemma DigitsBefore(ds: string, tail: string, count: int)
    requires Ends(tail, count) && forall i :: 0 <= i < |ds| ==> IsDigit(ds[i])
    ensures DigitRun(ds + tail) == |ds|
  {
    var s := ds + tail;
    assert forall i :: 0 <= i < |ds| ==> s[i] == ds[i];
    DigitsAhead(s, |ds|);
    assert s[|ds|..] == tail;
  }

  lemma Cut(d: string, tail: string)
    requires d != []
    ensures var s := d + tail; s[1..] == d[1..] + tail && s[..|d|] == d && s[|d|..] == tail && s[0] == d[0]
  {
  }

  /** A number that is all of a text up to a space or the end. */
  lemma NumberOf(d: string, tail: string, count: int)
    requires d != [] && (IsDigit(d[0]) || d[0] == '-') && |d| < NNN_SIZE && forall i :: 1 <= i < |d| ==> IsDigit(d[i])
    requires Ends(tail, count) && -0x8000_0000 <= Strtol(d) < 0x8000_0000
    ensures NextToken(d + tail, WaitOperand, count) == Next(VAL(Strtol(d)), tail, WaitOperator, count)
  {
    Cut(d, tail);
    DigitsBefore(d[1..], tail, count);
    hide Strtol, DigitRun;
  }

  // ---- The derivation of a printed tree ----

  /** Factors of the text printed inside an operator: "&" flattened to both sides, anything else one factor. */
  function Factors(t: Tree): (fs: seq<Factor>)
    ensures fs != [] && forall f <- fs :: ProperFactor(f)
    decreases t, 1
  {
    if t.Bin? && t.amp then Factors(t.l) + Factors(t.r) else [OneFactor(t)]
  }

  function OneFactor(t: Tree): (f: Factor)
    requires !(t.Bin? && t.amp)
    ensures ProperFactor(f)
    decreases t, 0
  {
    match t
    case Leaf(v) => Value(v)
    case Neg(x) => if x.Leaf? then Not(Value(x.val)) else Not(Paren(Derivation(x)))
    case Bin(_, l, r) => Paren(OrQuery(Factors(l), Factors(r)))
  }

  /** The derivation of the whole text. */
  function Derivation(t: Tree): (q: Query)
    ensures ProperQuery(q)
    decreases t, 2
  {
    if t.Bin? && !t.amp then OrQuery(Factors(t.l), Factors(t.r)) else AndQuery(Factors(t))
  }

  function OrQuery(a: seq<Factor>, b: seq<Factor>): (q: Query)
    requires a != [] && b != [] && (forall f <- a :: ProperFactor(f)) && (forall f <- b :: ProperFactor(f))
    ensures ProperQuery(q)
  {
    assert ProperTerm(Term(a)) && ProperTerm(Term(b));
    Query([Term(a), Term(b)])
  }

  function AndQuery(a: seq<Factor>): (q: Query)
    requires a != [] && forall f <- a :: ProperFactor(f)
    ensures ProperQuery(q)
  {
    assert ProperTerm(Term(a));
    Query([Term(a)])
  }

  lemma OrQueryIs(a: seq<Factor>, b: seq<Factor>)
    requires a != [] && b != [] && (forall f <- a :: ProperFactor(f)) && (forall f <- b :: ProperFactor(f))
    ensures QueryTokens(OrQuery(a, b)) == FactorsTokens(a) + [OPR('|')] + FactorsTokens(b)
    ensures FitsQuery(OrQuery(a, b)) == (FitsFactors(a, false, false) && FitsFactors(b, true, false))
  {
    hide FactorsTokens, FitsFactors, ProperFactor;
    var ts := [Term(a), Term(b)];
    assert ts[1..] == [Term(b)] && ts[1..][1..] == [];
    assert OrQuery(a, b).terms == ts;
    assert TermsTokens(ts[1..]) == FactorsTokens(b);
    assert TermsTokens(ts) == TermTokens(ts[0]) + [OPR('|')] + TermsTokens(ts[1..]);
    assert FitsTerms(ts[1..][1..], true) && FitsTerms(ts[1..], true) == FitsFactors(b, true, false);
  }

  lemma AndQueryIs(a: seq<Factor>)
    requires a != [] && forall f <- a :: ProperFactor(f)
    ensures QueryTokens(AndQuery(a)) == FactorsTokens(a)
    ensures FitsQuery(AndQuery(a)) == FitsFactors(a, false, false)
  {
    hide FactorsTokens, FitsFactors, ProperFactor;
    var ts := [Term(a)];
    assert AndQuery(a).terms == ts && ts[1..] == [];
    assert TermsTokens(ts) == TermTokens(ts[0]) && FitsTerms(ts[1..], true);
  }

  // ---- The printed text is that derivation ----

  lemma {:induction false} TokensJoin(a: seq<Factor>, b: seq<Factor>)
    requires a != [] && b != []
    ensures FactorsTokens(a + b) == FactorsTokens(a) + [OPR('&')] + FactorsTokens(b)
  {
    hide FactorTokens;
    assert (a + b)[0] == a[0] && (a + b)[1..] == a[1..] + b;
    if |a| == 1 {
      assert a[1..] + b == b;
    } else {
      TokensJoin(a[1..], b);
    }
  }

  lemma LexSpace(s: string, state: State, count: int)
    ensures Lex([' '] + s, state, count) == Lex(s, state, count)
  {
    assert ([' '] + s)[1..] == s;
  }

  lemma LexOperator(amp: bool, s: string, count: int)
    ensures Lex([' ', OpChar(amp), ' '] + s, WaitOperator, count) == [OPR(OpChar(amp))] + Lex(s, WaitOperand, count)
  {
    var c := OpChar(amp);
    assert [' ', c, ' '] + s == [' '] + ([c] + ([' '] + s));
    LexSpace([c] + ([' '] + s), WaitOperator, count);
    LexSpace(s, WaitOperand, count);
    assert ([c] + ([' '] + s))[1..] == [' '] + s;
  }

  lemma LexOpen(s: string, count: int)
    ensures Lex("( " + s, WaitOperand, count) == [OPEN] + Lex(s, WaitOperand, count + 1)
  {
    LexSpace(s, WaitOperand, count + 1);
    assert ("( " + s)[1..] == [' '] + s;
  }

  lemma LexClose(s: string, count: int)
    requires count > 0
    ensures Lex(" )" + s, WaitOperator, count) == [CLOSE] + Lex(s, WaitOperator, count - 1)
  {
    assert " )" + s == [' '] + (")" + s);
    LexSpace(")" + s, WaitOperator, count);
    assert (")" + s)[1..] == s;
  }

  lemma LexBang(s: string, count: int)
    ensures Lex("!" + s, WaitOperand, count) == [OPR('!')] + Lex(s, WaitOperand, count)
  {
    assert ("!" + s)[1..] == s;
  }

  /** Tokens of the text printed for t, bare or inside an operator. */
  function PrintedTokens(t: Tree, first: bool): seq<Token> {
    if first then QueryTokens(Derivation(t)) else FactorsTokens(Factors(t))
  }

  /** "( " before and " )" behind a text that is read to its end. */
  lemma LexBracketed(p: string, toks: seq<Token>, tail: string, count: nat)
    requires Lex(p + (" )" + tail), WaitOperand, count + 1) == toks + Lex(" )" + tail, WaitOperator, count + 1)
    ensures Lex("( " + p + " )" + tail, WaitOperand, count) == [OPEN] + toks + [CLOSE] + Lex(tail, WaitOperator, count)
  {
    hide Lex;
    LexOpen(p + (" )" + tail), count);
    LexClose(tail, count + 1);
    assert "( " + p + " )" + tail == "( " + (p + (" )" + tail));
  }

  /** Two operands and the operator between them. */
  lemma LexInfix(amp: bool, p: string, q: string, ps: seq<Token>, qs: seq<Token>, inner: string, count: nat)
    requires Lex(q + inner, WaitOperand, count) == qs + Lex(inner, WaitOperator, count)
    requires Lex(p + ([' ', OpChar(amp), ' '] + (q + inner)), WaitOperand, count)
             == ps + Lex([' ', OpChar(amp), ' '] + (q + inner), WaitOperator, count)
    ensures Lex(p + ([' ', OpChar(amp), ' '] + q) + inner, WaitOperand, count)
            == ps + [OPR(OpChar(amp))] + qs + Lex(inner, WaitOperator, count)
  {
    hide Lex;
    LexOperator(amp, q + inner, count);
    assert p + ([' ', OpChar(amp), ' '] + q) + inner == p + ([' ', OpChar(amp), ' '] + (q + inner));
  }

  lemma PrintedInside(t: Tree)
    ensures PrintedTokens(t, false) == FactorsTokens(Factors(t))
  {
  }

  lemma PrintedBare(t: Tree)
    ensures PrintedTokens(t, true) == QueryTokens(Derivation(t))
  {
  }

  /** The tokens of a printed operand, one level down. */
  lemma OneTokens(t: Tree, first: bool)
    requires t.Leaf? || t.Neg?
    ensures PrintedTokens(t, first) == match t
            case Leaf(v) => [VAL(v)]
            case Neg(x) => if x.Leaf? then [OPR('!'), VAL(x.val)]
              else [OPR('!')] + ([OPEN] + QueryTokens(Derivation(x)) + [CLOSE])
            case Bin(_, _, _) => []
  {
    AndQueryIs(Factors(t));
    assert FactorsTokens([OneFactor(t)]) == FactorTokens(OneFactor(t));
    if t.Neg? && t.t.Leaf? {
      assert FactorTokens(Value(t.t.val)) == [VAL(t.t.val)];
    }
  }

  lemma LexBangBracketed(p: string, toks: seq<Token>, tail: string, count: nat)
    requires Lex(p + (" )" + tail), WaitOperand, count + 1) == toks + Lex(" )" + tail, WaitOperator, count + 1)
    ensures Lex("!" + ("( " + p + " )") + tail, WaitOperand, count)
            == [OPR('!')] + ([OPEN] + toks + [CLOSE]) + Lex(tail, WaitOperator, count)
  {
    hide Lex;
    LexBracketed(p, toks, tail, count);
    LexBang("( " + p + " )" + tail, count);
    assert "!" + ("( " + p + " )") + tail == "!" + ("( " + p + " )" + tail);
  }

  lemma {:induction false} LexPrinted(t: Tree, first: bool, tail: string, count: nat)
    requires Ends(tail, count)
    ensures Lex(Print(t, first) + tail, WaitOperand, count) == PrintedTokens(t, first) + Lex(tail, WaitOperator, count)
    decreases t, 1
  {
    hide Lex, PrintedTokens, Factors, Derivation, FactorsTokens, QueryTokens;
    if !t.Bin? {
      OneTokens(t, first);
    }
    match t
    case Leaf(v) =>
      LexNumber(v, tail, count);
    case Neg(x) =>
      if x.Leaf? {
        LexNumber(x.val, tail, count);
        LexBang(Decimal(x.val) + tail, count);
        assert Print(t, first) + tail == "!" + (Decimal(x.val) + tail);
      } else {
        PrintedBare(x);
        LexPrinted(x, true, " )" + tail, count + 1);
        LexBangBracketed(Print(x, true), QueryTokens(Derivation(x)), tail, count);
      }
    case Bin(amp, l, r) =>
      LexPrintedBin(amp, l, r, first, tail, count);
  }

  lemma {:induction false} LexPrintedBin(amp: bool, l: Tree, r: Tree, first: bool, tail: string, count: nat)
    requires Ends(tail, count)
    ensures Lex(Print(Bin(amp, l, r), first) + tail, WaitOperand, count)
            == PrintedTokens(Bin(amp, l, r), first) + Lex(tail, WaitOperator, count)
    decreases Bin(amp, l, r), 0
  {
    PrintedInside(l);
    PrintedInside(r);
    hide Lex, PrintedTokens, Factors, FactorsTokens, Print;
    var inner := if !amp && !first then " )" + tail else tail;
    var depth := if !amp && !first then count + 1 else count;
    var p, q := Print(l, false), Print(r, false);
    LexPrinted(r, false, inner, depth);
    LexPrinted(l, false, [' ', OpChar(amp), ' '] + (q + inner), depth);
    LexInfix(amp, p, q, FactorsTokens(Factors(l)), FactorsTokens(Factors(r)), inner, depth);
    LexBinary(amp, l, r, first, tail, count);
  }

  /** The derivation of a printed operator, in tokens. */
  function BinTokens(amp: bool, l: Tree, r: Tree): seq<Token> {
    FactorsTokens(Factors(l)) + [OPR(OpChar(amp))] + FactorsTokens(Factors(r))
  }

  lemma BinTokensAre(amp: bool, l: Tree, r: Tree, first: bool)
    ensures PrintedTokens(Bin(amp, l, r), first)
            == if amp || first then BinTokens(amp, l, r) else [OPEN] + BinTokens(amp, l, r) + [CLOSE]
  {
    if amp {
      TokensJoin(Factors(l), Factors(r));
      assert Factors(Bin(amp, l, r)) == Factors(l) + Factors(r);
      AndQueryIs(Factors(l) + Factors(r));
    } else {
      OrQueryIs(Factors(l), Factors(r));
      assert FactorsTokens([OneFactor(Bin(amp, l, r))]) == FactorTokens(OneFactor(Bin(amp, l, r)));
    }
  }

  lemma LexBinary(amp: bool, l: Tree, r: Tree, first: bool, tail: string, count: nat)
    requires var needed := !amp && !first;
             var inner := if needed then " )" + tail else tail;
             var depth := if needed then count + 1 else count;
             Lex(Print(l, false) + ([' ', OpChar(amp), ' '] + Print(r, false)) + inner, WaitOperand, depth)
             == BinTokens(amp, l, r) + Lex(inner, WaitOperator, depth)
    ensures Lex(Print(Bin(amp, l, r), first) + tail, WaitOperand, count)
            == PrintedTokens(Bin(amp, l, r), first) + Lex(tail, WaitOperator, count)
  {
    var body := Print(l, false) + ([' ', OpChar(amp), ' '] + Print(r, false));
    BinTokensAre(amp, l, r, first);
    assert Print(Bin(amp, l, r), first) == if !amp && !first then "( " + body + " )" else body;
    hide *;
    if !amp && !first {
      LexBracketed(body, BinTokens(amp, l, r), tail, count);
    }
  }

  // ---- Nothing overflows the operator stack ----

  lemma {:induction false} FactorsFit(t: Tree, o: bool, a: bool)
    ensures FitsFactors(Factors(t), o, a) && (a ==> FitsFactors(Factors(t), o, true))
    decreases t, 1
  {
    if t.Bin? && t.amp {
      FactorsFit(t.l, o, a);
      FactorsFit(t.r, o, true);
      FitsJoin(Factors(t.l), Factors(t.r), o, a);
    } else {
      FactorFits(t, o, a);
      assert [OneFactor(t)][1..] == [];
    }
  }

  lemma {:induction false} FitsJoin(x: seq<Factor>, y: seq<Factor>, o: bool, a: bool)
    requires x != [] && FitsFactors(x, o, a) && FitsFactors(y, o, true)
    ensures FitsFactors(x + y, o, a)
  {
    assert (x + y)[0] == x[0] && (x + y)[1..] == x[1..] + y;
    if |x| == 1 {
      assert x[1..] + y == y;
    } else {
      FitsJoin(x[1..], y, o, true);
    }
  }

  lemma {:induction false} FactorFits(t: Tree, o: bool, a: bool)
    requires !(t.Bin? && t.amp)
    ensures FitsFactor(OneFactor(t), o, a, 0)
    decreases t, 0
  {
    match t
    case Leaf(_) =>
    case Neg(x) => if !x.Leaf? { DerivationFits(x); }
    case Bin(_, l, r) =>
      FactorsFit(l, false, false);
      FactorsFit(r, true, false);
      OrQueryIs(Factors(l), Factors(r));
  }

  lemma {:induction false} DerivationFits(t: Tree)
    ensures FitsQuery(Derivation(t))
    decreases t, 2
  {
    if t.Bin? && !t.amp {
      FactorsFit(t.l, false, false);
      FactorsFit(t.r, true, false);
      OrQueryIs(Factors(t.l), Factors(t.r));
    } else {
      FactorsFit(t, false, false);
      AndQueryIs(Factors(t));
    }
  }

  // ---- The meaning stays ----

  predicate AllHold(fs: seq<Factor>, present: int32 -> bool) {
    forall i :: 0 <= i < |fs| ==> FactorHolds(fs[i], present)
  }

  lemma AllHoldJoin(a: seq<Factor>, b: seq<Factor>, present: int32 -> bool)
    ensures AllHold(a + b, present) == (AllHold(a, present) && AllHold(b, present))
  {
    hide FactorHolds;
    if AllHold(a + b, present) {
      assert forall i :: 0 <= i < |a| ==> a[i] == (a + b)[i];
      assert forall i :: 0 <= i < |b| ==> b[i] == (a + b)[|a| + i];
    }
  }

  lemma {:induction false} FactorsMean(t: Tree, present: int32 -> bool)
    ensures AllHold(Factors(t), present) == TreeHolds(t, present)
    decreases t, 1
  {
    if t.Bin? && t.amp {
      FactorsMean(t.l, present);
      FactorsMean(t.r, present);
      AllHoldJoin(Factors(t.l), Factors(t.r), present);
    } else {
      FactorMeans(t, present);
      assert Factors(t)[0] == OneFactor(t);
    }
  }

  lemma TwoTerms(q: Query, present: int32 -> bool)
    requires |q.terms| == 2
    ensures QueryHolds(q, present) == (AllHold(q.terms[0].factors, present) || AllHold(q.terms[1].factors, present))
  {
    hide FactorHolds;
    assert TermHolds(q.terms[0], present) == AllHold(q.terms[0].factors, present);
    assert TermHolds(q.terms[1], present) == AllHold(q.terms[1].factors, present);
  }

  lemma {:induction false} FactorMeans(t: Tree, present: int32 -> bool)
    requires !(t.Bin? && t.amp)
    ensures FactorHolds(OneFactor(t), present) == TreeHolds(t, present)
    decreases t, 0
  {
    match t
    case Leaf(_) =>
    case Neg(x) => if !x.Leaf? { DerivationMeans(x, present); }
    case Bin(_, l, r) =>
      FactorsMean(l, present);
      FactorsMean(r, present);
      TwoTerms(OrQuery(Factors(l), Factors(r)), present);
  }

  lemma {:induction false} DerivationMeans(t: Tree, present: int32 -> bool)
    ensures QueryHolds(Derivation(t), present) == TreeHolds(t, present)
    decreases t, 2
  {
    if t.Bin? && !t.amp {
      FactorsMean(t.l, present);
      FactorsMean(t.r, present);
      TwoTerms(Derivation(t), present);
    } else {
      FactorsMean(t, present);
      var q := Derivation(t);
      assert q.terms[0] == Term(Factors(t));
      assert TermHolds(q.terms[0], present) == AllHold(Factors(t), present);
    }
  }

  // ---- Printing again ----

  /** Factors printed with " & " between them. */
  function PrintAll(fs: seq<Factor>): string
    requires fs != [] && forall f <- fs :: ProperFactor(f)
  {
    var s := Print(FactorTree(fs[0]), false);
    if |fs| == 1 then s else s + (" & " + PrintAll(fs[1..]))
  }

  lemma Ampersands(a: string, b: string, c: string)
    ensures a + (" & " + b) + (" & " + c) == a + (" & " + (b + (" & " + c)))
  {
  }

  lemma {:induction false} PrintAllJoins(a: seq<Factor>, b: seq<Factor>)
    requires a != [] && b != [] && (forall f <- a :: ProperFactor(f)) && (forall f <- b :: ProperFactor(f))
    ensures PrintAll(a + b) == PrintAll(a) + (" & " + PrintAll(b))
  {
    hide Print, FactorTree, ProperFactor;
    assert (a + b)[0] == a[0] && (a + b)[1..] == a[1..] + b;
    var s := Print(FactorTree(a[0]), false);
    if |a| == 1 {
      assert a[1..] + b == b;
    } else {
      PrintAllJoins(a[1..], b);
      Ampersands(s, PrintAll(a[1..]), PrintAll(b));
    }
  }

  /** A left-associated "&" chain prints its parts in order. */
  lemma {:induction false} PrintAndTree(acc: Tree, fs: seq<Factor>, first: bool)
    requires fs != [] && forall f <- fs :: ProperFactor(f)
    ensures Print(AndTree(acc, fs), first) == Print(acc, false) + (" & " + PrintAll(fs)) && AndTree(acc, fs).Bin?
    decreases fs
  {
    hide FactorTree, ProperFactor;
    var s := Print(FactorTree(fs[0]), false);
    var acc' := Bin(true, acc, FactorTree(fs[0]));
    assert Print(acc', first) == Print(acc', false) == Print(acc, false) + (" & " + s);
    if |fs| == 1 {
      assert fs[1..] == [];
    } else {
      PrintAndTree(acc', fs[1..], first);
      Ampersands(Print(acc, false), s, PrintAll(fs[1..]));
    }
  }

  lemma PrintTerm(fs: seq<Factor>, first: bool)
    requires fs != [] && (forall f <- fs :: ProperFactor(f)) && (|fs| > 1 || !first)
    ensures ProperTerm(Term(fs)) && Print(TermTree(Term(fs)), first) == PrintAll(fs)
    ensures |fs| > 1 ==> TermTree(Term(fs)).Bin?
  {
    assert TermTree(Term(fs)) == AndTree(FactorTree(fs[0]), fs[1..]);
    if |fs| > 1 {
      PrintAndTree(FactorTree(fs[0]), fs[1..], first);
    }
  }

  lemma TermTreeOfOne(f: Factor)
    requires ProperFactor(f)
    ensures ProperTerm(Term([f])) && TermTree(Term([f])) == FactorTree(f)
  {
    assert [f][1..] == [];
  }

  lemma QueryTreeOf(a: seq<Factor>, b: seq<Factor>)
    requires a != [] && b != [] && (forall f <- a :: ProperFactor(f)) && (forall f <- b :: ProperFactor(f))
    ensures ProperTerm(Term(a)) && ProperTerm(Term(b))
    ensures QueryTree(OrQuery(a, b)) == Bin(false, TermTree(Term(a)), TermTree(Term(b)))
    ensures QueryTree(AndQuery(a)) == TermTree(Term(a))
  {
    hide TermTree, ProperFactor;
    assert [Term(a)][1..] == [];
    assert [Term(a), Term(b)][1..] == [Term(b)] && [Term(b)][1..] == [];
    var x, y := TermTree(Term(a)), TermTree(Term(b));
    assert QueryTree(OrQuery(a, b)) == OrTree(x, [Term(b)]);
    assert OrTree(x, [Term(b)]) == OrTree(Bin(false, x, y), []);
  }

  /** The tree that is read back prints the same text. */
  lemma {:induction false} PrintsAgain(t: Tree)
    ensures Print(QueryTree(Derivation(t)), true) == Print(t, true)
    ensures QueryTree(Derivation(t)).Leaf? == t.Leaf?
    decreases t, 2
  {
    PrintsFactors(t);
    if t.Bin? && !t.amp {
      var a, b := Factors(t.l), Factors(t.r);
      PrintsFactors(t.l);
      PrintsFactors(t.r);
      QueryTreeOf(a, b);
      PrintTerm(a, false);
      PrintTerm(b, false);
    } else {
      QueryTreeOf(Factors(t), Factors(t));
      if t.Bin? {
        assert |Factors(t)| > 1;
        PrintTerm(Factors(t), true);
        assert Print(t, true) == Print(t, false);
      } else {
        TermTreeOfOne(OneFactor(t));
        assert Factors(t)[0] == OneFactor(t);
      }
    }
  }

  lemma {:induction false} PrintsFactors(t: Tree)
    ensures PrintAll(Factors(t)) == Print(t, false)
    decreases t, 1
  {
    if t.Bin? && t.amp {
      PrintsFactors(t.l);
      PrintsFactors(t.r);
      PrintAllJoins(Factors(t.l), Factors(t.r));
    } else {
      PrintsFactor(t);
    }
  }

  lemma {:induction false} PrintsFactor(t: Tree)
    requires !(t.Bin? && t.amp)
    ensures Print(FactorTree(OneFactor(t)), false) == Print(t, false)
    decreases t, 0
  {
    match t
    case Leaf(_) =>
    case Neg(x) => if !x.Leaf? { PrintsAgain(x); }
    case Bin(_, l, r) =>
      var a, b := Factors(l), Factors(r);
      PrintsFactors(l);
      PrintsFactors(r);
      QueryTreeOf(a, b);
      PrintTerm(a, false);
      PrintTerm(b, false);
  }

  // ---- The size stays, and the links still fit ----

  /** Items of factors joined by "&". */
  function SizeAll(fs: seq<Factor>): nat
    requires fs != [] && forall f <- fs :: ProperFactor(f)
  {
    Size(FactorTree(fs[0])) + if |fs| == 1 then 0 else SizeAll(fs[1..]) + 1
  }

  lemma {:induction false} SizeAllJoins(a: seq<Factor>, b: seq<Factor>)
    requires a != [] && b != [] && (forall f <- a :: ProperFactor(f)) && (forall f <- b :: ProperFactor(f))
    ensures SizeAll(a + b) == SizeAll(a) + SizeAll(b) + 1
  {
    hide FactorTree, ProperFactor;
    assert (a + b)[0] == a[0] && (a + b)[1..] == a[1..] + b;
    if |a| == 1 {
      assert a[1..] + b == b;
    } else {
      SizeAllJoins(a[1..], b);
    }
  }

  /** Every factor is linked well, and short enough to be a right operand; the first need not be short. */
  predicate Short(fs: seq<Factor>, first: bool)
    requires forall f <- fs :: ProperFactor(f)
  {
    forall i :: 0 <= i < |fs| ==> RightsFit(FactorTree(fs[i])) && (i > 0 || first ==> Size(FactorTree(fs[i])) <= 32767)
  }

  lemma {:induction false} AndTreeSize(acc: Tree, fs: seq<Factor>)
    requires fs != [] && forall f <- fs :: ProperFactor(f)
    ensures Size(AndTree(acc, fs)) == Size(acc) + SizeAll(fs) + 1
    ensures RightsFit(acc) && Short(fs, true) ==> RightsFit(AndTree(acc, fs))
    decreases fs
  {
    hide FactorTree, ProperFactor;
    var acc' := Bin(true, acc, FactorTree(fs[0]));
    if |fs| == 1 {
      assert fs[1..] == [];
    } else {
      AndTreeSize(acc', fs[1..]);
    }
  }

  lemma TermSize(fs: seq<Factor>)
    requires fs != [] && forall f <- fs :: ProperFactor(f)
    ensures ProperTerm(Term(fs)) && Size(TermTree(Term(fs))) == SizeAll(fs)
    ensures Short(fs, false) ==> RightsFit(TermTree(Term(fs)))
  {
    assert TermTree(Term(fs)) == AndTree(FactorTree(fs[0]), fs[1..]);
    hide FactorTree;
    if |fs| > 1 {
      AndTreeSize(FactorTree(fs[0]), fs[1..]);
    }
  }

  lemma {:induction false} DerivationSize(t: Tree)
    ensures Size(QueryTree(Derivation(t))) == Size(t)
    ensures RightsFit(t) ==> RightsFit(QueryTree(Derivation(t)))
    decreases t, 2
  {
    if t.Bin? && !t.amp {
      FactorsSize(t.l);
      FactorsSize(t.r);
      QueryTreeOf(Factors(t.l), Factors(t.r));
      TermSize(Factors(t.l));
      TermSize(Factors(t.r));
    } else {
      FactorsSize(t);
      QueryTreeOf(Factors(t), Factors(t));
      TermSize(Factors(t));
    }
  }

  lemma {:induction false} FactorsSize(t: Tree)
    ensures SizeAll(Factors(t)) == Size(t)
    ensures RightsFit(t) ==> Short(Factors(t), Size(t) <= 32767)
    decreases t, 1
  {
    if t.Bin? && t.amp {
      var a, b := Factors(t.l), Factors(t.r);
      FactorsSize(t.l);
      FactorsSize(t.r);
      SizeAllJoins(a, b);
      ShortJoins(a, b, Size(t) <= 32767);
    } else {
      FactorSize(t);
      assert Factors(t) == [OneFactor(t)];
    }
  }

  lemma ShortJoins(a: seq<Factor>, b: seq<Factor>, first: bool)
    requires (forall f <- a :: ProperFactor(f)) && (forall f <- b :: ProperFactor(f))
    ensures Short(a, first) && Short(b, true) ==> Short(a + b, first)
  {
    hide FactorTree, ProperFactor, RightsFit, Size;
    assert forall i :: 0 <= i < |a + b| ==> (a + b)[i] == if i < |a| then a[i] else b[i - |a|];
  }

  lemma {:induction false} FactorSize(t: Tree)
    requires !(t.Bin? && t.amp)
    ensures Size(FactorTree(OneFactor(t))) == Size(t)
    ensures RightsFit(t) ==> RightsFit(FactorTree(OneFactor(t)))
    decreases t, 0
  {
    match t
    case Leaf(_) =>
    case Neg(x) => if !x.Leaf? { DerivationSize(x); }
    case Bin(_, l, r) =>
      FactorsSize(l);
      FactorsSize(r);
      QueryTreeOf(Factors(l), Factors(r));
      TermSize(Factors(l));
      TermSize(Factors(r));
  }

  // ---- When the very same query comes back ----

  predicate IsAnd(t: Tree) { t.Bin? && t.amp }

  /** No "&" is the right operand of another. */
  predicate NoAndRight(t: Tree) {
    match t
    case Leaf(_) => true
    case Neg(x) => NoAndRight(x)
    case Bin(amp, l, r) => NoAndRight(l) && NoAndRight(r) && !(amp && IsAnd(r))
  }

  lemma {:induction false} AndTreeSnoc(acc: Tree, fs: seq<Factor>, g: Factor)
    requires (forall f <- fs :: ProperFactor(f)) && ProperFactor(g)
    ensures AndTree(acc, fs + [g]) == Bin(true, AndTree(acc, fs), FactorTree(g))
    decreases fs
  {
    hide FactorTree, ProperFactor;
    if fs == [] {
      assert fs + [g] == [g] && [g][1..] == [];
      assert AndTree(acc, [g]) == AndTree(Bin(true, acc, FactorTree(g)), []);
    } else {
      assert (fs + [g])[0] == fs[0] && (fs + [g])[1..] == fs[1..] + [g];
      AndTreeSnoc(Bin(true, acc, FactorTree(fs[0])), fs[1..], g);
    }
  }

  lemma TermTreeSnoc(fs: seq<Factor>, g: Factor)
    requires fs != [] && (forall f <- fs :: ProperFactor(f)) && ProperFactor(g)
    ensures ProperTerm(Term(fs)) && ProperTerm(Term(fs + [g]))
    ensures TermTree(Term(fs + [g])) == Bin(true, TermTree(Term(fs)), FactorTree(g))
  {
    AndTreeSnoc(FactorTree(fs[0]), fs[1..], g);
    hide FactorTree, AndTree;
    assert (fs + [g])[0] == fs[0] && (fs + [g])[1..] == fs[1..] + [g];
  }

  lemma {:induction false} SameTerm(t: Tree)
    requires NoAndRight(t)
    ensures ProperTerm(Term(Factors(t))) && TermTree(Term(Factors(t))) == t
    decreases t, 1
  {
    if IsAnd(t) {
      SameTerm(t.l);
      SameFactor(t.r);
      assert Factors(t) == Factors(t.l) + [OneFactor(t.r)];
      hide TermTree, FactorTree;
      TermTreeSnoc(Factors(t.l), OneFactor(t.r));
    } else {
      SameFactor(t);
      TermTreeOfOne(OneFactor(t));
    }
  }

  lemma {:induction false} SameFactor(t: Tree)
    requires NoAndRight(t) && !IsAnd(t)
    ensures FactorTree(OneFactor(t)) == t
    decreases t, 0
  {
    match t
    case Leaf(_) =>
    case Neg(x) => if !x.Leaf? { SameDerivation(x); }
    case Bin(_, l, r) =>
      SameTerm(l);
      SameTerm(r);
      QueryTreeOf(Factors(l), Factors(r));
  }

  lemma {:induction false} SameDerivation(t: Tree)
    requires NoAndRight(t)
    ensures QueryTree(Derivation(t)) == t
    decreases t, 2
  {
    if t.Bin? && !t.amp {
      SameTerm(t.l);
      SameTerm(t.r);
      QueryTreeOf(Factors(t.l), Factors(t.r));
    } else {
      SameTerm(t);
      QueryTreeOf(Factors(t), Factors(t));
    }
  }

  /** Factors that "&" can join on its right. */
  predicate Joinable(fs: seq<Factor>)
    requires forall f <- fs :: ProperFactor(f)
  {
    forall i :: 0 <= i < |fs| ==> NoAndRight(FactorTree(fs[i])) && !IsAnd(FactorTree(fs[i]))
  }

  lemma {:induction false} JoinedHasNoAndRight(acc: Tree, fs: seq<Factor>)
    requires NoAndRight(acc) && (forall f <- fs :: ProperFactor(f)) && Joinable(fs)
    ensures NoAndRight(AndTree(acc, fs))
    decreases fs
  {
    hide FactorTree, ProperFactor;
    if fs != [] {
      JoinedHasNoAndRight(Bin(true, acc, FactorTree(fs[0])), fs[1..]);
    }
  }

  lemma TermHasNoAndRight(fs: seq<Factor>)
    requires fs != [] && (forall f <- fs :: ProperFactor(f)) && Joinable(fs)
    ensures ProperTerm(Term(fs)) && NoAndRight(TermTree(Term(fs)))
  {
    assert TermTree(Term(fs)) == AndTree(FactorTree(fs[0]), fs[1..]);
    hide FactorTree, AndTree;
    JoinedHasNoAndRight(FactorTree(fs[0]), fs[1..]);
  }

  lemma {:induction false} FactorsJoinable(t: Tree)
    ensures Joinable(Factors(t))
    decreases t, 1
  {
    if IsAnd(t) {
      FactorsJoinable(t.l);
      FactorsJoinable(t.r);
      assert Factors(t) == Factors(t.l) + Factors(t.r);
    } else {
      OneJoinable(t);
      assert Factors(t) == [OneFactor(t)];
    }
  }

  lemma {:induction false} OneJoinable(t: Tree)
    requires !IsAnd(t)
    ensures NoAndRight(FactorTree(OneFactor(t))) && !IsAnd(FactorTree(OneFactor(t)))
    decreases t, 0
  {
    match t
    case Leaf(_) =>
    case Neg(x) => if !x.Leaf? { DerivedHasNoAndRight(x); }
    case Bin(_, l, r) =>
      FactorsJoinable(l);
      FactorsJoinable(r);
      TermHasNoAndRight(Factors(l));
      TermHasNoAndRight(Factors(r));
      QueryTreeOf(Factors(l), Factors(r));
  }

  /** Reading associates "&" to the left. */
  lemma {:induction false} DerivedHasNoAndRight(t: Tree)
    ensures NoAndRight(QueryTree(Derivation(t)))
    decreases t, 2
  {
    if t.Bin? && !t.amp {
      FactorsJoinable(t.l);
      FactorsJoinable(t.r);
      TermHasNoAndRight(Factors(t.l));
      TermHasNoAndRight(Factors(t.r));
      QueryTreeOf(Factors(t.l), Factors(t.r));
    } else {
      FactorsJoinable(t);
      TermHasNoAndRight(Factors(t));
      QueryTreeOf(Factors(t), Factors(t));
    }
  }

  /** The very same query comes back exactly if no "&" is the right operand of another. */
  lemma SameQueryIff(t: Tree)
    ensures QueryTree(Derivation(t)) == t <==> NoAndRight(t)
  {
    DerivedHasNoAndRight(t);
    if NoAndRight(t) {
      SameDerivation(t);
    }
  }

  /** The printed text of any query is accepted, never too deep for the stack, as a query of the same size that is
      printed as the same text and holds of the same arrays; only "&" may be associated differently. */
  lemma RoundTrip(t: Tree)
    ensures var q, t' := Derivation(t), QueryTree(Derivation(t));
            && IsQuery(Tokens(Print(t, true)), q) && FitsQuery(q)
            && (Size(t) <= QUERYTYPEMAXITEMS ==> InputOf(q) == Accepted(Linked(t')))
            && Print(t', true) == Print(t, true)
            && Size(t') == Size(t)
            && (RightsFit(t) ==> RightsFit(t'))
            && forall present :: TreeHolds(t', present) == TreeHolds(t, present)
  {
    var q := Derivation(t);
    LexPrinted(t, true, "", 0);
    assert Print(t, true) + "" == Print(t, true);
    assert Lex("", WaitOperator, 0) == [END];
    DerivationFits(t);
    PrintsAgain(t);
    DerivationSize(t);
    forall present ensures TreeHolds(QueryTree(q), present) == TreeHolds(t, present) {
      DerivationMeans(t, present);
      TreeMeansQuery(q, present);
    }
  }

  /** And, as long as its links fit, it evaluates the same on every array, negation included. */
  lemma RoundTripEvaluates(t: Tree, present: int32 -> bool)
    requires RightsFit(t)
    ensures var t' := QueryTree(Derivation(t)); RightsFit(t') && Evaluate(t', present) == Evaluate(t, present)
  {
    DerivationSize(t);
    DerivationMeans(t, present);
    TreeMeansQuery(Derivation(t), present);
    EvaluateMeans(t, present);
    EvaluateMeans(QueryTree(Derivation(t)), present);
  }
}
