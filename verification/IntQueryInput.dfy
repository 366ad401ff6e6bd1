/** Reading a query: gettoken, pushquery, makepol and bqarr_in as they change the work state, against the grammar. */
module IntQueryInput {
  import opened Wrappers
  import opened IntQueryText
  import opened IntQueryParse
  import opened IntQueryAccept
  import opened IntQueryItems
  import opened IntQueryEval

  datatype LexState = WAITOPERAND | WAITENDOPERAND | WAITOPERATOR

  /** The list pushquery builds, newest node first. */
  datatype NodeList = Nil | Cons(node: Node, next: NodeList)

  /** The nodes in the order they were pushed. */
  function Pushed(l: NodeList): seq<Node> {
    match l
    case Nil => []
    case Cons(n, next) => Pushed(next) + [n]
  }

  /** How an invocation of makepol ends: normally, or in one of its two error reports. */
  datatype Outcome = End | SyntaxErrorReport | TooComplexReport

  /** (MaxAllocSize - HDRSIZEQT) / sizeof(ITEM). */
  const QUERYTYPEMAXITEMS: nat := 134217726

  datatype InResult = Accepted(items: seq<Item>) | BadSyntax | TooDeep | Empty | TooManyItems

  lemma {:induction false} DigitsAhead(s: string, k: nat)
    requires k <= |s| && forall i :: 0 <= i < k ==> IsDigit(s[i])
    ensures DigitRun(s) == k + DigitRun(s[k..])
  {
    if k == 0 {
      assert s[0..] == s;
    } else {
      DigitsAhead(s[1..], k - 1);
      assert s[1..][k - 1..] == s[k..];
    }
  }

  /** A sign or digit and then digits up to pos: the number being collected since start. */
  predicate Collecting(text: string, start: nat, pos: nat) {
    && start < pos <= |text|
    && (IsDigit(text[start]) || text[start] == '-')
    && forall i :: start < i < pos ==> IsDigit(text[i])
  }

  lemma CollectedDigits(text: string, start: nat, pos: nat)
    requires Collecting(text, start, pos)
    ensures var s := text[start..];
            && s[1..] == text[start + 1..] && 1 + DigitRun(s[1..]) == pos - start + DigitRun(text[pos..])
            && s[..pos - start] == text[start..pos] && s[pos - start..] == text[pos..]
  {
    var s := text[start..];
    assert forall i :: 0 <= i < pos - start - 1 ==> IsDigit(s[1..][i]);
    DigitsAhead(s[1..], pos - start - 1);
    assert s[1..][pos - start - 1..] == text[pos..];
  }

  lemma NumberGoesOn(text: string, start: nat, pos: nat)
    requires start <= pos < |text|
    ensures text[start..pos + 1] == text[start..pos] + [text[pos]]
  {
  }

  /** The buffer is full, or the digits end. */
  lemma NumberEnds(text: string, start: nat, pos: nat, count: int)
    requires Collecting(text, start, pos)
    ensures pos - start >= NNN_SIZE ==> Number(text[start..], count).token == ERR
    ensures pos - start < NNN_SIZE && (pos == |text| || !IsDigit(text[pos])) ==>
              var v := Strtol(text[start..pos]);
              if !(-0x8000_0000 <= v < 0x8000_0000) then Number(text[start..], count).token == ERR else
              Number(text[start..], count) == Next(if count != 0 && Head(text[pos..]) == '\0' then ERR else VAL(v),
                                                   text[pos..], WaitOperator, count)
  {
    assert start < pos <= |text| && text[start..] != [];
    hide Strtol, Collecting, IsDigit;
    CollectedDigits(text, start, pos);
    DigitsEnd(text, pos);
  }

  lemma DigitsEnd(text: string, pos: nat)
    ensures pos <= |text| && (pos == |text| || !IsDigit(text[pos])) ==> DigitRun(text[pos..]) == 0
  {
  }

  class WorkState {
    const text: string
    var pos: nat
    var state: LexState
    var count: int
    var str: NodeList
    var num: nat

    constructor (buf: string)
      ensures text == buf && pos == 0 && state == WAITOPERAND && count == 0 && str == Nil && num == 0
    {
      text := buf;
      pos := 0;
      state := WAITOPERAND;
      count := 0;
      str := Nil;
      num := 0;
    }

    /** Between tokens. */
    predicate Valid()
      reads this
    {
      pos <= |text| && state != WAITENDOPERAND && num == |Pushed(str)|
    }

    function LexerState(): State
      reads this
    {
      if state == WAITOPERATOR then WaitOperator else WaitOperand
    }

    /** What the next token is, and what is behind it. */
    function Coming(): Next
      requires Valid()
      reads this
    {
      NextToken(text[pos..], LexerState(), count)
    }

    /** All tokens to come. */
    function Ahead(): seq<Token>
      requires Valid()
      reads this
    {
      Lex(text[pos..], LexerState(), count)
    }

    /** The number that starts here: gettoken in its state WAITENDOPERAND. */
    method GetNumber() returns (token: Token)
      requires Valid() && pos < |text| && (IsDigit(text[pos]) || text[pos] == '-')
      modifies this`pos, this`state
      ensures token == Number(text[old(pos)..], count).token && old(pos) < pos
      ensures token != ERR ==>
                Valid() && Next(token, text[pos..], LexerState(), count) == Number(text[old(pos)..], count)
    {
      ghost var start := pos;
      hide Number, Strtol, Pushed;
      var nnn := new char[NNN_SIZE];
      state := WAITENDOPERAND;
      nnn[0] := text[pos];
      var innn := 1;
      pos := pos + 1;
      while innn < NNN_SIZE && pos < |text| && IsDigit(text[pos])
        invariant start + innn == pos && innn <= NNN_SIZE && Collecting(text, start, pos)
        invariant nnn[..innn] == text[start..pos]
      {
        NumberGoesOn(text, start, pos);
        nnn[innn] := text[pos];
        innn := innn + 1;
        pos := pos + 1;
      }
      NumberEnds(text, start, pos, count);
      if innn >= NNN_SIZE {
        return ERR;
      }
      nnn[innn] := '\0';
      var lval := Strtol(nnn[..innn]);
      if !(-0x8000_0000 <= lval < 0x8000_0000) {
        return ERR;
      }
      state := WAITOPERATOR;
      return if count != 0 && Head(text[pos..]) == '\0' then ERR else VAL(lval);
    }

    method GetToken() returns (token: Token)
      requires Valid()
      modifies this`pos, this`state, this`count
      ensures token == old(Coming()).token
      ensures token != ERR ==> Valid() && Next(token, text[pos..], LexerState(), count) == old(Coming())
      ensures old(pos) <= pos && (token != ERR && token != END ==> old(pos) < pos <= |text|)
    {
      ghost var next := Coming();
      hide Number, Pushed;
      while true
        invariant Valid() && old(pos) <= pos && next == Coming()
        decreases |text| - pos
      {
        var c := Head(text[pos..]);
        assert pos < |text| ==> text[pos..][1..] == text[pos + 1..];
        if state == WAITOPERAND {
          if pos < |text| && (IsDigit(c) || c == '-') {
            token := GetNumber();
            return;
          } else if pos < |text| && c == '!' {
            pos := pos + 1;
            return OPR('!');
          } else if pos < |text| && c == '(' {
            count := count + 1;
            pos := pos + 1;
            return OPEN;
          } else if pos == |text| || c != ' ' {
            return ERR;
          }
        } else {
          if pos < |text| && (c == '&' || c == '|') {
            state := WAITOPERAND;
            pos := pos + 1;
            return OPR(c);
          } else if pos < |text| && c == ')' {
            pos := pos + 1;
            count := count - 1;
            return if count < 0 then ERR else CLOSE;
          } else if c == '\0' {
            return if count != 0 then ERR else END;
          } else if c != ' ' {
            return ERR;
          }
        }
        pos := pos + 1;
      }
    }

    /** What the last token read was, when it was not an error, was the first of those ahead. */
    twostate lemma TookOne(token: Token)
      requires old(Valid()) && Valid() && token != ERR
      requires Next(token, text[pos..], LexerState(), count) == old(Coming())
      ensures old(Ahead())[0] == token
      ensures token != END ==> old(Ahead())[1..] == Ahead()
      ensures token == END ==> old(Ahead()) == [END] && Ahead() == [END]
    {
      if token == END {
        EndStays(old(text[pos..]), old(LexerState()), old(count));
      }
    }

    method PushQuery(node: Node)
      requires Valid()
      modifies this`str, this`num
      ensures Valid() && Pushed(str) == old(Pushed(str)) + [node] && str == Cons(node, old(str))
    {
      str := Cons(node, str);
      num := num + 1;
    }

    /** Pop "&" and "!" into the list. */
    method PopTightly(stack: array<char>, lenstack: nat) returns (lenstack': nat)
      requires Valid() && lenstack <= stack.Length
      modifies this`str, this`num
      ensures Valid() && lenstack' <= lenstack
      ensures (stack[..lenstack'], Pushed(str)) == PopTight(stack[..lenstack], old(Pushed(str)))
    {
      lenstack' := lenstack;
      while lenstack' > 0 && (stack[lenstack' - 1] == '&' || stack[lenstack' - 1] == '!')
        invariant Valid() && lenstack' <= lenstack
        invariant PopTight(stack[..lenstack'], Pushed(str)) == PopTight(stack[..lenstack], old(Pushed(str)))
      {
        assert stack[..lenstack'][..lenstack' - 1] == stack[..lenstack' - 1];
        lenstack' := lenstack' - 1;
        PushQuery(Operator(stack[lenstack']));
      }
    }

    /** Pop everything into the list. */
    method Flush(stack: array<char>, lenstack: nat)
      requires Valid() && lenstack <= stack.Length
      modifies this`str, this`num
      ensures Valid() && Pushed(str) == PopAll(stack[..lenstack], old(Pushed(str)))
    {
      var n := lenstack;
      while n > 0
        invariant Valid() && 0 <= n <= lenstack
        invariant PopAll(stack[..n], Pushed(str)) == PopAll(stack[..lenstack], old(Pushed(str)))
      {
        assert stack[..n][..n - 1] == stack[..n - 1];
        n := n - 1;
        PushQuery(Operator(stack[n]));
      }
    }

    /** What this invocation should come to. */
    function Expected(stack: seq<char>): Pol
      requires Valid()
      reads this
    {
      MakePol(Ahead(), stack, Pushed(str))
    }

    /** An operand goes to the list, and the operators waiting for it after it. */
    method TakeOperand(stack: array<char>, lenstack: nat, v: int32, ghost toks: seq<Token>) returns (lenstack': nat)
      requires Valid() && lenstack <= stack.Length && toks != [] && toks[0] == VAL(v)
      modifies this`str, this`num
      ensures Valid() && lenstack' <= lenstack
      ensures MakePol(toks, stack[..lenstack], old(Pushed(str))) == MakePol(toks[1..], stack[..lenstack'], Pushed(str))
    {
      hide PopTight;
      PushQuery(Operand(v));
      lenstack' := PopTightly(stack, lenstack);
    }

    /** An operator goes to the stack, or to the list if it is an "|" on a stack that is not empty. */
    method TakeOperator(stack: array<char>, lenstack: nat, c: char, ghost toks: seq<Token>)
      returns (ok: bool, lenstack': nat)
      requires Valid() && lenstack <= stack.Length == STACKDEPTH && toks != [] && toks[0] == OPR(c)
      modifies this`str, this`num, stack
      ensures Valid() && lenstack' <= STACKDEPTH
      ensures MakePol(toks, old(stack[..lenstack]), old(Pushed(str)))
              == if ok then MakePol(toks[1..], stack[..lenstack'], Pushed(str)) else TooComplex
    {
      hide Pushed;
      ok, lenstack' := true, lenstack;
      if lenstack > 0 && c == '|' {
        PushQuery(Operator(c));
      } else {
        if lenstack == STACKDEPTH {
          ok := false;
          return;
        }
        ghost var before := stack[..lenstack];
        stack[lenstack] := c;
        lenstack' := lenstack + 1;
        assert stack[..lenstack'] == before + [c];
      }
    }

    /** The query in brackets, and the operators waiting for it. */
    method TakeInner(stack: array<char>, lenstack: nat, ghost toks: seq<Token>) returns (r: Outcome, lenstack': nat)
      requires Valid() && lenstack <= stack.Length && toks != [] && toks[0] == OPEN && toks[1..] == Ahead()
      modifies this`pos, this`state, this`count, this`str, this`num
      ensures old(pos) <= pos && lenstack' <= lenstack
      ensures var all := MakePol(toks, stack[..lenstack], old(Pushed(str)));
              match r
              case End => Valid() && Expected(stack[..lenstack']) == all
              case SyntaxErrorReport => all == SyntaxError
              case TooComplexReport => all == TooComplex
      decreases |text| - pos, 2
    {
      hide Lex, NextToken, Pushed, MakePol, PopTight;
      lenstack' := lenstack;
      OpensInner(toks, stack[..lenstack], Pushed(str));
      r := MakePolish();
      if r == End {
        lenstack' := PopTightly(stack, lenstack);
      }
    }

    /** One round of the loop in makepol. None: the loop goes on. */
    method TakeToken(stack: array<char>, lenstack: nat) returns (r: Option<Outcome>, lenstack': nat)
      requires Valid() && lenstack <= stack.Length == STACKDEPTH
      modifies this`pos, this`state, this`count, this`str, this`num, stack
      ensures old(pos) <= pos && lenstack' <= STACKDEPTH
      ensures var all := old(Expected(stack[..lenstack]));
              match r
              case None => old(pos) < pos && Valid() && Expected(stack[..lenstack']) == all
              case Some(End) => Valid() && all == Done(Pushed(str), Ahead())
              case Some(SyntaxErrorReport) => all == SyntaxError
              case Some(TooComplexReport) => all == TooComplex
      decreases |text| - pos, 0
    {
      hide Lex, NextToken, Pushed, MakePol, PopTight, PopAll;
      ghost var toks := Ahead();
      r, lenstack' := None, lenstack;
      label Before:
      var token := GetToken();
      if token == ERR {
        FailsOnError(old(text[pos..]), old(LexerState()), old(count), old(stack[..lenstack]), old(Pushed(str)));
        r := Some(SyntaxErrorReport);
        return;
      }
      TookOne@Before(token);
      match token {
        case VAL(v) =>
          lenstack' := TakeOperand(stack, lenstack, v, toks);
        case OPR(c) =>
          var ok;
          ok, lenstack' := TakeOperator(stack, lenstack, c, toks);
          if !ok {
            r := Some(TooComplexReport);
          }
        case OPEN =>
          var inner;
          inner, lenstack' := TakeInner(stack, lenstack, toks);
          if inner != End {
            r := Some(inner);
          }
        case CLOSE =>
          Closes(toks, stack[..lenstack], Pushed(str));
          Flush(stack, lenstack);
          r := Some(End);
        case END =>
          Closes(toks, stack[..lenstack], Pushed(str));
          Flush(stack, lenstack);
          r := Some(End);
      }
    }

    /** makepol. */
    method MakePolish() returns (r: Outcome)
      requires Valid()
      modifies this`pos, this`state, this`count, this`str, this`num
      ensures old(pos) <= pos
      ensures match old(Expected([]))
              case Done(out, rest) => r == End && Valid() && Pushed(str) == out && Ahead() == rest
              case SyntaxError => r == SyntaxErrorReport
              case TooComplex => r == TooComplexReport
      decreases |text| - pos, 1
    {
      hide Lex, NextToken, Pushed, MakePol;
      var stack := new char[STACKDEPTH];
      var lenstack := 0;
      assert stack[..0] == [];
      while true
        invariant Valid() && old(pos) <= pos && 0 <= lenstack <= STACKDEPTH
        invariant Expected(stack[..lenstack]) == old(Expected([]))
        decreases |text| - pos
      {
        var done;
        done, lenstack := TakeToken(stack, lenstack);
        if done.Some? {
          return done.value;
        }
      }
    }
  }

  lemma FailsOnError(s: string, state: State, count: int, stack: seq<char>, out: seq<Node>)
    requires NextToken(s, state, count).token == ERR
    ensures MakePol(Lex(s, state, count), stack, out) == SyntaxError
  {
  }

  lemma OpensInner(toks: seq<Token>, stack: seq<char>, out: seq<Node>)
    requires toks != [] && toks[0] == OPEN
    ensures MakePol(toks, stack, out)
            == var inner := MakePol(toks[1..], [], out);
               if inner.Done? then
                 var popped := PopTight(stack, inner.out);
                 MakePol(inner.rest, popped.0, popped.1)
               else inner
  {
  }

  lemma Closes(toks: seq<Token>, stack: seq<char>, out: seq<Node>)
    requires toks != [] && (toks[0] == CLOSE || toks[0] == END)
    ensures MakePol(toks, stack, out) == Done(PopAll(stack, out), if toks[0] == CLOSE then toks[1..] else toks)
  {
  }

  lemma {:induction false} EndStays(s: string, state: State, count: int)
    requires NextToken(s, state, count).token == END
    ensures var n := NextToken(s, state, count); NextToken(n.rest, n.state, n.count).token == END
  {
    if s != "" && s[0] == ' ' {
      EndStays(s[1..], state, count);
    }
  }

  /** bqarr_in copying the list into the item array, last node first; the links are still to be set. */
  method CopyItems(str: NodeList, num: nat) returns (ptr: array<Item>)
    requires num == |Pushed(str)|
    ensures fresh(ptr) && ptr.Length == num && SpellsAt(ptr[..], 0, Pushed(str))
  {
    ptr := new Item[num](_ => Item(false, 0, 0));
    var rest := str;
    var i := num;
    while i > 0
      invariant 0 <= i <= num && Pushed(rest) == Pushed(str)[..i]
      invariant forall j :: i <= j < num ==> Spells(ptr[j], Pushed(str)[j])
    {
      i := i - 1;
      var node := rest.node;
      assert Pushed(str)[i] == Pushed(str)[..i + 1][i] == node;
      ptr[i] := match node
        case Operand(v) => Item(false, 0, v)
        case Operator(c) => Item(true, 0, Code(c));
      rest := rest.next;
      assert Pushed(rest) == Pushed(str)[..i + 1][..i] == Pushed(str)[..i];
    }
  }

  /** The text is a query of the grammar. */
  ghost predicate IsQueryText(s: string) {
    exists q :: IsQuery(Tokens(s), q)
  }

  /** What input must come to for the text of a query. */
  function InputOf(q: Query): InResult
    requires ProperQuery(q)
  {
    if !FitsQuery(q) then TooDeep
    else if Size(QueryTree(q)) > QUERYTYPEMAXITEMS then TooManyItems
    else Accepted(Linked(QueryTree(q)))
  }

  /** All derivations of a text store the same items. */
  lemma OneInput(q: Query, q': Query)
    requires ProperQuery(q) && ProperQuery(q') && PostQuery(q) == PostQuery(q')
    ensures QueryTree(q) == QueryTree(q')
  {
    PostOfQuery(q);
    PostOfQuery(q');
    assert [] + Post(QueryTree(q)) == [] + Post(QueryTree(q'));
    OneReading([], QueryTree(q), [], QueryTree(q'));
  }

  /** bqarr_in: exactly the queries of the grammar whose runs of "!" and item count fit are stored, as the linked items
      of their tree; every other text is refused. */
  method BqarrIn(buf: string) returns (r: InResult)
    ensures r.Accepted? ==> IsQueryText(buf)
    ensures forall q :: IsQuery(Tokens(buf), q) ==> r == InputOf(q)
    ensures !IsQueryText(buf) ==> r == BadSyntax || r == TooDeep
  {
    var state := new WorkState(buf);
    assert buf[0..] == buf;
    assert state.Ahead() == Tokens(buf);
    AcceptsExactly(buf);
    var outcome := state.MakePolish();
    match outcome {
      case SyntaxErrorReport =>
        return BadSyntax;
      case TooComplexReport =>
        return TooDeep;
      case End =>
    }
    hide MakePol, Lex;
    ghost var q :| IsQuery(Tokens(buf), q) && FitsQuery(q);
    ghost var t := QueryTree(q);
    PostOfQuery(q);
    forall q' | IsQuery(Tokens(buf), q') ensures FitsQuery(q') && QueryTree(q') == t {
      OneInput(q, q');
    }
    hide FitsQuery, QueryTree, ProperQuery, Linked, Post, PostQuery, SpellsAt, Pushed, QueryTokens, Tokens, Size;
    assert Pushed(state.str) == Post(t);
    if state.num == 0 {
      return Empty;
    }
    if state.num > QUERYTYPEMAXITEMS {
      return TooManyItems;
    }
    var ptr := CopyItems(state.str, state.num);
    var pos := FindOprnd(ptr, state.num - 1, 0, t);
    assert pos == -1;
    assert ptr[..] == ptr[0..state.num - 1 + 1] == Linked(t);
    r := Accepted(ptr[..]);
  }
}
