/** Printing a stored query: the text infix writes, and the growing buffer it writes it into. */
module IntQueryPrint {
  import opened IntQueryText
  import opened IntQueryParse
  import opened IntQueryItems
  import opened IntQueryEval

  function DigitChar(d: nat): (c: char)
    requires d < 10
    ensures IsDigit(c) && DigitValue(c) == d
  {
    (d + '0' as int) as char
  }

  function Digits(n: nat): (s: string)
    ensures s != "" && forall c <- s :: IsDigit(c)
  {
    if n < 10 then [DigitChar(n)] else Digits(n / 10) + [DigitChar(n % 10)]
  }

  /** "%d". */
  function Decimal(v: int): string {
    if v < 0 then "-" + Digits(-v) else Digits(v)
  }

  function Pow10(k: nat): nat { if k == 0 then 1 else 10 * Pow10(k - 1) }

  lemma {:induction false} FewDigits(n: nat, k: nat)
    requires 1 <= k && n < Pow10(k)
    ensures |Digits(n)| <= k
  {
    if n >= 10 {
      FewDigits(n / 10, k - 1);
    }
  }

  lemma DecimalLength(v: int32)
    ensures 1 <= |Decimal(v)| <= 11
  {
    var n: nat := if v < 0 then -(v as int) else v as int;
    assert Pow10(10) == 10000000000 by {
      assert Pow10(2) == 100;
      assert Pow10(4) == 10000;
      assert Pow10(6) == 1000000;
      assert Pow10(8) == 100000000;
    }
    FewDigits(n, 10);
  }

  /** What infix appends for the operand t; first says that no operator encloses it. */
  function Print(t: Tree, first: bool): (s: string)
    ensures s != ""
  {
    match t
    case Leaf(v) => Decimal(v)
    case Neg(x) => if x.Leaf? then "!" + Print(x, false) else "!" + ("( " + Print(x, true) + " )")
    case Bin(amp, l, r) =>
      var body := Print(l, false) + ([' ', OpChar(amp), ' '] + Print(r, false));
      if !amp && !first then "( " + body + " )" else body
  }

  /** Appending, and what is appended, kept apart from the text it makes. */
  function Then(a: string, b: string): string { a + b }

  function Brackets(needed: bool, s: string): string { if needed then s else "" }

  /** INFIX: the cursor into the items, and a buffer that is reallocated at twice its length when it is full. */
  class Infix {
    const items: seq<Item>
    var curpol: int
    var buf: seq<char>
    var cur: nat

    constructor (items: seq<Item>, curpol: int, buflen: nat)
      requires buflen > 0
      ensures this.items == items && this.curpol == curpol && Valid() && Text() == ""
    {
      this.items := items;
      this.curpol := curpol;
      buf := seq(buflen, _ => '\0');
      cur := 0;
    }

    /** There is room for the terminator. */
    predicate Valid()
      reads this
    {
      cur < |buf|
    }

    function Text(): string
      requires Valid()
      reads this
    {
      buf[..cur]
    }

    /** RESIZEBUF. */
    method ResizeBuf(addsize: nat)
      requires Valid()
      modifies this`buf
      ensures Valid() && Text() == old(Text()) && cur + addsize + 1 < |buf|
    {
      while cur + addsize + 1 >= |buf|
        invariant Valid() && Text() == old(Text())
        decreases cur + addsize + 1 - |buf|
      {
        buf := buf + seq(|buf|, _ => '\0');
      }
    }

    /** Write the text and its terminator where the cursor is; every index is within the buffer. */
    method Put(s: string)
      requires Valid() && cur + |s| + 1 < |buf|
      modifies this`cur, this`buf
      ensures Valid() && Text() == Then(old(Text()), s) && buf[cur] == '\0'
    {
      var start := cur;
      for i := 0 to |s|
        invariant cur == start + i && |buf| == |old(buf)| && buf[..cur] == old(Text()) + s[..i]
      {
        buf := buf[cur := s[i]];
        cur := cur + 1;
      }
      buf := buf[cur := '\0'];
    }

    /** Room first, then the text. */
    method Append(s: string, room: nat)
      requires Valid() && |s| <= room
      modifies this`buf, this`cur
      ensures Valid() && Text() == Then(old(Text()), s)
    {
      ResizeBuf(room);
      Put(s);
    }

    /** A bracket, where one is needed. */
    method Bracket(needed: bool, s: string)
      requires Valid() && |s| == 2
      modifies this`buf, this`cur
      ensures Valid() && Text() == Then(old(Text()), Brackets(needed, s))
    {
      if needed {
        Append(s, 2);
      }
    }

    /** infix, t being the operand that ends at curpol and starts at base. */
    method Write(first: bool, ghost base: nat, ghost t: Tree)
      requires Valid() && SpellsAt(items, base, Post(t)) && curpol + 1 == base + Size(t)
      modifies this`buf, this`cur, this`curpol
      ensures Valid() && curpol + 1 == base && Text() == Then(old(Text()), Print(t, first))
      decreases t, 1
    {
      RootSpelt(items, base, curpol, t);
      ghost var before := Text();
      assert Size(t) == if t.Leaf? then 1 else if t.Neg? then Size(t.t) + 1 else Size(t.l) + Size(t.r) + 1;
      assert t.Leaf? ==> Print(t, first) == Decimal(t.val) && items[curpol].val == t.val;
      hide Decimal, Post, SpellsAt, Postfix, Print, Size, Then, Brackets, Text, Code;
      if !items[curpol].opr {
        DecimalLength(items[curpol].val);
        Append(Decimal(items[curpol].val), 11);
        curpol := curpol - 1;
      } else if items[curpol].val == Code('!') {
        NegSpelt(items, base, t.t);
        RootSpelt(items, base, curpol - 1, t.t);
        Append("!", 1);
        curpol := curpol - 1;
        var isopr := items[curpol].opr;
        Bracket(isopr, "( ");
        Write(isopr, base, t.t);
        Bracket(isopr, " )");
        JoinedNeg(before, t, first);
      } else {
        WriteBinary(first, base, t);
      }
    }

    /** Its branch for a binary operator: the right operand goes to a buffer of its own first. */
    method WriteBinary(first: bool, ghost base: nat, ghost t: Tree)
      requires Valid() && t.Bin? && SpellsAt(items, base, Post(t)) && curpol + 1 == base + Size(t)
      modifies this`buf, this`cur, this`curpol
      ensures Valid() && curpol + 1 == base && Text() == Then(old(Text()), Print(t, first))
      decreases t, 0
    {
      RootSpelt(items, base, curpol, t);
      ghost var before, mid := Text(), base + Size(t.l);
      assert Size(t) == Size(t.l) + Size(t.r) + 1;
      assert items[curpol].val == Code(OpChar(t.amp)) && items[curpol].val as char == OpChar(t.amp);
      assert Code('|') != Code('&');
      hide Post, SpellsAt, Postfix, Print, Size, Then, Brackets, Text, Code;
      BinSpelt(items, base, mid, t.amp, t.l, t.r);
      var op := items[curpol].val;
      curpol := curpol - 1;
      Bracket(op == Code('|') && !first, "( ");
      var nrm := new Infix(items, curpol, 16);
      nrm.Write(false, mid, t.r);
      curpol := nrm.curpol;
      Write(false, base, t.l);
      var right := nrm.Text();
      Append([' ', op as char, ' '] + right, 3 + |right|);
      Bracket(op == Code('|') && !first, " )");
      JoinedBin(before, t, first, right);
    }
  }

  lemma JoinedNeg(before: string, t: Tree, first: bool)
    requires t.Neg?
    ensures var isopr := !t.t.Leaf?;
            Then(Then(Then(Then(before, "!"), Brackets(isopr, "( ")), Print(t.t, isopr)), Brackets(isopr, " )"))
            == Then(before, Print(t, first))
  {
  }

  lemma JoinedBin(before: string, t: Tree, first: bool, right: string)
    requires t.Bin? && right == Then("", Print(t.r, false))
    ensures var needed := !t.amp && !first;
            Then(Then(Then(Then(before, Brackets(needed, "( ")), Print(t.l, false)), [' ', OpChar(t.amp), ' '] + right),
                 Brackets(needed, " )"))
            == Then(before, Print(t, first))
  {
    var tail := [' ', OpChar(t.amp), ' '] + Print(t.r, false);
    assert right == Print(t.r, false);
    assert Print(t, first)
           == var body := Print(t.l, false) + tail; if !t.amp && !first then "( " + body + " )" else body;
    hide Print;
    FourParts(before, "", Print(t.l, false), tail, "");
    FourParts(before, "( ", Print(t.l, false), tail, " )");
  }

  lemma FourParts(before: string, a: string, b: string, c: string, d: string)
    ensures before + a + b + c + d == before + (a + (b + c) + d)
    ensures a == [] && d == [] ==> a + (b + c) + d == b + c
  {
  }

  datatype OutResult = Printed(text: string) | EmptyQuery

  /** bqarr_out. */
  method BqarrOut(items: seq<Item>, ghost t: Tree) returns (r: OutResult)
    requires items != [] ==> SpellsAt(items, 0, Post(t)) && |items| == Size(t)
    ensures r == if items == [] then EmptyQuery else Printed(Print(t, true))
  {
    if |items| == 0 {
      return EmptyQuery;
    }
    var nrm := new Infix(items, |items| - 1, 32);
    nrm.Write(true, 0, t);
    r := Printed(nrm.Text());
  }
}
