/** Where 16-bit links are too short: a query that is stored with a wrong link, and then read wrongly. */
module IntQueryLimits {
  import opened IntQueryText
  import opened IntQueryParse
  import opened IntQueryAccept
  import opened IntQueryItems
  import opened IntQueryEval
  import opened IntQueryInput
  import opened IntQueryPrint
  import opened IntQueryRoundTrip

  /** "| 1" so many times behind a tree. */
  function Ones(acc: Tree, n: nat): Tree
    decreases n
  {
    if n == 0 then acc else Ones(Bin(false, acc, Leaf(1)), n - 1)
  }

  lemma {:induction false} OnesFacts(acc: Tree, n: nat, present: int32 -> bool)
    requires RightsFit(acc) && NoAndRight(acc) && !IsAnd(acc) && present(1)
    ensures Size(Ones(acc, n)) == Size(acc) + 2 * n && RightsFit(Ones(acc, n))
    ensures NoAndRight(Ones(acc, n)) && !IsAnd(Ones(acc, n))
    ensures n > 0 || TreeHolds(acc, present) ==> TreeHolds(Ones(acc, n), present)
    decreases n
  {
    if n > 0 {
      OnesFacts(Bin(false, acc, Leaf(1)), n - 1, present);
    }
  }

  /** "!1 | 1 | ... | 1", 65536 items. */
  function RightOperand(): Tree { Ones(Neg(Leaf(1)), 32767) }

  /** "0 & ( !1 | 1 | ... | 1 )". */
  function LongTree(): Tree { Bin(true, Leaf(0), RightOperand()) }

  lemma WrongLink(r: Tree)
    requires Size(r) == 65536
    ensures Linked(Bin(true, Leaf(0), r)) == Postfix([Item(false, 0, 0)], Linked(r), Item(true, -1, Code('&')))
    ensures Stretch(Linked(Bin(true, Leaf(0), r)), 1, Linked(r))
  {
    assert Wrap16(-(Size(r) + 1)) == -1;
    assert Linked(Leaf(0)) == [Item(false, 0, 0)];
    hide Size, Wrap16, Postfix, Stretch;
    BehindLeaf([Item(false, 0, 0)], Linked(r), Item(true, -1, Code('&')));
  }

  lemma BehindLeaf(leaf: seq<Item>, right: seq<Item>, root: Item)
    requires |leaf| == 1
    ensures Stretch(Postfix(leaf, right, root), 1, right)
  {
  }

  /** Such a link is followed to the right operand instead of the left. */
  lemma ReadsRightTwice(r: Tree, present: int32 -> bool)
    requires Size(r) == 65536 && RightsFit(r)
    ensures var t := Bin(true, Leaf(0), r);
            && LinksDown(Linked(t))
            && Execute(Linked(t), Size(t) - 1, ByValue(Linked(t), present), true) == TreeHolds(r, present)
  {
    LinkedGoesDown(r);
    WrongLink(r);
    var root := Item(true, -1, Code('&'));
    var items := Linked(Bin(true, Leaf(0), r));
    assert Size(Bin(true, Leaf(0), r)) == 65538 == |items| && items[65537] == root;
    hide Linked, Stretch, RightsFit, Size;
    JoinGoesDown([Item(false, 0, 0)], Linked(r), root);
    hide LinksDown;
    ExecuteMeans(r, items, 1, ByValue(items, present), present);
  }

  /** bqarr_in makes this of the text. */
  ghost predicate ReadAs(text: string, t: Tree) {
    exists q :: IsQuery(Tokens(text), q) && InputOf(q) == Accepted(Linked(t)) && QueryTree(q) == t
  }

  lemma PrintedIsRead(t: Tree)
    requires NoAndRight(t) && Size(t) <= QUERYTYPEMAXITEMS
    ensures ReadAs(Print(t, true), t)
  {
    hide Print, Tokens, Linked, Size, QueryTree, Derivation, FitsQuery, NoAndRight;
    RoundTrip(t);
    SameQueryIff(t);
    assert IsQuery(Tokens(Print(t, true)), Derivation(t));
  }

  /** A text bqarr_in accepts whose query evaluates to true on {1} although 0, which it demands, is not there: the link
      over a right operand of 65536 items wraps around to -1, and the left operand is never looked at. */
  lemma LongRightOperandMisread()
    ensures var t := LongTree();
            && ReadAs(Print(t, true), t) && Size(t) == 65538
            && LinksDown(Linked(t))
            && !TreeHolds(t, v => v == 1)
            && Execute(Linked(t), Size(t) - 1, ByValue(Linked(t), v => v == 1), true)
  {
    var r, t := RightOperand(), LongTree();
    var present: int32 -> bool := v => v == 1;
    OnesFacts(Neg(Leaf(1)), 32767, present);
    assert !TreeHolds(t, present) && Size(t) == 65538 && NoAndRight(t) && t == Bin(true, Leaf(0), r);
    hide *;
    PrintedIsRead(t);
    ReadsRightTwice(r, present);
  }
}
