/** Evaluating stored queries by following back links, and when the links lead where they should. */
module IntQueryEval {
  import opened IntQueryText
  import opened IntQueryParse
  import opened IntQueryItems

  predicate IsBang(item: Item) { item.opr && item.val == Code('!') }
  predicate IsAmp(item: Item) { item.opr && item.val == Code('&') }

  /** Every link stays inside the query and points down. */
  predicate LinksDown(items: seq<Item>) {
    forall i :: 0 <= i < |items| && items[i].opr ==> i >= 1 && (IsBang(items[i]) || 0 <= i + items[i].left < i)
  }

  /** execute, from the item at i, with chk deciding the operands. */
  predicate Execute(items: seq<Item>, i: nat, chk: nat -> bool, calcnot: bool)
    requires LinksDown(items) && i < |items|
    decreases i
  {
    var cur := items[i];
    if !cur.opr then chk(i)
    else if IsBang(cur) then (if calcnot then !Execute(items, i - 1, chk, calcnot) else true)
    else if IsAmp(cur) then Execute(items, i + cur.left, chk, calcnot) && Execute(items, i - 1, chk, calcnot)
    else Execute(items, i + cur.left, chk, calcnot) || Execute(items, i - 1, chk, calcnot)
  }

  /** Every right operand is short enough for a 16-bit link over it. */
  predicate RightsFit(t: Tree) {
    match t
    case Leaf(_) => true
    case Neg(x) => RightsFit(x)
    case Bin(_, l, r) => RightsFit(l) && RightsFit(r) && Size(r) <= 32767
  }

  /** The items with the true distances, whatever their size. */
  function TrueLinks(t: Tree): (items: seq<Item>)
    ensures |items| == Size(t)
  {
    match t
    case Leaf(v) => [Item(false, 0, v)]
    case Neg(x) => Postfix([], TrueLinks(x), Item(true, -1, Code('!')))
    case Bin(amp, l, r) => Postfix(TrueLinks(l), TrueLinks(r), Item(true, -(Size(r) + 1), Code(OpChar(amp))))
  }

  lemma SamePostfix<T>(a: seq<T>, b: seq<T>, c: T, a': seq<T>, b': seq<T>, c': T)
    requires |a| == |a'| && |b| == |b'|
    ensures Postfix(a, b, c) == Postfix(a', b', c') <==> a == a' && b == b' && c == c'
  {
    var s, s' := Postfix(a, b, c), Postfix(a', b', c');
    assert s[..|a|] == a && s[|a|..|a| + |b|] == b && s[|a| + |b|] == c;
    assert s'[..|a|] == a' && s'[|a|..|a| + |b|] == b' && s'[|a| + |b|] == c';
  }

  lemma WrapFits(n: nat)
    ensures Wrap16(-(n + 1)) == -(n + 1) <==> n <= 32767
  {
  }

  /** The stored links are the true ones exactly when every right operand has at most 32767 items. */
  lemma {:induction false} LinksTrueIff(t: Tree)
    ensures Linked(t) == TrueLinks(t) <==> RightsFit(t)
  {
    hide Postfix, Wrap16, Size;
    match t
    case Leaf(_) =>
    case Neg(x) =>
      LinksTrueIff(x);
      var bang := Item(true, -1, Code('!'));
      SamePostfix([], Linked(x), bang, [], TrueLinks(x), bang);
    case Bin(amp, l, r) =>
      LinksTrueIff(l);
      LinksTrueIff(r);
      WrapFits(Size(r));
      SamePostfix(Linked(l), Linked(r), Item(true, Wrap16(-(Size(r) + 1)), Code(OpChar(amp))),
                  TrueLinks(l), TrueLinks(r), Item(true, -(Size(r) + 1), Code(OpChar(amp))));
  }

  /** In particular queries of up to 32769 items are linked correctly. */
  lemma {:induction false} ShortQueriesFit(t: Tree)
    requires Size(t) <= 32769
    ensures RightsFit(t)
  {
    match t
    case Leaf(_) =>
    case Neg(x) => ShortQueriesFit(x);
    case Bin(_, l, r) => ShortQueriesFit(l); ShortQueriesFit(r);
  }

  /** A stretch of items that is one operand, wherever it stands. */
  predicate Stretch(items: seq<Item>, base: nat, part: seq<Item>) {
    base + |part| <= |items| && forall i :: 0 <= i < |part| ==> items[base + i] == part[i]
  }

  lemma {:induction false} LinkedGoesDown(t: Tree)
    requires RightsFit(t)
    ensures LinksDown(Linked(t))
  {
    hide Wrap16;
    match t
    case Leaf(_) =>
    case Neg(x) =>
      LinkedGoesDown(x);
      JoinGoesDown([], Linked(x), Item(true, -1, Code('!')));
    case Bin(amp, l, r) =>
      LinkedGoesDown(l);
      LinkedGoesDown(r);
      WrapFits(Size(r));
      JoinGoesDown(Linked(l), Linked(r), Item(true, -(Size(r) + 1), Code(OpChar(amp))));
  }

  lemma JoinGoesDown(a: seq<Item>, b: seq<Item>, c: Item)
    requires LinksDown(a) && LinksDown(b) && b != []
    requires c.opr && (IsBang(c) || 0 <= |a| + |b| + c.left < |a| + |b|)
    ensures LinksDown(Postfix(a, b, c))
  {
    var items := Postfix(a, b, c);
    forall i | 0 <= i < |items| && items[i].opr ensures i >= 1 && (IsBang(items[i]) || 0 <= i + items[i].left < i) {
      if i < |a| {
        assert items[i] == a[i];
      } else if i < |a| + |b| {
        assert items[i] == b[i - |a|];
      }
    }
  }

  lemma PartOf(items: seq<Item>, base: nat, mid: nat, top: nat, a: seq<Item>, b: seq<Item>, c: Item)
    requires Stretch(items, base, Postfix(a, b, c)) && mid == base + |a| && top == mid + |b|
    ensures Stretch(items, base, a) && Stretch(items, mid, b) && top < |items| && items[top] == c
  {
    var whole := Postfix(a, b, c);
    forall i | 0 <= i < |a| ensures items[base + i] == a[i] {
      assert whole[i] == a[i];
    }
    forall i | 0 <= i < |b| ensures items[mid + i] == b[i] {
      assert whole[|a| + i] == b[i] && mid + i == base + (|a| + i);
    }
    assert whole[|a| + |b|] == c && top == base + (|a| + |b|);
  }

  lemma FitParts(amp: bool, l: Tree, r: Tree)
    requires RightsFit(Bin(amp, l, r))
    ensures RightsFit(l) && RightsFit(r)
    ensures Linked(Bin(amp, l, r)) == Postfix(Linked(l), Linked(r), Item(true, -(Size(r) + 1), Code(OpChar(amp))))
  {
    hide Wrap16, Postfix;
    WrapFits(Size(r));
  }

  lemma BinStretch(amp: bool, l: Tree, r: Tree, items: seq<Item>, base: nat)
    requires RightsFit(Bin(amp, l, r)) && Stretch(items, base, Linked(Bin(amp, l, r)))
    ensures RightsFit(l) && RightsFit(r)
    ensures Stretch(items, base, Linked(l)) && Stretch(items, base + Size(l), Linked(r))
    ensures base + Size(l) + Size(r) < |items|
    ensures items[base + Size(l) + Size(r)] == Item(true, -(Size(r) + 1), Code(OpChar(amp)))
  {
    hide *;
    FitParts(amp, l, r);
    PartOf(items, base, base + Size(l), base + Size(l) + Size(r), Linked(l), Linked(r),
           Item(true, -(Size(r) + 1), Code(OpChar(amp))));
  }

  lemma NegStretch(x: Tree, items: seq<Item>, base: nat)
    requires RightsFit(Neg(x)) && Stretch(items, base, Linked(Neg(x)))
    ensures RightsFit(x) && Stretch(items, base, Linked(x)) && base + Size(x) < |items|
    ensures items[base + Size(x)] == Item(true, -1, Code('!'))
  {
    assert RightsFit(x) && Linked(Neg(x)) == Postfix([], Linked(x), Item(true, -1, Code('!')));
    hide *;
    PartOf(items, base, base, base + Size(x), [], Linked(x), Item(true, -1, Code('!')));
  }

  lemma LeafStretch(v: int32, items: seq<Item>, base: nat)
    requires Stretch(items, base, Linked(Leaf(v)))
    ensures base < |items| && items[base] == Item(false, 0, v)
  {
    assert items[base + 0] == Linked(Leaf(v))[0];
  }

  /** With links that fit, evaluation is the meaning of the tree. */
  lemma {:induction false} ExecuteMeans(t: Tree, items: seq<Item>, base: nat, chk: nat -> bool, present: int32 -> bool)
    requires RightsFit(t) && LinksDown(items) && Stretch(items, base, Linked(t))
    requires forall i :: 0 <= i < |items| && !items[i].opr ==> chk(i) == present(items[i].val)
    ensures Execute(items, base + Size(t) - 1, chk, true) == TreeHolds(t, present)
  {
    hide RightsFit, Stretch, Linked, LinksDown;
    match t
    case Leaf(v) =>
      LeafStretch(v, items, base);
      assert !items[base].opr && chk(base) == present(items[base].val);
    case Neg(x) =>
      NegStretch(x, items, base);
      ExecuteMeans(x, items, base, chk, present);
    case Bin(amp, l, r) =>
      BinStretch(amp, l, r, items, base);
      ExecuteMeans(l, items, base, chk, present);
      ExecuteMeans(r, items, base + Size(l), chk, present);
  }

  /** Evaluation without negation and over a superset of the values never misses a match: what the lossy GiST
      signatures rely on. */
  lemma {:induction false} LossyNeverMisses(t: Tree, items: seq<Item>, base: nat, chk: nat -> bool,
                                            present: int32 -> bool)
    requires RightsFit(t) && LinksDown(items) && Stretch(items, base, Linked(t))
    requires forall i :: 0 <= i < |items| && !items[i].opr && present(items[i].val) ==> chk(i)
    requires TreeHolds(t, present)
    ensures Execute(items, base + Size(t) - 1, chk, false)
  {
    hide RightsFit, Stretch, Linked, LinksDown;
    match t
    case Leaf(v) =>
      LeafStretch(v, items, base);
      assert !items[base].opr && present(items[base].val);
    case Neg(x) =>
      NegStretch(x, items, base);
    case Bin(amp, l, r) =>
      BinStretch(amp, l, r, items, base);
      if TreeHolds(l, present) {
        LossyNeverMisses(l, items, base, chk, present);
      }
      if TreeHolds(r, present) {
        LossyNeverMisses(r, items, base + Size(l), chk, present);
      }
  }

  /** What a query can be worth when nothing is known of its negated parts. */
  predicate MayHold(t: Tree, present: int32 -> bool) {
    match t
    case Leaf(v) => present(v)
    case Neg(_) => true
    case Bin(amp, l, r) =>
      if amp then MayHold(l, present) && MayHold(r, present) else MayHold(l, present) || MayHold(r, present)
  }

  predicate Negates(t: Tree) {
    match t
    case Leaf(_) => false
    case Neg(_) => true
    case Bin(_, l, r) => Negates(l) || Negates(r)
  }

  /** Where nothing is negated, that is what it means. */
  lemma {:induction false} MayHoldIs(t: Tree, present: int32 -> bool)
    ensures TreeHolds(t, present) ==> MayHold(t, present)
    ensures !Negates(t) ==> (MayHold(t, present) <==> TreeHolds(t, present))
  {
    match t
    case Leaf(_) =>
    case Neg(_) =>
    case Bin(_, l, r) =>
      MayHoldIs(l, present);
      MayHoldIs(r, present);
  }

  /** Evaluation without negation is exactly that. */
  lemma {:induction false} LossyMeans(t: Tree, items: seq<Item>, base: nat, chk: nat -> bool, present: int32 -> bool)
    requires RightsFit(t) && LinksDown(items) && Stretch(items, base, Linked(t))
    requires forall i :: 0 <= i < |items| && !items[i].opr ==> chk(i) == present(items[i].val)
    ensures Execute(items, base + Size(t) - 1, chk, false) == MayHold(t, present)
  {
    hide RightsFit, Stretch, Linked, LinksDown;
    match t
    case Leaf(v) =>
      LeafStretch(v, items, base);
      assert !items[base].opr && chk(base) == present(items[base].val);
    case Neg(x) =>
      NegStretch(x, items, base);
    case Bin(amp, l, r) =>
      BinStretch(amp, l, r, items, base);
      LossyMeans(l, items, base, chk, present);
      LossyMeans(r, items, base + Size(l), chk, present);
  }

  /** chkcond deciding by the value of the operand alone. */
  function ByValue(items: seq<Item>, present: int32 -> bool): nat -> bool {
    i => 0 <= i < |items| && present(items[i].val)
  }

  /** Only what the condition says of operands matters. */
  lemma {:induction false} SameOperands(items: seq<Item>, i: nat, chk: nat -> bool, chk': nat -> bool)
    requires LinksDown(items) && i < |items|
    requires forall k :: 0 <= k < |items| && !items[k].opr ==> chk(k) == chk'(k)
    ensures Execute(items, i, chk, true) == Execute(items, i, chk', true)
    decreases i
  {
    var cur := items[i];
    if cur.opr {
      SameOperands(items, i - 1, chk, chk');
      if !IsBang(cur) {
        SameOperands(items, i + cur.left, chk, chk');
      }
    }
  }

  /** Evaluating the stored items of a query from the last one, the operands decided by their values. */
  function Evaluate(t: Tree, present: int32 -> bool): bool
    requires RightsFit(t)
  {
    LinkedGoesDown(t);
    Execute(Linked(t), Size(t) - 1, ByValue(Linked(t), present), true)
  }

  lemma Whole(items: seq<Item>)
    ensures Stretch(items, 0, items)
  {
  }

  /** Any condition that decides the operands by their values will do. */
  lemma EvaluateWith(t: Tree, chk: nat -> bool, present: int32 -> bool)
    requires RightsFit(t)
    requires forall i :: 0 <= i < Size(t) && !Linked(t)[i].opr ==> chk(i) == present(Linked(t)[i].val)
    ensures LinksDown(Linked(t)) && Execute(Linked(t), Size(t) - 1, chk, true) == TreeHolds(t, present)
  {
    hide *;
    LinkedGoesDown(t);
    Whole(Linked(t));
    ExecuteMeans(t, Linked(t), 0, chk, present);
  }

  /** A stored query whose links fit evaluates to its meaning, on every set of values. */
  lemma EvaluateMeans(t: Tree, present: int32 -> bool)
    requires RightsFit(t)
    ensures Evaluate(t, present) == TreeHolds(t, present)
  {
    EvaluateWith(t, ByValue(Linked(t), present), present);
  }

  /** A query of up to 32769 items evaluates to what its text means: "!" before "&" before "|". */
  lemma StoredQueryMeans(q: Query, present: int32 -> bool)
    requires ProperQuery(q) && Size(QueryTree(q)) <= 32769
    ensures RightsFit(QueryTree(q)) && Evaluate(QueryTree(q), present) == QueryHolds(q, present)
  {
    ShortQueriesFit(QueryTree(q));
    EvaluateMeans(QueryTree(q), present);
    TreeMeansQuery(q, present);
  }

  // ---- findoprnd ----

  /** Items that spell a postfix form, links aside. */
  predicate Spells(item: Item, n: Node) {
    match n
    case Operand(v) => !item.opr && item.val == v
    case Operator(c) => item.opr && item.val == Code(c)
  }

  ghost predicate SpellsAt(items: seq<Item>, base: int, ns: seq<Node>) {
    0 <= base && base + |ns| <= |items| && forall i :: 0 <= i < |ns| ==> Spells(items[base + i], ns[i])
  }

  lemma SpellsParts(items: seq<Item>, base: int, mid: int, top: int, a: seq<Node>, b: seq<Node>, c: Node)
    requires SpellsAt(items, base, Postfix(a, b, c)) && mid == base + |a| && top == mid + |b|
    ensures SpellsAt(items, base, a) && SpellsAt(items, mid, b)
    ensures 0 <= top < |items| && Spells(items[top], c)
  {
    var whole := Postfix(a, b, c);
    forall i | 0 <= i < |a| ensures Spells(items[base + i], a[i]) { assert whole[i] == a[i]; }
    forall i | 0 <= i < |b| ensures Spells(items[mid + i], b[i]) {
      assert whole[|a| + i] == b[i] && mid + i == base + (|a| + i);
    }
    assert whole[|a| + |b|] == c && top == base + (|a| + |b|);
  }

  lemma {:induction false} LinkedSpells(t: Tree)
    ensures SpellsAt(Linked(t), 0, Post(t))
  {
    hide Postfix, Wrap16, SpellsAt;
    match t
    case Leaf(v) => assert SpellsAt([Item(false, 0, v)], 0, [Operand(v)]) by { LeafSpells(v); }
    case Neg(x) =>
      LinkedSpells(x);
      JoinSpells([], Linked(x), Item(true, -1, Code('!')), [], Post(x), Operator('!'));
    case Bin(amp, l, r) =>
      LinkedSpells(l);
      LinkedSpells(r);
      JoinSpells(Linked(l), Linked(r), Item(true, Wrap16(-(Size(r) + 1)), Code(OpChar(amp))),
                 Post(l), Post(r), Operator(OpChar(amp)));
  }

  lemma LeafSpells(v: int32)
    ensures SpellsAt([Item(false, 0, v)], 0, [Operand(v)])
  {
  }

  lemma JoinSpells(a: seq<Item>, b: seq<Item>, c: Item, a': seq<Node>, b': seq<Node>, c': Node)
    requires (a' == [] || SpellsAt(a, 0, a')) && SpellsAt(b, 0, b') && Spells(c, c') && |a| == |a'| && |b| == |b'|
    ensures SpellsAt(Postfix(a, b, c), 0, Postfix(a', b', c'))
  {
    var whole, ns := Postfix(a, b, c), Postfix(a', b', c');
    forall i | 0 <= i < |ns| ensures Spells(whole[0 + i], ns[i]) {
      if i < |a| {
        assert Spells(a[0 + i], a'[i]);
      } else if i < |a| + |b| {
        assert Spells(b[0 + (i - |a|)], b'[i - |a|]);
      }
    }
  }

  /** The item at pos spells the root of the tree that ends there. */
  lemma RootSpelt(items: seq<Item>, base: int, pos: int, t: Tree)
    requires SpellsAt(items, base, Post(t)) && pos + 1 == base + Size(t)
    ensures 0 <= pos < |items| && Spells(items[pos], RootNode(t))
    ensures items[pos].opr == !t.Leaf? && (items[pos].opr ==> (items[pos].val == Code('!')) == t.Neg?)
  {
    hide Postfix;
    match t
    case Leaf(_) => assert Spells(items[base + 0], Post(t)[0]);
    case Neg(x) => SpellsParts(items, base, base, pos, [], Post(x), Operator('!'));
    case Bin(amp, l, r) => SpellsParts(items, base, base + Size(l), pos, Post(l), Post(r), Operator(OpChar(amp)));
  }

  lemma NegSpelt(items: seq<Item>, base: int, x: Tree)
    requires SpellsAt(items, base, Post(Neg(x)))
    ensures SpellsAt(items, base, Post(x))
  {
    hide Postfix;
    SpellsParts(items, base, base, base + Size(x), [], Post(x), Operator('!'));
  }

  lemma BinSpelt(items: seq<Item>, base: int, mid: int, amp: bool, l: Tree, r: Tree)
    requires SpellsAt(items, base, Post(Bin(amp, l, r))) && mid == base + Size(l)
    ensures SpellsAt(items, base, Post(l)) && SpellsAt(items, mid, Post(r))
  {
    hide Postfix;
    SpellsParts(items, base, mid, mid + Size(r), Post(l), Post(r), Operator(OpChar(amp)));
  }

  /** Changing links elsewhere or anywhere keeps what is spelt. */
  lemma SpellsKept(items: seq<Item>, items': seq<Item>, base: int, ns: seq<Node>)
    requires SpellsAt(items, base, ns) && |items'| == |items| && 0 <= base && base + |ns| <= |items|
    requires forall i :: base <= i < base + |ns| ==> items'[i] == items[i]
    ensures SpellsAt(items', base, ns)
  {
  }

  /** Only the operand between from and pos has changed, and is now linked. */
  ghost predicate LinksOnly(before: seq<Item>, after: seq<Item>, from: int, pos: int, t: Tree) {
    && 0 <= from <= pos + 1 <= |before| == |after|
    && after[from..pos + 1] == Linked(t)
    && after[..from] == before[..from]
    && after[pos + 1..] == before[pos + 1..]
  }

  lemma LinkLeaf(before: seq<Item>, pos: nat, t: Tree)
    requires t.Leaf? && pos < |before| && Spells(before[pos], RootNode(t))
    ensures LinksOnly(before, before[pos := before[pos].(left := 0)], pos, pos, t)
  {
  }

  lemma LinkNeg(before: seq<Item>, after: seq<Item>, base: nat, pos: nat, t: Tree)
    requires t.Neg? && base + Size(t.t) == pos < |before| && Spells(before[pos], RootNode(t))
    requires LinksOnly(before[pos := before[pos].(left := -1)], after, base, pos - 1, t.t)
    ensures LinksOnly(before, after, base, pos, t)
  {
    hide Size;
    assert after[pos] == after[pos..][0];
    JoinSlices(after, base, base, pos);
  }

  lemma LinkBin(before: seq<Item>, right: seq<Item>, after: seq<Item>, base: nat, mid: nat, pos: nat, t: Tree)
    requires t.Bin? && mid == base + Size(t.l) && pos == mid + Size(t.r) < |before| && Spells(before[pos], RootNode(t))
    requires LinksOnly(before, right, mid, pos - 1, t.r)
    requires LinksOnly(right[pos := right[pos].(left := Wrap16(-(Size(t.r) + 1)))], after, base, mid - 1, t.l)
    ensures LinksOnly(before, after, base, pos, t)
  {
    var linked := right[pos := right[pos].(left := Wrap16(-(Size(t.r) + 1)))];
    assert Linked(t) == Postfix(Linked(t.l), Linked(t.r), Item(true, Wrap16(-(Size(t.r) + 1)), Code(OpChar(t.amp))));
    hide Size, Linked, Wrap16, Postfix;
    assert right[pos] == right[pos..][0] == before[pos];
    assert after[pos] == after[mid..][pos - mid] == linked[mid..][pos - mid];
    assert after[mid..pos] == after[mid..][..pos - mid] == linked[mid..pos] == right[mid..pos];
    JoinSlices(after, base, mid, pos);
    assert after[..base] == linked[..base] == right[..mid][..base];
    assert after[pos + 1..] == after[mid..][pos + 1 - mid..] == linked[pos + 1..] == right[pos..][1..];
  }

  lemma KeptLeft(before: seq<Item>, right: seq<Item>, mid: nat, pos: nat, t: Tree, item: Item, base: nat, ns: seq<Node>)
    requires LinksOnly(before, right, mid, pos - 1, t) && mid <= pos < |before|
    requires SpellsAt(before, base, ns) && base + |ns| <= mid
    ensures SpellsAt(right[pos := item], base, ns)
  {
    hide Linked;
    forall j | base <= j < base + |ns| ensures right[j] == before[j] {
      assert right[..mid][j] == before[..mid][j];
    }
  }

  /** Store one link. */
  method SetLeft(ptr: array<Item>, pos: nat, left: int)
    requires pos < ptr.Length
    modifies ptr
    ensures ptr[..] == old(ptr[..])[pos := old(ptr[pos]).(left := left)]
  {
    ptr[pos] := ptr[pos].(left := left);
  }

  /** findoprnd: link the operand that ends at pos, t being the tree it spells from base on. */
  method FindOprnd(ptr: array<Item>, pos: int, ghost base: nat, ghost t: Tree) returns (pos': int)
    requires SpellsAt(ptr[..], base, Post(t)) && pos + 1 == base + Size(t) <= ptr.Length
    modifies ptr
    ensures pos' + 1 == base
    ensures LinksOnly(old(ptr[..]), ptr[..], base, pos, t)
    decreases t, 1
  {
    ghost var before := ptr[..];
    RootSpelt(before, base, pos, t);
    assert Size(t) == if t.Leaf? then 1 else if t.Neg? then Size(t.t) + 1 else Size(t.l) + Size(t.r) + 1;
    hide *;
    if !ptr[pos].opr {
      SetLeft(ptr, pos, 0);
      pos' := pos - 1;
      LinkLeaf(before, pos, t);
    } else if ptr[pos].val == Code('!') {
      NegSpelt(before, base, t.t);
      SetLeft(ptr, pos, -1);
      SpellsKept(before, ptr[..], base, Post(t.t));
      pos' := FindOprnd(ptr, pos - 1, base, t.t);
      LinkNeg(before, ptr[..], base, pos, t);
    } else {
      pos' := FindOprnds(ptr, pos, base, t);
    }
  }

  /** Its branch for a binary operator: right operand, link, left operand. */
  method FindOprnds(ptr: array<Item>, pos: int, ghost base: nat, ghost t: Tree) returns (pos': int)
    requires t.Bin? && SpellsAt(ptr[..], base, Post(t)) && pos + 1 == base + Size(t) <= ptr.Length
    modifies ptr
    ensures pos' + 1 == base
    ensures LinksOnly(old(ptr[..]), ptr[..], base, pos, t)
    decreases t, 0
  {
    ghost var before := ptr[..];
    ghost var l, r, mid := t.l, t.r, base + Size(t.l);
    RootSpelt(before, base, pos, t);
    assert Size(t) == Size(t.l) + Size(t.r) + 1;
    hide *;
    BinSpelt(before, base, mid, t.amp, l, r);
    pos' := FindOprnd(ptr, pos - 1, mid, r);
    ghost var right := ptr[..];
    SetLeft(ptr, pos, Wrap16(pos' - pos));
    KeptLeft(before, right, mid, pos, r, right[pos].(left := Wrap16(pos' - pos)), base, Post(l));
    pos' := FindOprnd(ptr, pos', base, l);
    LinkBin(before, right, ptr[..], base, mid, pos, t);
  }

  lemma JoinSlices(s: seq<Item>, from: nat, mid: nat, pos: nat)
    requires from <= mid <= pos < |s|
    ensures s[from..pos + 1] == Postfix(s[from..mid], s[mid..pos], s[pos])
  {
  }
}
