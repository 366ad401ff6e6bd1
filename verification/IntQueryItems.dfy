/** Stored queries: postfix items with 16-bit back links to left operands, their evaluation, and when the
    links are wide enough. */
module IntQueryItems {
  import opened IntQueryText
  import opened IntQueryParse

  /** ITEM. For an operator val is the character code; left is the distance back to the left operand. */
  datatype Item = Item(opr: bool, left: int, val: int32)

  /** A query as a tree, binary operators associated as the postfix form has them. */
  datatype Tree = Leaf(val: int32) | Neg(t: Tree) | Bin(amp: bool, l: Tree, r: Tree)

  function OpChar(amp: bool): char { if amp then '&' else '|' }

  function Code(c: char): int32 { if c < 128 as char then c as int else 0 }

  /** Storing an int32 into an int16 field. */
  function Wrap16(x: int): int {
    (x + 0x8000) % 0x1_0000 - 0x8000
  }

  function Size(t: Tree): (n: nat)
    ensures n >= 1
  {
    match t
    case Leaf(_) => 1
    case Neg(x) => Size(x) + 1
    case Bin(_, l, r) => Size(l) + Size(r) + 1
  }

  /** Two operands and their operator. */
  function Postfix<T>(a: seq<T>, b: seq<T>, c: T): (r: seq<T>)
    ensures |r| == |a| + |b| + 1
  {
    a + b + [c]
  }

  function Post(t: Tree): (ns: seq<Node>)
    ensures |ns| == Size(t)
  {
    match t
    case Leaf(v) => [Operand(v)]
    case Neg(x) => Postfix([], Post(x), Operator('!'))
    case Bin(amp, l, r) => Postfix(Post(l), Post(r), Operator(OpChar(amp)))
  }

  lemma LastAndFront<T>(pre: seq<T>, a: seq<T>, b: seq<T>, c: T)
    ensures var whole := pre + Postfix(a, b, c);
            |whole| > 0 && whole[|whole| - 1] == c && whole[..|whole| - 1] == pre + a + b
  {
    assert pre + Postfix(a, b, c) == pre + a + b + [c];
  }

  /** A postfix list has one reading: the tree at its end, and what stands before it, are determined. */
  lemma {:induction false} OneReading(pre: seq<Node>, t: Tree, pre': seq<Node>, t': Tree)
    requires pre + Post(t) == pre' + Post(t')
    ensures t == t' && pre == pre'
    decreases t
  {
    Root(pre, t);
    Root(pre', t');
    match t
    case Leaf(_) =>
    case Neg(x) => OneReading(pre, x, pre', t'.t);
    case Bin(_, l, r) =>
      OneReading(pre + Post(l), r, pre' + Post(t'.l), t'.r);
      OneReading(pre, l, pre', t'.l);
  }

  /** The root is last; its operands are before it. */
  lemma Root(pre: seq<Node>, t: Tree)
    ensures var whole := pre + Post(t);
            && |whole| > 0
            && whole[|whole| - 1] == RootNode(t)
            && whole[..|whole| - 1] == match t
               case Leaf(_) => pre
               case Neg(x) => pre + Post(x)
               case Bin(_, l, r) => pre + Post(l) + Post(r)
  {
    match t
    case Leaf(v) => assert Post(t) == [Operand(v)];
    case Neg(x) => LastAndFront(pre, [], Post(x), Operator('!')); assert pre + [] == pre;
    case Bin(amp, l, r) => LastAndFront(pre, Post(l), Post(r), Operator(OpChar(amp)));
  }

  function RootNode(t: Tree): Node {
    match t
    case Leaf(v) => Operand(v)
    case Neg(_) => Operator('!')
    case Bin(amp, _, _) => Operator(OpChar(amp))
  }

  /** The items findoprnd leaves for a tree. */
  function Linked(t: Tree): (items: seq<Item>)
    ensures |items| == Size(t)
  {
    match t
    case Leaf(v) => [Item(false, 0, v)]
    case Neg(x) => Postfix([], Linked(x), Item(true, -1, Code('!')))
    case Bin(amp, l, r) => Postfix(Linked(l), Linked(r), Item(true, Wrap16(-(Size(r) + 1)), Code(OpChar(amp))))
  }

  /** The list node an item was made from. */
  function NodeOf(item: Item): Node {
    if !item.opr then Operand(item.val) else Operator(if 0 <= item.val < 128 then item.val as char else '\0')
  }

  function NodesOf(items: seq<Item>): (ns: seq<Node>)
    ensures |ns| == |items|
  {
    seq(|items|, i requires 0 <= i < |items| => NodeOf(items[i]))
  }

  lemma NodesOfPostfix(a: seq<Item>, b: seq<Item>, c: Item)
    ensures NodesOf(Postfix(a, b, c)) == Postfix(NodesOf(a), NodesOf(b), NodeOf(c))
  {
  }

  lemma {:induction false} NodesOfLinked(t: Tree)
    ensures NodesOf(Linked(t)) == Post(t)
  {
    hide Postfix;
    match t
    case Leaf(v) => assert NodesOf([Item(false, 0, v)]) == [Operand(v)];
    case Neg(x) =>
      NodesOfLinked(x);
      assert NodesOf([]) == [];
      NodesOfPostfix([], Linked(x), Item(true, -1, Code('!')));
    case Bin(amp, l, r) =>
      NodesOfLinked(l);
      NodesOfLinked(r);
      NodesOfPostfix(Linked(l), Linked(r), Item(true, Wrap16(-(Size(r) + 1)), Code(OpChar(amp))));
  }

  /** Stored items belong to one tree. */
  lemma OneTree(t: Tree, t': Tree)
    requires Linked(t) == Linked(t')
    ensures t == t'
  {
    NodesOfLinked(t);
    NodesOfLinked(t');
    OneReading([], t, [], t');
  }

  predicate TreeHolds(t: Tree, present: int32 -> bool) {
    match t
    case Leaf(v) => present(v)
    case Neg(x) => !TreeHolds(x, present)
    case Bin(amp, l, r) =>
      if amp then TreeHolds(l, present) && TreeHolds(r, present) else TreeHolds(l, present) || TreeHolds(r, present)
  }

  // ---- From derivations to trees ----

  function QueryTree(q: Query): Tree
    requires ProperQuery(q)
    decreases q
  {
    assert ProperTerm(q.terms[0]);
    OrTree(TermTree(q.terms[0]), q.terms[1..])
  }

  function OrTree(acc: Tree, ts: seq<Term>): Tree
    requires forall t <- ts :: ProperTerm(t)
    decreases ts
  {
    if ts == [] then acc else OrTree(Bin(false, acc, TermTree(ts[0])), ts[1..])
  }

  function TermTree(t: Term): Tree
    requires ProperTerm(t)
    decreases t
  {
    assert ProperFactor(t.factors[0]);
    AndTree(FactorTree(t.factors[0]), t.factors[1..])
  }

  function AndTree(acc: Tree, fs: seq<Factor>): Tree
    requires forall f <- fs :: ProperFactor(f)
    decreases fs
  {
    if fs == [] then acc else AndTree(Bin(true, acc, FactorTree(fs[0])), fs[1..])
  }

  function FactorTree(f: Factor): Tree
    requires ProperFactor(f)
    decreases f
  {
    match f
    case Value(v) => Leaf(v)
    case Not(g) => Neg(FactorTree(g))
    case Paren(q) => QueryTree(q)
  }

  lemma {:induction false} PostOfQuery(q: Query)
    requires ProperQuery(q)
    ensures Post(QueryTree(q)) == PostQuery(q)
    decreases q, 1
  {
    assert ProperTerm(q.terms[0]);
    PostOfTerm(q.terms[0]);
    var first := TermTree(q.terms[0]);
    PostOfOr(first, q.terms[1..]);
    assert PostTerms(q.terms, false) == PostFactors(q.terms[0].factors, false) + [] + PostTerms(q.terms[1..], true);
  }

  lemma {:induction false} PostOfOr(acc: Tree, ts: seq<Term>)
    requires forall t <- ts :: ProperTerm(t)
    ensures Post(OrTree(acc, ts)) == Post(acc) + PostTerms(ts, true)
    decreases ts, 0
  {
    if ts != [] {
      assert ProperTerm(ts[0]);
      PostOfTerm(ts[0]);
      var t := TermTree(ts[0]);
      PostOfOr(Bin(false, acc, t), ts[1..]);
      assert Post(Bin(false, acc, t)) == Post(acc) + Post(t) + [Operator('|')];
      hide TermTree, PostFactors, Post;
      Regroup(Post(acc), Post(t), [Operator('|')]);
      Regroup(Post(acc), Post(t) + [Operator('|')], PostTerms(ts[1..], true));
    }
  }

  lemma {:induction false} PostOfTerm(t: Term)
    requires ProperTerm(t)
    ensures Post(TermTree(t)) == PostFactors(t.factors, false)
    decreases t, 1
  {
    assert ProperFactor(t.factors[0]);
    PostOfFactor(t.factors[0]);
    PostOfAnd(FactorTree(t.factors[0]), t.factors[1..]);
    assert PostFactors(t.factors, false) == PostFactor(t.factors[0]) + [] + PostFactors(t.factors[1..], true);
  }

  lemma {:induction false} PostOfAnd(acc: Tree, fs: seq<Factor>)
    requires forall f <- fs :: ProperFactor(f)
    ensures Post(AndTree(acc, fs)) == Post(acc) + PostFactors(fs, true)
    decreases fs, 0
  {
    if fs != [] {
      assert ProperFactor(fs[0]);
      PostOfFactor(fs[0]);
      var t := FactorTree(fs[0]);
      PostOfAnd(Bin(true, acc, t), fs[1..]);
      assert Post(Bin(true, acc, t)) == Post(acc) + Post(t) + [Operator('&')];
      hide FactorTree, PostFactor, Post;
      Regroup(Post(acc), Post(t), [Operator('&')]);
      Regroup(Post(acc), Post(t) + [Operator('&')], PostFactors(fs[1..], true));
    }
  }

  lemma {:induction false} PostOfFactor(f: Factor)
    requires ProperFactor(f)
    ensures Post(FactorTree(f)) == PostFactor(f)
    decreases f, 0
  {
    match f
    case Value(_) =>
    case Not(g) => PostOfFactor(g);
    case Paren(q) => PostOfQuery(q);
  }

  /** The tree means what the grammar says. */
  lemma {:induction false} TreeMeansQuery(q: Query, present: int32 -> bool)
    requires ProperQuery(q)
    ensures TreeHolds(QueryTree(q), present) == QueryHolds(q, present)
    decreases q, 1
  {
    assert ProperTerm(q.terms[0]);
    TreeMeansTerm(q.terms[0], present);
    TreeMeansOr(TermTree(q.terms[0]), q.terms[1..], present);
    assert forall i :: 0 <= i < |q.terms| ==> q.terms[i] == if i == 0 then q.terms[0] else q.terms[1..][i - 1];
    if i :| 0 <= i < |q.terms[1..]| && TermHolds(q.terms[1..][i], present) {
      assert q.terms[i + 1] == q.terms[1..][i];
    }
  }

  lemma {:induction false} TreeMeansOr(acc: Tree, ts: seq<Term>, present: int32 -> bool)
    requires forall t <- ts :: ProperTerm(t)
    ensures TreeHolds(OrTree(acc, ts), present)
            == (TreeHolds(acc, present) || exists i :: 0 <= i < |ts| && TermHolds(ts[i], present))
    decreases ts, 0
  {
    if ts != [] {
      assert ProperTerm(ts[0]);
      TreeMeansTerm(ts[0], present);
      TreeMeansOr(Bin(false, acc, TermTree(ts[0])), ts[1..], present);
      hide TermHolds, TermTree;
      assert forall i :: 0 <= i < |ts| ==> ts[i] == if i == 0 then ts[0] else ts[1..][i - 1];
      if i :| 0 <= i < |ts[1..]| && TermHolds(ts[1..][i], present) {
        assert TermHolds(ts[i + 1], present);
      }
    }
  }

  lemma {:induction false} TreeMeansTerm(t: Term, present: int32 -> bool)
    requires ProperTerm(t)
    ensures TreeHolds(TermTree(t), present) == TermHolds(t, present)
    decreases t, 1
  {
    var fs := t.factors;
    assert ProperFactor(fs[0]);
    TreeMeansFactor(fs[0], present);
    TreeMeansAnd(FactorTree(fs[0]), fs[1..], present);
    assert forall i :: 0 <= i < |fs| ==> fs[i] == if i == 0 then fs[0] else fs[1..][i - 1];
    assert forall i :: 0 <= i < |fs[1..]| ==> fs[1..][i] == fs[i + 1];
  }

  lemma {:induction false} TreeMeansAnd(acc: Tree, fs: seq<Factor>, present: int32 -> bool)
    requires forall f <- fs :: ProperFactor(f)
    ensures TreeHolds(AndTree(acc, fs), present)
            == (TreeHolds(acc, present) && forall i :: 0 <= i < |fs| ==> FactorHolds(fs[i], present))
    decreases fs, 0
  {
    if fs != [] {
      assert ProperFactor(fs[0]);
      TreeMeansFactor(fs[0], present);
      TreeMeansAnd(Bin(true, acc, FactorTree(fs[0])), fs[1..], present);
      hide FactorHolds, FactorTree;
      assert forall i :: 0 <= i < |fs| ==> fs[i] == if i == 0 then fs[0] else fs[1..][i - 1];
      assert forall i :: 0 <= i < |fs[1..]| ==> fs[1..][i] == fs[i + 1];
    }
  }

  lemma {:induction false} TreeMeansFactor(f: Factor, present: int32 -> bool)
    requires ProperFactor(f)
    ensures TreeHolds(FactorTree(f), present) == FactorHolds(f, present)
    decreases f, 0
  {
    match f
    case Value(_) =>
    case Not(g) => TreeMeansFactor(g, present);
    case Paren(q) => TreeMeansQuery(q, present);
  }
}
