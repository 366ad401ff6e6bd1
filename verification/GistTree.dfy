/** Whole GiST trees over bytea: built by unions, searched through the consistent function. */
module GistTree {
  import opened Lex
  import opened GistVarKeys
  import opened GistCover

  /** An indexed value, or a page under the downlink key its parent stores for it. */
  datatype Tree = Entry(v: bytea) | Page(key: VarKey, children: seq<Tree>)

  function KeyOf(t: Tree): VarKey {
    if t.Entry? then LeafKey(t.v) else t.key
  }

  function KeysOf(ts: seq<Tree>): (ks: seq<VarKey>)
    ensures |ks| == |ts| && forall i :: 0 <= i < |ts| ==> ks[i] == KeyOf(ts[i])
  {
    seq(|ts|, i requires 0 <= i < |ts| => KeyOf(ts[i]))
  }

  function Leaves(t: Tree): seq<bytea> {
    if t.Entry? then [t.v] else AllLeaves(t.children)
  }

  function AllLeaves(ts: seq<Tree>): seq<bytea> {
    if ts == [] then [] else Leaves(ts[0]) + AllLeaves(ts[1..])
  }

  /** Every downlink key is the union of the keys on its page. */
  predicate BuiltByUnion(t: Tree) {
    t.Page? ==>
      && t.children != [] && t.key == VarUnion(KeysOf(t.children))
      && forall c <- t.children :: BuiltByUnion(c)
  }

  /** Every downlink key is in order and covers all values below it. */
  predicate Sound(t: Tree) {
    t.Page? ==>
      && t.key.NodeKey? && Ordered(t.key)
      && (forall v <- Leaves(t) :: Covers(t.key, v))
      && forall c <- t.children :: Sound(c)
  }

  /** An index scan from one downlink: descend wherever the key is consistent, recheck values on leaf pages. */
  function Search(t: Tree, query: bytea, strategy: Strategy): seq<bytea> {
    if !Consistent(KeyOf(t), query, strategy) then []
    else if t.Entry? then [t.v]
    else SearchAll(t.children, query, strategy)
  }

  function SearchAll(ts: seq<Tree>, query: bytea, strategy: Strategy): seq<bytea> {
    if ts == [] then [] else Search(ts[0], query, strategy) + SearchAll(ts[1..], query, strategy)
  }

  /** The rows a sequential scan would return. */
  function Matching(vs: seq<bytea>, query: bytea, strategy: Strategy): seq<bytea> {
    if vs == [] then []
    else if Satisfies(vs[0], query, strategy) then [vs[0]] + Matching(vs[1..], query, strategy)
    else Matching(vs[1..], query, strategy)
  }

  lemma {:induction false} LeavesSplit(ts: seq<Tree>, v: bytea) returns (i: nat)
    requires v in AllLeaves(ts)
    ensures i < |ts| && v in Leaves(ts[i])
  {
    if v in Leaves(ts[0]) {
      i := 0;
    } else {
      i := LeavesSplit(ts[1..], v);
      i := i + 1;
    }
  }

  lemma {:induction false} LeafOfChild(ts: seq<Tree>, i: nat, v: bytea)
    requires i < |ts| && v in Leaves(ts[i])
    ensures v in AllLeaves(ts)
  {
    if i > 0 {
      LeafOfChild(ts[1..], i - 1, v);
    }
  }

  lemma KeyCovers(t: Tree, v: bytea)
    requires Sound(t) && v in Leaves(t)
    ensures Ordered(KeyOf(t)) && Covers(KeyOf(t), v)
  {
    if t.Entry? {
      LeafCovers(t.v, v);
    }
  }

  /** Keys computed bottom-up by union, to any height, are sound. */
  lemma {:induction false} BuiltIsSound(t: Tree)
    requires BuiltByUnion(t)
    ensures Sound(t)
  {
    if t.Page? {
      forall c | c in t.children ensures Sound(c) && Ordered(KeyOf(c)) {
        BuiltIsSound(c);
      }
      var keys := KeysOf(t.children);
      forall k | k in keys ensures Ordered(k) {
        var i :| 0 <= i < |keys| && keys[i] == k;
        assert t.children[i] in t.children;
      }
      UnionOrdered(keys);
      forall v | v in Leaves(t) ensures Covers(t.key, v) {
        var i := LeavesSplit(t.children, v);
        assert t.children[i] in t.children;
        KeyCovers(t.children[i], v);
        assert keys[i] in keys;
        UnionCovers(keys, keys[i], v);
      }
    }
  }

  lemma {:induction false} MatchingConcat(vs: seq<bytea>, ws: seq<bytea>, query: bytea, strategy: Strategy)
    ensures Matching(vs + ws, query, strategy) == Matching(vs, query, strategy) + Matching(ws, query, strategy)
  {
    hide Satisfies;
    if vs == [] {
      assert vs + ws == ws;
    } else {
      MatchingConcat(vs[1..], ws, query, strategy);
      assert (vs + ws)[1..] == vs[1..] + ws;
    }
  }

  lemma {:induction false} NoneMatching(vs: seq<bytea>, query: bytea, strategy: Strategy)
    requires forall v <- vs :: !Satisfies(v, query, strategy)
    ensures Matching(vs, query, strategy) == []
  {
    if vs != [] {
      NoneMatching(vs[1..], query, strategy);
    }
  }

  /** Index scans over a sound tree return exactly the matching rows, in order, for all six strategies. */
  lemma {:induction false} SearchIsExact(t: Tree, query: bytea, strategy: Strategy)
    requires Sound(t)
    ensures Search(t, query, strategy) == Matching(Leaves(t), query, strategy)
    decreases t, 0
  {
    if t.Entry? {
      Trichotomy(t.v, query);
      assert Leaves(t)[1..] == [];
    } else if Consistent(t.key, query, strategy) {
      SearchAllIsExact(t.children, query, strategy);
    } else {
      forall v | v in Leaves(t) ensures !Satisfies(v, query, strategy) {
        if Satisfies(v, query, strategy) {
          ConsistentFinds(t.key, v, query, strategy);
        }
      }
      NoneMatching(Leaves(t), query, strategy);
    }
  }

  lemma {:induction false} SearchAllIsExact(ts: seq<Tree>, query: bytea, strategy: Strategy)
    requires forall t <- ts :: Sound(t)
    ensures SearchAll(ts, query, strategy) == Matching(AllLeaves(ts), query, strategy)
    decreases ts
  {
    if ts != [] {
      assert ts[0] in ts;
      SearchIsExact(ts[0], query, strategy);
      SearchAllIsExact(ts[1..], query, strategy);
      MatchingConcat(Leaves(ts[0]), AllLeaves(ts[1..]), query, strategy);
    }
  }

  // ---- A split that loses rows ----

  /** A comparison decided at position k. */
  lemma LessAt(a: seq<int>, b: seq<int>, k: nat)
    requires k <= |a| && k < |b| && (forall i :: 0 <= i < k ==> a[i] == b[i]) && (k == |a| || a[k] < b[k])
    ensures Less(a, b) && !Less(b, a) && a != b && CommonPrefix(a, b) == k
  {
    PrefixIs(a, b, k);
    Trichotomy(a, b);
  }

  lemma SpanOfTwo(x: VarKey, y: VarKey)
    requires Less(x.Lower(), y.Lower()) && Less(x.Upper(), y.Upper())
    ensures Span([x, y]) == NodeKey(x.Lower(), y.Upper())
  {
    hide CommonPrefix, Less;
    Trichotomy(x.Lower(), y.Lower());
    assert [x, y][..1] == [x];
  }

  lemma UnionOfTwo(a: bytea, b: bytea)
    requires Less(a, b)
    ensures VarUnion([LeafKey(a), LeafKey(b)]) == NodeTruncate(NodeKey(a, b), CommonPrefix(a, b) + 1)
  {
    hide CommonPrefix, Less, Span;
    SpanOfTwo(LeafKey(a), LeafKey(b));
    var s := Span([LeafKey(a), LeafKey(b)]);
    assert s == NodeKey(a, b);
  }

  /** Two internal entries on either side of a split: the left half keeps ("0", "ab") and ("abb", "abc"), the right half
      ("xy1", "xy2") and ("xy3", "xy4"). The right half's longer common prefix cuts the left half's key to ("0", "abc"),
      so a search for "abz" turns it down, although "abz" lies below ("0", "ab"), the union of "0" and "abz". */
  lemma InternalSplitLosesRow()
    ensures var abz: bytea := [97, 98, 122];
            var e0 := VarUnion([LeafKey([48]), LeafKey(abz)]);
            var e1 := VarUnion([LeafKey([97, 98, 98]), LeafKey([97, 98, 99])]);
            var e2 := VarUnion([LeafKey([120, 121, 49]), LeafKey([120, 121, 50])]);
            var e3 := VarUnion([LeafKey([120, 121, 51]), LeafKey([120, 121, 52])]);
            var l, r := Span([e0, e1]), Span([e2, e3]);
            && SortedOrder([e0, e1, e2, e3], [0, 1, 2, 3], [e0, e1, e2, e3])
            && Consistent(e0, abz, Equal)
            && !Consistent(NodeTruncate(l, SplitLength(l, r)), abz, Equal)
  {
    hide CommonPrefix, Less, VarUnion, Span;
    var abz: bytea := [97, 98, 122];
    var e0, e1 := NodeKey([48], [97, 98]), NodeKey([97, 98, 98], [97, 98, 99]);
    var e2, e3 := NodeKey([120, 121, 49], [120, 121, 50]), NodeKey([120, 121, 51], [120, 121, 52]);
    ExampleUnion([48], abz, 0, e0);
    ExampleUnion(e1.lo, e1.hi, 2, e1);
    ExampleUnion(e2.lo, e2.hi, 2, e2);
    ExampleUnion(e3.lo, e3.hi, 2, e3);
    hide Consistent, SortedOrder, SplitLength, NodeTruncate;
    SplitExample(e0, e1, e2, e3, abz);
  }

  lemma ExampleUnion(a: bytea, b: bytea, cp: nat, key: VarKey)
    requires cp <= |a| && cp < |b| && (forall i :: 0 <= i < cp ==> a[i] == b[i]) && (cp == |a| || a[cp] < b[cp])
    requires key == NodeKey(a[..Min(|a|, cp + 2)], b[..Min(|b|, cp + 2)])
    ensures VarUnion([LeafKey(a), LeafKey(b)]) == key
  {
    LessAt(a, b, cp);
    UnionOfTwo(a, b);
    hide CommonPrefix, Less, VarUnion;
  }

  lemma SplitExample(e0: VarKey, e1: VarKey, e2: VarKey, e3: VarKey, abz: bytea)
    requires abz == [97, 98, 122] && e0 == NodeKey([48], [97, 98]) && e1 == NodeKey([97, 98, 98], [97, 98, 99])
    requires e2 == NodeKey([120, 121, 49], [120, 121, 50]) && e3 == NodeKey([120, 121, 51], [120, 121, 52])
    ensures var l, r := Span([e0, e1]), Span([e2, e3]);
            && SortedOrder([e0, e1, e2, e3], [0, 1, 2, 3], [e0, e1, e2, e3])
            && Consistent(e0, abz, Equal)
            && !Consistent(NodeTruncate(l, SplitLength(l, r)), abz, Equal)
  {
    hide CommonPrefix, Less, Span;
    ExampleSorted(e0, e1, e2, e3);
    hide SortedOrder;
    LessAt(e0.lo, e1.lo, 0);
    LessAt(e2.lo, e3.lo, 2);
    LessAt(e0.hi, e1.hi, 2);
    LessAt(e2.hi, e3.hi, 2);
    SpanOfTwo(e0, e1);
    SpanOfTwo(e2, e3);
    var l := NodeKey(e0.lo, e1.hi);
    LessAt(l.lo, l.hi, 0);
    LessAt(e2.lo, e3.hi, 2);
    assert NodeTruncate(l, 3) == l;
    LessAt(l.hi, abz, 2);
    assert IsPrefix(e0.hi, abz);
  }

  lemma ExampleSorted(e0: VarKey, e1: VarKey, e2: VarKey, e3: VarKey)
    requires e0.Lower() == [48] && e1.Lower() == [97, 98, 98] && e2.Lower() == [120, 121, 49]
             && e3.Lower() == [120, 121, 51]
    ensures SortedOrder([e0, e1, e2, e3], [0, 1, 2, 3], [e0, e1, e2, e3])
  {
    hide CommonPrefix, Less;
    LessAt(e0.Lower(), e1.Lower(), 0);
    LessAt(e0.Lower(), e2.Lower(), 0);
    LessAt(e0.Lower(), e3.Lower(), 0);
    LessAt(e1.Lower(), e2.Lower(), 0);
    LessAt(e1.Lower(), e3.Lower(), 0);
    LessAt(e2.Lower(), e3.Lower(), 2);
  }
}
