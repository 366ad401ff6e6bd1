/** Insertions into GiST trees over bytea: downlinks widened by unions, full pages split, up to a new root. */
module GistInsert {
  import opened Wrappers
  import opened Lex
  import opened GistVarKeys
  import opened GistCover
  import opened GistTree

  // ---- Splitting a page ----

  /** The order of the sort in gbt_var_picksplit: by lower, then upper bound. */
  predicate NotAfter(a: VarKey, b: VarKey) {
    Leq(a.Lower(), b.Lower()) && (a.Lower() == b.Lower() ==> Leq(a.Upper(), b.Upper()))
  }

  /** What the sort may make of the entries of a page. */
  ghost predicate IsSortOf(ts: seq<Tree>, us: seq<Tree>) {
    multiset(ts) == multiset(us) && forall i, j :: 0 <= i < j < |us| ==> NotAfter(KeyOf(us[i]), KeyOf(us[j]))
  }

  ghost predicate Sorts(qsort: seq<Tree> -> seq<Tree>) {
    forall ts :: IsSortOf(ts, qsort(ts))
  }

  /** The downlink key of one half of a split, cut at the length both halves share. */
  function HalfKey(half: seq<Tree>, other: seq<Tree>): VarKey
    requires half != [] && other != []
  {
    var s := Span(KeysOf(half));
    NodeTruncate(s, SplitLength(s, Span(KeysOf(other))))
  }

  /** The two halves of the sorted entries. */
  ghost function Halves(ts: seq<Tree>, qsort: seq<Tree> -> seq<Tree>): (r: (seq<Tree>, seq<Tree>))
    requires |ts| >= 2 && Sorts(qsort)
    ensures 0 < |r.0| < |ts| && 0 < |r.1| < |ts|
    ensures multiset(r.0 + r.1) == multiset(ts)
  {
    var us := qsort(ts);
    assert IsSortOf(ts, us);
    assert |us| == |ts| by { assert |multiset(us)| == |multiset(ts)|; }
    var half := |us| / 2;
    assert us[..half] + us[half..] == us;
    (us[..half], us[half..])
  }

  /** gistSplit: split until every part fits a page; an error if a single entry does not. */
  ghost function Split(ts: seq<Tree>, fits: seq<Tree> -> bool, qsort: seq<Tree> -> seq<Tree>): (r: Option<seq<Tree>>)
    requires ts != [] && Sorts(qsort)
    ensures r.Some? ==> r.value != []
    decreases |ts|
  {
    if |ts| == 1 then None else
    var (l, r) := Halves(ts, qsort);
    var right := if fits(r) then Some([Page(HalfKey(r, l), r)]) else Split(r, fits, qsort);
    var left := if fits(l) then Some([Page(HalfKey(l, r), l)]) else Split(l, fits, qsort);
    if left.None? || right.None? then None else Some(left.value + right.value)
  }

  /** gistplacetopage below the root: the page under its key if the entries fit, otherwise the pages of its split. */
  ghost function Place(key: VarKey, ts: seq<Tree>, fits: seq<Tree> -> bool, qsort: seq<Tree> -> seq<Tree>)
    : (r: Option<seq<Tree>>)
    requires ts != [] && Sorts(qsort)
    ensures r.Some? ==> r.value != []
  {
    if fits(ts) then Some([Page(key, ts)]) else Split(ts, fits, qsort)
  }

  // ---- Insertion ----

  /** The page whose child the insertion goes on in; none if the value is put on this very page. */
  predicate Descends(t: Tree, path: seq<nat>) {
    t.Page? && path != [] && path[0] < |t.children| && t.children[path[0]].Page?
  }

  /** The entries but one. */
  function Without(ts: seq<Tree>, i: nat): seq<Tree>
    requires i < |ts|
  {
    ts[..i] + ts[i + 1..]
  }

  /** A downlink overwritten in place, or replaced by those of a split at the end of the page. */
  function Replaced(ts: seq<Tree>, i: nat, us: seq<Tree>): (r: seq<Tree>)
    requires i < |ts| && us != []
    ensures r != []
  {
    if |us| == 1 then ts[i := us[0]] else Without(ts, i) + us
  }

  /** Insert v on the page reached by path: every downlink on the way is widened by gbt_var_union, and a page that
      becomes too full is split, its downlinks going to the page above. The pages that take the place of t. */
  ghost function Insert(t: Tree, path: seq<nat>, v: bytea, fits: seq<Tree> -> bool, qsort: seq<Tree> -> seq<Tree>)
    : (r: Option<seq<Tree>>)
    requires t.Page? && Sorts(qsort)
    ensures r.Some? ==> r.value != []
    decreases t
  {
    var key := VarUnion([t.key, LeafKey(v)]);
    if !Descends(t, path) then Place(key, t.children + [Entry(v)], fits, qsort) else
    var below := Insert(t.children[path[0]], path[1..], v, fits, qsort);
    if below.None? then None
    else Place(key, Replaced(t.children, path[0], below.value), fits, qsort)
  }

  /** The same at the root: when it is split, the parts go below a new root. */
  ghost function InsertAtRoot(t: Tree, path: seq<nat>, v: bytea, fits: seq<Tree> -> bool, qsort: seq<Tree> -> seq<Tree>)
    : Option<Tree>
    requires t.Page? && Sorts(qsort)
  {
    var parts := Insert(t, path, v, fits, qsort);
    if parts.None? then None
    else if |parts.value| == 1 then Some(parts.value[0])
    else Some(Page(VarUnion(KeysOf(parts.value)), parts.value))
  }

  // ---- Nothing is lost, nothing is added ----

  /** The values below some entries, counted. */
  function Bag(ts: seq<Tree>): multiset<bytea> {
    multiset(AllLeaves(ts))
  }

  lemma {:induction false} LeavesConcat(ts: seq<Tree>, us: seq<Tree>)
    ensures AllLeaves(ts + us) == AllLeaves(ts) + AllLeaves(us)
  {
    if ts == [] {
      assert ts + us == us;
    } else {
      LeavesConcat(ts[1..], us);
      TailOfConcat(ts, us);
      assert AllLeaves(ts + us) == Leaves(ts[0]) + AllLeaves(ts[1..] + us);
      hide *;
      Assoc(Leaves(ts[0]), AllLeaves(ts[1..]), AllLeaves(us));
      assert AllLeaves(ts) == Leaves(ts[0]) + AllLeaves(ts[1..]) by { FirstLeaves(ts); }
    }
  }

  lemma TailOfConcat(ts: seq<Tree>, us: seq<Tree>)
    requires ts != []
    ensures (ts + us)[0] == ts[0] && (ts + us)[1..] == ts[1..] + us
  {
  }

  lemma FirstLeaves(ts: seq<Tree>)
    requires ts != []
    ensures AllLeaves(ts) == Leaves(ts[0]) + AllLeaves(ts[1..])
  {
  }

  lemma Assoc(a: seq<bytea>, b: seq<bytea>, c: seq<bytea>)
    ensures a + b + c == a + (b + c)
  {
  }

  lemma BagConcat(ts: seq<Tree>, us: seq<Tree>)
    ensures Bag(ts + us) == Bag(ts) + Bag(us)
  {
    LeavesConcat(ts, us);
  }

  lemma BagOfOne(t: Tree)
    ensures Bag([t]) == multiset(Leaves(t))
  {
    assert [t][1..] == [];
    assert AllLeaves([t]) == Leaves(t);
  }

  lemma BagWithout(us: seq<Tree>, i: nat)
    requires i < |us|
    ensures Bag(us) == multiset(Leaves(us[i])) + Bag(Without(us, i))
    ensures multiset(us) == multiset{us[i]} + multiset(Without(us, i))
  {
    assert us == us[..i] + ([us[i]] + us[i + 1..]);
    BagConcat(us[..i], [us[i]] + us[i + 1..]);
    BagConcat([us[i]], us[i + 1..]);
    BagConcat(us[..i], us[i + 1..]);
    BagOfOne(us[i]);
  }

  /** Entries in another order have the same values below them. */
  lemma {:induction false} BagOfPermutation(ts: seq<Tree>, us: seq<Tree>)
    requires multiset(ts) == multiset(us)
    ensures Bag(ts) == Bag(us)
    decreases |ts|
  {
    hide Bag, Leaves, Without;
    if ts == [] {
      assert |multiset(us)| == 0;
    } else {
      var i := IndexOf(us, ts[0]);
      BagWithout(ts, 0);
      BagWithout(us, i);
      Cancel(multiset{ts[0]}, multiset(Without(ts, 0)), multiset(Without(us, i)));
      WithoutShorter(ts, 0);
      BagOfPermutation(Without(ts, 0), Without(us, i));
    }
  }

  lemma WithoutShorter(ts: seq<Tree>, i: nat)
    requires i < |ts|
    ensures |Without(ts, i)| < |ts|
  {
  }

  lemma IndexOf(us: seq<Tree>, t: Tree) returns (i: nat)
    requires t in multiset(us)
    ensures i < |us| && us[i] == t
  {
    i :| 0 <= i < |us| && us[i] == t;
  }

  lemma Cancel<T>(x: multiset<T>, a: multiset<T>, b: multiset<T>)
    requires x + a == x + b
    ensures a == b
  {
    forall u ensures a[u] == b[u] {
      assert (x + a)[u] == (x + b)[u];
    }
  }

  lemma {:induction false} SplitKeepsBag(ts: seq<Tree>, fits: seq<Tree> -> bool, qsort: seq<Tree> -> seq<Tree>)
    requires ts != [] && Sorts(qsort) && Split(ts, fits, qsort).Some?
    ensures Bag(Split(ts, fits, qsort).value) == Bag(ts)
    decreases |ts|
  {
    var (l, r) := Halves(ts, qsort);
    var right := if fits(r) then Some([Page(HalfKey(r, l), r)]) else Split(r, fits, qsort);
    var left := if fits(l) then Some([Page(HalfKey(l, r), l)]) else Split(l, fits, qsort);
    if fits(r) { BagOfOne(right.value[0]); } else { SplitKeepsBag(r, fits, qsort); }
    if fits(l) { BagOfOne(left.value[0]); } else { SplitKeepsBag(l, fits, qsort); }
    BagConcat(left.value, right.value);
    BagConcat(l, r);
    BagOfPermutation(l + r, ts);
  }

  lemma PlaceKeepsBag(key: VarKey, ts: seq<Tree>, fits: seq<Tree> -> bool, qsort: seq<Tree> -> seq<Tree>)
    requires ts != [] && Sorts(qsort) && Place(key, ts, fits, qsort).Some?
    ensures Bag(Place(key, ts, fits, qsort).value) == Bag(ts)
  {
    hide Split, Bag;
    if fits(ts) {
      PageBag(key, ts);
    } else {
      SplitKeepsBag(ts, fits, qsort);
    }
  }

  lemma PageBag(key: VarKey, ts: seq<Tree>)
    ensures Bag([Page(key, ts)]) == Bag(ts)
  {
    BagOfOne(Page(key, ts));
  }

  lemma ReplacedBag(ts: seq<Tree>, i: nat, us: seq<Tree>)
    requires i < |ts| && us != []
    ensures Bag(Replaced(ts, i, us)) + multiset(Leaves(ts[i])) == Bag(ts) + Bag(us)
  {
    hide Bag, Leaves;
    BagWithout(ts, i);
    if |us| == 1 {
      var r := ts[i := us[0]];
      BagWithout(r, i);
      assert Without(r, i) == Without(ts, i);
      assert us == [us[0]];
      BagOfOne(us[0]);
    } else {
      BagConcat(Without(ts, i), us);
    }
  }

  lemma Exchange(after: multiset<bytea>, child: multiset<bytea>, before: multiset<bytea>, below: multiset<bytea>,
                 v: bytea)
    requires after + child == before + below && below == child + multiset{v}
    ensures after == before + multiset{v}
  {
    forall u ensures after[u] == (before + multiset{v})[u] {
      assert (after + child)[u] == (before + below)[u];
    }
  }

  /** Whatever pages are split on the way, an insertion that succeeds adds exactly the new value. */
  lemma {:induction false} InsertAdds(t: Tree, path: seq<nat>, v: bytea, fits: seq<Tree> -> bool,
                                      qsort: seq<Tree> -> seq<Tree>)
    requires t.Page? && Sorts(qsort) && Insert(t, path, v, fits, qsort).Some?
    ensures Bag(Insert(t, path, v, fits, qsort).value) == multiset(Leaves(t)) + multiset{v}
    decreases t
  {
    hide Bag, Place, Replaced;
    var key := VarUnion([t.key, LeafKey(v)]);
    PageBag(t.key, t.children);
    BagOfOne(t);
    if Descends(t, path) {
      var i := path[0];
      InsertAdds(t.children[i], path[1..], v, fits, qsort);
      var below := Insert(t.children[i], path[1..], v, fits, qsort).value;
      ReplacedBag(t.children, i, below);
      Exchange(Bag(Replaced(t.children, i, below)), multiset(Leaves(t.children[i])), Bag(t.children), Bag(below), v);
      PlaceKeepsBag(key, Replaced(t.children, i, below), fits, qsort);
    } else {
      BagConcat(t.children, [Entry(v)]);
      BagOfOne(Entry(v));
      PlaceKeepsBag(key, t.children + [Entry(v)], fits, qsort);
    }
  }

  // ---- Every key still covers what is below it ----

  ghost predicate AllSound(ts: seq<Tree>) {
    forall t <- ts :: Sound(t)
  }

  /** The cut of this half spares the open upper bounds in it. */
  ghost predicate HalfSpares(half: seq<Tree>, other: seq<Tree>)
    requires half != [] && other != []
  {
    AllSpared(KeysOf(half), HalfKey(half, other))
  }

  /** All cuts made in splitting these entries spare the open upper bounds. */
  ghost predicate SplitSpares(ts: seq<Tree>, fits: seq<Tree> -> bool, qsort: seq<Tree> -> seq<Tree>)
    requires ts != [] && Sorts(qsort)
    decreases |ts|
  {
    |ts| >= 2 ==>
      var (l, r) := Halves(ts, qsort);
      && (if fits(l) then HalfSpares(l, r) else SplitSpares(l, fits, qsort))
      && (if fits(r) then HalfSpares(r, l) else SplitSpares(r, fits, qsort))
  }

  /** All cuts made in splitting internal pages during an insertion do; for leaf pages nothing is asked. */
  ghost predicate InsertSpares(t: Tree, path: seq<nat>, v: bytea, fits: seq<Tree> -> bool,
                               qsort: seq<Tree> -> seq<Tree>)
    requires t.Page? && Sorts(qsort)
    decreases t
  {
    if !Descends(t, path) then
      (forall c <- t.children :: c.Entry?) || fits(t.children + [Entry(v)])
      || SplitSpares(t.children + [Entry(v)], fits, qsort)
    else
      var below := Insert(t.children[path[0]], path[1..], v, fits, qsort);
      && InsertSpares(t.children[path[0]], path[1..], v, fits, qsort)
      && (below.Some? ==>
            var ts := Replaced(t.children, path[0], below.value);
            fits(ts) || SplitSpares(ts, fits, qsort))
  }

  lemma SortedHalf(ts: seq<Tree>, half: seq<Tree>, rest: seq<Tree>)
    requires AllSound(ts) && multiset(half + rest) == multiset(ts)
    ensures AllSound(half) && AllSound(rest)
  {
    forall t | t in half || t in rest ensures Sound(t) {
      assert t in half + rest;
      assert t in multiset(ts);
    }
  }

  /** A half of a split whose cut spares is a sound page. */
  lemma HalfIsSound(half: seq<Tree>, other: seq<Tree>)
    requires half != [] && other != [] && AllSound(half) && HalfSpares(half, other)
    ensures Sound(Page(HalfKey(half, other), half))
  {
    var keys, key := KeysOf(half), HalfKey(half, other);
    var cpf := SplitLength(Span(keys), Span(KeysOf(other)));
    ChildKeysOrdered(half);
    SpanOrdered(keys);
    CutKeepsPrefix(Span(keys), cpf);
    hide Covers, Ordered, Span, NodeTruncate, AllSpared, CommonPrefix;
    forall v | v in Leaves(Page(key, half)) ensures Covers(key, v) {
      var i := LeavesSplit(half, v);
      assert half[i] in half;
      KeyCovers(half[i], v);
      assert keys[i] in keys;
      SparedHalfKeeps(keys, cpf, keys[i], v);
    }
  }

  lemma ChildKeysOrdered(ts: seq<Tree>)
    requires AllSound(ts)
    ensures forall k <- KeysOf(ts) :: Ordered(k)
  {
    forall k | k in KeysOf(ts) ensures Ordered(k) {
      var i :| 0 <= i < |ts| && KeysOf(ts)[i] == k;
      assert ts[i] in ts;
      if ts[i].Entry? {
        LeafCovers(ts[i].v, ts[i].v);
      }
    }
  }

  lemma {:induction false} SplitIsSound(ts: seq<Tree>, fits: seq<Tree> -> bool, qsort: seq<Tree> -> seq<Tree>)
    requires ts != [] && Sorts(qsort) && Split(ts, fits, qsort).Some? && AllSound(ts) && SplitSpares(ts, fits, qsort)
    ensures AllSound(Split(ts, fits, qsort).value)
    decreases |ts|
  {
    hide Sound, HalfSpares, HalfKey, Sorts;
    var (l, r) := Halves(ts, qsort);
    SortedHalf(ts, l, r);
    if fits(r) { HalfIsSound(r, l); } else { SplitIsSound(r, fits, qsort); }
    if fits(l) { HalfIsSound(l, r); } else { SplitIsSound(l, fits, qsort); }
  }

  /** Exact values are never open, so leaf pages can be split anywhere. */
  lemma {:induction false} LeafSplitSpares(ts: seq<Tree>, fits: seq<Tree> -> bool, qsort: seq<Tree> -> seq<Tree>)
    requires ts != [] && Sorts(qsort) && forall t <- ts :: t.Entry?
    ensures SplitSpares(ts, fits, qsort)
    decreases |ts|
  {
    if |ts| >= 2 {
      hide Sorts, HalfKey;
      var (l, r) := Halves(ts, qsort);
      EntriesOnly(ts, l, r);
      EntriesSpared(l, HalfKey(l, r));
      EntriesSpared(r, HalfKey(r, l));
      if !fits(l) { LeafSplitSpares(l, fits, qsort); }
      if !fits(r) { LeafSplitSpares(r, fits, qsort); }
    }
  }

  lemma EntriesOnly(ts: seq<Tree>, half: seq<Tree>, rest: seq<Tree>)
    requires multiset(half + rest) == multiset(ts) && forall t <- ts :: t.Entry?
    ensures forall t :: t in half || t in rest ==> t.Entry?
  {
    forall t | t in half || t in rest ensures t.Entry? {
      assert t in half + rest;
      assert t in multiset(ts);
    }
  }

  lemma EntriesSpared(ts: seq<Tree>, cut: VarKey)
    requires forall t <- ts :: t.Entry?
    ensures AllSpared(KeysOf(ts), cut)
  {
    forall k | k in KeysOf(ts) ensures !Open(k) {
      var i :| 0 <= i < |ts| && KeysOf(ts)[i] == k;
      assert ts[i] in ts;
      PrefixIs(k.Lower(), k.Upper(), |k.Lower()|);
    }
  }

  /** Insertion keeps the tree sound, whatever leaf pages it splits and wherever it puts the value, as long as the cuts
      it makes in splitting internal pages spare the open upper bounds. */
  lemma {:induction false} InsertKeepsSound(t: Tree, path: seq<nat>, v: bytea, fits: seq<Tree> -> bool,
                                            qsort: seq<Tree> -> seq<Tree>)
    requires Sound(t) && t.Page? && Sorts(qsort) && Insert(t, path, v, fits, qsort).Some?
    requires InsertSpares(t, path, v, fits, qsort)
    ensures AllSound(Insert(t, path, v, fits, qsort).value)
    decreases t
  {
    hide Covers, Ordered, VarUnion, Bag, Split, SplitSpares, Sorts, Replaced;
    var key := VarUnion([t.key, LeafKey(v)]);
    WidenedKey(t.key, v);
    if Descends(t, path) {
      var i := path[0];
      assert t.children[i] in t.children;
      InsertKeepsSound(t.children[i], path[1..], v, fits, qsort);
      InsertAdds(t.children[i], path[1..], v, fits, qsort);
      var below := Insert(t.children[i], path[1..], v, fits, qsort).value;
      var ts := Replaced(t.children, i, below);
      ReplacedBag(t.children, i, below);
      Exchange(Bag(ts), multiset(Leaves(t.children[i])), Bag(t.children), Bag(below), v);
      ReplacedSound(t.children, i, below);
      PlaceIsSound(t, key, ts, v, fits, qsort);
    } else {
      var ts := t.children + [Entry(v)];
      BagConcat(t.children, [Entry(v)]);
      BagOfOne(Entry(v));
      if (forall c <- t.children :: c.Entry?) {
        LeafSplitSpares(ts, fits, qsort);
      }
      PlaceIsSound(t, key, ts, v, fits, qsort);
    }
  }

  lemma ReplacedSound(ts: seq<Tree>, i: nat, us: seq<Tree>)
    requires i < |ts| && us != [] && AllSound(ts) && AllSound(us)
    ensures AllSound(Replaced(ts, i, us))
  {
    hide Sound;
    assert forall t <- Replaced(ts, i, us) :: t in ts || t in us;
  }

  lemma PlaceIsSound(t: Tree, key: VarKey, ts: seq<Tree>, v: bytea, fits: seq<Tree> -> bool,
                     qsort: seq<Tree> -> seq<Tree>)
    requires Sound(t) && t.Page? && AllSound(ts) && ts != [] && Bag(ts) == Bag(t.children) + multiset{v}
    requires key.NodeKey? && Ordered(key) && Covers(key, v) && forall x :: Covers(t.key, x) ==> Covers(key, x)
    requires Sorts(qsort) && Place(key, ts, fits, qsort).Some? && (fits(ts) || SplitSpares(ts, fits, qsort))
    ensures AllSound(Place(key, ts, fits, qsort).value)
  {
    if fits(ts) {
      forall x | x in Leaves(Page(key, ts)) ensures Covers(key, x) {
        assert x in Bag(ts);
        assert x in Bag(t.children) || x == v;
        assert x in Leaves(t) || x == v;
      }
    } else {
      SplitIsSound(ts, fits, qsort);
    }
  }

  lemma WidenedKey(key: VarKey, v: bytea)
    requires Ordered(key)
    ensures var w := VarUnion([key, LeafKey(v)]);
            w.NodeKey? && Ordered(w) && Covers(w, v) && forall x :: Covers(key, x) ==> Covers(w, x)
  {
    var keys := [key, LeafKey(v)];
    LeafCovers(v, v);
    assert forall k <- keys :: Ordered(k);
    UnionOrdered(keys);
    assert keys[1] in keys && keys[0] in keys;
    UnionCovers(keys, keys[1], v);
    forall x | Covers(key, x) ensures Covers(VarUnion(keys), x) {
      UnionCovers(keys, key, x);
    }
  }

  /** The root above the parts is sound when they are. */
  lemma RootIsSound(parts: seq<Tree>)
    requires parts != [] && AllSound(parts)
    ensures Sound(Page(VarUnion(KeysOf(parts)), parts))
  {
    var keys, t := KeysOf(parts), Page(VarUnion(KeysOf(parts)), parts);
    ChildKeysOrdered(parts);
    UnionOrdered(keys);
    hide Covers, Ordered, VarUnion;
    forall v | v in Leaves(t) ensures Covers(t.key, v) {
      var i := LeavesSplit(parts, v);
      assert parts[i] in parts;
      KeyCovers(parts[i], v);
      assert keys[i] in keys;
      UnionCovers(keys, keys[i], v);
    }
  }

  /** Scans after an insertion, a new root included: exactly the matching ones of the old rows and the new one. */
  lemma ScanAfterInsert(t: Tree, path: seq<nat>, v: bytea, fits: seq<Tree> -> bool, qsort: seq<Tree> -> seq<Tree>,
                        query: bytea, strategy: Strategy)
    requires Sound(t) && t.Page? && Sorts(qsort) && InsertAtRoot(t, path, v, fits, qsort).Some?
    requires InsertSpares(t, path, v, fits, qsort)
    ensures var t' := InsertAtRoot(t, path, v, fits, qsort).value;
            && Sound(t')
            && multiset(Search(t', query, strategy)) == multiset(Matching(Leaves(t) + [v], query, strategy))
  {
    hide Sound, Search, Matching, VarUnion, Bag, Insert;
    var parts := Insert(t, path, v, fits, qsort).value;
    var t' := InsertAtRoot(t, path, v, fits, qsort).value;
    InsertKeepsSound(t, path, v, fits, qsort);
    InsertAdds(t, path, v, fits, qsort);
    if |parts| == 1 {
      assert parts == [parts[0]] && parts[0] in parts;
    } else {
      RootIsSound(parts);
      PageBag(t'.key, parts);
    }
    BagOfOne(t');
    SearchIsExact(t', query, strategy);
    SameMatching(Leaves(t'), Leaves(t) + [v], query, strategy);
  }

  /** Which rows match does not depend on their order. */
  lemma {:induction false} MatchingCounts(vs: seq<bytea>, query: bytea, strategy: Strategy, x: bytea)
    ensures multiset(Matching(vs, query, strategy))[x] == if Satisfies(x, query, strategy) then multiset(vs)[x] else 0
  {
    hide Satisfies;
    if vs != [] {
      MatchingCounts(vs[1..], query, strategy, x);
      assert vs == [vs[0]] + vs[1..];
    }
  }

  lemma SameMatching(vs: seq<bytea>, ws: seq<bytea>, query: bytea, strategy: Strategy)
    requires multiset(vs) == multiset(ws)
    ensures multiset(Matching(vs, query, strategy)) == multiset(Matching(ws, query, strategy))
  {
    forall x ensures multiset(Matching(vs, query, strategy))[x] == multiset(Matching(ws, query, strategy))[x] {
      MatchingCounts(vs, query, strategy, x);
      MatchingCounts(ws, query, strategy, x);
    }
  }
}
