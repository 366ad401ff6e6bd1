/** Which values a key still accounts for after any number of truncations, and why searches stay complete. */
module GistCover {
  import opened Lex
  import opened GistVarKeys

  /** The node's upper bound reaches far enough past the common prefix to be used as a prefix test. */
  predicate Open(k: VarKey) {
    |k.Upper()| >= CommonPrefix(k.Lower(), k.Upper()) + 2
  }

  /** The values a key promises to find: those between the bounds, and those extending an open upper bound. */
  predicate Covers(k: VarKey, v: bytea) {
    Leq(k.Lower(), v) && (Leq(v, k.Upper()) || (IsPrefix(k.Upper(), v) && Open(k)))
  }

  /** Bounds in order, as in every key of an index. */
  predicate Ordered(k: VarKey) {
    Leq(k.Lower(), k.Upper())
  }

  // ---- Order and prefixes ----

  /** Between two strings lies nothing that shares less with either than they share with each other. */
  lemma Sandwich(x: seq<int>, y: seq<int>, z: seq<int>)
    requires Leq(x, y) && Leq(y, z)
    ensures CommonPrefix(x, z) <= CommonPrefix(x, y)
    ensures CommonPrefix(x, z) <= CommonPrefix(y, z)
  {
    PrefixIs(y, y, |y|);
    var j, k := CommonPrefix(x, y), CommonPrefix(y, z);
    var m := if j < k then j else k;
    if j != k && x != y && y != z {
      PrefixIs(x, z, m);
    }
  }

  lemma PrefixLeq(p: seq<int>, s: seq<int>)
    requires IsPrefix(p, s)
    ensures Leq(p, s) && CommonPrefix(p, s) == |p|
  {
    PrefixIs(p, s, |p|);
    assert |p| == |s| ==> p == s;
  }

  lemma CommonIsPrefix(p: seq<int>, s: seq<int>)
    requires CommonPrefix(p, s) == |p|
    ensures IsPrefix(p, s)
  {
  }

  /** A value above a truncated bound but not above the bound itself extends the truncated one. */
  lemma BetweenCutAndWhole(u: seq<int>, n: nat, v: seq<int>)
    requires n <= |u| && Leq(v, u) && !Leq(v, u[..n])
    ensures IsPrefix(u[..n], v)
  {
    Trichotomy(v, u[..n]);
    PrefixLeq(u[..n], u);
    Sandwich(u[..n], v, u);
    CommonIsPrefix(u[..n], v);
  }

  /** Cutting both bounds past their common prefix does not change it, nor their order. */
  lemma CutKeepsPrefix(k: VarKey, cpf: nat)
    requires Ordered(k) && CommonPrefix(k.Lower(), k.Upper()) <= cpf
    ensures var t := NodeTruncate(k, cpf);
            CommonPrefix(t.lo, t.hi) == CommonPrefix(k.Lower(), k.Upper()) && Ordered(t)
  {
    var l, u := k.Lower(), k.Upper();
    var p := CommonPrefix(l, u);
    var t := NodeTruncate(k, cpf);
    if l == u {
      PrefixIs(t.lo, t.hi, |t.lo|);
      PrefixIs(l, u, |l|);
    } else {
      PrefixIs(t.lo, t.hi, p);
    }
  }

  /** A leaf key covers its value and nothing else. */
  lemma LeafCovers(v: bytea, w: bytea)
    ensures Covers(LeafKey(v), w) <==> v == w
  {
    PrefixIs(v, v, |v|);
    Trichotomy(v, w);
  }

  // ---- Spans ----

  lemma {:induction false} SpanBounds(keys: seq<VarKey>, i: nat)
    requires i < |keys|
    ensures Leq(Span(keys).lo, keys[i].Lower()) && Leq(keys[i].Upper(), Span(keys).hi)
    decreases |keys|
  {
    if |keys| > 1 {
      var last, before := keys[|keys| - 1], keys[..|keys| - 1];
      var s := Span(before);
      Trichotomy(s.lo, last.Lower());
      Trichotomy(s.hi, last.Upper());
      if i < |keys| - 1 {
        SpanBounds(before, i);
        LeqTransitive(Span(keys).lo, s.lo, keys[i].Lower());
        LeqTransitive(keys[i].Upper(), s.hi, Span(keys).hi);
      }
    }
  }

  lemma SpanOrdered(keys: seq<VarKey>)
    requires keys != [] && forall k <- keys :: Ordered(k)
    ensures Ordered(Span(keys))
  {
    SpanBounds(keys, 0);
    assert keys[0] in keys;
    var s := Span(keys);
    LeqTransitive(s.lo, keys[0].Lower(), keys[0].Upper());
    LeqTransitive(s.lo, keys[0].Upper(), s.hi);
  }

  // ---- One truncation ----

  /** An upper bound u that is a proper prefix of the new bound U' loses the extensions above U', unless what
      U' adds is all 0xFF. */
  predicate Spared(u: bytea, cut: bytea) {
    !(IsPrefix(u, cut) && |u| < |cut|) || forall i :: |u| <= i < |cut| ==> cut[i] == 0xFF
  }

  /** Values between the bounds of some key stay covered by any cut at least two past the common prefix. */
  lemma CutCoversBetween(s: VarKey, cpf: nat, v: bytea)
    requires Ordered(s) && CommonPrefix(s.Lower(), s.Upper()) + 1 <= cpf
    requires Leq(s.Lower(), v) && Leq(v, s.Upper())
    ensures Covers(NodeTruncate(s, cpf), v)
  {
    var t := NodeTruncate(s, cpf);
    CutKeepsPrefix(s, cpf);
    PrefixLeq(t.lo, s.Lower());
    LeqTransitive(t.lo, s.Lower(), v);
    if !Leq(v, t.hi) {
      BetweenCutAndWhole(s.Upper(), |t.hi|, v);
      assert |t.hi| == cpf + 1;
    }
  }

  /** An extension of an open upper bound that lies above the span: the span's upper bound extends it too. */
  lemma AboveSpan(s: VarKey, e: VarKey, v: bytea)
    requires Ordered(e) && Open(e) && Leq(s.Lower(), e.Lower()) && Leq(e.Upper(), s.Upper())
    requires IsPrefix(e.Upper(), v) && !Leq(v, s.Upper())
    ensures IsPrefix(e.Upper(), s.Upper())
    ensures CommonPrefix(s.Lower(), s.Upper()) + 2 <= |e.Upper()|
    ensures Ordered(s)
  {
    var l, u, lo, hi := e.Lower(), e.Upper(), s.Lower(), s.Upper();
    Trichotomy(v, hi);
    PrefixLeq(u, v);
    Sandwich(u, hi, v);
    CommonIsPrefix(u, hi);
    Sandwich(lo, l, u);
    LeqTransitive(lo, l, u);
    LeqTransitive(lo, u, hi);
    PrefixIs(lo, hi, CommonPrefix(lo, u));
  }

  /** What a cut keeps of one key inside the span. */
  lemma CutCovers(s: VarKey, e: VarKey, cpf: nat, v: bytea)
    requires Ordered(s) && Ordered(e) && Leq(s.Lower(), e.Lower()) && Leq(e.Upper(), s.Upper())
    requires CommonPrefix(s.Lower(), s.Upper()) + 1 <= cpf
    requires Open(e) ==> Spared(e.Upper(), NodeTruncate(s, cpf).hi)
    requires Covers(e, v)
    ensures Covers(NodeTruncate(s, cpf), v)
  {
    var t := NodeTruncate(s, cpf);
    LeqTransitive(s.Lower(), e.Lower(), v);
    if Leq(v, s.Upper()) {
      CutCoversBetween(s, cpf, v);
    } else {
      if Leq(v, e.Upper()) {
        LeqTransitive(v, e.Upper(), s.Upper());
      }
      AboveSpan(s, e, v);
      CutKeepsPrefix(s, cpf);
      PrefixLeq(t.lo, s.Lower());
      LeqTransitive(t.lo, s.Lower(), v);
      CutOfExtension(s, e, cpf, v);
    }
  }

  lemma CutOfExtension(s: VarKey, e: VarKey, cpf: nat, v: bytea)
    requires Spared(e.Upper(), NodeTruncate(s, cpf).hi)
    requires IsPrefix(e.Upper(), v) && !Leq(v, s.Upper()) && IsPrefix(e.Upper(), s.Upper())
    requires CommonPrefix(s.Lower(), s.Upper()) + 2 <= |e.Upper()|
    requires CommonPrefix(s.Lower(), s.Upper()) + 1 <= cpf
    ensures var cut := NodeTruncate(s, cpf).hi;
            IsPrefix(cut, v) && |cut| >= CommonPrefix(s.Lower(), s.Upper()) + 2
  {
    var u, cut := e.Upper(), NodeTruncate(s, cpf).hi;
    if |cut| <= |u| {
      assert forall i :: 0 <= i < |cut| ==> cut[i] == s.Upper()[i] == u[i] == v[i];
    } else {
      assert cut[..|u|] == u;
      PrefixLeq(cut, s.Upper());
      if Leq(v, cut) {
        LeqTransitive(v, cut, s.Upper());
      }
      Trichotomy(v, cut);
      var k := CommonPrefix(cut, v);
      assert forall i :: 0 <= i < |u| ==> cut[i] == u[i] == v[i];
      assert k == |cut|;
    }
  }

  // ---- Unions, at any height ----

  /** The union's cut never properly extends an open upper bound it took in. */
  lemma UnionSpares(s: VarKey, e: VarKey)
    requires Ordered(e) && Open(e) && Leq(s.Lower(), e.Lower())
    ensures Spared(e.Upper(), NodeTruncate(s, CommonPrefix(s.Lower(), s.Upper()) + 1).hi)
  {
    hide Less, Leq, CommonPrefix;
    var u, lo, hi := e.Upper(), s.Lower(), s.Upper();
    var cut := NodeTruncate(s, CommonPrefix(lo, hi) + 1).hi;
    if IsPrefix(u, cut) {
      PrefixLeq(cut, hi);
      assert forall i :: 0 <= i < |u| ==> u[i] == cut[i] == hi[i];
      Sandwich(lo, e.Lower(), u);
      PrefixIs(lo, hi, CommonPrefix(lo, u));
    }
  }

  /** gbt_var_union, truncation included, covers whatever any of its inputs covered, truncated keys included. */
  lemma UnionCovers(keys: seq<VarKey>, e: VarKey, v: bytea)
    requires e in keys && (forall k <- keys :: Ordered(k))
    requires Covers(e, v)
    ensures Covers(VarUnion(keys), v)
  {
    hide Covers, Spared, Span, NodeTruncate, Open, Less, Leq, CommonPrefix, Ordered;
    var s := Span(keys);
    var i :| 0 <= i < |keys| && keys[i] == e;
    SpanBounds(keys, i);
    SpanOrdered(keys);
    if Open(e) {
      UnionSpares(s, e);
    }
    CutCovers(s, e, CommonPrefix(s.lo, s.hi) + 1, v);
  }

  lemma UnionOrdered(keys: seq<VarKey>)
    requires keys != [] && (forall k <- keys :: Ordered(k))
    ensures Ordered(VarUnion(keys)) && VarUnion(keys).NodeKey?
  {
    SpanOrdered(keys);
    var s := Span(keys);
    CutKeepsPrefix(s, CommonPrefix(s.lo, s.hi) + 1);
  }

  // ---- Splits ----

  /** One half of a page split: everything its entries covered stays covered. */
  ghost predicate HalfKeeps(keys: seq<VarKey>, cpf: nat)
    requires keys != []
  {
    forall e, v :: e in keys && Covers(e, v) ==> Covers(NodeTruncate(Span(keys), cpf), v)
  }

  /** A value that a cut loses: it extends u, and leaves the cut upward at its first byte that is not 0xFF. */
  lemma Escapes(k: VarKey, cut: VarKey, i: nat)
    requires Ordered(k) && Open(k) && IsPrefix(k.Upper(), cut.Upper())
    requires |k.Upper()| <= i < |cut.Upper()| && cut.Upper()[i] != 0xFF
    ensures var v := cut.Upper()[..i] + [0xFF]; Covers(k, v) && !Covers(cut, v)
  {
    var u, hi := k.Upper(), cut.Upper();
    var v: bytea := hi[..i] + [0xFF];
    assert forall j :: 0 <= j < |u| ==> u[j] == hi[j] == v[j];
    PrefixLeq(u, v);
    LeqTransitive(k.Lower(), u, v);
    PrefixIs(hi, v, i);
    Trichotomy(hi, v);
    assert !IsPrefix(hi, v) by {
      assert v[i] != hi[i];
    }
  }

  ghost predicate AllSpared(keys: seq<VarKey>, cut: VarKey) {
    forall e <- keys :: Open(e) ==> Spared(e.Upper(), cut.Upper())
  }

  lemma SparedHalfKeeps(keys: seq<VarKey>, cpf: nat, e: VarKey, v: bytea)
    requires keys != [] && (forall k <- keys :: Ordered(k))
    requires CommonPrefix(Span(keys).lo, Span(keys).hi) + 1 <= cpf
    requires AllSpared(keys, NodeTruncate(Span(keys), cpf))
    requires e in keys && Covers(e, v)
    ensures Covers(NodeTruncate(Span(keys), cpf), v)
  {
    var i :| 0 <= i < |keys| && keys[i] == e;
    SpanBounds(keys, i);
    SpanOrdered(keys);
    CutCovers(Span(keys), e, cpf, v);
  }

  lemma UnsparedHalfLoses(keys: seq<VarKey>, cpf: nat) returns (e: VarKey, v: bytea)
    requires keys != [] && (forall k <- keys :: Ordered(k))
    requires !AllSpared(keys, NodeTruncate(Span(keys), cpf))
    ensures e in keys && Covers(e, v) && !Covers(NodeTruncate(Span(keys), cpf), v)
  {
    var cut := NodeTruncate(Span(keys), cpf);
    e :| e in keys && Open(e) && !Spared(e.Upper(), cut.hi);
    var i :| |e.Upper()| <= i < |cut.hi| && cut.hi[i] != 0xFF;
    Escapes(e, cut, i);
    v := cut.hi[..i] + [0xFF];
  }

  /** A split half keeps all coverage exactly when every open upper bound among its entries is spared by the cut,
      which the other half's common prefix can make longer than this half would choose. */
  lemma SplitHalfExact(keys: seq<VarKey>, cpf: nat)
    requires keys != [] && (forall k <- keys :: Ordered(k))
    requires CommonPrefix(Span(keys).lo, Span(keys).hi) + 1 <= cpf
    ensures HalfKeeps(keys, cpf) <==> AllSpared(keys, NodeTruncate(Span(keys), cpf))
  {
    hide Covers, Spared, NodeTruncate;
    var cut := NodeTruncate(Span(keys), cpf);
    if AllSpared(keys, cut) {
      forall e, v | e in keys && Covers(e, v) ensures Covers(cut, v) {
        SparedHalfKeeps(keys, cpf, e, v);
      }
    } else {
      var e, v := UnsparedHalfLoses(keys, cpf);
    }
  }

  /** Splitting a leaf page: exact values are never open, so both halves cover all their entries. */
  lemma LeafSplitCovers(arr: seq<VarKey>, half: nat, i: nat)
    requires 0 < half < |arr| && i < |arr| && (forall k <- arr :: k.LeafKey?)
    ensures var l, r := Span(arr[..half]), Span(arr[half..]);
            var n := SplitLength(l, r);
            Covers(NodeTruncate(if i < half then l else r, n), arr[i].value)
  {
    var l, r := Span(arr[..half]), Span(arr[half..]);
    var n := SplitLength(l, r);
    var keys := if i < half then arr[..half] else arr[half..];
    forall k | k in keys ensures Ordered(k) && !Open(k) {
      PrefixIs(k.Lower(), k.Upper(), |k.Lower()|);
    }
    assert arr[i] in keys by {
      assert arr[i] == if i < half then arr[..half][i] else arr[half..][i - half];
    }
    SplitHalfExact(keys, n);
    LeafCovers(arr[i].value, arr[i].value);
  }

  // ---- Searching ----

  /** A node key that covers a matching value is never turned down, whatever the strategy. */
  lemma ConsistentFinds(k: VarKey, v: bytea, query: bytea, strategy: Strategy)
    requires k.NodeKey? && Covers(k, v) && Satisfies(v, query, strategy)
    ensures Consistent(k, query, strategy)
  {
    Trichotomy(query, k.hi);
    match strategy
    case LessEqual => LeqTransitive(k.lo, v, query);
    case Less_ => LeqTransitive(k.lo, v, query);
    case Equal =>
    case Greater => QueryBelow(k, v, query);
    case GreaterEqual => QueryBelow(k, v, query);
    case NotEqual =>
      PrefixIs(query, query, |query|);
      LeafCovers(query, v);
    case Unknown =>
  }

  lemma QueryBelow(k: VarKey, v: bytea, query: bytea)
    requires k.NodeKey? && Covers(k, v) && Leq(query, v)
    ensures Leq(query, k.hi) || PrefixMatch(k, query)
  {
    if Leq(v, k.hi) {
      LeqTransitive(query, v, k.hi);
    } else if !Leq(query, k.hi) {
      Trichotomy(query, k.hi);
      PrefixLeq(k.hi, v);
      Sandwich(k.hi, query, v);
      CommonIsPrefix(k.hi, query);
    }
  }
}
