/** GiST keys over bytea: a leaf key is one value, a node key a lower and an upper string cut a little past
    their common prefix. Cutting the upper string makes it smaller than values below the node; the prefix
    match of the consistent function has to make up for that, level after level. */
module GistVarKeys {
  import opened Wrappers
  import opened Lex

  type bytea = seq<byte>

  datatype VarKey = LeafKey(value: bytea) | NodeKey(lo: bytea, hi: bytea) {
    function Lower(): bytea { if LeafKey? then value else lo }
    function Upper(): bytea { if LeafKey? then value else hi }
  }

  datatype Strategy = Less_ | LessEqual | Equal | GreaterEqual | Greater | NotEqual | Unknown

  function Min(a: nat, b: nat): nat { if a < b then a else b }
  function Max(a: nat, b: nat): nat { if a < b then b else a }

  predicate IsPrefix(p: seq<int>, s: seq<int>) {
    |p| <= |s| && s[..|p|] == p
  }

  // ---- What the routines compute ----

  /** gbt_var_node_truncate: keep cpf + 1 bytes of either bound. */
  function NodeTruncate(k: VarKey, cpf: nat): VarKey {
    NodeKey(k.Lower()[..Min(|k.Lower()|, cpf + 1)], k.Upper()[..Min(|k.Upper()|, cpf + 1)])
  }

  function LexMin(a: bytea, b: bytea): bytea { if Less(b, a) then b else a }
  function LexMax(a: bytea, b: bytea): bytea { if Less(a, b) then b else a }

  /** The smallest lower and the largest upper bound of some keys. */
  function Span(keys: seq<VarKey>): (r: VarKey)
    requires keys != []
    ensures r.NodeKey?
  {
    var last := keys[|keys| - 1];
    if |keys| == 1 then NodeKey(last.Lower(), last.Upper()) else
    var before := Span(keys[..|keys| - 1]);
    NodeKey(LexMin(before.lo, last.Lower()), LexMax(before.hi, last.Upper()))
  }

  /** gbt_var_union: the span cut two bytes past its own common prefix. */
  function VarUnion(keys: seq<VarKey>): VarKey
    requires keys != []
  {
    var s := Span(keys);
    NodeTruncate(s, CommonPrefix(s.lo, s.hi) + 1)
  }

  predicate PrefixMatch(k: VarKey, query: bytea) {
    IsPrefix(k.Lower(), query) || IsPrefix(k.Upper(), query)
  }

  /** gbt_var_consistent, for a leaf key and for a node key. */
  predicate Consistent(k: VarKey, query: bytea, strategy: Strategy) {
    match strategy
    case LessEqual =>
      if k.LeafKey? then Leq(k.Lower(), query) else Leq(k.Lower(), query) || PrefixMatch(k, query)
    case Less_ =>
      if k.LeafKey? then Less(k.Lower(), query) else Leq(k.Lower(), query) || PrefixMatch(k, query)
    case Equal =>
      if k.LeafKey? then query == k.Lower()
      else (Leq(k.Lower(), query) && Leq(query, k.Upper())) || PrefixMatch(k, query)
    case Greater =>
      if k.LeafKey? then Less(query, k.Upper()) else Leq(query, k.Upper()) || PrefixMatch(k, query)
    case GreaterEqual =>
      if k.LeafKey? then Leq(query, k.Upper()) else Leq(query, k.Upper()) || PrefixMatch(k, query)
    case NotEqual =>
      !(query == k.Lower() && query == k.Upper())
    case Unknown => false
  }

  /** The operator an index condition stands for. */
  predicate Satisfies(v: bytea, query: bytea, strategy: Strategy) {
    match strategy
    case LessEqual => Leq(v, query)
    case Less_ => Less(v, query)
    case Equal => v == query
    case Greater => Less(query, v)
    case GreaterEqual => Leq(query, v)
    case NotEqual => v != query
    case Unknown => false
  }

  // ---- The loops ----

  /** gbt_var_node_cp_len for single-byte encodings. */
  method NodeCpLen(node: VarKey) returns (len: nat)
    ensures len == CommonPrefix(node.Lower(), node.Upper())
  {
    var p1, p2 := node.Lower(), node.Upper();
    var i: nat := 0;
    var ml := Min(|p1|, |p2|);
    while i < ml
      invariant i <= ml
      invariant forall j :: 0 <= j < i ==> p1[j] == p2[j]
    {
      if p1[i] != p2[i] {
        PrefixIs(p1, p2, i);
        return i;
      }
      i := i + 1;
    }
    PrefixIs(p1, p2, ml);
    return ml;
  }

  /** gbt_var_bin_union: widen the key under construction, a Datum that is 0 before the first entry, by one more. */
  method BinUnion(u: Option<VarKey>, e: VarKey) returns (r: VarKey)
    ensures u.None? ==> r == NodeKey(e.Lower(), e.Upper())
    ensures u.Some? ==>
              r.Lower() == LexMin(u.value.Lower(), e.Lower()) && r.Upper() == LexMax(u.value.Upper(), e.Upper())
    ensures u.Some? && u.value.NodeKey? ==> r.NodeKey?
  {
    if u.Some? {
      var nr := NodeKey(u.value.Lower(), u.value.Upper());
      var update := false;
      if Compare(u.value.Lower(), e.Lower()) > 0 {
        nr := nr.(lo := e.Lower());
        update := true;
      }
      if Compare(u.value.Upper(), e.Upper()) < 0 {
        nr := nr.(hi := e.Upper());
        update := true;
      }
      return if update then nr else u.value;
    } else {
      return NodeKey(e.Lower(), e.Upper());
    }
  }

  method Union(entryvec: seq<VarKey>) returns (r: VarKey)
    requires entryvec != []
    ensures r == VarUnion(entryvec)
  {
    hide Span, LexMin, LexMax, CommonPrefix, NodeTruncate;
    SpanSnoc(entryvec, 0, 0);
    assert entryvec[0..1] == entryvec[..1];
    var out := NodeKey(entryvec[0].Lower(), entryvec[0].Upper());
    var i := 1;
    while i < |entryvec|
      invariant 1 <= i <= |entryvec|
      invariant out == Span(entryvec[..i])
    {
      SpanSnoc(entryvec, 0, i);
      assert entryvec[0..i] == entryvec[..i] && entryvec[0..i + 1] == entryvec[..i + 1];
      out := BinUnion(Some(out), entryvec[i]);
      i := i + 1;
    }
    assert entryvec[..i] == entryvec;
    var plen := NodeCpLen(out);
    r := NodeTruncate(out, plen + 1);
  }

  /** arr lists the entries in the order qsort left them, by lower, then upper bound: arr[i] is entry order[i]. */
  ghost predicate SortedOrder(entries: seq<VarKey>, order: seq<nat>, arr: seq<VarKey>) {
    && |order| == |entries| == |arr|
    && (forall i :: 0 <= i < |order| ==> order[i] < |entries| && arr[i] == entries[order[i]])
    && (forall i, j :: 0 <= i < j < |order| ==> order[i] != order[j])
    && (forall i, j :: 0 <= i < j < |arr| ==>
          && Leq(arr[i].Lower(), arr[j].Lower())
          && (arr[i].Lower() == arr[j].Lower() ==> Leq(arr[i].Upper(), arr[j].Upper())))
  }

  /** The truncation length both halves of a split share: the longer common prefix and one more. */
  function SplitLength(left: VarKey, right: VarKey): nat {
    Max(CommonPrefix(left.Lower(), left.Upper()), CommonPrefix(right.Lower(), right.Upper())) + 1
  }

  /** The loop of gbt_var_picksplit: the first half of the entries goes left. */
  method DealOut(entries: seq<VarKey>, order: seq<nat>, arr: seq<VarKey>)
    returns (left: seq<nat>, right: seq<nat>, spl_l: VarKey, spl_r: VarKey)
    requires |entries| >= 2 && |order| == |arr| == |entries|
    ensures var half := |arr| / 2;
            && left == order[..half] && right == order[half..]
            && spl_l == Span(arr[..half]) && spl_r == Span(arr[half..])
  {
    hide Span, LexMin, LexMax;
    left, right := [], [];
    var datumL, datumR: Option<VarKey> := None, None;
    var i, maxoff := 1, |entries|;
    ghost var half := maxoff / 2;
    while i <= maxoff
      invariant 1 <= i <= maxoff + 1
      invariant left == order[..Min(i - 1, half)]
      invariant i <= half + 1 ==> right == [] && datumR.None?
      invariant i > half + 1 ==> right == order[half..i - 1] && datumR == Some(Span(arr[half..i - 1]))
      invariant if i == 1 then datumL.None? else datumL == Some(Span(arr[0..Min(i - 1, half)]))
    {
      if i <= maxoff / 2 {
        var u := BinUnion(datumL, arr[i - 1]);
        SpanSnoc(arr, 0, i - 1);
        OneMore(order, 0, i - 1);
        datumL, left := Some(u), left + [order[i - 1]];
      } else {
        var u := BinUnion(datumR, arr[i - 1]);
        SpanSnoc(arr, half, i - 1);
        OneMore(order, half, i - 1);
        datumR, right := Some(u), right + [order[i - 1]];
      }
      i := i + 1;
    }
    Halves(arr, half);
    Halves(order, half);
    spl_l, spl_r := datumL.value, datumR.value;
  }

  lemma OneMore<T>(a: seq<T>, from: nat, k: nat)
    requires from <= k < |a|
    ensures a[from..k + 1] == a[from..k] + [a[k]]
    ensures from == 0 ==> a[..k + 1] == a[..k] + [a[k]]
  {
  }

  lemma Halves<T>(a: seq<T>, half: nat)
    requires half <= |a|
    ensures a[0..half] == a[..half] && a[half..|a|] == a[half..]
  {
  }

  /** gbt_var_picksplit, once sorted. */
  method PickSplit(entries: seq<VarKey>, order: seq<nat>, arr: seq<VarKey>)
    returns (left: seq<nat>, right: seq<nat>, ldatum: VarKey, rdatum: VarKey)
    requires |entries| >= 2 && |order| == |arr| == |entries| && SortedOrder(entries, order, arr)
    ensures var half := |arr| / 2;
            && left == order[..half] && right == order[half..]
            && var l, r := Span(arr[..half]), Span(arr[half..]);
               ldatum == NodeTruncate(l, SplitLength(l, r)) && rdatum == NodeTruncate(r, SplitLength(l, r))
  {
    hide SortedOrder, Span, CommonPrefix;
    var spl_l, spl_r;
    left, right, spl_l, spl_r := DealOut(entries, order, arr);
    var ll := NodeCpLen(spl_l);
    var lr := NodeCpLen(spl_r);
    ll := Max(ll, lr) + 1;
    ldatum := NodeTruncate(spl_l, ll);
    rdatum := NodeTruncate(spl_r, ll);
  }

  lemma SpanSnoc(arr: seq<VarKey>, from: nat, k: nat)
    requires from <= k < |arr|
    ensures var e := arr[k];
            if from == k then Span(arr[from..k + 1]) == NodeKey(e.Lower(), e.Upper())
            else var s := Span(arr[from..k]);
                 Span(arr[from..k + 1]) == NodeKey(LexMin(s.lo, e.Lower()), LexMax(s.hi, e.Upper()))
  {
    hide LexMin, LexMax;
    var p := arr[from..k + 1];
    assert p[..|p| - 1] == arr[from..k] && p[|p| - 1] == arr[k];
  }
}
