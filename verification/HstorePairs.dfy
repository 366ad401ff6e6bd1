/** hstore values as sorted lists of pairs, and the merges over them that the operators perform. */
module HstorePairs {
  import opened Lex

  type Bytes = seq<byte>

  datatype Value = Null | Text(bytes: Bytes)

  datatype Pair = Pair(key: Bytes, val: Value)

  /** Keys are ordered by length, then by their bytes. */
  predicate KeyLess(a: Bytes, b: Bytes) {
    |a| < |b| || (|a| == |b| && Less(a, b))
  }

  /** The sign the loops compute from two keys. */
  function KeyCompare(a: Bytes, b: Bytes): (c: int)
    ensures c < 0 <==> KeyLess(a, b)
    ensures c == 0 <==> a == b
    ensures c > 0 <==> KeyLess(b, a)
  {
    Trichotomy(a, b);
    if |a| == |b| then Compare(a, b) else if |a| > |b| then 1 else -1
  }

  lemma KeyLessTransitive(a: Bytes, b: Bytes, c: Bytes)
    requires KeyLess(a, b) && KeyLess(b, c)
    ensures KeyLess(a, c)
  {
    if |a| == |b| == |c| {
      Transitive(a, b, c);
    }
  }

  lemma KeyLessIrreflexive(a: Bytes, b: Bytes)
    ensures !KeyLess(a, a) && !(KeyLess(a, b) && KeyLess(b, a))
  {
    Trichotomy(a, b);
  }

  /** Strictly ascending keys. */
  ghost predicate Sorted(ps: seq<Pair>) {
    forall i, j :: 0 <= i < j < |ps| ==> KeyLess(ps[i].key, ps[j].key)
  }

  ghost predicate SortedKeys(ks: seq<Bytes>) {
    forall i, j :: 0 <= i < j < |ks| ==> KeyLess(ks[i], ks[j])
  }

  /** The key is below all keys of the pairs. */
  ghost predicate Below(k: Bytes, ps: seq<Pair>) {
    forall i :: 0 <= i < |ps| ==> KeyLess(k, ps[i].key)
  }

  predicate HasKey(ps: seq<Pair>, k: Bytes) {
    exists i :: 0 <= i < |ps| && ps[i].key == k
  }

  // ---- Sorted lists ----

  lemma SortedTail(ps: seq<Pair>)
    requires Sorted(ps) && ps != []
    ensures Sorted(ps[1..]) && Below(ps[0].key, ps[1..])
  {
    hide KeyLess;
  }

  lemma SortedCons(p: Pair, ps: seq<Pair>)
    requires Sorted(ps) && Below(p.key, ps)
    ensures Sorted([p] + ps)
  {
    hide KeyLess;
  }

  lemma BelowAll(k: Bytes, k': Bytes, ps: seq<Pair>)
    requires KeyLess(k, k') && Below(k', ps)
    ensures Below(k, ps)
  {
    forall i | 0 <= i < |ps| ensures KeyLess(k, ps[i].key) {
      KeyLessTransitive(k, k', ps[i].key);
    }
  }

  lemma BelowFirst(k: Bytes, ps: seq<Pair>)
    requires Sorted(ps) && (ps != [] ==> KeyLess(k, ps[0].key))
    ensures Below(k, ps)
  {
    if ps != [] {
      SortedTail(ps);
      BelowAll(k, ps[0].key, ps[1..]);
      hide KeyLess;
      assert forall i :: 0 < i < |ps| ==> ps[i] == ps[1..][i - 1];
    }
  }

  lemma BelowHasNot(k: Bytes, ps: seq<Pair>)
    requires Below(k, ps)
    ensures !HasKey(ps, k)
  {
    KeyLessIrreflexive(k, k);
    hide KeyLess;
  }

  lemma MemberHasKey(p: Pair, ps: seq<Pair>)
    requires p in ps
    ensures HasKey(ps, p.key)
  {
  }

  /** A list is its first pair and the others. */
  lemma ConsHas(ps: seq<Pair>, p: Pair)
    requires ps != []
    ensures p in ps <==> p == ps[0] || p in ps[1..]
    ensures HasKey(ps, p.key) <==> p.key == ps[0].key || HasKey(ps[1..], p.key)
  {
    assert ps == [ps[0]] + ps[1..];
    if HasKey(ps[1..], p.key) {
      var i :| 0 <= i < |ps[1..]| && ps[1..][i].key == p.key;
      assert ps[i + 1].key == p.key;
    }
    if HasKey(ps, p.key) && p.key != ps[0].key {
      var i :| 0 <= i < |ps| && ps[i].key == p.key;
      assert ps[1..][i - 1].key == p.key;
    }
  }

  lemma HasMember(b: seq<Pair>)
    requires b != []
    ensures exists p :: p in b
  {
    assert b[0] in b;
  }

  /** Sorted lists with the same pairs are the same list. */
  lemma {:induction false} SortedOnce(a: seq<Pair>, b: seq<Pair>)
    requires Sorted(a) && Sorted(b) && forall p :: p in a <==> p in b
    ensures a == b
  {
    if a == [] {
      if b != [] {
        HasMember(b);
      }
    } else {
      assert a[0] in a && b != [];
      assert b[0] in b;
      FirstIsLeast(a, b);
      SortedTail(a);
      SortedTail(b);
      forall p ensures p in a[1..] <==> p in b[1..] {
        ConsHas(a, p);
        ConsHas(b, p);
        if p in a[1..] { NotInTail(a, p); }
        if p in b[1..] { NotInTail(b, p); }
      }
      SortedOnce(a[1..], b[1..]);
      HeadAndTail(a, b);
    }
  }

  lemma HeadAndTail(a: seq<Pair>, b: seq<Pair>)
    requires a != [] && b != [] && a[0] == b[0] && a[1..] == b[1..]
    ensures a == b
  {
    assert a == [a[0]] + a[1..] && b == [b[0]] + b[1..];
  }

  lemma NotInTail(a: seq<Pair>, p: Pair)
    requires Sorted(a) && a != [] && p in a[1..]
    ensures p != a[0]
  {
    SortedTail(a);
    KeyLessIrreflexive(p.key, p.key);
    hide KeyLess;
  }

  lemma FirstIsLeast(a: seq<Pair>, b: seq<Pair>)
    requires Sorted(a) && Sorted(b) && a != [] && b != [] && a[0] in b && b[0] in a
    ensures a[0] == b[0]
  {
    var i :| 0 <= i < |b| && b[i] == a[0];
    var j :| 0 <= j < |a| && a[j] == b[0];
    KeyLessIrreflexive(a[0].key, b[0].key);
    hide KeyLess;
  }

  // ---- Concatenation: the second overrides the first ----

  /** The merge of hstore_concat. */
  function Merge(a: seq<Pair>, b: seq<Pair>): seq<Pair> {
    if a == [] then b
    else if b == [] then a
    else
      var c := KeyCompare(a[0].key, b[0].key);
      if c < 0 then [a[0]] + Merge(a[1..], b)
      else if c == 0 then [b[0]] + Merge(a[1..], b[1..])
      else [b[0]] + Merge(a, b[1..])
  }

  lemma {:induction false} MergeBelow(k: Bytes, a: seq<Pair>, b: seq<Pair>)
    requires Below(k, a) && Below(k, b)
    ensures Below(k, Merge(a, b))
  {
    hide KeyLess;
    if a != [] && b != [] {
      var c := KeyCompare(a[0].key, b[0].key);
      if c < 0 { MergeBelow(k, a[1..], b); }
      else if c == 0 { MergeBelow(k, a[1..], b[1..]); }
      else { MergeBelow(k, a, b[1..]); }
    }
  }

  lemma {:induction false} MergeSorted(a: seq<Pair>, b: seq<Pair>)
    requires Sorted(a) && Sorted(b)
    ensures Sorted(Merge(a, b))
  {
    hide KeyLess, Sorted;
    if a != [] && b != [] {
      SortedTail(a);
      SortedTail(b);
      var c := KeyCompare(a[0].key, b[0].key);
      if c < 0 {
        MergeSorted(a[1..], b);
        BelowFirst(a[0].key, b);
        MergeBelow(a[0].key, a[1..], b);
        SortedCons(a[0], Merge(a[1..], b));
      } else if c == 0 {
        MergeSorted(a[1..], b[1..]);
        MergeBelow(b[0].key, a[1..], b[1..]);
        SortedCons(b[0], Merge(a[1..], b[1..]));
      } else {
        MergeSorted(a, b[1..]);
        BelowFirst(b[0].key, a);
        MergeBelow(b[0].key, a, b[1..]);
        SortedCons(b[0], Merge(a, b[1..]));
      }
    }
  }

  /** A pair of the concatenation is one of the second value, or one of the first whose key the second does not have. */
  lemma {:induction false} MergeHas(a: seq<Pair>, b: seq<Pair>, p: Pair)
    requires Sorted(a) && Sorted(b)
    ensures p in Merge(a, b) <==> p in b || (p in a && !HasKey(b, p.key))
  {
    hide KeyLess, Sorted, Below, HasKey;
    if a == [] {
    } else if b == [] {
      assert !HasKey(b, p.key) by { EmptyHasNot(p.key); }
    } else {
      SortedTail(a);
      SortedTail(b);
      ConsHas(a, p);
      ConsHas(b, p);
      var c := KeyCompare(a[0].key, b[0].key);
      if c < 0 {
        MergeHas(a[1..], b, p);
        BelowFirst(a[0].key, b);
        BelowHasNot(a[0].key, b);
        if p in b { MemberHasKey(p, b); }
      } else if c == 0 {
        MergeHas(a[1..], b[1..], p);
        BelowHasNot(a[0].key, a[1..]);
        if p in a[1..] { MemberHasKey(p, a[1..]); }
      } else {
        MergeHas(a, b[1..], p);
        BelowFirst(b[0].key, a);
        BelowHasNot(b[0].key, a);
        if p in a { MemberHasKey(p, a); }
      }
    }
  }

  lemma EmptyHasNot(k: Bytes)
    ensures !HasKey([], k)
  {
  }

  // ---- Deletion ----

  /** The merge of hstore_delete_array. */
  function Without(a: seq<Pair>, ks: seq<Bytes>): seq<Pair>
    decreases |a| + |ks|
  {
    if a == [] || ks == [] then a
    else
      var c := KeyCompare(a[0].key, ks[0]);
      if c > 0 then Without(a, ks[1..])
      else if c == 0 then Without(a[1..], ks[1..])
      else [a[0]] + Without(a[1..], ks)
  }

  /** The merge of hstore_delete_hstore. */
  function Minus(a: seq<Pair>, b: seq<Pair>): seq<Pair>
    decreases |a| + |b|
  {
    if a == [] || b == [] then a
    else
      var c := KeyCompare(a[0].key, b[0].key);
      if c > 0 then Minus(a, b[1..])
      else if c < 0 then [a[0]] + Minus(a[1..], b)
      else if a[0].val != b[0].val then [a[0]] + Minus(a[1..], b[1..])
      else Minus(a[1..], b[1..])
  }

  /** The result is part of the first list, in its order. */
  lemma {:induction false} MinusPart(a: seq<Pair>, b: seq<Pair>, k: Bytes)
    requires Sorted(a) && Sorted(b)
    ensures Sorted(Minus(a, b)) && (Below(k, a) ==> Below(k, Minus(a, b)))
    decreases |a| + |b|
  {
    hide KeyLess, Sorted;
    if a != [] && b != [] {
      SortedTail(a);
      SortedTail(b);
      var c := KeyCompare(a[0].key, b[0].key);
      if c > 0 {
        MinusPart(a, b[1..], k);
      } else if c < 0 {
        MinusPart(a[1..], b, k);
        MinusPart(a[1..], b, a[0].key);
        SortedCons(a[0], Minus(a[1..], b));
      } else {
        MinusPart(a[1..], b[1..], k);
        MinusPart(a[1..], b[1..], a[0].key);
        SortedCons(a[0], Minus(a[1..], b[1..]));
      }
    }
  }

  /** A pair stays exactly if the other value does not have the very same pair. */
  lemma {:induction false} MinusHas(a: seq<Pair>, b: seq<Pair>, p: Pair)
    requires Sorted(a) && Sorted(b)
    ensures p in Minus(a, b) <==> p in a && p !in b
    decreases |a| + |b|
  {
    hide KeyLess, Sorted, Below, HasKey;
    if a != [] && b != [] {
      SortedTail(a);
      SortedTail(b);
      ConsHas(a, p);
      ConsHas(b, p);
      BelowHasNot(a[0].key, a[1..]);
      BelowHasNot(b[0].key, b[1..]);
      if p in a { MemberHasKey(p, a); }
      if p in b { MemberHasKey(p, b); }
      if p in a[1..] { MemberHasKey(p, a[1..]); }
      if p in b[1..] { MemberHasKey(p, b[1..]); }
      var c := KeyCompare(a[0].key, b[0].key);
      if c > 0 {
        BelowFirst(b[0].key, a);
        BelowHasNot(b[0].key, a);
        MinusHas(a, b[1..], p);
      } else if c < 0 {
        BelowFirst(a[0].key, b);
        BelowHasNot(a[0].key, b);
        MinusHas(a[1..], b, p);
      } else {
        MinusHas(a[1..], b[1..], p);
      }
    }
  }

  ghost predicate BelowKeys(k: Bytes, ks: seq<Bytes>) {
    forall i :: 0 <= i < |ks| ==> KeyLess(k, ks[i])
  }

  lemma KeysTail(ks: seq<Bytes>)
    requires SortedKeys(ks) && ks != []
    ensures SortedKeys(ks[1..]) && BelowKeys(ks[0], ks[1..])
    ensures ks[0] !in ks[1..]
  {
    KeyLessIrreflexive(ks[0], ks[0]);
    hide KeyLess;
  }

  lemma KeyNotIn(k: Bytes, ks: seq<Bytes>)
    requires SortedKeys(ks) && ks != [] && KeyLess(k, ks[0])
    ensures k !in ks
  {
    if i :| 0 <= i < |ks| && ks[i] == k {
      KeyLessIrreflexive(k, ks[0]);
    }
  }

  lemma {:induction false} WithoutPart(a: seq<Pair>, ks: seq<Bytes>, k: Bytes)
    requires Sorted(a) && SortedKeys(ks)
    ensures Sorted(Without(a, ks)) && (Below(k, a) ==> Below(k, Without(a, ks)))
    decreases |a| + |ks|
  {
    hide KeyLess, Sorted, SortedKeys;
    if a != [] && ks != [] {
      SortedTail(a);
      KeysTail(ks);
      var c := KeyCompare(a[0].key, ks[0]);
      if c > 0 {
        WithoutPart(a, ks[1..], k);
      } else if c == 0 {
        WithoutPart(a[1..], ks[1..], k);
      } else {
        WithoutPart(a[1..], ks, k);
        WithoutPart(a[1..], ks, a[0].key);
        SortedCons(a[0], Without(a[1..], ks));
      }
    }
  }

  /** A pair stays exactly if its key is not named. */
  lemma {:induction false} WithoutHas(a: seq<Pair>, ks: seq<Bytes>, p: Pair)
    requires Sorted(a) && SortedKeys(ks)
    ensures p in Without(a, ks) <==> p in a && p.key !in ks
    decreases |a| + |ks|
  {
    hide KeyLess, Sorted, SortedKeys, Below, HasKey;
    if a != [] && ks != [] {
      SortedTail(a);
      KeysTail(ks);
      ConsHas(a, p);
      BelowHasNot(a[0].key, a[1..]);
      if p in a { MemberHasKey(p, a); }
      if p in a[1..] { MemberHasKey(p, a[1..]); }
      assert ks == [ks[0]] + ks[1..];
      var c := KeyCompare(a[0].key, ks[0]);
      if c > 0 {
        BelowFirst(ks[0], a);
        BelowHasNot(ks[0], a);
        WithoutHas(a, ks[1..], p);
      } else if c == 0 {
        WithoutHas(a[1..], ks[1..], p);
      } else {
        KeyNotIn(a[0].key, ks);
        WithoutHas(a[1..], ks, p);
      }
    }
  }

  // ---- Containment ----

  ghost predicate Contains(a: seq<Pair>, b: seq<Pair>) {
    forall p :: p in b ==> p in a
  }

  lemma OneValue(a: seq<Pair>, p: Pair, q: Pair)
    requires Sorted(a) && p in a && q in a && p.key == q.key
    ensures p == q
  {
    KeyLessIrreflexive(p.key, p.key);
    hide KeyLess;
  }

  /** One value contains another exactly when concatenating changes nothing, and exactly when deleting it from the other
      leaves nothing. */
  lemma ContainsIff(a: seq<Pair>, b: seq<Pair>)
    requires Sorted(a) && Sorted(b)
    ensures Contains(a, b) <==> Merge(a, b) == a
    ensures Contains(a, b) <==> Minus(b, a) == []
  {
    hide KeyLess, HasKey;
    forall p ensures p in Merge(a, b) <==> p in b || (p in a && !HasKey(b, p.key)) {
      MergeHas(a, b, p);
    }
    forall p ensures p in Minus(b, a) <==> p in b && p !in a {
      MinusHas(b, a, p);
    }
    MergeSorted(a, b);
    if Contains(a, b) {
      forall p | p in a ensures p in Merge(a, b) {
        if HasKey(b, p.key) {
          KeyMember(b, p.key);
          var q :| q in b && q.key == p.key;
          OneValue(a, p, q);
        }
      }
      SortedOnce(Merge(a, b), a);
      assert Minus(b, a) != [] ==> Minus(b, a)[0] in Minus(b, a);
    }
  }

  lemma KeyMember(b: seq<Pair>, k: Bytes)
    requires HasKey(b, k)
    ensures exists q :: q in b && q.key == k
  {
    var i :| 0 <= i < |b| && b[i].key == k;
    assert b[i] in b;
  }
}
