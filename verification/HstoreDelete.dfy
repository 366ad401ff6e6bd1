/** Deletion by keys and by another hstore, on packed values. */
module HstoreDelete {
  import opened Wrappers
  import opened Lex
  import opened HstorePairs
  import opened HstoreLayout
  import opened HstoreBuild
  import opened HstoreOps
  import opened HstoreText
  import opened HstoreIo

  lemma MinusStep(a: seq<Pair>, b: seq<Pair>, i: nat, j: nat)
    requires i < |a| && j <= |b|
    ensures var d := if j >= |b| then -1 else KeyCompare(a[i].key, b[j].key);
            Minus(a[i..], b[j..]) == if d > 0 then Minus(a[i..], b[j + 1..])
                                     else if d < 0 then [a[i]] + Minus(a[i + 1..], b[j..])
                                     else if a[i].val != b[j].val then [a[i]] + Minus(a[i + 1..], b[j + 1..])
                                     else Minus(a[i + 1..], b[j + 1..])
  {
    hide KeyCompare;
    Tails(a, i);
    if j < |b| { Tails(b, j); }
  }

  lemma WithoutStep(a: seq<Pair>, ks: seq<Bytes>, i: nat, j: nat)
    requires i < |a| && j <= |ks|
    ensures var d := if j >= |ks| then -1 else KeyCompare(a[i].key, ks[j]);
            Without(a[i..], ks[j..]) == if d > 0 then Without(a[i..], ks[j + 1..])
                                        else if d < 0 then [a[i]] + Without(a[i + 1..], ks[j..])
                                        else Without(a[i + 1..], ks[j + 1..])
  {
    hide KeyCompare;
    Tails(a, i);
    if j < |ks| {
      assert ks[j..][0] == ks[j] && ks[j..][1..] == ks[j + 1..];
    }
  }

  /** The sign the deletion loops compute at two positions. */
  method DeleteDifference(s1: Bytes, i: nat, key: Option<Bytes>, ghost p1: seq<Pair>) returns (d: int)
    requires Image(s1, p1) && i < |p1|
    ensures d == if key.None? then -1 else KeyCompare(p1[i].key, key.value)
  {
    hide Image, KeyCompare, KeyAt, Readable;
    ReadKeyAndVal(s1, p1, i);
    d := if key.None? then -1 else KeyCompare(KeyAt(s1, i), key.value);
  }

  /** The loop of hstore_delete_hstore: pairs of hs only, those left out that hs2 has with the same value. */
  method MinusLoop(out: array<byte>, bufd: nat, hs: Bytes, hs2: Bytes, ghost p1: seq<Pair>, ghost p2: seq<Pair>)
    returns (outcount: nat, pd: nat)
    requires Image(hs, p1) && Image(hs2, p2) && bufd == StrPtr(|p1|)
    requires Building(out, |p1|, [], Minus(p1, p2), Minus(p1, p2))
    modifies out
    ensures Building(out, |p1|, Minus(p1, p2), [], Minus(p1, p2))
    ensures outcount == |Minus(p1, p2)| && pd == bufd + |Strings(Minus(p1, p2))|
  {
    hide Image, Strings, KeyCompare, Building, Minus, HsCount, KeyAt, ValAt, Readable;
    ReadCount(hs, p1);
    ReadCount(hs2, p2);
    var hsCount, hs2Count := HsCount(hs), HsCount(hs2);
    ghost var c, result := |p1|, Minus(p1, p2);
    pd, outcount := bufd, 0;
    var ed, i, j: nat := 0, 0, 0;
    ghost var done: seq<Pair> := [];
    StringsOfNone();
    assert p1[0..] == p1 && p2[0..] == p2;
    while i < hsCount
      invariant i <= |p1| && j <= |p2| && outcount == |done|
      invariant Building(out, c, done, Minus(p1[i..], p2[j..]), result)
      invariant ed == 2 * |done| && pd == bufd + |Strings(done)|
      decreases |p1| - i + |p2| - j
    {
      MinusStep(p1, p2, i, j);
      ReadKeyAndVal(hs, p1, i);
      if j < hs2Count {
        ReadKeyAndVal(hs2, p2, j);
      }
      var difference := DeleteDifference(hs, i, if j >= hs2Count then None else Some(KeyAt(hs2, j)), p1);
      if difference > 0 {
        j := j + 1;
      } else if difference == 0 {
        if ValAt(hs, i) != ValAt(hs2, j) {
          ed, pd := CopyFrom(out, ed, bufd, pd, hs, i, c, p1, done, Minus(p1[i + 1..], p2[j + 1..]), result);
          done := done + [p1[i]];
          outcount := outcount + 1;
        }
        i := i + 1;
        j := j + 1;
      } else {
        ed, pd := CopyFrom(out, ed, bufd, pd, hs, i, c, p1, done, Minus(p1[i + 1..], p2[j..]), result);
        done := done + [p1[i]];
        outcount := outcount + 1;
        i := i + 1;
      }
    }
    MinusNothing(p1, p2, i, j);
    DoneBuilding(out, c, done, result);
  }

  lemma MinusNothing(a: seq<Pair>, b: seq<Pair>, i: nat, j: nat)
    requires i == |a| && j <= |b|
    ensures Minus(a[i..], b[j..]) == []
  {
  }

  lemma SizeFits(m: Bytes, ps: seq<Pair>, result: seq<Pair>)
    requires Image(m, ps) && |result| <= |ps| && |Strings(result)| <= |Strings(ps)|
    ensures StrPtr(|ps|) + |Strings(result)| <= VarSize(m) < POS_LIMIT
  {
  }

  /** Merge into the new buffer, and close the gap. */
  method MinusInto(out: array<byte>, hs: Bytes, hs2: Bytes, ghost p1: seq<Pair>, ghost p2: seq<Pair>)
    requires Image(hs, p1) && Image(hs2, p2) && Partial(out[..], |p1|, []) && out.Length == VarSize(hs)
    modifies out
    ensures Image(out[..], Minus(p1, p2))
  {
    MinusFits(p1, p2);
    SizeFits(hs, p1, Minus(p1, p2));
    StartBuilding(out, |p1|, Minus(p1, p2));
    hide Image, Partial, Strings, Building, HsCount, VarSize, Minus, Word;
    ReadCount(hs, p1);
    var bufd := StrPtr(HsCount(hs));
    var outcount, pd := MinusLoop(out, bufd, hs, hs2, p1, p2);
    DoneBuilding(out, |p1|, Minus(p1, p2), Minus(p1, p2));
    Finalize(out, outcount, bufd, pd, |p1|, Minus(p1, p2));
  }

  lemma MinusNone(a: seq<Pair>, b: seq<Pair>)
    ensures |b| == 0 ==> Minus(a, b) == a
  {
  }

  lemma OwnSize(m: Bytes, ps: seq<Pair>)
    requires Image(m, ps)
    ensures StrPtr(|ps|) <= VarSize(m) < POS_LIMIT
  {
  }

  /** hstore_delete_hstore. */
  method HstoreDeleteHstore(hs: Bytes, hs2: Bytes, ghost p1: seq<Pair>, ghost p2: seq<Pair>) returns (out: array<byte>)
    requires WellFormed(hs, p1) && WellFormed(hs2, p2)
    ensures fresh(out) && out.Length == VarSize(hs) && WellFormed(out[..], Minus(p1, p2))
  {
    MinusPart(p1, p2, []);
    MinusNone(p1, p2);
    ReadCount(hs, p1);
    ReadCount(hs2, p2);
    OwnSize(hs, p1);
    hide Image, Sorted, Partial, Strings, HsCount, VarSize, Minus, Word;
    out := NewValue(VarSize(hs), HsCount(hs));
    if HsCount(hs2) == 0 {
      CopyWhole(out, hs, p1);
    } else {
      MinusInto(out, hs, hs2, p1, p2);
    }
  }

  /** The loop of hstore_delete_array: pairs of hs whose key is not among the sorted keys. */
  method WithoutLoop(out: array<byte>, bufd: nat, hs: Bytes, ks: seq<Bytes>, ghost p1: seq<Pair>)
    returns (outcount: nat, pd: nat)
    requires Image(hs, p1) && bufd == StrPtr(|p1|)
    requires Building(out, |p1|, [], Without(p1, ks), Without(p1, ks))
    modifies out
    ensures Building(out, |p1|, Without(p1, ks), [], Without(p1, ks))
    ensures outcount == |Without(p1, ks)| && pd == bufd + |Strings(Without(p1, ks))|
  {
    hide Image, Strings, KeyCompare, Building, Without, HsCount;
    ReadCount(hs, p1);
    var hsCount := HsCount(hs);
    ghost var c, result := |p1|, Without(p1, ks);
    pd, outcount := bufd, 0;
    var ed, i, j: nat := 0, 0, 0;
    ghost var done: seq<Pair> := [];
    StringsOfNone();
    assert p1[0..] == p1 && ks[0..] == ks;
    while i < hsCount
      invariant i <= |p1| && j <= |ks| && outcount == |done|
      invariant Building(out, c, done, Without(p1[i..], ks[j..]), result)
      invariant ed == 2 * |done| && pd == bufd + |Strings(done)|
      decreases |p1| - i + |ks| - j
    {
      WithoutStep(p1, ks, i, j);
      var difference := DeleteDifference(hs, i, if j >= |ks| then None else Some(ks[j]), p1);
      if difference > 0 {
        j := j + 1;
      } else if difference == 0 {
        i := i + 1;
        j := j + 1;
      } else {
        ed, pd := CopyFrom(out, ed, bufd, pd, hs, i, c, p1, done, Without(p1[i + 1..], ks[j..]), result);
        done := done + [p1[i]];
        outcount := outcount + 1;
        i := i + 1;
      }
    }
    WithoutNothing(p1, ks, i, j);
    DoneBuilding(out, c, done, result);
  }

  lemma WithoutNothing(a: seq<Pair>, ks: seq<Bytes>, i: nat, j: nat)
    requires i == |a| && j <= |ks|
    ensures Without(a[i..], ks[j..]) == []
  {
  }

  method WithoutInto(out: array<byte>, hs: Bytes, ks: seq<Bytes>, ghost p1: seq<Pair>)
    requires Image(hs, p1) && Partial(out[..], |p1|, []) && out.Length == VarSize(hs)
    modifies out
    ensures Image(out[..], Without(p1, ks))
  {
    WithoutFits(p1, ks);
    SizeFits(hs, p1, Without(p1, ks));
    StartBuilding(out, |p1|, Without(p1, ks));
    hide Image, Partial, Strings, Building, HsCount, VarSize, Without, Word;
    ReadCount(hs, p1);
    var bufd := StrPtr(HsCount(hs));
    var outcount, pd := WithoutLoop(out, bufd, hs, ks, p1);
    DoneBuilding(out, |p1|, Without(p1, ks), Without(p1, ks));
    Finalize(out, outcount, bufd, pd, |p1|, Without(p1, ks));
  }

  lemma WithoutNone(a: seq<Pair>, ks: seq<Bytes>)
    ensures |ks| == 0 ==> Without(a, ks) == a
  {
  }

  // ---- Keys given in an array ----

  const SIZEOF_PAIRS: nat := 40

  /** A record of hstoreArrayToPairs: a key alone. */
  function KeyRecord(key: Bytes): Pairs { Pairs(key, [], true, false) }

  function KeysOf(a: seq<Pairs>): (ks: seq<Bytes>)
    ensures |ks| == |a|
  {
    seq(|a|, i requires 0 <= i < |a| => a[i].key)
  }

  /** The elements of a text array that are not null, as the keys they name. */
  ghost predicate Names(ks: seq<Bytes>, keyArray: seq<Option<Bytes>>) {
    forall k :: k in ks <==> Some(k) in keyArray
  }

  /** The pairs whose key is not in the array. */
  function Unnamed(a: seq<Pair>, keyArray: seq<Option<Bytes>>): seq<Pair> {
    if a == [] then []
    else if Some(a[0].key) in keyArray then Unnamed(a[1..], keyArray)
    else [a[0]] + Unnamed(a[1..], keyArray)
  }

  lemma {:induction false} UnnamedHas(a: seq<Pair>, keyArray: seq<Option<Bytes>>, p: Pair)
    ensures p in Unnamed(a, keyArray) <==> p in a && Some(p.key) !in keyArray
  {
    if a != [] {
      UnnamedHas(a[1..], keyArray, p);
      assert p in a <==> p == a[0] || p in a[1..];
    }
  }

  lemma {:induction false} UnnamedSorted(a: seq<Pair>, keyArray: seq<Option<Bytes>>)
    requires Sorted(a)
    ensures Sorted(Unnamed(a, keyArray))
  {
    if a != [] {
      UnnamedSorted(a[1..], keyArray);
      var rest := Unnamed(a[1..], keyArray);
      forall i | 0 <= i < |rest| ensures KeyLess(a[0].key, rest[i].key) {
        UnnamedHas(a[1..], keyArray, rest[i]);
      }
      hide KeyLess;
    }
  }

  /** The merge with sorted keys leaves the unnamed pairs. */
  lemma WithoutUnnamed(a: seq<Pair>, ks: seq<Bytes>, keyArray: seq<Option<Bytes>>)
    requires Sorted(a) && SortedKeys(ks) && Names(ks, keyArray)
    ensures Without(a, ks) == Unnamed(a, keyArray)
  {
    hide Sorted, SortedKeys;
    WithoutPart(a, ks, []);
    UnnamedSorted(a, keyArray);
    forall p ensures p in Without(a, ks) <==> p in Unnamed(a, keyArray) {
      WithoutHas(a, ks, p);
      UnnamedHas(a, keyArray, p);
    }
    SortedOnce(Without(a, ks), Unnamed(a, keyArray));
  }

  /** The loop of hstoreArrayToPairs: a record for each element that is not null. */
  method KeyRecords(keyArray: seq<Option<Bytes>>) returns (pairs: seq<Pairs>)
    ensures forall p :: p in pairs <==> p.isnull && !p.needfree && p.val == [] && Some(p.key) in keyArray
  {
    pairs := [];
    for i := 0 to |keyArray|
      invariant forall p :: p in pairs <==> p.isnull && !p.needfree && p.val == [] && Some(p.key) in keyArray[..i]
    {
      assert keyArray[..i + 1] == keyArray[..i] + [keyArray[i]];
      if keyArray[i].Some? {
        pairs := pairs + [KeyRecord(keyArray[i].value)];
      }
    }
    assert keyArray[..|keyArray|] == keyArray;
  }

  /** Sorted and without duplicates, the records name the same keys. */
  lemma UniqueKeys(pairs: seq<Pairs>, sorted: seq<Pairs>, unique: seq<Pairs>)
    requires IsSortOf(pairs, sorted)
    requires unique == if |pairs| < 2 then pairs else Unique(sorted)
    ensures Ascending(unique)
    ensures forall k :: k in KeysOf(unique) <==> exists p :: p in pairs && p.key == k
  {
    hide PairsSorted, Unique;
    UniqueAscends(sorted);
    forall k ensures k in KeysOf(unique) <==> exists p :: p in pairs && p.key == k {
      if k in KeysOf(unique) {
        var i :| 0 <= i < |unique| && KeysOf(unique)[i] == k;
        if |pairs| >= 2 {
          UniqueMembers(sorted, unique[i]);
          assert unique[i] in multiset(pairs);
        }
        assert unique[i] in pairs;
      }
      if p :| p in pairs && p.key == k {
        if |pairs| >= 2 {
          assert p in multiset(sorted);
          UniqueKeeps(sorted, p);
        }
        var q :| q in unique && q.key == k;
        var i :| 0 <= i < |unique| && unique[i] == q;
        assert KeysOf(unique)[i] == k;
      }
    }
  }

  lemma AscendingKeys(a: seq<Pairs>)
    requires Ascending(a)
    ensures SortedKeys(KeysOf(a))
  {
    hide KeyLess;
  }

  /** hstoreArrayToPairs: nothing if the array has too many elements, otherwise its keys in order and each once. */
  method ArrayToPairs(keyArray: seq<Option<Bytes>>, qsort: seq<Pairs> -> seq<Pairs>) returns (r: Option<seq<Bytes>>)
    requires forall a :: IsSortOf(a, qsort(a))
    ensures r.Some? <==> |keyArray| <= MaxAllocSize / SIZEOF_PAIRS
    ensures r.Some? ==> SortedKeys(r.value) && Names(r.value, keyArray)
  {
    hide Unique, Ascending, SortedKeys, IsSortOf;
    if |keyArray| > MaxAllocSize / SIZEOF_PAIRS {
      return None;
    }
    var pairs := KeyRecords(keyArray);
    var unique, _ := UniquePairs(pairs, qsort);
    UniqueKeys(pairs, qsort(pairs), unique);
    AscendingKeys(unique);
    forall k ensures k in KeysOf(unique) <==> Some(k) in keyArray {
      if Some(k) in keyArray {
        assert KeyRecord(k) in pairs;
      }
    }
    r := Some(KeysOf(unique));
  }

  /** hstore_delete_array: an error if the array has too many elements, otherwise the pairs whose key is not in it. */
  method HstoreDeleteArray(hs: Bytes, keyArray: seq<Option<Bytes>>, qsort: seq<Pairs> -> seq<Pairs>,
                           ghost p1: seq<Pair>)
    returns (r: Option<array<byte>>)
    requires WellFormed(hs, p1) && forall a :: IsSortOf(a, qsort(a))
    ensures r.Some? <==> |keyArray| <= MaxAllocSize / SIZEOF_PAIRS
    ensures r.Some? ==> fresh(r.value) && r.value.Length == VarSize(hs)
    ensures r.Some? ==> WellFormed(r.value[..], Unnamed(p1, keyArray))
  {
    hide Image, Sorted, Partial, Strings, HsCount, VarSize, Without, Word, SortedKeys, IsSortOf, Names;
    var named := ArrayToPairs(keyArray, qsort);
    if named.None? {
      return None;
    }
    var ks := named.value;
    WithoutPart(p1, ks, []);
    WithoutNone(p1, ks);
    WithoutUnnamed(p1, ks, keyArray);
    ReadCount(hs, p1);
    OwnSize(hs, p1);
    var out := NewValue(VarSize(hs), HsCount(hs));
    if |ks| == 0 {
      CopyWhole(out, hs, p1);
    } else {
      WithoutInto(out, hs, ks, p1);
    }
    r := Some(out);
  }
}
