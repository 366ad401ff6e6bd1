/** hstore_cmp: the order on packed values, total and zero exactly on equal values. */
module HstoreCompare {
  import opened Lex
  import opened HstorePairs
  import opened HstoreLayout
  import opened HstoreBuild
  import opened HstoreOps

  /** End position and null flag of entry k, as one number. */
  function Code(ps: seq<Pair>, k: nat): nat
    requires k < 2 * |ps|
  {
    if k % 2 == 0 then 2 * (EndOf(ps, k / 2) + |ps[k / 2].key|)
    else 2 * EndOf(ps, k / 2 + 1) + if ps[k / 2].val.Null? then 1 else 0
  }

  function Codes(ps: seq<Pair>): (cs: seq<int>)
    ensures |cs| == 2 * |ps|
  {
    seq(2 * |ps|, k requires 0 <= k < 2 * |ps| => Code(ps, k))
  }

  function Sign(a: int, b: int): int { if a < b then -1 else if a > b then 1 else 0 }

  /** Strings first, then the number of pairs, then the entries. */
  function Cmp(a: seq<Pair>, b: seq<Pair>): int {
    var c := Compare(Strings(a), Strings(b));
    if c != 0 then c
    else if |a| != |b| then Sign(|a|, |b|)
    else Compare(Codes(a), Codes(b))
  }

  lemma CodesAt(a: seq<Pair>, b: seq<Pair>, k: nat)
    requires |a| == |b| && k < 2 * |a| && Codes(a) == Codes(b)
    ensures Code(a, k) == Code(b, k)
  {
    assert Codes(a)[k] == Code(a, k) && Codes(b)[k] == Code(b, k);
  }

  lemma OddEven(i: nat)
    ensures 2 * i % 2 == 0 && 2 * i / 2 == i && (2 * i + 1) % 2 == 1 && (2 * i + 1) / 2 == i
  {
  }

  /** The entries tell the lengths of keys and values, and which values are null. */
  lemma EntriesTell(a: seq<Pair>, b: seq<Pair>, i: nat)
    requires |a| == |b| && i < |a| && Codes(a) == Codes(b)
    ensures EndOf(a, i) == EndOf(b, i) && EndOf(a, i + 1) == EndOf(b, i + 1)
    ensures |a[i].key| == |b[i].key| && a[i].val.Null? == b[i].val.Null?
  {
    hide EndOf, Codes;
    OddEven(i);
    CodesAt(a, b, 2 * i);
    CodesAt(a, b, 2 * i + 1);
    if i > 0 {
      OddEven(i - 1);
      CodesAt(a, b, 2 * (i - 1) + 1);
    } else {
      NothingYet(a);
      NothingYet(b);
    }
  }

  lemma AtSame(s: Bytes, off: nat, x: Bytes, y: Bytes)
    requires At(s, off, x) && At(s, off, y) && |x| == |y|
    ensures x == y
  {
    forall k | 0 <= k < |x| ensures x[k] == y[k] {
      assert s[off + k] == x[k];
    }
  }

  /** Strings and entries together determine the pairs. */
  lemma SamePairs(a: seq<Pair>, b: seq<Pair>)
    requires Strings(a) == Strings(b) && |a| == |b| && Codes(a) == Codes(b)
    ensures a == b
  {
    forall i | 0 <= i < |a| ensures a[i] == b[i] {
      EntriesTell(a, b, i);
      PairInStrings(a, i);
      PairInStrings(b, i);
      hide Strings, EndOf, Codes, At;
      AtSame(Strings(a), EndOf(a, i), PairBytes(a[i]), PairBytes(b[i]));
      HalvesSame(a[i], b[i]);
    }
  }

  lemma HalvesSame(p: Pair, q: Pair)
    requires PairBytes(p) == PairBytes(q) && |p.key| == |q.key| && p.val.Null? == q.val.Null?
    ensures p == q
  {
    assert p.key == PairBytes(p)[..|p.key|] && q.key == PairBytes(q)[..|q.key|];
    assert ValueBytes(p.val) == PairBytes(p)[|p.key|..] && ValueBytes(q.val) == PairBytes(q)[|q.key|..];
  }

  /** Zero exactly for equal values. */
  lemma CmpZeroIff(a: seq<Pair>, b: seq<Pair>)
    ensures Cmp(a, b) == 0 <==> a == b
  {
    hide Strings, Codes, Compare;
    if Cmp(a, b) == 0 {
      SamePairs(a, b);
    }
  }

  lemma CompareFlips(x: seq<int>, y: seq<int>)
    ensures Compare(y, x) == -Compare(x, y)
  {
    Trichotomy(x, y);
    hide Less;
  }

  lemma CmpAntisymmetric(a: seq<Pair>, b: seq<Pair>)
    ensures Cmp(b, a) == -Cmp(a, b)
  {
    hide Strings, Codes, Compare;
    CompareFlips(Strings(a), Strings(b));
    CompareFlips(Codes(a), Codes(b));
  }

  lemma CompareTransitive(x: seq<int>, y: seq<int>, z: seq<int>)
    requires Compare(x, y) <= 0 && Compare(y, z) <= 0
    ensures Compare(x, z) <= 0 && (Compare(x, y) < 0 || Compare(y, z) < 0 ==> Compare(x, z) < 0)
  {
    hide Less;
    LeqTransitive(x, y, z);
  }

  lemma CmpTransitive(a: seq<Pair>, b: seq<Pair>, c: seq<Pair>)
    requires Cmp(a, b) <= 0 && Cmp(b, c) <= 0
    ensures Cmp(a, c) <= 0 && (Cmp(a, b) < 0 || Cmp(b, c) < 0 ==> Cmp(a, c) < 0)
  {
    hide Strings, Codes, Compare;
    CompareTransitive(Strings(a), Strings(b), Strings(c));
    if Compare(Strings(a), Strings(b)) == 0 && Compare(Strings(b), Strings(c)) == 0 && |a| == |b| == |c| {
      CompareTransitive(Codes(a), Codes(b), Codes(c));
    }
  }

  // ---- On packed values ----

  /** memcmp over the shorter length, then the lengths. */
  lemma ComparePrefix(x: Bytes, y: Bytes, n: nat)
    requires n == if |x| < |y| then |x| else |y|
    ensures Compare(x, y) == if x[..n] != y[..n] then Compare(x[..n], y[..n]) else Sign(|x|, |y|)
  {
    var k := CommonPrefix(x[..n], y[..n]);
    PrefixIs(x, y, k);
    PrefixIs(y, x, k);
    PrefixCommutes(x[..n], y[..n]);
    if x[..n] == y[..n] {
      PrefixIs(x[..n], y[..n], n);
      assert |x| == |y| ==> x == x[..n] && y == y[..n];
    } else {
      assert x[..n][..k] == y[..n][..k];
    }
  }

  /** An entry of a packed value, decoded. */
  lemma EntryCode(m: Bytes, ps: seq<Pair>, k: nat)
    requires Image(m, ps) && k < 2 * |ps|
    ensures HSHRDSIZE + 4 * k + 4 <= |m|
    ensures 2 * EndPos(Entry(m, k)) + (if IsNull(Entry(m, k)) then 1 else 0) == Codes(ps)[k]
  {
    hide EndPos, IsNull, IsFirst, Word, EndOf, Strings, At;
    var i := k / 2;
    if k % 2 == 0 {
      assert k == 2 * i;
      EndsInRange(ps, i);
      StoredEntries(m, ps, true, i);
      Decode(Entry(m, 2 * i), EndOf(ps, i) + |ps[i].key|, i == 0, false);
    } else {
      assert k == 2 * i + 1;
      ValEntryDecoded(m, ps, true, i);
    }
  }

  lemma FirstDifference(x: seq<int>, y: seq<int>, i: nat)
    requires |x| == |y| && i <= |x| && x[..i] == y[..i] && (i < |x| ==> x[i] != y[i])
    ensures Compare(x, y) == if i == |x| then 0 else Sign(x[i], y[i])
  {
    if i == |x| {
      assert x == x[..i] && y == y[..i];
    } else {
      forall k | 0 <= k < i ensures x[k] == y[k] {
        assert x[..i][k] == y[..i][k];
      }
      PrefixIs(x, y, i);
      PrefixIs(y, x, i);
    }
  }

  /** The loop over the entries. */
  method CompareEntries(m1: Bytes, m2: Bytes, count: nat, ghost p1: seq<Pair>, ghost p2: seq<Pair>) returns (res: int)
    requires Image(m1, p1) && Image(m2, p2) && count == 2 * |p1| == 2 * |p2|
    ensures res == Compare(Codes(p1), Codes(p2))
  {
    hide Image, Entry, EndPos, IsNull, Compare, Codes;
    ghost var x, y := Codes(p1), Codes(p2);
    var i := 0;
    while i < count
      invariant 0 <= i <= count && x[..i] == y[..i]
    {
      EntryCode(m1, p1, i);
      EntryCode(m2, p2, i);
      if EndPos(Entry(m1, i)) != EndPos(Entry(m2, i)) || IsNull(Entry(m1, i)) != IsNull(Entry(m2, i)) {
        break;
      }
      OneMoreSame(x, y, i);
      i := i + 1;
    }
    res := 0;
    if i < count {
      if EndPos(Entry(m1, i)) < EndPos(Entry(m2, i)) {
        res := -1;
      } else if EndPos(Entry(m1, i)) > EndPos(Entry(m2, i)) {
        res := 1;
      } else if IsNull(Entry(m1, i)) {
        res := 1;
      } else if IsNull(Entry(m2, i)) {
        res := -1;
      }
    }
    FirstDifference(x, y, i);
  }

  lemma OneMoreSame(x: seq<int>, y: seq<int>, i: nat)
    requires i < |x| && i < |y| && x[..i] == y[..i] && x[i] == y[i]
    ensures x[..i + 1] == y[..i + 1]
  {
    assert x[..i + 1] == x[..i] + [x[i]] && y[..i + 1] == y[..i] + [y[i]];
  }

  lemma StringsIn(m: Bytes, ps: seq<Pair>)
    requires Image(m, ps)
    ensures StrPtr(|ps|) + |Strings(ps)| <= |m| && m[StrPtr(|ps|)..StrPtr(|ps|) + |Strings(ps)|] == Strings(ps)
  {
    AtSlice(m, StrPtr(|ps|), Strings(ps));
  }

  lemma EmptyCmp(a: seq<Pair>, b: seq<Pair>)
    requires |a| == 0 || |b| == 0
    ensures Cmp(a, b) == if |a| > 0 then 1 else if |b| > 0 then -1 else 0
  {
    StringsOfNone();
    assert |a| == 0 ==> a == [];
    assert |b| == 0 ==> b == [];
    if Strings(a) != [] && |b| == 0 {
      PrefixIs([], Strings(a), 0);
    }
    if Strings(b) != [] && |a| == 0 {
      PrefixIs([], Strings(b), 0);
    }
    if |a| == |b| {
      assert Codes(a) == Codes(b);
    }
  }

  /** The string buffer of a value that is not empty, its length taken from the last entry. */
  method StringBuffer(hs: Bytes, count: nat, ghost ps: seq<Pair>) returns (str: Bytes)
    requires Image(hs, ps) && count == |ps| > 0
    ensures str == Strings(ps)
  {
    hide Image, Strings, EndPos, Entry;
    StringsIn(hs, ps);
    EndOfLast(hs, ps);
    var len := EndPos(Entry(hs, 2 * count - 1));
    str := hs[StrPtr(count)..StrPtr(count) + len];
  }

  /** The order, as the branches of hstore_cmp decide it. */
  lemma CmpBranches(a: seq<Pair>, b: seq<Pair>, x: Bytes, y: Bytes, n: nat)
    requires x == Strings(a) && y == Strings(b) && n == if |x| < |y| then |x| else |y|
    ensures Cmp(a, b) == var c := Compare(x[..n], y[..n]);
                         if c != 0 then c else if |x| != |y| then Sign(|x|, |y|)
                         else if |a| != |b| then Sign(|a|, |b|) else Compare(Codes(a), Codes(b))
    ensures -1 <= Compare(x[..n], y[..n]) <= 1
  {
    ComparePrefix(x, y, n);
    hide Strings, Codes, Less;
  }

  /** hstore_cmp. */
  method HstoreCmp(hs1: Bytes, hs2: Bytes, ghost p1: seq<Pair>, ghost p2: seq<Pair>) returns (res: int)
    requires Image(hs1, p1) && Image(hs2, p2)
    ensures res == Cmp(p1, p2)
  {
    hide Image, HsCount, Strings, Codes, Compare, Cmp;
    ReadCount(hs1, p1);
    ReadCount(hs2, p2);
    var hcount1, hcount2 := HsCount(hs1), HsCount(hs2);
    if hcount1 == 0 || hcount2 == 0 {
      EmptyCmp(p1, p2);
      return if hcount1 > 0 then 1 else if hcount2 > 0 then -1 else 0;
    }
    var str1 := StringBuffer(hs1, hcount1, p1);
    var str2 := StringBuffer(hs2, hcount2, p2);
    var n := if |str1| < |str2| then |str1| else |str2|;
    CmpBranches(p1, p2, str1, str2, n);
    res := Compare(str1[..n], str2[..n]);
    if res == 0 {
      if |str1| > |str2| {
        res := 1;
      } else if |str1| < |str2| {
        res := -1;
      } else if hcount1 > hcount2 {
        res := 1;
      } else if hcount2 > hcount1 {
        res := -1;
      } else {
        res := CompareEntries(hs1, hs2, hcount1 * 2, p1, p2);
      }
    } else {
      res := if res > 0 then 1 else -1;
    }
  }
}
