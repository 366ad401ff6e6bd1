/** The operators on packed values: lookup with a cached lower bound, containment, concatenation and deletion. */
module HstoreOps {
  import opened Wrappers
  import opened Lex
  import opened HstorePairs
  import opened HstoreLayout
  import opened HstoreBuild

  const MaxAllocSize: nat := 0x3fff_ffff

  // ---- Reading ----

  predicate Readable(m: Bytes, i: nat) {
    && StrPtr(i + 1) <= |m| && KeyLen(m, i) >= 0 && ValLen(m, i) >= 0
    && KeyOff(m, i) + KeyLen(m, i) <= |m| && ValOff(m, i) + ValLen(m, i) <= |m|
  }

  function KeyAt(m: Bytes, i: nat): Bytes
    requires Readable(m, i)
  {
    m[KeyOff(m, i)..KeyOff(m, i) + KeyLen(m, i)]
  }

  function ValAt(m: Bytes, i: nat): Value
    requires Readable(m, i)
  {
    if ValIsNull(m, i) then Null else Text(m[ValOff(m, i)..ValOff(m, i) + ValLen(m, i)])
  }

  lemma AtSlice(m: Bytes, off: nat, s: Bytes)
    requires At(m, off, s)
    ensures m[off..off + |s|] == s
  {
  }

  /** The macros read pair i. */
  lemma ReadKeyAndVal(m: Bytes, ps: seq<Pair>, i: nat)
    requires Image(m, ps) && i < |ps|
    ensures HsCount(m) == |ps| && Readable(m, i) && KeyAt(m, i) == ps[i].key && ValAt(m, i) == ps[i].val
  {
    ReadPair(m, ps, i);
    hide Image, KeyOff, ValOff, KeyLen, ValLen, ValIsNull, At;
    AtSlice(m, KeyOff(m, i), ps[i].key);
    AtSlice(m, ValOff(m, i), ValueBytes(ps[i].val));
  }

  lemma ReadCount(m: Bytes, ps: seq<Pair>)
    requires Image(m, ps)
    ensures |m| >= HSHRDSIZE && HsCount(m) == |ps|
  {
    Counts(|ps|);
  }

  /** A packed value is that of one list of pairs only. */
  lemma ImageOnce(m: Bytes, ps: seq<Pair>, qs: seq<Pair>)
    requires Image(m, ps) && Image(m, qs)
    ensures ps == qs
  {
    ReadCount(m, ps);
    ReadCount(m, qs);
    forall i | 0 <= i < |ps| ensures ps[i] == qs[i] {
      ReadKeyAndVal(m, ps, i);
      ReadKeyAndVal(m, qs, i);
    }
  }

  // ---- Lookup ----

  /** Where the key is, or -1. */
  ghost predicate IsIndex(ps: seq<Pair>, key: Bytes, idx: int) {
    if idx >= 0 then idx < |ps| && ps[idx].key == key else idx == -1 && !HasKey(ps, key)
  }

  /** All keys before the bound are smaller than the one searched. */
  ghost predicate LowBound(ps: seq<Pair>, key: Bytes, low: nat) {
    low <= |ps| && forall i :: 0 <= i < low ==> KeyLess(ps[i].key, key)
  }

  lemma OnlyIndex(ps: seq<Pair>, key: Bytes, i: int, j: int)
    requires Sorted(ps) && IsIndex(ps, key, i) && IsIndex(ps, key, j)
    ensures i == j
  {
    KeyLessIrreflexive(key, key);
    hide KeyLess;
  }

  /** hstoreFindKey. The bound it leaves is one for every larger key, so a search for the next key of an ascending list
      finds what a fresh search would. */
  method FindKey(hs: Bytes, lowbound: nat, key: Bytes, ghost ps: seq<Pair>) returns (idx: int, lowbound': nat)
    requires WellFormed(hs, ps) && LowBound(ps, key, lowbound)
    ensures IsIndex(ps, key, idx)
    ensures forall key' :: KeyLess(key, key') ==> LowBound(ps, key', lowbound')
  {
    ReadCount(hs, ps);
    hide KeyLess, Image;
    var stopLow: nat := lowbound;
    var stopHigh: nat := HsCount(hs);
    while stopLow < stopHigh
      invariant stopLow <= stopHigh <= |ps| && LowBound(ps, key, stopLow)
      invariant forall i :: stopHigh <= i < |ps| ==> KeyLess(key, ps[i].key)
    {
      var stopMiddle: nat := stopLow + (stopHigh - stopLow) / 2;
      ReadKeyAndVal(hs, ps, stopMiddle);
      var difference := KeyCompare(KeyAt(hs, stopMiddle), key);
      BoundMoves(ps, key, stopMiddle);
      if difference == 0 {
        BoundForLarger(ps, key, stopMiddle);
        return stopMiddle, stopMiddle + 1;
      } else if difference < 0 {
        stopLow := stopMiddle + 1;
      } else {
        stopHigh := stopMiddle;
      }
    }
    NotThere(ps, key, stopLow);
    forall key' | KeyLess(key, key') ensures LowBound(ps, key', stopLow) {
      BoundGrows(ps, key, key', stopLow);
    }
    return -1, stopLow;
  }

  lemma BoundMoves(ps: seq<Pair>, key: Bytes, i: nat)
    requires Sorted(ps) && i < |ps|
    ensures KeyLess(ps[i].key, key) ==> LowBound(ps, key, i + 1)
    ensures KeyLess(key, ps[i].key) ==> forall j :: i <= j < |ps| ==> KeyLess(key, ps[j].key)
    ensures ps[i].key == key ==> LowBound(ps, key, i)
  {
    forall j | 0 <= j < i ensures KeyLess(ps[i].key, key) ==> KeyLess(ps[j].key, key) {
      if KeyLess(ps[i].key, key) {
        KeyLessTransitive(ps[j].key, ps[i].key, key);
      }
    }
    forall j | i < j < |ps| ensures KeyLess(key, ps[i].key) ==> KeyLess(key, ps[j].key) {
      if KeyLess(key, ps[i].key) {
        KeyLessTransitive(key, ps[i].key, ps[j].key);
      }
    }
    hide KeyLess;
  }

  lemma BoundGrows(ps: seq<Pair>, key: Bytes, key': Bytes, low: nat)
    requires LowBound(ps, key, low) && KeyLess(key, key')
    ensures LowBound(ps, key', low)
  {
    forall i | 0 <= i < low ensures KeyLess(ps[i].key, key') {
      KeyLessTransitive(ps[i].key, key, key');
    }
  }

  lemma BoundForLarger(ps: seq<Pair>, key: Bytes, i: nat)
    requires Sorted(ps) && i < |ps| && ps[i].key == key
    ensures forall key' :: KeyLess(key, key') ==> LowBound(ps, key', i + 1)
  {
    forall key' | KeyLess(key, key') ensures LowBound(ps, key', i + 1) {
      BoundMoves(ps, key', i);
    }
  }

  lemma NotThere(ps: seq<Pair>, key: Bytes, low: nat)
    requires LowBound(ps, key, low) && forall i :: low <= i < |ps| ==> KeyLess(key, ps[i].key)
    ensures !HasKey(ps, key)
  {
    KeyLessIrreflexive(key, key);
    hide KeyLess;
  }

  // ---- Containment ----

  /** hstore_contains, searching the keys of tmpl in order with the cached bound. */
  method HstoreContains(val: Bytes, tmpl: Bytes, ghost vs: seq<Pair>, ghost ts: seq<Pair>) returns (res: bool)
    requires WellFormed(val, vs) && WellFormed(tmpl, ts)
    ensures res == Contains(vs, ts)
  {
    hide KeyLess, Image, HasKey, IsIndex, Readable, KeyAt, ValAt, LowBound;
    ReadCount(tmpl, ts);
    res := true;
    var tcount := HsCount(tmpl);
    var lastidx: nat := 0;
    var i := 0;
    NoBound(vs, ts);
    while res && i < tcount
      invariant 0 <= i <= tcount
      invariant i < tcount ==> LowBound(vs, ts[i].key, lastidx)
      invariant res == forall k :: 0 <= k < i ==> ts[k] in vs
    {
      ReadKeyAndVal(tmpl, ts, i);
      var idx;
      idx, lastidx := FindKey(val, lastidx, KeyAt(tmpl, i), vs);
      IndexFound(vs, ts[i], idx);
      if idx >= 0 {
        ReadKeyAndVal(val, vs, idx);
        if ValAt(tmpl, i) != ValAt(val, idx) {
          res := false;
        }
      } else {
        res := false;
      }
      i := i + 1;
    }
    AllMembers(vs, ts, i);
  }

  lemma NoBound(vs: seq<Pair>, ts: seq<Pair>)
    ensures ts != [] ==> LowBound(vs, ts[0].key, 0)
  {
  }

  lemma IndexFound(vs: seq<Pair>, p: Pair, idx: int)
    requires Sorted(vs) && IsIndex(vs, p.key, idx)
    ensures idx >= 0 ==> idx < |vs| && (p in vs <==> vs[idx].val == p.val)
    ensures idx < 0 ==> p !in vs
  {
    hide KeyLess;
    if idx >= 0 && p in vs {
      OneValue(vs, p, vs[idx]);
    }
    if idx >= 0 && vs[idx].val == p.val {
      assert vs[idx] == p;
    }
  }

  lemma AllMembers(vs: seq<Pair>, ts: seq<Pair>, i: nat)
    requires i <= |ts|
    ensures i == |ts| && (forall k :: 0 <= k < i ==> ts[k] in vs) ==> Contains(vs, ts)
    ensures Contains(vs, ts) ==> forall k :: 0 <= k < i ==> ts[k] in vs
  {
    if Contains(vs, ts) {
      forall k | 0 <= k < i ensures ts[k] in vs {
        assert ts[k] in ts;
      }
    }
  }

  // ---- Merging into a new value ----

  lemma {:induction false} StringsCons(p: Pair, ps: seq<Pair>)
    ensures |Strings([p] + ps)| == |PairBytes(p)| + |Strings(ps)|
  {
    hide PairBytes;
    if ps == [] {
      StringsSnoc([], p);
      assert [p] + ps == [] + [p];
    } else {
      var n := |ps| - 1;
      StringsCons(p, ps[..n]);
      assert [p] + ps == [p] + ps[..n] + [ps[n]];
      StringsSnoc([p] + ps[..n], ps[n]);
    }
  }

  lemma StringsTail(ps: seq<Pair>)
    requires ps != []
    ensures |Strings(ps)| == |PairBytes(ps[0])| + |Strings(ps[1..])|
  {
    StringsCons(ps[0], ps[1..]);
    assert [ps[0]] + ps[1..] == ps;
  }

  /** The merged pairs need no more room than both values had. */
  lemma {:induction false} MergeFits(a: seq<Pair>, b: seq<Pair>)
    ensures |Merge(a, b)| <= |a| + |b| && |Strings(Merge(a, b))| <= |Strings(a)| + |Strings(b)|
  {
    hide KeyLess, KeyCompare, Strings;
    if a == [] || b == [] {
    } else {
      StringsTail(a);
      StringsTail(b);
      var c := KeyCompare(a[0].key, b[0].key);
      if c < 0 {
        MergeFits(a[1..], b);
        StringsCons(a[0], Merge(a[1..], b));
      } else if c == 0 {
        MergeFits(a[1..], b[1..]);
        StringsCons(b[0], Merge(a[1..], b[1..]));
      } else {
        MergeFits(a, b[1..]);
        StringsCons(b[0], Merge(a, b[1..]));
      }
    }
  }

  lemma {:induction false} MinusFits(a: seq<Pair>, b: seq<Pair>)
    ensures |Minus(a, b)| <= |a| && |Strings(Minus(a, b))| <= |Strings(a)|
    decreases |a| + |b|
  {
    hide KeyLess, KeyCompare, Strings;
    if a != [] && b != [] {
      StringsTail(a);
      var c := KeyCompare(a[0].key, b[0].key);
      if c > 0 {
        MinusFits(a, b[1..]);
      } else if c < 0 {
        MinusFits(a[1..], b);
        StringsCons(a[0], Minus(a[1..], b));
      } else {
        MinusFits(a[1..], b[1..]);
        StringsCons(a[0], Minus(a[1..], b[1..]));
      }
    }
  }

  lemma {:induction false} WithoutFits(a: seq<Pair>, ks: seq<Bytes>)
    ensures |Without(a, ks)| <= |a| && |Strings(Without(a, ks))| <= |Strings(a)|
    decreases |a| + |ks|
  {
    hide KeyLess, KeyCompare, Strings;
    if a != [] && ks != [] {
      StringsTail(a);
      var c := KeyCompare(a[0].key, ks[0]);
      if c > 0 {
        WithoutFits(a, ks[1..]);
      } else if c == 0 {
        WithoutFits(a[1..], ks[1..]);
      } else {
        WithoutFits(a[1..], ks);
        StringsCons(a[0], Without(a[1..], ks));
      }
    }
  }

  /** What has been built is the beginning of the result, and what the loop has yet to do is the rest. */
  ghost predicate Building(out: array<byte>, c: nat, done: seq<Pair>, rest: seq<Pair>, result: seq<Pair>)
    reads out
  {
    Partial(out[..], c, done) && done + rest == result && |result| <= c
    && StrPtr(c) + |Strings(result)| <= out.Length < POS_LIMIT
  }

  lemma NextFits(done: seq<Pair>, p: Pair, rest: seq<Pair>, result: seq<Pair>)
    requires done + ([p] + rest) == result
    ensures (done + [p]) + rest == result && |done| + 1 <= |result|
    ensures |Strings(done)| + |PairBytes(p)| <= |Strings(result)|
  {
    assert (done + [p]) + rest == result;
    StringsPrefix(result, |done| + 1);
    assert result[..|done| + 1] == done + [p];
    StringsSnoc(done, p);
  }

  /** HS_COPYITEM of pair i of a source value, the next pair of the result. */
  method CopyFrom(out: array<byte>, ed: nat, bufd: nat, pd: nat, src: Bytes, i: nat, ghost c: nat, ghost sp: seq<Pair>,
                  ghost done: seq<Pair>, ghost rest: seq<Pair>, ghost result: seq<Pair>)
    returns (ed': nat, pd': nat)
    requires Image(src, sp) && i < |sp|
    requires Building(out, c, done, [sp[i]] + rest, result)
    requires ed == 2 * |done| && bufd == StrPtr(c) && pd == bufd + |Strings(done)|
    modifies out
    ensures Building(out, c, done + [sp[i]], rest, result)
    ensures ed' == 2 * |done + [sp[i]]| && pd' == bufd + |Strings(done + [sp[i]])|
  {
    hide Image, Partial, At, KeyOff, ValOff, KeyLen, ValLen, ValIsNull, Strings, PairBytes;
    ReadPair(src, sp, i);
    NextFits(done, sp[i], rest, result);
    PairBytesSize(sp[i]);
    ed', pd' := CopyItem(out, ed, bufd, pd, src, KeyOff(src, i), KeyLen(src, i), ValLen(src, i), ValIsNull(src, i),
                         c, done, sp[i]);
  }

  /** A new buffer, its count set for c pairs. */
  method NewValue(size: nat, c: nat) returns (out: array<byte>)
    requires StrPtr(c) <= size < POS_LIMIT
    ensures fresh(out) && out.Length == size && Partial(out[..], c, [])
  {
    out := new byte[size](_ => 0);
    PutWord(out, 4, c + HS_FLAG_NEWVERSION);
  }

  /** The packed value copied as it is: memcpy, HS_FIXSIZE and HS_SETCOUNT. */
  method CopyWhole(out: array<byte>, src: Bytes, ghost ps: seq<Pair>)
    requires Image(src, ps) && VarSize(src) <= out.Length
    modifies out
    ensures Image(out[..], ps)
  {
    var n := VarSize(src);
    for k := 0 to n
      invariant forall j :: 0 <= j < k ==> out[j] == src[j]
    {
      out[k] := src[k];
    }
    CopiedImage(src, out[..], ps);
    ReadCount(src, ps);
    hide Image;
    var count := HsCount(src);
    if count != 0 {
      EndOfLast(src, ps);
    }
    var bl := if count != 0 then EndPos(Entry(src, 2 * count - 1)) else 0;
    FixSize(out, count, bl, ps);
  }

  lemma CopiedImage(m: Bytes, m': Bytes, ps: seq<Pair>)
    requires Image(m, ps) && VarSize(m) <= |m'| && forall j :: 0 <= j < VarSize(m) ==> m'[j] == m[j]
    ensures Image(m', ps)
  {
    hide EndOf;
    SameWord(m, m', 0);
    SameWord(m, m', 4);
    forall i | 0 <= i < |ps| ensures PairEntries(m', ps, i, true) {
      assert PairEntries(m, ps, i, true);
      SameWord(m, m', HSHRDSIZE + 4 * (2 * i));
      SameWord(m, m', HSHRDSIZE + 4 * (2 * i + 1));
    }
  }

  /** The last end position is the length of all strings. */
  lemma EndOfLast(m: Bytes, ps: seq<Pair>)
    requires Image(m, ps) && ps != []
    ensures StrPtr(|ps|) <= |m| && EndPos(Entry(m, 2 * |ps| - 1)) == |Strings(ps)|
  {
    ValEntryDecoded(m, ps, true, |ps| - 1);
    assert ps[..|ps|] == ps;
    assert 2 * (|ps| - 1) + 1 == 2 * |ps| - 1;
  }

  /** HS_FIXSIZE and HS_SETCOUNT on a complete value. */
  method FixSize(mem: array<byte>, count: nat, bl: nat, ghost ps: seq<Pair>)
    requires Image(mem[..], ps) && count == |ps| && bl == |Strings(ps)|
    modifies mem
    ensures Image(mem[..], ps)
  {
    ghost var m := mem[..];
    assert CalcDataSize(count, bl) == VarSize(m) < POS_LIMIT;
    assert Entries(m, ps, true) && At(m, StrPtr(|ps|), Strings(ps));
    hide Untouched, Word, Strings, At, Entries;
    PutWord(mem, 4, count + HS_FLAG_NEWVERSION);
    Counted(m, mem[..], ps, StrPtr(|ps|));
    SetSize(mem, CalcDataSize(count, bl), ps);
  }

  lemma Tails(ps: seq<Pair>, i: nat)
    requires i < |ps|
    ensures ps[i..] != [] && ps[i..][0] == ps[i] && ps[i..][1..] == ps[i + 1..] && ps[i..] == [ps[i]] + ps[i + 1..]
  {
  }

  lemma MergeStep(a: seq<Pair>, b: seq<Pair>, i: nat, j: nat)
    requires i <= |a| && j <= |b| && (i < |a| || j < |b|)
    ensures var d := if i >= |a| then 1 else if j >= |b| then -1 else KeyCompare(a[i].key, b[j].key);
            Merge(a[i..], b[j..]) == if d < 0 then [a[i]] + Merge(a[i + 1..], b[j..])
                                     else if d == 0 then [b[j]] + Merge(a[i + 1..], b[j + 1..])
                                     else [b[j]] + Merge(a[i..], b[j + 1..])
  {
    hide KeyCompare;
    if i < |a| { Tails(a, i); }
    if j < |b| { Tails(b, j); }
  }

  lemma SizesAdd(m1: Bytes, m2: Bytes, p1: seq<Pair>, p2: seq<Pair>)
    requires Image(m1, p1) && Image(m2, p2) && VarSize(m1) + VarSize(m2) < POS_LIMIT
    ensures |Merge(p1, p2)| <= |p1| + |p2| < COUNT_LIMIT
    ensures StrPtr(|p1| + |p2|) + |Strings(Merge(p1, p2))| + HSHRDSIZE <= VarSize(m1) + VarSize(m2)
  {
    MergeFits(p1, p2);
    hide Strings, Entries, Word, At;
  }

  lemma StartBuilding(out: array<byte>, c: nat, result: seq<Pair>)
    requires Partial(out[..], c, []) && |result| <= c && StrPtr(c) + |Strings(result)| <= out.Length < POS_LIMIT
    ensures Building(out, c, [], result, result)
  {
    assert [] + result == result;
  }

  lemma DoneBuilding(out: array<byte>, c: nat, done: seq<Pair>, result: seq<Pair>)
    requires Building(out, c, done, [], result)
    ensures done == result && Partial(out[..], c, result) && CalcDataSize(c, |Strings(result)|) < POS_LIMIT
  {
    assert done + [] == done;
  }

  /** The sign hstore_concat computes at two positions. */
  method Difference(s1: Bytes, s2: Bytes, i: nat, j: nat, ghost p1: seq<Pair>, ghost p2: seq<Pair>) returns (d: int)
    requires Image(s1, p1) && Image(s2, p2)
    ensures d == if i >= |p1| then 1 else if j >= |p2| then -1 else KeyCompare(p1[i].key, p2[j].key)
  {
    hide Image, KeyCompare, KeyAt, Readable;
    ReadCount(s1, p1);
    ReadCount(s2, p2);
    if i >= HsCount(s1) {
      return 1;
    }
    if j >= HsCount(s2) {
      return -1;
    }
    ReadKeyAndVal(s1, p1, i);
    ReadKeyAndVal(s2, p2, j);
    d := KeyCompare(KeyAt(s1, i), KeyAt(s2, j));
  }

  /** The loop of hstore_concat: s2 is taken for equal keys. */
  method MergeLoop(out: array<byte>, bufd: nat, s1: Bytes, s2: Bytes, ghost p1: seq<Pair>, ghost p2: seq<Pair>)
    returns (outcount: nat, pd: nat)
    requires Image(s1, p1) && Image(s2, p2) && bufd == StrPtr(|p1| + |p2|)
    requires Building(out, |p1| + |p2|, [], Merge(p1, p2), Merge(p1, p2))
    modifies out
    ensures Building(out, |p1| + |p2|, Merge(p1, p2), [], Merge(p1, p2))
    ensures outcount == |Merge(p1, p2)| && pd == bufd + |Strings(Merge(p1, p2))|
  {
    hide Image, Strings, KeyCompare, Building, Merge, HsCount;
    ReadCount(s1, p1);
    ReadCount(s2, p2);
    var s1count, s2count := HsCount(s1), HsCount(s2);
    ghost var c, result := |p1| + |p2|, Merge(p1, p2);
    pd, outcount := bufd, 0;
    var ed, s1idx, s2idx: nat := 0, 0, 0;
    ghost var done: seq<Pair> := [];
    StringsOfNone();
    assert p1[0..] == p1 && p2[0..] == p2;
    while s1idx < s1count || s2idx < s2count
      invariant s1idx <= |p1| && s2idx <= |p2| && outcount == |done|
      invariant Building(out, c, done, Merge(p1[s1idx..], p2[s2idx..]), result)
      invariant ed == 2 * |done| && pd == bufd + |Strings(done)|
      decreases |p1| - s1idx + |p2| - s2idx
    {
      MergeStep(p1, p2, s1idx, s2idx);
      var difference := Difference(s1, s2, s1idx, s2idx, p1, p2);
      if difference >= 0 {
        ghost var rest := if difference == 0 then Merge(p1[s1idx + 1..], p2[s2idx + 1..])
                          else Merge(p1[s1idx..], p2[s2idx + 1..]);
        ed, pd := CopyFrom(out, ed, bufd, pd, s2, s2idx, c, p2, done, rest, result);
        done := done + [p2[s2idx]];
        s2idx := s2idx + 1;
        if difference == 0 {
          s1idx := s1idx + 1;
        }
      } else {
        ed, pd := CopyFrom(out, ed, bufd, pd, s1, s1idx, c, p1, done, Merge(p1[s1idx + 1..], p2[s2idx..]), result);
        done := done + [p1[s1idx]];
        s1idx := s1idx + 1;
      }
      outcount := outcount + 1;
    }
    NothingLeft(p1, p2, s1idx, s2idx);
    DoneBuilding(out, c, done, result);
  }

  /** Both values have pairs: merge them into the new buffer. */
  method MergeInto(out: array<byte>, s1: Bytes, s2: Bytes, ghost p1: seq<Pair>, ghost p2: seq<Pair>)
    requires Image(s1, p1) && Image(s2, p2) && Partial(out[..], |p1| + |p2|, [])
    requires out.Length == VarSize(s1) + VarSize(s2) < POS_LIMIT
    modifies out
    ensures Image(out[..], Merge(p1, p2))
  {
    hide Image, Partial, Strings, Building, HsCount, VarSize, Merge, Word, Entries, At;
    SizesAdd(s1, s2, p1, p2);
    StartBuilding(out, |p1| + |p2|, Merge(p1, p2));
    ReadCount(s1, p1);
    ReadCount(s2, p2);
    ghost var result := Merge(p1, p2);
    var bufd := StrPtr(HsCount(s1) + HsCount(s2));
    var outcount, pd := MergeLoop(out, bufd, s1, s2, p1, p2);
    DoneBuilding(out, |p1| + |p2|, result, result);
    Finalize(out, outcount, bufd, pd, |p1| + |p2|, result);
  }

  /** hstore_concat: the first value overridden by the second, well-formed, built within VARSIZE(s1) + VARSIZE(s2)
      bytes. */
  method HstoreConcat(s1: Bytes, s2: Bytes, ghost p1: seq<Pair>, ghost p2: seq<Pair>) returns (r: Option<array<byte>>)
    requires WellFormed(s1, p1) && WellFormed(s2, p2)
    ensures r.Some? <==> VarSize(s1) + VarSize(s2) <= MaxAllocSize
    ensures r.Some? ==> r.value.Length == VarSize(s1) + VarSize(s2) && WellFormed(r.value[..], Merge(p1, p2))
  {
    hide Image, Sorted, Partial, Strings, HsCount, VarSize, Merge, Word, Entries, At;
    MergeSorted(p1, p2);
    MergeEmpty(p1, p2);
    ReadCount(s1, p1);
    ReadCount(s2, p2);
    if VarSize(s1) + VarSize(s2) > MaxAllocSize {
      return None;
    }
    SizesAdd(s1, s2, p1, p2);
    var out := NewValue(VarSize(s1) + VarSize(s2), HsCount(s1) + HsCount(s2));
    r := Some(out);
    if HsCount(s1) == 0 {
      CopyWhole(out, s2, p2);
    } else if HsCount(s2) == 0 {
      CopyWhole(out, s1, p1);
    } else {
      MergeInto(out, s1, s2, p1, p2);
    }
  }

  lemma MergeEmpty(a: seq<Pair>, b: seq<Pair>)
    ensures (|a| == 0 ==> Merge(a, b) == b) && (|b| == 0 ==> Merge(a, b) == a)
  {
  }

  lemma StringsOfNone()
    ensures Strings([]) == []
  {
  }

  lemma NothingLeft(a: seq<Pair>, b: seq<Pair>, i: nat, j: nat)
    requires i == |a| && j == |b|
    ensures Merge(a[i..], b[j..]) == []
  {
  }
}
