/** Values in the format of the old contrib/hstore, and their conversion in place. */
module HstoreCompat {
  import opened Lex
  import opened HstorePairs
  import opened HstoreLayout
  import opened HstoreBuild
  import opened HstoreOps

  // ---- The old format ----

  /** HOldEntry: two 16-bit lengths in the first word, the null bit and the 31-bit position in the second. */
  function OldKeyLen(m: Bytes, i: nat): nat
    requires StrPtr(i + 1) <= |m|
  {
    Entry(m, 2 * i) % 0x1_0000
  }

  function OldRawValLen(m: Bytes, i: nat): nat
    requires StrPtr(i + 1) <= |m|
  {
    Entry(m, 2 * i) / 0x1_0000
  }

  predicate OldIsNull(m: Bytes, i: nat)
    requires StrPtr(i + 1) <= |m|
  {
    Entry(m, 2 * i + 1) % 2 == 1
  }

  function OldPos(m: Bytes, i: nat): nat
    requires StrPtr(i + 1) <= |m|
  {
    Entry(m, 2 * i + 1) / 2
  }

  function OldValLen(m: Bytes, i: nat): nat
    requires StrPtr(i + 1) <= |m|
  {
    if OldIsNull(m, i) then 0 else OldRawValLen(m, i)
  }

  /** The strings of the first n pairs, in bytes. */
  function Total(m: Bytes, n: nat): nat
    requires StrPtr(n) <= |m|
  {
    if n == 0 then 0 else Total(m, n - 1) + OldKeyLen(m, n - 1) + OldValLen(m, n - 1)
  }

  /** size_, which in the old format is the bare count. */
  function OldCount(m: Bytes): nat
    requires |m| >= HSHRDSIZE
  {
    Word(m, 4)
  }

  /** Key lengths that do not decrease. */
  ghost predicate OldKeysAscend(m: Bytes, n: nat)
    requires StrPtr(n) <= |m|
  {
    forall i :: 1 <= i < n ==> OldKeyLen(m, i - 1) <= OldKeyLen(m, i)
  }

  /** Each pair starts where the one before it ends. */
  ghost predicate Contiguous(m: Bytes, n: nat)
    requires StrPtr(n) <= |m|
  {
    forall i :: 0 <= i < n ==> OldPos(m, i) == Total(m, i)
  }

  /** A valid old-format value, empty ones aside: entries in bounds, contiguous, with key lengths that do not
      decrease. */
  ghost predicate OldValid(m: Bytes) {
    && |m| >= HSHRDSIZE && 0 < OldCount(m) < COUNT_LIMIT
    && StrPtr(OldCount(m)) <= VarSize(m) <= |m|
    && OldKeysAscend(m, OldCount(m)) && Contiguous(m, OldCount(m))
    && CalcDataSize(OldCount(m), Total(m, OldCount(m))) <= VarSize(m)
  }

  lemma {:induction false} TotalGrows(m: Bytes, i: nat, n: nat)
    requires i <= n && StrPtr(n) <= |m|
    ensures Total(m, i) <= Total(m, n)
    decreases n
  {
    if i < n {
      TotalGrows(m, i, n - 1);
    }
  }

  /** Where the strings of pair i are. */
  function OldKeyAt(m: Bytes, c: nat, i: nat): nat
    requires i < c && StrPtr(c) <= |m|
  {
    StrPtr(c) + Total(m, i)
  }

  lemma PairBounds(m: Bytes, c: nat, i: nat)
    requires i < c && StrPtr(c) <= |m| && StrPtr(c) + Total(m, c) <= |m|
    ensures OldKeyAt(m, c, i) + OldKeyLen(m, i) + OldValLen(m, i) <= |m|
  {
    hide OldKeyLen, OldValLen;
    TotalGrows(m, i + 1, c);
  }

  /** The bytes between two offsets; none if they are out of order or out of bounds. */
  function Cut(m: Bytes, from: nat, n: nat): (s: Bytes)
    ensures from + n <= |m| ==> |s| == n && At(m, from, s)
  {
    if from + n <= |m| then m[from..from + n] else []
  }

  /** Pair i of an old value. */
  function OldPair(m: Bytes, c: nat, i: nat): Pair
    requires i < c && StrPtr(c) <= |m|
  {
    var key := OldKeyAt(m, c, i);
    Pair(Cut(m, key, OldKeyLen(m, i)),
         if OldIsNull(m, i) then Null else Text(Cut(m, key + OldKeyLen(m, i), OldRawValLen(m, i))))
  }

  function OldPairs(m: Bytes, c: nat, n: nat): (ps: seq<Pair>)
    requires n <= c && StrPtr(c) <= |m|
    ensures |ps| == n
  {
    seq(n, i requires 0 <= i < n => OldPair(m, c, i))
  }

  lemma OldPairsNext(m: Bytes, c: nat, n: nat)
    requires n < c && StrPtr(c) <= |m| && StrPtr(c) + Total(m, c) <= |m|
    ensures OldPairs(m, c, n + 1) == OldPairs(m, c, n) + [OldPair(m, c, n)]
    ensures |OldPair(m, c, n).key| == OldKeyLen(m, n) && |ValueBytes(OldPair(m, c, n).val)| == OldValLen(m, n)
    ensures At(m, StrPtr(c) + Total(m, n), PairBytes(OldPair(m, c, n)))
  {
    hide OldKeyLen, OldRawValLen, Total, At, Cut;
    PairBounds(m, c, n);
    var key, klen, vlen := OldKeyAt(m, c, n), OldKeyLen(m, n), OldValLen(m, n);
    var p := OldPair(m, c, n);
    assert |p.key| == klen && |ValueBytes(p.val)| == vlen;
    EmptyAt(m, key + klen);
    AtJoin(m, key, p.key, ValueBytes(p.val));
  }

  lemma EmptyAt(m: Bytes, off: nat)
    ensures off <= |m| ==> At(m, off, [])
  {
  }

  /** The old strings are those of the pairs, one after the other. */
  lemma {:induction false} OldStrings(m: Bytes, c: nat, n: nat)
    requires n <= c && StrPtr(c) <= |m| && StrPtr(c) + Total(m, c) <= |m|
    ensures |Strings(OldPairs(m, c, n))| == Total(m, n) && At(m, StrPtr(c), Strings(OldPairs(m, c, n)))
    decreases n
  {
    hide OldPairs, OldPair, At, OldKeyLen, OldValLen, PairBytes;
    if n == 0 {
      NoOldPairs(m, c);
    } else {
      OldStrings(m, c, n - 1);
      OldPairsNext(m, c, n - 1);
      var p := OldPair(m, c, n - 1);
      PairBytesSize(p);
      StringsSnoc(OldPairs(m, c, n - 1), p);
      AtJoin(m, StrPtr(c), Strings(OldPairs(m, c, n - 1)), PairBytes(p));
    }
  }

  lemma NoOldPairs(m: Bytes, c: nat)
    requires StrPtr(c) <= |m| && StrPtr(c) + Total(m, c) <= |m|
    ensures Strings(OldPairs(m, c, 0)) == [] && At(m, StrPtr(c), [])
  {
  }

  lemma OldPairsPrefix(m: Bytes, c: nat, n: nat)
    requires n <= c && StrPtr(c) <= |m| && StrPtr(c) + Total(m, c) <= |m|
    ensures OldPairs(m, c, c)[..n] == OldPairs(m, c, n)
  {
  }

  /** What the pairs of an old value have to do with its entries. */
  lemma OldEntries(m: Bytes, c: nat, i: nat)
    requires i < c && StrPtr(c) <= |m| && StrPtr(c) + Total(m, c) <= |m|
    ensures var ps := OldPairs(m, c, c);
            && EndOf(ps, i) == Total(m, i) && EndOf(ps, i + 1) == Total(m, i + 1) <= Total(m, c)
            && |ps[i].key| == OldKeyLen(m, i) && ps[i].val.Null? == OldIsNull(m, i)
  {
    OldPairsPrefix(m, c, i);
    OldPairsPrefix(m, c, i + 1);
    OldStrings(m, c, i);
    OldStrings(m, c, i + 1);
    OldPairsNext(m, c, i);
    TotalGrows(m, i + 1, c);
    hide Strings, Total;
  }

  // ---- The validity tests ----

  /** The first loop of hstoreValidOldFormat. */
  method CheckKeyLens(hs: Bytes, count: nat) returns (ok: bool)
    requires 0 < count && StrPtr(count) <= |hs|
    ensures ok <==> OldKeysAscend(hs, count)
  {
    hide OldKeyLen;
    for i := 1 to count
      invariant OldKeysAscend(hs, i)
    {
      if OldKeyLen(hs, i) < OldKeyLen(hs, i - 1) {
        return false;
      }
    }
    return true;
  }

  /** Its second loop: -1, or where the strings end. */
  method CheckPositions(hs: Bytes, count: nat) returns (lastpos: int)
    requires StrPtr(count) <= |hs|
    ensures lastpos == if Contiguous(hs, count) then Total(hs, count) else -1
  {
    hide OldKeyLen, OldValLen, OldPos;
    lastpos := 0;
    for i := 0 to count
      invariant Contiguous(hs, i) && lastpos == Total(hs, i)
    {
      if OldPos(hs, i) != lastpos {
        return -1;
      }
      lastpos := lastpos + OldKeyLen(hs, i) + OldValLen(hs, i);
    }
  }

  /** hstoreValidOldFormat. */
  method ValidOldFormat(hs: Bytes) returns (v: nat)
    requires |hs| >= HSHRDSIZE && HSHRDSIZE <= VarSize(hs) <= |hs|
    ensures v <= 2
    ensures v > 0 <==> Word(hs, 4) == 0 || OldValid(hs)
    ensures v == 2 <==>
            Word(hs, 4) == 0 || (OldValid(hs) && VarSize(hs) == CalcDataSize(OldCount(hs), Total(hs, OldCount(hs))))
  {
    hide Word, OldPos, OldKeysAscend, Total, VarSize;
    var count := Word(hs, 4);
    if count >= HS_FLAG_NEWVERSION {
      return 0;
    }
    if count == 0 {
      return 2;
    }
    if count > 0xfff_ffff {
      return 0;
    }
    if CalcDataSize(count, 0) > VarSize(hs) {
      return 0;
    }
    if OldPos(hs, 0) != 0 {
      NotAtStart(hs, count);
      return 0;
    }
    var keysOk := CheckKeyLens(hs, count);
    if !keysOk {
      return 0;
    }
    var lastpos := CheckPositions(hs, count);
    if lastpos < 0 {
      return 0;
    }
    var vsize := CalcDataSize(count, lastpos);
    if vsize > VarSize(hs) {
      return 0;
    }
    v := if vsize != VarSize(hs) then 1 else 2;
  }

  lemma NotAtStart(m: Bytes, n: nat)
    requires 0 < n && StrPtr(n) <= |m| && OldPos(m, 0) != 0
    ensures !Contiguous(m, n)
  {
    assert Total(m, 0) == 0;
  }

  /** The size of a new-format value after its count and last end position. */
  function NewSize(m: Bytes): nat
    requires |m| >= HSHRDSIZE && StrPtr(HsCount(m)) <= |m|
  {
    var count := HsCount(m);
    CalcDataSize(count, if count == 0 then 0 else EndPos(Entry(m, 2 * count - 1)))
  }

  /** End positions that do not decrease, behind the first without the first flag. */
  ghost predicate EndsAscend(m: Bytes, n: nat)
    requires HSHRDSIZE + 4 * n <= |m|
  {
    forall i :: 1 <= i < n ==> !IsFirst(Entry(m, i)) && EndPos(Entry(m, i - 1)) <= EndPos(Entry(m, i))
  }

  /** Key lengths that do not decrease, and no null key behind the first. */
  ghost predicate KeysAscend(m: Bytes, n: nat)
    requires StrPtr(n) <= |m|
  {
    forall i :: 1 <= i < n ==> KeyLen(m, i - 1) <= KeyLen(m, i) && !IsNull(Entry(m, 2 * i))
  }

  /** What hstoreValidNewFormat accepts. */
  ghost predicate NewValid(m: Bytes)
    requires |m| >= HSHRDSIZE && StrPtr(HsCount(m)) <= |m|
  {
    var count := HsCount(m);
    || Word(m, 4) >= HS_FLAG_NEWVERSION
    || count == 0
    || (IsFirst(Entry(m, 0)) && NewSize(m) <= VarSize(m) && EndsAscend(m, 2 * count) && KeysAscend(m, count))
  }

  /** The first loop of hstoreValidNewFormat. */
  method CheckEnds(hs: Bytes, count: nat) returns (ok: bool)
    requires 0 < count && StrPtr(count) <= |hs|
    ensures ok <==> EndsAscend(hs, 2 * count)
  {
    hide IsFirst, EndPos, Entry;
    for i := 1 to 2 * count
      invariant EndsAscend(hs, i)
    {
      if IsFirst(Entry(hs, i)) || EndPos(Entry(hs, i)) < EndPos(Entry(hs, i - 1)) {
        return false;
      }
    }
    return true;
  }

  /** Its second loop. */
  method CheckKeys(hs: Bytes, count: nat) returns (ok: bool)
    requires 0 < count && StrPtr(count) <= |hs|
    ensures ok <==> KeysAscend(hs, count)
  {
    hide IsNull, KeyLen, Entry;
    for i := 1 to count
      invariant KeysAscend(hs, i)
    {
      if KeyLen(hs, i) < KeyLen(hs, i - 1) {
        return false;
      }
      if IsNull(Entry(hs, 2 * i)) {
        return false;
      }
    }
    return true;
  }

  /** hstoreValidNewFormat. */
  method ValidNewFormat(hs: Bytes) returns (v: nat)
    requires |hs| >= HSHRDSIZE && StrPtr(HsCount(hs)) <= |hs|
    ensures v <= 2 && (v > 0 <==> NewValid(hs))
    ensures v == 2 <==>
            Word(hs, 4) >= HS_FLAG_NEWVERSION || HsCount(hs) == 0 || (NewValid(hs) && VarSize(hs) == NewSize(hs))
  {
    hide IsFirst, EndPos, Entry, EndsAscend, KeysAscend, CalcDataSize;
    var count := HsCount(hs);
    if Word(hs, 4) >= HS_FLAG_NEWVERSION || count == 0 {
      return 2;
    }
    var vsize := CalcDataSize(count, EndPos(Entry(hs, 2 * count - 1)));
    if !IsFirst(Entry(hs, 0)) {
      return 0;
    }
    if vsize > VarSize(hs) {
      return 0;
    }
    var endsOk := CheckEnds(hs, count);
    if !endsOk {
      return 0;
    }
    var keysOk := CheckKeys(hs, count);
    if !keysOk {
      return 0;
    }
    v := if vsize != VarSize(hs) then 1 else 2;
  }

  // ---- The conversion ----

  /** The first n entries are converted, everything else is as it was. */
  ghost predicate ConvertedTo(m0: Bytes, m: Bytes, ps: seq<Pair>, n: nat) {
    && n <= |ps| && Untouched(m0, m, HSHRDSIZE, StrPtr(n))
    && forall k :: 0 <= k < n ==> PairEntries(m, ps, k, false)
  }

  lemma OneConverted(m0: Bytes, m: Bytes, m1: Bytes, m2: Bytes, ps: seq<Pair>, n: nat)
    requires ConvertedTo(m0, m, ps, n) && n < |ps| && StrPtr(n + 1) <= |m0|
    requires Untouched(m, m1, StrPtr(n), StrPtr(n) + 4) && Untouched(m1, m2, StrPtr(n) + 4, StrPtr(n) + 8)
    requires Word(m1, StrPtr(n)) == KeyEntry(ps, n, false) && Word(m2, StrPtr(n) + 4) == ValEntry(ps, n)
    ensures ConvertedTo(m0, m2, ps, n + 1)
  {
    hide EndOf;
    SameWord(m1, m2, StrPtr(n));
    forall k | 0 <= k < n + 1 ensures PairEntries(m2, ps, k, false) {
      if k < n {
        assert PairEntries(m, ps, k, false);
        SameWord(m, m2, HSHRDSIZE + 4 * (2 * k));
        SameWord(m, m2, HSHRDSIZE + 4 * (2 * k + 1));
      } else {
        assert StrPtr(n) == HSHRDSIZE + 4 * (2 * n);
      }
    }
  }

  /** The entries not yet converted are still those of the old value. */
  lemma StillOld(m0: Bytes, m: Bytes, ps: seq<Pair>, n: nat)
    requires ConvertedTo(m0, m, ps, n) && StrPtr(n + 1) <= |m0|
    ensures |m| == |m0| && Word(m, StrPtr(n)) == Entry(m0, 2 * n) && Word(m, StrPtr(n) + 4) == Entry(m0, 2 * n + 1)
  {
    SameWord(m0, m, StrPtr(n));
    SameWord(m0, m, StrPtr(n) + 4);
  }

  /** What is written for pair i is where it ends in the new format. */
  lemma NewEnds(m: Bytes, i: nat)
    requires OldValid(m) && i < OldCount(m)
    ensures var ps := OldPairs(m, OldCount(m), OldCount(m));
            && KeyEntry(ps, i, false) == OldPos(m, i) + OldKeyLen(m, i) < POS_LIMIT
            && OldPos(m, i) + OldKeyLen(m, i) + OldValLen(m, i) < POS_LIMIT
            && ValEntry(ps, i) == OldPos(m, i) + OldKeyLen(m, i) + OldValLen(m, i)
               + if OldIsNull(m, i) then HENTRY_ISNULL else 0
  {
    var c := OldCount(m);
    hide *;
    OldFacts(m, i);
    OldEntries(m, c, i);
    TotalGrows(m, i + 1, c);
    EntryIs(OldPairs(m, c, c), i);
  }

  lemma EntryIs(ps: seq<Pair>, i: nat)
    requires i < |ps|
    ensures KeyEntry(ps, i, false) == EndOf(ps, i) + |ps[i].key|
    ensures ValEntry(ps, i) == EndOf(ps, i + 1) + if ps[i].val.Null? then HENTRY_ISNULL else 0
  {
  }

  lemma OldFacts(m: Bytes, i: nat)
    requires OldValid(m) && i < OldCount(m)
    ensures var c := OldCount(m);
            && StrPtr(i) <= StrPtr(i + 1) <= StrPtr(c) <= |m| && StrPtr(c) + Total(m, c) <= |m|
            && Total(m, c) < POS_LIMIT
            && OldPos(m, i) == Total(m, i) && Total(m, i + 1) == Total(m, i) + OldKeyLen(m, i) + OldValLen(m, i)
  {
    hide OldKeyLen, OldValLen, OldPos, Word;
  }

  /** The loop of hstoreUpgrade: each old entry is overwritten by the two new ones in its place. */
  method ConvertEntries(mem: array<byte>, count: nat, ghost m0: Bytes)
    requires mem[..] == m0 && OldValid(m0) && count == OldCount(m0)
    modifies mem
    ensures ConvertedTo(m0, mem[..], OldPairs(m0, count, count), count)
  {
    ghost var ps := OldPairs(m0, count, count);
    NoneConverted(m0, ps);
    hide ConvertedTo, OldValid, OldPairs, OldCount;
    for i := 0 to count
      invariant ConvertedTo(m0, mem[..], ps, i)
    {
      ConvertOne(mem, i, m0, ps);
    }
  }

  lemma OldWords(m: Bytes, i: nat)
    requires StrPtr(i + 1) <= |m|
    ensures OldPos(m, i) == Entry(m, 2 * i + 1) / 2 && OldIsNull(m, i) == (Entry(m, 2 * i + 1) % 2 == 1)
    ensures OldKeyLen(m, i) == Entry(m, 2 * i) % 0x1_0000
    ensures OldValLen(m, i) == if OldIsNull(m, i) then 0 else Entry(m, 2 * i) / 0x1_0000
  {
  }

  method ConvertOne(mem: array<byte>, i: nat, ghost m0: Bytes, ghost ps: seq<Pair>)
    requires OldValid(m0) && i < OldCount(m0) && ps == OldPairs(m0, OldCount(m0), OldCount(m0))
    requires ConvertedTo(m0, mem[..], ps, i)
    modifies mem
    ensures ConvertedTo(m0, mem[..], ps, i + 1)
  {
    hide OldValid, ConvertedTo, OldPairs, Word, KeyEntry, ValEntry, Untouched, OldPos, OldKeyLen, OldValLen, OldIsNull,
         Total, Entry;
    ghost var m := mem[..];
    OldFacts(m0, i);
    OldWords(m0, i);
    StillOld(m0, m, ps, i);
    NewEnds(m0, i);
    var w0 := ReadWord(mem, StrPtr(i));
    var w1 := ReadWord(mem, StrPtr(i) + 4);
    var pos, keylen, vallen, isnull := w1 / 2, w0 % 0x1_0000, w0 / 0x1_0000, w1 % 2 == 1;
    if isnull {
      vallen := 0;
    }
    FitsMask(pos + keylen);
    FitsMask(pos + keylen + vallen);
    PutWord(mem, StrPtr(i), (pos + keylen) % POS_LIMIT);
    ghost var m1 := mem[..];
    PutWord(mem, StrPtr(i) + 4, (pos + keylen + vallen) % POS_LIMIT + if isnull then HENTRY_ISNULL else 0);
    OneConverted(m0, m, m1, mem[..], ps, i);
  }

  lemma NoneConverted(m0: Bytes, ps: seq<Pair>)
    ensures ConvertedTo(m0, m0, ps, 0)
  {
  }

  /** All entries are converted: those of the pairs, behind an old header. */
  lemma AllConverted(m0: Bytes, m: Bytes)
    requires OldValid(m0)
    requires var c := OldCount(m0); ConvertedTo(m0, m, OldPairs(m0, c, c), c)
    ensures var ps := OldPairs(m0, OldCount(m0), OldCount(m0));
            && |ps| == OldCount(m0) && |m| == |m0| && Entries(m, ps, false) && At(m, StrPtr(|ps|), Strings(ps))
            && |Strings(ps)| == Total(m0, |ps|)
  {
    var c := OldCount(m0);
    OldStrings(m0, c, c);
    hide Word, Strings, Total, At, PairEntries;
    AtKept(m0, m, HSHRDSIZE, StrPtr(c), StrPtr(c), Strings(OldPairs(m0, c, c)));
  }

  /** The conversion in hstoreUpgrade: the same pairs, in the same order, in the new format. */
  method Convert(mem: array<byte>)
    requires OldValid(mem[..])
    modifies mem
    ensures var m0 := old(mem[..]); Image(mem[..], OldPairs(m0, OldCount(m0), OldCount(m0)))
  {
    ghost var m0 := mem[..];
    var count := ReadWord(mem, 4);
    ghost var ps := OldPairs(m0, count, count);
    ConvertEntries(mem, count, m0);
    AllConverted(m0, mem[..]);
    SizesOf(m0);
    hide Word, OldPairs, Strings, Total, At, Entries, Untouched, OldValid, VarSize;
    ghost var m1 := mem[..];
    FirstUnflagged(m1, ps);
    var e := ReadWord(mem, HSHRDSIZE);
    PutWord(mem, HSHRDSIZE, if IsFirst(e) then e else e + HENTRY_ISFIRST);
    ghost var m2 := mem[..];
    EntriesFlagged(m1, m2, ps);
    AtKept(m1, m2, HSHRDSIZE, HSHRDSIZE + 4, StrPtr(count), Strings(ps));
    PutWord(mem, 4, count + HS_FLAG_NEWVERSION);
    Counted(m2, mem[..], ps, StrPtr(count));
    LastEnd(mem[..], ps);
    var last := ReadWord(mem, HSHRDSIZE + 4 * (2 * count - 1));
    SetSize(mem, CalcDataSize(count, EndPos(last)), ps);
  }

  lemma SizesOf(m: Bytes)
    requires OldValid(m)
    ensures 0 < OldCount(m) < COUNT_LIMIT && VarSize(m) < POS_LIMIT
    ensures CalcDataSize(OldCount(m), Total(m, OldCount(m))) <= VarSize(m) <= |m|
  {
  }

  lemma LastEnd(m: Bytes, ps: seq<Pair>)
    requires Entries(m, ps, true) && ps != [] && |Strings(ps)| < POS_LIMIT
    ensures StrPtr(|ps|) <= |m| && EndPos(Word(m, HSHRDSIZE + 4 * (2 * |ps| - 1))) == |Strings(ps)|
  {
    ValEntryDecoded(m, ps, true, |ps| - 1);
    assert ps[..|ps|] == ps;
    assert 2 * (|ps| - 1) + 1 == 2 * |ps| - 1;
  }

  // ---- hstoreUpgrade ----

  datatype Outcome = AlreadyNew | TakenAsNew | Converted | Invalid

  /** What is done to a value passed on as new: the flag and the size are set, entries and strings stay. */
  ghost predicate Taken(m0: Bytes, m: Bytes)
  {
    && |m0| >= HSHRDSIZE && StrPtr(HsCount(m0)) <= |m0| && Untouched(m0, m, 0, HSHRDSIZE)
    && Word(m, 4) == HsCount(m0) + HS_FLAG_NEWVERSION
    && VarSize(m) == NewSize(m0) % POS_LIMIT
  }

  /** HS_BUFLEN as HS_FIXSIZE computes it. */
  method StringsLength(mem: array<byte>, count: nat) returns (bl: nat)
    requires StrPtr(count) <= mem.Length
    ensures bl == if count == 0 then 0 else EndPos(Word(mem[..], HSHRDSIZE + 4 * (2 * count - 1)))
  {
    hide Word, EndPos;
    if count == 0 {
      return 0;
    }
    var last := ReadWord(mem, HSHRDSIZE + 4 * (2 * count - 1));
    bl := EndPos(last);
  }

  method TakeAsNew(mem: array<byte>)
    requires mem.Length >= HSHRDSIZE && StrPtr(HsCount(mem[..])) <= mem.Length
    modifies mem
    ensures Taken(old(mem[..]), mem[..])
  {
    ghost var m0 := mem[..];
    hide Word, EndPos, CalcDataSize, Untouched, Taken;
    var size := ReadWord(mem, 4);
    var count := size % COUNT_LIMIT;
    PutWord(mem, 4, count + HS_FLAG_NEWVERSION);
    ghost var m1 := mem[..];
    var bl := StringsLength(mem, count);
    var vsize := CalcDataSize(count, bl) % POS_LIMIT;
    SizeWord(vsize);
    PutWord(mem, 0, 4 * vsize);
    TakenIs(m0, m1, mem[..], count, bl);
  }

  lemma TakenIs(m0: Bytes, m1: Bytes, m2: Bytes, count: nat, bl: nat)
    requires |m0| >= HSHRDSIZE && count == HsCount(m0) && StrPtr(count) <= |m0|
    requires Untouched(m0, m1, 4, 8) && Word(m1, 4) == count + HS_FLAG_NEWVERSION && Untouched(m1, m2, 0, 4)
    requires bl == if count == 0 then 0 else EndPos(Word(m1, HSHRDSIZE + 4 * (2 * count - 1)))
    requires Word(m2, 0) / 4 == CalcDataSize(count, bl) % POS_LIMIT
    ensures Taken(m0, m2)
  {
    hide Word, EndPos, CalcDataSize, Untouched, HsCount;
    HeaderOnly(m0, m1, m2);
    WordKept(m1, m2, 0, 4, 4);
    if count > 0 {
      WordKept(m0, m1, 4, 8, HSHRDSIZE + 4 * (2 * count - 1));
    }
  }

  lemma HeaderOnly(m: Bytes, m': Bytes, m'': Bytes)
    requires Untouched(m, m', 4, 8) && Untouched(m', m'', 0, 4)
    ensures Untouched(m, m'', 0, HSHRDSIZE) && |m| == |m'| == |m''|
  {
  }

  /** The pairs in the new format, lacking only the version flag; the length may exceed what they need. */
  ghost predicate Unflagged(m: Bytes, ps: seq<Pair>) {
    && |m| >= HSHRDSIZE && |ps| < COUNT_LIMIT && CalcDataSize(|ps|, |Strings(ps)|) < POS_LIMIT
    && Word(m, 4) == |ps| && CalcDataSize(|ps|, |Strings(ps)|) <= |m|
    && Entries(m, ps, true) && At(m, StrPtr(|ps|), Strings(ps))
  }

  /** An unflagged value passed on as new is packed, with its pairs; the empty value of either format is the case
      without pairs. */
  lemma TakenIsPacked(m0: Bytes, m: Bytes, ps: seq<Pair>)
    requires Unflagged(m0, ps) && Taken(m0, m)
    ensures Image(m, ps)
  {
    hide At, Entries, Strings, Word, EndPos, Untouched, NewSize;
    UnflaggedSize(m0, ps);
    FitsMask(NewSize(m0));
    EntriesAbove(m0, m, ps, true);
    AtKept(m0, m, 0, HSHRDSIZE, StrPtr(|ps|), Strings(ps));
  }

  lemma UnflaggedSize(m: Bytes, ps: seq<Pair>)
    requires Unflagged(m, ps)
    ensures HsCount(m) == |ps| && StrPtr(|ps|) <= |m| && NewSize(m) == CalcDataSize(|ps|, |Strings(ps)|)
  {
    hide Word, EndPos, Strings, At;
    if ps == [] {
      NoStrings();
    } else {
      LastEnd(m, ps);
    }
  }

  lemma NoStrings()
    ensures Strings([]) == []
  {
  }

  /** What hstoreUpgrade reads is there: a header, and, unless the value is flagged or its size_ is 0, the first entry
      and the entries that its count promises. */
  predicate EntriesPresent(m: Bytes) {
    && HSHRDSIZE <= |m| && HSHRDSIZE <= VarSize(m) <= |m|
    && (0 < Word(m, 4) < HS_FLAG_NEWVERSION ==> HSHRDSIZE + 4 <= |m| && StrPtr(HsCount(m)) <= |m|)
  }

  lemma CountOfNone(m: Bytes)
    requires |m| >= HSHRDSIZE && Word(m, 4) == 0
    ensures StrPtr(HsCount(m)) <= |m|
  {
  }

  /** The short cut of hstoreUpgrade: the value is empty, or short with the first flag set. */
  predicate TakesShortCut(m: Bytes)
    requires EntriesPresent(m) && Word(m, 4) < HS_FLAG_NEWVERSION
  {
    Word(m, 4) == 0 || (VarSize(m) < 32768 && IsFirst(Entry(m, 0)))
  }

  /** Which way hstoreUpgrade goes. */
  ghost function Decision(m: Bytes): Outcome
    requires EntriesPresent(m)
  {
    if Word(m, 4) >= HS_FLAG_NEWVERSION then AlreadyNew
    else if TakesShortCut(m) then TakenAsNew
    else if OldValid(m) then Converted
    else if NewValid(m) then TakenAsNew
    else Invalid
  }

  /** hstoreUpgrade, on a copy it may write to. */
  method HstoreUpgrade(mem: array<byte>) returns (r: Outcome)
    requires EntriesPresent(mem[..])
    modifies mem
    ensures r == Decision(old(mem[..]))
    ensures r == AlreadyNew || r == Invalid ==> mem[..] == old(mem[..])
    ensures r == TakenAsNew ==> Taken(old(mem[..]), mem[..])
    ensures r == Converted ==> var m0 := old(mem[..]); Image(mem[..], OldPairs(m0, OldCount(m0), OldCount(m0)))
  {
    ghost var m0 := mem[..];
    hide OldPairs, Image, Taken, NewValid, IsFirst, Word;
    var size := ReadWord(mem, 4);
    if size >= HS_FLAG_NEWVERSION {
      return AlreadyNew;
    }
    if size == 0 {
      CountOfNone(m0);
      TakeAsNew(mem);
      return TakenAsNew;
    }
    var lengthWord := ReadWord(mem, 0);
    var first := ReadWord(mem, HSHRDSIZE);
    if lengthWord / 4 < 32768 && IsFirst(first) {
      TakeAsNew(mem);
      return TakenAsNew;
    }
    var validNew := ValidNewFormat(mem[..]);
    var validOld := ValidOldFormat(mem[..]);
    if validOld == 0 {
      if validNew > 0 {
        TakeAsNew(mem);
        return TakenAsNew;
      }
      return Invalid;
    }
    Convert(mem);
    r := Converted;
  }

  lemma OldPresent(m: Bytes)
    requires OldValid(m)
    ensures EntriesPresent(m) && 0 < Word(m, 4) == HsCount(m) < HS_FLAG_NEWVERSION && StrPtr(1) <= |m|
  {
    hide Word, OldPos, OldKeyLen, Total;
    SmallCount(OldCount(m));
  }

  lemma SmallCount(c: nat)
    requires c < COUNT_LIMIT
    ensures c % COUNT_LIMIT == c < HS_FLAG_NEWVERSION
  {
  }

  /** The flag that decides about the short cut is, in an old value, the top bit of the first value length. */
  lemma FirstFlagIsLength(m: Bytes)
    requires OldValid(m)
    ensures EntriesPresent(m) && (IsFirst(Entry(m, 0)) <==> OldRawValLen(m, 0) >= 32768)
  {
    OldPresent(m);
    hide OldValid, Word;
    assert Entry(m, 0) == Entry(m, 2 * 0);
    TopBit(Entry(m, 0));
  }

  lemma TopBit(e: uint32)
    ensures IsFirst(e) <==> e / 0x1_0000 >= 32768
  {
  }

  /** A valid old value is converted exactly unless it is short and its first value length, as stored, is 32768 or more;
      then that value is null, for otherwise the whole would not be short. */
  lemma ConvertedIff(m: Bytes)
    requires OldValid(m)
    ensures EntriesPresent(m) && Word(m, 4) < HS_FLAG_NEWVERSION
    ensures TakesShortCut(m) <==> VarSize(m) < 32768 && OldRawValLen(m, 0) >= 32768
    ensures TakesShortCut(m) ==> OldIsNull(m, 0)
  {
    FirstFlagIsLength(m);
    OldPresent(m);
    hide Word;
    if OldRawValLen(m, 0) >= 32768 && !OldIsNull(m, 0) {
      TotalGrows(m, 1, OldCount(m));
      FirstTotal(m);
    }
  }

  lemma FirstTotal(m: Bytes)
    requires StrPtr(1) <= |m|
    ensures Total(m, 1) == OldKeyLen(m, 0) + OldValLen(m, 0)
  {
    assert Total(m, 0) == 0;
  }

  lemma FirstNullWord(m: Bytes)
    requires OldValid(m) && OldIsNull(m, 0)
    ensures OldPairs(m, OldCount(m), OldCount(m))[0].val.Null? && Word(m, 12) == 1
  {
    hide OldPairs, Word, OldIsNull, OldKeyLen, OldRawValLen;
    OldFacts(m, 0);
    OldEntries(m, OldCount(m), 0);
    OldWords(m, 0);
    assert Total(m, 0) == 0;
    assert Entry(m, 2 * 0 + 1) == Word(m, 12);
  }

  lemma NullIsFlagged(m: Bytes, ps: seq<Pair>)
    requires Image(m, ps) && ps != [] && ps[0].val.Null?
    ensures |m| >= 16 && Word(m, 12) >= HENTRY_ISNULL
  {
    hide Word, Strings, At, EndOf, CalcDataSize, VarSize;
    assert PairEntries(m, ps, 0, true);
    assert Entry(m, 2 * 0 + 1) == Word(m, 12);
  }

  /** An old value that takes the short cut does not keep its pairs: its first value is null, and the new entry made of
      position 0 and the null bit has no null flag. */
  lemma ShortCutLoses(m0: Bytes, m: Bytes)
    requires OldValid(m0) && EntriesPresent(m0) && Word(m0, 4) < HS_FLAG_NEWVERSION && TakesShortCut(m0) && Taken(m0, m)
    ensures !Image(m, OldPairs(m0, OldCount(m0), OldCount(m0)))
  {
    ConvertedIff(m0);
    OldPresent(m0);
    hide OldPairs, Word, Image, OldValid, OldIsNull, TakesShortCut, VarSize, NewSize, EntriesPresent;
    FirstNullWord(m0);
    WordKept(m0, m, 0, HSHRDSIZE, 12);
    var ps := OldPairs(m0, OldCount(m0), OldCount(m0));
    if Image(m, ps) {
      NullIsFlagged(m, ps);
    }
  }

  /** hstoreUpgrade keeps the pairs of a valid old value exactly unless it takes the short cut. */
  lemma UpgradeKeepsPairsIff(m0: Bytes, m: Bytes)
    requires OldValid(m0) && EntriesPresent(m0)
    requires Decision(m0) == TakenAsNew ==> Taken(m0, m)
    requires Decision(m0) == Converted ==> Image(m, OldPairs(m0, OldCount(m0), OldCount(m0)))
    ensures Image(m, OldPairs(m0, OldCount(m0), OldCount(m0))) <==>
            !(VarSize(m0) < 32768 && OldRawValLen(m0, 0) >= 32768)
  {
    hide Image, OldPairs, Word, VarSize, OldValid, OldRawValLen, Taken, NewValid;
    OldPresent(m0);
    ConvertedIff(m0);
    if TakesShortCut(m0) {
      ShortCutLoses(m0, m);
    }
  }

  /** An old value with one pair, the key "a" and a null whose stored length is 32768. */
  const LONG_NULL: Bytes := [68, 0, 0, 0, 1, 0, 0, 0, 1, 0, 0, 128, 1, 0, 0, 0, 97]

  predicate LongNullOld(o: Bytes) {
    |o| == 17 && Word(o, 0) == 68 && Word(o, 4) == 1 && Word(o, 8) == 0x8000_0001 && Word(o, 12) == 1 && o[16] == 97
  }

  lemma LongNullWords()
    ensures LongNullOld(LONG_NULL)
  {
  }

  lemma LongNullIsOld(o: Bytes)
    requires LongNullOld(o)
    ensures OldValid(o) && EntriesPresent(o) && Decision(o) == TakenAsNew && OldPairs(o, 1, 1) == [Pair([97], Null)]
  {
    hide Word;
    assert OldKeyLen(o, 0) == 1 && OldIsNull(o, 0) && OldPos(o, 0) == 0 && OldValLen(o, 0) == 0;
    assert Total(o, 0) == 0 && Total(o, 1) == 1;
    assert Entry(o, 0) == 0x8000_0001;
    assert o[16..17] == [97];
    assert OldPair(o, 1, 0) == Pair([97], Null);
  }

  lemma LongNullIsNew(m: Bytes)
    requires |m| == 17 && Word(m, 4) == 1 + HS_FLAG_NEWVERSION && Word(m, 8) == 0x8000_0001 && Word(m, 12) == 1
             && m[16] == 97
    ensures Readable(m, 0) && KeyAt(m, 0) == [97] && ValAt(m, 0) == Text([])
  {
    hide Word;
    assert HsCount(m) == 1 && Entry(m, 0) == 0x8000_0001 && Entry(m, 1) == 1;
    assert EndPos(0x8000_0001) == 1 && EndPos(1) == 1 && IsFirst(0x8000_0001) && !IsFirst(1) && !IsNull(1);
    assert KeyOff(m, 0) == 16 && KeyLen(m, 0) == 1 && ValOff(m, 0) == 17 && ValLen(m, 0) == 0;
  }

  lemma LongNullTaken(o: Bytes, m: Bytes)
    requires LongNullOld(o) && Taken(o, m)
    ensures |m| == 17 && Word(m, 4) == 1 + HS_FLAG_NEWVERSION && Word(m, 8) == 0x8000_0001 && Word(m, 12) == 1
            && m[16] == 97
  {
    hide Word, NewSize;
    SmallCount(1);
    WordKept(o, m, 0, HSHRDSIZE, 8);
    WordKept(o, m, 0, HSHRDSIZE, 12);
  }

  /** It is valid, but takes the short cut, and what that makes of it is read as the empty string instead of null. */
  lemma ShortCutMisreads(m: Bytes)
    requires Taken(LONG_NULL, m)
    ensures OldValid(LONG_NULL) && EntriesPresent(LONG_NULL) && Decision(LONG_NULL) == TakenAsNew
    ensures OldPairs(LONG_NULL, 1, 1) == [Pair([97], Null)]
    ensures Readable(m, 0) && KeyAt(m, 0) == [97] && ValAt(m, 0) == Text([])
  {
    LongNullWords();
    hide *;
    LongNullIsOld(LONG_NULL);
    LongNullTaken(LONG_NULL, m);
    LongNullIsNew(m);
  }
}
