/** The packed form of an hstore: a header, an array of 32-bit entries with end positions and flags, and the strings;
    and the macros that read it. */
module HstoreLayout {
  import opened Lex
  import opened HstorePairs

  type uint32 = x: int | 0 <= x < 0x1_0000_0000

  const HENTRY_ISFIRST: uint32 := 0x8000_0000
  const HENTRY_ISNULL: uint32 := 0x4000_0000
  const HS_FLAG_NEWVERSION: uint32 := 0x8000_0000
  const HSHRDSIZE: nat := 8

  /** The limits of end positions and counts. */
  const POS_LIMIT: nat := 0x4000_0000
  const COUNT_LIMIT: nat := 0x1000_0000

  // ---- Words ----

  function Word(m: Bytes, off: nat): uint32
    requires off + 4 <= |m|
  {
    Compose(m[off], m[off + 1], m[off + 2], m[off + 3])
  }

  /** Little-endian. */
  function Compose(b0: byte, b1: byte, b2: byte, b3: byte): uint32 {
    b0 as int + 0x100 * (b1 as int) + 0x1_0000 * (b2 as int) + 0x100_0000 * (b3 as int)
  }

  lemma ComposeParts(w: uint32)
    ensures Compose(w % 0x100, w / 0x100 % 0x100, w / 0x1_0000 % 0x100, w / 0x100_0000) == w
  {
    Halves(w);
    Upper(w);
    var q := w / 0x100;
    var r := w / 0x1_0000;
    assert w == 0x100 * q + w % 0x100 && q == 0x100 * r + q % 0x100 && r == 0x100 * (w / 0x100_0000) + r % 0x100;
  }

  lemma Halves(w: uint32)
    ensures w / 0x1_0000 == w / 0x100 / 0x100
  {
  }

  lemma Upper(w: uint32)
    ensures w / 0x100_0000 == w / 0x1_0000 / 0x100
  {
  }

  lemma SameWord(m: Bytes, m': Bytes, off: nat)
    requires off + 4 <= |m| && off + 4 <= |m'| && forall k :: off <= k < off + 4 ==> m[k] == m'[k]
    ensures Word(m, off) == Word(m', off)
  {
  }

  /** The same memory outside a range. */
  predicate Untouched(m: Bytes, m': Bytes, from: nat, to: nat) {
    |m'| == |m| && forall k :: 0 <= k < |m| && !(from <= k < to) ==> m'[k] == m[k]
  }

  method PutWord(mem: array<byte>, off: nat, w: uint32)
    requires off + 4 <= mem.Length
    modifies mem
    ensures Word(mem[..], off) == w && Untouched(old(mem[..]), mem[..], off, off + 4)
  {
    ComposeParts(w);
    hide Compose;
    mem[off] := w % 0x100;
    mem[off + 1] := w / 0x100 % 0x100;
    mem[off + 2] := w / 0x1_0000 % 0x100;
    mem[off + 3] := w / 0x100_0000;
  }

  // ---- The macros ----

  function EndPos(e: uint32): nat { e % POS_LIMIT }

  predicate IsFirst(e: uint32) { e / HENTRY_ISFIRST == 1 }

  predicate IsNull(e: uint32) { e / HENTRY_ISNULL % 2 == 1 }

  function HsCount(m: Bytes): nat
    requires |m| >= HSHRDSIZE
  {
    Word(m, 4) % COUNT_LIMIT
  }

  /** VARSIZE of an uncompressed value: the length word without its two tag bits. */
  function VarSize(m: Bytes): nat
    requires |m| >= HSHRDSIZE
  {
    Word(m, 0) / 4
  }

  function CalcDataSize(count: nat, lenstr: nat): nat { count * 8 + HSHRDSIZE + lenstr }

  /** STRPTR, as an offset. */
  function StrPtr(count: nat): nat { HSHRDSIZE + 8 * count }

  function Entry(m: Bytes, i: nat): uint32
    requires HSHRDSIZE + 4 * i + 4 <= |m|
  {
    Word(m, HSHRDSIZE + 4 * i)
  }

  /** HSE_OFF. */
  function HseOff(m: Bytes, i: nat): nat
    requires HSHRDSIZE + 4 * i + 4 <= |m|
  {
    if IsFirst(Entry(m, i)) || i == 0 then 0 else EndPos(Entry(m, i - 1))
  }

  /** HSE_LEN. */
  function HseLen(m: Bytes, i: nat): int
    requires HSHRDSIZE + 4 * i + 4 <= |m|
  {
    EndPos(Entry(m, i)) - HseOff(m, i)
  }

  // ---- What a value looks like packed ----

  function ValueBytes(v: Value): Bytes { if v.Null? then [] else v.bytes }

  /** Key and value of a pair, without separators. */
  function PairBytes(p: Pair): Bytes { p.key + ValueBytes(p.val) }

  function Strings(ps: seq<Pair>): Bytes {
    if ps == [] then [] else Strings(ps[..|ps| - 1]) + PairBytes(ps[|ps| - 1])
  }

  lemma PairBytesSize(p: Pair)
    ensures |PairBytes(p)| == |p.key| + |ValueBytes(p.val)|
  {
  }

  /** Where the strings of the first n pairs end. */
  function EndOf(ps: seq<Pair>, n: nat): nat
    requires n <= |ps|
  {
    |Strings(ps[..n])|
  }

  function KeyEntry(ps: seq<Pair>, i: nat, flagged: bool): int
    requires i < |ps|
  {
    EndOf(ps, i) + |ps[i].key| + if flagged && i == 0 then HENTRY_ISFIRST else 0
  }

  function ValEntry(ps: seq<Pair>, i: nat): int
    requires i < |ps|
  {
    EndOf(ps, i + 1) + if ps[i].val.Null? then HENTRY_ISNULL else 0
  }

  /** The two entries of pair i are there. */
  predicate PairEntries(m: Bytes, ps: seq<Pair>, i: nat, flagged: bool)
    requires i < |ps|
  {
    && StrPtr(i + 1) <= |m|
    && Entry(m, 2 * i) == KeyEntry(ps, i, flagged)
    && Entry(m, 2 * i + 1) == ValEntry(ps, i)
  }

  /** The entries of the pairs are there. */
  ghost predicate Entries(m: Bytes, ps: seq<Pair>, flagged: bool) {
    && StrPtr(|ps|) <= |m|
    && forall i :: 0 <= i < |ps| ==> PairEntries(m, ps, i, flagged)
  }

  /** The bytes are there. */
  predicate At(m: Bytes, off: nat, s: Bytes) {
    off + |s| <= |m| && forall k :: 0 <= k < |s| ==> m[off + k] == s[k]
  }

  /** The packed form of the pairs, possibly with unused bytes behind it. */
  ghost predicate Image(m: Bytes, ps: seq<Pair>) {
    && |m| >= HSHRDSIZE && |ps| < COUNT_LIMIT && |Strings(ps)| < POS_LIMIT
    && Word(m, 4) == |ps| + HS_FLAG_NEWVERSION
    && VarSize(m) == CalcDataSize(|ps|, |Strings(ps)|) <= |m|
    && Entries(m, ps, true)
    && At(m, StrPtr(|ps|), Strings(ps))
  }

  /** A well-formed hstore. */
  ghost predicate WellFormed(m: Bytes, ps: seq<Pair>) {
    Image(m, ps) && Sorted(ps)
  }

  // ---- Reading it ----

  lemma StringsSnoc(ps: seq<Pair>, p: Pair)
    ensures Strings(ps + [p]) == Strings(ps) + PairBytes(p)
  {
    assert (ps + [p])[..|ps|] == ps;
  }

  lemma EndOfNext(ps: seq<Pair>, i: nat)
    requires i < |ps|
    ensures Strings(ps[..i + 1]) == Strings(ps[..i]) + PairBytes(ps[i])
    ensures EndOf(ps, i + 1) == EndOf(ps, i) + |ps[i].key| + |ValueBytes(ps[i].val)|
  {
    assert ps[..i + 1][..i] == ps[..i];
  }

  /** The strings of the first pairs come first. */
  lemma {:induction false} StringsPrefix(ps: seq<Pair>, n: nat)
    requires n <= |ps|
    ensures EndOf(ps, n) <= |Strings(ps)| && Strings(ps)[..EndOf(ps, n)] == Strings(ps[..n])
  {
    if n == |ps| {
      assert ps[..n] == ps;
    } else {
      var front := ps[..|ps| - 1];
      StringsPrefix(front, n);
      assert front[..n] == ps[..n];
    }
  }

  /** What sits in a part sits in the whole. */
  lemma AtTrans(m: Bytes, off: nat, s: Bytes, from: nat, t: Bytes)
    requires At(m, off, s) && At(s, from, t)
    ensures At(m, off + from, t)
  {
    forall k | 0 <= k < |t| ensures m[off + from + k] == t[k] {
      assert m[off + (from + k)] == s[from + k];
    }
  }

  lemma AtPrefix(s: Bytes, n: nat, pre: Bytes, t: Bytes)
    requires n <= |s| && s[..n] == pre + t
    ensures At(s, |pre|, t)
  {
    forall k | 0 <= k < |t| ensures s[|pre| + k] == t[k] {
      assert s[..n][|pre| + k] == (pre + t)[|pre| + k];
    }
  }

  lemma AtHalves(key: Bytes, val: Bytes)
    ensures At(key + val, 0, key) && At(key + val, |key|, val)
  {
  }

  /** Where pair i is among the strings. */
  lemma PairInStrings(ps: seq<Pair>, i: nat)
    requires i < |ps|
    ensures EndOf(ps, i) + |PairBytes(ps[i])| == EndOf(ps, i + 1) <= |Strings(ps)|
    ensures At(Strings(ps), EndOf(ps, i), PairBytes(ps[i]))
  {
    EndOfNext(ps, i);
    StringsPrefix(ps, i + 1);
    hide Strings, PairBytes, At;
    AtPrefix(Strings(ps), EndOf(ps, i + 1), Strings(ps[..i]), PairBytes(ps[i]));
  }

  // ---- Keys and values by their index ----

  /** HSTORE_KEY, as an offset. */
  function KeyOff(m: Bytes, i: nat): nat
    requires StrPtr(i + 1) <= |m|
  {
    StrPtr(HsCount(m)) + HseOff(m, 2 * i)
  }

  /** HSTORE_VAL, as an offset. */
  function ValOff(m: Bytes, i: nat): nat
    requires StrPtr(i + 1) <= |m|
  {
    StrPtr(HsCount(m)) + HseOff(m, 2 * i + 1)
  }

  function KeyLen(m: Bytes, i: nat): int
    requires StrPtr(i + 1) <= |m|
  {
    HseLen(m, 2 * i)
  }

  function ValLen(m: Bytes, i: nat): int
    requires StrPtr(i + 1) <= |m|
  {
    HseLen(m, 2 * i + 1)
  }

  predicate ValIsNull(m: Bytes, i: nat)
    requires StrPtr(i + 1) <= |m|
  {
    IsNull(Entry(m, 2 * i + 1))
  }

  /** The macros read this pair at index i. */
  ghost predicate Reads(m: Bytes, i: nat, p: Pair) {
    && StrPtr(i + 1) <= |m|
    && KeyLen(m, i) == |p.key| && ValLen(m, i) == |ValueBytes(p.val)| && ValIsNull(m, i) == p.val.Null?
    && ValOff(m, i) == KeyOff(m, i) + |p.key|
    && At(m, KeyOff(m, i), p.key) && At(m, ValOff(m, i), ValueBytes(p.val)) && At(m, KeyOff(m, i), PairBytes(p))
  }

  lemma Flags(v: nat)
    requires v < POS_LIMIT
    ensures EndPos(v) == v && !IsFirst(v) && !IsNull(v)
    ensures EndPos(v + HENTRY_ISNULL) == v && !IsFirst(v + HENTRY_ISNULL) && IsNull(v + HENTRY_ISNULL)
    ensures EndPos(v + HENTRY_ISFIRST) == v && IsFirst(v + HENTRY_ISFIRST) && !IsNull(v + HENTRY_ISFIRST)
  {
  }

  lemma FitsMask(x: nat)
    requires x < POS_LIMIT
    ensures x % POS_LIMIT == x
  {
  }

  lemma Counts(c: nat)
    requires c < COUNT_LIMIT
    ensures (c + HS_FLAG_NEWVERSION) % COUNT_LIMIT == c
  {
  }

  /** An entry put together from an end position and at most one flag. */
  lemma Decode(e: uint32, v: nat, first: bool, isnull: bool)
    requires v < POS_LIMIT && !(first && isnull)
    requires e == v + (if first then HENTRY_ISFIRST else 0) + (if isnull then HENTRY_ISNULL else 0)
    ensures EndPos(e) == v && IsFirst(e) == first && IsNull(e) == isnull
  {
    Flags(v);
    hide EndPos, IsFirst, IsNull;
  }

  lemma StoredEntries(m: Bytes, ps: seq<Pair>, flagged: bool, i: nat)
    requires Entries(m, ps, flagged) && i < |ps|
    ensures StrPtr(i + 1) <= |m|
    ensures Entry(m, 2 * i) == EndOf(ps, i) + |ps[i].key| + (if flagged && i == 0 then HENTRY_ISFIRST else 0)
    ensures Entry(m, 2 * i + 1) == EndOf(ps, i + 1) + (if ps[i].val.Null? then HENTRY_ISNULL else 0)
  {
    assert PairEntries(m, ps, i, flagged);
    hide Entry, EndOf;
  }

  lemma EndsInRange(ps: seq<Pair>, i: nat)
    requires i < |ps|
    ensures EndOf(ps, i) + |ps[i].key| <= EndOf(ps, i + 1) <= |Strings(ps)|
  {
    EndOfNext(ps, i);
    StringsPrefix(ps, i + 1);
    hide EndOf, Strings;
  }

  lemma KeyEntryDecoded(m: Bytes, ps: seq<Pair>, flagged: bool, i: nat)
    requires Entries(m, ps, flagged) && i < |ps| && |Strings(ps)| < POS_LIMIT
    ensures StrPtr(i + 1) <= |m|
    ensures EndPos(Entry(m, 2 * i)) == EndOf(ps, i) + |ps[i].key| && IsFirst(Entry(m, 2 * i)) == (flagged && i == 0)
  {
    hide Entries, EndOf, Strings, Word, EndPos, IsFirst, IsNull, Entry;
    EndsInRange(ps, i);
    StoredEntries(m, ps, flagged, i);
    Decode(Entry(m, 2 * i), EndOf(ps, i) + |ps[i].key|, flagged && i == 0, false);
  }

  lemma ValEntryDecoded(m: Bytes, ps: seq<Pair>, flagged: bool, i: nat)
    requires Entries(m, ps, flagged) && i < |ps| && |Strings(ps)| < POS_LIMIT
    ensures EndPos(Entry(m, 2 * i + 1)) == EndOf(ps, i + 1) && !IsFirst(Entry(m, 2 * i + 1))
    ensures IsNull(Entry(m, 2 * i + 1)) == ps[i].val.Null?
  {
    hide Entries, EndOf, Strings, Word, EndPos, IsFirst, IsNull, Entry;
    EndsInRange(ps, i);
    StoredEntries(m, ps, flagged, i);
    Decode(Entry(m, 2 * i + 1), EndOf(ps, i + 1), false, ps[i].val.Null?);
  }

  /** The entries of pair i, decoded. */
  lemma EntriesRead(m: Bytes, ps: seq<Pair>, flagged: bool, i: nat)
    requires Entries(m, ps, flagged) && i < |ps| && |Strings(ps)| < POS_LIMIT
    ensures HseOff(m, 2 * i) == EndOf(ps, i) && HseLen(m, 2 * i) == |ps[i].key|
    ensures HseOff(m, 2 * i + 1) == EndOf(ps, i) + |ps[i].key| && HseLen(m, 2 * i + 1) == |ValueBytes(ps[i].val)|
    ensures IsNull(Entry(m, 2 * i + 1)) == ps[i].val.Null?
  {
    hide Strings, Word, EndPos, IsFirst, IsNull, EndOf, Entry, Entries;
    EndOfNext(ps, i);
    KeyEntryDecoded(m, ps, flagged, i);
    ValEntryDecoded(m, ps, flagged, i);
    if i > 0 {
      ValEntryDecoded(m, ps, flagged, i - 1);
      assert 2 * (i - 1) + 1 == 2 * i - 1;
    } else {
      NothingYet(ps);
    }
  }

  lemma NothingYet(ps: seq<Pair>)
    ensures EndOf(ps, 0) == 0
  {
  }

  /** The macros read back every pair of a packed value. */
  lemma ReadPair(m: Bytes, ps: seq<Pair>, i: nat)
    requires Image(m, ps) && i < |ps|
    ensures HsCount(m) == |ps| && Reads(m, i, ps[i])
  {
    Counts(|ps|);
    EntriesRead(m, ps, true, i);
    assert StrPtr(i + 1) <= StrPtr(|ps|) <= |m|;
    assert At(m, StrPtr(|ps|), Strings(ps));
    hide *;
    HstoreArithmetic(m, |ps|, i);
    AtPair(m, ps, i);
    ReadsIs(m, ps, i);
  }

  lemma HstoreArithmetic(m: Bytes, c: nat, i: nat)
    requires |m| >= HSHRDSIZE && StrPtr(i + 1) <= |m| && Word(m, 4) % COUNT_LIMIT == c
    ensures HsCount(m) == c
    ensures KeyOff(m, i) == StrPtr(c) + HseOff(m, 2 * i) && ValOff(m, i) == StrPtr(c) + HseOff(m, 2 * i + 1)
    ensures KeyLen(m, i) == HseLen(m, 2 * i) && ValLen(m, i) == HseLen(m, 2 * i + 1)
    ensures ValIsNull(m, i) == IsNull(Entry(m, 2 * i + 1))
  {
  }

  lemma AtPair(m: Bytes, ps: seq<Pair>, i: nat)
    requires i < |ps| && At(m, StrPtr(|ps|), Strings(ps))
    ensures var off := StrPtr(|ps|) + EndOf(ps, i);
            && At(m, off, ps[i].key) && At(m, off + |ps[i].key|, ValueBytes(ps[i].val)) && At(m, off, PairBytes(ps[i]))
  {
    PairInStrings(ps, i);
    AtHalves(ps[i].key, ValueBytes(ps[i].val));
    hide Strings, EndOf, At, ValueBytes, StrPtr;
    var off := StrPtr(|ps|) + EndOf(ps, i);
    AtTrans(m, StrPtr(|ps|), Strings(ps), EndOf(ps, i), PairBytes(ps[i]));
    AtTrans(m, off, PairBytes(ps[i]), 0, ps[i].key);
    AtTrans(m, off, PairBytes(ps[i]), |ps[i].key|, ValueBytes(ps[i].val));
  }

  lemma ReadsIs(m: Bytes, ps: seq<Pair>, i: nat)
    requires i < |ps| && StrPtr(i + 1) <= |m|
    requires KeyOff(m, i) == StrPtr(|ps|) + EndOf(ps, i) && ValOff(m, i) == StrPtr(|ps|) + EndOf(ps, i) + |ps[i].key|
    requires KeyLen(m, i) == |ps[i].key| && ValLen(m, i) == |ValueBytes(ps[i].val)|
             && ValIsNull(m, i) == ps[i].val.Null?
    requires At(m, StrPtr(|ps|) + EndOf(ps, i), ps[i].key)
    requires At(m, StrPtr(|ps|) + EndOf(ps, i) + |ps[i].key|, ValueBytes(ps[i].val))
    requires At(m, StrPtr(|ps|) + EndOf(ps, i), PairBytes(ps[i]))
    ensures Reads(m, i, ps[i])
  {
    hide KeyOff, ValOff, KeyLen, ValLen, ValIsNull, At, EndOf, StrPtr, ValueBytes, PairBytes;
  }
}
