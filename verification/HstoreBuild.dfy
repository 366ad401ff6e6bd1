/** Building a packed hstore in place: copying and adding items, and closing the gap behind the entries at the end. */
module HstoreBuild {
  import opened Lex
  import opened HstorePairs
  import opened HstoreLayout

  /** A value under construction, with room for c pairs: the pairs so far, their strings where those of c pairs would
      start, the first entry not yet flagged. */
  ghost predicate Partial(m: Bytes, c: nat, ps: seq<Pair>) {
    && |ps| <= c < COUNT_LIMIT && StrPtr(c) <= |m|
    && Word(m, 4) == c + HS_FLAG_NEWVERSION
    && Entries(m, ps, false)
    && At(m, StrPtr(c), Strings(ps))
  }

  // ---- What writing leaves alone ----

  lemma WordKept(m: Bytes, m': Bytes, from: nat, to: nat, off: nat)
    requires Untouched(m, m', from, to) && off + 4 <= |m| && (off + 4 <= from || to <= off)
    ensures Word(m', off) == Word(m, off)
  {
    SameWord(m, m', off);
  }

  lemma AtKept(m: Bytes, m': Bytes, from: nat, to: nat, off: nat, s: Bytes)
    requires Untouched(m, m', from, to) && At(m, off, s) && (off + |s| <= from || to <= off)
    ensures At(m', off, s)
  {
  }

  lemma EntriesKept(m: Bytes, m': Bytes, from: nat, to: nat, ps: seq<Pair>, flagged: bool)
    requires Untouched(m, m', from, to) && Entries(m, ps, flagged) && StrPtr(|ps|) <= from
    ensures Entries(m', ps, flagged)
  {
    forall i | 0 <= i < |ps| ensures PairEntries(m', ps, i, flagged) {
      assert PairEntries(m, ps, i, flagged);
      WordKept(m, m', from, to, HSHRDSIZE + 4 * (2 * i));
      WordKept(m, m', from, to, HSHRDSIZE + 4 * (2 * i + 1));
    }
  }

  lemma AtJoin(m: Bytes, off: nat, s: Bytes, t: Bytes)
    requires At(m, off, s) && At(m, off + |s|, t)
    ensures At(m, off, s + t)
  {
    forall k | 0 <= k < |s + t| ensures m[off + k] == (s + t)[k] {
      if k < |s| {
        assert m[off + k] == s[k];
      } else {
        assert m[off + |s| + (k - |s|)] == t[k - |s|];
      }
    }
  }

  lemma EndOfSnoc(ps: seq<Pair>, p: Pair, i: nat)
    requires i <= |ps|
    ensures EndOf(ps + [p], i) == EndOf(ps, i)
  {
    assert (ps + [p])[..i] == ps[..i];
  }

  lemma EndOfAll(ps: seq<Pair>, p: Pair)
    ensures EndOf(ps, |ps|) == |Strings(ps)| && EndOf(ps + [p], |ps| + 1) == |Strings(ps)| + |PairBytes(p)|
  {
    assert ps[..|ps|] == ps && (ps + [p])[..|ps| + 1] == ps + [p];
    StringsSnoc(ps, p);
  }

  /** One more pair of entries. */
  lemma EntriesGrow(m: Bytes, ps: seq<Pair>, p: Pair)
    requires Entries(m, ps, false) && StrPtr(|ps| + 1) <= |m|
    requires Entry(m, 2 * |ps|) == |Strings(ps)| + |p.key|
    requires Entry(m, 2 * |ps| + 1) == |Strings(ps)| + |PairBytes(p)| + if p.val.Null? then HENTRY_ISNULL else 0
    ensures Entries(m, ps + [p], false)
  {
    hide Word, EndOf, Strings;
    forall i | 0 <= i < |ps + [p]| ensures PairEntries(m, ps + [p], i, false) {
      EndOfSnoc(ps, p, i);
      if i < |ps| {
        EndOfSnoc(ps, p, i + 1);
        assert PairEntries(m, ps, i, false);
      } else {
        EndOfAll(ps, p);
      }
    }
  }

  // ---- Copying items ----

  /** memcpy. */
  method MemCpy(mem: array<byte>, dst: nat, src: Bytes, from: nat, n: nat, ghost t: Bytes)
    requires dst + n <= mem.Length && At(src, from, t) && |t| == n
    modifies mem
    ensures At(mem[..], dst, t) && Untouched(old(mem[..]), mem[..], dst, dst + n)
  {
    for k := 0 to n
      invariant forall j :: 0 <= j < k ==> mem[dst + j] == t[j]
      invariant forall j :: 0 <= j < mem.Length && !(dst <= j < dst + n) ==> mem[j] == old(mem[j])
    {
      mem[dst + k] := src[from + k];
    }
  }

  lemma ItemAdded(m0: Bytes, m1: Bytes, m2: Bytes, m3: Bytes, c: nat, ps: seq<Pair>, p: Pair)
    requires Partial(m0, c, ps) && |ps| < c && StrPtr(c) + |Strings(ps)| + |PairBytes(p)| <= |m0|
    requires var ptr, ent := StrPtr(c) + |Strings(ps)|, HSHRDSIZE + 4 * (2 * |ps|);
             && Untouched(m0, m1, ptr, ptr + |PairBytes(p)|) && At(m1, ptr, PairBytes(p))
             && Untouched(m1, m2, ent, ent + 4) && Word(m2, ent) == |Strings(ps)| + |p.key|
             && Untouched(m2, m3, ent + 4, ent + 8)
             && Word(m3, ent + 4) == |Strings(ps)| + |PairBytes(p)| + if p.val.Null? then HENTRY_ISNULL else 0
    ensures Partial(m3, c, ps + [p])
  {
    hide Untouched, Word, Strings, At, Entries, PairBytes;
    var ptr, ent := StrPtr(c) + |Strings(ps)|, HSHRDSIZE + 4 * (2 * |ps|);
    Lengths(m0, m1, m2, m3, ptr, ptr + |PairBytes(p)|, ent, ent + 4);
    WordKept(m0, m1, ptr, ptr + |PairBytes(p)|, 4);
    WordKept(m1, m2, ent, ent + 4, 4);
    WordKept(m2, m3, ent + 4, ent + 8, 4);
    WordKept(m2, m3, ent + 4, ent + 8, ent);
    EntriesKept(m0, m1, ptr, ptr + |PairBytes(p)|, ps, false);
    EntriesKept(m1, m2, ent, ent + 4, ps, false);
    EntriesKept(m2, m3, ent + 4, ent + 8, ps, false);
    EntriesGrow(m3, ps, p);
    AtKept(m0, m1, ptr, ptr + |PairBytes(p)|, StrPtr(c), Strings(ps));
    AtJoin(m1, StrPtr(c), Strings(ps), PairBytes(p));
    AtKept(m1, m2, ent, ent + 4, StrPtr(c), Strings(ps) + PairBytes(p));
    AtKept(m2, m3, ent + 4, ent + 8, StrPtr(c), Strings(ps) + PairBytes(p));
    StringsSnoc(ps, p);
  }

  lemma Lengths(m0: Bytes, m1: Bytes, m2: Bytes, m3: Bytes, a: nat, b: nat, c: nat, d: nat)
    requires Untouched(m0, m1, a, b) && Untouched(m1, m2, c, d) && Untouched(m2, m3, d, d + 4)
    ensures |m3| == |m2| == |m1| == |m0|
  {
  }

  /** HS_COPYITEM: pair p, found in src, is added to those already there. */
  method CopyItem(mem: array<byte>, dent: nat, dbuf: nat, dptr: nat, src: Bytes, sptr: nat, klen: nat, vlen: nat,
                  vnull: bool, ghost c: nat, ghost ps: seq<Pair>, ghost p: Pair)
    returns (dent': nat, dptr': nat)
    requires Partial(mem[..], c, ps) && |ps| < c
    requires dent == 2 * |ps| && dbuf == StrPtr(c) && dptr == dbuf + |Strings(ps)|
    requires At(src, sptr, PairBytes(p)) && klen == |p.key| && vlen == |ValueBytes(p.val)| && vnull == p.val.Null?
    requires dptr + klen + vlen <= mem.Length && |Strings(ps)| + klen + vlen < POS_LIMIT
    modifies mem
    ensures Partial(mem[..], c, ps + [p])
    ensures dent' == 2 * |ps + [p]| && dptr' == dbuf + |Strings(ps + [p])| == dptr + klen + vlen
  {
    hide Partial, Untouched, Word, Strings, At, Entries, PairBytes;
    ghost var m0 := mem[..];
    StringsSnoc(ps, p);
    PairBytesSize(p);
    MemCpy(mem, dptr, src, sptr, klen + vlen, PairBytes(p));
    ghost var m1 := mem[..];
    dptr' := dptr + klen + vlen;
    PartialRoom(m0, c, ps);
    assert (dptr' - dbuf - vlen) % POS_LIMIT == dptr' - dbuf - vlen && (dptr' - dbuf) % POS_LIMIT == dptr' - dbuf;
    PutWord(mem, HSHRDSIZE + 4 * dent, (dptr' - dbuf - vlen) % POS_LIMIT);
    ghost var m2 := mem[..];
    PutWord(mem, HSHRDSIZE + 4 * (dent + 1), (dptr' - dbuf) % POS_LIMIT + if vnull then HENTRY_ISNULL else 0);
    ItemAdded(m0, m1, m2, mem[..], c, ps, p);
    dent' := dent + 2;
  }

  lemma PartialRoom(m: Bytes, c: nat, ps: seq<Pair>)
    requires Partial(m, c, ps)
    ensures |ps| <= c && StrPtr(c) <= |m|
  {
  }

  // ---- Closing the gap ----

  /** memmove toward lower addresses: the ranges may overlap. */
  method MemMoveDown(mem: array<byte>, dst: nat, src: nat, n: nat, ghost t: Bytes)
    requires dst <= src && src + n <= mem.Length && At(mem[..], src, t) && |t| == n
    modifies mem
    ensures At(mem[..], dst, t) && Untouched(old(mem[..]), mem[..], dst, dst + n)
  {
    ghost var m := mem[..];
    for k := 0 to n
      invariant forall j :: 0 <= j < k ==> mem[dst + j] == t[j]
      invariant forall j :: 0 <= j < mem.Length && !(dst <= j < dst + k) ==> mem[j] == m[j]
    {
      assert mem[src + k] == m[src + k] == t[k];
      mem[dst + k] := mem[src + k];
    }
  }

  lemma EntriesFlagged(m: Bytes, m': Bytes, ps: seq<Pair>)
    requires Entries(m, ps, false) && ps != [] && Untouched(m, m', HSHRDSIZE, HSHRDSIZE + 4)
    requires Word(m', HSHRDSIZE) == Word(m, HSHRDSIZE) + HENTRY_ISFIRST
    ensures Entries(m', ps, true)
  {
    hide EndOf;
    forall i | 0 <= i < |ps| ensures PairEntries(m', ps, i, true) {
      assert PairEntries(m, ps, i, false);
      if i > 0 {
        WordKept(m, m', HSHRDSIZE, HSHRDSIZE + 4, HSHRDSIZE + 4 * (2 * i));
      }
      WordKept(m, m', HSHRDSIZE, HSHRDSIZE + 4, HSHRDSIZE + 4 * (2 * i + 1));
    }
  }

  lemma FlaggedEmpty(m: Bytes, ps: seq<Pair>)
    requires Entries(m, ps, false) && ps == []
    ensures Entries(m, ps, true)
  {
  }

  /** The first entry of a value under construction is a plain end position. */
  lemma FirstUnflagged(m: Bytes, ps: seq<Pair>)
    requires Entries(m, ps, false) && ps != [] && |Strings(ps)| < POS_LIMIT
    ensures HSHRDSIZE + 4 <= |m| && Word(m, HSHRDSIZE) < POS_LIMIT
  {
    StoredEntries(m, ps, false, 0);
    EndsInRange(ps, 0);
    assert Entry(m, 2 * 0) == Word(m, HSHRDSIZE);
    hide EndOf, Strings, Word, Entries;
  }

  lemma SizeWord(size: nat)
    requires size < POS_LIMIT
    ensures 4 * size < 0x1_0000_0000 && 4 * size / 4 == size
  {
  }

  /** SET_VARSIZE at the end of HS_FINALIZE, everything else being in place. */
  method SetSize(mem: array<byte>, size: nat, ghost ps: seq<Pair>)
    requires HSHRDSIZE <= mem.Length && |ps| < COUNT_LIMIT && |Strings(ps)| < POS_LIMIT
    requires size == CalcDataSize(|ps|, |Strings(ps)|) < POS_LIMIT && size <= mem.Length
    requires Word(mem[..], 4) == |ps| + HS_FLAG_NEWVERSION && Entries(mem[..], ps, true)
             && At(mem[..], StrPtr(|ps|), Strings(ps))
    modifies mem
    ensures Image(mem[..], ps) && mem[size..] == old(mem[size..])
  {
    ghost var m := mem[..];
    hide Untouched, Word, Strings, At, Entries;
    SizeWord(size);
    PutWord(mem, 0, 4 * size);
    WordKept(m, mem[..], 0, 4, 4);
    EntriesAbove(m, mem[..], ps, true);
    AtKept(m, mem[..], 0, 4, StrPtr(|ps|), Strings(ps));
    TailKept(m, mem[..], size);
    assert mem[size..] == mem[..][size..] && old(mem[size..]) == m[size..];
  }

  lemma TailKept(m: Bytes, m': Bytes, size: nat)
    requires Untouched(m, m', 0, 4) && HSHRDSIZE <= size <= |m|
    ensures |m'| == |m| && m'[size..] == m[size..]
  {
  }

  lemma EntriesAbove(m: Bytes, m': Bytes, ps: seq<Pair>, flagged: bool)
    requires Untouched(m, m', 0, HSHRDSIZE) && Entries(m, ps, flagged)
    ensures Entries(m', ps, flagged)
  {
    forall i | 0 <= i < |ps| ensures PairEntries(m', ps, i, flagged) {
      assert PairEntries(m, ps, i, flagged);
      WordKept(m, m', 0, HSHRDSIZE, HSHRDSIZE + 4 * (2 * i));
      WordKept(m, m', 0, HSHRDSIZE, HSHRDSIZE + 4 * (2 * i + 1));
    }
  }

  lemma FlagFirst(m: Bytes, m': Bytes, c: nat, ps: seq<Pair>)
    requires Partial(m, c, ps) && ps != [] && Untouched(m, m', HSHRDSIZE, HSHRDSIZE + 4)
    requires HSHRDSIZE + 4 <= |m| && Word(m', HSHRDSIZE) == Word(m, HSHRDSIZE) + HENTRY_ISFIRST
    ensures Word(m', 4) == c + HS_FLAG_NEWVERSION && Entries(m', ps, true) && At(m', StrPtr(c), Strings(ps))
  {
    WordKept(m, m', HSHRDSIZE, HSHRDSIZE + 4, 4);
    EntriesFlagged(m, m', ps);
    AtKept(m, m', HSHRDSIZE, HSHRDSIZE + 4, StrPtr(c), Strings(ps));
  }

  lemma Counted(m: Bytes, m': Bytes, ps: seq<Pair>, off: nat)
    requires Untouched(m, m', 4, 8) && Entries(m, ps, true) && At(m, off, Strings(ps)) && off >= 8
    ensures Entries(m', ps, true) && At(m', off, Strings(ps))
  {
    EntriesAbove(m, m', ps, true);
    AtKept(m, m', 4, 8, off, Strings(ps));
  }

  lemma Moved(m: Bytes, m': Bytes, ps: seq<Pair>)
    requires Untouched(m, m', StrPtr(|ps|), StrPtr(|ps|) + |Strings(ps)|) && Entries(m, ps, true) && |m| >= 8
    ensures Entries(m', ps, true) && Word(m', 4) == Word(m, 4)
  {
    EntriesKept(m, m', StrPtr(|ps|), StrPtr(|ps|) + |Strings(ps)|, ps, true);
    WordKept(m, m', StrPtr(|ps|), StrPtr(|ps|) + |Strings(ps)|, 4);
  }

  /** HS_FINALIZE: the pairs built so far become a complete value. The strings are moved down when fewer pairs were
      built than there was room for; nothing is written behind the last string. */
  method Finalize(mem: array<byte>, count: nat, buf: nat, ptr: nat, ghost c: nat, ghost ps: seq<Pair>)
    requires Partial(mem[..], c, ps) && count == |ps| && buf == StrPtr(c) && ptr == buf + |Strings(ps)|
    requires CalcDataSize(c, |Strings(ps)|) < POS_LIMIT
    modifies mem
    ensures Image(mem[..], ps)
  {
    var buflen := ptr - buf;
    ghost var m0 := mem[..];
    assert |ps| <= c && StrPtr(c) + |Strings(ps)| <= mem.Length && Word(m0, 4) == c + HS_FLAG_NEWVERSION;
    assert Entries(m0, ps, false) && At(m0, StrPtr(c), Strings(ps));
    hide Untouched, Word, Strings, At, Entries, Partial;
    Counts(c);
    if count != 0 {
      FirstUnflagged(m0, ps);
      var e := ReadWord(mem, HSHRDSIZE);
      PutWord(mem, HSHRDSIZE, if IsFirst(e) then e else e + HENTRY_ISFIRST);
      FlagFirst(m0, mem[..], c, ps);
    } else {
      FlaggedEmpty(m0, ps);
    }
    var sizeWord := ReadWord(mem, 4);
    if count != sizeWord % COUNT_LIMIT {
      ghost var m1 := mem[..];
      PutWord(mem, 4, count + HS_FLAG_NEWVERSION);
      Counted(m1, mem[..], ps, StrPtr(c));
      ghost var m2 := mem[..];
      MemMoveDown(mem, StrPtr(count), buf, buflen, Strings(ps));
      Moved(m2, mem[..], ps);
    }
    SetSize(mem, CalcDataSize(count, buflen), ps);
  }

  method ReadWord(mem: array<byte>, off: nat) returns (w: uint32)
    requires off + 4 <= mem.Length
    ensures w == Word(mem[..], off)
  {
    w := Compose(mem[off], mem[off + 1], mem[off + 2], mem[off + 3]);
  }
}
