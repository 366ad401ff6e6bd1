/** hstore_in and hstore_out: duplicate keys, building the packed value, and printing it into a buffer sized
    beforehand. */
module HstoreIo {
  import opened Wrappers
  import opened Lex
  import opened HstorePairs
  import opened HstoreLayout
  import opened HstoreBuild
  import opened HstoreOps
  import opened HstoreText
  import opened HstoreParser

  // ---- Duplicates ----

  /** The order of comparePairs: by key, then pairs to be freed later. */
  predicate PairsLeq(a: Pairs, b: Pairs) {
    KeyLess(a.key, b.key) || (a.key == b.key && (a.needfree ==> b.needfree))
  }

  ghost predicate PairsSorted(a: seq<Pairs>) {
    forall i, j :: 0 <= i < j < |a| ==> PairsLeq(a[i], a[j])
  }

  /** What qsort may make of an array: any sorted arrangement of its elements. */
  ghost predicate IsSortOf(a: seq<Pairs>, b: seq<Pairs>) {
    PairsSorted(b) && multiset(a) == multiset(b)
  }

  /** The pair a record stands for. */
  function PairOf(p: Pairs): Pair { Pair(p.key, if p.isnull then Null else Text(p.val)) }

  function PairsOf(a: seq<Pairs>): (ps: seq<Pair>)
    ensures |ps| == |a|
  {
    seq(|a|, i requires 0 <= i < |a| => PairOf(a[i]))
  }

  /** The first of each run of equal keys. */
  function Unique(a: seq<Pairs>): seq<Pairs> {
    if a == [] then []
    else
      var before := Unique(a[..|a| - 1]);
      var last := a[|a| - 1];
      if before != [] && before[|before| - 1].key == last.key then before else before + [last]
  }

  lemma {:induction false} UniqueLast(a: seq<Pairs>)
    requires a != []
    ensures Unique(a) != [] && Unique(a)[|Unique(a)| - 1].key == a[|a| - 1].key
  {
    if |a| > 1 {
      UniqueLast(a[..|a| - 1]);
    }
  }

  lemma {:induction false} UniqueMembers(a: seq<Pairs>, p: Pairs)
    requires p in Unique(a)
    ensures p in a
  {
    if a != [] && p != a[|a| - 1] {
      UniqueMembers(a[..|a| - 1], p);
    }
  }

  ghost predicate Ascending(u: seq<Pairs>) {
    forall i, j :: 0 <= i < j < |u| ==> KeyLess(u[i].key, u[j].key)
  }

  lemma SortedFront(a: seq<Pairs>)
    requires PairsSorted(a) && a != []
    ensures PairsSorted(a[..|a| - 1])
    ensures |a| > 1 ==> PairsLeq(a[|a| - 2], a[|a| - 1])
  {
    hide PairsLeq;
  }

  lemma AscendingSnoc(u: seq<Pairs>, p: Pairs)
    requires Ascending(u) && (u != [] ==> KeyLess(u[|u| - 1].key, p.key))
    ensures Ascending(u + [p])
  {
    forall i | 0 <= i < |u| ensures KeyLess(u[i].key, p.key) {
      if i < |u| - 1 {
        KeyLessTransitive(u[i].key, u[|u| - 1].key, p.key);
      }
    }
    hide KeyLess;
  }

  /** The survivors have strictly ascending keys. */
  lemma {:induction false} UniqueAscends(a: seq<Pairs>)
    requires PairsSorted(a)
    ensures Ascending(Unique(a))
  {
    hide KeyLess, PairsSorted, Ascending;
    if a == [] {
      assert Ascending([]) by { NothingAscends(); }
    } else {
      var n := |a| - 1;
      SortedFront(a);
      UniqueAscends(a[..n]);
      if n > 0 {
        UniqueLast(a[..n]);
        assert a[..n][n - 1] == a[n - 1];
      }
      if Unique(a) != Unique(a[..n]) {
        AscendingSnoc(Unique(a[..n]), a[n]);
      }
    }
  }

  lemma NothingAscends()
    ensures Ascending([])
  {
  }

  /** Every key survives, and a pair that is not to be freed is not given up for one that is. */
  lemma {:induction false} UniqueKeeps(a: seq<Pairs>, p: Pairs)
    requires PairsSorted(a) && p in a
    ensures exists q :: q in Unique(a) && q.key == p.key && (q.needfree ==> p.needfree)
  {
    hide KeyLess, PairsSorted;
    var n := |a| - 1;
    var before := Unique(a[..n]);
    SortedFront(a);
    if p in a[..n] {
      UniqueKeeps(a[..n], p);
      var q :| q in before && q.key == p.key && (q.needfree ==> p.needfree);
      assert q in Unique(a);
    } else {
      assert p == a[n];
      if before != [] && before[|before| - 1].key == p.key {
        var w := before[|before| - 1];
        assert w in before;
        UniqueMembers(a[..n], w);
        InFront(a, w);
        assert w in Unique(a);
      } else {
        assert p in Unique(a);
      }
    }
  }

  lemma InFront(a: seq<Pairs>, w: Pairs)
    requires PairsSorted(a) && a != [] && w in a[..|a| - 1]
    ensures w.key == a[|a| - 1].key ==> (w.needfree ==> a[|a| - 1].needfree)
  {
    var i :| 0 <= i < |a[..|a| - 1]| && a[..|a| - 1][i] == w;
    assert PairsLeq(a[i], a[|a| - 1]);
    KeyLessIrreflexive(w.key, w.key);
    hide KeyLess;
  }

  lemma UniqueStep(a: seq<Pairs>, n: nat)
    requires n < |a|
    ensures var before := Unique(a[..n]);
            Unique(a[..n + 1]) == if before != [] && before[|before| - 1].key == a[n].key then before
              else before + [a[n]]
    ensures |Unique(a[..n])| <= n
  {
    assert a[..n + 1][..n] == a[..n];
    UniqueShorter(a[..n]);
  }

  lemma {:induction false} UniqueShorter(a: seq<Pairs>)
    ensures |Unique(a)| <= |a| && (a != [] ==> Unique(a) != [])
  {
    if a != [] {
      UniqueShorter(a[..|a| - 1]);
    }
  }

  lemma PairsOfSnoc(a: seq<Pairs>, p: Pairs)
    ensures PairsOf(a + [p]) == PairsOf(a) + [PairOf(p)]
    ensures Strings(PairsOf(a + [p])) == Strings(PairsOf(a)) + PairBytes(PairOf(p))
  {
    assert PairsOf(a + [p]) == PairsOf(a) + [PairOf(p)];
    StringsSnoc(PairsOf(a), PairOf(p));
  }

  /** What a record needs in the string buffer. */
  function Room(p: Pairs): nat { |p.key| + if p.isnull then 0 else |p.val| }

  lemma RoomIs(p: Pairs)
    ensures |PairBytes(PairOf(p))| == Room(p)
  {
  }

  /** The string buffer the first n records need. */
  function RoomOf(a: seq<Pairs>, n: nat): nat
    requires n <= |a|
  {
    |Strings(PairsOf(a[..n]))|
  }

  lemma RoomOfNext(a: seq<Pairs>, n: nat)
    requires n < |a|
    ensures RoomOf(a, n + 1) == RoomOf(a, n) + Room(a[n])
  {
    assert a[..n + 1] == a[..n] + [a[n]];
    PairsOfSnoc(a[..n], a[n]);
    RoomIs(a[n]);
  }

  lemma RoomOfPrefix(a: seq<Pairs>, b: seq<Pairs>, n: nat)
    requires n <= |a| && n <= |b| && a[..n] == b[..n]
    ensures RoomOf(a, n) == RoomOf(b, n)
  {
  }

  lemma RoomOfNone(a: seq<Pairs>)
    ensures RoomOf(a, 0) == 0
  {
    assert a[..0] == [] && PairsOf([]) == [];
  }

  lemma RoomOfAll(a: seq<Pairs>)
    ensures RoomOf(a, |a|) == |Strings(PairsOf(a))|
  {
    assert a[..|a|] == a;
  }

  lemma SnocPrefix(u: seq<Pairs>, p: Pairs)
    ensures (u + [p])[..|u|] == u
  {
  }

  /** The in-place loop of hstoreUniquePairs, after qsort. */
  method UniqueInPlace(a: array<Pairs>, l: nat) returns (n: nat, buflen: nat)
    requires 1 <= l == a.Length
    modifies a
    ensures n <= a.Length && a[..n] == Unique(old(a[..])) && buflen == |Strings(PairsOf(a[..n]))|
  {
    hide Unique, RoomOf, Room, Strings, PairsOf;
    ghost var s := a[..];
    UniqueOfOne(s);
    ghost var u := Unique(s[..1]);
    RoomOfNone(u);
    var ptr, res: nat := 1, 0;
    buflen := 0;
    while ptr < l
      invariant 1 <= ptr <= l && res < ptr
      invariant u == Unique(s[..ptr]) && |u| == res + 1 && buflen == RoomOf(u, res)
      invariant forall k :: 0 <= k <= res ==> a[k] == u[k]
      invariant forall k :: ptr <= k < l ==> a[k] == s[k]
    {
      UniqueStep(s, ptr);
      if a[ptr].key != a[res].key {
        RoomOfNext(u, res);
        SnocPrefix(u, a[ptr]);
        buflen := buflen + Room(a[res]);
        RoomOfPrefix(u, u + [a[ptr]], res + 1);
        u := u + [a[ptr]];
        res := res + 1;
        if res != ptr {
          a[res] := a[ptr];
        }
      }
      ptr := ptr + 1;
    }
    RoomOfNext(u, res);
    RoomOfAll(u);
    buflen := buflen + Room(a[res]);
    n := res + 1;
    assert a[..n] == u;
    assert s[..ptr] == s;
  }

  lemma UniqueOfOne(s: seq<Pairs>)
    requires |s| >= 1
    ensures Unique(s[..1]) == [s[0]]
  {
    assert s[..1][..0] == [];
  }

  lemma NothingRecorded()
    ensures PairsOf([]) == [] && Strings([]) == []
  {
  }

  /** hstoreUniquePairs, qsort being any function that sorts. */
  method UniquePairs(pairs: seq<Pairs>, qsort: seq<Pairs> -> seq<Pairs>) returns (r: seq<Pairs>, buflen: nat)
    requires forall a :: IsSortOf(a, qsort(a))
    ensures r == (if |pairs| < 2 then pairs else Unique(qsort(pairs))) && buflen == |Strings(PairsOf(r))|
  {
    hide Unique, Strings, PairsOf, Room, PairOf, PairsSorted;
    if |pairs| < 2 {
      r := pairs;
      buflen := 0;
      NothingRecorded();
      if |pairs| == 1 {
        PairsOfSnoc([], pairs[0]);
        RoomIs(pairs[0]);
        assert [] + [pairs[0]] == pairs;
        buflen := Room(pairs[0]);
      }
      return;
    }
    var sorted := qsort(pairs);
    assert IsSortOf(pairs, sorted);
    assert |multiset(sorted)| == |multiset(pairs)| == |pairs|;
    var a := new Pairs[|sorted|](i requires 0 <= i < |sorted| => sorted[i]);
    assert a[..] == sorted;
    var n;
    n, buflen := UniqueInPlace(a, a.Length);
    r := a[..n];
  }

  // ---- Building from pairs ----

  /** The same memory outside two ranges. */
  predicate Apart(m: Bytes, m': Bytes, a: nat, b: nat, c: nat, d: nat) {
    |m'| == |m| && forall k :: 0 <= k < |m| && !(a <= k < b) && !(c <= k < d) ==> m'[k] == m[k]
  }

  /** The memory holds one pair more. */
  lemma PairWritten(m0: Bytes, m: Bytes, c: nat, ps: seq<Pair>, p: Pair)
    requires Partial(m0, c, ps) && |ps| < c && StrPtr(c) + |Strings(ps)| + |PairBytes(p)| <= |m0|
    requires var ptr, ent := StrPtr(c) + |Strings(ps)|, HSHRDSIZE + 4 * (2 * |ps|);
             && Apart(m0, m, ent, ent + 8, ptr, ptr + |PairBytes(p)|) && At(m, ptr, PairBytes(p))
             && Word(m, ent) == |Strings(ps)| + |p.key|
             && Word(m, ent + 4) == |Strings(ps)| + |PairBytes(p)| + if p.val.Null? then HENTRY_ISNULL else 0
    ensures Partial(m, c, ps + [p])
  {
    hide Strings, PairBytes, EndOf;
    SameWord(m0, m, 4);
    forall i | 0 <= i < |ps| ensures PairEntries(m, ps, i, false) {
      assert PairEntries(m0, ps, i, false);
      SameWord(m0, m, HSHRDSIZE + 4 * (2 * i));
      SameWord(m0, m, HSHRDSIZE + 4 * (2 * i + 1));
    }
    hide Word;
    EntriesGrow(m, ps, p);
    AtJoin(m, StrPtr(c), Strings(ps), PairBytes(p));
    StringsSnoc(ps, p);
  }

  /** Bytes copied to the string buffer, and an entry for where they end. */
  method AddPart(mem: array<byte>, ent: nat, dbuf: nat, dptr: nat, bytes: Bytes, isnull: bool) returns (dptr': nat)
    requires ent + 4 <= dptr && dbuf <= dptr && dptr + |bytes| <= mem.Length && dptr + |bytes| - dbuf < POS_LIMIT
    modifies mem
    ensures dptr' == dptr + |bytes|
    ensures Apart(old(mem[..]), mem[..], ent, ent + 4, dptr, dptr') && At(mem[..], dptr, bytes)
    ensures Word(mem[..], ent) == dptr' - dbuf + if isnull then HENTRY_ISNULL else 0
  {
    hide Word;
    ghost var m0 := mem[..];
    AtSelf(bytes);
    MemCpy(mem, dptr, bytes, 0, |bytes|, bytes);
    ghost var m1 := mem[..];
    dptr' := dptr + |bytes|;
    FitsMask(dptr' - dbuf);
    PutWord(mem, ent, (dptr' - dbuf) % POS_LIMIT + if isnull then HENTRY_ISNULL else 0);
    AtKept(m1, mem[..], ent, ent + 4, dptr, bytes);
  }

  /** HS_ADDITEM. */
  method AddItem(mem: array<byte>, dent: nat, dbuf: nat, dptr: nat, pair: Pairs, ghost c: nat, ghost ps: seq<Pair>)
    returns (dent': nat, dptr': nat)
    requires Partial(mem[..], c, ps) && |ps| < c
    requires dent == 2 * |ps| && dbuf == StrPtr(c) && dptr == dbuf + |Strings(ps)|
    requires dptr + Room(pair) <= mem.Length && |Strings(ps)| + Room(pair) < POS_LIMIT
    modifies mem
    ensures Partial(mem[..], c, ps + [PairOf(pair)])
    ensures dent' == dent + 2 && dptr' == dptr + Room(pair)
    ensures dptr' == dbuf + |Strings(ps + [PairOf(pair)])|
  {
    ghost var m0 := mem[..];
    RoomFor(m0, c, ps, pair);
    hide Partial, Word, Strings, Apart, At, Room;
    var ent := HSHRDSIZE + 4 * dent;
    var mid := AddPart(mem, ent, dbuf, dptr, pair.key, false);
    ghost var m1 := mem[..];
    var val := if pair.isnull then [] else pair.val;
    dptr' := AddPart(mem, ent + 4, dbuf, mid, val, pair.isnull);
    ItemWritten(m0, m1, mem[..], c, ps, pair);
    dent' := dent + 2;
  }

  lemma RoomFor(m: Bytes, c: nat, ps: seq<Pair>, pair: Pairs)
    requires Partial(m, c, ps)
    ensures |ps| <= c && StrPtr(c) <= |m|
    ensures Room(pair) == |pair.key| + if pair.isnull then 0 else |pair.val|
  {
    PartialRoom(m, c, ps);
  }

  /** Key and value copied and both entries written: one pair more. */
  lemma ItemWritten(m0: Bytes, m1: Bytes, m2: Bytes, c: nat, ps: seq<Pair>, pair: Pairs)
    requires Partial(m0, c, ps) && |ps| < c && StrPtr(c) + |Strings(ps)| + Room(pair) <= |m0|
    requires var ent, from := HSHRDSIZE + 4 * (2 * |ps|), StrPtr(c) + |Strings(ps)|;
             var val := if pair.isnull then [] else pair.val;
             var mid := from + |pair.key|;
             && Apart(m0, m1, ent, ent + 4, from, mid) && At(m1, from, pair.key) && Word(m1, ent) == mid - StrPtr(c)
             && Apart(m1, m2, ent + 4, ent + 8, mid, mid + |val|) && At(m2, mid, val)
             && Word(m2, ent + 4) == mid + |val| - StrPtr(c) + if pair.isnull then HENTRY_ISNULL else 0
    ensures Partial(m2, c, ps + [PairOf(pair)]) && |Strings(ps + [PairOf(pair)])| == |Strings(ps)| + Room(pair)
  {
    hide Partial, Word, Strings, Apart, At;
    var ent, from, val := HSHRDSIZE + 4 * (2 * |ps|), StrPtr(c) + |Strings(ps)|, if pair.isnull then [] else pair.val;
    var mid := from + |pair.key|;
    StringsSnoc(ps, PairOf(pair));
    RoomIs(pair);
    TwoParts(m0, m1, m2, ent, from, mid, mid + |val|, pair.key, val);
    PairWritten(m0, m2, c, ps, PairOf(pair));
  }

  lemma TwoParts(m0: Bytes, m1: Bytes, m2: Bytes, ent: nat, from: nat, mid: nat, to: nat, key: Bytes, val: Bytes)
    requires ent + 8 <= from && mid == from + |key| && to == mid + |val| <= |m0|
    requires Apart(m0, m1, ent, ent + 4, from, mid) && At(m1, from, key)
    requires Apart(m1, m2, ent + 4, ent + 8, mid, to) && At(m2, mid, val)
    ensures Apart(m0, m2, ent, ent + 8, from, to) && At(m2, from, key + val) && Word(m2, ent) == Word(m1, ent)
  {
    SameWord(m1, m2, ent);
    assert At(m2, from, key);
    AtJoin(m2, from, key, val);
  }

  lemma AtSelf(s: Bytes)
    ensures At(s, 0, s)
  {
  }

  lemma StringsOfFirst(a: seq<Pairs>, n: nat)
    requires n < |a|
    ensures PairsOf(a[..n + 1]) == PairsOf(a[..n]) + [PairOf(a[n])]
    ensures |Strings(PairsOf(a[..n]))| + Room(a[n]) <= |Strings(PairsOf(a))|
  {
    assert a[..n + 1] == a[..n] + [a[n]];
    PairsOfSnoc(a[..n], a[n]);
    RoomIs(a[n]);
    StringsPrefix(PairsOf(a), n + 1);
    assert PairsOf(a)[..n + 1] == PairsOf(a[..n + 1]);
  }

  /** hstorePairs: the packed value of the pairs, in the given order; refused when it is too large to allocate. */
  method BuildFromPairs(pairs: seq<Pairs>, pcount: nat, buflen: nat) returns (r: Option<array<byte>>)
    requires pcount == |pairs| && buflen == |Strings(PairsOf(pairs))|
    ensures r.Some? <==> CalcDataSize(pcount, buflen) <= MaxAllocSize
    ensures r.Some? ==> fresh(r.value) && Image(r.value[..], PairsOf(pairs))
  {
    var len := CalcDataSize(pcount, buflen);
    if len > MaxAllocSize {
      return None;
    }
    hide Partial, Strings, PairsOf, PairOf, Room, Image;
    var out := NewValue(len, pcount);
    var entry, buf: nat := 0, StrPtr(pcount);
    var ptr := buf;
    NothingRecorded();
    assert pairs[..0] == [];
    for i := 0 to pcount
      invariant Partial(out[..], pcount, PairsOf(pairs[..i])) && |PairsOf(pairs[..i])| == i
      invariant entry == 2 * i && ptr == buf + |Strings(PairsOf(pairs[..i]))|
    {
      StringsOfFirst(pairs, i);
      entry, ptr := AddItem(out, entry, buf, ptr, pairs[i], pcount, PairsOf(pairs[..i]));
    }
    assert pairs[..pcount] == pairs;
    Finalize(out, pcount, buf, ptr, pcount, PairsOf(pairs));
    r := Some(out);
  }

  // ---- Input ----

  datatype InResult = Stored(out: array<byte>) | InputSyntaxError | WordTooLong | ValueTooLarge

  /** hstore_in: the pairs read, duplicate keys reduced to one, packed. */
  method HstoreIn(text: Bytes, qsort: seq<Pairs> -> seq<Pairs>) returns (r: InResult)
    requires forall a :: IsSortOf(a, qsort(a))
    ensures match Parse(text, WKEY, [], [])
            case SyntaxError => r == InputSyntaxError
            case TooLong => r == WordTooLong
            case Ok(pairs) =>
              var ps := PairsOf(if |pairs| < 2 then pairs else Unique(qsort(pairs)));
              if CalcDataSize(|ps|, |Strings(ps)|) > MaxAllocSize then r == ValueTooLarge
              else r.Stored? && WellFormed(r.out[..], ps)
  {
    hide Parse, Unique, Strings, Image, PairsSorted;
    var state := new HSParser(text);
    var parsed := state.ParseHstore();
    match parsed {
      case SyntaxError => return InputSyntaxError;
      case TooLong => return WordTooLong;
      case Ok(pairs) =>
        var unique, buflen := UniquePairs(pairs, qsort);
        var out := BuildFromPairs(unique, |unique|, buflen);
        if out.None? {
          return ValueTooLarge;
        }
        if |pairs| < 2 {
          FewSorted(pairs);
        } else {
          assert IsSortOf(pairs, qsort(pairs));
          UniqueAscends(qsort(pairs));
          AscendingPairs(unique);
        }
        r := Stored(out.value);
    }
  }

  lemma FewSorted(a: seq<Pairs>)
    requires |a| < 2
    ensures Sorted(PairsOf(a))
  {
  }

  lemma AscendingPairs(a: seq<Pairs>)
    requires Ascending(a)
    ensures Sorted(PairsOf(a))
  {
    hide KeyLess;
    forall i, j | 0 <= i < j < |a| ensures KeyLess(PairsOf(a)[i].key, PairsOf(a)[j].key) {
      assert KeyLess(a[i].key, a[j].key);
    }
  }
}
