/** hstore_out writing into a buffer of a length computed beforehand, and the round trip through text. */
module HstoreOut {
  import opened Lex
  import opened HstorePairs
  import opened HstoreLayout
  import opened HstoreBuild
  import opened HstoreOps
  import opened HstoreText
  import opened HstoreIo

  // ---- The length computed beforehand ----

  /** What the first loop adds for one pair. */
  function Budget(p: Pair): nat {
    6 + 2 * |p.key| + 2 + if p.val.Null? then 2 else 2 * |p.val.bytes|
  }

  function BudgetOf(ps: seq<Pair>, n: nat): nat
    requires n <= |ps|
  {
    if n == 0 then 0 else BudgetOf(ps, n - 1) + Budget(ps[n - 1])
  }

  function Separator(ps: seq<Pair>, i: nat): Bytes { if i + 1 < |ps| then [COMMA, SPACE] else [] }

  /** What has been written when n pairs are done. */
  function Written(ps: seq<Pair>, n: nat): Bytes
    requires n <= |ps|
  {
    if n == 0 then [] else Written(ps, n - 1) + (PrintPair(ps[n - 1]) + Separator(ps, n - 1))
  }

  lemma {:induction false} EscapeLength(s: Bytes)
    ensures |s| <= |Escape(s)| <= 2 * |s|
  {
    if s != [] {
      EscapeLength(s[1..]);
    }
  }

  lemma PairLength(p: Pair)
    ensures |PrintPair(p)| + 2 <= Budget(p)
  {
    EscapeLength(p.key);
    if p.val.Text? {
      EscapeLength(p.val.bytes);
    }
    hide Escape;
  }

  /** The buffer suffices at every point, the terminator included. */
  lemma {:induction false} WrittenFits(ps: seq<Pair>, n: nat)
    requires n <= |ps|
    ensures |Written(ps, n)| + (if n == |ps| && n > 0 then 1 else 0) <= BudgetOf(ps, n)
  {
    hide PrintPair, Budget;
    if n > 0 {
      WrittenFits(ps, n - 1);
      PairLength(ps[n - 1]);
    }
  }

  lemma {:induction false} BudgetGrows(ps: seq<Pair>, n: nat)
    requires n <= |ps|
    ensures BudgetOf(ps, n) <= BudgetOf(ps, |ps|)
    decreases |ps| - n
  {
    hide Budget;
    if n < |ps| {
      BudgetGrows(ps, n + 1);
    }
  }

  lemma {:induction false} WrittenFirst(ps: seq<Pair>, n: nat)
    requires 1 <= n <= |ps|
    ensures Written(ps, n) == PrintPair(ps[0]) + Separator(ps, 0) + Written(ps[1..], n - 1)
  {
    hide PrintPair;
    if n > 1 {
      WrittenFirst(ps, n - 1);
      assert ps[1..][n - 2] == ps[n - 1] && Separator(ps[1..], n - 2) == Separator(ps, n - 1);
      Group(PrintPair(ps[0]) + Separator(ps, 0), Written(ps[1..], n - 2), PrintPair(ps[n - 1]) + Separator(ps, n - 1));
    } else {
      assert Written(ps, 0) == [];
      assert Written(ps[1..], 0) == [];
    }
  }

  lemma Group(a: Bytes, b: Bytes, c: Bytes)
    ensures a + b + c == a + (b + c)
  {
  }

  /** All pairs written are the printed text. */
  lemma {:induction false} WrittenIsPrint(ps: seq<Pair>)
    ensures Written(ps, |ps|) == Print(ps)
  {
    hide PrintPair;
    if ps != [] {
      WrittenFirst(ps, |ps|);
      WrittenIsPrint(ps[1..]);
      if |ps| > 1 {
        Group(PrintPair(ps[0]), [COMMA, SPACE], Print(ps[1..]));
      } else {
        assert PrintPair(ps[0]) + [] + [] == PrintPair(ps[0]) + [];
      }
    }
  }

  // ---- Writing ----

  /** Bytes one after the other. */
  method Emit(out: array<byte>, ptr: nat, bytes: Bytes, ghost text: Bytes) returns (ptr': nat)
    requires At(out[..], 0, text) && ptr == |text| && ptr + |bytes| <= out.Length
    modifies out
    ensures At(out[..], 0, text + bytes) && ptr' == |text + bytes|
  {
    AtSelf(bytes);
    ghost var m := out[..];
    MemCpy(out, ptr, bytes, 0, |bytes|, bytes);
    AtKept(m, out[..], ptr, ptr + |bytes|, 0, text);
    AtJoin(out[..], 0, text, bytes);
    ptr' := ptr + |bytes|;
  }

  lemma EscapeStep(s: Bytes, k: nat)
    requires k < |s|
    ensures Escape(s[k..]) == (if s[k] == QUOTE || s[k] == BACKSLASH then [BACKSLASH, s[k]] else [s[k]])
            + Escape(s[k + 1..])
  {
    assert s[k..][1..] == s[k + 1..];
  }

  /** cpw. */
  method Cpw(out: array<byte>, dst: nat, src: Bytes, ghost text: Bytes) returns (dst': nat)
    requires At(out[..], 0, text) && dst == |text| && dst + |Escape(src)| <= out.Length
    modifies out
    ensures At(out[..], 0, text + Escape(src)) && dst' == |text + Escape(src)|
  {
    hide Escape, At;
    dst' := dst;
    var k := 0;
    ghost var sofar := text;
    assert src[0..] == src;
    while k < |src|
      invariant 0 <= k <= |src| && At(out[..], 0, sofar) && dst' == |sofar|
      invariant sofar + Escape(src[k..]) == text + Escape(src)
    {
      EscapeStep(src, k);
      var bytes := if src[k] == QUOTE || src[k] == BACKSLASH then [BACKSLASH, src[k]] else [src[k]];
      Group(sofar, bytes, Escape(src[k + 1..]));
      Lengths3(sofar, bytes, Escape(src[k + 1..]), text, Escape(src));
      dst' := Emit(out, dst', bytes, sofar);
      sofar := sofar + bytes;
      k := k + 1;
    }
    NothingEscaped(src, k);
    assert sofar + [] == sofar;
  }

  lemma Lengths3(a: Bytes, b: Bytes, c: Bytes, t: Bytes, e: Bytes)
    requires a + (b + c) == t + e
    ensures |a| + |b| <= |t| + |e|
  {
    assert |a + (b + c)| == |t + e|;
  }

  lemma NothingEscaped(s: Bytes, k: nat)
    requires k == |s|
    ensures Escape(s[k..]) == []
  {
  }

  /** One pair and its separator. */
  method EmitPair(out: array<byte>, ptr: nat, m: Bytes, i: nat, ghost ps: seq<Pair>, ghost text: Bytes)
    returns (ptr': nat)
    requires Image(m, ps) && i < |ps|
    requires At(out[..], 0, text) && ptr == |text| && ptr + |PrintPair(ps[i]) + Separator(ps, i)| <= out.Length
    modifies out
    ensures At(out[..], 0, text + (PrintPair(ps[i]) + Separator(ps, i)))
            && ptr' == ptr + |PrintPair(ps[i]) + Separator(ps, i)|
  {
    ReadKeyAndVal(m, ps, i);
    PrintParts(ps[i]);
    hide Image, Readable, KeyAt, ValAt, Escape, At, PrintPair;
    var key, val := KeyAt(m, i), ValAt(m, i);
    ptr' := Emit(out, ptr, [QUOTE], text);
    ghost var t := text + [QUOTE];
    ptr' := Cpw(out, ptr', key, t);
    t := t + Escape(key);
    ptr' := Emit(out, ptr', [QUOTE, EQUALS, GREATER], t);
    t := t + [QUOTE, EQUALS, GREATER];
    if val.Null? {
      ptr' := Emit(out, ptr', NULL_WORD, t);
      t := t + NULL_WORD;
    } else {
      ptr' := Emit(out, ptr', [QUOTE], t);
      t := t + [QUOTE];
      ptr' := Cpw(out, ptr', val.bytes, t);
      t := t + Escape(val.bytes);
      ptr' := Emit(out, ptr', [QUOTE], t);
      t := t + [QUOTE];
    }
    PrintJoined(text, ps[i], t);
    ghost var printed := text + PrintPair(ps[i]);
    if i + 1 != HsCount(m) {
      ptr' := Emit(out, ptr', [COMMA, SPACE], printed);
    } else {
      assert printed + [] == printed;
    }
    Group(text, PrintPair(ps[i]), Separator(ps, i));
  }

  lemma PrintParts(p: Pair)
    ensures |PrintPair(p)| == 4 + |Escape(p.key)| + if p.val.Null? then 4 else 2 + |Escape(p.val.bytes)|
  {
    hide Escape;
  }

  lemma PrintJoined(text: Bytes, p: Pair, t: Bytes)
    requires var head := text + [QUOTE] + Escape(p.key) + [QUOTE, EQUALS, GREATER];
             t == if p.val.Null? then head + NULL_WORD else head + [QUOTE] + Escape(p.val.bytes) + [QUOTE]
    ensures t == text + PrintPair(p)
  {
    hide Escape;
    var k := Escape(p.key);
    var v := PrintValue(p.val);
    var arrow := [QUOTE, EQUALS, GREATER];
    Group(text + [QUOTE] + k, arrow, v);
    Group(text + [QUOTE], k, arrow + v);
    Group(text, [QUOTE], k + (arrow + v));
    if p.val.Text? {
      Group(text + [QUOTE] + k + arrow + [QUOTE], Escape(p.val.bytes), [QUOTE]);
      Group(text + [QUOTE] + k + arrow, [QUOTE], Escape(p.val.bytes) + [QUOTE]);
    }
  }

  datatype OutResult = Printed(text: Bytes) | TooLargeToPrint

  /** hstore_out. Every write, the terminator's included, is within the buffer whose length was computed before. */
  method HstoreOut(m: Bytes, ghost ps: seq<Pair>) returns (r: OutResult)
    requires Image(m, ps)
    ensures r == if ps == [] || BudgetOf(ps, |ps|) <= MaxAllocSize then Printed(Print(ps)) else TooLargeToPrint
  {
    hide Image, PrintPair, Readable, At, KeyAt, ValAt;
    ReadCount(m, ps);
    var count := HsCount(m);
    if count == 0 {
      return Printed([]);
    }
    var buflen := 0;
    for i := 0 to count
      invariant buflen == BudgetOf(ps, i)
    {
      ReadKeyAndVal(m, ps, i);
      buflen := buflen + 6 + 2 * |KeyAt(m, i)|;
      buflen := buflen + 2 + if ValAt(m, i).Null? then 2 else 2 * |ValAt(m, i).bytes|;
    }
    if buflen > MaxAllocSize {
      return TooLargeToPrint;
    }
    var out := new byte[buflen](_ => 0);
    var ptr := 0;
    assert At(out[..], 0, []) by { NothingAt(out[..]); }
    hide BudgetOf, Written, Separator;
    WrittenNone(ps);
    for i := 0 to count
      invariant At(out[..], 0, Written(ps, i)) && ptr == |Written(ps, i)|
    {
      WrittenFits(ps, i + 1);
      BudgetGrows(ps, i + 1);
      WrittenNext(ps, i);
      ptr := EmitPair(out, ptr, m, i, ps, Written(ps, i));
    }
    WrittenFits(ps, count);
    WrittenIsPrint(ps);
    AtStart(out[..], Written(ps, count));
    assert out[..][..ptr] == out[..ptr];
    ghost var text := out[..ptr];
    out[ptr] := 0;
    assert out[..ptr] == text;
    r := Printed(out[..ptr]);
  }

  lemma NothingAt(m: Bytes)
    ensures At(m, 0, [])
  {
  }

  lemma AtStart(m: Bytes, s: Bytes)
    requires At(m, 0, s)
    ensures m[..|s|] == s
  {
    assert forall k :: 0 <= k < |s| ==> m[0 + k] == s[k];
  }

  lemma WrittenNone(ps: seq<Pair>)
    ensures Written(ps, 0) == []
  {
  }

  lemma WrittenNext(ps: seq<Pair>, i: nat)
    requires i < |ps|
    ensures Written(ps, i + 1) == Written(ps, i) + (PrintPair(ps[i]) + Separator(ps, i))
  {
  }

  // ---- The round trip ----

  lemma {:induction false} FirstLeast(a: seq<Pairs>, b: seq<Pairs>)
    requires Ascending(a) && PairsSorted(b) && multiset(a) == multiset(b) && a != []
    ensures b != [] && a[0] == b[0]
  {
    assert a[0] in multiset(a) && |multiset(a)| == |a|;
    assert a[0] in multiset(b) && b != [];
    assert b[0] in multiset(b);
    assert b[0] in multiset(a);
    var i :| 0 <= i < |a| && a[i] == b[0];
    var j :| 0 <= j < |b| && b[j] == a[0];
    KeyLessIrreflexive(a[0].key, b[0].key);
    assert j > 0 ==> PairsLeq(b[0], b[j]);
    hide KeyLess;
  }

  lemma Rest(a: seq<Pairs>)
    requires a != []
    ensures multiset(a[1..]) == multiset(a) - multiset{a[0]}
    ensures Ascending(a) ==> Ascending(a[1..])
    ensures PairsSorted(a) ==> PairsSorted(a[1..])
  {
    assert a == [a[0]] + a[1..];
    hide KeyLess, PairsLeq;
  }

  lemma FirstAndRest(a: seq<Pairs>, b: seq<Pairs>)
    requires a != [] && b != [] && a[0] == b[0] && a[1..] == b[1..]
    ensures a == b
  {
    assert a == [a[0]] + a[1..] && b == [b[0]] + b[1..];
  }

  /** Any sort leaves strictly ascending keys as they are. */
  lemma {:induction false} SortLeaves(a: seq<Pairs>, b: seq<Pairs>)
    requires Ascending(a) && IsSortOf(a, b)
    ensures b == a
  {
    hide Ascending, PairsSorted;
    if a == [] {
      assert |multiset(b)| == |b| && |multiset(a)| == 0;
    } else {
      FirstLeast(a, b);
      Rest(a);
      Rest(b);
      SortLeaves(a[1..], b[1..]);
      FirstAndRest(a, b);
    }
  }

  lemma AscendingFront(a: seq<Pairs>)
    requires Ascending(a) && a != []
    ensures Ascending(a[..|a| - 1]) && (|a| > 1 ==> a[|a| - 2].key != a[|a| - 1].key)
  {
    if |a| > 1 {
      KeyLessIrreflexive(a[|a| - 2].key, a[|a| - 1].key);
    }
    hide KeyLess;
  }

  /** There is nothing to make unique in them. */
  lemma {:induction false} UniqueLeaves(a: seq<Pairs>)
    requires Ascending(a)
    ensures Unique(a) == a
  {
    hide Ascending;
    if a != [] {
      AscendingFront(a);
      UniqueLeaves(a[..|a| - 1]);
      assert a == a[..|a| - 1] + [a[|a| - 1]];
    }
  }

  lemma RecordedBack(ps: seq<Pair>)
    ensures PairsOf(AllRecorded(ps)) == ps
    ensures Sorted(ps) ==> Ascending(AllRecorded(ps))
  {
    hide KeyLess;
    forall i | 0 <= i < |ps| ensures PairsOf(AllRecorded(ps))[i] == ps[i] {
      RecordedPair(ps[i]);
    }
  }

  lemma RecordedPair(p: Pair)
    ensures PairOf(Recorded(p)) == p
  {
  }

  /** The text hstore_out prints for a value without NUL bytes is read by hstore_in, whatever sort it uses, as the same
      pairs: the same keys and values, and nulls as nulls. */
  lemma TextRoundTrip(ps: seq<Pair>, qsort: seq<Pairs> -> seq<Pairs>)
    requires Sorted(ps) && forall i :: 0 <= i < |ps| ==> Printable(ps[i])
    requires IsSortOf(AllRecorded(ps), qsort(AllRecorded(ps)))
    ensures Parse(Print(ps), WKEY, [], []) == Ok(AllRecorded(ps))
    ensures var pairs := AllRecorded(ps); PairsOf(if |pairs| < 2 then pairs else Unique(qsort(pairs))) == ps
  {
    hide Parse, Printable;
    ReadsWhatIsPrinted(ps, []);
    assert [] + AllRecorded(ps) == AllRecorded(ps);
    RecordedBack(ps);
    SortLeaves(AllRecorded(ps), qsort(AllRecorded(ps)));
    UniqueLeaves(AllRecorded(ps));
  }

  /** hstore_in on what hstore_out printed: a packed value of the very pairs printed. */
  method OutThenIn(m: Bytes, ghost ps: seq<Pair>, qsort: seq<Pairs> -> seq<Pairs>) returns (r: InResult)
    requires WellFormed(m, ps) && forall i :: 0 <= i < |ps| ==> Printable(ps[i])
    requires forall a :: IsSortOf(a, qsort(a))
    requires ps == [] || BudgetOf(ps, |ps|) <= MaxAllocSize
    requires VarSize(m) <= MaxAllocSize
    ensures r.Stored? && WellFormed(r.out[..], ps)
  {
    assert IsSortOf(AllRecorded(ps), qsort(AllRecorded(ps)));
    TextRoundTrip(ps, qsort);
    assert CalcDataSize(|ps|, |Strings(ps)|) == VarSize(m);
    hide Parse, Print, PairsOf, Unique, AllRecorded, BudgetOf, Printable, Sorted;
    var printed := HstoreOut(m, ps);
    r := HstoreIn(printed.text, qsort);
  }
}
