/** Pages of the bloom index: appending, compaction in place, scanning, and the index build. */
module BloomPages {
  import opened BloomSignature

  type Tid = int

  datatype Tuple = Tuple(heapPtr: Tid, sign: Words)

  /** What a page holds: nothing yet, or tuples and the deleted flag. */
  datatype PageView = New | Data(deleted: bool, tuples: seq<Tuple>)

  const BLCKSZ: nat := 8192
  const SIZE_OF_PAGE_HEADER: nat := 24
  const SIZE_OF_OPAQUE: nat := 8
  const BLOOMTUPLEHDRSZ: nat := 6

  /** Bytes for tuples on a page. */
  const ROOM: nat := BLCKSZ - SIZE_OF_PAGE_HEADER - SIZE_OF_OPAQUE

  function SizeOfBloomTuple(o: Options): nat { BLOOMTUPLEHDRSZ + 2 * o.bloomLength }

  /** BloomPageGetFreeSpace is enough for one more tuple. */
  predicate Fits(o: Options, n: nat) {
    ROOM - n * SizeOfBloomTuple(o) >= SizeOfBloomTuple(o)
  }

  function Quotient(room: nat, size: nat): nat
    requires size > 0
  {
    room / size
  }

  /** As many tuples as a page holds. */
  function Capacity(o: Options): nat { Quotient(ROOM, SizeOfBloomTuple(o)) }

  lemma MulMono(a: nat, b: nat, c: nat)
    requires a <= b
    ensures a * c <= b * c
  {
  }

  lemma QuotientIs(room: nat, size: nat)
    requires size > 0
    ensures Quotient(room, size) * size <= room < (Quotient(room, size) + 1) * size
  {
    assert room == room / size * size + room % size;
  }

  lemma Multiples(room: nat, size: nat, n: nat)
    requires size > 0
    ensures room - n * size >= size <==> n < Quotient(room, size)
  {
    hide Quotient;
    QuotientIs(room, size);
    var q := Quotient(room, size);
    if n < q {
      MulMono(n + 1, q, size);
    } else {
      MulMono(q + 1, n + 1, size);
    }
  }

  lemma FitsIff(o: Options, n: nat)
    ensures Fits(o, n) <==> n < Capacity(o)
  {
    Multiples(ROOM, SizeOfBloomTuple(o), n);
  }

  /** An empty page takes a tuple of any permitted length. */
  lemma EmptyPageFits(o: Options)
    requires ValidOptions(o)
    ensures Fits(o, 0)
  {
  }

  /** The tuples the callback does not name, in their order. */
  function Survivors(tuples: seq<Tuple>, dead: Tid -> bool): seq<Tuple> {
    if tuples == [] then []
    else
      var last := tuples[|tuples| - 1];
      var before := Survivors(tuples[..|tuples| - 1], dead);
      if dead(last.heapPtr) then before else before + [last]
  }

  lemma {:induction false} FewerSurvive(tuples: seq<Tuple>, dead: Tid -> bool)
    ensures |Survivors(tuples, dead)| <= |tuples|
    ensures |Survivors(tuples, dead)| == |tuples| ==> Survivors(tuples, dead) == tuples
    ensures forall t :: t in Survivors(tuples, dead) <==> t in tuples && !dead(t.heapPtr)
  {
    if tuples != [] {
      FewerSurvive(tuples[..|tuples| - 1], dead);
      assert tuples == tuples[..|tuples| - 1] + [tuples[|tuples| - 1]];
    }
  }

  lemma SurvivorsStep(tuples: seq<Tuple>, n: nat, dead: Tid -> bool)
    requires n < |tuples|
    ensures Survivors(tuples[..n + 1], dead)
            == if dead(tuples[n].heapPtr) then Survivors(tuples[..n], dead)
              else Survivors(tuples[..n], dead) + [tuples[n]]
  {
    assert tuples[..n + 1][..n] == tuples[..n];
  }

  lemma AllSurvivors(tuples: seq<Tuple>, dead: Tid -> bool)
    ensures Survivors(tuples[..|tuples|], dead) == Survivors(tuples, dead)
    ensures Survivors(tuples[..0], dead) == []
  {
    assert tuples[..|tuples|] == tuples;
  }

  /** What bulk deletion makes of a page. */
  function Vacuumed(p: PageView, dead: Tid -> bool): PageView {
    if p.New? || p.deleted then p
    else
      var kept := Survivors(p.tuples, dead);
      Data(kept == [] && p.tuples != [], kept)
  }

  /** The heap pointers of the tuples whose signature covers the scan's. */
  function Matching(tuples: seq<Tuple>, sign: Words): seq<Tid> {
    if tuples == [] then []
    else
      var last := tuples[|tuples| - 1];
      var before := Matching(tuples[..|tuples| - 1], sign);
      if Covers(last.sign, sign) then before + [last.heapPtr] else before
  }

  lemma {:induction false} MatchingOnly(tuples: seq<Tuple>, sign: Words, tid: Tid)
    requires tid in Matching(tuples, sign)
    ensures exists t :: t in tuples && t.heapPtr == tid && Covers(t.sign, sign)
  {
    hide Covers;
    if tuples != [] {
      var n := |tuples| - 1;
      if tid in Matching(tuples[..n], sign) {
        MatchingOnly(tuples[..n], sign, tid);
        var t :| t in tuples[..n] && t.heapPtr == tid && Covers(t.sign, sign);
        assert t in tuples;
      } else {
        assert tuples[n] in tuples;
      }
    }
  }

  lemma {:induction false} MatchingHas(tuples: seq<Tuple>, sign: Words, t: Tuple)
    requires t in tuples && Covers(t.sign, sign)
    ensures t.heapPtr in Matching(tuples, sign)
  {
    var n := |tuples| - 1;
    if t != tuples[n] {
      assert t in tuples[..n];
      MatchingHas(tuples[..n], sign, t);
    }
  }

  class Page {
    const o: Options
    const slots: array<Tuple>
    var isNew: bool
    var deleted: bool
    var maxoff: nat

    /** A page as the file is extended: all zeroes. */
    constructor (o: Options)
      requires ValidOptions(o)
      ensures Valid() && fresh(slots) && this.o == o && View() == New
    {
      this.o := o;
      slots := new Tuple[Capacity(o)](_ => Tuple(0, []));
      isNew, deleted, maxoff := true, false, 0;
    }

    ghost predicate Valid()
      reads this
    {
      ValidOptions(o) && slots.Length == Capacity(o) && maxoff <= slots.Length && (isNew ==> !deleted && maxoff == 0)
    }

    function View(): PageView
      requires Valid()
      reads this, slots
    {
      if isNew then New else Data(deleted, slots[..maxoff])
    }

    /** BloomInitPage with no flags. */
    method Init()
      requires Valid()
      modifies this
      ensures Valid() && View() == Data(false, [])
    {
      isNew := false;
      deleted := false;
      maxoff := 0;
    }

    /** BloomPageAddItem. */
    method AddItem(tuple: Tuple) returns (ok: bool)
      requires Valid() && !isNew && !deleted
      modifies this`maxoff, slots
      ensures Valid() && ok == Fits(o, old(maxoff))
      ensures View() == if ok then Data(false, old(View()).tuples + [tuple]) else old(View())
    {
      FitsIff(o, maxoff);
      if ROOM - maxoff * SizeOfBloomTuple(o) < SizeOfBloomTuple(o) {
        return false;
      }
      slots[maxoff] := tuple;
      maxoff := maxoff + 1;
      return true;
    }

    /** The tuple loop of blbulkdelete: survivors are moved down over the dead in place. */
    method Compact(dead: Tid -> bool) returns (removed: nat)
      requires Valid()
      modifies this`maxoff, slots
      ensures maxoff <= old(maxoff) && removed == old(maxoff) - maxoff
      ensures slots[..maxoff] == Survivors(old(slots[..maxoff]), dead)
    {
      hide Survivors, Capacity, ValidOptions;
      removed := 0;
      ghost var tuples := slots[..maxoff];
      var itup, itupPtr, itupEnd := 0, 0, maxoff;
      AllSurvivors(tuples, dead);
      assert slots[..0] == [];
      while itup < itupEnd
        invariant 0 <= itupPtr <= itup <= itupEnd <= slots.Length
        invariant maxoff == itupEnd - (itup - itupPtr) && removed == itup - itupPtr
        invariant slots[..itupPtr] == Survivors(tuples[..itup], dead)
        invariant forall k :: itup <= k < itupEnd ==> slots[k] == tuples[k]
      {
        SurvivorsStep(tuples, itup, dead);
        if dead(slots[itup].heapPtr) {
          maxoff := maxoff - 1;
          removed := removed + 1;
        } else {
          if itupPtr != itup {
            slots[itupPtr] := slots[itup];
          }
          itupPtr := itupPtr + 1;
        }
        itup := itup + 1;
      }
    }

    /** blbulkdelete on one page. */
    method Vacuum(dead: Tid -> bool) returns (removed: nat)
      requires Valid()
      modifies this`maxoff, this`deleted, slots
      ensures Valid() && View() == Vacuumed(old(View()), dead)
      ensures removed == |TuplesOf(old(View()))| - |TuplesOf(View())|
    {
      removed := 0;
      if isNew || deleted {
        return;
      }
      FewerSurvive(slots[..maxoff], dead);
      hide Survivors, Capacity;
      removed := Compact(dead);
      if removed != 0 {
        if maxoff == 0 {
          deleted := true;
        }
      }
    }

    /** The loop of blgetbitmap over one page. */
    method Scan(sign: Words) returns (tids: seq<Tid>)
      requires Valid() && |sign| == o.bloomLength
      requires forall i :: 0 <= i < maxoff ==> |slots[i].sign| == |sign|
      ensures tids == if isNew || deleted then [] else Matching(View().tuples, sign)
    {
      tids := [];
      if !isNew && !deleted {
        ghost var tuples := slots[..maxoff];
        for offset := 0 to maxoff
          invariant tids == Matching(tuples[..offset], sign)
        {
          assert tuples[..offset + 1][..offset] == tuples[..offset];
          var res := MatchesSignature(slots[offset].sign, sign);
          if res {
            tids := tids + [slots[offset].heapPtr];
          }
        }
        assert tuples[..maxoff] == tuples;
      }
    }
  }

  // ---- Building ----

  /** All tuples on a run of pages, in order. */
  function Stored(pages: seq<PageView>): seq<Tuple> {
    if pages == [] then [] else Stored(pages[..|pages| - 1]) + TuplesOf(pages[|pages| - 1])
  }

  function TuplesOf(p: PageView): seq<Tuple> { if p.New? then [] else p.tuples }

  /** A page the index can hold: at most as many tuples as fit, and none if it is deleted. */
  predicate GoodPage(o: Options, p: PageView) {
    p.Data? ==> |p.tuples| <= Capacity(o) && (p.deleted ==> p.tuples == [])
  }

  /** A page with tuples on it. */
  predicate FullPage(o: Options, p: PageView) {
    GoodPage(o, p) && p.Data? && !p.deleted && p.tuples != []
  }

  class BuildState {
    const data: Page
    var count: nat
    var indtuples: nat
    var flushed: seq<PageView>

    constructor (o: Options)
      requires ValidOptions(o)
      ensures Valid() && Built() == [] && data.o == o && fresh(data) && fresh(data.slots)
    {
      data := new Page(o);
      count, indtuples, flushed := 0, 0, [];
      new;
      data.Init();
    }

    /** The cached page is live, the flushed ones are neither empty nor deleted. */
    ghost predicate Valid()
      reads this, data, data.slots
    {
      && data.Valid() && !data.isNew && !data.deleted
      && count == data.maxoff && indtuples == |Built()|
      && forall i :: 0 <= i < |flushed| ==> FullPage(data.o, flushed[i])
    }

    /** Everything indexed so far. */
    ghost function Built(): seq<Tuple>
      requires data.Valid()
      reads this, data, data.slots
    {
      Stored(flushed) + data.slots[..data.maxoff]
    }

    /** flushCachedPage and initCachedPage. */
    method FlushCachedPage()
      requires Valid() && count > 0
      modifies this`flushed, this`count, data
      ensures Valid() && count == 0 && Built() == old(Built()) && flushed == old(flushed) + [old(data.View())]
    {
      hide Capacity, Stored;
      PageAdded(flushed, data.View());
      flushed := flushed + [data.View()];
      data.Init();
      count := 0;
      assert data.slots[..0] == [];
    }

    /** Add to the cached page and count, if there is room. */
    method TryAdd(itup: Tuple) returns (ok: bool)
      requires Valid()
      modifies this`count, this`indtuples, data, data.slots
      ensures ok == Fits(data.o, old(count)) && Valid()
      ensures Built() == if ok then old(Built()) + [itup] else old(Built())
      ensures !ok ==> count == old(count)
    {
      ghost var before := data.slots[..data.maxoff];
      hide Fits, Capacity, Stored, FullPage;
      ok := data.AddItem(itup);
      if ok {
        count := count + 1;
        indtuples := indtuples + 1;
        Longer(Stored(flushed), before, itup);
        assert data.slots[..data.maxoff] == before + [itup];
      }
    }

    /** bloomBuildCallback; false would be its error, which an empty page never gives. */
    method Callback(itup: Tuple) returns (ok: bool)
      requires Valid()
      modifies this, data, data.slots
      ensures ok && Valid() && Built() == old(Built()) + [itup]
    {
      EmptyPageFits(data.o);
      hide Fits, Capacity, Stored, FullPage, Built;
      ok := TryAdd(itup);
      if !ok {
        FlushCachedPage();
        ok := TryAdd(itup);
      }
    }
  }

  lemma Longer(a: seq<Tuple>, b: seq<Tuple>, t: Tuple)
    ensures a + (b + [t]) == a + b + [t]
  {
  }

  lemma PageAdded(pages: seq<PageView>, p: PageView)
    ensures Stored(pages + [p]) == Stored(pages) + TuplesOf(p)
  {
    assert (pages + [p])[..|pages|] == pages;
  }

  /** blbuild: the metapage's data pages hold exactly the tuples of the rows, in order. */
  method Build(o: Options, rows: seq<Tuple>) returns (pages: seq<PageView>)
    requires ValidOptions(o)
    ensures Stored(pages) == rows
    ensures forall i :: 0 <= i < |pages| ==> FullPage(o, pages[i])
  {
    var buildstate := new BuildState(o);
    hide Stored, FullPage, ValidOptions, Capacity;
    for i := 0 to |rows|
      invariant buildstate.Valid() && buildstate.data.o == o && buildstate.Built() == rows[..i]
      invariant fresh(buildstate) && fresh(buildstate.data) && fresh(buildstate.data.slots)
    {
      var _ := buildstate.Callback(rows[i]);
      assert rows[..i + 1] == rows[..i] + [rows[i]];
    }
    assert rows[..|rows|] == rows;
    if buildstate.count > 0 {
      buildstate.FlushCachedPage();
    }
    assert buildstate.data.slots[..0] == [];
    pages := buildstate.flushed;
  }
}
