/** Every step of the bloom index keeps the invariant: tuples stay where they are until they are removed, the window
    names initialised pages, a page taken for reuse holds nothing, and the contents are what was inserted less what
    was removed. */
module BloomInvariant {
  import opened Wrappers
  import opened BloomSignature
  import opened BloomPages
  import opened BloomProtocol

  // ---- Contents ----

  lemma UpdateFront(pages: seq<PageView>, b: nat, p: PageView)
    requires b < |pages| - 1
    ensures var n := |pages| - 1;
            pages[b := p][..n] == pages[..n][b := p] && pages[b := p][n] == pages[n] && pages[..n][b] == pages[b]
  {
  }

  lemma UpdateLast(pages: seq<PageView>, p: PageView)
    requires pages != []
    ensures var n := |pages| - 1; pages[n := p][..n] == pages[..n] && pages[n := p][n] == p
  {
  }

  /** Replacing one page changes the contents by its tuples. */
  lemma {:induction false} ContentsUpdate(pages: seq<PageView>, b: nat, p: PageView)
    requires b < |pages|
    ensures Contents(pages[b := p]) + multiset(TuplesOf(pages[b])) == Contents(pages) + multiset(TuplesOf(p))
  {
    hide TuplesOf, Contents;
    var n := |pages| - 1;
    var x, y := multiset(TuplesOf(pages[b])), multiset(TuplesOf(p));
    ContentsLast(pages);
    ContentsLast(pages[b := p]);
    if b < n {
      UpdateFront(pages, b, p);
      ContentsUpdate(pages[..n], b, p);
      Rearrange(Contents(pages[..n][b := p]), x, Contents(pages[..n]), y, multiset(TuplesOf(pages[n])));
    } else {
      UpdateLast(pages, p);
      Exchange(Contents(pages[..n]), x, y);
    }
  }

  lemma ContentsLast(pages: seq<PageView>)
    requires pages != []
    ensures Contents(pages) == Contents(pages[..|pages| - 1]) + multiset(TuplesOf(pages[|pages| - 1]))
  {
  }

  lemma Rearrange(c': multiset<Tuple>, x: multiset<Tuple>, c: multiset<Tuple>, y: multiset<Tuple>, l: multiset<Tuple>)
    requires c' + x == c + y
    ensures c' + l + x == c + l + y
  {
    assert c' + l + x == c' + x + l;
    assert c + l + y == c + y + l;
  }

  lemma Exchange(c: multiset<Tuple>, x: multiset<Tuple>, y: multiset<Tuple>)
    ensures c + y + x == c + x + y
  {
  }

  lemma ContentsExtended(pages: seq<PageView>)
    ensures Contents(pages + [New]) == Contents(pages)
  {
    assert (pages + [New])[..|pages|] == pages;
  }

  // ---- What happens to one page ----

  /** Deletion removes all named tuples and keeps the others. */
  lemma VacuumedTuples(p: PageView, dead: set<Tid>, o: Options)
    requires GoodPage(o, p)
    ensures var p' := Vacuumed(p, t => t in dead);
            && GoodPage(o, p') && (p'.New? <==> p.New?)
            && multiset(TuplesOf(p')) <= multiset(TuplesOf(p))
            && forall t :: t in TuplesOf(p) ==>
                 if t.heapPtr in dead then t !in TuplesOf(p') else t in TuplesOf(p')
  {
    hide Capacity;
    if !Reusable(p) {
      FewerSurvive(p.tuples, t => t in dead);
      SurvivorsWithin(p.tuples, t => t in dead);
    }
  }

  lemma {:induction false} SurvivorsWithin(tuples: seq<Tuple>, dead: Tid -> bool)
    ensures multiset(Survivors(tuples, dead)) <= multiset(tuples)
  {
    if tuples != [] {
      var n := |tuples| - 1;
      SurvivorsWithin(tuples[..n], dead);
      assert tuples == tuples[..n] + [tuples[n]];
    }
  }

  /** A page that accepts a tuple keeps what it has; new and deleted ones have nothing. */
  lemma AddToKeeps(o: Options, p: PageView, t: Tuple)
    requires GoodPage(o, p) && AddTo(o, p, t).Some?
    ensures var p' := AddTo(o, p, t).value;
            GoodPage(o, p') && !p'.New? && !p'.deleted && TuplesOf(p') == TuplesOf(p) + [t]
  {
    FitsIff(o, |TuplesOf(p)|);
    hide Fits, Capacity;
  }

  // ---- How pages evolve ----

  /** Pages are never given back or forgotten; a tuple leaves its block only by being removed, which is counted. */
  ghost predicate Evolves(s: State, s': State) {
    && s'.o == s.o && |s.pages| <= |s'.pages|
    && (forall b :: 0 <= b < |s.pages| && !s.pages[b].New? ==> !s'.pages[b].New?)
    && (forall t :: s'.removed[t] >= s.removed[t])
    && (forall b, t :: 0 <= b < |s.pages| && t in TuplesOf(s.pages[b]) && s'.removed[t] == s.removed[t] ==>
          t in TuplesOf(s'.pages[b]))
  }

  lemma SameStoreEvolves(s: State, s': State)
    requires s'.o == s.o && s'.pages == s.pages && s'.removed == s.removed
    ensures Evolves(s, s')
  {
  }

  /** Writing a page that keeps its tuples. */
  lemma WriteEvolves(s: State, s': State, b: Blk, p: PageView)
    requires b < |s.pages| && s'.pages == s.pages[b := p] && s'.o == s.o && s'.removed == s.removed
    requires !p.New? && forall t :: t in TuplesOf(s.pages[b]) ==> t in TuplesOf(p)
    ensures Evolves(s, s')
  {
  }

  lemma DeleteEvolves(s: State, s': State, b: Blk, dead: set<Tid>)
    requires PagesOk(s) && b < |s.pages| && s'.o == s.o
    requires var p' := Vacuumed(s.pages[b], t => t in dead);
             && s'.pages == s.pages[b := p']
             && s'.removed == s.removed + (multiset(TuplesOf(s.pages[b])) - multiset(TuplesOf(p')))
    ensures Evolves(s, s')
    ensures forall t :: t in TuplesOf(s.pages[b]) && t.heapPtr in dead ==> s'.removed[t] > s.removed[t]
  {
    VacuumedTuples(s.pages[b], dead, s.o);
    hide Vacuumed, GoodPage;
  }

  /** No step takes a tuple from its block except by removing it: no page with live tuples is ever reinitialised. */
  lemma StepEvolves(s: State, step: Step)
    requires Inv(s) && Enabled(s, step)
    ensures Evolves(s, Apply(s, step))
  {
    var s' := Apply(s, step);
    hide WindowOk, OwnerOk, Conserved, FsmOk, DeleteOk, ScanOk, Places, GoodPage, Vacuumed, Fits, Evolves, Listed,
         Matching;
    match step
    case TryHint(pid) =>
      var b := s.procs[pid].phase.hint;
      if AddTo(s.o, s.pages[b], s.procs[pid].tuple).Some? {
        AddToKeeps(s.o, s.pages[b], s.procs[pid].tuple);
        WriteEvolves(s, s', b, s'.pages[b]);
      } else {
        SameStoreEvolves(s, s');
      }
    case TryNext(pid) =>
      var n := s.procs[pid].phase.n;
      if n < s.nEnd && AddTo(s.o, s.pages[s.notFullPage[n]], s.procs[pid].tuple).Some? {
        var b := s.notFullPage[n];
        AddToKeeps(s.o, s.pages[b], s.procs[pid].tuple);
        WriteEvolves(s, s', b, s'.pages[b]);
      } else {
        SameStoreEvolves(s, s');
      }
    case UseFree(pid, locked) =>
      var b := s.procs[pid].phase.free;
      if locked && Reusable(s.pages[b]) {
        ReusableIsEmpty(s, b);
        WriteEvolves(s, s', b, s'.pages[b]);
      } else {
        SameStoreEvolves(s, s');
      }
    case FillExtended(pid) =>
      assert ProcOk(s, s.procs[pid]);
      var b := s.procs[pid].phase.blk;
      WriteEvolves(s, s', b, s'.pages[b]);
    case Extend(pid) =>
      ExtendEvolves(s, s');
    case DeletePage(pid) =>
      DeleteEvolves(s, s', s.procs[pid].next, s.procs[pid].dead);
    case _ =>
      SameStoreEvolves(s, s');
  }

  lemma ReusableIsEmpty(s: State, b: Blk)
    requires PagesOk(s) && b < |s.pages| && Reusable(s.pages[b])
    ensures TuplesOf(s.pages[b]) == []
  {
  }

  lemma ExtendEvolves(s: State, s': State)
    requires s'.o == s.o && s'.pages == s.pages + [New] && s'.removed == s.removed
    ensures Evolves(s, s')
  {
  }

  // ---- The parts of the invariant, step by step ----

  lemma PageWritten(s: State, s': State, b: Blk, p: PageView)
    requires PagesOk(s) && 1 <= b < |s.pages| && GoodPage(s.o, p)
    requires s'.o == s.o && s'.pages == s.pages[b := p]
    ensures PagesOk(s')
  {
    hide GoodPage;
  }

  lemma PagesSame(s: State, s': State)
    requires PagesOk(s) && s'.o == s.o && (s'.pages == s.pages || s'.pages == s.pages + [New])
    ensures PagesOk(s')
  {
    GoodNew(s.o);
    hide GoodPage;
  }

  /** A hint and an entry of the window are initialised data pages. */
  lemma WindowKnown(s: State, pid: Pid)
    requires Inv(s) && Inserting(s, pid)
    ensures s.procs[pid].phase.Hinted? ==> Known(s, s.procs[pid].phase.hint)
    ensures s.procs[pid].phase.Looping? && s.procs[pid].phase.n < s.nEnd ==>
            Known(s, s.notFullPage[s.procs[pid].phase.n])
    ensures s.procs[pid].phase.Extended? ==>
              1 <= s.procs[pid].phase.blk < |s.pages| && s.pages[s.procs[pid].phase.blk].New?
  {
    assert ProcOk(s, s.procs[pid]);
  }

  lemma ReusableIsData(s: State, b: Blk)
    requires PagesOk(s) && b < |s.pages| && Reusable(s.pages[b])
    ensures b >= 1
  {
  }

  lemma PagesKept(s: State, step: Step)
    requires Inv(s) && Enabled(s, step)
    ensures PagesOk(Apply(s, step))
  {
    var s' := Apply(s, step);
    assert PagesOk(s) && ValidOptions(s.o) && WindowOk(s);
    forall b | 0 <= b < |s.pages| ensures GoodPage(s.o, s.pages[b]) {}
    hide PagesOk, OwnerOk, Conserved, FsmOk, ProcsOk, Places, GoodPage, Vacuumed, Fits, Listed, Matching, AddTo,
         Distinct;
    match step
    case TryHint(pid) =>
      WindowKnown(s, pid);
      var b := s.procs[pid].phase.hint;
      if AddTo(s.o, s.pages[b], s.procs[pid].tuple).Some? {
        AddToKeeps(s.o, s.pages[b], s.procs[pid].tuple);
        PageWritten(s, s', b, s'.pages[b]);
      } else {
        PagesSame(s, s');
      }
    case TryNext(pid) =>
      WindowKnown(s, pid);
      var n := s.procs[pid].phase.n;
      if n < s.nEnd && AddTo(s.o, s.pages[s.notFullPage[n]], s.procs[pid].tuple).Some? {
        AddToKeeps(s.o, s.pages[s.notFullPage[n]], s.procs[pid].tuple);
        PageWritten(s, s', s.notFullPage[n], s'.pages[s.notFullPage[n]]);
      } else {
        PagesSame(s, s');
      }
    case UseFree(pid, locked) =>
      var b := s.procs[pid].phase.free;
      if locked && Reusable(s.pages[b]) {
        ReusableIsData(s, b);
        GoodSingle(s.o, s.procs[pid].tuple);
        PageWritten(s, s', b, s'.pages[b]);
      } else {
        PagesSame(s, s');
      }
    case FillExtended(pid) =>
      WindowKnown(s, pid);
      GoodSingle(s.o, s.procs[pid].tuple);
      PageWritten(s, s', s.procs[pid].phase.blk, s'.pages[s.procs[pid].phase.blk]);
    case DeletePage(pid) =>
      NextIsData(s, pid);
      VacuumedTuples(s.pages[s.procs[pid].next], s.procs[pid].dead, s.o);
      PageWritten(s, s', s.procs[pid].next, s'.pages[s.procs[pid].next]);
    case _ =>
      PagesSame(s, s');
  }

  lemma GoodNew(o: Options)
    ensures GoodPage(o, New)
  {
  }

  /** An empty page always accepts a tuple. */
  lemma GoodSingle(o: Options, t: Tuple)
    requires ValidOptions(o)
    ensures Fits(o, 0) && GoodPage(o, Data(false, [t])) && AddTo(o, New, t) == Some(Data(false, [t]))
  {
    EmptyPageFits(o);
    FitsIff(o, 0);
    hide Fits, Capacity;
    assert [] + [t] == [t];
  }

  lemma NextIsData(s: State, pid: Pid)
    requires ProcsOk(s) && pid in s.procs && s.procs[pid].Delete?
    ensures s.procs[pid].next >= 1
  {
    assert ProcOk(s, s.procs[pid]);
  }

  lemma KnownStays(s: State, s': State, b: Blk)
    requires Evolves(s, s') && Known(s, b)
    ensures Known(s', b)
  {
  }

  /** The window may lose entries at its start. */
  lemma WindowMoves(s: State, s': State)
    requires WindowOk(s) && Evolves(s, s') && s.nStart <= s'.nStart <= s.nEnd == s'.nEnd
             && s'.notFullPage == s.notFullPage
    ensures WindowOk(s')
  {
    forall i | s'.nStart <= i < s'.nEnd ensures Known(s', s'.notFullPage[i]) {
      KnownStays(s, s', s.notFullPage[i]);
    }
    assert Window(s') == Window(s)[s'.nStart - s.nStart..];
    hide Evolves, Known;
  }

  lemma SingleWindow(s: State, b: Blk)
    requires s.nStart == 0 && s.nEnd == 1 && |s.notFullPage| == BloomMetaBlockN && s.notFullPage[0] == b && Known(s, b)
    ensures WindowOk(s)
  {
    assert Window(s) == [b];
  }

  lemma ListedWindow(s: State, s': State, list: seq<Blk>)
    requires s'.pages == s.pages && |list| <= BloomMetaBlockN && Distinct(list)
    requires forall i :: 0 <= i < |list| ==> Known(s, list[i])
    requires s'.nStart == 0 && s'.nEnd == |list| && |s'.notFullPage| == BloomMetaBlockN
             && s'.notFullPage[..|list|] == list
    ensures WindowOk(s')
  {
    assert Window(s') == list;
    forall i | s'.nStart <= i < s'.nEnd ensures Known(s', s'.notFullPage[i]) {
      assert s'.notFullPage[i] == s'.notFullPage[..|list|][i] == list[i];
    }
  }

  lemma WindowKept(s: State, step: Step)
    requires Inv(s) && Enabled(s, step)
    ensures WindowOk(Apply(s, step))
  {
    var s' := Apply(s, step);
    StepEvolves(s, step);
    assert s.nStart <= s.nEnd <= |s.notFullPage| == BloomMetaBlockN;
    hide WindowOk, OwnerOk, Conserved, FsmOk, ScanOk, PagesOk, Places, Vacuumed, Fits, Listed, Matching, AddTo,
         Evolves, Distinct, Known, Window, TuplesOf;
    match step
    case TryNext(pid) =>
      assert ProcOk(s, s.procs[pid]);
      WindowMoves(s, s');
    case UseFree(pid, locked) =>
      var b := s.procs[pid].phase.free;
      if locked && Reusable(s.pages[b]) {
        ReusableIsData(s, b);
        SingleWindow(s', b);
      } else {
        WindowMoves(s, s');
      }
    case FillExtended(pid) =>
      WindowKnown(s, pid);
      SingleWindow(s', s.procs[pid].phase.blk);
    case EndDelete(pid) =>
      assert ProcOk(s, s.procs[pid]);
      ListedWindow(s, s', s.procs[pid].list);
    case _ =>
      WindowUntouched(s, step);
      WindowMoves(s, s');
  }

  lemma WindowUntouched(s: State, step: Step)
    requires Enabled(s, step) && !step.TryNext? && !step.UseFree? && !step.FillExtended? && !step.EndDelete?
    ensures var s' := Apply(s, step); s'.nStart == s.nStart && s'.nEnd == s.nEnd && s'.notFullPage == s.notFullPage
  {
    hide Places, Vacuumed, Fits, Listed, Matching, AddTo, TuplesOf;
  }

  lemma OwnerAfterInsertStep(s: State, step: Step)
    requires OwnerOk(s) && Enabled(s, step) && Actor(step).Some? && Inserting(s, step.pid)
    ensures OwnerOk(Apply(s, step))
  {
    hide Places, Vacuumed, Fits, Listed, Matching, AddTo, TuplesOf;
  }

  lemma OwnerAfterOtherStep(s: State, step: Step)
    requires OwnerOk(s) && Enabled(s, step) && !(Actor(step).Some? && Inserting(s, step.pid))
    ensures OwnerOk(Apply(s, step))
  {
    hide Places, Vacuumed, Fits, Listed, Matching, AddTo, TuplesOf;
  }

  lemma OwnerKept(s: State, step: Step)
    requires Inv(s) && Enabled(s, step)
    ensures OwnerOk(Apply(s, step))
  {
    hide Enabled, Apply, OwnerOk;
    if Actor(step).Some? && Inserting(s, step.pid) {
      OwnerAfterInsertStep(s, step);
    } else {
      OwnerAfterOtherStep(s, step);
    }
  }

  lemma FsmKept(s: State, step: Step)
    requires Inv(s) && Enabled(s, step)
    ensures FsmOk(Apply(s, step))
  {
    StepEvolves(s, step);
    hide PagesOk, WindowOk, Conserved, OwnerOk, ProcsOk, Places, Vacuumed, Fits, Listed, Matching, AddTo, Evolves;
    assert |Apply(s, step).pages| >= |s.pages| by { Grows(s, Apply(s, step)); }
  }

  lemma Grows(s: State, s': State)
    requires Evolves(s, s')
    ensures |s'.pages| >= |s.pages|
  {
  }

  lemma StoredConserves(s: State, s': State, b: Blk, p: PageView, t: Tuple)
    requires Conserved(s) && b < |s.pages| && s'.pages == s.pages[b := p]
    requires TuplesOf(p) == TuplesOf(s.pages[b]) + [t] && s'.removed == s.removed
             && s'.inserted == s.inserted + multiset{t}
    ensures Conserved(s')
  {
    ContentsUpdate(s.pages, b, p);
    hide TuplesOf, Contents;
    var x := multiset(TuplesOf(s.pages[b]));
    assert multiset(TuplesOf(p)) == x + multiset{t};
    OneMore(Contents(s.pages), Contents(s'.pages), x, t, s.removed);
  }

  lemma OneMore(c: multiset<Tuple>, c': multiset<Tuple>, x: multiset<Tuple>, t: Tuple, r: multiset<Tuple>)
    requires c' + x == c + (x + multiset{t})
    ensures c' + r == c + r + multiset{t}
  {
    forall u ensures c'[u] == c[u] + multiset{t}[u] {
      assert (c' + x)[u] == (c + (x + multiset{t}))[u];
    }
  }

  lemma DeletedConserves(s: State, s': State, b: Blk, p': PageView)
    requires Conserved(s) && b < |s.pages| && s'.pages == s.pages[b := p'] && s'.inserted == s.inserted
    requires multiset(TuplesOf(p')) <= multiset(TuplesOf(s.pages[b]))
    requires s'.removed == s.removed + (multiset(TuplesOf(s.pages[b])) - multiset(TuplesOf(p')))
    ensures Conserved(s')
  {
    ContentsUpdate(s.pages, b, p');
    hide TuplesOf, Contents;
    SomeLess(Contents(s.pages), Contents(s'.pages), multiset(TuplesOf(s.pages[b])), multiset(TuplesOf(p')), s.removed);
  }

  lemma SomeLess(c: multiset<Tuple>, c': multiset<Tuple>, x: multiset<Tuple>, y: multiset<Tuple>, r: multiset<Tuple>)
    requires c' + x == c + y && y <= x
    ensures c' + (r + (x - y)) == c + r
  {
    forall u ensures c'[u] + (x[u] - y[u]) == c[u] {
      assert (c' + x)[u] == (c + y)[u];
    }
  }

  lemma ConservedKept(s: State, step: Step)
    requires Inv(s) && Enabled(s, step)
    ensures Conserved(Apply(s, step))
  {
    var s' := Apply(s, step);
    forall b | 0 <= b < |s.pages| ensures GoodPage(s.o, s.pages[b]) {}
    assert PagesOk(s) && WindowOk(s);
    hide PagesOk, OwnerOk, Conserved, FsmOk, ProcsOk, Places, GoodPage, Vacuumed, Fits, Listed, Matching, AddTo,
         Distinct, TuplesOf;
    match step
    case TryHint(pid) =>
      var b := s.procs[pid].phase.hint;
      if AddTo(s.o, s.pages[b], s.procs[pid].tuple).Some? {
        AddToKeeps(s.o, s.pages[b], s.procs[pid].tuple);
        StoredConserves(s, s', b, s'.pages[b], s.procs[pid].tuple);
      } else {
        SameContents(s, s');
      }
    case TryNext(pid) =>
      var n := s.procs[pid].phase.n;
      if n < s.nEnd && AddTo(s.o, s.pages[s.notFullPage[n]], s.procs[pid].tuple).Some? {
        AddToKeeps(s.o, s.pages[s.notFullPage[n]], s.procs[pid].tuple);
        StoredConserves(s, s', s.notFullPage[n], s'.pages[s.notFullPage[n]], s.procs[pid].tuple);
      } else {
        SameContents(s, s');
      }
    case UseFree(pid, locked) =>
      var b := s.procs[pid].phase.free;
      if locked && Reusable(s.pages[b]) {
        ReusableIsEmpty(s, b);
        SingleTuple(s.procs[pid].tuple);
        StoredConserves(s, s', b, s'.pages[b], s.procs[pid].tuple);
      } else {
        SameContents(s, s');
      }
    case Extend(pid) =>
      ContentsExtended(s.pages);
      ConservedBy(s, s');
    case FillExtended(pid) =>
      WindowKnown(s, pid);
      var b := s.procs[pid].phase.blk;
      ReusableIsEmpty(s, b);
      SingleTuple(s.procs[pid].tuple);
      StoredConserves(s, s', b, s'.pages[b], s.procs[pid].tuple);
    case DeletePage(pid) =>
      VacuumedTuples(s.pages[s.procs[pid].next], s.procs[pid].dead, s.o);
      DeletedConserves(s, s', s.procs[pid].next, s'.pages[s.procs[pid].next]);
    case _ =>
      SameContents(s, s');
  }

  lemma SingleTuple(t: Tuple)
    ensures TuplesOf(Data(false, [t])) == [] + [t]
  {
  }

  lemma SameContents(s: State, s': State)
    requires Conserved(s) && s'.pages == s.pages && s'.removed == s.removed && s'.inserted == s.inserted
    ensures Conserved(s')
  {
  }

  lemma ConservedBy(s: State, s': State)
    requires Conserved(s) && Contents(s'.pages) == Contents(s.pages) && s'.removed == s.removed
             && s'.inserted == s.inserted
    ensures Conserved(s')
  {
  }

  // ---- The running operations ----

  lemma InsertKept(s: State, s': State, proc: Proc)
    requires proc.Insert? && InsertOk(s, proc) && Evolves(s, s')
    requires Holds(proc) ==> s'.nStart == s.nStart && s'.nEnd == s.nEnd
    requires proc.phase.Extended? ==> s'.pages[proc.phase.blk].New?
    ensures InsertOk(s', proc)
  {
  }

  lemma OwedKept(s: State, s': State, owed: set<Place>, before: multiset<Tuple>, next: Blk)
    requires Evolves(s, s') && Owed(s, owed, before, next) && forall t :: s.removed[t] >= before[t]
    ensures Owed(s', owed, before, next) && forall t :: s'.removed[t] >= before[t]
  {
    hide TuplesOf;
    forall x | x in owed && x.blk >= next && s'.removed[x.tuple] == before[x.tuple]
      ensures x.blk < |s'.pages| && x.tuple in TuplesOf(s'.pages[x.blk])
    {
      assert s.removed[x.tuple] <= s'.removed[x.tuple] && s.removed[x.tuple] >= before[x.tuple];
    }
  }

  lemma FoundKept(s: State, s': State, proc: Proc)
    requires proc.Scan? && Evolves(s, s') && Found(s, proc) && forall t :: s.removed[t] >= proc.before[t]
    ensures Found(s', proc)
  {
    hide Covers;
    forall x | x in proc.owed && x.blk < proc.next && s'.removed[x.tuple] == proc.before[x.tuple]
      ensures Covers(x.tuple.sign, proc.sign) ==> x.tuple.heapPtr in proc.bitmap
    {
      assert s.removed[x.tuple] <= s'.removed[x.tuple] && s.removed[x.tuple] >= proc.before[x.tuple];
    }
  }

  lemma RemovedKept(s: State, s': State, proc: Proc)
    requires proc.Delete? && Evolves(s, s') && Removed(s, proc)
    ensures Removed(s', proc)
  {
    forall x | x in proc.owed && x.blk < proc.next && x.tuple.heapPtr in proc.dead
      ensures s'.removed[x.tuple] > proc.before[x.tuple]
    {
      assert s.removed[x.tuple] <= s'.removed[x.tuple];
    }
  }

  lemma DeleteKept(s: State, s': State, proc: Proc)
    requires proc.Delete? && DeleteOk(s, proc) && Evolves(s, s')
    ensures DeleteOk(s', proc)
  {
    OwedKept(s, s', proc.owed, proc.before, proc.next);
    RemovedKept(s, s', proc);
    Grows(s, s');
    forall i | 0 <= i < |proc.list| ensures Known(s', proc.list[i]) {
      KnownStays(s, s', proc.list[i]);
    }
    hide Evolves, Owed, Removed, Known;
  }

  lemma ScanKept(s: State, s': State, proc: Proc)
    requires proc.Scan? && ScanOk(s, proc) && Evolves(s, s')
    ensures ScanOk(s', proc)
  {
    OwedKept(s, s', proc.owed, proc.before, proc.next);
    FoundKept(s, s', proc);
    Grows(s, s');
    SameOptions(s, s');
    hide Evolves, Owed, Found;
  }

  lemma SameOptions(s: State, s': State)
    requires Evolves(s, s')
    ensures s'.o == s.o
  {
  }

  function Actor(step: Step): Option<Pid> {
    match step
    case FsmChanges(_) => None
    case _ => Some(step.pid)
  }

  /** While a process holds the metapage, the others leave its window alone, and the block it extended the file by. */
  lemma OthersRespectLock(s: State, step: Step, q: Pid)
    requires Inv(s) && Enabled(s, step) && Actor(step) != Some(q) && q in s.procs && Holds(s.procs[q])
    ensures var s' := Apply(s, step);
            && s'.nStart == s.nStart && s'.nEnd == s.nEnd
            && (s.procs[q].phase.Extended? ==>
                  s.procs[q].phase.blk < |s'.pages| && s'.pages[s.procs[q].phase.blk].New?)
  {
    WindowKnown(s, q);
    hide PagesOk, WindowOk, Conserved, FsmOk, Places, Fits, Listed, Matching, AddTo, ProcsOk, Vacuumed;
    assert s.owner == Some(q);
    match step
    case TryHint(pid) => WindowKnown(s, pid);
    case DeletePage(pid) => VacuumedNew(s.pages[s.procs[pid].next], s.procs[pid].dead);
    case _ =>
  }

  lemma VacuumedNew(p: PageView, dead: set<Tid>)
    ensures p.New? ==> Vacuumed(p, t => t in dead).New?
  {
  }

  /** A step changes no process but its own. */
  lemma OtherUntouched(s: State, step: Step, q: Pid)
    requires Enabled(s, step) && Actor(step) != Some(q) && q in s.procs
    ensures q in Apply(s, step).procs && Apply(s, step).procs[q] == s.procs[q]
  {
    hide Places, Fits, Listed, Matching, AddTo, Vacuumed, TuplesOf;
  }

  lemma OtherKept(s: State, step: Step, q: Pid)
    requires Inv(s) && Enabled(s, step) && Actor(step) != Some(q) && q in s.procs
    ensures var s' := Apply(s, step); q in s'.procs && s'.procs[q] == s.procs[q] && ProcOk(s', s.procs[q])
  {
    var s' := Apply(s, step);
    var proc := s.procs[q];
    StepEvolves(s, step);
    Grows(s, s');
    assert ProcOk(s, proc);
    OtherUntouched(s, step, q);
    if Holds(proc) {
      OthersRespectLock(s, step, q);
    }
    hide Inv, Apply, Enabled, Evolves, InsertOk, DeleteOk, ScanOk;
    match proc
    case Insert(_, _) => InsertKept(s, s', proc);
    case Delete(_, _, _, _, _, _) => DeleteKept(s, s', proc);
    case Cleanup(_, _) =>
    case Scan(_, _, _, _, _, _) => ScanKept(s, s', proc);
  }

  /** What is on the pages when an operation starts is what it owes. */
  lemma OwedAtStart(s: State)
    ensures Owed(s, Places(s.pages), s.removed, BLOOM_HEAD_BLKNO)
    ensures forall x :: x in Places(s.pages) ==> 1 <= x.blk < |s.pages|
  {
    hide TuplesOf;
  }

  /** Deleting on a page settles what was owed there. */
  lemma DeleteAdvances(s: State, s': State, proc: Proc)
    requires PagesOk(s) && proc.Delete? && DeleteOk(s, proc) && proc.next < proc.npages && s'.o == s.o
    requires var p' := Vacuumed(s.pages[proc.next], t => t in proc.dead);
             && s'.pages == s.pages[proc.next := p']
             && s'.removed == s.removed + (multiset(TuplesOf(s.pages[proc.next])) - multiset(TuplesOf(p')))
    ensures DeleteOk(s', proc.(next := proc.next + 1, list := Listed(s, proc)))
  {
    var proc' := proc.(next := proc.next + 1, list := Listed(s, proc));
    VacuumedTuples(s.pages[proc.next], proc.dead, s.o);
    DeleteEvolves(s, s', proc.next, proc.dead);
    DeleteKept(s, s', proc);
    ListedFits(s, s', proc);
    assert Owed(s', proc.owed, proc.before, proc.next + 1) by {
      assert Owed(s', proc.owed, proc.before, proc.next);
      hide TuplesOf;
    }
    forall x | x in proc.owed && x.blk < proc.next + 1 && x.tuple.heapPtr in proc.dead
      ensures s'.removed[x.tuple] > proc.before[x.tuple]
    {
      if x.blk == proc.next && s.removed[x.tuple] == proc.before[x.tuple] {
        assert x.tuple in TuplesOf(s.pages[x.blk]);
      }
    }
    hide Owed, Vacuumed, Listed, Known, TuplesOf, Distinct;
    assert Removed(s', proc');
  }

  lemma ListedFits(s: State, s': State, proc: Proc)
    requires proc.Delete? && DeleteOk(s, proc) && proc.next < |s.pages| && Evolves(s, s')
    ensures var list := Listed(s, proc);
            && |list| <= BloomMetaBlockN && Distinct(list)
            && forall i :: 0 <= i < |list| ==> list[i] < proc.next + 1 && Known(s', list[i])
  {
    var list := Listed(s, proc);
    forall i | 0 <= i < |list| ensures list[i] < proc.next + 1 && Known(s', list[i]) {
      assert i < |proc.list| ==> Known(s, proc.list[i]) && list[i] == proc.list[i];
      KnownStays(s, s', list[i]);
    }
    hide Evolves, Known, Vacuumed, Owed, Removed, Fits;
  }

  /** Scanning a page finds what was owed there. */
  lemma ScanAdvances(s: State, s': State, proc: Proc)
    requires PagesOk(s) && proc.Scan? && ScanOk(s, proc) && proc.next < proc.npages
    requires s'.o == s.o && s'.pages == s.pages && s'.removed == s.removed
    ensures var p := s.pages[proc.next];
            var found := if Reusable(p) then {} else set tid | tid in Matching(p.tuples, proc.sign);
            ScanOk(s', proc.(next := proc.next + 1, bitmap := proc.bitmap + found))
  {
    var p := s.pages[proc.next];
    var found := if Reusable(p) then {} else set tid | tid in Matching(p.tuples, proc.sign);
    var proc' := proc.(next := proc.next + 1, bitmap := proc.bitmap + found);
    SameStoreEvolves(s, s');
    ScanKept(s, s', proc);
    assert Owed(s', proc.owed, proc.before, proc.next + 1) by {
      assert Owed(s', proc.owed, proc.before, proc.next);
      hide TuplesOf;
    }
    forall x | x in proc'.owed && x.blk < proc'.next && s'.removed[x.tuple] == proc'.before[x.tuple]
      ensures Covers(x.tuple.sign, proc'.sign) ==> x.tuple.heapPtr in proc'.bitmap
    {
      if x.blk == proc.next && Covers(x.tuple.sign, proc.sign) {
        assert x.tuple in TuplesOf(p);
        if Reusable(p) {
          ReusableIsEmpty(s, proc.next);
        }
        MatchingHas(p.tuples, proc.sign, x.tuple);
      }
    }
    hide Owed, TuplesOf, Matching, Covers;
    assert Found(s', proc');
  }

  lemma InsertActs(s: State, step: Step)
    requires Inv(s) && Enabled(s, step) && Actor(step).Some? && Inserting(s, step.pid)
    ensures var s' := Apply(s, step); step.pid in s'.procs ==> ProcOk(s', s'.procs[step.pid])
  {
    WindowKnown(s, step.pid);
    assert ProcOk(s, s.procs[step.pid]) && PagesOk(s) && WindowOk(s) && FsmOk(s);
    hide *;
    if Holds(s.procs[step.pid]) {
      HolderActs(s, step);
    } else {
      SeekerActs(s, step);
    }
  }

  /** An insert that does not hold the metapage. */
  lemma SeekerActs(s: State, step: Step)
    requires Enabled(s, step) && Actor(step).Some? && Inserting(s, step.pid) && !Holds(s.procs[step.pid])
    requires ProcOk(s, s.procs[step.pid]) && PagesOk(s) && WindowOk(s)
    ensures var s' := Apply(s, step); step.pid in s'.procs ==> ProcOk(s', s'.procs[step.pid])
  {
    assert forall i :: s.nStart <= i < s.nEnd ==> Known(s, s.notFullPage[i]);
    assert s.nStart <= s.nEnd && 1 <= |s.pages|;
    hide Known, Distinct, Window, GoodPage, WindowOk, PagesOk, Fits, AddTo, Places, Listed, Matching, Vacuumed,
         TuplesOf;
  }

  /** An insert that does. */
  lemma HolderActs(s: State, step: Step)
    requires Enabled(s, step) && Actor(step).Some? && Inserting(s, step.pid) && Holds(s.procs[step.pid])
    requires ProcOk(s, s.procs[step.pid]) && PagesOk(s) && WindowOk(s) && FsmOk(s)
    ensures var s' := Apply(s, step); step.pid in s'.procs ==> ProcOk(s', s'.procs[step.pid])
  {
    assert s.nStart <= s.nEnd && 1 <= |s.pages|;
    hide Known, Distinct, Window, GoodPage, WindowOk, PagesOk, Fits, AddTo, Places, Listed, Matching, Vacuumed,
         TuplesOf;
  }

  lemma StartActs(s: State, step: Step)
    requires Inv(s) && Enabled(s, step) && Actor(step).Some? && step.pid !in s.procs
    ensures var s' := Apply(s, step); step.pid in s'.procs ==> ProcOk(s', s'.procs[step.pid])
  {
    var s' := Apply(s, step);
    hide Inv, Places, DeleteOk, ScanOk, Fits, AddTo, Listed, Matching, Vacuumed;
    match step
    case StartDelete(pid, dead) => DeleteStarts(s, s', dead);
    case StartScan(pid, sign) => ScanStarts(s, s', sign);
    case _ =>
  }

  lemma DeletePageActs(s: State, pid: Pid)
    requires Inv(s) && Enabled(s, DeletePage(pid))
    ensures var s' := Apply(s, DeletePage(pid)); pid in s'.procs && ProcOk(s', s'.procs[pid])
  {
    assert ProcOk(s, s.procs[pid]) && PagesOk(s);
    hide Inv, DeleteOk, Listed, Vacuumed, PagesOk, TuplesOf;
    DeleteAdvances(s, Apply(s, DeletePage(pid)), s.procs[pid]);
  }

  lemma ScanPageActs(s: State, pid: Pid)
    requires Inv(s) && Enabled(s, ScanPage(pid))
    ensures var s' := Apply(s, ScanPage(pid)); pid in s'.procs && ProcOk(s', s'.procs[pid])
  {
    assert ProcOk(s, s.procs[pid]) && PagesOk(s);
    hide Inv, ScanOk, Matching, PagesOk;
    ScanAdvances(s, Apply(s, ScanPage(pid)), s.procs[pid]);
  }

  lemma PageActs(s: State, step: Step)
    requires Inv(s) && Enabled(s, step) && Actor(step).Some? && step.pid in s.procs && !Inserting(s, step.pid)
    ensures var s' := Apply(s, step); step.pid in s'.procs ==> ProcOk(s', s'.procs[step.pid])
  {
    assert ProcOk(s, s.procs[step.pid]);
    hide Inv, Places, DeleteOk, ScanOk, Fits, AddTo, Listed, Matching, Vacuumed, PagesOk;
    if step.DeletePage? {
      DeletePageActs(s, step.pid);
    } else if step.ScanPage? {
      ScanPageActs(s, step.pid);
    }
  }

  lemma ActorKept(s: State, step: Step)
    requires Inv(s) && Enabled(s, step) && Actor(step).Some?
    ensures var s' := Apply(s, step); step.pid in s'.procs ==> ProcOk(s', s'.procs[step.pid])
  {
    hide Inv, Enabled, Apply, ProcOk;
    if step.pid !in s.procs {
      StartActs(s, step);
    } else if Inserting(s, step.pid) {
      InsertActs(s, step);
    } else {
      PageActs(s, step);
    }
  }

  lemma DeleteStarts(s: State, s': State, dead: set<Tid>)
    requires s'.pages == s.pages && s'.removed == s.removed
    ensures DeleteOk(s', Delete(dead, |s.pages|, BLOOM_HEAD_BLKNO, [], Places(s.pages), s.removed))
  {
    OwedAtStart(s);
    hide TuplesOf, Places;
  }

  lemma ScanStarts(s: State, s': State, sign: Words)
    requires s'.pages == s.pages && s'.removed == s.removed && s'.o == s.o && |sign| == s.o.bloomLength
    ensures ScanOk(s', Scan(sign, |s.pages|, BLOOM_HEAD_BLKNO, {}, Places(s.pages), s.removed))
  {
    OwedAtStart(s);
    hide TuplesOf, Places;
  }

  lemma ProcsKept(s: State, step: Step)
    requires Inv(s) && Enabled(s, step)
    ensures ProcsOk(Apply(s, step))
  {
    var s' := Apply(s, step);
    forall q | q in s'.procs ensures ProcOk(s', s'.procs[q]) {
      if Actor(step) == Some(q) {
        ActorKept(s, step);
      } else {
        NoOneAppears(s, step, q);
        OtherKept(s, step, q);
      }
    }
  }

  lemma NoOneAppears(s: State, step: Step, q: Pid)
    requires Enabled(s, step) && Actor(step) != Some(q) && q in Apply(s, step).procs
    ensures q in s.procs
  {
    hide Places, Fits, Listed, Matching, AddTo, Vacuumed, TuplesOf;
  }

  /** Every step, by any process, keeps the invariant. */
  lemma StepKeepsInv(s: State, step: Step)
    requires Inv(s) && Enabled(s, step)
    ensures Inv(Apply(s, step))
  {
    PagesKept(s, step);
    WindowKept(s, step);
    OwnerKept(s, step);
    ProcsKept(s, step);
    ConservedKept(s, step);
    FsmKept(s, step);
    hide *;
    InvIs(Apply(s, step));
  }

  lemma InvIs(s: State)
    requires PagesOk(s) && WindowOk(s) && OwnerOk(s) && ProcsOk(s) && Conserved(s) && FsmOk(s)
    ensures Inv(s)
  {
  }
}
