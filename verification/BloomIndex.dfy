/** The operations of the bloom index, each run without interference: their loops over pages and over the window, every
    page access one step of the protocol. */
module BloomIndex {
  import opened Wrappers
  import opened BloomSignature
  import opened BloomPages
  import opened BloomProtocol
  import opened BloomInvariant

  const SELF: Pid := 0

  /** Where an operation may look, by the invariant. */
  lemma InBounds(s: State)
    requires Inv(s)
    ensures s.nStart <= s.nEnd <= |s.notFullPage| && |s.notFullPage| == BloomMetaBlockN && |s.pages| >= 1
    ensures forall i :: s.nStart <= i < s.nEnd ==> s.notFullPage[i] < |s.pages|
    ensures forall b :: b in s.fsm ==> b < |s.pages|
    ensures Contents(s.pages) + s.removed == s.inserted && ValidOptions(s.o)
  {
    assert PagesOk(s) && WindowOk(s) && FsmOk(s) && Conserved(s);
    forall i | s.nStart <= i < s.nEnd ensures s.notFullPage[i] < |s.pages| {
      assert Known(s, s.notFullPage[i]);
    }
    hide GoodPage, Contents, Window;
  }

  lemma OneMoreStored(c: multiset<Tuple>, r: multiset<Tuple>, c': multiset<Tuple>, t: Tuple)
    requires c' + r == c + r + multiset{t}
    ensures c' == c + multiset{t}
  {
    forall u ensures c'[u] == (c + multiset{t})[u] {
      assert (c' + r)[u] == (c + r + multiset{t})[u];
    }
  }

  // ---- The steps of an insert that runs alone ----

  /** Only an insert of t is running, in this phase. */
  function At(s: State, t: Tuple, phase: Phase): State {
    s.(procs := map[SELF := Proc.Insert(t, phase)])
  }

  predicate IsAt(s: State, t: Tuple, phase: Phase) {
    s.procs == map[SELF := Proc.Insert(t, phase)]
  }

  /** It is over, and t is on page b, now p. */
  function Landed(s: State, t: Tuple, b: Blk, p: PageView): State
    requires b < |s.pages|
  {
    s.(pages := s.pages[b := p], inserted := s.inserted + multiset{t}, procs := map[], owner := None)
  }

  lemma StepStart(s: State, t: Tuple)
    requires Inv(s) && s.procs == map[] && |t.sign| == s.o.bloomLength
    ensures Enabled(s, StartInsert(SELF, t)) && Apply(s, StartInsert(SELF, t)) == At(s, t, Begin)
            && Inv(At(s, t, Begin))
  {
    StepKeepsInv(s, StartInsert(SELF, t));
    hide Inv;
  }

  lemma StepReadMeta(s: State, t: Tuple)
    requires Inv(s) && IsAt(s, t, Begin) && s.owner.None?
    ensures s.nStart < s.nEnd ==> s.nStart < |s.notFullPage|
    ensures Enabled(s, ReadMeta(SELF))
    ensures var s' := At(s, t, if s.nEnd > s.nStart then Hinted(s.notFullPage[s.nStart]) else Tried(None));
            Apply(s, ReadMeta(SELF)) == s' && Inv(s')
  {
    hide Inv;
    InBounds(s);
    StepKeepsInv(s, ReadMeta(SELF));
  }

  lemma StepTryHint(s: State, t: Tuple, b: Blk)
    requires Inv(s) && IsAt(s, t, Hinted(b)) && s.owner.None?
    ensures b < |s.pages| && Enabled(s, TryHint(SELF))
    ensures var s' := match AddTo(s.o, s.pages[b], t)
              case Some(p) => Landed(s, t, b, p)
              case None => At(s, t, Tried(Some(b)));
            Apply(s, TryHint(SELF)) == s' && Inv(s')
  {
    hide Inv, AddTo;
    WindowKnown(s, SELF);
    StepKeepsInv(s, TryHint(SELF));
  }

  lemma StepLockMeta(s: State, t: Tuple, skip: Option<Blk>)
    requires Inv(s) && IsAt(s, t, Tried(skip)) && s.owner.None?
    ensures s.nStart <= s.nEnd <= |s.notFullPage|
    ensures Enabled(s, LockMeta(SELF))
    ensures var n := if s.nStart < s.nEnd && skip == Some(s.notFullPage[s.nStart]) then s.nStart + 1 else s.nStart;
            var s' := At(s, t, Looping(n)).(owner := Some(SELF));
            Apply(s, LockMeta(SELF)) == s' && Inv(s')
  {
    hide Inv;
    InBounds(s);
    StepKeepsInv(s, LockMeta(SELF));
  }

  lemma LoopInWindow(s: State, pid: Pid)
    requires Inv(s) && Inserting(s, pid) && s.procs[pid].phase.Looping?
    ensures s.nStart <= s.procs[pid].phase.n <= s.nEnd
  {
    assert ProcOk(s, s.procs[pid]);
  }

  lemma StepTryNext(s: State, t: Tuple, n: nat)
    requires Inv(s) && IsAt(s, t, Looping(n)) && s.owner == Some(SELF)
    ensures n <= s.nEnd <= |s.notFullPage| && (n < s.nEnd ==> s.notFullPage[n] < |s.pages|)
    ensures Enabled(s, TryNext(SELF))
    ensures var s' := if n >= s.nEnd then At(s, t, Allocating) else
              match AddTo(s.o, s.pages[s.notFullPage[n]], t)
              case Some(p) => Landed(s, t, s.notFullPage[n], p).(nStart := n)
              case None => At(s, t, Looping(n + 1));
            Apply(s, TryNext(SELF)) == s' && Inv(s')
  {
    hide Inv, AddTo, Fits, Places, Listed, Matching, Vacuumed, TuplesOf;
    LoopInWindow(s, SELF);
    InBounds(s);
    StepKeepsInv(s, TryNext(SELF));
  }

  /** What filling a new page leaves. */
  function Filled(s: State, t: Tuple, b: Blk): State
    requires b < |s.pages| && s.notFullPage != []
  {
    Landed(s, t, b, Data(false, [t])).(nStart := 0, nEnd := 1, notFullPage := [b] + s.notFullPage[1..])
  }

  lemma StepUseFree(s: State, t: Tuple, b: Blk)
    requires Inv(s) && IsAt(s, t, Allocating) && s.owner == Some(SELF) && b in s.fsm
    ensures b < |s.pages| && s.notFullPage != []
    ensures Enabled(s, AskFsm(SELF, b)) && Enabled(Apply(s, AskFsm(SELF, b)), UseFree(SELF, true))
    ensures var asked := s.(fsm := s.fsm - {b});
            var s' := if Reusable(s.pages[b]) then Filled(asked, t, b) else asked;
            Apply(Apply(s, AskFsm(SELF, b)), UseFree(SELF, true)) == s' && Inv(s')
  {
    hide Inv;
    InBounds(s);
    StepKeepsInv(s, AskFsm(SELF, b));
    var s1 := Apply(s, AskFsm(SELF, b));
    assert s1 == At(s.(fsm := s.fsm - {b}), t, Asked(b));
    StepKeepsInv(s1, UseFree(SELF, true));
    assert At(s1, t, Allocating) == s.(fsm := s.fsm - {b});
  }

  lemma StepExtend(s: State, t: Tuple)
    requires Inv(s) && IsAt(s, t, Allocating) && s.owner == Some(SELF)
    ensures s.notFullPage != []
    ensures Enabled(s, Extend(SELF)) && Enabled(Apply(s, Extend(SELF)), FillExtended(SELF))
    ensures var s' := Filled(s.(pages := s.pages + [New]), t, |s.pages|);
            Apply(Apply(s, Extend(SELF)), FillExtended(SELF)) == s' && Inv(s')
  {
    hide Inv;
    InBounds(s);
    StepKeepsInv(s, Extend(SELF));
    var s1 := Apply(s, Extend(SELF));
    assert s1 == At(s.(pages := s.pages + [New]), t, Extended(|s.pages|));
    StepKeepsInv(s1, FillExtended(SELF));
  }

  // ---- The steps of a deletion and of a cleanup that run alone ----

  predicate Alone(s: State, proc: Proc) {
    s.procs == map[SELF := proc]
  }

  lemma DeleteBounds(s: State, proc: Proc)
    requires Inv(s) && Alone(s, proc) && proc.Delete?
    ensures 1 <= proc.next && proc.npages <= |s.pages| && |proc.list| <= |s.notFullPage|
  {
    assert s.procs[SELF] == proc;
    assert ProcOk(s, s.procs[SELF]) && WindowOk(s);
  }

  lemma GoodOnes(s: State, b: Blk)
    requires Inv(s) && b < |s.pages|
    ensures GoodPage(s.o, s.pages[b])
  {
    assert PagesOk(s);
  }

  lemma StepStartDelete(s: State, dead: set<Tid>)
    requires Inv(s) && s.procs == map[]
    ensures var proc := Delete(dead, |s.pages|, BLOOM_HEAD_BLKNO, [], Places(s.pages), s.removed);
            var s' := s.(procs := map[SELF := proc]);
            Enabled(s, StartDelete(SELF, dead)) && Apply(s, StartDelete(SELF, dead)) == s' && Inv(s')
  {
    StepKeepsInv(s, StartDelete(SELF, dead));
    hide Inv, Places;
  }

  /** The deletion has done one more page. */
  function Deleted(s: State, proc: Proc, p': PageView): State
    requires proc.Delete? && proc.next < |s.pages|
  {
    s.(pages := s.pages[proc.next := p'],
       removed := s.removed + (multiset(TuplesOf(s.pages[proc.next])) - multiset(TuplesOf(p'))),
       procs := map[SELF := proc.(next := proc.next + 1, list := Listed(s, proc))])
  }

  lemma StepDeletePage(s: State, proc: Proc)
    requires Inv(s) && Alone(s, proc) && proc.Delete? && proc.next < proc.npages
    ensures 1 <= proc.next && proc.npages <= |s.pages| && Enabled(s, DeletePage(SELF))
    ensures var p := s.pages[proc.next];
            var p' := Vacuumed(p, t => t in proc.dead);
            && Apply(s, DeletePage(SELF)) == Deleted(s, proc, p') && Inv(Deleted(s, proc, p'))
            && multiset(TuplesOf(p')) <= multiset(TuplesOf(p)) && GoodPage(s.o, p)
  {
    DeleteBounds(s, proc);
    GoodOnes(s, proc.next);
    hide Inv, Vacuumed, TuplesOf, Listed, GoodPage;
    VacuumedTuples(s.pages[proc.next], proc.dead, s.o);
    StepKeepsInv(s, DeletePage(SELF));
  }

  lemma StepEndDelete(s: State, proc: Proc)
    requires Inv(s) && Alone(s, proc) && proc.Delete? && proc.next >= proc.npages && s.owner.None?
    ensures |proc.list| <= |s.notFullPage| && Enabled(s, EndDelete(SELF))
    ensures var s' := s.(procs := map[], nStart := 0, nEnd := |proc.list|,
                         notFullPage := proc.list + s.notFullPage[|proc.list|..]);
            Apply(s, EndDelete(SELF)) == s' && Inv(s')
  {
    DeleteBounds(s, proc);
    StepKeepsInv(s, EndDelete(SELF));
    hide Inv;
  }

  lemma StepCleanup(s: State, next: Blk)
    requires Inv(s) && Alone(s, Cleanup(|s.pages|, next)) && next < |s.pages|
    ensures Enabled(s, CleanupPage(SELF))
    ensures var s' := s.(fsm := if Reusable(s.pages[next]) then s.fsm + {next} else s.fsm,
                         procs := map[SELF := Cleanup(|s.pages|, next + 1)]);
            Apply(s, CleanupPage(SELF)) == s' && Inv(s')
  {
    StepKeepsInv(s, CleanupPage(SELF));
    hide Inv;
  }

  lemma StepStartCleanup(s: State)
    requires Inv(s) && s.procs == map[]
    ensures var s' := s.(procs := map[SELF := Cleanup(|s.pages|, BLOOM_HEAD_BLKNO)]);
            Enabled(s, StartCleanup(SELF)) && Apply(s, StartCleanup(SELF)) == s' && Inv(s')
  {
    StepKeepsInv(s, StartCleanup(SELF));
    hide Inv;
  }

  lemma StepLeave(s: State, proc: Proc)
    requires Inv(s) && Alone(s, proc) && s.owner.None?
    ensures var s' := s.(procs := map[]); Enabled(s, Leave(SELF)) && Apply(s, Leave(SELF)) == s' && Inv(s')
  {
    StepKeepsInv(s, Leave(SELF));
    hide Inv;
  }

  /** A page the deletion puts on its list: not empty, and with room. */
  predicate Roomy(o: Options, p: PageView) {
    p.Data? && p.tuples != [] && Fits(o, |p.tuples|)
  }

  /** The list names pages with room, and all of them as long as it is not full. */
  predicate ListsRoomy(o: Options, pages: seq<PageView>, n: nat, list: seq<Blk>)
    requires n <= |pages|
  {
    && (forall i :: 0 <= i < |list| ==> 1 <= list[i] < n && Roomy(o, pages[list[i]]))
    && (|list| < BloomMetaBlockN ==> forall b :: 1 <= b < n && Roomy(o, pages[b]) ==> b in list)
  }

  lemma RoomyVacuumed(o: Options, p: PageView, dead: set<Tid>)
    requires GoodPage(o, p)
    ensures var p' := Vacuumed(p, t => t in dead);
            Roomy(o, p') <==> !Reusable(p) && p'.tuples != [] && Fits(o, |p'.tuples|)
  {
    hide Fits, Capacity, Survivors;
  }

  lemma ListedIsRoomy(s: State, proc: Proc, p': PageView)
    requires proc.Delete? && proc.next < |s.pages| && GoodPage(s.o, s.pages[proc.next])
    requires p' == Vacuumed(s.pages[proc.next], t => t in proc.dead)
    ensures Listed(s, proc) == if Roomy(s.o, p') && |proc.list| < BloomMetaBlockN then proc.list + [proc.next]
            else proc.list
  {
    RoomyVacuumed(s.o, s.pages[proc.next], proc.dead);
    hide Roomy, GoodPage, Fits, Vacuumed;
  }

  lemma CountRemoved(r: multiset<Tuple>, a: seq<Tuple>, b: seq<Tuple>)
    requires multiset(b) <= multiset(a)
    ensures |b| <= |a| && |r + (multiset(a) - multiset(b))| == |r| + (|a| - |b|)
  {
    assert multiset(a) == (multiset(a) - multiset(b)) + multiset(b);
    assert |multiset(a)| == |a| && |multiset(b)| == |b|;
  }

  /** The new and deleted pages before n. */
  function Free(pages: seq<PageView>, n: nat): set<Blk>
    requires n <= |pages|
  {
    set b | 1 <= b < n && Reusable(pages[b])
  }

  lemma FreeGrows(pages: seq<PageView>, n: nat)
    requires 1 <= n < |pages|
    ensures Free(pages, n + 1) == if Reusable(pages[n]) then Free(pages, n) + {n} else Free(pages, n)
    ensures n !in Free(pages, n)
  {
  }

  lemma ContentsBefore(pages: seq<PageView>, n: nat)
    requires n < |pages|
    ensures |Contents(pages[..n + 1])| == |Contents(pages[..n])| + |TuplesOf(pages[n])|
  {
    assert pages[..n + 1][..n] == pages[..n];
  }

  lemma ContentsOfMeta(s: State)
    requires Inv(s)
    ensures |s.pages| >= 1 && Contents(s.pages[..1]) == multiset{}
  {
    assert PagesOk(s);
    assert s.pages[..1][..0] == [];
  }

  lemma CountPage(s: State, b: Blk)
    requires Inv(s) && b < |s.pages|
    ensures |TuplesOf(s.pages[b])| == if Reusable(s.pages[b]) then 0 else |s.pages[b].tuples|
  {
    if Reusable(s.pages[b]) {
      ReusableIsEmpty(s, b);
    }
  }

  lemma NothingListed(o: Options, pages: seq<PageView>)
    requires |pages| >= 1
    ensures ListsRoomy(o, pages, 1, [])
  {
  }

  lemma ListGrows(o: Options, pages: seq<PageView>, p: PageView, n: nat, list: seq<Blk>)
    requires 1 <= n < |pages| && ListsRoomy(o, pages, n, list)
    ensures var list' := if Roomy(o, p) && |list| < BloomMetaBlockN then list + [n] else list;
            ListsRoomy(o, pages[n := p], n + 1, list')
  {
    hide Roomy;
    var list' := if Roomy(o, p) && |list| < BloomMetaBlockN then list + [n] else list;
    forall b | 1 <= b < n + 1 && Roomy(o, pages[n := p][b]) && |list'| < BloomMetaBlockN ensures b in list' {
      if b == n {
        assert list'[|list|] == n;
      } else {
        assert b in list;
      }
    }
  }

  // ---- The index ----

  class Index {
    const o: Options
    var pages: seq<PageView>
    var nStart: nat
    var nEnd: nat
    var notFullPage: seq<Blk>
    var fsm: set<Blk>
    ghost var st: State

    /** The fields are the state of the protocol. */
    ghost predicate Synced()
      reads this
    {
      && st.o == o && st.pages == pages && st.nStart == nStart && st.nEnd == nEnd
      && st.notFullPage == notFullPage && st.fsm == fsm
      && Inv(st)
    }

    /** No operation is running. */
    ghost predicate Valid()
      reads this
    {
      Synced() && st.procs == map[] && st.owner.None?
    }

    /** BloomPageAddItem on a page from the store. */
    method AddItemTo(b: Blk, t: Tuple) returns (ok: bool)
      requires b < |pages|
      modifies this`pages
      ensures match AddTo(o, old(pages)[b], t)
              case Some(p) => ok && pages == old(pages)[b := p]
              case None => !ok && pages == old(pages)
    {
      var tuples := if Reusable(pages[b]) then [] else pages[b].tuples;
      ok := ROOM - |tuples| * SizeOfBloomTuple(o) >= SizeOfBloomTuple(o);
      if ok {
        pages := pages[b := Data(false, tuples + [t])];
      }
    }

    /** BloomInitPage and the one tuple on a page BloomNewBuffer returned, now the whole window. */
    method FillNew(b: Blk, t: Tuple)
      requires b < |pages| && notFullPage != []
      modifies this`pages, this`nStart, this`nEnd, this`notFullPage
      ensures pages == old(pages)[b := Data(false, [t])] && nStart == 0 && nEnd == 1
      ensures notFullPage == [b] + old(notFullPage)[1..]
    {
      pages := pages[b := Data(false, [t])];
      nStart := 0;
      nEnd := 1;
      notFullPage := [b] + notFullPage[1..];
    }

    /** blinsert before it takes the metapage lock: try the page the metapage names first, if any. */
    method InsertHinted(t: Tuple) returns (done: bool, blkno: Option<Blk>)
      requires Valid() && |t.sign| == o.bloomLength
      modifies this
      ensures st.inserted == old(st.inserted) + (if done then multiset{t} else multiset{})
              && st.removed == old(st.removed)
      ensures if done then Valid() else Synced() && IsAt(st, t, Tried(blkno)) && st.owner.None?
    {
      hide Inv, Apply, Enabled, AddTo;
      StepStart(st, t);
      st := At(st, t, Begin);
      StepReadMeta(st, t);
      done, blkno := false, None;
      if nEnd > nStart {
        var b := notFullPage[nStart];
        blkno := Some(b);
        st := At(st, t, Hinted(b));
        StepTryHint(st, t, b);
        done := AddItemTo(b, t);
        st := if done then Landed(st, t, b, pages[b]) else At(st, t, Tried(blkno));
      } else {
        st := At(st, t, Tried(None));
      }
    }

    /** blinsert holding the metapage lock: try the other pages of the window. */
    method InsertWindow(t: Tuple, blkno: Option<Blk>) returns (done: bool)
      requires Synced() && IsAt(st, t, Tried(blkno)) && st.owner.None?
      modifies this
      ensures st.inserted == old(st.inserted) + (if done then multiset{t} else multiset{})
              && st.removed == old(st.removed)
      ensures if done then Valid() else Synced() && IsAt(st, t, Allocating) && st.owner == Some(SELF)
    {
      hide Inv, Apply, Enabled, AddTo;
      StepLockMeta(st, t, blkno);
      var n: nat := nStart;
      if n < nEnd && blkno == Some(notFullPage[n]) {
        n := n + 1;
      }
      st := At(st, t, Looping(n)).(owner := Some(SELF));
      done := false;
      while true
        invariant Synced() && IsAt(st, t, Looping(n)) && st.owner == Some(SELF)
        invariant st.inserted == old(st.inserted) && st.removed == old(st.removed)
        decreases nEnd - n
      {
        StepTryNext(st, t, n);
        if n >= nEnd {
          st := At(st, t, Allocating);
          return;
        }
        var b := notFullPage[n];
        done := AddItemTo(b, t);
        if done {
          nStart := n;
          st := Landed(st, t, b, pages[b]).(nStart := n);
          return;
        }
        n := n + 1;
        st := At(st, t, Looping(n));
      }
    }

    /** BloomNewBuffer, and the tuple put on the page it returns. */
    method InsertNew(t: Tuple)
      requires Synced() && IsAt(st, t, Allocating) && st.owner == Some(SELF)
      modifies this
      ensures Valid() && st.inserted == old(st.inserted) + multiset{t} && st.removed == old(st.removed)
    {
      hide Inv, Apply, Enabled;
      while fsm != {}
        invariant Synced() && IsAt(st, t, Allocating) && st.owner == Some(SELF)
        invariant st.inserted == old(st.inserted) && st.removed == old(st.removed)
        decreases fsm
      {
        var b :| b in fsm;
        StepUseFree(st, t, b);
        fsm := fsm - {b};
        st := st.(fsm := fsm);
        if Reusable(pages[b]) {
          FillNew(b, t);
          st := Filled(st, t, b);
          return;
        }
      }
      StepExtend(st, t);
      pages := pages + [New];
      st := Filled(st.(pages := pages), t, |pages| - 1);
      FillNew(|pages| - 1, t);
    }

    /** blinsert: the tuple is stored, once, and nothing else changes. */
    method Insert(t: Tuple)
      requires Valid() && |t.sign| == o.bloomLength
      modifies this
      ensures Valid() && Contents(pages) == old(Contents(pages)) + multiset{t}
    {
      ghost var before := st;
      InBounds(st);
      hide Inv, Contents, Apply, Enabled, ValidOptions;
      var done, blkno := InsertHinted(t);
      if !done {
        done := InsertWindow(t, blkno);
        if !done {
          InsertNew(t);
        }
      }
      InBounds(st);
      OneMoreStored(Contents(before.pages), before.removed, Contents(pages), t);
    }

    /** The work of blbulkdelete on one page, the compaction itself being that of a page. */
    method DeleteOnPage(blkno: Blk, dead: set<Tid>, notFull: seq<Blk>, ghost proc: Proc)
      returns (removed: nat, notFull': seq<Blk>)
      requires Synced() && Alone(st, proc) && proc.Delete? && proc.dead == dead && proc.npages == |pages|
      requires 1 <= blkno == proc.next < |pages| && proc.list == notFull && ListsRoomy(o, pages, blkno, notFull)
      modifies this`pages, this`st
      ensures Synced() && pages == old(pages)[blkno := Vacuumed(old(pages)[blkno], t => t in dead)]
      ensures Alone(st, proc.(next := blkno + 1, list := notFull')) && st.owner == old(st).owner
      ensures ListsRoomy(o, pages, blkno + 1, notFull')
      ensures |st.removed| == |old(st.removed)| + removed
    {
      hide Inv, Vacuumed, Listed, TuplesOf, ListsRoomy, Roomy, GoodPage, Apply, Enabled;
      StepDeletePage(st, proc);
      var p := pages[blkno];
      var p' := Vacuumed(p, t => t in dead);
      ListedIsRoomy(st, proc, p');
      ListGrows(o, pages, p', blkno, notFull);
      notFull' := if Roomy(o, p') && |notFull| < BloomMetaBlockN then notFull + [blkno] else notFull;
      CountRemoved(st.removed, TuplesOf(p), TuplesOf(p'));
      removed := |TuplesOf(p)| - |TuplesOf(p')|;
      pages := pages[blkno := p'];
      st := Deleted(st, proc, p');
    }

    /** blbulkdelete: every page loses exactly the named tuples, they are counted, and the window becomes pages with
        room: all of them, if the metapage has space. */
    method BulkDelete(dead: set<Tid>) returns (tuplesRemoved: nat)
      requires Valid()
      modifies this
      ensures Valid() && |pages| == old(|pages|)
      ensures forall b :: 1 <= b < |pages| ==> pages[b] == Vacuumed(old(pages)[b], t => t in dead)
      ensures |st.removed| == |old(st.removed)| + tuplesRemoved
      ensures nStart == 0 && nEnd <= |notFullPage| && ListsRoomy(o, pages, |pages|, notFullPage[..nEnd])
    {
      hide Inv, Vacuumed, ListsRoomy, Apply, Enabled, Contents, Places, ValidOptions;
      ghost var before := st;
      InBounds(st);
      NothingListed(o, pages);
      var npages := |pages|;
      StepStartDelete(st, dead);
      st := st.(procs := map[SELF := Delete(dead, |pages|, BLOOM_HEAD_BLKNO, [], Places(pages), st.removed)]);
      var notFull: seq<Blk> := [];
      tuplesRemoved := 0;
      var blkno := BLOOM_HEAD_BLKNO;
      while blkno < npages
        invariant 1 <= blkno <= npages == |pages| && Synced() && st.owner.None?
        invariant Alone(st, Delete(dead, npages, blkno, notFull, Places(before.pages), before.removed))
        invariant forall b :: 1 <= b < blkno ==> pages[b] == Vacuumed(before.pages[b], t => t in dead)
        invariant forall b :: blkno <= b < npages ==> pages[b] == before.pages[b]
        invariant ListsRoomy(o, pages, blkno, notFull) && |st.removed| == |before.removed| + tuplesRemoved
      {
        var removed;
        removed, notFull := DeleteOnPage(blkno, dead, notFull, st.procs[SELF]);
        tuplesRemoved := tuplesRemoved + removed;
        blkno := blkno + 1;
      }
      StepEndDelete(st, st.procs[SELF]);
      notFullPage := notFull + notFullPage[|notFull|..];
      nStart := 0;
      nEnd := |notFull|;
      st := st.(procs := map[], nStart := 0, nEnd := nEnd, notFullPage := notFullPage);
      assert notFullPage[..nEnd] == notFull;
    }

    /** blvacuumcleanup: new and deleted pages, and no others, are recorded as free; live tuples are counted. */
    method VacuumCleanup() returns (pagesFree: nat, numIndexTuples: nat)
      requires Valid()
      modifies this`fsm, this`st
      ensures Valid()
      ensures fsm == old(fsm) + Free(pages, |pages|) && pagesFree == |Free(pages, |pages|)|
      ensures numIndexTuples == |Contents(pages)|
    {
      hide Inv, Apply, Enabled, Contents, Free, TuplesOf;
      ContentsOfMeta(st);
      NoneFree(pages);
      StepStartCleanup(st);
      st := st.(procs := map[SELF := Cleanup(|pages|, BLOOM_HEAD_BLKNO)]);
      pagesFree, numIndexTuples := 0, 0;
      var blkno := BLOOM_HEAD_BLKNO;
      while blkno < |pages|
        invariant 1 <= blkno <= |pages| && Synced() && st.owner.None?
        invariant Alone(st, Cleanup(|pages|, blkno))
        invariant fsm == old(fsm) + Free(pages, blkno) && pagesFree == |Free(pages, blkno)|
        invariant numIndexTuples == |Contents(pages[..blkno])|
      {
        StepCleanup(st, blkno);
        FreeGrows(pages, blkno);
        ContentsBefore(pages, blkno);
        CountPage(st, blkno);
        if Reusable(pages[blkno]) {
          fsm := fsm + {blkno};
          pagesFree := pagesFree + 1;
        } else {
          numIndexTuples := numIndexTuples + |pages[blkno].tuples|;
        }
        st := st.(fsm := fsm, procs := map[SELF := Cleanup(|pages|, blkno + 1)]);
        blkno := blkno + 1;
      }
      assert pages[..blkno] == pages;
      StepLeave(st, Cleanup(|pages|, blkno));
      st := st.(procs := map[]);
    }
  }

  lemma NoneFree(pages: seq<PageView>)
    requires |pages| >= 1
    ensures Free(pages, 1) == {}
  {
  }
}
