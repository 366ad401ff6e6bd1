/** The bloom index under concurrency: inserts that let go of the metapage between their steps, bulk deletion and
    cleanup page by page, scans page by page, processes that fail at any point, and a free space map that can be
    wrong. One step is what a process does while it holds a page lock. */
module BloomProtocol {
  import opened Wrappers
  import opened BloomSignature
  import opened BloomPages

  type Pid = nat
  type Blk = nat

  const BLOOM_METAPAGE_BLKNO: Blk := 0
  const BLOOM_HEAD_BLKNO: Blk := 1

  /** Block numbers that fit into the metapage. */
  const BloomMetaBlockN: nat := 2004

  /** Where an insert is. */
  datatype Phase =
    | Begin
    | Hinted(hint: Blk)
    | Tried(skip: Option<Blk>)
    | Looping(n: nat)
    | Allocating
    | Asked(free: Blk)
    | Extended(blk: Blk)

  /** A tuple and the block it is on. */
  datatype Place = Place(blk: Blk, tuple: Tuple)

  /** The running operations. What a scan or a deletion owes, and what had been removed before, is history. */
  datatype Proc =
    | Insert(tuple: Tuple, phase: Phase)
    | Delete(dead: set<Tid>, npages: nat, next: Blk, list: seq<Blk>, owed: set<Place>, before: multiset<Tuple>)
    | Cleanup(npages: nat, next: Blk)
    | Scan(sign: Words, npages: nat, next: Blk, bitmap: set<Tid>, owed: set<Place>, before: multiset<Tuple>)

  /** The file, the metapage's window, the free space map, the exclusive lock on the metapage, the running operations;
      and as history all that was inserted and all that was removed. */
  datatype State = State(
    o: Options,
    pages: seq<PageView>,
    nStart: nat,
    nEnd: nat,
    notFullPage: seq<Blk>,
    fsm: set<Blk>,
    owner: Option<Pid>,
    procs: map<Pid, Proc>,
    inserted: multiset<Tuple>,
    removed: multiset<Tuple>)

  datatype Step =
    | StartInsert(pid: Pid, tuple: Tuple)
    | ReadMeta(pid: Pid)
    | TryHint(pid: Pid)
    | LockMeta(pid: Pid)
    | TryNext(pid: Pid)
    | AskFsm(pid: Pid, free: Blk)
    | UseFree(pid: Pid, locked: bool)
    | Extend(pid: Pid)
    | FillExtended(pid: Pid)
    | StartDelete(pid: Pid, dead: set<Tid>)
    | DeletePage(pid: Pid)
    | EndDelete(pid: Pid)
    | StartCleanup(pid: Pid)
    | CleanupPage(pid: Pid)
    | StartScan(pid: Pid, sign: Words)
    | ScanPage(pid: Pid)
    | Leave(pid: Pid)
    | FsmChanges(fsm: set<Blk>)

  predicate Reusable(p: PageView) { p.New? || p.deleted }

  /** Reinitialise if deleted or new, then BloomPageAddItem. */
  function AddTo(o: Options, p: PageView, t: Tuple): Option<PageView> {
    var tuples := if Reusable(p) then [] else p.tuples;
    if Fits(o, |tuples|) then Some(Data(false, tuples + [t])) else None
  }

  /** All places of tuples on data pages. */
  ghost function Places(pages: seq<PageView>): set<Place> {
    set b, t | 1 <= b < |pages| && t in TuplesOf(pages[b]) :: Place(b, t)
  }

  predicate Inserting(s: State, pid: Pid) { pid in s.procs && s.procs[pid].Insert? }

  /** Nothing but the owner's own lock stands in the way of the metapage. */
  ghost predicate Enabled(s: State, step: Step) {
    match step
    case StartInsert(pid, t) => pid !in s.procs && |t.sign| == s.o.bloomLength
    case ReadMeta(pid) => Inserting(s, pid) && s.procs[pid].phase.Begin? && s.owner.None?
                          && (s.nStart < s.nEnd ==> s.nStart < |s.notFullPage|)
    case TryHint(pid) => Inserting(s, pid) && s.procs[pid].phase.Hinted? && s.procs[pid].phase.hint < |s.pages|
    case LockMeta(pid) => Inserting(s, pid) && s.procs[pid].phase.Tried? && s.owner.None?
                          && (s.nStart < s.nEnd ==> s.nStart < |s.notFullPage|)
    case TryNext(pid) => Inserting(s, pid) && s.procs[pid].phase.Looping?
                         && (s.procs[pid].phase.n < s.nEnd ==>
                               && s.procs[pid].phase.n < |s.notFullPage|
                               && s.notFullPage[s.procs[pid].phase.n] < |s.pages|)
    case AskFsm(pid, b) => Inserting(s, pid) && s.procs[pid].phase.Allocating? && b in s.fsm
    case UseFree(pid, _) => Inserting(s, pid) && s.procs[pid].phase.Asked? && s.procs[pid].phase.free < |s.pages|
    case Extend(pid) => Inserting(s, pid) && s.procs[pid].phase.Allocating?
    case FillExtended(pid) => Inserting(s, pid) && s.procs[pid].phase.Extended? && s.procs[pid].phase.blk < |s.pages|
    case StartDelete(pid, _) => pid !in s.procs
    case DeletePage(pid) =>
      pid in s.procs && s.procs[pid].Delete? && s.procs[pid].next < s.procs[pid].npages <= |s.pages|
    case EndDelete(pid) =>
      pid in s.procs && s.procs[pid].Delete? && s.procs[pid].next >= s.procs[pid].npages && s.owner.None?
    case StartCleanup(pid) => pid !in s.procs
    case CleanupPage(pid) =>
      pid in s.procs && s.procs[pid].Cleanup? && s.procs[pid].next < s.procs[pid].npages <= |s.pages|
    case StartScan(pid, sign) => pid !in s.procs && |sign| == s.o.bloomLength
    case ScanPage(pid) => pid in s.procs && s.procs[pid].Scan? && s.procs[pid].next < s.procs[pid].npages <= |s.pages|
    case Leave(pid) => pid in s.procs
    case FsmChanges(fsm) => forall b :: b in fsm ==> b < |s.pages|
  }

  /** The insert goes on in another phase. */
  function Go(s: State, pid: Pid, phase: Phase): State
    requires Inserting(s, pid)
  {
    s.(procs := s.procs[pid := s.procs[pid].(phase := phase)])
  }

  /** The operation is over, by success or failure; a lock it holds is released. */
  function Gone(s: State, pid: Pid): State {
    s.(procs := s.procs - {pid}, owner := if s.owner == Some(pid) then None else s.owner)
  }

  /** The insert's tuple is now on that page. */
  function Stores(s: State, pid: Pid, b: Blk, p: PageView): State
    requires Inserting(s, pid) && b < |s.pages|
  {
    Gone(s.(pages := s.pages[b := p], inserted := s.inserted + multiset{s.procs[pid].tuple}), pid)
  }

  /** A page from BloomNewBuffer is initialised, filled, and made the only entry of the window. */
  function FillsNew(s: State, pid: Pid, b: Blk): State
    requires Inserting(s, pid) && b < |s.pages|
  {
    Stores(s, pid, b, Data(false, [s.procs[pid].tuple]))
      .(nStart := 0, nEnd := 1, notFullPage := [b] + (if s.notFullPage == [] then [] else s.notFullPage[1..]))
  }

  /** What the deletion of dead tuples on a page adds to its list. */
  function Listed(s: State, proc: Proc): seq<Blk>
    requires proc.Delete? && proc.next < |s.pages|
  {
    var p := s.pages[proc.next];
    var p' := Vacuumed(p, t => t in proc.dead);
    if !Reusable(p) && p'.tuples != [] && Fits(s.o, |p'.tuples|) && |proc.list| < BloomMetaBlockN
    then proc.list + [proc.next] else proc.list
  }

  /** What one step does. */
  ghost function Apply(s: State, step: Step): State
    requires Enabled(s, step)
  {
    match step
    case StartInsert(pid, t) => s.(procs := s.procs[pid := Insert(t, Begin)])
    case ReadMeta(pid) =>
      Go(s, pid, if s.nEnd > s.nStart then Hinted(s.notFullPage[s.nStart]) else Tried(None))
    case TryHint(pid) =>
      var b := s.procs[pid].phase.hint;
      (match AddTo(s.o, s.pages[b], s.procs[pid].tuple)
       case Some(p) => Stores(s, pid, b, p)
       case None => Go(s, pid, Tried(Some(b))))
    case LockMeta(pid) =>
      var skip := s.nStart < s.nEnd && s.procs[pid].phase.skip == Some(s.notFullPage[s.nStart]);
      Go(s, pid, Looping(if skip then s.nStart + 1 else s.nStart)).(owner := Some(pid))
    case TryNext(pid) =>
      var n := s.procs[pid].phase.n;
      if n >= s.nEnd then Go(s, pid, Allocating) else
      (match AddTo(s.o, s.pages[s.notFullPage[n]], s.procs[pid].tuple)
       case Some(p) => Stores(s, pid, s.notFullPage[n], p).(nStart := n)
       case None => Go(s, pid, Looping(n + 1)))
    case AskFsm(pid, b) => Go(s, pid, Asked(b)).(fsm := s.fsm - {b})
    case UseFree(pid, locked) =>
      var b := s.procs[pid].phase.free;
      if locked && Reusable(s.pages[b]) then FillsNew(s, pid, b) else Go(s, pid, Allocating)
    case Extend(pid) => Go(s, pid, Extended(|s.pages|)).(pages := s.pages + [New])
    case FillExtended(pid) => FillsNew(s, pid, s.procs[pid].phase.blk)
    case StartDelete(pid, dead) =>
      s.(procs := s.procs[pid := Delete(dead, |s.pages|, BLOOM_HEAD_BLKNO, [], Places(s.pages), s.removed)])
    case DeletePage(pid) =>
      var proc := s.procs[pid];
      var p := s.pages[proc.next];
      var p' := Vacuumed(p, t => t in proc.dead);
      s.(pages := s.pages[proc.next := p'],
         removed := s.removed + (multiset(TuplesOf(p)) - multiset(TuplesOf(p'))),
         procs := s.procs[pid := proc.(next := proc.next + 1, list := Listed(s, proc))])
    case EndDelete(pid) =>
      var list := s.procs[pid].list;
      Gone(s, pid).(nStart := 0, nEnd := |list|,
                    notFullPage := list + (if |list| <= |s.notFullPage| then s.notFullPage[|list|..] else []))
    case StartCleanup(pid) => s.(procs := s.procs[pid := Cleanup(|s.pages|, BLOOM_HEAD_BLKNO)])
    case CleanupPage(pid) =>
      var proc := s.procs[pid];
      s.(fsm := if Reusable(s.pages[proc.next]) then s.fsm + {proc.next} else s.fsm,
         procs := s.procs[pid := Cleanup(proc.npages, proc.next + 1)])
    case StartScan(pid, sign) =>
      s.(procs := s.procs[pid := Scan(sign, |s.pages|, BLOOM_HEAD_BLKNO, {}, Places(s.pages), s.removed)])
    case ScanPage(pid) =>
      var proc := s.procs[pid];
      var p := s.pages[proc.next];
      var found := if Reusable(p) then {} else set tid | tid in Matching(p.tuples, proc.sign);
      s.(procs := s.procs[pid := proc.(next := proc.next + 1, bitmap := proc.bitmap + found)])
    case Leave(pid) => Gone(s, pid)
    case FsmChanges(fsm) => s.(fsm := fsm)
  }

  // ---- What every step keeps ----

  /** The metapage is no data page, is never new or deleted, and holds no tuples; data pages are within capacity, and
      deleted ones are empty. */
  ghost predicate PagesOk(s: State) {
    && ValidOptions(s.o)
    && |s.pages| >= 1 && s.pages[0] == Data(false, [])
    && forall b :: 0 <= b < |s.pages| ==> GoodPage(s.o, s.pages[b])
  }

  /** A data page that has been initialised. */
  predicate Known(s: State, b: Blk) { 1 <= b < |s.pages| && !s.pages[b].New? }

  predicate Distinct(bs: seq<Blk>) { forall i, j :: 0 <= i < j < |bs| ==> bs[i] != bs[j] }

  function Window(s: State): seq<Blk>
    requires s.nStart <= s.nEnd <= |s.notFullPage|
  {
    s.notFullPage[s.nStart..s.nEnd]
  }

  /** The window names distinct, initialised data pages. */
  ghost predicate WindowOk(s: State) {
    && s.nStart <= s.nEnd <= |s.notFullPage| == BloomMetaBlockN
    && Distinct(Window(s)) && (forall i :: s.nStart <= i < s.nEnd ==> Known(s, s.notFullPage[i]))
  }

  /** The phases in which an insert holds the metapage. */
  predicate Holds(proc: Proc) {
    proc.Insert? && (proc.phase.Looping? || proc.phase.Allocating? || proc.phase.Asked? || proc.phase.Extended?)
  }

  ghost predicate OwnerOk(s: State) {
    && (s.owner.Some? ==> s.owner.value in s.procs)
    && forall pid :: pid in s.procs ==> (Holds(s.procs[pid]) <==> s.owner == Some(pid))
  }

  /** What is owed on a page still ahead is there or has been removed; removal is counted. */
  ghost predicate Owed(s: State, owed: set<Place>, before: multiset<Tuple>, next: Blk) {
    forall x :: x in owed && x.blk >= next && s.removed[x.tuple] == before[x.tuple] ==>
      x.blk < |s.pages| && x.tuple in TuplesOf(s.pages[x.blk])
  }

  /** Every matching tuple owed on a page already visited is in the bitmap, unless it has been removed since. */
  ghost predicate Found(s: State, proc: Proc)
    requires proc.Scan?
  {
    forall x :: x in proc.owed && x.blk < proc.next && s.removed[x.tuple] == proc.before[x.tuple] ==>
      Covers(x.tuple.sign, proc.sign) ==> x.tuple.heapPtr in proc.bitmap
  }

  /** Every tuple named and owed on a page already visited has been removed. */
  ghost predicate Removed(s: State, proc: Proc)
    requires proc.Delete?
  {
    forall x :: x in proc.owed && x.blk < proc.next && x.tuple.heapPtr in proc.dead ==>
      s.removed[x.tuple] > proc.before[x.tuple]
  }

  ghost predicate InsertOk(s: State, proc: Proc)
    requires proc.Insert?
  {
    && |proc.tuple.sign| == s.o.bloomLength
    && (proc.phase.Hinted? ==> Known(s, proc.phase.hint))
    && (proc.phase.Looping? ==> s.nStart <= proc.phase.n <= s.nEnd)
    && (proc.phase.Asked? ==> proc.phase.free < |s.pages|)
    && (proc.phase.Extended? ==> 1 <= proc.phase.blk < |s.pages| && s.pages[proc.phase.blk].New?)
  }

  ghost predicate DeleteOk(s: State, proc: Proc)
    requires proc.Delete?
  {
    && 1 <= proc.next && proc.npages <= |s.pages|
    && |proc.list| <= BloomMetaBlockN && Distinct(proc.list)
    && (forall i :: 0 <= i < |proc.list| ==> proc.list[i] < proc.next && Known(s, proc.list[i]))
    && (forall x :: x in proc.owed ==> 1 <= x.blk < proc.npages)
    && (forall t :: s.removed[t] >= proc.before[t])
    && Owed(s, proc.owed, proc.before, proc.next) && Removed(s, proc)
  }

  ghost predicate ScanOk(s: State, proc: Proc)
    requires proc.Scan?
  {
    && 1 <= proc.next && proc.npages <= |s.pages| && |proc.sign| == s.o.bloomLength
    && (forall x :: x in proc.owed ==> 1 <= x.blk < proc.npages)
    && (forall t :: s.removed[t] >= proc.before[t])
    && Owed(s, proc.owed, proc.before, proc.next) && Found(s, proc)
  }

  ghost predicate ProcOk(s: State, proc: Proc) {
    match proc
    case Insert(_, _) => InsertOk(s, proc)
    case Delete(_, _, _, _, _, _) => DeleteOk(s, proc)
    case Cleanup(npages, next) => npages <= |s.pages|
    case Scan(_, _, _, _, _, _) => ScanOk(s, proc)
  }

  ghost predicate ProcsOk(s: State) {
    forall pid :: pid in s.procs ==> ProcOk(s, s.procs[pid])
  }

  /** The tuples stored on all pages, counted. */
  ghost function Contents(pages: seq<PageView>): multiset<Tuple> {
    if pages == [] then multiset{} else Contents(pages[..|pages| - 1]) + multiset(TuplesOf(pages[|pages| - 1]))
  }

  /** Nothing is lost, nothing is stored twice: what is stored is what was inserted less what was removed. */
  ghost predicate Conserved(s: State) {
    Contents(s.pages) + s.removed == s.inserted
  }

  ghost predicate FsmOk(s: State) { forall b :: b in s.fsm ==> b < |s.pages| }

  ghost predicate Inv(s: State) {
    PagesOk(s) && WindowOk(s) && OwnerOk(s) && ProcsOk(s) && Conserved(s) && FsmOk(s)
  }

  /** Right after blbuild of these rows. */
  ghost predicate Init(s: State, rows: seq<Tuple>) {
    && ValidOptions(s.o)
    && |s.pages| >= 1 && s.pages[0] == Data(false, [])
    && (forall b :: 1 <= b < |s.pages| ==> FullPage(s.o, s.pages[b]))
    && Stored(s.pages[1..]) == rows
    && s.nStart == 0 && s.nEnd == 0 && |s.notFullPage| == BloomMetaBlockN
    && s.fsm == {} && s.owner.None? && s.procs == map[]
    && s.inserted == multiset(rows) && s.removed == multiset{}
  }
}
