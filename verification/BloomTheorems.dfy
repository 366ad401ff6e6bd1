/** What holds on every run of the bloom index. */
module BloomTheorems {
  import opened Wrappers
  import opened BloomSignature
  import opened BloomPages
  import opened BloomProtocol
  import opened BloomInvariant

  // ---- Runs ----

  /** A run from a freshly built index, one enabled step after the other, by any processes in any order. */
  ghost predicate Run(rows: seq<Tuple>, states: seq<State>, steps: seq<Step>) {
    && |states| == |steps| + 1
    && Init(states[0], rows)
    && forall i :: 0 <= i < |steps| ==> Next(states, steps, i)
  }

  ghost predicate Next(states: seq<State>, steps: seq<Step>, i: nat)
    requires |states| == |steps| + 1 && i < |steps|
  {
    Enabled(states[i], steps[i]) && states[i + 1] == Apply(states[i], steps[i])
  }

  lemma StoredLast(pages: seq<PageView>)
    requires |pages| > 1
    ensures Stored(pages[1..]) == Stored(pages[..|pages| - 1][1..]) + TuplesOf(pages[|pages| - 1])
  {
    assert pages[1..][..|pages| - 2] == pages[..|pages| - 1][1..];
  }

  lemma {:induction false} ContentsAreStored(pages: seq<PageView>)
    requires |pages| >= 1 && pages[0] == Data(false, [])
    ensures Contents(pages) == multiset(Stored(pages[1..]))
  {
    var n := |pages| - 1;
    if n == 0 {
      assert pages[1..] == [] && pages[..0] == [];
    } else {
      hide TuplesOf;
      ContentsAreStored(pages[..n]);
      StoredLast(pages);
    }
  }

  /** The state after blbuild: the metapage, the pages built, an empty window. */
  function AfterBuild(o: Options, rows: seq<Tuple>, built: seq<PageView>): State {
    State(o, [Data(false, [])] + built, 0, 0, seq(BloomMetaBlockN, _ => 0), {}, None, map[], multiset(rows), multiset{})
  }

  /** What BloomPages.Build returns starts a run. */
  lemma BuildStartsRun(o: Options, rows: seq<Tuple>, built: seq<PageView>)
    requires ValidOptions(o) && Stored(built) == rows && forall i :: 0 <= i < |built| ==> FullPage(o, built[i])
    ensures Run(rows, [AfterBuild(o, rows, built)], [])
  {
    hide FullPage, Stored;
    var s := AfterBuild(o, rows, built);
    assert s.pages[1..] == built;
    forall b | 1 <= b < |s.pages| ensures FullPage(s.o, s.pages[b]) {
      assert s.pages[b] == built[b - 1];
    }
  }

  lemma InitHasInv(s: State, rows: seq<Tuple>)
    requires Init(s, rows)
    ensures Inv(s)
  {
    ContentsAreStored(s.pages);
    assert Window(s) == [];
    assert GoodPage(s.o, s.pages[0]);
    assert PagesOk(s) && WindowOk(s) && OwnerOk(s) && FsmOk(s);
    hide GoodPage, Contents;
    assert ProcsOk(s);
    assert Conserved(s);
  }

  lemma {:induction false} RunKeepsInv(rows: seq<Tuple>, states: seq<State>, steps: seq<Step>, i: nat)
    requires Run(rows, states, steps) && i < |states|
    ensures Inv(states[i])
  {
    hide Init, Inv, Enabled, Apply;
    if i == 0 {
      InitHasInv(states[0], rows);
    } else {
      RunKeepsInv(rows, states, steps, i - 1);
      assert Next(states, steps, i - 1);
      StepKeepsInv(states[i - 1], steps[i - 1]);
    }
  }

  // ---- Contents ----

  /** On every reachable state the stored tuples are those inserted less those removed, each as often; a deleted page
      holds none; the window holds distinct, initialised data pages. */
  lemma ContentsOnEveryRun(rows: seq<Tuple>, states: seq<State>, steps: seq<Step>, i: nat)
    requires Run(rows, states, steps) && i < |states|
    ensures var s := states[i];
            && Contents(s.pages) + s.removed == s.inserted
            && s.nStart <= s.nEnd <= |s.notFullPage|
            && Distinct(Window(s))
            && (forall k :: s.nStart <= k < s.nEnd ==>
                  1 <= s.notFullPage[k] < |s.pages| && !s.pages[s.notFullPage[k]].New?)
            && (forall b :: 0 <= b < |s.pages| && Reusable(s.pages[b]) ==> TuplesOf(s.pages[b]) == [])
  {
    RunKeepsInv(rows, states, steps, i);
    var s := states[i];
    assert PagesOk(s) && WindowOk(s) && Conserved(s);
    forall b | 0 <= b < |s.pages| && Reusable(s.pages[b]) ensures TuplesOf(s.pages[b]) == [] {
      ReusableIsEmpty(s, b);
    }
  }

  /** A page BloomNewBuffer hands out, recycled or by extension, is a data page with nothing on it, and takes the
      tuple. */
  lemma NewBufferIsEmpty(s: State, step: Step)
    requires Inv(s) && Enabled(s, step)
    requires step.FillExtended? || (step.UseFree? && step.locked && Reusable(s.pages[s.procs[step.pid].phase.free]))
    ensures var b := if step.FillExtended? then s.procs[step.pid].phase.blk else s.procs[step.pid].phase.free;
            && 1 <= b < |s.pages| && TuplesOf(s.pages[b]) == []
            && Apply(s, step).pages == s.pages[b := Data(false, [s.procs[step.pid].tuple])]
            && AddTo(s.o, s.pages[b], s.procs[step.pid].tuple) == Some(Data(false, [s.procs[step.pid].tuple]))
  {
    WindowKnown(s, step.pid);
    GoodSingle(s.o, s.procs[step.pid].tuple);
    var b := if step.FillExtended? then s.procs[step.pid].phase.blk else s.procs[step.pid].phase.free;
    ReusableIsEmpty(s, b);
    ReusableIsData(s, b);
    hide Inv;
  }

  /** Only what the callback names is ever removed, and only by deletion. */
  lemma OnlyNamedAreRemoved(s: State, step: Step, t: Tuple)
    requires Inv(s) && Enabled(s, step) && Apply(s, step).removed[t] != s.removed[t]
    ensures step.DeletePage? && t.heapPtr in s.procs[step.pid].dead
  {
    hide Inv, Places, Fits, AddTo, Listed, Matching;
    if step.DeletePage? {
      var proc := s.procs[step.pid];
      if t.heapPtr !in proc.dead {
        SurvivorsCount(s.pages[proc.next], proc.dead, t);
      }
    }
  }

  lemma SurvivorsCount(p: PageView, dead: set<Tid>, t: Tuple)
    requires t.heapPtr !in dead
    ensures multiset(TuplesOf(Vacuumed(p, u => u in dead)))[t] == multiset(TuplesOf(p))[t]
  {
    if !Reusable(p) {
      SurvivorCounts(p.tuples, u => u in dead, t);
    }
  }

  lemma {:induction false} SurvivorCounts(tuples: seq<Tuple>, dead: Tid -> bool, t: Tuple)
    requires !dead(t.heapPtr)
    ensures multiset(Survivors(tuples, dead))[t] == multiset(tuples)[t]
  {
    if tuples != [] {
      var n := |tuples| - 1;
      SurvivorCounts(tuples[..n], dead, t);
      assert tuples == tuples[..n] + [tuples[n]];
    }
  }

  // ---- Scans and deletions over whole runs ----

  /** It has gone over all its pages. */
  predicate Finished(proc: Proc) {
    (proc.Scan? || proc.Delete? || proc.Cleanup?) ==> proc.next >= proc.npages
  }

  /** What an operation started with. */
  ghost predicate SameOperation(p: Proc, q: Proc) {
    match p
    case Scan(sign, npages, _, _, owed, before) =>
      q.Scan? && q.sign == sign && q.npages == npages && q.owed == owed && q.before == before
    case Delete(dead, npages, _, _, owed, before) =>
      q.Delete? && q.dead == dead && q.npages == npages && q.owed == owed && q.before == before
    case _ => true
  }

  lemma StaysSame(s: State, step: Step, pid: Pid)
    requires Enabled(s, step) && pid in s.procs && pid in Apply(s, step).procs
    ensures SameOperation(s.procs[pid], Apply(s, step).procs[pid])
  {
    if Actor(step) != Some(pid) {
      OtherUntouched(s, step, pid);
    } else {
      OwnStep(s, step);
    }
  }

  lemma OwnStep(s: State, step: Step)
    requires Enabled(s, step) && Actor(step).Some? && step.pid in s.procs && step.pid in Apply(s, step).procs
    ensures SameOperation(s.procs[step.pid], Apply(s, step).procs[step.pid])
  {
    hide Places, Fits, AddTo, Listed, Matching, Vacuumed, TuplesOf;
  }

  /** While its process is there, an operation keeps what it started with. */
  lemma {:induction false} RunsOn(rows: seq<Tuple>, states: seq<State>, steps: seq<Step>, i: nat, j: nat, pid: Pid)
    requires Run(rows, states, steps) && i <= j < |states|
    requires forall k :: i <= k <= j ==> pid in states[k].procs
    ensures SameOperation(states[i].procs[pid], states[j].procs[pid])
    decreases j - i
  {
    hide Init, Enabled, Apply;
    if i < j {
      RunsOn(rows, states, steps, i, j - 1, pid);
      assert Next(states, steps, j - 1);
      StaysSame(states[j - 1], steps[j - 1], pid);
    }
  }

  /** No false negatives, on any run: when a scan has gone over all its pages, every tuple that was stored when it
      started, and has not been removed since, is in the bitmap if its signature covers the scan's. */
  lemma ScanFindsAll(rows: seq<Tuple>, states: seq<State>, steps: seq<Step>, i: nat, j: nat, pid: Pid, sign: Words,
                     b: Blk, t: Tuple)
    requires Run(rows, states, steps) && i < j < |states|
    requires steps[i] == StartScan(pid, sign) && forall k :: i < k <= j ==> pid in states[k].procs
    requires Finished(states[j].procs[pid])
    requires 1 <= b < |states[i].pages| && t in TuplesOf(states[i].pages[b])
    requires states[j].removed[t] == states[i].removed[t] && Covers(t.sign, sign)
    ensures states[j].procs[pid].Scan? && t.heapPtr in states[j].procs[pid].bitmap
  {
    assert Next(states, steps, i);
    RunsOn(rows, states, steps, i + 1, j, pid);
    RunKeepsInv(rows, states, steps, j);
    assert Place(b, t) in Places(states[i].pages);
    assert states[i + 1].procs[pid]
           == Scan(sign, |states[i].pages|, BLOOM_HEAD_BLKNO, {}, Places(states[i].pages), states[i].removed);
    hide Run, Apply, Enabled, Places, Covers;
    var proc := states[j].procs[pid];
    assert ProcOk(states[j], proc) && Found(states[j], proc);
    hide Inv, ProcOk, ScanOk;
    assert Place(b, t) in proc.owed && Place(b, t).blk < proc.next;
  }

  /** Own step of a scan that goes on: it takes from its next page the pointers of tuples whose signature covers its
      own. */
  lemma ScanTakes(s: State, step: Step, pid: Pid, tid: Tid) returns (t: Tuple)
    requires Enabled(s, step) && Actor(step) == Some(pid) && pid in s.procs && s.procs[pid].Scan?
    requires pid in Apply(s, step).procs && Apply(s, step).procs[pid].Scan?
    requires tid in Apply(s, step).procs[pid].bitmap && tid !in s.procs[pid].bitmap
    ensures step.ScanPage? && s.procs[pid].next < |s.pages|
    ensures t in TuplesOf(s.pages[s.procs[pid].next]) && t.heapPtr == tid && Covers(t.sign, s.procs[pid].sign)
  {
    hide Places, Fits, AddTo, Listed, Matching, Vacuumed, Covers;
    var p := s.pages[s.procs[pid].next];
    MatchingOnly(p.tuples, s.procs[pid].sign, tid);
    t :| t in p.tuples && t.heapPtr == tid && Covers(t.sign, s.procs[pid].sign);
  }

  /** Step k of the run has the scan read a page with a tuple of that pointer whose signature covers the scan's. */
  ghost predicate TakenAt(states: seq<State>, steps: seq<Step>, k: nat, pid: Pid, sign: Words, tid: Tid)
    requires k < |steps| && k < |states|
  {
    && steps[k] == ScanPage(pid) && pid in states[k].procs && states[k].procs[pid].Scan?
    && states[k].procs[pid].next < |states[k].pages|
    && exists t :: t in TuplesOf(states[k].pages[states[k].procs[pid].next]) && t.heapPtr == tid && Covers(t.sign, sign)
  }

  /** Nothing else gets into the bitmap, on any run: each pointer in it was taken, while the scan was going on, from a
      tuple stored on the page it was reading whose signature covers the scan's. */
  lemma {:induction false} BitmapIsTaken(rows: seq<Tuple>, states: seq<State>, steps: seq<Step>, i: nat, j: nat,
                                         pid: Pid, sign: Words, tid: Tid)
    requires Run(rows, states, steps) && i < j < |states|
    requires steps[i] == StartScan(pid, sign) && forall k :: i < k <= j ==> pid in states[k].procs
    ensures states[j].procs[pid].Scan?
    ensures tid in states[j].procs[pid].bitmap ==> exists k :: i < k < j && TakenAt(states, steps, k, pid, sign, tid)
    decreases j
  {
    hide Next, Init, Enabled, Apply, Covers, Places, Actor;
    ScanBegins(rows, states, steps, i, pid, sign);
    RunsOn(rows, states, steps, i + 1, j, pid);
    if i + 1 < j && tid in states[j].procs[pid].bitmap {
      BitmapIsTaken(rows, states, steps, i, j - 1, pid, sign, tid);
      RunsOn(rows, states, steps, i + 1, j - 1, pid);
      StepOfRun(rows, states, steps, j - 1);
      if Actor(steps[j - 1]) != Some(pid) {
        OtherUntouched(states[j - 1], steps[j - 1], pid);
      } else if tid !in states[j - 1].procs[pid].bitmap {
        OwnIs(steps[j - 1], pid);
        var t := ScanTakes(states[j - 1], steps[j - 1], pid, tid);
        assert TakenAt(states, steps, j - 1, pid, sign, tid);
      }
    }
  }

  lemma OwnIs(step: Step, pid: Pid)
    requires Actor(step) == Some(pid)
    ensures step.ScanPage? ==> step == ScanPage(pid)
  {
  }

  lemma StepOfRun(rows: seq<Tuple>, states: seq<State>, steps: seq<Step>, k: nat)
    requires Run(rows, states, steps) && k < |steps|
    ensures Enabled(states[k], steps[k]) && states[k + 1] == Apply(states[k], steps[k])
  {
    hide Init, Enabled, Apply;
    assert Next(states, steps, k);
  }

  lemma ScanBegins(rows: seq<Tuple>, states: seq<State>, steps: seq<Step>, i: nat, pid: Pid, sign: Words)
    requires Run(rows, states, steps) && i < |steps| && steps[i] == StartScan(pid, sign)
    ensures pid in states[i + 1].procs
    ensures states[i + 1].procs[pid]
            == Scan(sign, |states[i].pages|, BLOOM_HEAD_BLKNO, {}, Places(states[i].pages), states[i].removed)
  {
    hide Init, Places;
    assert Next(states, steps, i);
  }

  /** So a row whose columns equal all keys of the scan is found. */
  lemma RowIsFound(rows: seq<Tuple>, states: seq<State>, steps: seq<Step>, i: nat, j: nat, pid: Pid,
                   b: Blk, t: Tuple, columns: seq<Column>, keys: seq<Key>)
    requires Run(rows, states, steps) && i < j < |states| && ValidOptions(states[i].o)
    requires SignableRow(states[i].o, columns) && SignableKeys(states[i].o, keys) && KeysHold(columns, keys)
    requires steps[i] == StartScan(pid, KeysSignature(states[i].o, keys, |keys|))
    requires forall k :: i < k <= j ==> pid in states[k].procs
    requires Finished(states[j].procs[pid])
    requires 1 <= b < |states[i].pages| && t in TuplesOf(states[i].pages[b])
    requires t.sign == RowSignature(states[i].o, columns, |columns|)
    requires states[j].removed[t] == states[i].removed[t]
    ensures states[j].procs[pid].Scan? && t.heapPtr in states[j].procs[pid].bitmap
  {
    RowCoversKeys(states[i].o, columns, keys, |keys|);
    hide Covers, RowSignature, KeysSignature, Run;
    ScanFindsAll(rows, states, steps, i, j, pid, KeysSignature(states[i].o, keys, |keys|), b, t);
  }

  /** When a deletion has gone over all its pages, every tuple its callback names that was stored when it started has
      been removed. */
  lemma DeletionRemovesAll(rows: seq<Tuple>, states: seq<State>, steps: seq<Step>, i: nat, j: nat, pid: Pid,
                           dead: set<Tid>, b: Blk, t: Tuple)
    requires Run(rows, states, steps) && i < j < |states|
    requires steps[i] == StartDelete(pid, dead) && forall k :: i < k <= j ==> pid in states[k].procs
    requires Finished(states[j].procs[pid])
    requires 1 <= b < |states[i].pages| && t in TuplesOf(states[i].pages[b]) && t.heapPtr in dead
    ensures states[j].removed[t] > states[i].removed[t]
  {
    assert Next(states, steps, i);
    RunsOn(rows, states, steps, i + 1, j, pid);
    RunKeepsInv(rows, states, steps, j);
    assert Place(b, t) in Places(states[i].pages);
    assert states[i + 1].procs[pid]
           == Delete(dead, |states[i].pages|, BLOOM_HEAD_BLKNO, [], Places(states[i].pages), states[i].removed);
    hide Run, Apply, Enabled, Places;
    var proc := states[j].procs[pid];
    assert ProcOk(states[j], proc) && Removed(states[j], proc);
    hide Inv, ProcOk, DeleteOk;
    assert Place(b, t) in proc.owed && Place(b, t).blk < proc.next;
  }
}
