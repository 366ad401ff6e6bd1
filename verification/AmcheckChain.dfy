/** Downlink connectivity: what the child pages stepped on by a clean level check look like. */
module AmcheckChain {
  import opened BTreePages
  import opened AmcheckSpec

  // ---- Chains, marks and excuses ----

  function Blocks(path: seq<Visit>): (bs: seq<Block>)
    ensures |bs| == |path|
    ensures forall i :: 0 <= i < |path| ==> bs[i] == path[i].blk
  {
    seq(|path|, i requires 0 <= i < |path| => path[i].blk)
  }

  /** The visits made for a downlink, left to right. */
  function Marks(path: seq<Visit>): seq<Block> {
    if path == [] then []
    else if path[0].viaDownlink then [path[0].blk] + Marks(path[1..])
    else Marks(path[1..])
  }

  /** The downlinks of a page from an offset on, negative infinity item included. */
  function DownlinksFrom(page: Page, offset: nat): seq<Block>
    requires 1 <= offset
    decreases |page.items| + 1 - offset
  {
    if page.leaf || offset > |page.items| then [] else [page.items[offset - 1].link] + DownlinksFrom(page, offset + 1)
  }

  function Downlinks(page: Page): seq<Block> {
    if page.Ignore() then [] else DownlinksFrom(page, page.FirstDataKey())
  }

  /** The downlinks of a level, left to right. */
  function LevelDownlinks(store: Store, targets: seq<Block>): seq<Block> {
    if targets == [] then [] else
    (if targets[0] in store then Downlinks(store[targets[0]]) else []) + LevelDownlinks(store, targets[1..])
  }

  /** First downlinks lead from a page to a half-dead leaf whose high key names blk as the top parent. */
  ghost predicate DeletionPath(store: Store, blk: Block, from: Block, chain: seq<Block>)
    decreases |chain|
  {
    && |chain| >= 1 && chain[0] == from && from in store
    && var p := store[from];
       if |chain| == 1 then
         p.leaf && p.halfDead && !p.deleted && !p.Rightmost() && |p.items| >= 1 && p.items[0].link == blk
       else
         !p.leaf && p.FirstDataKey() <= |p.items|
           && DeletionPath(store, blk, p.items[p.FirstDataKey() - 1].link, chain[1..])
  }

  ghost predicate TopParentRecorded(store: Store, blk: Block) {
    && blk in store && !store[blk].leaf
    && exists chain :: DeletionPath(store, blk, blk, chain)
  }

  /** Why a live page of the child level may lack a downlink. */
  ghost predicate Excused(store: Store, blk: Block, afterSplit: bool)
    requires blk in store
  {
    afterSplit || store[blk].root || TopParentRecorded(store, blk)
  }

  /** path follows right links from blk, each page either reached for a downlink or excused; nothing is said
      past a page whose right link is InvalidBlockNumber. */
  ghost predicate Segment(store: Store, blk: Block, split: bool, path: seq<Visit>)
    decreases |path|
  {
    path != [] ==>
    && path[0].blk == blk && blk != P_NONE && blk in store
    && (path[0].viaDownlink || store[blk].Ignore() || Excused(store, blk, split))
    && (store[blk].next == InvalidBlockNumber || Segment(store, store[blk].next, store[blk].incompleteSplit, path[1..]))
  }

  ghost predicate Stored(store: Store, path: seq<Visit>) {
    forall v <- path :: v.blk in store
  }

  /** No page of the path has InvalidBlockNumber as its right link. */
  ghost predicate Unbroken(store: Store, path: seq<Visit>) {
    forall v <- path :: v.blk in store && store[v.blk].next != InvalidBlockNumber
  }

  /** Where a path leaves off. */
  ghost function EndOf(store: Store, start: Carry, path: seq<Visit>): Carry
    requires Stored(store, path)
  {
    if path == [] then start else
    var last := path[|path| - 1].blk;
    Carry(store[last].next, store[last].incompleteSplit)
  }

  lemma {:induction false} MarksConcat(p: seq<Visit>, q: seq<Visit>)
    ensures Marks(p + q) == Marks(p) + Marks(q)
  {
    if p == [] {
      assert p + q == q;
    } else {
      MarksConcat(p[1..], q);
      assert (p + q)[1..] == p[1..] + q;
    }
  }

  lemma {:induction false} SegmentConcat(store: Store, start: Carry, p: seq<Visit>, q: seq<Visit>)
    requires Segment(store, start.rightlink, start.incomplete, p) && Stored(store, p)
    requires var e := EndOf(store, start, p);
             (p != [] && e.rightlink == InvalidBlockNumber) || Segment(store, e.rightlink, e.incomplete, q)
    ensures Segment(store, start.rightlink, start.incomplete, p + q)
    decreases |p|
  {
    if p == [] {
      assert p + q == q;
    } else {
      assert (p + q)[1..] == p[1..] + q;
      var page := store[p[0].blk];
      if page.next != InvalidBlockNumber {
        SegmentConcat(store, Carry(page.next, page.incompleteSplit), p[1..], q);
      }
    }
  }

  // ---- One walk along the child level ----

  lemma {:induction false} DescentFindsTopParent(store: Store, blk: Block, child: Block, level: nat, fuel: nat)
    returns (chain: seq<Block>)
    requires TopParentDescent(store, blk, child, level, fuel).Clean?
    ensures DeletionPath(store, blk, child, chain)
    decreases fuel
  {
    var c := store[child];
    if c.leaf {
      chain := [child];
    } else {
      var rest := DescentFindsTopParent(store, blk, c.items[c.FirstDataKey() - 1].link, c.level, fuel - 1);
      chain := [child] + rest;
      assert chain[1..] == rest;
    }
  }

  lemma MissingDownlinkIsExcused(store: Store, rightsplit: bool, blk: Block, fuel: nat)
    requires blk in store
    requires DownlinkMissing(store, rightsplit, blk, store[blk], fuel).Clean?
    ensures Excused(store, blk, rightsplit)
  {
    var page := store[blk];
    if !page.root && !rightsplit {
      var rest := DescentFindsTopParent(store, blk, page.items[page.FirstDataKey() - 1].link, page.level, fuel);
      assert ([blk] + rest)[1..] == rest;
      assert DeletionPath(store, blk, blk, [blk] + rest);
    }
  }

  lemma {:induction false} WalkShape(store: Store, t: Target, offset: nat, downlink: Block, prev: Block,
                                     blk: Block, rightsplit: bool, first: bool, steps: nat, fuel: nat)
    requires HighkeyWalk(store, t, offset, downlink, prev, blk, rightsplit, first, steps, fuel).Clean?
    ensures var w := HighkeyWalk(store, t, offset, downlink, prev, blk, rightsplit, first, steps, fuel).value;
            && Segment(store, blk, rightsplit, w.path)
            && Stored(store, w.path)
            && (blk == downlink != P_NONE ==> w.path == [Visit(blk, true)])
            && (downlink != P_NONE ==>
                  w.path != [] && Marks(w.path) == [downlink] && w.carry == EndOf(store, NoCarry, w.path))
            && (downlink == P_NONE ==> Marks(w.path) == [] && w.carry == NoCarry
                                       && EndOf(store, Carry(blk, rightsplit), w.path).rightlink == P_NONE)
    decreases steps
  {
    if blk != P_NONE {
      var page := store[blk];
      if blk != downlink {
        if !page.Ignore() {
          MissingDownlinkIsExcused(store, rightsplit, blk, fuel);
        }
        WalkShape(store, t, offset, downlink, prev, page.next, page.incompleteSplit, false, steps - 1, fuel);
        var rest := HighkeyWalk(store, t, offset, downlink, prev, page.next, page.incompleteSplit, false, steps - 1,
                                fuel).value;
        assert ([Visit(blk, false)] + rest.path)[1..] == rest.path;
      }
    }
  }

  /** What a clean walk says about the page a downlink leads to. */
  lemma {:induction false} WalkReachesChild(store: Store, t: Target, offset: nat, downlink: Block, prev: Block,
                                            blk: Block, rightsplit: bool, first: bool, steps: nat, fuel: nat)
    requires HighkeyWalk(store, t, offset, downlink, prev, blk, rightsplit, first, steps, fuel).Clean?
    requires downlink != P_NONE
    ensures downlink in store && HighKeyMatches(t, store[downlink], offset + 1).Clean?
    decreases steps
  {
    if blk != downlink {
      var page := store[blk];
      WalkReachesChild(store, t, offset, downlink, prev, page.next, page.incompleteSplit, false, steps - 1, fuel);
    }
  }

  /** Every page passed over without downlink has a right link that can be followed. */
  ghost predicate GoesOn(store: Store, path: seq<Visit>) {
    forall v <- path :: !v.viaDownlink ==> v.blk in store && store[v.blk].next != InvalidBlockNumber
  }

  lemma GoesOnConcat(store: Store, p: seq<Visit>, q: seq<Visit>)
    requires GoesOn(store, p) && GoesOn(store, q)
    ensures GoesOn(store, p + q)
  {
  }

  /** A walk that steps over a page reads the next one, which InvalidBlockNumber is not. */
  lemma {:induction false} WalkGoesOn(store: Store, t: Target, offset: nat, downlink: Block, prev: Block,
                                      blk: Block, rightsplit: bool, first: bool, steps: nat, fuel: nat)
    requires HighkeyWalk(store, t, offset, downlink, prev, blk, rightsplit, first, steps, fuel).Clean?
    ensures GoesOn(store, HighkeyWalk(store, t, offset, downlink, prev, blk, rightsplit, first, steps, fuel).value.path)
    ensures blk != InvalidBlockNumber
    decreases steps
  {
    if blk == P_NONE {
    } else if blk != downlink {
      var page := store[blk];
      WalkGoesOn(store, t, offset, downlink, prev, page.next, page.incompleteSplit, false, steps - 1, fuel);
      var rest := HighkeyWalk(store, t, offset, downlink, prev, page.next, page.incompleteSplit, false, steps - 1,
                              fuel).value;
      GoesOnConcat(store, [Visit(blk, false)], rest.path);
    }
  }

  // ---- One target page ----

  /** Where the walks for a run of downlinks begin. */
  function Begin(carry: Carry, downlinks: seq<Block>): Carry {
    if carry.rightlink != InvalidBlockNumber then carry
    else Carry(if downlinks == [] then P_NONE else downlinks[0], false)
  }

  /** A path that starts where it should, takes exactly the downlinks, and starts leftmost if it starts afresh. */
  ghost predicate Shape(store: Store, carry: Carry, downlinks: seq<Block>, path: seq<Visit>) {
    var b := Begin(carry, downlinks);
    && Stored(store, path)
    && Segment(store, b.rightlink, b.incomplete, path)
    && Marks(path) == downlinks
    && (carry.rightlink == InvalidBlockNumber && downlinks != [] ==>
          path != [] && path[0] == Visit(downlinks[0], true) && downlinks[0] in store && store[downlinks[0]].Leftmost())
  }

  lemma CheckShape(store: Store, t: Target, offset: nat, carry: Carry, fuel: nat)
    requires 1 <= offset <= |t.page.items| && t.page.items[offset - 1].link != P_NONE
    requires HighkeyCheck(store, t, offset, carry, fuel).Clean?
    ensures var w := HighkeyCheck(store, t, offset, carry, fuel).value;
            && Shape(store, carry, [t.page.items[offset - 1].link], w.path)
            && w.path != [] && w.carry == EndOf(store, NoCarry, w.path)
  {
    var d := t.page.items[offset - 1].link;
    var b := Begin(carry, [d]);
    WalkShape(store, t, offset, d, carry.rightlink, b.rightlink, b.incomplete, true, fuel, fuel);
  }

  /** The step of one downlink inside the item loop. */
  lemma DownlinkStep(store: Store, nkeyatts: nat, t: Target, offset: nat, carry: Carry, fuel: nat)
    returns (here: Walked, rest: Walked)
    requires 1 <= offset <= |t.page.items| && !t.page.leaf
    requires ItemsFrom(store, nkeyatts, t, offset, carry, fuel).Clean?
    ensures HighkeyCheck(store, t, offset, carry, fuel) == Clean(here)
    ensures ItemsFrom(store, nkeyatts, t, offset + 1, here.carry, fuel) == Clean(rest)
    ensures ItemsFrom(store, nkeyatts, t, offset, carry, fuel).value == Walked(rest.carry, here.path + rest.path)
  {
    here := HighkeyCheck(store, t, offset, carry, fuel).value;
    rest := ItemsFrom(store, nkeyatts, t, offset + 1, here.carry, fuel).value;
  }

  lemma CheckGoesOn(store: Store, t: Target, offset: nat, carry: Carry, fuel: nat)
    requires HighkeyCheck(store, t, offset, carry, fuel).Clean?
    ensures GoesOn(store, HighkeyCheck(store, t, offset, carry, fuel).value.path)
  {
    hide HighkeyWalk;
    var downlink := if offset == InvalidOffsetNumber then P_NONE else t.page.items[offset - 1].link;
    var unlinked := carry.rightlink == InvalidBlockNumber;
    WalkGoesOn(store, t, offset, downlink, carry.rightlink, if unlinked then downlink else carry.rightlink,
               !unlinked && carry.incomplete, true, fuel, fuel);
  }

  lemma {:induction false} ItemsGoOn(store: Store, nkeyatts: nat, t: Target, offset: nat, carry: Carry, fuel: nat)
    requires 1 <= offset && ItemsFrom(store, nkeyatts, t, offset, carry, fuel).Clean?
    ensures GoesOn(store, ItemsFrom(store, nkeyatts, t, offset, carry, fuel).value.path)
    decreases |t.page.items| + 1 - offset
  {
    hide HighkeyCheck, ItemCheck, NattsOk, LowerBoundHolds;
    if offset > |t.page.items| {
      if !t.page.leaf && t.page.Rightmost() {
        CheckGoesOn(store, t, InvalidOffsetNumber, carry, fuel);
      }
    } else if t.page.leaf {
      var rest := ItemsFrom(store, nkeyatts, t, offset + 1, carry, fuel).value;
      ItemsGoOn(store, nkeyatts, t, offset + 1, carry, fuel);
      assert [] + rest.path == rest.path;
    } else {
      var here, rest := DownlinkStep(store, nkeyatts, t, offset, carry, fuel);
      CheckGoesOn(store, t, offset, carry, fuel);
      ItemsGoOn(store, nkeyatts, t, offset + 1, here.carry, fuel);
      GoesOnConcat(store, here.path, rest.path);
    }
  }

  /** Putting a clean stretch before another. */
  lemma ShapeConcat(store: Store, carry: Carry, d1: seq<Block>, p1: seq<Visit>, d2: seq<Block>, p2: seq<Visit>)
    requires Shape(store, carry, d1, p1) && p1 != [] && d1 != []
    requires Shape(store, EndOf(store, NoCarry, p1), d2, p2)
    ensures Shape(store, carry, d1 + d2, p1 + p2)
  {
    MarksConcat(p1, p2);
    SegmentConcat(store, Begin(carry, d1), p1, p2);
  }

  /** What the items of a page, from some offset on, add to the child chain. */
  ghost predicate ItemsShaped(store: Store, rightmost: bool, carry: Carry, ds: seq<Block>, w: Walked) {
    && Shape(store, carry, ds, w.path)
    && (!rightmost ==> w.carry == EndOf(store, carry, w.path))
    && (rightmost ==> w.carry == NoCarry)
    && (rightmost && Unbroken(store, w.path) ==> EndOf(store, Begin(carry, ds), w.path).rightlink == P_NONE)
  }

  lemma {:induction false} ItemsShape(store: Store, nkeyatts: nat, t: Target, offset: nat, carry: Carry, fuel: nat)
    requires 1 <= offset && !t.page.leaf
    requires ItemsFrom(store, nkeyatts, t, offset, carry, fuel).Clean?
    requires P_NONE !in DownlinksFrom(t.page, offset)
    ensures ItemsShaped(store, t.page.Rightmost(), carry, DownlinksFrom(t.page, offset),
                        ItemsFrom(store, nkeyatts, t, offset, carry, fuel).value)
    decreases |t.page.items| + 1 - offset
  {
    hide HighkeyWalk, HighkeyStep;
    if offset > |t.page.items| {
      if t.page.Rightmost() {
        var b := Begin(carry, []);
        WalkShape(store, t, InvalidOffsetNumber, P_NONE, carry.rightlink, b.rightlink, b.incomplete, true, fuel, fuel);
      }
    } else {
      var here, rest := DownlinkStep(store, nkeyatts, t, offset, carry, fuel);
      CheckShape(store, t, offset, carry, fuel);
      ItemsShape(store, nkeyatts, t, offset + 1, here.carry, fuel);
      JoinItems(store, t.page.Rightmost(), carry, t.page.items[offset - 1].link, here,
                DownlinksFrom(t.page, offset + 1), rest);
    }
  }

  lemma JoinItems(store: Store, rightmost: bool, carry: Carry, d: Block, here: Walked, ds: seq<Block>, rest: Walked)
    requires Shape(store, carry, [d], here.path) && here.path != [] && here.carry == EndOf(store, NoCarry, here.path)
    requires ItemsShaped(store, rightmost, here.carry, ds, rest)
    ensures ItemsShaped(store, rightmost, carry, [d] + ds, Walked(rest.carry, here.path + rest.path))
  {
    hide Segment, Marks;
    ShapeConcat(store, carry, [d], here.path, ds, rest.path);
    EndOfConcat(store, carry, [d], here.path, ds, rest.path);
  }

  lemma EndOfConcat(store: Store, carry: Carry, d1: seq<Block>, p1: seq<Visit>, d2: seq<Block>, p2: seq<Visit>)
    requires p1 != [] && Stored(store, p1) && Stored(store, p2)
    ensures Stored(store, p1 + p2)
    ensures EndOf(store, carry, p1 + p2) == EndOf(store, EndOf(store, NoCarry, p1), p2)
    ensures Unbroken(store, p1 + p2) ==>
              Unbroken(store, p1) && Unbroken(store, p2)
              && EndOf(store, Begin(carry, d1 + d2), p1 + p2) == EndOf(store, Begin(EndOf(store, NoCarry, p1), d2), p2)
  {
    if Unbroken(store, p1 + p2) {
      forall v | v in p1 ensures v in p1 + p2 {}
      forall v | v in p2 ensures v in p1 + p2 {}
      assert p1[|p1| - 1] in p1;
    }
  }

  // ---- One level ----

  /** The pages a clean level check visits hang together by right links, from the first to a rightmost page. */
  ghost predicate RightLinked(store: Store, targets: seq<Block>)
    decreases |targets|
  {
    && |targets| >= 1 && targets[0] in store && targets[0] != P_NONE
    && if |targets| == 1 then store[targets[0]].next == P_NONE
       else store[targets[0]].next == targets[1] && RightLinked(store, targets[1..])
  }

  /** The level loop, started at the page cur in state s, ends clean with d. */
  ghost predicate LevelRun(store: Store, nkeyatts: nat, level: BtreeLevel, cur: Block, s: LevelState, steps: nat,
                           fuel: nat, d: LevelDone) {
    LevelFrom(store, nkeyatts, level, cur, s, steps, fuel) == Clean(d)
  }

  lemma {:induction false} TargetsLinked(store: Store, nkeyatts: nat, level: BtreeLevel, cur: Block, s: LevelState,
                                         steps: nat, fuel: nat, d: LevelDone)
    requires cur != P_NONE
    requires LevelRun(store, nkeyatts, level, cur, s, steps, fuel, d)
    ensures RightLinked(store, d.targets) && d.targets[0] == cur
    decreases steps
  {
    hide PageOnLevel;
    PageRightlink(store, nkeyatts, level, cur, s, fuel);
    var done := PageOnLevel(store, nkeyatts, level, cur, s, fuel).value;
    if done.rightlink != P_NONE {
      var rest := LevelFrom(store, nkeyatts, level, done.rightlink, done.state, steps - 1, fuel).value;
      TargetsLinked(store, nkeyatts, level, done.rightlink, done.state, steps - 1, fuel, rest);
      assert d.targets == [cur] + rest.targets;
      assert d.targets[1..] == rest.targets;
    }
  }

  lemma PageRightlink(store: Store, nkeyatts: nat, level: BtreeLevel, cur: Block, s: LevelState, fuel: nat)
    requires PageOnLevel(store, nkeyatts, level, cur, s, fuel).Clean?
    ensures cur in store
    ensures var done := PageOnLevel(store, nkeyatts, level, cur, s, fuel).value;
            done.rightlink == store[cur].next && done.state.left == cur
  {
  }

  lemma PageGoesOn(store: Store, nkeyatts: nat, level: BtreeLevel, cur: Block, s: LevelState, fuel: nat)
    requires PageOnLevel(store, nkeyatts, level, cur, s, fuel).Clean?
    ensures GoesOn(store, PageOnLevel(store, nkeyatts, level, cur, s, fuel).value.path)
  {
    hide ItemsFrom, PlaceCheck;
    var page := store[cur];
    if !page.Ignore() {
      ItemsGoOn(store, nkeyatts, Target(page, s.lowkey), page.FirstDataKey(), s.carry, fuel);
    }
  }

  lemma {:induction false} LevelGoesOn(store: Store, nkeyatts: nat, level: BtreeLevel, cur: Block, s: LevelState,
                                       steps: nat, fuel: nat, d: LevelDone)
    requires LevelRun(store, nkeyatts, level, cur, s, steps, fuel, d)
    ensures GoesOn(store, d.path)
    decreases steps
  {
    hide PageOnLevel;
    PageGoesOn(store, nkeyatts, level, cur, s, fuel);
    var done := PageOnLevel(store, nkeyatts, level, cur, s, fuel).value;
    if done.rightlink == P_NONE {
      assert d.path == done.path;
    } else {
      var rest := LevelFrom(store, nkeyatts, level, done.rightlink, done.state, steps - 1, fuel).value;
      LevelGoesOn(store, nkeyatts, level, done.rightlink, done.state, steps - 1, fuel, rest);
      GoesOnConcat(store, done.path, rest.path);
    }
  }

  /** What one page of a level adds: its downlinks extend the child chain. */
  ghost predicate PageShaped(store: Store, cur: Block, s: LevelState, done: PageDone)
    requires cur in store
  {
    var ds := Downlinks(store[cur]);
    && Shape(store, s.carry, ds, done.path)
    && (ds == [] <==> done.path == []) && (ds == [] <==> store[cur].Ignore())
    && (!store[cur].Rightmost() ==> done.state.carry == EndOf(store, s.carry, done.path))
    && (store[cur].Rightmost() ==> done.state.carry == NoCarry && ds != [])
    && (store[cur].Rightmost() && Unbroken(store, done.path) ==>
        EndOf(store, Begin(s.carry, ds), done.path).rightlink == P_NONE)
    && (s.next.leftmost == InvalidBlockNumber && ds != [] ==> done.state.next.leftmost == ds[0])
    && (s.next.leftmost != InvalidBlockNumber || ds == [] ==> done.state.next == s.next)
  }

  lemma PageShape(store: Store, nkeyatts: nat, level: BtreeLevel, cur: Block, s: LevelState, fuel: nat)
    requires level.level != 0 && cur != P_NONE
    requires PageOnLevel(store, nkeyatts, level, cur, s, fuel).Clean?
    requires P_NONE !in Downlinks(store[cur])
    ensures PageShaped(store, cur, s, PageOnLevel(store, nkeyatts, level, cur, s, fuel).value)
  {
    var page := store[cur];
    if !page.Ignore() {
      var t := Target(page, s.lowkey);
      ItemsShape(store, nkeyatts, t, page.FirstDataKey(), s.carry, fuel);
      var ds := Downlinks(page);
      assert |page.items| >= page.FirstDataKey();
      assert ds[0] == page.items[page.FirstDataKey() - 1].link;
      var w := TargetCheck(store, nkeyatts, t, s.carry, fuel).value;
      assert w.path == [] ==> Marks(w.path) == [];
    }
  }

  lemma {:induction false} RightLinkedStored(store: Store, targets: seq<Block>)
    requires RightLinked(store, targets)
    ensures forall b <- targets :: b in store && b != P_NONE && store[b].next != InvalidBlockNumber
    decreases |targets|
  {
    if |targets| > 1 {
      RightLinkedStored(store, targets[1..]);
      forall b | b in targets ensures b in store && b != P_NONE && store[b].next != InvalidBlockNumber {
        assert b == targets[0] || b in targets[1..];
      }
    }
  }

  /** What a clean level says, as one stretch of child chain with the level's downlinks ds as its marks. */
  ghost predicate LevelShape(store: Store, s: LevelState, ds: seq<Block>, path: seq<Visit>, next: BtreeLevel) {
    && Shape(store, s.carry, ds, path)
    && ds != []
    && (Unbroken(store, path) ==> EndOf(store, Begin(s.carry, ds), path).rightlink == P_NONE)
    && (s.next.leftmost == InvalidBlockNumber && s.carry == NoCarry && next.leftmost != InvalidBlockNumber ==>
        next.leftmost == ds[0])
  }

  lemma {:induction false} LevelHasShape(store: Store, nkeyatts: nat, level: BtreeLevel, cur: Block, s: LevelState,
                                         steps: nat, fuel: nat, d: LevelDone)
    requires level.level != 0 && cur != P_NONE
    requires LevelRun(store, nkeyatts, level, cur, s, steps, fuel, d)
    ensures P_NONE !in LevelDownlinks(store, d.targets) ==>
              LevelShape(store, s, LevelDownlinks(store, d.targets), d.path, d.next)
    decreases steps
  {
    hide PageOnLevel;
    PageRightlink(store, nkeyatts, level, cur, s, fuel);
    var done := PageOnLevel(store, nkeyatts, level, cur, s, fuel).value;
    if done.rightlink == P_NONE {
      LastPageShape(store, nkeyatts, level, cur, s, steps, fuel, d);
    } else {
      var rest := LevelFrom(store, nkeyatts, level, done.rightlink, done.state, steps - 1, fuel).value;
      LevelHasShape(store, nkeyatts, level, done.rightlink, done.state, steps - 1, fuel, rest);
      LevelNextKept(store, nkeyatts, level, done.rightlink, done.state, steps - 1, fuel, rest);
      assert d == LevelDone(rest.next, [cur] + rest.targets, done.path + rest.path);
      FirstPageShape(store, nkeyatts, level, cur, s, fuel, done, rest);
    }
  }

  lemma FirstPageShape(store: Store, nkeyatts: nat, level: BtreeLevel, cur: Block, s: LevelState, fuel: nat,
                       done: PageDone, rest: LevelDone)
    requires level.level != 0 && cur in store && cur != P_NONE && store[cur].next != P_NONE
    requires PageOnLevel(store, nkeyatts, level, cur, s, fuel) == Clean(done)
    requires done.state.next.leftmost != InvalidBlockNumber ==> rest.next == done.state.next
    requires P_NONE !in LevelDownlinks(store, rest.targets) ==>
               LevelShape(store, done.state, LevelDownlinks(store, rest.targets), rest.path, rest.next)
    ensures var targets := [cur] + rest.targets;
            P_NONE !in LevelDownlinks(store, targets) ==>
              LevelShape(store, s, LevelDownlinks(store, targets), done.path + rest.path, rest.next)
  {
    var targets := [cur] + rest.targets;
    var d1, d2 := Downlinks(store[cur]), LevelDownlinks(store, rest.targets);
    assert targets[1..] == rest.targets;
    assert LevelDownlinks(store, targets) == d1 + d2;
    if P_NONE !in d1 + d2 {
      assert P_NONE !in d1 && P_NONE !in d2 by { assert forall b :: b in d1 || b in d2 ==> b in d1 + d2; }
      PageShape(store, nkeyatts, level, cur, s, fuel);
      JoinShapes(store, cur, s, done, d2, rest.path, rest.next);
    }
  }

  /** A page in front of the rest of its level. */
  lemma JoinShapes(store: Store, cur: Block, s: LevelState, done: PageDone, d2: seq<Block>, p2: seq<Visit>,
                   next: BtreeLevel)
    requires cur in store && !store[cur].Rightmost()
    requires PageShaped(store, cur, s, done) && LevelShape(store, done.state, d2, p2, next)
    requires done.state.next.leftmost != InvalidBlockNumber ==> next == done.state.next
    ensures LevelShape(store, s, Downlinks(store[cur]) + d2, done.path + p2, next)
  {
    var d1, p1 := Downlinks(store[cur]), done.path;
    if d1 == [] {
      assert d1 + d2 == d2 && p1 + p2 == p2 && done.state.carry == s.carry;
    } else {
      assert EndOf(store, NoCarry, p1) == done.state.carry;
      ShapeConcat(store, s.carry, d1, p1, d2, p2);
      EndOfConcat(store, s.carry, d1, p1, d2, p2);
    }
  }

  lemma LastPageShape(store: Store, nkeyatts: nat, level: BtreeLevel, cur: Block, s: LevelState, steps: nat, fuel: nat,
                      d: LevelDone)
    requires level.level != 0 && cur != P_NONE && cur in store && store[cur].next == P_NONE
    requires LevelRun(store, nkeyatts, level, cur, s, steps, fuel, d)
    ensures d.targets == [cur]
    ensures P_NONE !in LevelDownlinks(store, [cur]) ==>
            LevelShape(store, s, LevelDownlinks(store, [cur]), d.path, d.next)
  {
    assert LevelDownlinks(store, [cur]) == Downlinks(store[cur]);
    if P_NONE !in LevelDownlinks(store, [cur]) {
      PageShape(store, nkeyatts, level, cur, s, fuel);
    }
  }

  /** Once the level below is known it stays. */
  lemma {:induction false} LevelNextKept(store: Store, nkeyatts: nat, level: BtreeLevel, cur: Block, s: LevelState,
                                         steps: nat, fuel: nat, d: LevelDone)
    requires LevelRun(store, nkeyatts, level, cur, s, steps, fuel, d)
    ensures s.next.leftmost != InvalidBlockNumber ==> d.next == s.next
    decreases steps
  {
    var done := PageOnLevel(store, nkeyatts, level, cur, s, fuel).value;
    assert s.next.leftmost != InvalidBlockNumber ==> done.state.next == s.next;
    hide PageOnLevel;
    if done.rightlink != P_NONE {
      var rest := LevelFrom(store, nkeyatts, level, done.rightlink, done.state, steps - 1, fuel).value;
      LevelNextKept(store, nkeyatts, level, done.rightlink, done.state, steps - 1, fuel, rest);
    }
  }
}
