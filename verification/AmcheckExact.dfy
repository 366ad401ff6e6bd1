/** The verifier reports nothing exactly on sound indexes: what its silence says of every page and every level, put
    together as the definition of soundness. */
module AmcheckExact {
  import opened Wrappers
  import opened Lex
  import opened BTreePages
  import opened AmcheckSpec
  import opened AmcheckChain
  import opened AmcheckTheorems
  import opened AmcheckSound

  // ---- What the checks of one page say ----

  lemma {:induction false} PostingAscends(tids: seq<int>, i: nat)
    requires 1 <= i <= |tids| && PostingOrdered(tids, i).Clean? && Ascend(tids[..i])
    ensures Ascend(tids)
    decreases |tids| - i
  {
    if i == |tids| {
      assert tids[..i] == tids;
    } else {
      var more := tids[..i + 1];
      assert more[..i] == tids[..i];
      forall j, k | 0 <= j < k < |more| ensures more[j] < more[k] {
        assert j < i - 1 ==> more[..i][j] < more[..i][i - 1];
        assert k < i ==> more[..i][j] < more[..i][k];
      }
      PostingAscends(tids, i + 1);
    }
  }

  lemma {:induction false} BoundIsAbove(child: Page, key: seq<int>, o: nat, i: nat)
    requires LowerBoundHolds(child, key, o).Clean? && child.FirstDataKey() <= o <= i + 1
             && FirstReal(child) <= i + 1 <= |child.items|
    ensures Less(key, Key(child.items[i]))
    decreases |child.items| - o
  {
    hide Less, Key;
    if o < i + 1 {
      BoundIsAbove(child, key, o + 1, i);
    }
  }

  /** The checks of one offset in the item loop. */
  lemma {:induction false} OffsetFacts(store: Store, nkeyatts: nat, t: Target, offset: nat, carry: Carry, fuel: nat,
                                       o: nat)
    requires 1 <= offset <= o <= |t.page.items|
    requires ItemsFrom(store, nkeyatts, t, offset, carry, fuel).Clean?
    ensures NattsOk(nkeyatts, t.page, o)
    ensures !t.page.IsNegativeInfinity(o) ==> ItemCheck(store, t.page, o, fuel).Clean?
    ensures !t.page.IsNegativeInfinity(o) && !t.page.leaf ==>
              var link := t.page.items[o - 1].link;
              link in store && LowerBoundHolds(store[link], Key(t.page.items[o - 1]), store[link].FirstDataKey()).Clean?
    decreases o - offset
  {
    hide HighkeyCheck, ItemCheck, NattsOk, LowerBoundHolds;
    if offset < o {
      var here := if t.page.IsNegativeInfinity(offset) then HighkeyCheck(store, t, offset, carry, fuel)
                  else if t.page.leaf then Clean(Walked(carry, [])) else ChildCheck(store, t, offset, carry, fuel);
      OffsetFacts(store, nkeyatts, t, offset + 1, here.value.carry, fuel, o);
    }
  }

  lemma NattsSay(p: Page, nkeyatts: nat, o: nat)
    requires 1 <= o <= |p.items| && NattsOk(nkeyatts, p, o) && !p.Ignore()
    ensures if DataOffset(p, o) then
              if p.leaf then LeafTuple(p.items[o - 1], nkeyatts)
              else if o == p.FirstDataKey() then MinusInfinity(p.items[o - 1]) else PivotTuple(p.items[o - 1], nkeyatts)
            else PivotTuple(p.items[o - 1], nkeyatts)
  {
  }

  lemma ItemAscends(store: Store, p: Page, o: nat, fuel: nat)
    requires 1 <= o <= |p.items| && ItemCheck(store, p, o, fuel).Clean? && !p.items[o - 1].pivot
             && |p.items[o - 1].tids| >= 1
    ensures Ascend(p.items[o - 1].tids)
  {
    hide Less, Leq, Key, MaxKey, RightItem;
    PostingAscends(p.items[o - 1].tids, 1);
  }

  /** What a clean target page says of one of its items. */
  lemma OffsetSays(store: Store, nkeyatts: nat, t: Target, carry: Carry, fuel: nat, o: nat)
    requires !t.page.Ignore() && DataOffset(t.page, o)
    requires ItemsFrom(store, nkeyatts, t, t.page.FirstDataKey(), carry, fuel).Clean?
    ensures var p := t.page;
            && (if p.leaf then LeafTuple(p.items[o - 1], nkeyatts)
                else if o == p.FirstDataKey() then MinusInfinity(p.items[o - 1])
                else PivotTuple(p.items[o - 1], nkeyatts))
            && (p.leaf ==> Ascend(p.items[o - 1].tids))
            && (!p.leaf && o > p.FirstDataKey() && p.items[o - 1].link in store ==>
                  Above(store[p.items[o - 1].link], Key(p.items[o - 1])))
  {
    var p := t.page;
    hide ItemCheck, ItemsFrom, NattsOk, LowerBoundHolds, Key, Above;
    OffsetFacts(store, nkeyatts, t, p.FirstDataKey(), carry, fuel, o);
    NattsSay(p, nkeyatts, o);
    if p.leaf {
      ItemAscends(store, p, o, fuel);
    } else if o > p.FirstDataKey() {
      BoundSays(store[p.items[o - 1].link], Key(p.items[o - 1]));
    }
  }

  /** A clean target page is a live page as a sound index has it. */
  lemma TargetSays(store: Store, nkeyatts: nat, t: Target, carry: Carry, fuel: nat)
    requires SanePage(t.page) && !t.page.halfDead && P_NONE !in Downlinks(t.page)
    requires TargetCheck(store, nkeyatts, t, carry, fuel).Clean?
    ensures LivePage(store, nkeyatts, t.page)
  {
    var p := t.page;
    TargetIsSound(store, nkeyatts, t, carry, fuel);
    HighKeySays(store, nkeyatts, t, carry, fuel);
    hide ItemsFrom, NattsOk, Less, Leq, Key, MaxKey, OrderedPage, BoundedPage, OrderedAcross, ChildMatches, Above,
         Ascend, LeafTuple, PivotTuple, MinusInfinity, DownlinksFrom;
    forall o: nat | DataOffset(p, o)
      ensures if p.leaf then LeafTuple(p.items[o - 1], nkeyatts)
              else if o == p.FirstDataKey() then MinusInfinity(p.items[o - 1]) else PivotTuple(p.items[o - 1], nkeyatts)
      ensures p.leaf ==> Ascend(p.items[o - 1].tids)
      ensures !p.leaf && o > p.FirstDataKey() && p.items[o - 1].link in store ==>
                Above(store[p.items[o - 1].link], Key(p.items[o - 1]))
    {
      OffsetSays(store, nkeyatts, t, carry, fuel, o);
    }
  }

  lemma HighKeySays(store: Store, nkeyatts: nat, t: Target, carry: Carry, fuel: nat)
    requires !t.page.Ignore() && TargetCheck(store, nkeyatts, t, carry, fuel).Clean?
    ensures ItemsFrom(store, nkeyatts, t, t.page.FirstDataKey(), carry, fuel).Clean?
    ensures !t.page.Rightmost() ==> |t.page.items| >= 1 && PivotTuple(t.page.items[0], nkeyatts)
  {
    hide ItemsFrom;
  }

  lemma BoundSays(child: Page, key: seq<int>)
    requires LowerBoundHolds(child, key, child.FirstDataKey()).Clean?
    ensures Above(child, key)
  {
    hide Less, Key, LowerBoundHolds;
    forall i | FirstReal(child) - 1 <= i < |child.items| ensures Less(key, Key(child.items[i])) {
      BoundIsAbove(child, key, child.FirstDataKey(), i);
    }
  }

  // ---- What the walk over a level says ----

  /** A page as one iteration leaves it: sane and not its own left sibling; if live, in its place, its items checked. */
  lemma PageSays(store: Store, nkeyatts: nat, level: BtreeLevel, cur: Block, s: LevelState, fuel: nat)
    requires cur != P_NONE && PageOnLevel(store, nkeyatts, level, cur, s, fuel).Clean?
    ensures cur in store && SanePage(store[cur]) && store[cur].prev != cur
    ensures !store[cur].halfDead ==>
              && store[cur].prev == s.left && store[cur].level == level.level
              && (s.next.leftmost == InvalidBlockNumber ==>
                    store[cur].Leftmost() && (level.isTrueRoot ==> store[cur].root))
              && TargetCheck(store, nkeyatts, Target(store[cur], s.lowkey), s.carry, fuel).Clean?
  {
    hide TargetCheck;
  }

  /** The walk does not set out from a page that is not live. */
  lemma {:induction false} StartsLive(store: Store, nkeyatts: nat, level: BtreeLevel, cur: Block, s: LevelState,
                                      steps: nat, fuel: nat, d: LevelDone)
    requires cur != P_NONE && LevelRun(store, nkeyatts, level, cur, s, steps, fuel, d)
    requires s.next.leftmost == InvalidBlockNumber
    ensures cur in store && !store[cur].halfDead && s.left == P_NONE
    decreases steps
  {
    PageSays(store, nkeyatts, level, cur, s, fuel);
    if store[cur].halfDead {
      DeadSays(store, nkeyatts, level, cur, s, fuel);
      var done := PageOnLevel(store, nkeyatts, level, cur, s, fuel).value;
      hide PageOnLevel;
      var rest := LevelFrom(store, nkeyatts, level, done.rightlink, done.state, steps - 1, fuel).value;
      StartsLive(store, nkeyatts, level, done.rightlink, done.state, steps - 1, fuel, rest);
    }
  }

  lemma DeadSays(store: Store, nkeyatts: nat, level: BtreeLevel, cur: Block, s: LevelState, fuel: nat)
    requires cur != P_NONE && PageOnLevel(store, nkeyatts, level, cur, s, fuel).Clean?
    requires cur in store && store[cur].halfDead
    ensures var done := PageOnLevel(store, nkeyatts, level, cur, s, fuel).value;
            done.rightlink != P_NONE && done.state.next == s.next && done.state.left == cur && done.path == []
  {
  }

  /** The page has been checked without a report. */
  ghost predicate Checked(store: Store, nkeyatts: nat, p: Page, fuel: nat) {
    exists lowkey, carry :: TargetCheck(store, nkeyatts, Target(p, lowkey), carry, fuel).Clean?
  }

  /** Page i of a level that passes. */
  lemma {:induction false} LevelSays(store: Store, nkeyatts: nat, level: BtreeLevel, cur: Block, s: LevelState,
                                     steps: nat, fuel: nat, d: LevelDone, i: nat)
    requires cur != P_NONE && LevelRun(store, nkeyatts, level, cur, s, steps, fuel, d) && i < |d.targets|
    ensures var b := d.targets[i];
            && b in store && SanePage(store[b]) && store[b].prev != b
            && (!store[b].halfDead ==>
                  && store[b].prev == (if i == 0 then s.left else d.targets[i - 1]) && store[b].level == level.level
                  && Checked(store, nkeyatts, store[b], fuel))
    decreases steps
  {
    hide PageOnLevel, SanePage, TargetCheck;
    PageSays(store, nkeyatts, level, cur, s, fuel);
    PageRightlink(store, nkeyatts, level, cur, s, fuel);
    assert d.targets[0] == cur;
    if i > 0 {
      var done := PageOnLevel(store, nkeyatts, level, cur, s, fuel).value;
      var rest := LevelFrom(store, nkeyatts, level, done.rightlink, done.state, steps - 1, fuel).value;
      assert d.targets == [cur] + rest.targets;
      LevelSays(store, nkeyatts, level, done.rightlink, done.state, steps - 1, fuel, rest, i - 1);
    }
  }

  // ---- Chains ----

  /** Following right links to a page without one never comes back. */
  lemma {:induction false} LinkedOnce(store: Store, targets: seq<Block>, i: nat, j: nat)
    requires RightLinked(store, targets) && i < j < |targets|
    ensures targets[i] != targets[j]
    decreases |targets|
  {
    if i == 0 {
      if targets[0] == targets[j] {
        Behind(store, targets, j);
        TwoEnds(store, targets, targets[j..]);
      }
    } else {
      LinkedOnce(store, targets[1..], i - 1, j - 1);
    }
  }

  lemma {:induction false} Behind(store: Store, targets: seq<Block>, j: nat)
    requires RightLinked(store, targets) && j < |targets|
    ensures RightLinked(store, targets[j..]) && targets[j..][0] == targets[j]
    decreases j
  {
    if j > 0 {
      Behind(store, targets[1..], j - 1);
      assert targets[1..][j - 1..] == targets[j..];
    } else {
      assert targets[0..] == targets;
    }
  }

  /** The chain from a page is one. */
  lemma {:induction false} TwoEnds(store: Store, a: seq<Block>, b: seq<Block>)
    requires RightLinked(store, a) && RightLinked(store, b) && a[0] == b[0]
    ensures |a| == |b|
    decreases |a|
  {
    if |a| > 1 {
      RightLinkedNonzero(store, a);
      TwoEnds(store, a[1..], b[1..]);
    } else if |b| > 1 {
      RightLinkedNonzero(store, b);
    }
  }

  lemma {:induction false} LinkedBlocks(store: Store, targets: seq<Block>)
    requires RightLinked(store, targets)
    ensures forall b <- targets :: b in store && b != P_NONE
    ensures forall i, j :: 0 <= i && j == i + 1 && j < |targets| ==> store[targets[i]].next == targets[j]
    ensures store[targets[|targets| - 1]].Rightmost()
    decreases |targets|
  {
    if |targets| > 1 {
      LinkedBlocks(store, targets[1..]);
      assert targets == [targets[0]] + targets[1..];
      assert forall i :: 1 <= i < |targets| ==> targets[i] == targets[1..][i - 1];
    }
  }

  /** The pages of a level that passes are a chain. */
  lemma LevelIsChained(store: Store, nkeyatts: nat, level: BtreeLevel, fuel: nat, d: LevelDone)
    requires level.leftmost != P_NONE && LevelCheck(store, nkeyatts, level, fuel) == Clean(d)
    ensures Chained(store, d.targets) && d.targets[0] == level.leftmost
  {
    var bs := d.targets;
    assert LevelRun(store, nkeyatts, level, level.leftmost, LevelStart, fuel, fuel, d);
    hide LevelFrom, LevelRun, SanePage, LivePage, RightLinked, Downlinks;
    TargetsLinked(store, nkeyatts, level, level.leftmost, LevelStart, fuel, fuel, d);
    LinkedNonempty(store, bs);
    LinkedBlocks(store, bs);
    StartsLive(store, nkeyatts, level, level.leftmost, LevelStart, fuel, fuel, d);
    forall i | 0 <= i < |bs|
      ensures bs[i] in store && SanePage(store[bs[i]]) && store[bs[i]].prev != bs[i]
      ensures !store[bs[i]].halfDead ==> store[bs[i]].prev == if i == 0 then P_NONE else bs[i - 1]
    {
      LevelSays(store, nkeyatts, level, level.leftmost, LevelStart, fuel, fuel, d, i);
    }
    forall i, j | 0 <= i < j < |bs| ensures bs[i] != bs[j] {
      LinkedOnce(store, bs, i, j);
    }
  }

  lemma LinkedNonempty(store: Store, bs: seq<Block>)
    requires RightLinked(store, bs)
    ensures bs != []
  {
  }

  // ---- Levels ----

  /** The item found to the right is the first real one of the next live page. */
  lemma {:induction false} RightItemSays(store: Store, bs: seq<Block>, k: nat, j: nat, fuel: nat)
    requires Chained(store, bs) && k <= j < |bs| && bs[j] in store && !store[bs[j]].halfDead
    requires forall x :: k <= x < j ==> bs[x] in store && store[bs[x]].halfDead
    requires RightItem(store, bs[k], fuel).Clean?
    ensures var q := store[bs[j]];
            RightItem(store, bs[k], fuel).value
            == if FirstReal(q) <= |q.items| then Some(q.items[FirstReal(q) - 1]) else None
    decreases j - k
  {
    BlockThere(store, bs, k);
    assert bs[k] in bs;
    Readable(store, bs[k]);
    if k < j {
      LinksOn(store, bs, k);
      RightItemSays(store, bs, k + 1, j, fuel - 1);
    }
    hide Chained, SanePage, ReadPage;
  }

  lemma LastItemSays(store: Store, p: Page, fuel: nat)
    requires 1 <= |p.items| && !p.Rightmost() && ItemCheck(store, p, |p.items|, fuel).Clean?
    ensures RightItem(store, p.next, fuel).Clean?
    ensures RightItem(store, p.next, fuel).value.Some? ==>
              Less(MaxKey(p.items[|p.items| - 1]), Key(RightItem(store, p.next, fuel).value.value))
  {
    hide Less, Leq, Key, MaxKey, RightItem, PostingOrdered;
  }

  lemma AcrossSays(store: Store, nkeyatts: nat, bs: seq<Block>, i: nat, j: nat, fuel: nat)
    requires Chained(store, bs) && i < j < |bs| && (forall b <- bs :: b in store) && Neighbours(store, bs, i, j)
    requires Checked(store, nkeyatts, store[bs[i]], fuel)
    ensures Across(store[bs[i]], store[bs[j]])
  {
    var p, q := store[bs[i]], store[bs[j]];
    if FirstReal(p) <= |p.items| {
      hide Less, Leq, Key, MaxKey, RightItem, ItemCheck, NattsOk, TargetCheck, ItemsFrom;
      var lowkey, carry :| TargetCheck(store, nkeyatts, Target(p, lowkey), carry, fuel).Clean?;
      var t := Target(p, lowkey);
      assert bs[i] in bs;
      HighKeySays(store, nkeyatts, t, carry, fuel);
      OffsetFacts(store, nkeyatts, t, p.FirstDataKey(), carry, fuel, |p.items|);
      LinksOn(store, bs, i);
      LastItemSays(store, p, fuel);
      hide Chained;
      RightItemSays(store, bs, i + 1, j, fuel);
    }
  }

  /** Every page is of the level it is found on. */
  ghost predicate InPlace(store: Store, bs: seq<Block>, level: nat) {
    forall b <- bs :: b in store ==> store[b].level == level
  }

  /** A level that passes, its half-dead pages being in their place, is sound. */
  lemma LevelIsSoundLevel(store: Store, nkeyatts: nat, level: BtreeLevel, fuel: nat, d: LevelDone)
    requires level.leftmost != P_NONE && LevelCheck(store, nkeyatts, level, fuel) == Clean(d)
    requires P_NONE !in LevelDownlinks(store, d.targets)
    requires InPlace(store, d.targets, level.level)
    ensures SoundLevel(store, nkeyatts, d.targets, level.level)
  {
    var bs := d.targets;
    LevelIsChained(store, nkeyatts, level, fuel, d);
    assert LevelRun(store, nkeyatts, level, level.leftmost, LevelStart, fuel, fuel, d);
    hide LevelFrom, LevelRun, LevelCheck, SanePage, LivePage, Chained, Across, Checked, LevelDownlinks, Downlinks;
    forall b | b in bs ensures b in store && store[b].level == level.level
      ensures !store[b].halfDead ==> LivePage(store, nkeyatts, store[b]) && Checked(store, nkeyatts, store[b], fuel)
    {
      var i :| 0 <= i < |bs| && bs[i] == b;
      LevelSays(store, nkeyatts, level, level.leftmost, LevelStart, fuel, fuel, d, i);
      if !store[b].halfDead {
        CheckedIsLive(store, nkeyatts, bs, b, fuel);
      }
    }
    forall i, j | 0 <= i < j < |bs| && Neighbours(store, bs, i, j) ensures Across(store[bs[i]], store[bs[j]]) {
      AcrossSays(store, nkeyatts, bs, i, j, fuel);
    }
  }

  lemma CheckedIsLive(store: Store, nkeyatts: nat, bs: seq<Block>, b: Block, fuel: nat)
    requires b in bs && b in store && SanePage(store[b]) && !store[b].halfDead && P_NONE !in LevelDownlinks(store, bs)
    requires Checked(store, nkeyatts, store[b], fuel)
    ensures LivePage(store, nkeyatts, store[b])
  {
    hide TargetCheck, LivePage, SanePage, Downlinks;
    if P_NONE in Downlinks(store[b]) {
      LevelHasLink(store, bs, b, P_NONE);
    }
    var lowkey, carry :| TargetCheck(store, nkeyatts, Target(store[b], lowkey), carry, fuel).Clean?;
    TargetSays(store, nkeyatts, Target(store[b], lowkey), carry, fuel);
  }

  // ---- One level below another ----

  /** The separator the verifier looks up for an offset, if there is one. */
  function SepOf(t: Target, o: nat): Option<Tuple> {
    if Separator(t, o).Clean? then Some(Separator(t, o).value) else None
  }

  lemma MatchSays(t: Target, page: Page, o: nat)
    requires HighKeyMatches(t, page, o).Clean?
    ensures Repeats(page, SepOf(t, o))
  {
    hide Separator;
  }

  lemma SepsAre(t: Target, o: nat)
    requires !t.page.leaf && t.page.FirstDataKey() <= o <= |t.page.items|
    ensures SepOf(t, o) == if o == t.page.FirstDataKey() then t.lowkey else SepAfter(t.page, o - 1)
    ensures SepOf(t, o + 1) == SepAfter(t.page, o)
    ensures SepOf(t, InvalidOffsetNumber) == None
  {
  }

  ghost predicate NoneDeleted(store: Store, bs: seq<Block>) {
    forall b <- bs :: b in store ==> !store[b].deleted
  }

  lemma StepSays(store: Store, t: Target, offset: nat, downlink: Block, prev: Block, blk: Block, rightsplit: bool,
                 first: bool, fuel: nat)
    requires HighkeyStep(store, t, offset, downlink, prev, blk, rightsplit, first, fuel).Clean?
    ensures blk in store
    ensures if blk == downlink then Repeats(store[blk], SepOf(t, offset + 1))
            else Repeats(store[blk], SepOf(t, offset))
                 && (!store[blk].deleted ==> store[blk].halfDead || Excused(store, blk, rightsplit))
    ensures !store[blk].deleted ==> store[blk].level == PredLevel(t.page.level)
  {
    hide Separator, DownlinkMissing, HighKeyMatches, ReadPage, Repeats, SepOf, Excused;
    var page := store[blk];
    MatchSays(t, page, if blk == downlink then offset + 1 else offset);
    if blk != downlink && !page.Ignore() {
      MissingDownlinkIsExcused(store, rightsplit, blk, fuel);
    }
  }

  /** In front of what hangs below the rest of a level: the pages of one walk. */
  lemma {:induction false} WalkUnder(store: Store, t: Target, offset: nat, downlink: Block, prev: Block, blk: Block,
                                     rightsplit: bool, first: bool, steps: nat, fuel: nat,
                                     cs: seq<Block>, links: seq<Block>, seps: seq<Option<Tuple>>)
    requires downlink != P_NONE && |links| == |seps|
    requires HighkeyWalk(store, t, offset, downlink, prev, blk, rightsplit, first, steps, fuel).Clean?
    requires var w := HighkeyWalk(store, t, offset, downlink, prev, blk, rightsplit, first, steps, fuel).value;
             NoneDeleted(store, Blocks(w.path))
               && Under(store, w.carry.incomplete, SepOf(t, offset + 1), cs, links, seps)
    ensures var w := HighkeyWalk(store, t, offset, downlink, prev, blk, rightsplit, first, steps, fuel).value;
            Under(store, rightsplit, SepOf(t, offset), Blocks(w.path) + cs, [downlink] + links,
                  [SepOf(t, offset + 1)] + seps)
    decreases steps
  {
    hide HighkeyStep, SepOf, Repeats, Excused, NoneDeleted, Blocks;
    var w := HighkeyWalk(store, t, offset, downlink, prev, blk, rightsplit, first, steps, fuel).value;
    StepSays(store, t, offset, downlink, prev, blk, rightsplit, first, fuel);
    var page := store[blk];
    assert ([downlink] + links)[1..] == links && ([SepOf(t, offset + 1)] + seps)[1..] == seps;
    if blk == downlink {
      assert [Visit(blk, true)] + [] == w.path;
      NoneDeletedTail(store, Visit(blk, true), []);
      BlocksFirst(Visit(blk, true), [], cs);
      assert Blocks([]) + cs == cs by { NoBlocks(cs); }
    } else {
      var rest := HighkeyWalk(store, t, offset, downlink, prev, page.next, page.incompleteSplit, false, steps - 1,
                              fuel).value;
      assert w.path == [Visit(blk, false)] + rest.path;
      BlocksFirst(Visit(blk, false), rest.path, cs);
      NoneDeletedTail(store, Visit(blk, false), rest.path);
      WalkUnder(store, t, offset, downlink, prev, page.next, page.incompleteSplit, false, steps - 1, fuel, cs, links,
                seps);
    }
  }

  lemma NoneDeletedTail(store: Store, v: Visit, path: seq<Visit>)
    requires NoneDeleted(store, Blocks([v] + path))
    ensures (v.blk in store ==> !store[v.blk].deleted) && NoneDeleted(store, Blocks(path))
  {
    BlocksFirst(v, path, []);
    assert Blocks([v] + path)[0] == v.blk;
    assert forall b <- Blocks(path) :: b in Blocks([v] + path);
  }

  lemma NoBlocks(cs: seq<Block>)
    ensures Blocks([]) == [] && [] + cs == cs
  {
  }

  lemma NothingMore(cs: seq<Block>)
    ensures cs + [] == cs
  {
  }

  lemma BlocksFirst(v: Visit, path: seq<Visit>, cs: seq<Block>)
    ensures var all := Blocks([v] + path) + cs;
            all != [] && all[0] == v.blk && all[1..] == Blocks(path) + cs
    ensures Blocks([v] + path) == [v.blk] + Blocks(path)
  {
    assert ([v] + path)[1..] == path;
    assert Blocks([v] + path) == [v.blk] + Blocks(path);
  }

  /** The pages of the sweep behind the last downlink. */
  lemma {:induction false} SweepUnder(store: Store, t: Target, prev: Block, blk: Block, rightsplit: bool, first: bool,
                                      steps: nat, fuel: nat)
    requires !t.page.leaf && t.page.FirstDataKey() <= |t.page.items|
    requires HighkeyWalk(store, t, InvalidOffsetNumber, P_NONE, prev, blk, rightsplit, first, steps, fuel).Clean?
    requires var w := HighkeyWalk(store, t, InvalidOffsetNumber, P_NONE, prev, blk, rightsplit, first, steps,
                                  fuel).value;
             NoneDeleted(store, Blocks(w.path))
    ensures var w := HighkeyWalk(store, t, InvalidOffsetNumber, P_NONE, prev, blk, rightsplit, first, steps,
                                 fuel).value;
            Under(store, rightsplit, None, Blocks(w.path), [], [])
    decreases steps
  {
    hide HighkeyStep, SepOf, Repeats, Excused, NoneDeleted, Blocks;
    var w := HighkeyWalk(store, t, InvalidOffsetNumber, P_NONE, prev, blk, rightsplit, first, steps, fuel).value;
    if blk == P_NONE {
      NoBlocks([]);
    } else {
      SepsAre(t, t.page.FirstDataKey());
      StepSays(store, t, InvalidOffsetNumber, P_NONE, prev, blk, rightsplit, first, fuel);
      var page := store[blk];
      var rest := HighkeyWalk(store, t, InvalidOffsetNumber, P_NONE, prev, page.next, page.incompleteSplit, false,
                              steps - 1, fuel).value;
      assert w.path == [Visit(blk, false)] + rest.path;
      BlocksFirst(Visit(blk, false), rest.path, []);
      NothingMore(Blocks(rest.path));
      NothingMore(Blocks(w.path));
      NoneDeletedTail(store, Visit(blk, false), rest.path);
      SweepUnder(store, t, prev, page.next, page.incompleteSplit, false, steps - 1, fuel);
    }
  }

  /** The check of one downlink. */
  lemma CheckUnder(store: Store, t: Target, o: nat, carry: Carry, fuel: nat, cs: seq<Block>, links: seq<Block>,
                   seps: seq<Option<Tuple>>)
    requires !t.page.leaf && t.page.FirstDataKey() <= o <= |t.page.items| && |links| == |seps|
    requires t.page.items[o - 1].link != P_NONE && HighkeyCheck(store, t, o, carry, fuel).Clean?
    requires var w := HighkeyCheck(store, t, o, carry, fuel).value;
             NoneDeleted(store, Blocks(w.path))
               && Under(store, w.carry.incomplete, SepAfter(t.page, o), cs, links, seps)
    ensures var w := HighkeyCheck(store, t, o, carry, fuel).value;
            Under(store, carry.incomplete, if o == t.page.FirstDataKey() then t.lowkey else SepAfter(t.page, o - 1),
                  Blocks(w.path) + cs, [t.page.items[o - 1].link] + links, [SepAfter(t.page, o)] + seps)
  {
    var link := t.page.items[o - 1].link;
    var unlinked := carry.rightlink == InvalidBlockNumber;
    var split := !unlinked && carry.incomplete;
    var blk := if unlinked then link else carry.rightlink;
    hide HighkeyCheck, HighkeyWalk, SepOf, Under, SepAfter, NoneDeleted, Blocks;
    CheckIs(store, t, o, carry, fuel);
    SepsAre(t, o);
    WalkUnder(store, t, o, link, carry.rightlink, blk, split, true, fuel, fuel, cs, links, seps);
    if unlinked {
      var path := HighkeyCheck(store, t, o, carry, fuel).value.path;
      WalkOfOne(store, t, o, link, carry.rightlink, split, true, fuel, fuel);
      OneAhead(link, cs);
      OneAhead(link, links);
      AnySplit(store, split, carry.incomplete, SepOf(t, o), Blocks(path) + cs, [link] + links,
               [SepOf(t, o + 1)] + seps);
    }
  }

  lemma CheckIs(store: Store, t: Target, o: nat, carry: Carry, fuel: nat)
    requires 1 <= o <= |t.page.items|
    ensures var link, unlinked := t.page.items[o - 1].link, carry.rightlink == InvalidBlockNumber;
            HighkeyCheck(store, t, o, carry, fuel)
            == HighkeyWalk(store, t, o, link, carry.rightlink, if unlinked then link else carry.rightlink,
                           !unlinked && carry.incomplete, true, fuel, fuel)
  {
    hide HighkeyWalk;
  }

  lemma OneAhead(b: Block, bs: seq<Block>)
    ensures [b] + bs != [] && ([b] + bs)[0] == b
  {
  }

  lemma WalkOfOne(store: Store, t: Target, o: nat, link: Block, prev: Block, split: bool, first: bool, steps: nat,
                  fuel: nat)
    requires link != P_NONE && HighkeyWalk(store, t, o, link, prev, link, split, first, steps, fuel).Clean?
    ensures Blocks(HighkeyWalk(store, t, o, link, prev, link, split, first, steps, fuel).value.path) == [link]
  {
    hide HighkeyStep;
  }

  /** A page with a downlink needs no excuse. */
  lemma AnySplit(store: Store, split: bool, split': bool, sep: Option<Tuple>, cs: seq<Block>, links: seq<Block>,
                 seps: seq<Option<Tuple>>)
    requires |links| == |seps| && links != [] && cs != [] && cs[0] == links[0]
             && Under(store, split, sep, cs, links, seps)
    ensures Under(store, split', sep, cs, links, seps)
  {
  }

  lemma SweepCheckUnder(store: Store, t: Target, carry: Carry, fuel: nat)
    requires !t.page.leaf && t.page.FirstDataKey() <= |t.page.items|
    requires HighkeyCheck(store, t, InvalidOffsetNumber, carry, fuel).Clean?
    requires NoneDeleted(store, Blocks(HighkeyCheck(store, t, InvalidOffsetNumber, carry, fuel).value.path))
    ensures Under(store, carry.incomplete, None,
                  Blocks(HighkeyCheck(store, t, InvalidOffsetNumber, carry, fuel).value.path), [], [])
  {
    var unlinked := carry.rightlink == InvalidBlockNumber;
    var blk := if unlinked then P_NONE else carry.rightlink;
    hide HighkeyStep, NoneDeleted, Blocks;
    SweepUnder(store, t, carry.rightlink, blk, !unlinked && carry.incomplete, true, fuel, fuel);
    if unlinked {
      NoBlocks([]);
    }
  }

  lemma BlocksJoin(p: seq<Visit>, q: seq<Visit>, cs: seq<Block>)
    ensures Blocks(p + q) + cs == Blocks(p) + (Blocks(q) + cs)
  {
  }

  lemma NoneDeletedParts(store: Store, p: seq<Visit>, q: seq<Visit>)
    requires NoneDeleted(store, Blocks(p + q))
    ensures NoneDeleted(store, Blocks(p)) && NoneDeleted(store, Blocks(q))
  {
    BlocksJoin(p, q, []);
    assert forall b <- Blocks(p) :: b in Blocks(p + q) by { assert Blocks(p + q) == Blocks(p) + Blocks(q); }
    assert forall b <- Blocks(q) :: b in Blocks(p + q) by { assert Blocks(p + q) == Blocks(p) + Blocks(q); }
  }

  /** The items of a page from an offset on, in front of what hangs below the pages behind it. */
  lemma {:induction false} ItemsUnder(store: Store, nkeyatts: nat, t: Target, o: nat, carry: Carry, fuel: nat,
                                      cs: seq<Block>, L: seq<Block>, S: seq<Option<Tuple>>)
    requires !t.page.leaf && t.page.FirstDataKey() <= o <= |t.page.items| + 1 && t.page.FirstDataKey() <= |t.page.items|
    requires ItemsFrom(store, nkeyatts, t, o, carry, fuel).Clean? && P_NONE !in DownlinksFrom(t.page, o) && |L| == |S|
    requires var w := ItemsFrom(store, nkeyatts, t, o, carry, fuel).value;
             && NoneDeleted(store, Blocks(w.path))
             && if t.page.Rightmost() then cs == [] && L == []
                else Under(store, w.carry.incomplete, SepAfter(t.page, |t.page.items|), cs, L, S)
    ensures var w := ItemsFrom(store, nkeyatts, t, o, carry, fuel).value;
            Under(store, carry.incomplete, if o == t.page.FirstDataKey() then t.lowkey else SepAfter(t.page, o - 1),
                  Blocks(w.path) + cs, DownlinksFrom(t.page, o) + L, SepsFrom(t.page, o) + S)
    decreases |t.page.items| + 1 - o
  {
    hide HighkeyCheck, ItemCheck, NattsOk, Under, NoneDeleted, Blocks, LowerBoundHolds;
    var p := t.page;
    var w := ItemsFrom(store, nkeyatts, t, o, carry, fuel).value;
    if o > |p.items| {
      assert DownlinksFrom(p, o) + L == L && SepsFrom(p, o) + S == S;
      if p.Rightmost() {
        SweepCheckUnder(store, t, carry, fuel);
        NothingMore(Blocks(w.path));
      } else {
        NoBlocks(cs);
      }
    } else {
      var here := HighkeyCheck(store, t, o, carry, fuel);
      ChildSays(store, nkeyatts, t, o, carry, fuel);
      var rest := ItemsFrom(store, nkeyatts, t, o + 1, here.value.carry, fuel).value;
      NoneDeletedParts(store, here.value.path, rest.path);
      ItemsUnder(store, nkeyatts, t, o + 1, here.value.carry, fuel, cs, L, S);
      CheckUnder(store, t, o, carry, fuel, Blocks(rest.path) + cs, DownlinksFrom(p, o + 1) + L, SepsFrom(p, o + 1) + S);
      BlocksJoin(here.value.path, rest.path, cs);
      NextLinks(p, o, L, S);
      LinksJoin(p, o, L, S);
    }
  }

  lemma LinksJoin(p: Page, o: nat, L: seq<Block>, S: seq<Option<Tuple>>)
    requires !p.leaf && 1 <= o <= |p.items|
    ensures DownlinksFrom(p, o) + L == [p.items[o - 1].link] + (DownlinksFrom(p, o + 1) + L)
    ensures SepsFrom(p, o) + S == [SepAfter(p, o)] + (SepsFrom(p, o + 1) + S)
  {
  }

  /** The check of a child is the walk to it, as far as the walk goes. */
  lemma ChildSays(store: Store, nkeyatts: nat, t: Target, o: nat, carry: Carry, fuel: nat)
    requires !t.page.leaf && 1 <= o <= |t.page.items| && ItemsFrom(store, nkeyatts, t, o, carry, fuel).Clean?
    ensures var here := HighkeyCheck(store, t, o, carry, fuel);
            && here.Clean? && ItemsFrom(store, nkeyatts, t, o + 1, here.value.carry, fuel).Clean?
            && ItemsFrom(store, nkeyatts, t, o, carry, fuel).value
               == Walked(ItemsFrom(store, nkeyatts, t, o + 1, here.value.carry, fuel).value.carry,
                         here.value.path + ItemsFrom(store, nkeyatts, t, o + 1, here.value.carry, fuel).value.path)
  {
    hide HighkeyCheck, ItemCheck, NattsOk, LowerBoundHolds, ReadPage;
  }

  // ---- The level of the pages stepped on ----

  ghost predicate OnLevel(store: Store, path: seq<Visit>, level: nat) {
    forall v <- path :: v.blk in store && (!store[v.blk].deleted ==> store[v.blk].level == level)
  }

  lemma {:induction false} WalkOnLevel(store: Store, t: Target, offset: nat, downlink: Block, prev: Block, blk: Block,
                                       rightsplit: bool, first: bool, steps: nat, fuel: nat)
    requires HighkeyWalk(store, t, offset, downlink, prev, blk, rightsplit, first, steps, fuel).Clean?
    ensures OnLevel(store,
                    HighkeyWalk(store, t, offset, downlink, prev, blk, rightsplit, first, steps, fuel).value.path,
                    PredLevel(t.page.level))
    decreases steps
  {
    hide HighkeyStep, Repeats, SepOf, Excused;
    if !(blk == P_NONE && downlink == P_NONE) {
      StepSays(store, t, offset, downlink, prev, blk, rightsplit, first, fuel);
      var page := store[blk];
      if blk != downlink {
        WalkOnLevel(store, t, offset, downlink, prev, page.next, page.incompleteSplit, false, steps - 1, fuel);
      }
    }
  }

  lemma CheckOnLevel(store: Store, t: Target, offset: nat, carry: Carry, fuel: nat)
    requires HighkeyCheck(store, t, offset, carry, fuel).Clean?
    ensures OnLevel(store, HighkeyCheck(store, t, offset, carry, fuel).value.path, PredLevel(t.page.level))
  {
    hide HighkeyWalk, OnLevel;
    var unlinked := carry.rightlink == InvalidBlockNumber;
    var link := if offset == InvalidOffsetNumber then P_NONE else t.page.items[offset - 1].link;
    WalkOnLevel(store, t, offset, link, carry.rightlink, if unlinked then link else carry.rightlink,
                !unlinked && carry.incomplete, true, fuel, fuel);
  }

  lemma OnLevelConcat(store: Store, p: seq<Visit>, q: seq<Visit>, level: nat)
    requires OnLevel(store, p, level) && OnLevel(store, q, level)
    ensures OnLevel(store, p + q, level)
  {
  }

  lemma {:induction false} ItemsOnLevel(store: Store, nkeyatts: nat, t: Target, offset: nat, carry: Carry, fuel: nat)
    requires 1 <= offset && !t.page.leaf && ItemsFrom(store, nkeyatts, t, offset, carry, fuel).Clean?
    ensures OnLevel(store, ItemsFrom(store, nkeyatts, t, offset, carry, fuel).value.path, PredLevel(t.page.level))
    decreases |t.page.items| + 1 - offset
  {
    hide HighkeyCheck, ItemCheck, NattsOk, LowerBoundHolds;
    if offset > |t.page.items| {
      if t.page.Rightmost() {
        CheckOnLevel(store, t, InvalidOffsetNumber, carry, fuel);
      }
    } else {
      var here, rest := DownlinkStep(store, nkeyatts, t, offset, carry, fuel);
      CheckOnLevel(store, t, offset, carry, fuel);
      ItemsOnLevel(store, nkeyatts, t, offset + 1, here.carry, fuel);
      OnLevelConcat(store, here.path, rest.path, PredLevel(t.page.level));
    }
  }

  // ---- All pages of a level ----

  /** Live internal pages of the level. */
  ghost predicate Internal(store: Store, bs: seq<Block>, level: nat) {
    forall b <- bs :: b in store && !store[b].Ignore() && !store[b].leaf && store[b].level == level
                      && store[b].FirstDataKey() <= |store[b].items|
  }

  /** One page: its items, and what is carried on. */
  lemma LivePageSays(store: Store, nkeyatts: nat, level: BtreeLevel, cur: Block, s: LevelState, fuel: nat)
    requires PageOnLevel(store, nkeyatts, level, cur, s, fuel).Clean?
    requires cur in store && !store[cur].Ignore()
    ensures var p, t := store[cur], Target(store[cur], s.lowkey);
            var done := PageOnLevel(store, nkeyatts, level, cur, s, fuel).value;
            var w := ItemsFrom(store, nkeyatts, t, p.FirstDataKey(), s.carry, fuel);
            && w.Clean? && done.path == w.value.path && done.state.carry == w.value.carry && done.rightlink == p.next
            && (!p.Rightmost() ==> |p.items| >= 1 && done.state.lowkey == Some(p.items[0]))
  {
    hide ItemsFrom, NattsOk, PlaceCheck;
  }

  /** What the walk stepped on for one page, in front of what hangs below the pages behind it. */
  lemma PageUnder(store: Store, nkeyatts: nat, level: BtreeLevel, cur: Block, s: LevelState, fuel: nat,
                  cs: seq<Block>, L: seq<Block>, S: seq<Option<Tuple>>)
    requires PageOnLevel(store, nkeyatts, level, cur, s, fuel).Clean? && Internal(store, [cur], level.level)
             && |L| == |S|
    requires var p := store[cur]; P_NONE !in DownlinksFrom(p, p.FirstDataKey())
    requires var done := PageOnLevel(store, nkeyatts, level, cur, s, fuel).value;
             && NoneDeleted(store, Blocks(done.path))
             && if store[cur].Rightmost() then cs == [] && L == []
                else Under(store, done.state.carry.incomplete, done.state.lowkey, cs, L, S)
    ensures var p, done := store[cur], PageOnLevel(store, nkeyatts, level, cur, s, fuel).value;
            && Under(store, s.carry.incomplete, s.lowkey, Blocks(done.path) + cs,
                     DownlinksFrom(p, p.FirstDataKey()) + L, SepsFrom(p, p.FirstDataKey()) + S)
            && OnLevel(store, done.path, PredLevel(level.level))
  {
    assert cur in [cur];
    hide PageOnLevel, ItemsFrom, Under, NoneDeleted, Blocks, DownlinksFrom, SepsFrom, OnLevel;
    var p, t := store[cur], Target(store[cur], s.lowkey);
    LivePageSays(store, nkeyatts, level, cur, s, fuel);
    ItemsOnLevel(store, nkeyatts, t, p.FirstDataKey(), s.carry, fuel);
    ItemsUnder(store, nkeyatts, t, p.FirstDataKey(), s.carry, fuel, cs, L, S);
  }

  /** What hangs below the pages of a level from some page on is what the walk stepped on, all of it one level down. */
  lemma {:induction false} LevelUnder(store: Store, nkeyatts: nat, level: BtreeLevel, cur: Block, s: LevelState,
                                      steps: nat, fuel: nat, d: LevelDone)
    requires cur != P_NONE && LevelRun(store, nkeyatts, level, cur, s, steps, fuel, d)
    requires Internal(store, d.targets, level.level) && P_NONE !in LevelDownlinks(store, d.targets)
    requires NoneDeleted(store, Blocks(d.path))
    ensures Under(store, s.carry.incomplete, s.lowkey, Blocks(d.path), LevelDownlinks(store, d.targets),
                  LevelSeps(store, d.targets))
    ensures OnLevel(store, d.path, PredLevel(level.level))
    decreases steps
  {
    hide PageOnLevel, Under, NoneDeleted, Blocks, DownlinksFrom, SepsFrom, OnLevel;
    assert d.targets[0] == cur && cur in d.targets;
    PageRightlink(store, nkeyatts, level, cur, s, fuel);
    var done := PageOnLevel(store, nkeyatts, level, cur, s, fuel).value;
    FirstLinks(store, d.targets);
    hide LevelDownlinks, LevelSeps;
    if done.rightlink == P_NONE {
      NoLinks(store, d.targets);
      NothingMore(Blocks(d.path));
      PageUnder(store, nkeyatts, level, cur, s, fuel, [], [], []);
    } else {
      var rest := LevelFrom(store, nkeyatts, level, done.rightlink, done.state, steps - 1, fuel).value;
      assert d.targets == [cur] + rest.targets && d.targets[1..] == rest.targets;
      NoneDeletedParts(store, done.path, rest.path);
      InternalTail(store, cur, rest.targets, level.level);
      LevelUnder(store, nkeyatts, level, done.rightlink, done.state, steps - 1, fuel, rest);
      PageUnder(store, nkeyatts, level, cur, s, fuel, Blocks(rest.path), LevelDownlinks(store, rest.targets),
                LevelSeps(store, rest.targets));
      BlocksJoin(done.path, rest.path, []);
      NothingMore(Blocks(rest.path));
      NothingMore(Blocks(d.path));
      OnLevelConcat(store, done.path, rest.path, PredLevel(level.level));
    }
  }

  lemma InternalTail(store: Store, cur: Block, bs: seq<Block>, level: nat)
    requires Internal(store, [cur] + bs, level)
    ensures Internal(store, [cur], level) && Internal(store, bs, level)
  {
    assert forall b <- bs :: b in [cur] + bs;
    assert cur in [cur] + bs;
  }

  lemma NoLinks(store: Store, bs: seq<Block>)
    requires |bs| == 1
    ensures LevelDownlinks(store, bs[1..]) == [] && LevelSeps(store, bs[1..]) == []
    ensures bs == [bs[0]]
  {
  }

  lemma FirstLinks(store: Store, bs: seq<Block>)
    requires bs != [] && bs[0] in store && !store[bs[0]].Ignore()
    ensures var p := store[bs[0]];
            && LevelDownlinks(store, bs) == DownlinksFrom(p, p.FirstDataKey()) + LevelDownlinks(store, bs[1..])
            && LevelSeps(store, bs) == SepsFrom(p, p.FirstDataKey()) + LevelSeps(store, bs[1..])
  {
  }

  // ---- The whole tree ----

  /** The level below is numbered one less. */
  lemma {:induction false} NextNumber(store: Store, nkeyatts: nat, level: BtreeLevel, cur: Block, s: LevelState,
                                      steps: nat, fuel: nat, d: LevelDone)
    requires cur != P_NONE && level.level > 0 && LevelRun(store, nkeyatts, level, cur, s, steps, fuel, d)
    requires s.next.leftmost == InvalidBlockNumber || s.next.level == level.level - 1
    ensures d.next.leftmost == InvalidBlockNumber || d.next.level == level.level - 1
    decreases steps
  {
    hide PageOnLevel;
    PageNumber(store, nkeyatts, level, cur, s, fuel);
    var done := PageOnLevel(store, nkeyatts, level, cur, s, fuel).value;
    if done.rightlink != P_NONE {
      var rest := LevelFrom(store, nkeyatts, level, done.rightlink, done.state, steps - 1, fuel).value;
      NextNumber(store, nkeyatts, level, done.rightlink, done.state, steps - 1, fuel, rest);
    }
  }

  lemma PageNumber(store: Store, nkeyatts: nat, level: BtreeLevel, cur: Block, s: LevelState, fuel: nat)
    requires cur != P_NONE && level.level > 0 && PageOnLevel(store, nkeyatts, level, cur, s, fuel).Clean?
    requires s.next.leftmost == InvalidBlockNumber || s.next.level == level.level - 1
    ensures var next := PageOnLevel(store, nkeyatts, level, cur, s, fuel).value.state.next;
            next.leftmost == InvalidBlockNumber || next.level == level.level - 1
  {
    hide TargetCheck;
  }

  lemma PagesInternal(store: Store, nkeyatts: nat, bs: seq<Block>, level: nat)
    requires SoundLevel(store, nkeyatts, bs, level) && level > 0
    ensures Internal(store, bs, level)
  {
    hide LivePage;
    forall b | b in bs ensures b in store && !store[b].Ignore() && !store[b].leaf && store[b].level == level
                               && store[b].FirstDataKey() <= |store[b].items|
    {
      Readable(store, b);
    }
  }

  lemma LevelNotDeleted(store: Store, nkeyatts: nat, level: BtreeLevel, fuel: nat, d: LevelDone)
    requires level.leftmost != P_NONE && LevelCheck(store, nkeyatts, level, fuel) == Clean(d)
    ensures NoneDeleted(store, d.targets)
  {
    LevelIsChained(store, nkeyatts, level, fuel, d);
    hide LevelCheck;
  }

  /** A level that passes, and the next. */
  lemma NextHangsBelow(store: Store, nkeyatts: nat, level: BtreeLevel, fuel: nat, d: LevelDone, cs: seq<Block>)
    requires level.leftmost != P_NONE && level.level > 0 && LevelCheck(store, nkeyatts, level, fuel) == Clean(d)
    requires SoundLevel(store, nkeyatts, d.targets, level.level) && P_NONE !in LevelDownlinks(store, d.targets)
    requires ChildChain(store, d.path, LevelDownlinks(store, d.targets)) && Blocks(d.path) == cs
             && NoneDeleted(store, cs)
    ensures HangsBelow(store, d.targets, cs) && InPlace(store, cs, level.level - 1)
  {
    assert LevelRun(store, nkeyatts, level, level.leftmost, LevelStart, fuel, fuel, d);
    hide LevelFrom, LevelRun, SoundLevel, LevelDownlinks, LevelSeps, Under, NoneDeleted;
    PagesInternal(store, nkeyatts, d.targets, level.level);
    LevelUnder(store, nkeyatts, level, level.leftmost, LevelStart, fuel, fuel, d);
    ChainBegins(store, d.path, LevelDownlinks(store, d.targets));
    forall b | b in cs && b in store ensures store[b].level == level.level - 1 {
      var i :| 0 <= i < |cs| && cs[i] == b;
      assert d.path[i] in d.path && d.path[i].blk == b;
      NotDeleted(store, cs, b);
    }
  }

  lemma NotDeleted(store: Store, cs: seq<Block>, b: Block)
    requires NoneDeleted(store, cs) && b in cs && b in store
    ensures !store[b].deleted
  {
  }

  lemma ChainBegins(store: Store, path: seq<Visit>, links: seq<Block>)
    requires ChildChain(store, path, links)
    ensures path != [] && links != [] && Blocks(path) != [] && Blocks(path)[0] == links[0]
  {
  }

  /** A run over all levels that passes, its pages being in place at the top, finds a sound tree. */
  lemma {:induction false} LevelsSay(store: Store, nkeyatts: nat, level: BtreeLevel, steps: nat, fuel: nat,
                                     levels: seq<LevelDone>)
    requires level.leftmost != P_NONE && LevelsFrom(store, nkeyatts, level, steps, fuel) == Clean(levels)
    requires Verified(store, levels) && NoNoneDownlink(store, levels) && InPlace(store, levels[0].targets, level.level)
    ensures |levels| == level.level + 1
    ensures forall j :: 0 <= j < |levels| ==> SoundLevel(store, nkeyatts, levels[j].targets, level.level - j)
    ensures forall j, k :: 0 <= j && k == j + 1 && k < |levels| ==>
            HangsBelow(store, levels[j].targets, levels[k].targets)
    decreases steps
  {
    hide LevelsFrom, LevelCheck, Verified, NoNoneDownlink, SoundLevel, HangsBelow, InPlace, LevelDownlinks, ChildChain,
         NoneDeleted, Blocks;
    FirstAndRest(store, nkeyatts, level, steps, fuel, levels);
    var d, rest := levels[0], levels[1..];
    VerifiedRest(store, levels);
    LevelIsSoundLevel(store, nkeyatts, level, fuel, d);
    if level.level == 0 {
      LeafIsLast(store, nkeyatts, level, steps, fuel, levels);
    } else {
      LevelLeads(store, nkeyatts, level, fuel, d);
      FirstOfRest(store, nkeyatts, d.next, steps - 1, fuel, rest);
      LevelNotDeleted(store, nkeyatts, d.next, fuel, rest[0]);
      NextHangsBelow(store, nkeyatts, level, fuel, d, rest[0].targets);
      LevelsSay(store, nkeyatts, d.next, steps - 1, fuel, rest);
      OnTop(store, nkeyatts, d, rest, level.level);
    }
  }

  lemma FirstAndRest(store: Store, nkeyatts: nat, level: BtreeLevel, steps: nat, fuel: nat, levels: seq<LevelDone>)
    requires level.leftmost != P_NONE && LevelsFrom(store, nkeyatts, level, steps, fuel) == Clean(levels)
    ensures levels != [] && steps > 0 && levels == [levels[0]] + levels[1..]
    ensures LevelCheck(store, nkeyatts, level, fuel) == Clean(levels[0])
            && levels[0].next.leftmost != InvalidBlockNumber
    ensures LevelsFrom(store, nkeyatts, levels[0].next, steps - 1, fuel) == Clean(levels[1..])
  {
    hide LevelCheck;
    var d := LevelCheck(store, nkeyatts, level, fuel).value;
    var rest := LevelsFrom(store, nkeyatts, d.next, steps - 1, fuel).value;
    assert levels == [d] + rest && levels[1..] == rest;
  }

  lemma LeafIsLast(store: Store, nkeyatts: nat, level: BtreeLevel, steps: nat, fuel: nat, levels: seq<LevelDone>)
    requires level.leftmost != P_NONE && level.level == 0
    requires LevelsFrom(store, nkeyatts, level, steps, fuel) == Clean(levels) && levels != []
    requires P_NONE !in LevelDownlinks(store, levels[0].targets)
    ensures |levels| == 1
  {
    hide LevelCheck, LevelDownlinks, SoundPage, RightLinked;
    FirstAndRest(store, nkeyatts, level, steps, fuel, levels);
    OneLevel(store, nkeyatts, level, fuel, levels[0]);
  }

  lemma VerifiedRest(store: Store, levels: seq<LevelDone>)
    requires Verified(store, levels) && NoNoneDownlink(store, levels)
    ensures levels != [] && P_NONE !in LevelDownlinks(store, levels[0].targets)
    ensures |levels| > 1 ==>
              && ChildChain(store, levels[0].path, LevelDownlinks(store, levels[0].targets))
              && Blocks(levels[0].path) == levels[1].targets
              && Verified(store, levels[1..]) && NoNoneDownlink(store, levels[1..])
  {
    hide SoundPage, RightLinked, ChildChain, Segment, Unbroken, LevelDownlinks, Blocks;
    assert levels[0] in levels;
    assert forall e <- levels[1..] :: e in levels;
  }

  lemma OnTop(store: Store, nkeyatts: nat, d: LevelDone, rest: seq<LevelDone>, level: nat)
    requires rest != [] && |rest| == level && SoundLevel(store, nkeyatts, d.targets, level)
    requires HangsBelow(store, d.targets, rest[0].targets)
    requires forall j :: 0 <= j < |rest| ==> SoundLevel(store, nkeyatts, rest[j].targets, level - 1 - j)
    requires forall j, k :: 0 <= j && k == j + 1 && k < |rest| ==> HangsBelow(store, rest[j].targets, rest[k].targets)
    ensures var levels := [d] + rest;
            && (forall j :: 0 <= j < |levels| ==> SoundLevel(store, nkeyatts, levels[j].targets, level - j))
            && forall j, k :: 0 <= j && k == j + 1 && k < |levels| ==>
               HangsBelow(store, levels[j].targets, levels[k].targets)
  {
    hide SoundLevel, HangsBelow;
    var levels := [d] + rest;
    forall j | 0 <= j < |levels| ensures SoundLevel(store, nkeyatts, levels[j].targets, level - j) {
      if j > 0 {
        var i := j - 1;
        assert levels[j] == rest[i];
      }
    }
    forall j, k | 0 <= j && k == j + 1 && k < |levels| ensures HangsBelow(store, levels[j].targets, levels[k].targets) {
      if j > 0 {
        var i := j - 1;
        assert levels[j] == rest[i] && levels[k] == rest[j];
      }
    }
  }

  lemma LevelLeads(store: Store, nkeyatts: nat, level: BtreeLevel, fuel: nat, d: LevelDone)
    requires level.leftmost != P_NONE && level.level > 0 && LevelCheck(store, nkeyatts, level, fuel) == Clean(d)
    requires P_NONE !in LevelDownlinks(store, d.targets)
    ensures d.next.leftmost != P_NONE
    ensures d.next.leftmost == InvalidBlockNumber || d.next.level == level.level - 1
  {
    assert LevelRun(store, nkeyatts, level, level.leftmost, LevelStart, fuel, fuel, d);
    OneLevel(store, nkeyatts, level, fuel, d);
    hide LevelFrom, LevelRun, LevelDownlinks, SoundPage;
    NextNumber(store, nkeyatts, level, level.leftmost, LevelStart, fuel, fuel, d);
    var ds := LevelDownlinks(store, d.targets);
    assert ds[0] in ds;
  }

  lemma FirstOfRest(store: Store, nkeyatts: nat, level: BtreeLevel, steps: nat, fuel: nat, levels: seq<LevelDone>)
    requires level.leftmost != P_NONE && LevelsFrom(store, nkeyatts, level, steps, fuel) == Clean(levels)
    ensures levels != [] && LevelCheck(store, nkeyatts, level, fuel) == Clean(levels[0])
  {
    hide LevelCheck;
  }

  // ---- Exactly the sound indexes ----

  function TargetsOf(levels: seq<LevelDone>): (r: seq<seq<Block>>)
    ensures |r| == |levels| && forall j :: 0 <= j < |levels| ==> r[j] == levels[j].targets
  {
    seq(|levels|, j requires 0 <= j < |levels| => levels[j].targets)
  }

  /** No report; and neither of the two things that the verifier does not look at: no downlink is P_NONE, and no page of
      another level is on the level of the root. */
  ghost predicate Passes(store: Store, nkeyatts: nat, fuel: nat) {
    var verdict := EveryLevel(store, nkeyatts, fuel);
    && verdict.Clean? && NoNoneDownlink(store, verdict.value)
    && (verdict.value != [] ==>
          BTREE_METAPAGE in store && store[BTREE_METAPAGE].meta.Some?
          && InPlace(store, verdict.value[0].targets, store[BTREE_METAPAGE].meta.value.level))
  }

  lemma RootIsFlagged(store: Store, nkeyatts: nat, level: BtreeLevel, fuel: nat, d: LevelDone)
    requires level.leftmost != P_NONE && level.isTrueRoot && LevelCheck(store, nkeyatts, level, fuel) == Clean(d)
    ensures level.leftmost in store && store[level.leftmost].root
  {
    var cur := level.leftmost;
    assert LevelRun(store, nkeyatts, level, cur, LevelStart, fuel, fuel, d);
    StartsLive(store, nkeyatts, level, cur, LevelStart, fuel, fuel, d);
    PageSays(store, nkeyatts, level, cur, LevelStart, fuel);
  }

  lemma EveryLevelIs(store: Store, nkeyatts: nat, fuel: nat)
    requires EveryLevel(store, nkeyatts, fuel).Clean?
    ensures BTREE_METAPAGE in store && store[BTREE_METAPAGE].meta.Some?
    ensures var meta := store[BTREE_METAPAGE].meta.value;
            && meta.magic == BTREE_MAGIC && BTREE_MIN_VERSION <= meta.version <= BTREE_VERSION
            && EveryLevel(store, nkeyatts, fuel)
               == LevelsFrom(store, nkeyatts, BtreeLevel(meta.level, meta.root, true), fuel, fuel)
            && (meta.root == P_NONE ==> EveryLevel(store, nkeyatts, fuel).value == [])
  {
    hide LevelCheck;
  }

  /** What passes is sound. */
  lemma PassingIsSound(store: Store, nkeyatts: nat, fuel: nat)
    requires Passes(store, nkeyatts, fuel)
    ensures SoundIndex(store, nkeyatts, TargetsOf(EveryLevel(store, nkeyatts, fuel).value))
  {
    hide EveryLevel, LevelsFrom, LevelCheck, Verified, NoNoneDownlink, SoundLevel, HangsBelow, InPlace;
    var levels := EveryLevel(store, nkeyatts, fuel).value;
    EveryLevelIs(store, nkeyatts, fuel);
    var meta := store[BTREE_METAPAGE].meta.value;
    if meta.root != P_NONE {
      var top := BtreeLevel(meta.level, meta.root, true);
      FirstOfRest(store, nkeyatts, top, fuel, fuel, levels);
      RootIsFlagged(store, nkeyatts, top, fuel, levels[0]);
      CleanIndexIsVerified(store, nkeyatts, fuel, levels);
      LevelsSay(store, nkeyatts, top, fuel, fuel, levels);
    }
  }

  lemma {:induction false} SameLinked(store: Store, a: seq<Block>, b: seq<Block>)
    requires RightLinked(store, a) && RightLinked(store, b) && a[0] == b[0]
    ensures a == b
    decreases |a|
  {
    TwoEnds(store, a, b);
    if |a| > 1 {
      SameLinked(store, a[1..], b[1..]);
      assert a == [a[0]] + a[1..] && b == [b[0]] + b[1..];
    } else {
      assert a == [a[0]] && b == [b[0]];
    }
  }

  lemma {:induction false} ChainedIsLinked(store: Store, bs: seq<Block>, i: nat)
    requires Chained(store, bs) && i < |bs|
    ensures RightLinked(store, bs[i..])
    decreases |bs| - i
  {
    hide Chained;
    BlockThere(store, bs, i);
    LinksOn(store, bs, i);
    assert bs[i..][1..] == bs[i + 1..];
    if i + 1 < |bs| {
      BlockThere(store, bs, i + 1);
      ChainedIsLinked(store, bs, i + 1);
    }
  }

  /** The verifier walks over exactly the pages of a sound level. */
  lemma WalksOver(store: Store, nkeyatts: nat, level: BtreeLevel, fuel: nat, bs: seq<Block>)
    requires Chained(store, bs) && bs[0] == level.leftmost && LevelCheck(store, nkeyatts, level, fuel).Clean?
    ensures LevelCheck(store, nkeyatts, level, fuel).value.targets == bs
  {
    BlockThere(store, bs, 0);
    var d := LevelCheck(store, nkeyatts, level, fuel).value;
    assert LevelRun(store, nkeyatts, level, level.leftmost, LevelStart, fuel, fuel, d);
    hide LevelFrom, LevelRun, Chained, RightLinked;
    TargetsLinked(store, nkeyatts, level, level.leftmost, LevelStart, fuel, fuel, d);
    ChainedIsLinked(store, bs, 0);
    assert bs[0..] == bs;
    LinkedFirst(store, d.targets);
    SameLinked(store, d.targets, bs);
  }

  lemma LinkedFirst(store: Store, bs: seq<Block>)
    requires RightLinked(store, bs)
    ensures bs != []
  {
  }

  lemma {:induction false} WalksOverAll(store: Store, nkeyatts: nat, levels: seq<seq<Block>>, j: nat, steps: nat,
                                        fuel: nat)
    requires SoundTree(store, nkeyatts, levels) && j < |levels| && fuel > |levels| && steps >= |levels| - j
    requires forall k :: 0 <= k < |levels| ==> fuel > |levels[k]|
    ensures levels[j] != []
    ensures var r := LevelsFrom(store, nkeyatts, BtreeLevel(|levels| - 1 - j, levels[j][0], j == 0), steps, fuel);
            r.Clean? && TargetsOf(r.value) == levels[j..]
    decreases |levels| - j
  {
    hide SoundTree, LevelCheck, Chained;
    SoundLevelPasses(store, nkeyatts, levels, j, fuel);
    FirstBlock(store, nkeyatts, levels, j);
    LevelChained(store, nkeyatts, levels, j);
    var level := BtreeLevel(|levels| - 1 - j, levels[j][0], j == 0);
    WalksOver(store, nkeyatts, level, fuel, levels[j]);
    var d := LevelCheck(store, nkeyatts, level, fuel).value;
    if j + 1 < |levels| {
      FirstBlock(store, nkeyatts, levels, j + 1);
      WalksOverAll(store, nkeyatts, levels, j + 1, steps - 1, fuel);
      var rest := LevelsFrom(store, nkeyatts, d.next, steps - 1, fuel).value;
      TargetsFirst(d, rest);
      assert levels[j..] == [levels[j]] + levels[j + 1..];
    } else {
      TargetsFirst(d, []);
      assert levels[j..] == [levels[j]];
    }
  }

  lemma TargetsFirst(d: LevelDone, rest: seq<LevelDone>)
    ensures TargetsOf([d] + rest) == [d.targets] + TargetsOf(rest)
    ensures TargetsOf([d]) == [d.targets] && TargetsOf([]) == []
  {
  }

  lemma LevelChained(store: Store, nkeyatts: nat, levels: seq<seq<Block>>, j: nat)
    requires SoundTree(store, nkeyatts, levels) && j < |levels|
    ensures Chained(store, levels[j]) && InPlace(store, levels[j], |levels| - 1 - j)
  {
    assert SoundLevel(store, nkeyatts, levels[j], |levels| - 1 - j);
    hide SoundTree, LivePage;
  }

  /** No downlink of a sound tree is P_NONE. */
  lemma NoneIsNone(store: Store, nkeyatts: nat, levels: seq<seq<Block>>, j: nat)
    requires SoundTree(store, nkeyatts, levels) && j < |levels|
    ensures P_NONE !in LevelDownlinks(store, levels[j])
  {
    LevelChained(store, nkeyatts, levels, j);
    if j + 1 < |levels| {
      var k := j + 1;
      assert HangsBelow(store, levels[j], levels[k]);
      LevelChained(store, nkeyatts, levels, k);
      hide SoundTree, Under, LevelDownlinks, LevelSeps;
      if P_NONE in LevelDownlinks(store, levels[j]) {
        UnderHasLinks(store, false, None, levels[k], LevelDownlinks(store, levels[j]), LevelSeps(store, levels[j]),
                      P_NONE);
      }
    } else {
      hide SoundTree;
      LeavesHaveNoDownlinks(store, levels[j]);
    }
  }

  /** A sound tree has fewer levels, and each level fewer pages, than the store has blocks. */
  lemma TreeFits(store: Store, nkeyatts: nat, levels: seq<seq<Block>>)
    requires SoundTree(store, nkeyatts, levels)
    ensures |levels| <= |store.Keys| && forall k :: 0 <= k < |levels| ==> |levels[k]| <= |store.Keys|
  {
    hide SoundTree, InPlace;
    forall k | 0 <= k < |levels| ensures |levels[k]| <= |store.Keys| {
      LevelChained(store, nkeyatts, levels, k);
      DistinctFits(levels[k], store.Keys);
    }
    forall k | 0 <= k < |levels|
      ensures levels[k] != [] && levels[k][0] in store && store[levels[k][0]].level == |levels| - 1 - k
    {
      FirstBlock(store, nkeyatts, levels, k);
      LevelChained(store, nkeyatts, levels, k);
      PlaceOf(store, levels[k], |levels| - 1 - k);
    }
    var firsts := seq(|levels|, k requires 0 <= k < |levels| => levels[k][0]);
    DistinctFits(firsts, store.Keys);
  }

  lemma PlaceOf(store: Store, bs: seq<Block>, level: nat)
    requires bs != [] && bs[0] in store && InPlace(store, bs, level)
    ensures store[bs[0]].level == level
  {
    assert bs[0] in bs;
  }

  /** What is sound passes. */
  lemma SoundIsPassing(store: Store, nkeyatts: nat, levels: seq<seq<Block>>, fuel: nat)
    requires SoundIndex(store, nkeyatts, levels) && fuel > |store.Keys|
    ensures Passes(store, nkeyatts, fuel)
  {
    hide SoundTree, EveryLevel, LevelsFrom, LevelDownlinks, InPlace;
    var meta := store[BTREE_METAPAGE].meta.value;
    if meta.root != P_NONE {
      TreeFits(store, nkeyatts, levels);
      SoundIndexPasses(store, nkeyatts, levels, fuel);
      EveryLevelIs(store, nkeyatts, fuel);
      WalksOverAll(store, nkeyatts, levels, 0, fuel, fuel);
      var value := EveryLevel(store, nkeyatts, fuel).value;
      assert TargetsOf(value) == levels by { assert levels[0..] == levels; }
      forall d | d in value ensures P_NONE !in LevelDownlinks(store, d.targets) {
        var j :| 0 <= j < |value| && value[j] == d;
        NoneIsNone(store, nkeyatts, levels, j);
      }
      LevelChained(store, nkeyatts, levels, 0);
    } else {
      SoundIndexPasses(store, nkeyatts, levels, fuel);
      EveryLevelIs(store, nkeyatts, fuel);
    }
  }

  /** The exact verdict, for any budget of more steps than there are blocks: the verifier is silent, on an index with
      none of the two things it does not look at, if and only if the index is sound. */
  lemma PassesIffSound(store: Store, nkeyatts: nat, fuel: nat)
    requires fuel > |store.Keys|
    ensures Passes(store, nkeyatts, fuel) <==> exists levels :: SoundIndex(store, nkeyatts, levels)
  {
    hide Passes, SoundIndex, EveryLevel;
    if Passes(store, nkeyatts, fuel) {
      PassingIsSound(store, nkeyatts, fuel);
    }
    forall levels | SoundIndex(store, nkeyatts, levels) ensures Passes(store, nkeyatts, fuel) {
      SoundIsPassing(store, nkeyatts, levels, fuel);
    }
  }

  // ---- Interrupted page deletions ----

  lemma {:induction false} UnderRepeats(store: Store, split: bool, sep: Option<Tuple>, cs: seq<Block>,
                                        links: seq<Block>, seps: seq<Option<Tuple>>, c: Block)
    returns (s: Option<Tuple>)
    requires |links| == |seps| && Under(store, split, sep, cs, links, seps) && c in cs
    ensures c in store && Repeats(store[c], s) && (s == sep || s in seps)
    decreases |cs|
  {
    var p := store[cs[0]];
    if cs[0] == c {
      s := if links != [] && cs[0] == links[0] then seps[0] else sep;
    } else if links != [] && cs[0] == links[0] {
      s := UnderRepeats(store, p.incompleteSplit, seps[0], cs[1..], links[1..], seps[1..], c);
    } else {
      s := UnderRepeats(store, p.incompleteSplit, sep, cs[1..], links, seps, c);
    }
  }

  lemma {:induction false} SepsArePivots(store: Store, nkeyatts: nat, p: Page, o: nat, s: Option<Tuple>)
    requires Attributed(p, nkeyatts) && !p.leaf && p.FirstDataKey() <= o && s in SepsFrom(p, o)
    ensures s.Some? ==> PivotTuple(s.value, nkeyatts)
    decreases |p.items| + 1 - o
  {
    hide PivotTuple, MinusInfinity, LeafTuple;
    if s == SepAfter(p, o) {
      if o < |p.items| {
        var o' := o + 1;
        assert DataOffset(p, o');
      }
    } else {
      SepsArePivots(store, nkeyatts, p, o + 1, s);
    }
  }

  lemma {:induction false} LevelSepsArePivots(store: Store, nkeyatts: nat, bs: seq<Block>, s: Option<Tuple>)
    requires forall b <- bs :: b in store && !store[b].leaf && Attributed(store[b], nkeyatts)
    requires s in LevelSeps(store, bs)
    ensures s.Some? ==> PivotTuple(s.value, nkeyatts)
  {
    hide Attributed, PivotTuple, SepsFrom;
    if bs != [] {
      var p := store[bs[0]];
      assert bs[0] in bs;
      if !p.Ignore() && s in SepsFrom(p, p.FirstDataKey()) {
        SepsArePivots(store, nkeyatts, p, p.FirstDataKey(), s);
      } else {
        LevelSepsArePivots(store, nkeyatts, bs[1..], s);
      }
    }
  }

  lemma PagesAttributed(store: Store, nkeyatts: nat, bs: seq<Block>, level: nat)
    requires SoundLevel(store, nkeyatts, bs, level) && level > 0
    ensures forall b <- bs :: b in store && !store[b].leaf && Attributed(store[b], nkeyatts)
  {
    hide Attributed, PostingsAscend, KeysAbove, OrderedPage, BoundedPage;
  }

  /** A half-dead page below another level passes only with a high key that repeats a separator, attributes included.
      The high key that an interrupted deletion leaves on its leaf has no attributes: such an index is reported,
      although the next insertion or vacuum can go on with it. */
  lemma HalfDeadRepeats(store: Store, nkeyatts: nat, levels: seq<seq<Block>>, j: nat, c: Block)
    requires SoundTree(store, nkeyatts, levels) && 0 < j < |levels| && c in levels[j] && c in store && store[c].halfDead
    ensures store[c].incompleteSplit || (|store[c].items| >= 1 && PivotTuple(store[c].items[0], nkeyatts))
  {
    var i := j - 1;
    assert HangsBelow(store, levels[i], levels[j]);
    assert SoundLevel(store, nkeyatts, levels[i], |levels| - 1 - i);
    InLevel(store, nkeyatts, levels, j, c);
    hide SoundTree, SoundLevel, Under, PivotTuple, LevelDownlinks;
    var bs := levels[i];
    FirstRepeats(store, levels[i], levels[j]);
    PagesAttributed(store, nkeyatts, bs, |levels| - 1 - i);
    var s := UnderRepeats(store, false, None, levels[j], LevelDownlinks(store, bs), LevelSeps(store, bs), c);
    if s.Some? {
      LevelSepsArePivots(store, nkeyatts, bs, s);
      SamePivot(store[c], s.value, nkeyatts);
    }
  }

  lemma FirstRepeats(store: Store, bs: seq<Block>, cs: seq<Block>)
    requires HangsBelow(store, bs, cs)
    ensures Under(store, false, None, cs, LevelDownlinks(store, bs), LevelSeps(store, bs))
  {
  }

  lemma SamePivot(p: Page, s: Tuple, nkeyatts: nat)
    requires PivotTuple(s, nkeyatts)
    ensures |p.items| >= 1 && PivotIdentical(p.items[0], s) ==> PivotTuple(p.items[0], nkeyatts)
  {
  }

  /** So an index with a half-dead leaf whose high key has no attributes never passes. */
  lemma DummyHighKeyIsReported(store: Store, nkeyatts: nat, fuel: nat, j: nat, c: Block)
    requires EveryLevel(store, nkeyatts, fuel).Clean? && Passes(store, nkeyatts, fuel)
    requires 0 < j < |EveryLevel(store, nkeyatts, fuel).value|
             && c in EveryLevel(store, nkeyatts, fuel).value[j].targets
    requires c in store && store[c].halfDead && !store[c].incompleteSplit
    ensures |store[c].items| >= 1 && store[c].items[0].attrs != []
  {
    hide EveryLevel, Passes, SoundTree;
    PassingIsSound(store, nkeyatts, fuel);
    HalfDeadRepeats(store, nkeyatts, TargetsOf(EveryLevel(store, nkeyatts, fuel).value), j, c);
  }

  /** A root over two leaves, and between them a third whose deletion was interrupted: its downlink is gone, it is
      half-dead, and its high key has no attributes. */
  function CutRoot(): Page {
    Page(None, false, true, false, false, false, false, false, P_NONE, P_NONE, 1,
         [Tuple(true, [], [], 2), Tuple(true, [5], [], 4)])
  }

  function CutLeft(): Page {
    Page(None, true, false, false, false, false, false, false, P_NONE, 3, 0, [Tuple(true, [5], [], P_NONE)])
  }

  function CutDead(): Page {
    Page(None, true, false, false, true, false, false, false, 2, 4, 0, [Tuple(true, [], [], InvalidBlockNumber)])
  }

  function CutRight(): Page {
    Page(None, true, false, false, false, false, false, false, 3, P_NONE, 0, [])
  }

  function CutStore(): Store {
    map[0 := Page(Some(Meta(BTREE_MAGIC, BTREE_VERSION, 1, 1)), false, false, false, false, false, false, false, 0, 0, 0, []),
        1 := CutRoot(), 2 := CutLeft(), 3 := CutDead(), 4 := CutRight()]
  }

  lemma CutWalks()
    ensures var t := Target(CutRoot(), None);
            && HighkeyCheck(CutStore(), t, 1, NoCarry, 5) == Clean(Walked(Carry(3, false), [Visit(2, true)]))
            && HighkeyCheck(CutStore(), t, 2, Carry(3, false), 5) == Corrupt(PivotMismatch)
  {
    var store, t := CutStore(), Target(CutRoot(), None);
    assert ReadPage(store, 2) == Clean(CutLeft()) && ReadPage(store, 3) == Clean(CutDead());
    assert HighKeyMatches(t, CutLeft(), 2) == Clean(());
    assert HighKeyMatches(t, CutDead(), 2) == Corrupt(PivotMismatch);
    assert HighkeyStep(store, t, 1, 2, InvalidBlockNumber, 2, false, true, 5) == Clean(CutLeft());
    assert HighkeyStep(store, t, 2, 4, 3, 3, false, true, 5) == Corrupt(PivotMismatch);
  }

  lemma CutItems()
    ensures ItemsFrom(CutStore(), 1, Target(CutRoot(), None), 1, NoCarry, 5) == Corrupt(PivotMismatch)
  {
    var store, t := CutStore(), Target(CutRoot(), None);
    CutWalks();
    hide HighkeyCheck;
    assert ReadPage(store, 4) == Clean(CutRight());
    assert ChildCheck(store, t, 2, Carry(3, false), 5) == Corrupt(PivotMismatch);
    assert ItemCheck(store, CutRoot(), 2, 5) == Clean(());
    assert ItemsFrom(store, 1, t, 2, Carry(3, false), 5) == Corrupt(PivotMismatch);
  }

  /** It is reported as corrupt. */
  lemma InterruptedDeletionIsReported()
    ensures EveryLevel(CutStore(), 1, 5) == Corrupt(PivotMismatch)
  {
    var store, level := CutStore(), BtreeLevel(1, 1, true);
    CutItems();
    hide ItemsFrom;
    assert ReadPage(store, 1) == Clean(CutRoot());
    assert TargetCheck(store, 1, Target(CutRoot(), None), NoCarry, 5) == Corrupt(PivotMismatch);
    assert PlaceCheck(CutRoot(), level, P_NONE, LevelStart.next) == Clean(BtreeLevel(0, 2, false));
    assert PageOnLevel(store, 1, level, 1, LevelStart, 5) == Corrupt(PivotMismatch);
    assert LevelCheck(store, 1, level, 5) == Corrupt(PivotMismatch);
    hide LevelCheck, PageOnLevel;
    assert LevelsFrom(store, 1, level, 5, 5) == Corrupt(PivotMismatch);
  }
}
