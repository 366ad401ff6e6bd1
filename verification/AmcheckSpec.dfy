/** What each routine of the readonly B-tree verifier computes, as functions of the page store.
    Every walk that a corrupt store could make endless takes a step budget; results are stated for walks
    that end within it. Walks also return their trace: the child pages they stepped on. */
module AmcheckSpec {
  import opened Wrappers
  import opened Lex
  import opened BTreePages

  /** prevrightlink and previncompletesplit. */
  datatype Carry = Carry(rightlink: Block, incomplete: bool)

  const NoCarry := Carry(InvalidBlockNumber, false)

  /** The page being checked and the high key of its left sibling. */
  datatype Target = Target(page: Page, lowkey: Option<Tuple>)

  /** A child page stepped on, and whether it was reached as the target of a downlink. */
  datatype Visit = Visit(blk: Block, viaDownlink: bool)

  datatype Walked = Walked(carry: Carry, path: seq<Visit>)

  datatype BtreeLevel = BtreeLevel(level: nat, leftmost: Block, isTrueRoot: bool)

  /** A verified level: where the next one starts, the pages checked and the child pages stepped on. */
  datatype LevelDone = LevelDone(next: BtreeLevel, targets: seq<Block>, path: seq<Visit>)

  function PredLevel(level: nat): nat {
    if level == 0 then 0xFFFF_FFFF else level - 1
  }

  // ---- Missing downlinks ----

  /** Descend first downlinks to a leaf; accept only a half-dead leaf naming blk as its top parent. */
  function TopParentDescent(store: Store, blk: Block, child: Block, level: nat, fuel: nat): Outcome<()>
    decreases fuel
  {
    if fuel == 0 then OutOfFuel else
    var c :- ReadPage(store, child);
    if c.leaf then
      var _ :- Check(!c.deleted, DownlinkToDeletedLeaf);
      if c.halfDead && !c.Rightmost() then
        var hikey :- GetItem(c, P_HIKEY);
        Check(hikey.link == blk, InternalLacksDownlink)
      else Corrupt(InternalLacksDownlink)
    else
      var _ :- Check(c.level == PredLevel(level), UnderCheckLevel);
      var first :- GetItem(c, c.FirstDataKey());
      TopParentDescent(store, blk, first.link, c.level, fuel - 1)
  }

  function DownlinkMissing(store: Store, rightsplit: bool, blk: Block, page: Page, fuel: nat): Outcome<()> {
    if page.root || rightsplit then Clean(()) else
    var _ :- Check(!page.leaf, LeafLacksDownlink);
    var first :- GetItem(page, page.FirstDataKey());
    TopParentDescent(store, blk, first.link, page.level, fuel)
  }

  // ---- High keys along the child level ----

  /** The separator a child's high key has to repeat: the pivot at the offset, the target's own high key
      past the last pivot, or the left sibling's high key before the first. */
  function Separator(t: Target, offset: nat): Outcome<Tuple> {
    if !t.page.IsNegativeInfinity(offset) then
      if offset > |t.page.items| then
        var _ :- Check(!t.page.Rightmost(), NoRightmostPivot);
        GetItem(t.page, P_HIKEY)
      else GetItem(t.page, offset)
    else if t.lowkey.None? then Corrupt(NoLowKey) else Clean(t.lowkey.value)
  }

  function HighKeyMatches(t: Target, child: Page, pivotOffset: nat): Outcome<()> {
    if child.incompleteSplit || child.Rightmost() then Clean(()) else
    var highkey :- GetItem(child, P_HIKEY);
    var pivot :- Separator(t, pivotOffset);
    Check(PivotIdentical(highkey, pivot), PivotMismatch)
  }

  /** One page of the child level. prev is the remembered rightlink the whole walk started from. */
  function HighkeyStep(store: Store, t: Target, offset: nat, downlink: Block, prev: Block,
                       blk: Block, rightsplit: bool, first: bool, fuel: nat): (r: Outcome<Page>)
    ensures r.Clean? ==> blk in store && r.value == store[blk]
  {
    var page :- ReadPage(store, blk);
    var _ :- Check(!(first && prev == InvalidBlockNumber && !page.Leftmost()), ChildNotLeftmost);
    var _ :- Check(!((!page.deleted || page.fullXid) && page.level != PredLevel(t.page.level)), ChildLevel);
    var _ :- Check(!((!first && blk == prev) || blk == page.prev), CircularChain);
    var _ :- if blk != downlink && !page.Ignore() then DownlinkMissing(store, rightsplit, blk, page, fuel)
             else Clean(());
    var _ :- HighKeyMatches(t, page, if blk == downlink then offset + 1 else offset);
    Clean(page)
  }

  /** The loop of bt_child_highkey_check, from the page blk on. */
  function HighkeyWalk(store: Store, t: Target, offset: nat, downlink: Block, prev: Block,
                       blk: Block, rightsplit: bool, first: bool, steps: nat, fuel: nat): Outcome<Walked>
    decreases steps
  {
    if steps == 0 then OutOfFuel else
    if blk == P_NONE && downlink == P_NONE then Clean(Walked(NoCarry, [])) else
    if blk == P_NONE then Corrupt(CannotTraverse) else
    var page :- HighkeyStep(store, t, offset, downlink, prev, blk, rightsplit, first, fuel);
    if blk == downlink then
      Clean(Walked(Carry(page.next, page.incompleteSplit), [Visit(blk, true)]))
    else
      var rest :- HighkeyWalk(store, t, offset, downlink, prev, page.next, page.incompleteSplit, false, steps - 1,
                              fuel);
      Clean(Walked(rest.carry, [Visit(blk, false)] + rest.path))
  }

  /** bt_child_highkey_check; offset InvalidOffsetNumber asks for the sweep after the last downlink. */
  function HighkeyCheck(store: Store, t: Target, offset: nat, carry: Carry, fuel: nat): Outcome<Walked> {
    var item :- if offset == InvalidOffsetNumber then Clean(Tuple(true, [], [], P_NONE)) else GetItem(t.page, offset);
    var unlinked := carry.rightlink == InvalidBlockNumber;
    HighkeyWalk(store, t, offset, item.link, carry.rightlink,
                if unlinked then item.link else carry.rightlink, !unlinked && carry.incomplete, true, fuel, fuel)
  }

  // ---- One downlink ----

  /** Items offset.. of the child are all above the parent's key. */
  function LowerBoundHolds(child: Page, key: seq<int>, offset: nat): Outcome<()>
    decreases |child.items| - offset
  {
    if offset > |child.items| then Clean(()) else
    var item :- GetItem(child, offset);
    var _ :- Check(child.IsNegativeInfinity(offset) || Less(key, Key(item)), DownlinkLowerBound);
    LowerBoundHolds(child, key, offset + 1)
  }

  /** bt_child_check. */
  function ChildCheck(store: Store, t: Target, offset: nat, carry: Carry, fuel: nat): Outcome<Walked> {
    var item :- GetItem(t.page, offset);
    var child :- ReadPage(store, item.link);
    var walked :- HighkeyCheck(store, t, offset, carry, fuel);
    var _ :- Check(!child.deleted, DownlinkToDeleted);
    var _ :- LowerBoundHolds(child, Key(item), child.FirstDataKey());
    Clean(walked)
  }

  // ---- One target page ----

  /** bt_right_page_check_scankey: the first real item to the right, if any. */
  function RightItem(store: Store, next: Block, fuel: nat): Outcome<Option<Tuple>>
    decreases fuel
  {
    if fuel == 0 then OutOfFuel else
    var page :- ReadPage(store, next);
    if page.Ignore() && !page.Rightmost() then RightItem(store, page.next, fuel - 1) else
    var offset := if page.leaf then page.FirstDataKey() else page.FirstDataKey() + 1;
    if offset <= |page.items| then
      var item :- GetItem(page, offset);
      Clean(Some(item))
    else Clean(None)
  }

  function PostingOrdered(tids: seq<int>, i: nat): Outcome<()>
    requires 1 <= i
    decreases |tids| - i
  {
    if i >= |tids| then Clean(()) else
    var _ :- Check(tids[i - 1] < tids[i], MisplacedPostingTid);
    PostingOrdered(tids, i + 1)
  }

  /** The checks of one real item that stay on the level of the target. */
  function ItemCheck(store: Store, page: Page, offset: nat, fuel: nat): Outcome<()> {
    var item :- GetItem(page, offset);
    var _ :- if item.pivot then Clean(()) else PostingOrdered(item.tids, 1);
    var hikey := page.items[P_HIKEY - 1];
    var _ :- Check(page.Rightmost() ||
                   if page.leaf then Leq(MaxKey(item), Key(hikey)) else Less(Key(item), Key(hikey)), HighKeyInvariant);
    if offset + 1 <= |page.items| then
      Check(Less(Key(item), Key(page.items[offset])), ItemOrder)
    else if page.Rightmost() then Clean(()) else
      var right :- RightItem(store, page.next, fuel);
      Check(right.None? || Less(MaxKey(item), Key(right.value)), CrossPageItemOrder)
  }

  /** The item loop of bt_target_page_check from the given offset on, and the sweep after it. */
  function ItemsFrom(store: Store, nkeyatts: nat, t: Target, offset: nat, carry: Carry, fuel: nat): Outcome<Walked>
    requires 1 <= offset
    decreases |t.page.items| + 1 - offset
  {
    if offset > |t.page.items| then
      if !t.page.leaf && t.page.Rightmost() then HighkeyCheck(store, t, InvalidOffsetNumber, carry, fuel)
      else Clean(Walked(carry, []))
    else
      var _ :- Check(NattsOk(nkeyatts, t.page, offset), WrongAttributeCount);
      var here :-
        if t.page.IsNegativeInfinity(offset) then HighkeyCheck(store, t, offset, carry, fuel) else
        var _ :- ItemCheck(store, t.page, offset, fuel);
        if t.page.leaf then Clean(Walked(carry, [])) else ChildCheck(store, t, offset, carry, fuel);
      var rest :- ItemsFrom(store, nkeyatts, t, offset + 1, here.carry, fuel);
      Clean(Walked(rest.carry, here.path + rest.path))
  }

  /** bt_target_page_check. */
  function TargetCheck(store: Store, nkeyatts: nat, t: Target, carry: Carry, fuel: nat): Outcome<Walked> {
    var _ :- if t.page.Rightmost() then Clean(()) else
               var _ :- GetItem(t.page, P_HIKEY);
               Check(NattsOk(nkeyatts, t.page, P_HIKEY), WrongAttributeCount);
    ItemsFrom(store, nkeyatts, t, t.page.FirstDataKey(), carry, fuel)
  }

  // ---- One level ----

  /** The checks of a live page against its place on the level; the level below it is known afterwards. */
  function PlaceCheck(page: Page, level: BtreeLevel, left: Block, next: BtreeLevel): Outcome<BtreeLevel> {
    var next' :-
      if next.leftmost != InvalidBlockNumber then Clean(next) else
      var _ :- Check(page.Leftmost(), NotLeftmost);
      var _ :- Check(!(level.isTrueRoot && !page.root), NotTrueRoot);
      if page.leaf then Clean(BtreeLevel(InvalidBtreeLevel, P_NONE, false)) else
      var first :- GetItem(page, page.FirstDataKey());
      Clean(BtreeLevel(PredLevel(page.level), first.link, false));
    var _ :- Check(page.prev == left, LinksDisagree);
    var _ :- Check(page.level == level.level, LevelMismatch);
    Clean(next')
  }

  /** What is carried from one page of a level to the next. */
  datatype LevelState = LevelState(left: Block, lowkey: Option<Tuple>, carry: Carry, next: BtreeLevel)

  const LevelStart := LevelState(P_NONE, None, NoCarry, BtreeLevel(InvalidBtreeLevel, InvalidBlockNumber, false))

  datatype PageDone = PageDone(state: LevelState, path: seq<Visit>, rightlink: Block)

  /** One iteration of the do loop of bt_check_level_from_leftmost. */
  function PageOnLevel(store: Store, nkeyatts: nat, level: BtreeLevel, cur: Block, s: LevelState,
                       fuel: nat): Outcome<PageDone> {
    var page :- ReadPage(store, cur);
    var (next, walked) :-
      if page.Ignore() then
        var _ :- Check(!page.deleted, LinkToDeleted);
        var _ :- Check(!page.Rightmost(), FellOffEnd);
        Clean((s.next, Walked(s.carry, [])))
      else
        var next' :- PlaceCheck(page, level, s.left, s.next);
        var w :- TargetCheck(store, nkeyatts, Target(page, s.lowkey), s.carry, fuel);
        Clean((next', w));
    var _ :- Check(!(cur == s.left || cur == page.prev), CircularChain);
    var lowkey :- if page.Rightmost() then Clean(None) else
                    var hikey :- GetItem(page, P_HIKEY);
                    Clean(Some(hikey));
    Clean(PageDone(LevelState(cur, lowkey, walked.carry, next), walked.path, page.next))
  }

  /** The do loop, from the page cur on. */
  function LevelFrom(store: Store, nkeyatts: nat, level: BtreeLevel, cur: Block, s: LevelState,
                     steps: nat, fuel: nat): Outcome<LevelDone>
    decreases steps
  {
    if steps == 0 then OutOfFuel else
    var done :- PageOnLevel(store, nkeyatts, level, cur, s, fuel);
    if done.rightlink == P_NONE then Clean(LevelDone(done.state.next, [cur], done.path)) else
    var rest :- LevelFrom(store, nkeyatts, level, done.rightlink, done.state, steps - 1, fuel);
    Clean(LevelDone(rest.next, [cur] + rest.targets, done.path + rest.path))
  }

  /** bt_check_level_from_leftmost. */
  function LevelCheck(store: Store, nkeyatts: nat, level: BtreeLevel, fuel: nat): Outcome<LevelDone> {
    LevelFrom(store, nkeyatts, level, level.leftmost, LevelStart, fuel, fuel)
  }

  // ---- The whole tree ----

  /** The level loop of bt_check_every_level. */
  function LevelsFrom(store: Store, nkeyatts: nat, level: BtreeLevel, steps: nat, fuel: nat): Outcome<seq<LevelDone>>
    decreases steps
  {
    if level.leftmost == P_NONE then Clean([]) else
    if steps == 0 then OutOfFuel else
    var done :- LevelCheck(store, nkeyatts, level, fuel);
    var _ :- Check(done.next.leftmost != InvalidBlockNumber, NoValidPages);
    var rest :- LevelsFrom(store, nkeyatts, done.next, steps - 1, fuel);
    Clean([done] + rest)
  }

  /** bt_check_every_level without the heap comparison. */
  function EveryLevel(store: Store, nkeyatts: nat, fuel: nat): Outcome<seq<LevelDone>> {
    var metapage :- ReadPage(store, BTREE_METAPAGE);
    var meta := metapage.meta.value;
    LevelsFrom(store, nkeyatts, BtreeLevel(meta.level, meta.root, true), fuel, fuel)
  }
}
