/** What silence of the readonly verifier proves about the index. */
module AmcheckTheorems {
  import opened Wrappers
  import opened Lex
  import opened BTreePages
  import opened AmcheckSpec
  import opened AmcheckChain

  // ---- Downlink connectivity of one level ----

  /** One right-link chain of pages, from a leftmost page to a rightmost one, that takes exactly the given
      downlinks in order and passes no other live page without an excuse. */
  ghost predicate ChildChain(store: Store, path: seq<Visit>, downlinks: seq<Block>) {
    && path != [] && Marks(path) == downlinks && path[0].viaDownlink
    && (forall i :: 0 <= i < |path| ==> path[i].blk in store && path[i].blk != P_NONE)
    && store[path[0].blk].Leftmost()
    && (forall i, j :: 0 <= i && j == i + 1 && j < |path| ==> store[path[i].blk].next == path[j].blk)
    && store[path[|path| - 1].blk].Rightmost()
    && (forall i :: 0 <= i < |path| && !path[i].viaDownlink && !store[path[i].blk].Ignore() ==>
          Excused(store, path[i].blk, i > 0 && store[path[i - 1].blk].incompleteSplit))
  }

  lemma {:induction false} SegmentUnrolled(store: Store, start: Carry, path: seq<Visit>)
    requires Segment(store, start.rightlink, start.incomplete, path) && Unbroken(store, path)
    ensures forall i :: 0 <= i < |path| ==> path[i].blk in store && path[i].blk != P_NONE
    ensures forall i, j :: 0 <= i && j == i + 1 && j < |path| ==> store[path[i].blk].next == path[j].blk
    ensures forall i :: 0 <= i < |path| && !path[i].viaDownlink && !store[path[i].blk].Ignore() ==>
              Excused(store, path[i].blk, if i == 0 then start.incomplete else store[path[i - 1].blk].incompleteSplit)
    decreases |path|
  {
    if path != [] {
      var page := store[path[0].blk];
      assert path[0] in path;
      forall v | v in path[1..] ensures v in path {}
      SegmentUnrolled(store, Carry(page.next, page.incompleteSplit), path[1..]);
      assert forall i :: 1 <= i < |path| ==> path[i] == path[1..][i - 1];
    }
  }

  lemma {:induction false} MarksAreBlocks(path: seq<Visit>, b: Block)
    requires b in Marks(path)
    ensures Visit(b, true) in path
  {
    if !(path[0].viaDownlink && path[0].blk == b) {
      MarksAreBlocks(path[1..], b);
    }
  }

  lemma {:induction false} BlocksAreMarks(path: seq<Visit>, b: Block)
    requires Visit(b, true) in path
    ensures b in Marks(path)
  {
    if path[0] != Visit(b, true) {
      BlocksAreMarks(path[1..], b);
    }
  }

  /** Every downlink leads to a page, and on from there: none is P_NONE, and no page one leads to has
      InvalidBlockNumber as its right link. */
  ghost predicate LeadOn(store: Store, downlinks: seq<Block>) {
    P_NONE !in downlinks && forall b <- downlinks :: b in store ==> store[b].next != InvalidBlockNumber
  }

  lemma PathUnbroken(store: Store, path: seq<Visit>)
    requires Stored(store, path) && GoesOn(store, path) && LeadOn(store, Marks(path))
    ensures Unbroken(store, path)
  {
    forall v | v in path ensures v.blk in store && store[v.blk].next != InvalidBlockNumber {
      if v.viaDownlink {
        assert v == Visit(v.blk, true);
        BlocksAreMarks(path, v.blk);
      }
    }
  }

  /** A clean check of an internal level whose downlinks lead on: the level's downlinks, negative infinity
      items included, are the marked pages of one right-link chain, in order. */
  lemma DownlinksFormOneChain(store: Store, nkeyatts: nat, level: BtreeLevel, fuel: nat, d: LevelDone)
    requires level.level != 0 && level.leftmost != P_NONE
    requires LevelCheck(store, nkeyatts, level, fuel) == Clean(d)
    requires LeadOn(store, LevelDownlinks(store, d.targets))
    ensures ChildChain(store, d.path, LevelDownlinks(store, d.targets))
  {
    hide PageOnLevel;
    LevelHasShape(store, nkeyatts, level, level.leftmost, LevelStart, fuel, fuel, d);
    LevelGoesOn(store, nkeyatts, level, level.leftmost, LevelStart, fuel, fuel, d);
    var ds := LevelDownlinks(store, d.targets);
    PathUnbroken(store, d.path);
    SegmentUnrolled(store, Begin(NoCarry, ds), d.path);
  }

  /** The downlinks of a chain lead on, all of them. */
  lemma ChainLeadsOn(store: Store, path: seq<Visit>, downlinks: seq<Block>)
    requires ChildChain(store, path, downlinks)
    ensures LeadOn(store, downlinks)
  {
    forall b | b in downlinks ensures b != P_NONE && b in store && store[b].next != InvalidBlockNumber {
      MarksAreBlocks(path, b);
      var i :| 0 <= i < |path| && path[i] == Visit(b, true);
      if i < |path| - 1 {
        var j := i + 1;
        assert store[path[i].blk].next == path[j].blk;
      }
    }
  }

  /** The exact condition, for every clean check of an internal level: its downlinks form one chain if and only if none
      is P_NONE and no page they lead to has InvalidBlockNumber as its right link. Either makes the walk along the child
      level start afresh without a report. */
  lemma ChainIffDownlinksLeadOn(store: Store, nkeyatts: nat, level: BtreeLevel, fuel: nat, d: LevelDone)
    requires level.level != 0 && level.leftmost != P_NONE
    requires LevelCheck(store, nkeyatts, level, fuel) == Clean(d)
    ensures (exists path :: ChildChain(store, path, LevelDownlinks(store, d.targets)))
            <==> LeadOn(store, LevelDownlinks(store, d.targets))
  {
    var ds := LevelDownlinks(store, d.targets);
    hide LevelCheck;
    if LeadOn(store, ds) {
      DownlinksFormOneChain(store, nkeyatts, level, fuel, d);
    }
    forall path | ChildChain(store, path, ds) ensures LeadOn(store, ds) {
      ChainLeadsOn(store, path, ds);
    }
  }

  /** A two-page file that passes: the root's only downlink is P_NONE, so the level below is never looked at. */
  lemma NoneDownlinkPasses()
    ensures var root := Page(None, false, true, false, false, false, false, false, P_NONE, P_NONE, 1,
                             [Tuple(true, [], [], P_NONE)]);
            var meta := Page(Some(Meta(BTREE_MAGIC, BTREE_VERSION, 1, 1)), false, false, false, false, false, false,
                             false, 0, 0, 0, []);
            var store: Store := map[0 := meta, 1 := root];
            EveryLevel(store, 1, 2).Clean? && LevelDownlinks(store, [1]) == [P_NONE]
  {
    var root := Page(None, false, true, false, false, false, false, false, P_NONE, P_NONE, 1,
                     [Tuple(true, [], [], P_NONE)]);
    var meta := Page(Some(Meta(BTREE_MAGIC, BTREE_VERSION, 1, 1)), false, false, false, false, false, false, false, 0,
                     0, 0, []);
    var store: Store := map[0 := meta, 1 := root];
    var t := Target(root, None);
    assert HighkeyCheck(store, t, 1, NoCarry, 2) == Clean(Walked(NoCarry, []));
    assert HighkeyCheck(store, t, 0, NoCarry, 2) == Clean(Walked(NoCarry, []));
    assert ItemsFrom(store, 1, t, 2, NoCarry, 2) == Clean(Walked(NoCarry, []));
    assert NattsOk(1, root, 1) && root.IsNegativeInfinity(1);
    var none: seq<Visit> := [];
    assert ItemsFrom(store, 1, t, 1, NoCarry, 2) == Clean(Walked(NoCarry, none + none));
    assert none + none == none;
    assert TargetCheck(store, 1, t, NoCarry, 2) == Clean(Walked(NoCarry, []));
    var level := BtreeLevel(1, 1, true);
    var next := BtreeLevel(0, P_NONE, false);
    assert PageOnLevel(store, 1, level, 1, LevelStart, 2)
           == Clean(PageDone(LevelState(1, None, NoCarry, next), [], P_NONE));
    assert LevelCheck(store, 1, level, 2) == Clean(LevelDone(next, [1], []));
    assert LevelsFrom(store, 1, next, 1, 2) == Clean([]);
    assert LevelDownlinks(store, [1]) == Downlinks(root) == DownlinksFrom(root, 1);
    assert DownlinksFrom(root, 2) == [];
  }

  /** A root over two leaves, the first of which has InvalidBlockNumber as its right link. */
  function StrayRoot(): Page {
    Page(None, false, true, false, false, false, false, false, P_NONE, P_NONE, 1,
         [Tuple(true, [], [], 2), Tuple(true, [5], [], 3)])
  }

  function StrayLeft(): Page {
    Page(None, true, false, false, false, false, false, false, P_NONE, InvalidBlockNumber, 0,
         [Tuple(true, [5], [], P_NONE)])
  }

  function StrayRight(): Page {
    Page(None, true, false, false, false, false, false, false, P_NONE, P_NONE, 0, [])
  }

  function StrayStore(): Store { map[1 := StrayRoot(), 2 := StrayLeft(), 3 := StrayRight()] }

  lemma StrayWalks()
    ensures var t := Target(StrayRoot(), None);
            && HighkeyCheck(StrayStore(), t, 1, NoCarry, 5) == Clean(Walked(NoCarry, [Visit(2, true)]))
            && HighkeyCheck(StrayStore(), t, 2, NoCarry, 5) == Clean(Walked(Carry(P_NONE, false), [Visit(3, true)]))
            && HighkeyCheck(StrayStore(), t, InvalidOffsetNumber, Carry(P_NONE, false), 5) == Clean(Walked(NoCarry, []))
  {
    var store, t := StrayStore(), Target(StrayRoot(), None);
    assert ReadPage(store, 2) == Clean(StrayLeft()) && ReadPage(store, 3) == Clean(StrayRight());
    assert HighKeyMatches(t, StrayLeft(), 2) == Clean(());
    assert HighkeyStep(store, t, 1, 2, InvalidBlockNumber, 2, false, true, 5) == Clean(StrayLeft());
    assert HighkeyStep(store, t, 2, 3, InvalidBlockNumber, 3, false, true, 5) == Clean(StrayRight());
  }

  lemma StrayItems()
    ensures ItemsFrom(StrayStore(), 1, Target(StrayRoot(), None), 1, NoCarry, 5)
            == Clean(Walked(NoCarry, [Visit(2, true), Visit(3, true)]))
  {
    var store, t := StrayStore(), Target(StrayRoot(), None);
    StrayWalks();
    hide HighkeyCheck;
    assert LowerBoundHolds(StrayRight(), [5], 1) == Clean(());
    assert ReadPage(store, 3) == Clean(StrayRight());
    assert ChildCheck(store, t, 2, NoCarry, 5) == Clean(Walked(Carry(P_NONE, false), [Visit(3, true)]));
    assert ItemCheck(store, StrayRoot(), 2, 5) == Clean(());
    assert ItemsFrom(store, 1, t, 3, Carry(P_NONE, false), 5) == Clean(Walked(NoCarry, []));
    assert [Visit(3, true)] + [] == [Visit(3, true)];
    assert ItemsFrom(store, 1, t, 2, NoCarry, 5) == Clean(Walked(NoCarry, [Visit(3, true)]));
    assert [Visit(2, true)] + [Visit(3, true)] == [Visit(2, true), Visit(3, true)];
  }

  /** A level that passes although its two downlinks, neither of them P_NONE, are on no chain: the right link of the
      first leaf is InvalidBlockNumber, which makes the check of the second downlink start afresh. */
  lemma StrayRightLinkPasses()
    ensures var level := BtreeLevel(1, 1, true);
            && LevelCheck(StrayStore(), 1, level, 5).Clean?
            && LevelDownlinks(StrayStore(), LevelCheck(StrayStore(), 1, level, 5).value.targets) == [2, 3]
            && !exists path :: ChildChain(StrayStore(), path, [2, 3])
  {
    var store, level := StrayStore(), BtreeLevel(1, 1, true);
    var path := [Visit(2, true), Visit(3, true)];
    StrayItems();
    hide ItemsFrom;
    assert ReadPage(store, 1) == Clean(StrayRoot());
    assert TargetCheck(store, 1, Target(StrayRoot(), None), NoCarry, 5) == Clean(Walked(NoCarry, path));
    var next := BtreeLevel(0, 2, false);
    assert PlaceCheck(StrayRoot(), level, P_NONE, LevelStart.next) == Clean(next);
    assert PageOnLevel(store, 1, level, 1, LevelStart, 5)
           == Clean(PageDone(LevelState(1, None, NoCarry, next), path, P_NONE));
    var d := LevelDone(next, [1], path);
    assert LevelCheck(store, 1, level, 5) == Clean(d);
    hide LevelCheck, PageOnLevel;
    var root := StrayRoot();
    assert DownlinksFrom(root, 3) == [] && DownlinksFrom(root, 2) == [3] && DownlinksFrom(root, 1) == [2] + [3];
    assert LevelDownlinks(store, [1]) == Downlinks(root) == [2, 3];
    assert !LeadOn(store, [2, 3]) by { assert 2 in [2, 3]; }
    ChainIffDownlinksLeadOn(store, 1, level, 5, d);
  }

  // ---- The whole tree ----

  /** An offset of a data item. */
  predicate DataOffset(page: Page, o: nat) {
    1 <= o && page.FirstDataKey() <= o <= |page.items|
  }

  /** Every item respects the page's high key, strictly on internal pages. */
  ghost predicate BoundedPage(page: Page) {
    page.Rightmost() ||
    (|page.items| >= 1
     && forall o :: DataOffset(page, o) && !page.IsNegativeInfinity(o) ==>
          if page.leaf then Leq(MaxKey(page.items[o - 1]), Key(page.items[0]))
          else Less(Key(page.items[o - 1]), Key(page.items[0])))
  }

  /** The separator that closes the key range of the downlink at offset o. */
  function Closing(page: Page, o: nat): Tuple
    requires 1 <= o <= |page.items|
  {
    if o < |page.items| then page.items[o] else page.items[0]
  }

  /** A completely split child that is not rightmost ends its key range where the parent says. */
  ghost predicate ChildMatches(store: Store, page: Page, o: nat)
    requires 1 <= o <= |page.items|
  {
    var b := page.items[o - 1].link;
    b in store &&
    (!store[b].incompleteSplit && !store[b].Rightmost() ==>
       |store[b].items| >= 1 && Key(store[b].items[0]) == Key(Closing(page, o)))
  }

  /** The first item that is not minus infinity. */
  function FirstReal(page: Page): nat {
    if page.leaf then page.FirstDataKey() else page.FirstDataKey() + 1
  }

  /** The items of the page ascend strictly. */
  ghost predicate OrderedPage(page: Page) {
    forall i, j :: FirstReal(page) - 1 <= i < j < |page.items| ==> Less(Key(page.items[i]), Key(page.items[j]))
  }

  /** The last item of the page, with all its TIDs, is below the first of the live page to its right, if both have
      any. */
  ghost predicate OrderedAcross(store: Store, page: Page) {
    !page.Rightmost() && FirstReal(page) <= |page.items| && page.next in store && !store[page.next].Ignore()
    && FirstReal(store[page.next]) <= |store[page.next].items| ==>
      Less(MaxKey(page.items[|page.items| - 1]), Key(store[page.next].items[FirstReal(store[page.next]) - 1]))
  }

  lemma FirstRealIsReal(page: Page)
    ensures 1 <= page.FirstDataKey() <= FirstReal(page)
    ensures forall o :: FirstReal(page) <= o ==> !page.IsNegativeInfinity(o)
  {
  }

  lemma {:induction false} Ascending(page: Page, i: nat, j: nat)
    requires FirstReal(page) <= i < j <= |page.items|
    requires forall o :: FirstReal(page) <= o < |page.items| ==> Less(Key(page.items[o - 1]), Key(page.items[o]))
    ensures Less(Key(page.items[i - 1]), Key(page.items[j - 1]))
    decreases j - i
  {
    hide Less, Key;
    FirstRealIsReal(page);
    if i < j - 1 {
      Ascending(page, i, j - 1);
      Transitive(Key(page.items[i - 1]), Key(page.items[j - 2]), Key(page.items[j - 1]));
    }
  }

  lemma ItemIsOrdered(store: Store, page: Page, o: nat, fuel: nat)
    requires FirstReal(page) <= o <= |page.items| && ItemCheck(store, page, o, fuel).Clean?
    ensures o < |page.items| ==> Less(Key(page.items[o - 1]), Key(page.items[o]))
    ensures o == |page.items| ==> OrderedAcross(store, page)
  {
    hide Less, Leq, Key, MaxKey, PostingOrdered;
    FirstRealIsReal(page);
  }

  ghost predicate SoundPage(store: Store, page: Page) {
    && BoundedPage(page)
    && OrderedPage(page) && OrderedAcross(store, page)
    && (!page.leaf ==> page.FirstDataKey() <= |page.items|)
    && (!page.leaf ==> forall o :: DataOffset(page, o) ==> ChildMatches(store, page, o))
  }

  lemma {:induction false} ItemFacts(store: Store, nkeyatts: nat, t: Target, offset: nat, carry: Carry, fuel: nat,
                                     o: nat)
    requires 1 <= offset <= o <= |t.page.items|
    requires P_NONE !in DownlinksFrom(t.page, offset)
    requires ItemsFrom(store, nkeyatts, t, offset, carry, fuel).Clean?
    ensures !t.page.IsNegativeInfinity(o) ==> ItemCheck(store, t.page, o, fuel).Clean?
    ensures !t.page.leaf ==> t.page.items[o - 1].link in store
                             && HighKeyMatches(t, store[t.page.items[o - 1].link], o + 1).Clean?
    decreases o - offset
  {
    hide HighkeyWalk, HighkeyStep, ItemCheck;
    if offset < o {
      var carry' := if t.page.IsNegativeInfinity(offset) || !t.page.leaf
                    then HighkeyCheck(store, t, offset, carry, fuel).value.carry else carry;
      ItemFacts(store, nkeyatts, t, offset + 1, carry', fuel, o);
    } else if !t.page.leaf {
      var d := t.page.items[o - 1].link;
      var b := Begin(carry, [d]);
      WalkReachesChild(store, t, o, d, carry.rightlink, b.rightlink, b.incomplete, true, fuel, fuel);
    }
  }

  lemma ItemIsBounded(store: Store, page: Page, o: nat, fuel: nat)
    requires 1 <= o <= |page.items| && ItemCheck(store, page, o, fuel).Clean?
    ensures page.Rightmost() || if page.leaf then Leq(MaxKey(page.items[o - 1]), Key(page.items[0]))
                                else Less(Key(page.items[o - 1]), Key(page.items[0]))
  {
    hide Less, Leq, Key, MaxKey, PostingOrdered, RightItem;
  }

  lemma ChildIsMatched(store: Store, t: Target, o: nat)
    requires DataOffset(t.page, o) && !t.page.leaf && t.page.items[o - 1].link in store
    requires HighKeyMatches(t, store[t.page.items[o - 1].link], o + 1).Clean?
    ensures ChildMatches(store, t.page, o)
  {
  }

  lemma TargetIsSound(store: Store, nkeyatts: nat, t: Target, carry: Carry, fuel: nat)
    requires TargetCheck(store, nkeyatts, t, carry, fuel).Clean?
    requires P_NONE !in DownlinksFrom(t.page, t.page.FirstDataKey())
    requires !t.page.leaf ==> t.page.FirstDataKey() <= |t.page.items|
    ensures SoundPage(store, t.page)
  {
    hide ItemCheck, ItemsFrom, ChildMatches, OrderedPage, OrderedAcross, DownlinksFrom, HighKeyMatches, Less, Leq, Key,
         MaxKey;
    var page := t.page;
    forall o | DataOffset(page, o)
      ensures !page.IsNegativeInfinity(o) ==> ItemCheck(store, page, o, fuel).Clean?
      ensures !page.IsNegativeInfinity(o) && !page.Rightmost() ==>
                if page.leaf then Leq(MaxKey(page.items[o - 1]), Key(page.items[0]))
                else Less(Key(page.items[o - 1]), Key(page.items[0]))
      ensures !page.leaf ==> ChildMatches(store, page, o)
    {
      ItemFacts(store, nkeyatts, t, page.FirstDataKey(), carry, fuel, o);
      if !page.IsNegativeInfinity(o) {
        ItemIsBounded(store, page, o, fuel);
      }
      if !page.leaf {
        ChildIsMatched(store, t, o);
      }
    }
    ItemsAreOrdered(store, page, fuel);
  }

  lemma ItemsAreOrdered(store: Store, page: Page, fuel: nat)
    requires forall o :: DataOffset(page, o) && !page.IsNegativeInfinity(o) ==> ItemCheck(store, page, o, fuel).Clean?
    ensures OrderedPage(page) && OrderedAcross(store, page)
  {
    hide ItemCheck, Less, Key, MaxKey;
    FirstRealIsReal(page);
    forall o | FirstReal(page) <= o < |page.items| ensures Less(Key(page.items[o - 1]), Key(page.items[o])) {
      assert DataOffset(page, o);
      ItemIsOrdered(store, page, o, fuel);
    }
    forall i, j | FirstReal(page) - 1 <= i < j < |page.items| ensures Less(Key(page.items[i]), Key(page.items[j])) {
      Ascending(page, i + 1, j + 1);
    }
    if FirstReal(page) <= |page.items| {
      assert DataOffset(page, |page.items|);
      ItemIsOrdered(store, page, |page.items|, fuel);
    }
  }

  /** Every live page of a clean level is sound: its items ascend, its high key bounds them, its children match; and all
      pages are leaves or none. */
  lemma {:induction false} LevelIsSound(store: Store, nkeyatts: nat, level: BtreeLevel, cur: Block, s: LevelState,
                                        steps: nat, fuel: nat, d: LevelDone)
    requires cur != P_NONE
    requires LevelRun(store, nkeyatts, level, cur, s, steps, fuel, d)
    requires P_NONE !in LevelDownlinks(store, d.targets)
    ensures forall b <- d.targets :: b in store
              && (!store[b].Ignore() ==> SoundPage(store, store[b]) && (store[b].leaf <==> level.level == 0))
    decreases steps
  {
    hide PageOnLevel;
    var done := PageOnLevel(store, nkeyatts, level, cur, s, fuel).value;
    PageRightlink(store, nkeyatts, level, cur, s, fuel);
    assert d.targets[0] == cur;
    PageIsSound(store, nkeyatts, level, cur, s, fuel);
    if done.rightlink != P_NONE {
      var rest := LevelFrom(store, nkeyatts, level, done.rightlink, done.state, steps - 1, fuel).value;
      assert d.targets[1..] == rest.targets;
      LevelIsSound(store, nkeyatts, level, done.rightlink, done.state, steps - 1, fuel, rest);
      assert forall b <- d.targets :: b == cur || b in rest.targets;
    }
  }

  lemma PageIsSound(store: Store, nkeyatts: nat, level: BtreeLevel, cur: Block, s: LevelState, fuel: nat)
    requires cur != P_NONE
    requires PageOnLevel(store, nkeyatts, level, cur, s, fuel).Clean?
    requires P_NONE !in Downlinks(store[cur])
    ensures !store[cur].Ignore() ==> SoundPage(store, store[cur]) && (store[cur].leaf <==> level.level == 0)
  {
    var page := store[cur];
    if !page.Ignore() {
      TargetIsSound(store, nkeyatts, Target(page, s.lowkey), s.carry, fuel);
    }
  }

  /** The verdict on a whole tree, level by level: each level is right-linked and sound, and the child pages its
      downlinks lead through are exactly the next level. */
  ghost predicate Verified(store: Store, levels: seq<LevelDone>)
    decreases |levels|
  {
    && |levels| >= 1
    && RightLinked(store, levels[0].targets)
    && (forall b <- levels[0].targets :: b in store)
    && (forall b <- levels[0].targets :: !store[b].Ignore() ==>
          SoundPage(store, store[b]) && (store[b].leaf <==> |levels| == 1))
    && (|levels| > 1 ==>
          && ChildChain(store, levels[0].path, LevelDownlinks(store, levels[0].targets))
          && Segment(store, levels[0].path[0].blk, false, levels[0].path) && Unbroken(store, levels[0].path)
          && Blocks(levels[0].path) == levels[1].targets
          && Verified(store, levels[1..]))
  }

  /** No level has a downlink to P_NONE. */
  ghost predicate NoNoneDownlink(store: Store, levels: seq<LevelDone>) {
    forall d <- levels :: P_NONE !in LevelDownlinks(store, d.targets)
  }

  /** Two stretches of right links from the same page agree as far as both go. */
  lemma {:induction false} SameChain(store: Store, blk: Block, split: bool, path: seq<Visit>, targets: seq<Block>)
    requires Segment(store, blk, split, path) && RightLinked(store, targets) && targets[0] == blk
    ensures Unbroken(store, path) && Blocks(path) <= targets
    decreases |path|
  {
    if path != [] {
      var page := store[blk];
      RightLinkedStored(store, targets);
      if |targets| == 1 {
        assert |path| == 1;
      } else {
        SameChain(store, page.next, page.incompleteSplit, path[1..], targets[1..]);
        assert Blocks(path) == [blk] + Blocks(path[1..]);
        assert targets == [blk] + targets[1..];
        assert forall v <- path :: v == path[0] || v in path[1..];
      }
    }
  }

  /** A prefix that ends at a page without right sibling is everything. */
  lemma {:induction false} WholeChain(store: Store, bs: seq<Block>, targets: seq<Block>)
    requires RightLinked(store, targets) && bs <= targets && bs != []
    requires bs[|bs| - 1] in store && store[bs[|bs| - 1]].Rightmost()
    ensures bs == targets
    decreases |targets|
  {
    if |targets| > 1 {
      RightLinkedNonzero(store, targets);
      assert |bs| > 1;
      WholeChain(store, bs[1..], targets[1..]);
      assert bs == [bs[0]] + bs[1..] && targets == [targets[0]] + targets[1..];
    }
  }

  lemma RightLinkedNonzero(store: Store, targets: seq<Block>)
    requires RightLinked(store, targets) && |targets| > 1
    ensures store[targets[0]].next != P_NONE
  {
    assert targets[1..][0] == targets[1];
  }

  /** A leaf level is the last one. */
  lemma {:induction false} LeafLevelEnds(store: Store, nkeyatts: nat, level: BtreeLevel, cur: Block, s: LevelState,
                                         steps: nat, fuel: nat, d: LevelDone)
    requires level.level == 0 && cur != P_NONE
    requires LevelRun(store, nkeyatts, level, cur, s, steps, fuel, d)
    requires s.next.leftmost == InvalidBlockNumber || s.next.leftmost == P_NONE
    ensures d.next.leftmost == InvalidBlockNumber || d.next.leftmost == P_NONE
    decreases steps
  {
    var done := PageOnLevel(store, nkeyatts, level, cur, s, fuel).value;
    LeafPageNext(store, nkeyatts, level, cur, s, fuel);
    hide PageOnLevel;
    if done.rightlink != P_NONE {
      var rest := LevelFrom(store, nkeyatts, level, done.rightlink, done.state, steps - 1, fuel).value;
      LeafLevelEnds(store, nkeyatts, level, done.rightlink, done.state, steps - 1, fuel, rest);
    }
  }

  lemma LeafPageNext(store: Store, nkeyatts: nat, level: BtreeLevel, cur: Block, s: LevelState, fuel: nat)
    requires level.level == 0 && cur != P_NONE
    requires PageOnLevel(store, nkeyatts, level, cur, s, fuel).Clean?
    requires s.next.leftmost == InvalidBlockNumber || s.next.leftmost == P_NONE
    ensures var next := PageOnLevel(store, nkeyatts, level, cur, s, fuel).value.state.next.leftmost;
            next == InvalidBlockNumber || next == P_NONE
  {
  }

  /** The child chain of a level is the level below. */
  lemma NextLevelIsChain(store: Store, path: seq<Visit>, ds: seq<Block>, targets: seq<Block>)
    requires LevelShape(store, LevelStart, ds, path, BtreeLevel(0, InvalidBlockNumber, false))
    requires RightLinked(store, targets) && targets[0] == ds[0]
    ensures ChildChain(store, path, ds) && Blocks(path) == targets
    ensures Segment(store, path[0].blk, false, path) && Unbroken(store, path)
  {
    SameChain(store, ds[0], false, path, targets);
    SegmentUnrolled(store, Begin(NoCarry, ds), path);
    WholeChain(store, Blocks(path), targets);
  }

  /** One clean level by itself. */
  lemma OneLevel(store: Store, nkeyatts: nat, level: BtreeLevel, fuel: nat, d: LevelDone)
    requires level.leftmost != P_NONE
    requires LevelCheck(store, nkeyatts, level, fuel) == Clean(d)
    requires P_NONE !in LevelDownlinks(store, d.targets)
    ensures RightLinked(store, d.targets) && d.targets[0] == level.leftmost
    ensures forall b <- d.targets :: b in store
              && (!store[b].Ignore() ==> SoundPage(store, store[b]) && (store[b].leaf <==> level.level == 0))
    ensures level.level == 0 ==> d.next.leftmost == InvalidBlockNumber || d.next.leftmost == P_NONE
    ensures level.level != 0 ==> LevelShape(store, LevelStart, LevelDownlinks(store, d.targets), d.path, d.next)
  {
    hide PageOnLevel;
    assert LevelRun(store, nkeyatts, level, level.leftmost, LevelStart, fuel, fuel, d);
    hide LevelFrom;
    TargetsLinked(store, nkeyatts, level, level.leftmost, LevelStart, fuel, fuel, d);
    LevelIsSound(store, nkeyatts, level, level.leftmost, LevelStart, fuel, fuel, d);
    if level.level == 0 {
      LeafLevelEnds(store, nkeyatts, level, level.leftmost, LevelStart, fuel, fuel, d);
    } else {
      LevelHasShape(store, nkeyatts, level, level.leftmost, LevelStart, fuel, fuel, d);
    }
  }

  /** A clean run over all levels, on a tree without P_NONE downlinks, verifies the whole tree. */
  lemma {:induction false} LevelsVerified(store: Store, nkeyatts: nat, level: BtreeLevel, steps: nat, fuel: nat,
                                          levels: seq<LevelDone>)
    requires level.leftmost != P_NONE
    requires LevelsFrom(store, nkeyatts, level, steps, fuel) == Clean(levels)
    requires NoNoneDownlink(store, levels)
    ensures Verified(store, levels) && levels[0].targets[0] == level.leftmost
    decreases steps
  {
    hide LevelCheck, SoundPage, Segment, Marks, LevelDownlinks, RightLinked, ChildChain;
    var d := LevelCheck(store, nkeyatts, level, fuel).value;
    var rest := LevelsFrom(store, nkeyatts, d.next, steps - 1, fuel).value;
    assert levels == [d] + rest && levels[1..] == rest;
    assert d in levels;
    OneLevel(store, nkeyatts, level, fuel, d);
    if level.level == 0 {
      assert rest == [];
    } else {
      var ds := LevelDownlinks(store, d.targets);
      assert ds[0] in ds && d.next.leftmost == ds[0];
      assert NoNoneDownlink(store, rest) by { assert forall e <- rest :: e in levels; }
      LevelsVerified(store, nkeyatts, d.next, steps - 1, fuel, rest);
      NextLevelIsChain(store, d.path, ds, rest[0].targets);
    }
  }

  // ---- High keys bound whole subtrees ----

  /** A leaf tuple reachable from the page blk through exactly h downlinks. */
  ghost predicate Below(store: Store, blk: Block, h: nat, item: Tuple)
    decreases h
  {
    && blk in store
    && var page := store[blk];
       if h == 0 then
         page.leaf && exists o :: DataOffset(page, o) && page.items[o - 1] == item
       else
         !page.leaf && exists o :: DataOffset(page, o) && Below(store, page.items[o - 1].link, h - 1, item)
  }

  /** No page of any level is half dead, deleted or incompletely split. */
  ghost predicate Settled(store: Store, levels: seq<LevelDone>) {
    forall d <- levels :: forall b <- d.targets :: b in store && !store[b].Ignore() && !store[b].incompleteSplit
  }

  lemma {:induction false} LinkIsDownlink(page: Page, offset: nat, o: nat)
    requires !page.leaf && 1 <= offset <= o <= |page.items|
    ensures page.items[o - 1].link in DownlinksFrom(page, offset)
    decreases o - offset
  {
    if offset < o {
      LinkIsDownlink(page, offset + 1, o);
    }
  }

  /** A downlink of a page that is not last on its level is not the last downlink of the level. */
  lemma {:induction false} NotLastDownlink(store: Store, targets: seq<Block>, c: Block, o: nat)
    requires RightLinked(store, targets)
    requires forall b <- targets ::
               b in store && !store[b].Ignore() && !store[b].leaf && store[b].FirstDataKey() <= |store[b].items|
    requires c in targets && !store[c].Rightmost()
    requires DataOffset(store[c], o)
    ensures store[c].items[o - 1].link in Init(LevelDownlinks(store, targets))
    decreases |targets|
  {
    var here, rest := Downlinks(store[targets[0]]), LevelDownlinks(store, targets[1..]);
    assert |targets| > 1;
    assert Downlinks(store[targets[1]]) != [] && rest != [] by {
      assert targets[1..][0] == targets[1];
    }
    assert LevelDownlinks(store, targets) == here + rest;
    assert Init(here + rest) == here + Init(rest);
    if targets[0] == c {
      LinkIsDownlink(store[c], store[c].FirstDataKey(), o);
    } else {
      NotLastDownlink(store, targets[1..], c, o);
    }
  }

  function Init<T>(s: seq<T>): seq<T> {
    if s == [] then [] else s[..|s| - 1]
  }

  /** A marked page before the last mark has a right sibling. */
  lemma {:induction false} MarkedPageHasSibling(store: Store, start: Carry, path: seq<Visit>, b: Block)
    requires Segment(store, start.rightlink, start.incomplete, path) && Unbroken(store, path)
    requires b in Init(Marks(path))
    ensures b in store && !store[b].Rightmost()
    decreases |path|
  {
    var page := store[path[0].blk];
    assert path[0] in path;
    forall v | v in path[1..] ensures v in path {}
    if path[0].viaDownlink {
      assert Marks(path)[1..] == Marks(path[1..]);
      if b == path[0].blk {
        assert |Marks(path)| > 1 && path[1..] != [];
      } else {
        assert b in Init(Marks(path[1..]));
        MarkedPageHasSibling(store, Carry(page.next, page.incompleteSplit), path[1..], b);
      }
    } else {
      MarkedPageHasSibling(store, Carry(page.next, page.incompleteSplit), path[1..], b);
    }
  }

  /** In a verified, settled tree every leaf tuple below a page that is not rightmost is at most the page's high key. */
  lemma {:induction false} SubtreeBounded(store: Store, levels: seq<LevelDone>, c: Block, h: nat, item: Tuple)
    requires Verified(store, levels) && Settled(store, levels)
    requires c in levels[0].targets && c in store && !store[c].Rightmost()
    requires Below(store, c, h, item)
    ensures |store[c].items| >= 1 && Leq(MaxKey(item), Key(store[c].items[0]))
    decreases h
  {
    hide Marks, ChildChain, Segment, RightLinked, LevelDownlinks, Blocks, CommonPrefix, Less, OrderedPage,
         OrderedAcross;
    assert levels[0] in levels;
    var page := store[c];
    assert SoundPage(store, page);
    if h == 0 {
    } else {
      assert |levels| > 1 && levels[1..][0] == levels[1];
      hide SoundPage;
      var o :| DataOffset(page, o) && Below(store, page.items[o - 1].link, h - 1, item);
      var b := page.items[o - 1].link;
      assert Settled(store, levels[1..]) by { assert forall d <- levels[1..] :: d in levels; }
      ChildNotRightmost(store, levels, c, o);
      SubtreeBounded(store, levels[1..], b, h - 1, item);
      ChildKeyBounded(store, page, o);
      LeqTransitive(MaxKey(item), Key(store[b].items[0]), Key(page.items[0]));
    }
  }

  /** A child's high key is at most its parent's. */
  lemma ChildKeyBounded(store: Store, page: Page, o: nat)
    requires SoundPage(store, page) && !page.leaf && !page.Rightmost() && DataOffset(page, o)
    requires var b := page.items[o - 1].link; b in store && !store[b].incompleteSplit && !store[b].Rightmost()
    ensures |store[page.items[o - 1].link].items| >= 1
    ensures Leq(Key(store[page.items[o - 1].link].items[0]), Key(page.items[0]))
  {
    assert ChildMatches(store, page, o);
    if o < |page.items| {
      assert DataOffset(page, o + 1) && !page.IsNegativeInfinity(o + 1);
    }
  }

  lemma ChainMarks(store: Store, path: seq<Visit>, downlinks: seq<Block>)
    requires ChildChain(store, path, downlinks)
    ensures path != [] && Marks(path) == downlinks
  {
  }

  lemma ChildNotRightmost(store: Store, levels: seq<LevelDone>, c: Block, o: nat)
    requires Verified(store, levels) && Settled(store, levels) && |levels| > 1
    requires c in levels[0].targets && !store[c].Rightmost()
    requires DataOffset(store[c], o)
    ensures var b := store[c].items[o - 1].link;
            b in levels[1].targets && b in store && !store[b].Rightmost() && !store[b].incompleteSplit
  {
    hide BoundedPage, OrderedPage, OrderedAcross, ChildMatches, ChildChain, Segment, RightLinked, Marks, LevelDownlinks;
    assert ChildChain(store, levels[0].path, LevelDownlinks(store, levels[0].targets));
    assert levels[0].path != [] && Marks(levels[0].path) == LevelDownlinks(store, levels[0].targets) by {
      ChainMarks(store, levels[0].path, LevelDownlinks(store, levels[0].targets));
    }
    var b := store[c].items[o - 1].link;
    var targets, path := levels[0].targets, levels[0].path;
    assert levels[0] in levels;
    NotLastDownlink(store, targets, c, o);
    MarkedPageHasSibling(store, Carry(path[0].blk, false), path, b);
    MarksAreBlocks(path, b);
    var i :| 0 <= i < |path| && path[i] == Visit(b, true);
    assert Blocks(path)[i] == b;
    assert levels[1] in levels;
  }

  // ---- What a clean verification of the index gives ----

  lemma {:induction false} VerifiedBelow(store: Store, levels: seq<LevelDone>, j: nat)
    requires Verified(store, levels) && j < |levels|
    ensures Verified(store, levels[j..])
    decreases j
  {
    if j > 0 {
      VerifiedBelow(store, levels[1..], j - 1);
      assert levels[1..][j - 1..] == levels[j..];
    }
  }

  lemma {:induction false} LeavesHaveNoDownlinks(store: Store, targets: seq<Block>)
    requires forall b <- targets :: b in store && (!store[b].Ignore() ==> store[b].leaf)
    ensures LevelDownlinks(store, targets) == []
  {
    if targets != [] {
      assert targets[0] in targets;
      assert Downlinks(store[targets[0]]) == [];
      LeavesHaveNoDownlinks(store, targets[1..]);
    }
  }

  /** A verified tree has no downlink to P_NONE. */
  lemma {:induction false} VerifiedHasNoNoneDownlink(store: Store, levels: seq<LevelDone>)
    requires Verified(store, levels)
    ensures NoNoneDownlink(store, levels)
    decreases |levels|
  {
    var first := levels[0];
    if |levels| == 1 {
      LeavesHaveNoDownlinks(store, first.targets);
      assert forall d <- levels :: d == first;
    } else {
      ChainLeadsOn(store, first.path, LevelDownlinks(store, first.targets));
      VerifiedHasNoNoneDownlink(store, levels[1..]);
      assert forall d <- levels :: d == first || d in levels[1..];
    }
  }

  /** Without a report from the whole check, an index that is not empty is verified if and only if no downlink is
      P_NONE. */
  lemma CleanIndexIsVerified(store: Store, nkeyatts: nat, fuel: nat, levels: seq<LevelDone>)
    requires EveryLevel(store, nkeyatts, fuel) == Clean(levels)
    ensures BTREE_METAPAGE in store && store[BTREE_METAPAGE].meta.Some?
    ensures var root := store[BTREE_METAPAGE].meta.value.root;
            if root == P_NONE then levels == []
            else (Verified(store, levels) <==> NoNoneDownlink(store, levels))
                 && (NoNoneDownlink(store, levels) ==> levels[0].targets[0] == root)
  {
    var meta := store[BTREE_METAPAGE].meta.value;
    if meta.root != P_NONE {
      hide Verified;
      if NoNoneDownlink(store, levels) {
        LevelsVerified(store, nkeyatts, BtreeLevel(meta.level, meta.root, true), fuel, fuel, levels);
      }
      if Verified(store, levels) {
        VerifiedHasNoNoneDownlink(store, levels);
      }
    }
  }

  /** On such an index, if moreover no page is half dead, deleted or incompletely split, the high key of any page on
      any level bounds every leaf tuple below it, all its TIDs included, through any number of downlinks. */
  lemma HighKeyBoundsSubtree(store: Store, nkeyatts: nat, fuel: nat, levels: seq<LevelDone>, j: nat, c: Block, h: nat,
                             item: Tuple)
    requires EveryLevel(store, nkeyatts, fuel) == Clean(levels)
    requires NoNoneDownlink(store, levels) && Settled(store, levels)
    requires j < |levels| && c in levels[j].targets && c in store && !store[c].Rightmost()
    requires Below(store, c, h, item)
    ensures |store[c].items| >= 1 && Leq(MaxKey(item), Key(store[c].items[P_HIKEY - 1]))
  {
    hide EveryLevel;
    CleanIndexIsVerified(store, nkeyatts, fuel, levels);
    hide Verified, Below;
    VerifiedBelow(store, levels, j);
    var lower := levels[j..];
    assert Settled(store, lower) by { assert forall d <- lower :: d in levels; }
    assert lower[0] == levels[j];
    SubtreeBounded(store, lower, c, h, item);
  }

  // ---- A level walk never comes back ----

  /** The pages visited so far, each the left sibling of the next, ending at left. */
  ghost predicate History(store: Store, hist: seq<Block>, left: Block) {
    && (forall b <- hist :: b in store && b != P_NONE)
    && (forall i, j :: 0 <= i < j < |hist| ==> hist[i] != hist[j])
    && (forall i, j :: 0 <= i && j == i + 1 && j < |hist| ==> store[hist[j]].prev == hist[i])
    && (if hist == [] then left == P_NONE else store[hist[0]].prev == P_NONE && left == hist[|hist| - 1])
  }

  /** A page whose left link is the last page visited has not been visited. */
  lemma LinkedIsNew(store: Store, cur: Block, hist: seq<Block>, left: Block)
    requires cur in store && cur != P_NONE && store[cur].prev == left && History(store, hist, left)
    ensures History(store, hist + [cur], cur)
  {
    forall k | 0 <= k < |hist| ensures hist[k] != cur {
      if k > 0 {
        assert store[hist[k]].prev == hist[k - 1] != hist[|hist| - 1];
      } else {
        assert hist[|hist| - 1] in hist;
      }
    }
    assert forall b <- hist + [cur] :: b in hist || b == cur;
  }

  lemma PageIsNew(store: Store, nkeyatts: nat, level: BtreeLevel, cur: Block, s: LevelState, fuel: nat,
                  hist: seq<Block>)
    requires PageOnLevel(store, nkeyatts, level, cur, s, fuel).Clean?
    requires cur != P_NONE && !store[cur].Ignore() && History(store, hist, s.left)
    ensures History(store, hist + [cur], cur)
  {
    assert store[cur].prev == s.left;
    hide PageOnLevel;
    LinkedIsNew(store, cur, hist, s.left);
  }

  lemma {:induction false} DistinctFits(hist: seq<Block>, s: set<Block>)
    requires forall i, j :: 0 <= i < j < |hist| ==> hist[i] != hist[j]
    requires forall b <- hist :: b in s
    ensures |hist| <= |s|
  {
    if hist != [] {
      var last := hist[|hist| - 1];
      DistinctFits(hist[..|hist| - 1], s - {last});
    }
  }

  /** Whatever the sibling links are, a walk over live pages visits no block twice: its targets are distinct. */
  lemma {:induction false} NoBlockTwice(store: Store, nkeyatts: nat, level: BtreeLevel, cur: Block, s: LevelState,
                                        steps: nat, fuel: nat, d: LevelDone, hist: seq<Block>)
    requires cur != P_NONE && History(store, hist, s.left)
    requires LevelRun(store, nkeyatts, level, cur, s, steps, fuel, d)
    requires forall b <- d.targets :: b in store ==> !store[b].Ignore()
    ensures forall i, j :: 0 <= i < j < |hist + d.targets| ==> (hist + d.targets)[i] != (hist + d.targets)[j]
    decreases steps
  {
    hide PageOnLevel;
    PageRightlink(store, nkeyatts, level, cur, s, fuel);
    assert d.targets[0] == cur && cur in d.targets;
    PageIsNew(store, nkeyatts, level, cur, s, fuel, hist);
    var done := PageOnLevel(store, nkeyatts, level, cur, s, fuel).value;
    if done.rightlink == P_NONE {
      assert hist + d.targets == hist + [cur];
    } else {
      var rest := LevelFrom(store, nkeyatts, level, done.rightlink, done.state, steps - 1, fuel).value;
      assert forall b <- rest.targets :: b in d.targets;
      NoBlockTwice(store, nkeyatts, level, done.rightlink, done.state, steps - 1, fuel, rest, hist + [cur]);
      assert hist + d.targets == hist + [cur] + rest.targets;
    }
  }

  /** The first n pages along right links from blk on, as far as there are any, are live. */
  ghost predicate LiveFrom(store: Store, blk: Block, n: nat)
    decreases n
  {
    n > 0 && blk != P_NONE && blk in store ==> !store[blk].Ignore() && LiveFrom(store, store[blk].next, n - 1)
  }

  /** So the number of blocks is budget enough: more steps than blocks never change the outcome of the walk. */
  lemma {:induction false} BlocksAreBudget(store: Store, nkeyatts: nat, level: BtreeLevel, cur: Block, s: LevelState,
                                           steps: nat, more: nat, fuel: nat, hist: seq<Block>)
    requires LiveFrom(store, cur, steps) && cur != P_NONE && History(store, hist, s.left)
    requires |hist| + steps > |store.Keys| && more >= steps
    ensures LevelFrom(store, nkeyatts, level, cur, s, more, fuel)
            == LevelFrom(store, nkeyatts, level, cur, s, steps, fuel)
    decreases steps
  {
    hide PageOnLevel;
    DistinctFits(hist, store.Keys);
    var page := PageOnLevel(store, nkeyatts, level, cur, s, fuel);
    if page.Clean? {
      PageRightlink(store, nkeyatts, level, cur, s, fuel);
      PageIsNew(store, nkeyatts, level, cur, s, fuel, hist);
      if page.value.rightlink != P_NONE {
        BlocksAreBudget(store, nkeyatts, level, page.value.rightlink, page.value.state, steps - 1, more - 1, fuel,
                        hist + [cur]);
      }
    }
  }

  /** On the leaf level that makes the verifier total: it ends at P_NONE or with a report. */
  lemma {:induction false} LeafWalkEnds(store: Store, nkeyatts: nat, level: BtreeLevel, cur: Block, s: LevelState,
                                        steps: nat, fuel: nat, hist: seq<Block>)
    requires LiveFrom(store, cur, steps) && cur != P_NONE && History(store, hist, s.left)
    requires level.level == 0 && fuel > 0
    requires |hist| + steps > |store.Keys|
    ensures !LevelFrom(store, nkeyatts, level, cur, s, steps, fuel).OutOfFuel?
    decreases steps
  {
    hide PageOnLevel;
    DistinctFits(hist, store.Keys);
    StillMoreBlocks(store, cur, s.left, steps, hist);
    LeafPageEnds(store, nkeyatts, level, cur, s, fuel);
    var page := PageOnLevel(store, nkeyatts, level, cur, s, fuel);
    if page.Clean? {
      PageRightlink(store, nkeyatts, level, cur, s, fuel);
      PageIsNew(store, nkeyatts, level, cur, s, fuel, hist);
      if page.value.rightlink != P_NONE {
        LeafWalkEnds(store, nkeyatts, level, page.value.rightlink, page.value.state, steps - 1, fuel, hist + [cur]);
      }
    }
  }

  /** A page that is in its place on the level has not been visited, so the one behind it is still within the budget. */
  lemma StillMoreBlocks(store: Store, cur: Block, left: Block, steps: nat, hist: seq<Block>)
    requires LiveFrom(store, cur, steps) && cur != P_NONE && History(store, hist, left)
    requires |hist| + steps > |store.Keys|
    ensures cur in store && store[cur].prev == left ==> LiveFrom(store, cur, 2)
    ensures steps > 0
  {
    DistinctFits(hist, store.Keys);
    if cur in store && store[cur].prev == left {
      LinkedIsNew(store, cur, hist, left);
      DistinctFits(hist + [cur], store.Keys);
      FewerLive(store, cur, steps, 2);
    }
  }

  lemma {:induction false} FewerLive(store: Store, blk: Block, n: nat, k: nat)
    requires LiveFrom(store, blk, n) && k <= n
    ensures LiveFrom(store, blk, k)
    decreases k
  {
    if k > 0 && blk != P_NONE && blk in store {
      FewerLive(store, store[blk].next, n - 1, k - 1);
    }
  }

  lemma {:induction false} LeafItemsEnd(store: Store, nkeyatts: nat, t: Target, offset: nat, carry: Carry, fuel: nat)
    requires t.page.leaf && fuel > 0 && 1 <= offset
    requires t.page.next in store && t.page.next != P_NONE ==> !store[t.page.next].Ignore()
    ensures !ItemsFrom(store, nkeyatts, t, offset, carry, fuel).OutOfFuel?
    decreases |t.page.items| + 1 - offset
  {
    hide NattsOk, PostingOrdered, Less, Leq;
    if offset <= |t.page.items| {
      PostingEnds(t.page.items[offset - 1].tids, 1);
      if !t.page.Rightmost() {
        assert !RightItem(store, t.page.next, fuel).OutOfFuel?;
      }
      assert !ItemCheck(store, t.page, offset, fuel).OutOfFuel?;
      LeafItemsEnd(store, nkeyatts, t, offset + 1, carry, fuel);
    }
  }

  lemma {:induction false} PostingEnds(tids: seq<int>, i: nat)
    requires 1 <= i
    ensures !PostingOrdered(tids, i).OutOfFuel?
    decreases |tids| - i
  {
    if i < |tids| {
      PostingEnds(tids, i + 1);
    }
  }

  lemma LeafPageEnds(store: Store, nkeyatts: nat, level: BtreeLevel, cur: Block, s: LevelState, fuel: nat)
    requires cur != P_NONE && level.level == 0 && fuel > 0
    requires cur in store && store[cur].prev == s.left ==> LiveFrom(store, cur, 2)
    ensures !PageOnLevel(store, nkeyatts, level, cur, s, fuel).OutOfFuel?
  {
    var r := ReadPage(store, cur);
    if r.Clean? && r.value.leaf && r.value.prev == s.left {
      assert LiveFrom(store, store[cur].next, 1);
      LeafItemsEnd(store, nkeyatts, Target(r.value, s.lowkey), r.value.FirstDataKey(), s.carry, fuel);
    }
  }
}
