/** The readonly verifier itself: one object whose fields are rewritten page by page, with the loops of the
    original. Each method is proved to report exactly what its AmcheckSpec function computes and to leave
    the same cross-page state behind. */
module AmcheckChecker {
  import opened Wrappers
  import opened Lex
  import opened BTreePages
  import opened AmcheckSpec

  /** The method reported r where the specification computes w. */
  ghost predicate Reports<T>(r: Outcome<()>, w: Outcome<T>) {
    match w
    case Clean(_) => r.Clean?
    case Corrupt(f) => r == Corrupt(f)
    case OutOfFuel => r.OutOfFuel?
  }

  /** Two walks that end alike, whatever they stepped on. */
  ghost predicate SameEnd(a: Outcome<Walked>, b: Outcome<Walked>) {
    match a
    case Clean(w) => b.Clean? && b.value.carry == w.carry
    case Corrupt(f) => b == Corrupt(f)
    case OutOfFuel => b.OutOfFuel?
  }

  ghost predicate SameLevelEnd(a: Outcome<LevelDone>, b: Outcome<LevelDone>) {
    match a
    case Clean(d) => b.Clean? && b.value.next == d.next
    case Corrupt(f) => b == Corrupt(f)
    case OutOfFuel => b.OutOfFuel?
  }

  ghost predicate SameVerdict<T>(a: Outcome<T>, b: Outcome<T>) {
    match a
    case Clean(_) => b.Clean?
    case Corrupt(f) => b == Corrupt(f)
    case OutOfFuel => b.OutOfFuel?
  }

  class BtreeCheckState {
    const store: Store
    const nkeyatts: nat
    var target: Page
    var targetblock: Block
    var lowkey: Option<Tuple>
    var prevrightlink: Block
    var previncompletesplit: bool

    ghost function Carried(): Carry
      reads this`prevrightlink, this`previncompletesplit
    {
      Carry(prevrightlink, previncompletesplit)
    }

    ghost function Tgt(): Target
      reads this`target, this`lowkey
    {
      Target(target, lowkey)
    }

    constructor (store: Store, nkeyatts: nat)
      ensures this.store == store && this.nkeyatts == nkeyatts
    {
      this.store, this.nkeyatts := store, nkeyatts;
      target := Page(None, false, false, false, false, false, false, false, P_NONE, P_NONE, 0, []);
      targetblock, lowkey := P_NONE, None;
      prevrightlink, previncompletesplit := InvalidBlockNumber, false;
    }

    method DownlinkMissingCheck(rightsplit: bool, blkno: Block, page: Page, fuel: nat) returns (r: Outcome<()>)
      ensures r == DownlinkMissing(store, rightsplit, blkno, page, fuel)
    {
      if page.root { return Clean(()); }
      if rightsplit { return Clean(()); }
      if page.leaf { return Corrupt(LeafLacksDownlink); }
      var level := page.level;
      var itup :- GetItem(page, page.FirstDataKey());
      var childblk := itup.link;
      var steps := fuel;
      ghost var whole := TopParentDescent(store, blkno, childblk, level, steps);
      while true
        invariant TopParentDescent(store, blkno, childblk, level, steps) == whole
        decreases steps
      {
        if steps == 0 { return OutOfFuel; }
        var child :- ReadPage(store, childblk);
        if child.leaf {
          if child.deleted { return Corrupt(DownlinkToDeletedLeaf); }
          if child.halfDead && !child.Rightmost() {
            var hikey :- GetItem(child, P_HIKEY);
            if hikey.link == blkno { return Clean(()); }
          }
          return Corrupt(InternalLacksDownlink);
        }
        if child.level != PredLevel(level) { return Corrupt(UnderCheckLevel); }
        level := child.level;
        itup :- GetItem(child, child.FirstDataKey());
        childblk := itup.link;
        steps := steps - 1;
      }
    }

    /** The child's high key against the separator at the given offset of the target. */
    method MatchHighKey(page: Page, offset: nat) returns (r: Outcome<()>)
      ensures r == HighKeyMatches(Tgt(), page, offset)
    {
      if !page.incompleteSplit && !page.Rightmost() {
        var highkey :- GetItem(page, P_HIKEY);
        var pivotOffset := offset;
        var itup;
        if !target.IsNegativeInfinity(pivotOffset) {
          if pivotOffset > |target.items| {
            if target.Rightmost() { return Corrupt(NoRightmostPivot); }
            pivotOffset := P_HIKEY;
          }
          itup :- GetItem(target, pivotOffset);
        } else {
          if lowkey.None? { return Corrupt(NoLowKey); }
          itup := lowkey.value;
        }
        if !PivotIdentical(highkey, itup) { return Corrupt(PivotMismatch); }
      }
      return Clean(());
    }

    /** The body of the loop below, up to the test for the downlink. */
    method VisitChildPage(offset: nat, downlink: Block, blkno: Block, rightsplit: bool, first: bool, fuel: nat)
      returns (r: Outcome<Page>)
      ensures r == HighkeyStep(store, Tgt(), offset, downlink, prevrightlink, blkno, rightsplit, first, fuel)
    {
      var page :- ReadPage(store, blkno);
      if first && prevrightlink == InvalidBlockNumber && !page.Leftmost() { return Corrupt(ChildNotLeftmost); }
      if (!page.deleted || page.fullXid) && page.level != PredLevel(target.level) { return Corrupt(ChildLevel); }
      if (!first && blkno == prevrightlink) || blkno == page.prev { return Corrupt(CircularChain); }
      if blkno != downlink && !page.Ignore() {
        var _ :- DownlinkMissingCheck(rightsplit, blkno, page, fuel);
      }
      var _ :- MatchHighKey(page, if blkno == downlink then offset + 1 else offset);
      return Clean(page);
    }

    /** The loop of bt_child_highkey_check: along right links to the page the downlink names. */
    method WalkHighkeys(offset: nat, downlink: Block, start: Block, incomplete: bool, fuel: nat)
      returns (r: Outcome<()>)
      modifies this`prevrightlink, this`previncompletesplit
      ensures var w := HighkeyWalk(store, Tgt(), offset, downlink, old(prevrightlink), start, incomplete, true, fuel,
                                   fuel);
              Reports(r, w) && (r.Clean? ==> Carried() == w.value.carry)
    {
      hide HighkeyStep;
      var blkno, rightsplit, first, steps := start, incomplete, true, fuel;
      ghost var t := Tgt();
      ghost var whole := HighkeyWalk(store, t, offset, downlink, prevrightlink, blkno, rightsplit, first, steps, fuel);
      while true
        invariant Tgt() == t && Carried() == old(Carried())
        invariant SameEnd(HighkeyWalk(store, t, offset, downlink, prevrightlink, blkno, rightsplit, first, steps,
                                      fuel), whole)
        decreases steps
      {
        if steps == 0 { return OutOfFuel; }
        if blkno == P_NONE && downlink == P_NONE {
          prevrightlink := InvalidBlockNumber;
          previncompletesplit := false;
          return Clean(());
        }
        if blkno == P_NONE { return Corrupt(CannotTraverse); }
        var visited := VisitChildPage(offset, downlink, blkno, rightsplit, first, fuel);
        if visited.IsFailure() { return visited.PropagateFailure(); }
        var page := visited.value;
        rightsplit := page.incompleteSplit;
        if blkno == downlink {
          prevrightlink := page.next;
          previncompletesplit := rightsplit;
          return Clean(());
        }
        blkno := page.next;
        first := false;
        steps := steps - 1;
      }
    }

    /** bt_child_highkey_check. */
    method ChildHighkeyCheck(offset: nat, fuel: nat) returns (r: Outcome<()>)
      modifies this`prevrightlink, this`previncompletesplit
      ensures Reports(r, HighkeyCheck(store, Tgt(), offset, old(Carried()), fuel))
      ensures r.Clean? ==> Carried() == HighkeyCheck(store, Tgt(), offset, old(Carried()), fuel).value.carry
    {
      hide HighkeyWalk;
      var blkno := prevrightlink;
      var rightsplit := previncompletesplit;
      var downlink := P_NONE;
      if offset != InvalidOffsetNumber {
        var itup :- GetItem(target, offset);
        downlink := itup.link;
      }
      if blkno == InvalidBlockNumber {
        blkno := downlink;
        rightsplit := false;
      }
      r := WalkHighkeys(offset, downlink, blkno, rightsplit, fuel);
    }

    method CheckChild(offset: nat, fuel: nat) returns (r: Outcome<()>)
      modifies this`prevrightlink, this`previncompletesplit
      ensures Reports(r, ChildCheck(store, Tgt(), offset, old(Carried()), fuel))
      ensures r.Clean? ==> Carried() == ChildCheck(store, Tgt(), offset, old(Carried()), fuel).value.carry
    {
      var itup :- GetItem(target, offset);
      var child :- ReadPage(store, itup.link);
      var _ :- ChildHighkeyCheck(offset, fuel);
      if child.deleted { return Corrupt(DownlinkToDeleted); }
      var off := child.FirstDataKey();
      while off <= |child.items|
        invariant LowerBoundHolds(child, Key(itup), off) == LowerBoundHolds(child, Key(itup), child.FirstDataKey())
        decreases |child.items| - off
      {
        if !child.IsNegativeInfinity(off) {
          if !Less(Key(itup), Key(child.items[off - 1])) { return Corrupt(DownlinkLowerBound); }
        }
        off := off + 1;
      }
      return Clean(());
    }

    method RightPageCheckScankey(fuel: nat) returns (r: Outcome<Option<Tuple>>)
      ensures r == if target.Rightmost() then Clean(None) else RightItem(store, target.next, fuel)
    {
      if target.Rightmost() { return Clean(None); }
      var targetnext := target.next;
      var steps := fuel;
      ghost var whole := RightItem(store, targetnext, steps);
      while true
        invariant RightItem(store, targetnext, steps) == whole
        decreases steps
      {
        if steps == 0 { return OutOfFuel; }
        var rightpage :- ReadPage(store, targetnext);
        if !rightpage.Ignore() || rightpage.Rightmost() {
          var nline := |rightpage.items|;
          if rightpage.leaf && nline >= rightpage.FirstDataKey() {
            return Clean(Some(rightpage.items[rightpage.FirstDataKey() - 1]));
          } else if !rightpage.leaf && nline >= rightpage.FirstDataKey() + 1 {
            return Clean(Some(rightpage.items[rightpage.FirstDataKey()]));
          }
          return Clean(None);
        }
        targetnext := rightpage.next;
        steps := steps - 1;
      }
    }

    /** The part of the item loop that looks at the target and its right neighbour only. */
    method CheckItem(offset: nat, fuel: nat) returns (r: Outcome<()>)
      ensures r == ItemCheck(store, target, offset, fuel)
    {
      var itup :- GetItem(target, offset);
      if !itup.pivot {
        var i := 1;
        while i < |itup.tids|
          invariant 1 <= i
          invariant PostingOrdered(itup.tids, i) == PostingOrdered(itup.tids, 1)
        {
          if itup.tids[i] <= itup.tids[i - 1] { return Corrupt(MisplacedPostingTid); }
          i := i + 1;
        }
      }
      if !target.Rightmost() {
        var hikey := target.items[P_HIKEY - 1];
        if !(if target.leaf then Leq(MaxKey(itup), Key(hikey)) else Less(Key(itup), Key(hikey))) {
          return Corrupt(HighKeyInvariant);
        }
      }
      if offset + 1 <= |target.items| {
        if !Less(Key(itup), Key(target.items[offset])) { return Corrupt(ItemOrder); }
      } else if offset == |target.items| {
        var right := RightPageCheckScankey(fuel);
        if right.IsFailure() { return right.PropagateFailure(); }
        if right.value.Some? && !Less(MaxKey(itup), Key(right.value.value)) { return Corrupt(CrossPageItemOrder); }
      }
      return Clean(());
    }

    method TargetPageCheck(fuel: nat) returns (r: Outcome<()>)
      modifies this`prevrightlink, this`previncompletesplit
      ensures Reports(r, TargetCheck(store, nkeyatts, Tgt(), old(Carried()), fuel))
      ensures r.Clean? ==> Carried() == TargetCheck(store, nkeyatts, Tgt(), old(Carried()), fuel).value.carry
    {
      hide HighkeyWalk, ItemCheck, NattsOk;
      if !target.Rightmost() {
        var hikey :- GetItem(target, P_HIKEY);
        if !NattsOk(nkeyatts, target, P_HIKEY) { return Corrupt(WrongAttributeCount); }
      }
      var offset := target.FirstDataKey();
      ghost var t := Tgt();
      ghost var whole := ItemsFrom(store, nkeyatts, t, offset, Carried(), fuel);
      while offset <= |target.items|
        invariant 1 <= offset
        invariant Tgt() == t
        invariant SameEnd(ItemsFrom(store, nkeyatts, t, offset, Carried(), fuel), whole)
      {
        if !NattsOk(nkeyatts, target, offset) { return Corrupt(WrongAttributeCount); }
        if target.IsNegativeInfinity(offset) {
          var _ :- ChildHighkeyCheck(offset, fuel);
        } else {
          var _ :- CheckItem(offset, fuel);
          if !target.leaf {
            var _ :- CheckChild(offset, fuel);
          }
        }
        offset := offset + 1;
      }
      if !target.leaf && target.Rightmost() {
        var _ :- ChildHighkeyCheck(InvalidOffsetNumber, fuel);
      }
      return Clean(());
    }

    /** The checks of a live target against its place on the level. */
    method CheckPlace(level: BtreeLevel, leftcurrent: Block, nextleveldown: BtreeLevel) returns (r: Outcome<BtreeLevel>)
      ensures r == PlaceCheck(target, level, leftcurrent, nextleveldown)
    {
      var next := nextleveldown;
      if next.leftmost == InvalidBlockNumber {
        if !target.Leftmost() { return Corrupt(NotLeftmost); }
        if level.isTrueRoot && !target.root { return Corrupt(NotTrueRoot); }
        if !target.leaf {
          var itup :- GetItem(target, target.FirstDataKey());
          next := BtreeLevel(PredLevel(target.level), itup.link, false);
        } else {
          next := BtreeLevel(InvalidBtreeLevel, P_NONE, false);
        }
      }
      if target.prev != leftcurrent { return Corrupt(LinksDisagree); }
      if level.level != target.level { return Corrupt(LevelMismatch); }
      return Clean(next);
    }

    /** The body of the loop below: make current the target, check it, and remember its high key. */
    method CheckPageOnLevel(level: BtreeLevel, current: Block, leftcurrent: Block, nextleveldown: BtreeLevel, fuel: nat)
      returns (r: Outcome<BtreeLevel>)
      modifies this
      ensures var w := PageOnLevel(store, nkeyatts, level, current,
                                   LevelState(leftcurrent, old(lowkey), old(Carried()), nextleveldown), fuel);
              match w
              case Clean(done) =>
                && r.Clean? && done.state == LevelState(current, lowkey, Carried(), r.value)
                && target.next == done.rightlink
              case Corrupt(f) => r == Corrupt(f)
              case OutOfFuel => r.OutOfFuel?
    {
      targetblock := current;
      target :- ReadPage(store, targetblock);
      var next := nextleveldown;
      if target.Ignore() {
        if target.deleted { return Corrupt(LinkToDeleted); }
        if target.Rightmost() { return Corrupt(FellOffEnd); }
      } else {
        next :- CheckPlace(level, leftcurrent, next);
        var _ :- TargetPageCheck(fuel);
      }
      if current == leftcurrent || current == target.prev { return Corrupt(CircularChain); }
      lowkey := None;
      if !target.Rightmost() {
        var itup :- GetItem(target, P_HIKEY);
        lowkey := Some(itup);
      }
      return Clean(next);
    }

    /** Reports the verdict and, when clean, the level below. */
    method CheckLevelFromLeftmost(level: BtreeLevel, fuel: nat) returns (r: Outcome<BtreeLevel>)
      modifies this
      ensures var w := LevelCheck(store, nkeyatts, level, fuel);
              (w.Clean? ==> r == Clean(w.value.next)) && (w.Corrupt? ==> r == Corrupt(w.fault))
                && (w.OutOfFuel? ==> r.OutOfFuel?)
    {
      hide PageOnLevel;
      var leftcurrent := P_NONE;
      var current := level.leftmost;
      var nextleveldown := BtreeLevel(InvalidBtreeLevel, InvalidBlockNumber, false);
      prevrightlink, previncompletesplit, lowkey := InvalidBlockNumber, false, None;
      var steps := fuel;
      ghost var whole := LevelCheck(store, nkeyatts, level, fuel);
      while true
        invariant SameLevelEnd(
            LevelFrom(store, nkeyatts, level, current, LevelState(leftcurrent, lowkey, Carried(), nextleveldown),
                      steps, fuel), whole)
        decreases steps
      {
        if steps == 0 { return OutOfFuel; }
        nextleveldown :- CheckPageOnLevel(level, current, leftcurrent, nextleveldown, fuel);
        leftcurrent := current;
        current := target.next;
        steps := steps - 1;
        if current == P_NONE {
          lowkey := None;
          return Clean(nextleveldown);
        }
      }
    }

    /** The whole verification, without the comparison against the heap. */
    method CheckEveryLevel(fuel: nat) returns (r: Outcome<()>)
      modifies this
      ensures Reports(r, EveryLevel(store, nkeyatts, fuel))
    {
      hide LevelCheck;
      var metapage :- ReadPage(store, BTREE_METAPAGE);
      var metad := metapage.meta.value;
      var current := BtreeLevel(metad.level, metad.root, true);
      var steps := fuel;
      ghost var whole := LevelsFrom(store, nkeyatts, current, steps, fuel);
      while current.leftmost != P_NONE
        invariant SameVerdict(LevelsFrom(store, nkeyatts, current, steps, fuel), whole)
        decreases steps
      {
        if steps == 0 { return OutOfFuel; }
        current :- CheckLevelFromLeftmost(current, fuel);
        if current.leftmost == InvalidBlockNumber { return Corrupt(NoValidPages); }
        steps := steps - 1;
      }
      return Clean(());
    }
  }
}
