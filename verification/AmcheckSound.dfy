/** A sound index passes the verifier. What makes an index sound is said of its pages alone: sibling links, levels,
    attribute counts, order within and across pages, high keys, and how each level hangs below the one above. */
module AmcheckSound {
  import opened Wrappers
  import opened Lex
  import opened BTreePages
  import opened AmcheckSpec
  import opened AmcheckChain
  import opened AmcheckTheorems

  // ---- Pages ----

  /** A page of the tree, live or half-dead. */
  predicate SanePage(p: Page) {
    && p.meta.None? && !p.deleted && !p.fullXid && (p.leaf <==> p.level == 0)
    && |p.items| <= MaxIndexTuplesPerPage && (!p.Rightmost() ==> |p.items| >= 1)
    && (!p.leaf ==> p.FirstDataKey() <= |p.items| && !p.halfDead && !p.garbage)
    && (p.halfDead ==> !p.Rightmost())
  }

  /** An entry of a leaf page: all key attributes, and one heap TID or several. */
  predicate LeafTuple(t: Tuple, nkeyatts: nat) {
    !t.pivot && |t.attrs| == nkeyatts && |t.tids| >= 1
  }

  /** A separator: some key attributes, or all of them and possibly a heap TID. */
  predicate PivotTuple(t: Tuple, nkeyatts: nat) {
    t.pivot && 1 <= |t.attrs| <= nkeyatts && (|t.tids| == 0 || (|t.tids| == 1 && |t.attrs| == nkeyatts))
  }

  predicate MinusInfinity(t: Tuple) { t.pivot && t.attrs == [] }

  /** Every tuple has the attributes that its place asks for. */
  ghost predicate Attributed(p: Page, nkeyatts: nat) {
    && (!p.Rightmost() ==> |p.items| >= 1 && PivotTuple(p.items[0], nkeyatts))
    && forall o :: DataOffset(p, o) ==>
         if p.leaf then LeafTuple(p.items[o - 1], nkeyatts)
         else if o == p.FirstDataKey() then MinusInfinity(p.items[o - 1])
         else PivotTuple(p.items[o - 1], nkeyatts)
  }

  predicate Ascend(tids: seq<int>) { forall i, j :: 0 <= i < j < |tids| ==> tids[i] < tids[j] }

  ghost predicate PostingsAscend(p: Page) {
    p.leaf ==> forall o :: DataOffset(p, o) ==> Ascend(p.items[o - 1].tids)
  }

  /** All real items of the page are above the key. */
  ghost predicate Above(p: Page, key: seq<int>) {
    forall i :: FirstReal(p) - 1 <= i < |p.items| ==> Less(key, Key(p.items[i]))
  }

  /** The children of an internal page, all but the first, have items above the key of their downlink only. */
  ghost predicate KeysAbove(store: Store, p: Page) {
    !p.leaf ==> forall o: nat :: DataOffset(p, o) && o > p.FirstDataKey() && p.items[o - 1].link in store ==>
      Above(store[p.items[o - 1].link], Key(p.items[o - 1]))
  }

  ghost predicate LivePage(store: Store, nkeyatts: nat, p: Page) {
    Attributed(p, nkeyatts) && PostingsAscend(p) && OrderedPage(p) && BoundedPage(p) && KeysAbove(store, p)
  }

  // ---- Levels ----

  /** Distinct pages linked to the right, from a live leftmost page to a rightmost one; live pages are linked back. */
  ghost predicate Chained(store: Store, bs: seq<Block>) {
    && bs != [] && (forall b <- bs :: b in store && b != P_NONE && SanePage(store[b]) && store[b].prev != b)
    && (forall i, j :: 0 <= i < j < |bs| ==> bs[i] != bs[j])
    && store[bs[0]].Leftmost() && !store[bs[0]].halfDead
    && (forall i, j :: 0 <= i && j == i + 1 && j < |bs| ==>
          store[bs[i]].next == bs[j] && (!store[bs[j]].halfDead ==> store[bs[j]].prev == bs[i]))
    && store[bs[|bs| - 1]].Rightmost()
  }

  /** The last item of one page is below the first real item of another, if both have any. */
  ghost predicate Across(p: Page, q: Page) {
    FirstReal(p) <= |p.items| && FirstReal(q) <= |q.items| ==>
      Less(MaxKey(p.items[|p.items| - 1]), Key(q.items[FirstReal(q) - 1]))
  }

  /** Live pages with nothing but half-dead pages between them. */
  ghost predicate Neighbours(store: Store, bs: seq<Block>, i: nat, j: nat)
    requires i < j < |bs| && forall b <- bs :: b in store
  {
    !store[bs[i]].halfDead && !store[bs[j]].halfDead && forall k :: i < k < j ==> store[bs[k]].halfDead
  }

  ghost predicate SoundLevel(store: Store, nkeyatts: nat, bs: seq<Block>, level: nat) {
    && Chained(store, bs)
    && (forall b <- bs :: store[b].level == level && (!store[b].halfDead ==> LivePage(store, nkeyatts, store[b])))
    && (forall i, j :: 0 <= i < j < |bs| && Neighbours(store, bs, i, j) ==> Across(store[bs[i]], store[bs[j]]))
  }

  // ---- One level below another ----

  /** The separator behind the downlink at an offset: the next key, or the page's high key behind the last. */
  function SepAfter(p: Page, o: nat): Option<Tuple>
    requires 1 <= o <= |p.items|
  {
    if o < |p.items| then Some(p.items[o]) else if p.Rightmost() then None else Some(p.items[0])
  }

  function SepsFrom(p: Page, o: nat): (seps: seq<Option<Tuple>>)
    requires 1 <= o
    ensures |seps| == |DownlinksFrom(p, o)|
    decreases |p.items| + 1 - o
  {
    if p.leaf || o > |p.items| then [] else [SepAfter(p, o)] + SepsFrom(p, o + 1)
  }

  /** The separators of a level, one behind each of its downlinks. */
  function LevelSeps(store: Store, bs: seq<Block>): (seps: seq<Option<Tuple>>)
    ensures |seps| == |LevelDownlinks(store, bs)|
  {
    if bs == [] then [] else
    (if bs[0] in store && !store[bs[0]].Ignore() then SepsFrom(store[bs[0]], store[bs[0]].FirstDataKey()) else [])
    + LevelSeps(store, bs[1..])
  }

  /** A completely split page that is not rightmost has the separator as its high key. */
  predicate Repeats(p: Page, sep: Option<Tuple>) {
    p.incompleteSplit || p.Rightmost() || (sep.Some? && |p.items| >= 1 && PivotIdentical(p.items[0], sep.value))
  }

  /** The pages of a level from some page on, against the downlinks and separators still ahead. Each page has the next
      downlink, or is half-dead, or is excused from having one; and repeats the separator behind the last downlink.
      split: the page before is incompletely split. */
  ghost predicate Under(store: Store, split: bool, sep: Option<Tuple>, cs: seq<Block>,
                        links: seq<Block>, seps: seq<Option<Tuple>>)
    requires |links| == |seps|
    decreases |cs|
  {
    if cs == [] then links == [] else
    && cs[0] in store
    && var p := store[cs[0]];
       if links != [] && cs[0] == links[0] then
         Repeats(p, seps[0]) && Under(store, p.incompleteSplit, seps[0], cs[1..], links[1..], seps[1..])
       else
         && (p.halfDead || Excused(store, cs[0], split)) && Repeats(p, sep)
         && Under(store, p.incompleteSplit, sep, cs[1..], links, seps)
  }

  /** cs is the level below bs. */
  ghost predicate HangsBelow(store: Store, bs: seq<Block>, cs: seq<Block>) {
    var links := LevelDownlinks(store, bs);
    links != [] && cs != [] && cs[0] == links[0] && Under(store, false, None, cs, links, LevelSeps(store, bs))
  }

  // ---- Reading pages and attributes ----

  lemma Readable(store: Store, b: Block)
    requires b in store && b != P_NONE && SanePage(store[b])
    ensures ReadPage(store, b) == Clean(store[b]) && store[b].Ignore() == store[b].halfDead
  {
  }

  lemma NattsHold(p: Page, nkeyatts: nat, o: nat)
    requires Attributed(p, nkeyatts) && 1 <= o <= |p.items| && (DataOffset(p, o) || (o == P_HIKEY && !p.Rightmost()))
    ensures NattsOk(nkeyatts, p, o)
  {
  }

  lemma {:induction false} PostingIsOrdered(tids: seq<int>, i: nat)
    requires 1 <= i && Ascend(tids)
    ensures PostingOrdered(tids, i).Clean?
    decreases |tids| - i
  {
    if i < |tids| {
      PostingIsOrdered(tids, i + 1);
    }
  }

  lemma {:induction false} BoundHolds(child: Page, key: seq<int>, o: nat)
    requires child.FirstDataKey() <= o && Above(child, key)
    ensures LowerBoundHolds(child, key, o).Clean?
    decreases |child.items| - o
  {
    hide Less, Key;
    if o <= |child.items| {
      BoundHolds(child, key, o + 1);
    }
  }

  // ---- The items of a page on their own level ----

  /** The first live page to the right is found behind any half-dead ones. */
  lemma {:induction false} RightItemIs(store: Store, bs: seq<Block>, k: nat, fuel: nat) returns (m: nat)
    requires Chained(store, bs) && k < |bs| && fuel > |bs| - k
    ensures k <= m < |bs| && !store[bs[m]].halfDead && forall i :: k <= i < m ==> store[bs[i]].halfDead
    ensures var q := store[bs[m]];
            RightItem(store, bs[k], fuel)
            == Clean(if FirstReal(q) <= |q.items| then Some(q.items[FirstReal(q) - 1]) else None)
    decreases |bs| - k
  {
    var p := store[bs[k]];
    assert bs[k] in bs;
    Readable(store, bs[k]);
    if p.halfDead {
      LinksOn(store, bs, k);
      m := RightItemIs(store, bs, k + 1, fuel - 1);
    } else {
      m := k;
    }
    hide Chained, SanePage;
  }

  /** A page that is not rightmost is followed by the next of the chain. */
  lemma LinksOn(store: Store, bs: seq<Block>, k: nat)
    requires Chained(store, bs) && k < |bs|
    ensures bs[k] in store
    ensures if k + 1 < |bs| then bs[k + 1] in store && store[bs[k]].next == bs[k + 1]
                                 && (!store[bs[k + 1]].halfDead ==> store[bs[k + 1]].prev == bs[k])
            else store[bs[k]].Rightmost()
    ensures store[bs[k]].Rightmost() <==> k + 1 == |bs|
  {
    assert bs[k] in bs;
    if k + 1 < |bs| {
      assert bs[k + 1] in bs;
      var j := k + 1;
      assert store[bs[k]].next == bs[j];
    }
  }

  lemma ItemHolds(store: Store, nkeyatts: nat, bs: seq<Block>, i: nat, level: nat, o: nat, fuel: nat)
    requires SoundLevel(store, nkeyatts, bs, level) && i < |bs| && bs[i] in store && !store[bs[i]].halfDead
             && fuel > |bs|
    requires DataOffset(store[bs[i]], o) && !store[bs[i]].IsNegativeInfinity(o)
    ensures ItemCheck(store, store[bs[i]], o, fuel).Clean?
  {
    var p := store[bs[i]];
    assert bs[i] in bs;
    hide Less, Leq, Key, MaxKey, Chained;
    assert LivePage(store, nkeyatts, p);
    var item := p.items[o - 1];
    if !item.pivot {
      PivotsInside(p, nkeyatts, o);
      PostingIsOrdered(item.tids, 1);
    }
    LinksOn(store, bs, i);
    if o == |p.items| && !p.Rightmost() {
      var m := RightItemIs(store, bs, i + 1, fuel);
      assert Neighbours(store, bs, i, m);
      assert Across(p, store[bs[m]]);
    }
    assert o < |p.items| ==> Less(Key(p.items[o - 1]), Key(p.items[o]));
    hide RightItem, PostingOrdered, Attributed, PostingsAscend, KeysAbove, Neighbours;
  }

  lemma PivotsInside(p: Page, nkeyatts: nat, o: nat)
    requires Attributed(p, nkeyatts) && DataOffset(p, o) && !p.items[o - 1].pivot
    ensures p.leaf
  {
  }

  // ---- Walks along the level below ----

  /** The separator is the one the verifier looks up for a downlink offset. */
  predicate SepFits(t: Target, o: nat, sep: Option<Tuple>) {
    sep.Some? ==> Separator(t, o) == Clean(sep.value)
  }

  lemma MatchHolds(t: Target, page: Page, o: nat, sep: Option<Tuple>)
    requires SepFits(t, o, sep) && Repeats(page, sep)
    ensures HighKeyMatches(t, page, o).Clean?
  {
    hide Separator;
  }

  /** The budget is enough for every descent that an excuse takes. */
  ghost predicate ExcusesWork(store: Store, cs: seq<Block>, fuel: nat) {
    forall c: Block, split: bool :: c in cs && c in store && !store[c].halfDead && Excused(store, c, split) ==>
      DownlinkMissing(store, split, c, store[c], fuel).Clean?
  }

  ghost predicate ChildLevel(store: Store, t: Target, cs: seq<Block>, fuel: nat) {
    && Chained(store, cs) && t.page.level > 0 && (forall c <- cs :: store[c].level == t.page.level - 1)
    && ExcusesWork(store, cs, fuel)
  }

  lemma StepClean(store: Store, t: Target, o: nat, downlink: Block, prev: Block, cs: seq<Block>, k: nat, split: bool,
                  sep: Option<Tuple>, first: bool, fuel: nat)
    requires ChildLevel(store, t, cs, fuel) && k < |cs| && cs[k] in store
    requires if cs[k] == downlink then SepFits(t, o + 1, sep) else SepFits(t, o, sep)
    requires Repeats(store[cs[k]], sep)
    requires cs[k] == downlink || store[cs[k]].halfDead || Excused(store, cs[k], split)
    requires !first ==> prev != cs[k]
    requires first && prev == InvalidBlockNumber ==> store[cs[k]].Leftmost()
    ensures HighkeyStep(store, t, o, downlink, prev, cs[k], split, first, fuel) == Clean(store[cs[k]])
  {
    var page := store[cs[k]];
    assert cs[k] in cs;
    Readable(store, cs[k]);
    PrevDiffers(store, cs, k);
    hide DownlinkMissing, Separator, HighKeyMatches, Excused, ReadPage, Repeats, SepFits, Chained;
    MatchHolds(t, page, if cs[k] == downlink then o + 1 else o, sep);
  }

  lemma PrevDiffers(store: Store, cs: seq<Block>, k: nat)
    requires Chained(store, cs) && k < |cs| && cs[k] in store
    ensures store[cs[k]].prev != cs[k]
  {
    assert cs[k] in cs;
  }

  /** From a page of the child level to the next downlink. */
  lemma {:induction false} WalkClean(store: Store, t: Target, o: nat, prev: Block, cs: seq<Block>, k: nat, split: bool,
                                     sep: Option<Tuple>, links: seq<Block>, seps: seq<Option<Tuple>>, first: bool,
                                     steps: nat, fuel: nat) returns (m: nat)
    requires ChildLevel(store, t, cs, fuel) && k < |cs| && steps >= |cs| - k
    requires |links| == |seps| && links != [] && Under(store, split, sep, cs[k..], links, seps)
    requires SepFits(t, o, sep) && SepFits(t, o + 1, seps[0])
    requires !first ==> prev !in cs[k..]
    requires first && prev == InvalidBlockNumber ==> cs[k] in store && store[cs[k]].Leftmost()
    requires first ==> prev == InvalidBlockNumber || prev == cs[k]
    ensures k <= m < |cs| && cs[m] == links[0] && cs[m] in store
    ensures HighkeyWalk(store, t, o, links[0], prev, cs[k], split, first, steps, fuel).Clean?
    ensures HighkeyWalk(store, t, o, links[0], prev, cs[k], split, first, steps, fuel).value.carry
            == Carry(store[cs[m]].next, store[cs[m]].incompleteSplit)
    ensures Under(store, store[cs[m]].incompleteSplit, seps[0], cs[m + 1..], links[1..], seps[1..])
    decreases |cs| - k
  {
    hide ChildLevel, HighkeyStep, Under, SepFits, Repeats, Excused, Separator, Chained;
    ChildChained(store, t, cs, fuel);
    UnderStep(store, split, sep, cs, k, links, seps);
    BlockThere(store, cs, k);
    var page := store[cs[k]];
    if cs[k] == links[0] {
      m := k;
      StepClean(store, t, o, links[0], prev, cs, k, split, seps[0], first, fuel);
    } else {
      StepClean(store, t, o, links[0], prev, cs, k, split, sep, first, fuel);
      LinksOn(store, cs, k);
      MoreBelow(store, page.incompleteSplit, sep, cs, k + 1, links, seps);
      DistinctBehind(store, cs, k);
      m := WalkClean(store, t, o, prev, cs, k + 1, page.incompleteSplit, sep, links, seps, false, steps - 1, fuel);
    }
  }

  lemma ChildChained(store: Store, t: Target, cs: seq<Block>, fuel: nat)
    requires ChildLevel(store, t, cs, fuel)
    ensures Chained(store, cs)
  {
  }

  lemma UnderStep(store: Store, split: bool, sep: Option<Tuple>, cs: seq<Block>, k: nat, links: seq<Block>,
                  seps: seq<Option<Tuple>>)
    requires |links| == |seps| && k < |cs| && Under(store, split, sep, cs[k..], links, seps)
    ensures cs[k] in store
    ensures var p := store[cs[k]];
            if links != [] && cs[k] == links[0] then
              Repeats(p, seps[0]) && Under(store, p.incompleteSplit, seps[0], cs[k + 1..], links[1..], seps[1..])
            else
              && (p.halfDead || Excused(store, cs[k], split)) && Repeats(p, sep)
              && Under(store, p.incompleteSplit, sep, cs[k + 1..], links, seps)
  {
    assert cs[k..][0] == cs[k] && cs[k..][1..] == cs[k + 1..];
  }

  lemma BlockThere(store: Store, cs: seq<Block>, k: nat)
    requires Chained(store, cs) && k < |cs|
    ensures cs[k] in store && cs[k] != P_NONE && cs[k] != InvalidBlockNumber
  {
    assert cs[k] in cs;
  }

  lemma MoreBelow(store: Store, split: bool, sep: Option<Tuple>, cs: seq<Block>, k: nat, links: seq<Block>,
                  seps: seq<Option<Tuple>>)
    requires |links| == |seps| && links != [] && k <= |cs| && Under(store, split, sep, cs[k..], links, seps)
    ensures k < |cs|
  {
  }

  lemma DistinctBehind(store: Store, cs: seq<Block>, k: nat)
    requires Chained(store, cs) && k < |cs|
    ensures cs[k] !in cs[k + 1..]
  {
  }

  lemma NoSep(t: Target)
    ensures SepFits(t, InvalidOffsetNumber, None)
  {
  }

  /** From a page behind the last downlink to the end of the level. */
  lemma {:induction false} SweepClean(store: Store, t: Target, prev: Block, cs: seq<Block>, k: nat, split: bool,
                                      first: bool, steps: nat, fuel: nat)
    requires ChildLevel(store, t, cs, fuel) && k <= |cs| && steps > |cs| - k
    requires Under(store, split, None, cs[k..], [], [])
    requires prev != InvalidBlockNumber && (!first ==> prev !in cs[k..]) && (first && k < |cs| ==> prev == cs[k])
    ensures var blk := if k < |cs| then cs[k] else P_NONE;
            var w := HighkeyWalk(store, t, InvalidOffsetNumber, P_NONE, prev, blk, split, first, steps, fuel);
            w.Clean? && w.value.carry == NoCarry
    decreases |cs| - k
  {
    hide ChildLevel, HighkeyStep, Under, SepFits, Repeats, Excused, Separator, Chained;
    if k < |cs| {
      ChildChained(store, t, cs, fuel);
      UnderStep(store, split, None, cs, k, [], []);
      BlockThere(store, cs, k);
      var page := store[cs[k]];
      NoSep(t);
      StepClean(store, t, InvalidOffsetNumber, P_NONE, prev, cs, k, split, None, first, fuel);
      LinksOn(store, cs, k);
      DistinctBehind(store, cs, k);
      SweepClean(store, t, prev, cs, k + 1, page.incompleteSplit, false, steps - 1, fuel);
    }
  }

  // ---- The items of an internal page ----

  /** What has been carried so far fits position k of the child level. */
  ghost predicate Positioned(store: Store, cs: seq<Block>, k: nat, carry: Carry, sep: Option<Tuple>, links: seq<Block>,
                             seps: seq<Option<Tuple>>)
  {
    && |links| == |seps| && k <= |cs|
    && if carry == NoCarry then
         k == 0 && cs != [] && links != [] && cs[0] == links[0] && Under(store, false, sep, cs, links, seps)
       else
         && carry.rightlink == (if k < |cs| then cs[k] else P_NONE)
         && Under(store, carry.incomplete, sep, cs[k..], links, seps)
  }

  /** The check of one downlink: the walk finds it, and the child is there. */
  lemma CheckClean(store: Store, t: Target, o: nat, cs: seq<Block>, k: nat, carry: Carry, sep: Option<Tuple>,
                   links: seq<Block>, seps: seq<Option<Tuple>>, fuel: nat) returns (m: nat)
    requires ChildLevel(store, t, cs, fuel) && fuel > |cs| && 1 <= o <= |t.page.items|
    requires Positioned(store, cs, k, carry, sep, links, seps) && links != [] && links[0] == t.page.items[o - 1].link
    requires SepFits(t, o, sep) && SepFits(t, o + 1, seps[0])
    ensures HighkeyCheck(store, t, o, carry, fuel).Clean? && m <= |cs|
    ensures Positioned(store, cs, m, HighkeyCheck(store, t, o, carry, fuel).value.carry, seps[0], links[1..], seps[1..])
    ensures links[0] in cs
  {
    hide ChildLevel, HighkeyWalk, Under, SepFits, Chained;
    ChildChained(store, t, cs, fuel);
    var at;
    if carry == NoCarry {
      assert cs[0..] == cs;
      FirstIsLeftmost(store, cs);
      at := WalkClean(store, t, o, InvalidBlockNumber, cs, 0, false, sep, links, seps, true, fuel, fuel);
    } else {
      MoreBelow(store, carry.incomplete, sep, cs, k, links, seps);
      BlockThere(store, cs, k);
      at := WalkClean(store, t, o, cs[k], cs, k, carry.incomplete, sep, links, seps, true, fuel, fuel);
    }
    LinksOn(store, cs, at);
    BlockThere(store, cs, at);
    if at + 1 < |cs| { BlockThere(store, cs, at + 1); }
    m := at + 1;
  }

  lemma FirstIsLeftmost(store: Store, cs: seq<Block>)
    requires Chained(store, cs)
    ensures cs != [] && cs[0] in store && store[cs[0]].Leftmost()
  {
    assert cs[0] in cs;
  }

  /** The sweep behind the last downlink of the level. */
  lemma SweepCheckClean(store: Store, t: Target, cs: seq<Block>, k: nat, carry: Carry, fuel: nat)
    requires ChildLevel(store, t, cs, fuel) && fuel > |cs| && Positioned(store, cs, k, carry, None, [], [])
    ensures HighkeyCheck(store, t, InvalidOffsetNumber, carry, fuel).Clean?
    ensures HighkeyCheck(store, t, InvalidOffsetNumber, carry, fuel).value.carry == NoCarry
  {
    hide ChildLevel, HighkeyWalk, Under, Chained;
    ChildChained(store, t, cs, fuel);
    if k < |cs| { BlockThere(store, cs, k); }
    SweepClean(store, t, carry.rightlink, cs, k, carry.incomplete, true, fuel, fuel);
  }

  /** The separator in front of a downlink is what the verifier looks up for its offset, and the one behind it what it
      looks up for the next. */
  lemma SepsFit(t: Target, o: nat)
    requires !t.page.leaf && t.page.FirstDataKey() <= o <= |t.page.items|
    ensures SepFits(t, o, if o == t.page.FirstDataKey() then t.lowkey else SepAfter(t.page, o - 1))
    ensures SepFits(t, o + 1, SepAfter(t.page, o))
  {
  }

  /** The child of a downlink: readable, not deleted, its items above the downlink's key. */
  lemma ChildHolds(store: Store, nkeyatts: nat, t: Target, o: nat, cs: seq<Block>, carry: Carry, fuel: nat)
    requires ChildLevel(store, t, cs, fuel) && LivePage(store, nkeyatts, t.page)
    requires !t.page.leaf && t.page.FirstDataKey() < o <= |t.page.items| && t.page.items[o - 1].link in cs
    requires HighkeyCheck(store, t, o, carry, fuel).Clean?
    ensures ChildCheck(store, t, o, carry, fuel) == HighkeyCheck(store, t, o, carry, fuel)
  {
    var link := t.page.items[o - 1].link;
    hide HighkeyCheck, ExcusesWork, Less, Key;
    Readable(store, link);
    assert DataOffset(t.page, o) && Above(store[link], Key(t.page.items[o - 1]));
    BoundHolds(store[link], Key(t.page.items[o - 1]), store[link].FirstDataKey());
    hide LivePage, Above, SanePage;
  }

  /** The item loop from an offset on, and the sweep after it. L, S: the downlinks and separators of the pages behind.
      */
  lemma {:induction false} ItemsClean(store: Store, nkeyatts: nat, bs: seq<Block>, i: nat, level: nat, t: Target,
                                      o: nat, cs: seq<Block>, k: nat, carry: Carry, L: seq<Block>,
                                      S: seq<Option<Tuple>>, fuel: nat)
    returns (m: nat)
    requires SoundLevel(store, nkeyatts, bs, level) && i < |bs| && bs[i] in store && t.page == store[bs[i]]
             && !t.page.leaf
    requires ChildLevel(store, t, cs, fuel) && fuel > |cs| && fuel > |bs| && |L| == |S|
    requires t.page.FirstDataKey() <= o <= |t.page.items| + 1 && t.page.FirstDataKey() <= |t.page.items|
    requires Positioned(store, cs, k, carry, if o == t.page.FirstDataKey() then t.lowkey else SepAfter(t.page, o - 1),
                        DownlinksFrom(t.page, o) + L, SepsFrom(t.page, o) + S)
    requires t.page.Rightmost() ==> L == []
    ensures ItemsFrom(store, nkeyatts, t, o, carry, fuel).Clean? && m <= |cs|
    ensures var end := ItemsFrom(store, nkeyatts, t, o, carry, fuel).value.carry;
            if t.page.Rightmost() then end == NoCarry
            else Positioned(store, cs, m, end, SepAfter(t.page, |t.page.items|), L, S)
    decreases |t.page.items| + 1 - o
  {
    hide ChildLevel, HighkeyCheck, ChildCheck, ItemCheck, Positioned, SepFits, SoundLevel, LivePage;
    var p := t.page;
    if o > |p.items| {
      assert DownlinksFrom(p, o) + L == L && SepsFrom(p, o) + S == S;
      m := k;
      PositionIn(store, cs, k, carry, SepAfter(p, o - 1), L, S);
      if p.Rightmost() {
        SweepCheckClean(store, t, cs, k, carry, fuel);
      }
    } else {
      var links, seps := DownlinksFrom(p, o) + L, SepsFrom(p, o) + S;
      NextLinks(p, o, L, S);
      SepsFit(t, o);
      IsLive(store, nkeyatts, bs, i, level);
      LiveNatts(store, nkeyatts, p, o);
      var m' := CheckClean(store, t, o, cs, k, carry, if o == p.FirstDataKey() then t.lowkey else SepAfter(p, o - 1),
                           links, seps, fuel);
      if o > p.FirstDataKey() {
        ItemHolds(store, nkeyatts, bs, i, level, o, fuel);
        ChildHolds(store, nkeyatts, t, o, cs, carry, fuel);
      }
      m := ItemsClean(store, nkeyatts, bs, i, level, t, o + 1, cs, m',
                      HighkeyCheck(store, t, o, carry, fuel).value.carry, L, S, fuel);
    }
  }

  lemma PositionIn(store: Store, cs: seq<Block>, k: nat, carry: Carry, sep: Option<Tuple>, links: seq<Block>,
                   seps: seq<Option<Tuple>>)
    requires Positioned(store, cs, k, carry, sep, links, seps)
    ensures k <= |cs|
  {
  }

  lemma NextLinks(p: Page, o: nat, L: seq<Block>, S: seq<Option<Tuple>>)
    requires !p.leaf && 1 <= o <= |p.items|
    ensures var links, seps := DownlinksFrom(p, o) + L, SepsFrom(p, o) + S;
            && links != [] && links[0] == p.items[o - 1].link && links[1..] == DownlinksFrom(p, o + 1) + L
            && seps != [] && seps[0] == SepAfter(p, o) && seps[1..] == SepsFrom(p, o + 1) + S
  {
  }

  lemma IsLive(store: Store, nkeyatts: nat, bs: seq<Block>, i: nat, level: nat)
    requires SoundLevel(store, nkeyatts, bs, level) && i < |bs|
    ensures bs[i] in store && SanePage(store[bs[i]]) && store[bs[i]].level == level
    ensures !store[bs[i]].halfDead ==> LivePage(store, nkeyatts, store[bs[i]])
    ensures !store[bs[i]].leaf ==> !store[bs[i]].halfDead
  {
    assert bs[i] in bs;
  }

  lemma LiveNatts(store: Store, nkeyatts: nat, p: Page, o: nat)
    requires LivePage(store, nkeyatts, p) && 1 <= o <= |p.items|
             && (DataOffset(p, o) || (o == P_HIKEY && !p.Rightmost()))
    ensures NattsOk(nkeyatts, p, o)
  {
    NattsHold(p, nkeyatts, o);
  }

  // ---- The pages of a level ----

  lemma TargetClean(store: Store, nkeyatts: nat, t: Target, carry: Carry, fuel: nat)
    requires SanePage(t.page) && LivePage(store, nkeyatts, t.page)
    requires ItemsFrom(store, nkeyatts, t, t.page.FirstDataKey(), carry, fuel).Clean?
    ensures TargetCheck(store, nkeyatts, t, carry, fuel)
            == ItemsFrom(store, nkeyatts, t, t.page.FirstDataKey(), carry, fuel)
  {
    hide ItemsFrom, LivePage, NattsOk;
    if !t.page.Rightmost() {
      LiveNatts(store, nkeyatts, t.page, P_HIKEY);
    }
  }

  /** What the level walk carries to page i. */
  ghost predicate Arrived(store: Store, bs: seq<Block>, i: nat, s: LevelState)
    requires i < |bs|
  {
    if i == 0 then s == LevelStart
    else s.left == bs[i - 1] && bs[i - 1] in store && |store[bs[i - 1]].items| >= 1
         && s.lowkey == Some(store[bs[i - 1]].items[0]) && s.next.leftmost != InvalidBlockNumber
  }

  /** The level below as the first page of a level gives it. */
  function NextLevel(p: Page): BtreeLevel
    requires p.leaf || p.FirstDataKey() <= |p.items|
  {
    if p.leaf then BtreeLevel(InvalidBtreeLevel, P_NONE, false)
    else BtreeLevel(PredLevel(p.level), p.items[p.FirstDataKey() - 1].link, false)
  }

  lemma PlaceClean(store: Store, nkeyatts: nat, bs: seq<Block>, i: nat, level: BtreeLevel, s: LevelState)
    requires SoundLevel(store, nkeyatts, bs, level.level) && i < |bs| && bs[i] in store && Arrived(store, bs, i, s)
    requires !store[bs[i]].halfDead && (i == 0 && level.isTrueRoot ==> store[bs[0]].root)
    ensures SanePage(store[bs[i]])
    ensures PlaceCheck(store[bs[i]], level, s.left, s.next)
            == Clean(if i == 0 then NextLevel(store[bs[0]]) else s.next)
  {
    IsLive(store, nkeyatts, bs, i, level.level);
    SoundChained(store, nkeyatts, bs, level.level);
    hide SoundLevel, LivePage, Chained;
    if i == 0 {
      FirstIsLeftmost(store, bs);
    } else {
      LinksOn(store, bs, i - 1);
    }
  }

  lemma SoundChained(store: Store, nkeyatts: nat, bs: seq<Block>, level: nat)
    requires SoundLevel(store, nkeyatts, bs, level)
    ensures Chained(store, bs)
  {
  }

  /** One live page, its items being clean. */
  lemma LivePageClean(store: Store, nkeyatts: nat, bs: seq<Block>, i: nat, level: BtreeLevel, s: LevelState, fuel: nat)
    requires SoundLevel(store, nkeyatts, bs, level.level) && i < |bs| && bs[i] in store && Arrived(store, bs, i, s)
    requires !store[bs[i]].halfDead && (i == 0 && level.isTrueRoot ==> store[bs[0]].root)
    requires var t := Target(store[bs[i]], s.lowkey);
             ItemsFrom(store, nkeyatts, t, t.page.FirstDataKey(), s.carry, fuel).Clean?
    ensures SanePage(store[bs[i]])
    ensures var p := store[bs[i]];
            var w := ItemsFrom(store, nkeyatts, Target(p, s.lowkey), p.FirstDataKey(), s.carry, fuel).value;
            var lowkey := if p.Rightmost() then None else Some(p.items[0]);
            PageOnLevel(store, nkeyatts, level, bs[i], s, fuel)
            == Clean(PageDone(LevelState(bs[i], lowkey, w.carry, if i == 0 then NextLevel(p) else s.next), w.path,
                              p.next))
  {
    hide SoundLevel, LivePage, Chained, ItemsFrom, TargetCheck, PlaceCheck, NextLevel;
    SoundChained(store, nkeyatts, bs, level.level);
    IsLive(store, nkeyatts, bs, i, level.level);
    BlockThere(store, bs, i);
    PlaceClean(store, nkeyatts, bs, i, level, s);
    Readable(store, bs[i]);
    TargetClean(store, nkeyatts, Target(store[bs[i]], s.lowkey), s.carry, fuel);
    NotLeft(store, bs, i, s);
    hide ReadPage, Arrived;
  }

  lemma NotLeft(store: Store, bs: seq<Block>, i: nat, s: LevelState)
    requires Chained(store, bs) && i < |bs| && bs[i] in store && Arrived(store, bs, i, s)
    ensures bs[i] != s.left && bs[i] != store[bs[i]].prev
  {
    PrevDiffers(store, bs, i);
    BlockThere(store, bs, i);
  }

  /** One half-dead page, passed over. */
  lemma DeadPageClean(store: Store, nkeyatts: nat, bs: seq<Block>, i: nat, level: BtreeLevel, s: LevelState, fuel: nat)
    requires SoundLevel(store, nkeyatts, bs, level.level) && i < |bs| && bs[i] in store && Arrived(store, bs, i, s)
    requires store[bs[i]].halfDead
    ensures var p := store[bs[i]];
            && !p.Rightmost() && |p.items| >= 1
            && PageOnLevel(store, nkeyatts, level, bs[i], s, fuel)
               == Clean(PageDone(LevelState(bs[i], Some(p.items[0]), s.carry, s.next), [], p.next))
  {
    hide SoundLevel, LivePage, Chained;
    SoundChained(store, nkeyatts, bs, level.level);
    IsLive(store, nkeyatts, bs, i, level.level);
    BlockThere(store, bs, i);
    Readable(store, bs[i]);
    NotLeft(store, bs, i, s);
    hide ReadPage, Arrived;
  }

  // ---- Leaf levels ----

  lemma {:induction false} LeafItemsClean(store: Store, nkeyatts: nat, bs: seq<Block>, i: nat, t: Target, o: nat,
                                          fuel: nat)
    requires SoundLevel(store, nkeyatts, bs, 0) && i < |bs| && bs[i] in store && t.page == store[bs[i]]
    requires !t.page.halfDead && t.page.FirstDataKey() <= o && fuel > |bs|
    ensures ItemsFrom(store, nkeyatts, t, o, NoCarry, fuel).Clean?
    ensures ItemsFrom(store, nkeyatts, t, o, NoCarry, fuel).value.carry == NoCarry
    decreases |t.page.items| + 1 - o
  {
    hide SoundLevel, LivePage, ItemCheck, NattsOk;
    IsLive(store, nkeyatts, bs, i, 0);
    if o <= |t.page.items| {
      LiveNatts(store, nkeyatts, t.page, o);
      ItemHolds(store, nkeyatts, bs, i, 0, o, fuel);
      LeafItemsClean(store, nkeyatts, bs, i, t, o + 1, fuel);
    }
  }

  lemma {:induction false} LeafLevelFrom(store: Store, nkeyatts: nat, bs: seq<Block>, i: nat, level: BtreeLevel,
                                         s: LevelState, steps: nat, fuel: nat)
    requires SoundLevel(store, nkeyatts, bs, 0) && level.level == 0 && i < |bs| && Arrived(store, bs, i, s)
    requires s.carry == NoCarry && (i > 0 ==> s.next.leftmost == P_NONE)
    requires i == 0 && level.isTrueRoot ==> bs[0] in store && store[bs[0]].root
    requires fuel > |bs| && steps >= |bs| - i
    ensures LevelFrom(store, nkeyatts, level, bs[i], s, steps, fuel).Clean?
    ensures LevelFrom(store, nkeyatts, level, bs[i], s, steps, fuel).value.next.leftmost == P_NONE
    decreases |bs| - i
  {
    hide SoundLevel, LivePage, PageOnLevel, Chained, ItemsFrom;
    SoundChained(store, nkeyatts, bs, 0);
    IsLive(store, nkeyatts, bs, i, 0);
    LinksOn(store, bs, i);
    FirstIsLeftmost(store, bs);
    var p := store[bs[i]];
    if p.halfDead {
      FirstIsLive(store, bs);
      DeadPageClean(store, nkeyatts, bs, i, level, s, fuel);
    } else {
      LeafItemsClean(store, nkeyatts, bs, i, Target(p, s.lowkey), p.FirstDataKey(), fuel);
      LivePageClean(store, nkeyatts, bs, i, level, s, fuel);
    }
    if i + 1 < |bs| {
      BlockThere(store, bs, i + 1);
      var done := PageOnLevel(store, nkeyatts, level, bs[i], s, fuel).value;
      LeafLevelFrom(store, nkeyatts, bs, i + 1, level, done.state, steps - 1, fuel);
    }
  }

  lemma FirstIsLive(store: Store, bs: seq<Block>)
    requires Chained(store, bs)
    ensures bs[0] in store && !store[bs[0]].halfDead
  {
    assert bs[0] in bs;
  }

  // ---- Internal levels ----

  /** The level below, whatever page of the level is being checked. */
  ghost predicate LowerLevel(store: Store, cs: seq<Block>, level: nat, fuel: nat) {
    Chained(store, cs) && (forall c <- cs :: store[c].level == level) && ExcusesWork(store, cs, fuel)
  }

  /** One page of an internal level. */
  lemma InternalPage(store: Store, nkeyatts: nat, bs: seq<Block>, i: nat, level: BtreeLevel, s: LevelState,
                     cs: seq<Block>, k: nat, fuel: nat) returns (m: nat)
    requires SoundLevel(store, nkeyatts, bs, level.level) && level.level > 0 && i < |bs| && Arrived(store, bs, i, s)
    requires LowerLevel(store, cs, level.level - 1, fuel)
    requires Positioned(store, cs, k, s.carry, s.lowkey, LevelDownlinks(store, bs[i..]), LevelSeps(store, bs[i..]))
    requires i == 0 && level.isTrueRoot ==> bs[0] in store && store[bs[0]].root
    requires fuel > |bs| && fuel > |cs|
    ensures cs != [] && bs[i] in store && PageOnLevel(store, nkeyatts, level, bs[i], s, fuel).Clean?
    ensures var done := PageOnLevel(store, nkeyatts, level, bs[i], s, fuel).value;
            && done.rightlink == store[bs[i]].next
            && done.state.next == (if i == 0 then BtreeLevel(level.level - 1, cs[0], false) else s.next)
            && (i + 1 < |bs| ==>
                  && Arrived(store, bs, i + 1, done.state)
                  && Positioned(store, cs, m, done.state.carry, done.state.lowkey,
                                LevelDownlinks(store, bs[i + 1..]), LevelSeps(store, bs[i + 1..])))
  {
    hide SoundLevel, LivePage, PageOnLevel, Chained, ItemsFrom, Positioned, ChildLevel, LowerLevel, Arrived,
         LevelDownlinks, LevelSeps;
    SoundChained(store, nkeyatts, bs, level.level);
    IsLive(store, nkeyatts, bs, i, level.level);
    LinksOn(store, bs, i);
    var p := store[bs[i]];
    var t := Target(p, s.lowkey);
    LevelLinks(store, bs, i);
    LowerIsChild(store, t, cs, level.level, fuel);
    LastHasNoMore(store, bs, i);
    m := ItemsClean(store, nkeyatts, bs, i, level.level, t, p.FirstDataKey(), cs, k, s.carry,
                    LevelDownlinks(store, bs[i + 1..]), LevelSeps(store, bs[i + 1..]), fuel);
    LivePageClean(store, nkeyatts, bs, i, level, s, fuel);
    LowerIsChained(store, cs, level.level - 1, fuel);
    BlockThere(store, cs, 0);
    if i == 0 {
      ArrivedFirst(store, bs, s);
      StartsBelow(store, cs, k, s, p, LevelDownlinks(store, bs[1..]), LevelSeps(store, bs[1..]));
    }
    if i + 1 < |bs| {
      NextArrived(store, bs, i, s, PageOnLevel(store, nkeyatts, level, bs[i], s, fuel).value.state, cs, p);
    }
  }

  lemma LowerIsChained(store: Store, cs: seq<Block>, level: nat, fuel: nat)
    requires LowerLevel(store, cs, level, fuel)
    ensures Chained(store, cs) && cs != []
  {
  }

  lemma ArrivedFirst(store: Store, bs: seq<Block>, s: LevelState)
    requires bs != [] && Arrived(store, bs, 0, s)
    ensures s == LevelStart
  {
  }

  lemma {:induction false} InternalLevelFrom(store: Store, nkeyatts: nat, bs: seq<Block>, i: nat, level: BtreeLevel,
                                             s: LevelState, cs: seq<Block>, k: nat, steps: nat, fuel: nat)
    requires SoundLevel(store, nkeyatts, bs, level.level) && level.level > 0 && i < |bs| && Arrived(store, bs, i, s)
    requires LowerLevel(store, cs, level.level - 1, fuel)
    requires Positioned(store, cs, k, s.carry, s.lowkey, LevelDownlinks(store, bs[i..]), LevelSeps(store, bs[i..]))
    requires i == 0 && level.isTrueRoot ==> bs[0] in store && store[bs[0]].root
    requires fuel > |bs| && fuel > |cs| && steps >= |bs| - i
    ensures LevelFrom(store, nkeyatts, level, bs[i], s, steps, fuel).Clean? && cs != []
    ensures LevelFrom(store, nkeyatts, level, bs[i], s, steps, fuel).value.next
            == if i == 0 then BtreeLevel(level.level - 1, cs[0], false) else s.next
    decreases |bs| - i
  {
    hide SoundLevel, PageOnLevel, Chained, Positioned, LowerLevel, Arrived, LevelDownlinks, LevelSeps;
    SoundChained(store, nkeyatts, bs, level.level);
    LinksOn(store, bs, i);
    var m := InternalPage(store, nkeyatts, bs, i, level, s, cs, k, fuel);
    if i + 1 < |bs| {
      BlockThere(store, bs, i + 1);
      var done := PageOnLevel(store, nkeyatts, level, bs[i], s, fuel).value;
      InternalLevelFrom(store, nkeyatts, bs, i + 1, level, done.state, cs, m, steps - 1, fuel);
    }
  }

  lemma LevelLinks(store: Store, bs: seq<Block>, i: nat)
    requires i < |bs| && bs[i] in store && !store[bs[i]].leaf && !store[bs[i]].Ignore()
    ensures var p := store[bs[i]];
            && LevelDownlinks(store, bs[i..]) == DownlinksFrom(p, p.FirstDataKey()) + LevelDownlinks(store, bs[i + 1..])
            && LevelSeps(store, bs[i..]) == SepsFrom(p, p.FirstDataKey()) + LevelSeps(store, bs[i + 1..])
  {
    assert bs[i..][0] == bs[i] && bs[i..][1..] == bs[i + 1..];
  }

  lemma LowerIsChild(store: Store, t: Target, cs: seq<Block>, level: nat, fuel: nat)
    requires level > 0 && t.page.level == level && LowerLevel(store, cs, level - 1, fuel)
    ensures ChildLevel(store, t, cs, fuel)
  {
  }

  lemma LastHasNoMore(store: Store, bs: seq<Block>, i: nat)
    requires Chained(store, bs) && i < |bs| && bs[i] in store
    ensures store[bs[i]].Rightmost() ==> LevelDownlinks(store, bs[i + 1..]) == []
  {
    LinksOn(store, bs, i);
  }

  lemma StartsBelow(store: Store, cs: seq<Block>, k: nat, s: LevelState, p: Page, L: seq<Block>, S: seq<Option<Tuple>>)
    requires !p.leaf && p.FirstDataKey() <= |p.items| && |L| == |S| && s.carry == NoCarry
    requires Positioned(store, cs, k, s.carry, s.lowkey, DownlinksFrom(p, p.FirstDataKey()) + L,
                        SepsFrom(p, p.FirstDataKey()) + S)
    ensures cs != [] && cs[0] == p.items[p.FirstDataKey() - 1].link
  {
    NextLinks(p, p.FirstDataKey(), L, S);
    hide Under;
  }

  lemma NextArrived(store: Store, bs: seq<Block>, i: nat, s: LevelState, s': LevelState, cs: seq<Block>, p: Page)
    requires i + 1 < |bs| && Arrived(store, bs, i, s) && bs[i] in store && p == store[bs[i]] && SanePage(p) && !p.leaf
    requires !p.Rightmost() && s'.left == bs[i] && s'.lowkey == Some(p.items[0])
    requires s'.next == if i == 0 then NextLevel(p) else s.next
    requires i == 0 ==> p.items[p.FirstDataKey() - 1].link in store
    ensures Arrived(store, bs, i + 1, s')
  {
  }

  // ---- The whole index ----

  /** Sound levels, numbered from the root down to the leaves, each hanging below the one above. */
  ghost predicate SoundTree(store: Store, nkeyatts: nat, levels: seq<seq<Block>>) {
    && |levels| >= 1
    && (forall j :: 0 <= j < |levels| ==> SoundLevel(store, nkeyatts, levels[j], |levels| - 1 - j))
    && (forall j, k :: 0 <= j && k == j + 1 && k < |levels| ==> HangsBelow(store, levels[j], levels[k]))
    && levels[0][0] in store && store[levels[0][0]].root
  }

  /** A metapage, and a sound tree below its root unless the index is empty. */
  ghost predicate SoundIndex(store: Store, nkeyatts: nat, levels: seq<seq<Block>>) {
    && BTREE_METAPAGE in store && store[BTREE_METAPAGE].meta.Some?
    && var meta := store[BTREE_METAPAGE].meta.value;
       && meta.magic == BTREE_MAGIC && BTREE_MIN_VERSION <= meta.version <= BTREE_VERSION
       && if meta.root == P_NONE then levels == []
          else SoundTree(store, nkeyatts, levels) && meta.root == levels[0][0] && meta.level == |levels| - 1
  }

  lemma {:induction false} UnderHasLinks(store: Store, split: bool, sep: Option<Tuple>, cs: seq<Block>,
                                         links: seq<Block>, seps: seq<Option<Tuple>>, b: Block)
    requires |links| == |seps| && Under(store, split, sep, cs, links, seps) && b in links
    ensures b in cs
    decreases |cs|
  {
    var p := store[cs[0]];
    if cs[0] == links[0] {
      if b != links[0] {
        UnderHasLinks(store, p.incompleteSplit, seps[0], cs[1..], links[1..], seps[1..], b);
      }
    } else {
      UnderHasLinks(store, p.incompleteSplit, sep, cs[1..], links, seps, b);
    }
  }

  lemma {:induction false} LevelHasLink(store: Store, bs: seq<Block>, c: Block, b: Block)
    requires c in bs && c in store && b in Downlinks(store[c])
    ensures b in LevelDownlinks(store, bs)
  {
    if bs[0] != c {
      LevelHasLink(store, bs[1..], c, b);
    }
  }

  /** The first downlink of a page leads to the level below. */
  lemma FirstLinkBelow(store: Store, nkeyatts: nat, levels: seq<seq<Block>>, j: nat, c: Block)
    requires SoundTree(store, nkeyatts, levels) && j < |levels| && c in levels[j] && c in store && !store[c].leaf
    ensures j + 1 < |levels| && store[c].FirstDataKey() <= |store[c].items|
    ensures store[c].items[store[c].FirstDataKey() - 1].link in levels[j + 1]
    ensures store[c].level == |levels| - 1 - j && ReadPage(store, c) == Clean(store[c])
  {
    var p := store[c];
    InLevel(store, nkeyatts, levels, j, c);
    var k := j + 1;
    assert HangsBelow(store, levels[j], levels[k]);
    hide SoundTree, Under;
    var links, seps := LevelDownlinks(store, levels[j]), LevelSeps(store, levels[j]);
    LevelHasLink(store, levels[j], c, p.items[p.FirstDataKey() - 1].link);
    UnderHasLinks(store, false, None, levels[k], links, seps, p.items[p.FirstDataKey() - 1].link);
  }

  lemma InLevel(store: Store, nkeyatts: nat, levels: seq<seq<Block>>, j: nat, c: Block)
    requires SoundTree(store, nkeyatts, levels) && j < |levels| && c in levels[j]
    ensures c in store && SanePage(store[c]) && store[c].level == |levels| - 1 - j
            && ReadPage(store, c) == Clean(store[c])
  {
    assert SoundLevel(store, nkeyatts, levels[j], |levels| - 1 - j);
    hide SoundTree, LivePage;
    Readable(store, c);
  }

  /** A descent recorded in the pages is found by the verifier. */
  lemma {:induction false} DescentClean(store: Store, nkeyatts: nat, levels: seq<seq<Block>>, j: nat, blk: Block,
                                        child: Block, chain: seq<Block>, fuel: nat)
    requires SoundTree(store, nkeyatts, levels) && j < |levels| && child in levels[j]
    requires DeletionPath(store, blk, child, chain) && fuel > |levels| - j
    ensures TopParentDescent(store, blk, child, |levels| - j, fuel).Clean?
    decreases |levels| - j
  {
    hide SoundTree, ReadPage;
    InLevel(store, nkeyatts, levels, j, child);
    var c := store[child];
    if !c.leaf {
      FirstLinkBelow(store, nkeyatts, levels, j, child);
      DescentClean(store, nkeyatts, levels, j + 1, blk, c.items[c.FirstDataKey() - 1].link, chain[1..], fuel - 1);
    }
  }

  /** So every excuse is accepted. */
  lemma ExcuseAccepted(store: Store, nkeyatts: nat, levels: seq<seq<Block>>, j: nat, c: Block, split: bool, fuel: nat)
    requires SoundTree(store, nkeyatts, levels) && j < |levels| && c in levels[j] && c in store
    requires Excused(store, c, split) && fuel > |levels|
    ensures DownlinkMissing(store, split, c, store[c], fuel).Clean?
  {
    hide SoundTree, ReadPage, TopParentDescent;
    var page := store[c];
    if !page.root && !split {
      var chain :| DeletionPath(store, c, c, chain);
      FirstLinkBelow(store, nkeyatts, levels, j, c);
      DescentClean(store, nkeyatts, levels, j + 1, c, page.items[page.FirstDataKey() - 1].link, chain[1..], fuel);
    }
  }

  lemma LowerLevelHolds(store: Store, nkeyatts: nat, levels: seq<seq<Block>>, j: nat, fuel: nat)
    requires SoundTree(store, nkeyatts, levels) && j < |levels| && fuel > |levels|
    ensures LowerLevel(store, levels[j], |levels| - 1 - j, fuel)
  {
    assert SoundLevel(store, nkeyatts, levels[j], |levels| - 1 - j);
    hide SoundTree, Excused, DownlinkMissing, LivePage, Chained;
    forall c: Block, split: bool | c in levels[j] && c in store && !store[c].halfDead && Excused(store, c, split)
      ensures DownlinkMissing(store, split, c, store[c], fuel).Clean?
    {
      ExcuseAccepted(store, nkeyatts, levels, j, c, split, fuel);
    }
  }

  /** One sound level of the tree passes and leads to the next. */
  lemma SoundLevelPasses(store: Store, nkeyatts: nat, levels: seq<seq<Block>>, j: nat, fuel: nat)
    requires SoundTree(store, nkeyatts, levels) && j < |levels| && fuel > |levels|
    requires forall k :: 0 <= k < |levels| ==> fuel > |levels[k]|
    ensures levels[j] != [] && (j + 1 < |levels| ==> levels[j + 1] != [])
    ensures var level := BtreeLevel(|levels| - 1 - j, levels[j][0], j == 0);
            && LevelCheck(store, nkeyatts, level, fuel).Clean?
            && var next := LevelCheck(store, nkeyatts, level, fuel).value.next;
               if j + 1 < |levels| then next == BtreeLevel(|levels| - 2 - j, levels[j + 1][0], false)
               else next.leftmost == P_NONE
  {
    var bs := levels[j];
    var level := BtreeLevel(|levels| - 1 - j, bs[0], j == 0);
    hide Under, LivePage, LevelDownlinks, LevelSeps, LevelFrom, LowerLevel;
    LowerLevelHolds(store, nkeyatts, levels, j, fuel);
    LowerIsChained(store, bs, |levels| - 1 - j, fuel);
    assert Arrived(store, bs, 0, LevelStart);
    if j + 1 < |levels| {
      var k := j + 1;
      var cs := levels[k];
      LowerLevelHolds(store, nkeyatts, levels, k, fuel);
      assert HangsBelow(store, bs, cs);
      assert bs[0..] == bs;
      assert Positioned(store, cs, 0, NoCarry, None, LevelDownlinks(store, bs), LevelSeps(store, bs));
      InternalLevelFrom(store, nkeyatts, bs, 0, level, LevelStart, cs, 0, fuel, fuel);
    } else {
      LeafLevelFrom(store, nkeyatts, bs, 0, level, LevelStart, fuel, fuel);
    }
  }

  lemma {:induction false} SoundLevelsPass(store: Store, nkeyatts: nat, levels: seq<seq<Block>>, j: nat, steps: nat,
                                           fuel: nat)
    requires SoundTree(store, nkeyatts, levels) && j < |levels| && fuel > |levels| && steps >= |levels| - j
    requires forall k :: 0 <= k < |levels| ==> fuel > |levels[k]|
    ensures levels[j] != []
    ensures LevelsFrom(store, nkeyatts, BtreeLevel(|levels| - 1 - j, levels[j][0], j == 0), steps, fuel).Clean?
    decreases |levels| - j
  {
    hide SoundTree, LevelCheck;
    SoundLevelPasses(store, nkeyatts, levels, j, fuel);
    FirstBlock(store, nkeyatts, levels, j);
    if j + 1 < |levels| {
      FirstBlock(store, nkeyatts, levels, j + 1);
      SoundLevelsPass(store, nkeyatts, levels, j + 1, steps - 1, fuel);
    }
  }

  lemma FirstBlock(store: Store, nkeyatts: nat, levels: seq<seq<Block>>, j: nat)
    requires SoundTree(store, nkeyatts, levels) && j < |levels|
    ensures levels[j] != [] && levels[j][0] in store && levels[j][0] != P_NONE
  {
    assert SoundLevel(store, nkeyatts, levels[j], |levels| - 1 - j);
    hide SoundTree, LivePage;
    BlockThere(store, levels[j], 0);
  }

  /** The verifier reports nothing on a sound index, whatever it is given more than enough steps. */
  lemma SoundIndexPasses(store: Store, nkeyatts: nat, levels: seq<seq<Block>>, fuel: nat)
    requires SoundIndex(store, nkeyatts, levels)
    requires fuel > |levels| && forall k :: 0 <= k < |levels| ==> fuel > |levels[k]|
    ensures EveryLevel(store, nkeyatts, fuel).Clean?
  {
    hide SoundTree, LevelsFrom;
    var meta := store[BTREE_METAPAGE].meta.value;
    if meta.root == P_NONE {
      NothingToCheck(store, nkeyatts, meta, fuel);
    } else {
      SoundLevelsPass(store, nkeyatts, levels, 0, fuel, fuel);
    }
  }

  lemma NothingToCheck(store: Store, nkeyatts: nat, meta: Meta, fuel: nat)
    requires meta.root == P_NONE
    ensures LevelsFrom(store, nkeyatts, BtreeLevel(meta.level, meta.root, true), fuel, fuel) == Clean([])
  {
  }
}
