/** Pages, index tuples and key order of a version 4 (heapkeyspace) B-tree index, as the verifier reads them. */
module BTreePages {
  import opened Wrappers
  import opened Lex

  type Block = nat

  const P_NONE: Block := 0
  const BTREE_METAPAGE: Block := 0
  const InvalidBlockNumber: Block := 0xFFFF_FFFF
  const InvalidBtreeLevel: nat := 0xFFFF_FFFF
  const BTREE_MAGIC: nat := 0x053162
  const BTREE_MIN_VERSION: nat := 2
  const BTREE_VERSION: nat := 4
  const MaxIndexTuplesPerPage: nat := 408
  const P_HIKEY: nat := 1
  const P_FIRSTKEY: nat := 2
  const InvalidOffsetNumber: nat := 0

  /** attrs are the attribute values under the operator class order, possibly suffix-truncated in a pivot.
      tids is the heap TID of a plain tuple, the posting list of a posting tuple, or the optional
      tiebreaker of a pivot. link is the downlink of a pivot (or the top parent of a half-dead leaf's high key). */
  datatype Tuple = Tuple(pivot: bool, attrs: seq<int>, tids: seq<int>, link: Block)

  datatype Meta = Meta(magic: nat, version: nat, root: Block, level: nat)

  datatype Page = Page(
    meta: Option<Meta>, leaf: bool, root: bool, deleted: bool, halfDead: bool, incompleteSplit: bool,
    fullXid: bool, garbage: bool, prev: Block, next: Block, level: nat, items: seq<Tuple>)
  {
    predicate Ignore() { deleted || halfDead }
    predicate Leftmost() { prev == P_NONE }
    predicate Rightmost() { next == P_NONE }
    function FirstDataKey(): nat { if Rightmost() then P_HIKEY else P_FIRSTKEY }
    predicate IsNegativeInfinity(offset: nat) { !leaf && offset == FirstDataKey() }
  }

  /** The index file: block numbers in use, all below InvalidBlockNumber. */
  type Store = m: map<Block, Page> | InvalidBlockNumber !in m

  /** The errors the verifier can raise, one constructor a message. */
  datatype Fault =
    | UnreadableBlock | UnexpectedMetaPage | CorruptMetaPage | VersionMismatch | LeafLevelNotZero | InternalLevelZero
    | TooManyItems | InternalLacksItems | LeafLacksHighKey | InternalHalfDead | InternalGarbage | FullXidNotDeleted
    | DeletedHalfDead | BadLinePointer | WrongAttributeCount | MisplacedPostingTid | HighKeyInvariant | ItemOrder
    | CrossPageItemOrder | DownlinkLowerBound | CannotTraverse | ChildNotLeftmost | ChildLevel | CircularChain
    | LeafLacksDownlink | UnderCheckLevel | DownlinkToDeletedLeaf | InternalLacksDownlink | NoRightmostPivot
    | NoLowKey | PivotMismatch | DownlinkToDeleted | LinkToDeleted | FellOffEnd | NotLeftmost | NotTrueRoot
    | LinksDisagree | LevelMismatch | NoValidPages

  /** Silence, the first error raised, or a walk that was still going when its step budget ran out. */
  datatype Outcome<+T> = Clean(value: T) | Corrupt(fault: Fault) | OutOfFuel {
    predicate IsFailure() { !Clean? }
    function PropagateFailure<U>(): Outcome<U>
      requires IsFailure()
    {
      if Corrupt? then Corrupt(fault) else OutOfFuel
    }
    function Extract(): T
      requires Clean?
    {
      value
    }
  }

  function Check(ok: bool, fault: Fault): Outcome<()> {
    if ok then Clean(()) else Corrupt(fault)
  }

  /** The tuple as a point of the key space: truncated attributes are simply missing, which the
      lexicographic order reads as minus infinity; the (lowest) heap TID is the last key column. */
  function Key(t: Tuple): seq<int> {
    t.attrs + t.tids[..if |t.tids| == 0 then 0 else 1]
  }

  /** Same, with the highest TID of a posting list. */
  function MaxKey(t: Tuple): seq<int> {
    if |t.tids| == 0 then t.attrs else t.attrs + [t.tids[|t.tids| - 1]]
  }

  /** bt_pivot_tuple_identical: everything but the block number. */
  predicate PivotIdentical(a: Tuple, b: Tuple) {
    a.pivot == b.pivot && a.attrs == b.attrs && a.tids == b.tids
  }

  /** palloc_btree_page: the page, or the first of the sanity checks it fails. */
  function ReadPage(store: Store, blk: Block): (r: Outcome<Page>)
    ensures r.Clean? ==> blk in store && r.value == store[blk]
    ensures r.Clean? && blk == BTREE_METAPAGE ==> r.value.meta.Some?
  {
    if blk !in store then Corrupt(UnreadableBlock) else
    var p := store[blk];
    var _ :- Check(!(p.meta.Some? && blk != BTREE_METAPAGE), UnexpectedMetaPage);
    if blk == BTREE_METAPAGE then
      var _ :- Check(p.meta.Some? && p.meta.value.magic == BTREE_MAGIC, CorruptMetaPage);
      var _ :- Check(BTREE_MIN_VERSION <= p.meta.value.version <= BTREE_VERSION, VersionMismatch);
      Clean(p)
    else
      var trusted := !p.deleted || p.fullXid;
      var _ :- Check(!(trusted && p.leaf && p.level != 0), LeafLevelNotZero);
      var _ :- Check(!(trusted && !p.leaf && p.level == 0), InternalLevelZero);
      var _ :- Check(|p.items| <= MaxIndexTuplesPerPage, TooManyItems);
      var _ :- Check(!(!p.leaf && !p.deleted && |p.items| < p.FirstDataKey()), InternalLacksItems);
      var _ :- Check(!(p.leaf && !p.deleted && !p.Rightmost() && |p.items| < P_HIKEY), LeafLacksHighKey);
      var _ :- Check(!(!p.leaf && p.halfDead), InternalHalfDead);
      var _ :- Check(!(!p.leaf && p.garbage), InternalGarbage);
      var _ :- Check(!(p.fullXid && !p.deleted), FullXidNotDeleted);
      var _ :- Check(!(p.deleted && p.halfDead), DeletedHalfDead);
      Clean(p)
  }

  /** PageGetItemIdCareful and PageGetItem: offsets outside the line pointer array are rejected. */
  function GetItem(p: Page, offset: nat): (r: Outcome<Tuple>)
    ensures r.Clean? <==> 1 <= offset <= |p.items|
    ensures r.Clean? ==> r.value == p.items[offset - 1]
  {
    if 1 <= offset <= |p.items| then Clean(p.items[offset - 1]) else Corrupt(BadLinePointer)
  }

  /** _bt_check_natts in a heapkeyspace index with nkeyatts key columns and no others. */
  predicate NattsOk(nkeyatts: nat, p: Page, offset: nat)
    requires 1 <= offset <= |p.items|
  {
    var t := p.items[offset - 1];
    p.Ignore() ||
    if p.leaf && offset >= p.FirstDataKey() then
      !t.pivot && |t.attrs| == nkeyatts && |t.tids| >= 1
    else if !p.leaf && offset == p.FirstDataKey() then
      |t.attrs| == 0 && t.pivot
    else
      t.pivot && |t.tids| <= 1 && (|t.tids| == 1 ==> |t.attrs| == nkeyatts) && 0 < |t.attrs| <= nkeyatts
  }
}
