# Verified models of five PostgreSQL contrib modules

The repository vendors PostgreSQL 14.2. This project models five of its contrib modules in Dafny and proves what they are
for. Each component has specification functions, the imperative routines of the source proved against them, and theorems
about the specification.

* **amcheck** (`BTreePages`, `AmcheckSpec`, `AmcheckChecker`, `AmcheckChain`, `AmcheckTheorems`, `AmcheckSound`,
  `AmcheckExact`): the readonly B-tree verifier over a store of pages, with the state it carries from page to page and call
  to call. It reports nothing exactly on indexes that are sound, soundness being said of the pages alone
  (`AmcheckExact.PassesIffSound`).
* **btree_gist** (`GistVarKeys`, `GistCover`, `GistTree`, `GistInsert`): union, truncation, page split and the consistent
  function for bytea keys. Truncated upper bounds stop being upper bounds; the cover relation says what they still promise.
  Searches over whole trees are exact, also after insertions that split pages up to the root.
* **bloom** (`BloomSignature`, `BloomExact`, `BloomPages`, `BloomProtocol`, `BloomInvariant`, `BloomTheorems`,
  `BloomIndex`): the generator, and signatures to the bit; pages; then a state machine of any number of inserts, bulk
  deletions, cleanups and scans that interleave page by page, can fail at any point, and use a free space map that may be
  wrong.
* **hstore** (`HstorePairs`, `HstoreLayout`, `HstoreBuild`, `HstoreOps`, `HstoreDelete`, `HstoreCompare`, `HstoreText`,
  `HstoreParser`, `HstoreGrammar`, `HstoreIo`, `HstoreOut`, `HstoreCompat`): packed values byte by byte, the merges that
  build them in one buffer, lookup, order, the texts that are read and the pairs they spell, output, and the conversion of
  old values in place.
* **intarray** (`IntQueryText`, `IntQueryParse`, `IntQueryAccept`, `IntQueryItems`, `IntQueryEval`, `IntQueryInput`,
  `IntQueryLexing`, `IntQueryPrint`, `IntQueryRoundTrip`, `IntQueryLimits`, `IntArrayOps`, `IntGin`): boolean queries from
  text to linked postfix items, the texts that write a query, evaluation, printing, and the GIN support functions.

`Lex` is the order of byte strings that all of them use, `Wrappers` an optional value. `dafny verify dfyconfig.toml`
checks everything.

Six laws one would expect do not hold of the code. Each has a concrete input that breaks it and the exact condition under
which it holds:

* the downlinks of a clean level form one chain: exactly if none of them is P_NONE and none leads to a page whose right
  link is InvalidBlockNumber (`AmcheckTheorems.NoneDownlinkPasses`, `AmcheckTheorems.StrayRightLinkPasses`,
  `AmcheckTheorems.ChainIffDownlinksLeadOn`);
* an index that is not corrupt is never reported (WebChat/postgresql-14.2/doc/src/sgml/amcheck.sgml:542-543): exactly if it
  is sound as the pages say, which takes half-dead leaves that repeat a separator; the high key that an interrupted page
  deletion leaves has no attributes (`AmcheckExact.InterruptedDeletionIsReported`, `AmcheckExact.DummyHighKeyIsReported`,
  `AmcheckExact.PassesIffSound`);
* a GiST page split keeps coverage: exactly if the cut, whose length can come from the other half, spares every open upper
  bound (`GistTree.InternalSplitLosesRow`, `GistCover.SplitHalfExact`); splits of leaf pages always do;
* the back links of a stored query are right: exactly if every right operand has at most 32767 items, since `left` is 16
  bits wide (`IntQueryLimits.LongRightOperandMisread`, `IntQueryEval.LinksTrueIff`);
* the bits of a bloom signature are in range: exactly if the mixed seed is not 0xFFFFFFFF or 0x80000001
  (`BloomSignature.DrawsInRangeIff`), which signing therefore requires; the comment in the source states the range of the
  seeded state without this exception;
* an old hstore value keeps its pairs when it is upgraded: exactly if it does not look like a short new one, which takes a
  first value that is null but has a stored length of 32768 or more (`HstoreCompat.ShortCutMisreads`,
  `HstoreCompat.UpgradeKeepsPairsIff`).

## Model

| member | source | states |
|---|---|---|
| `AmcheckChecker.BtreeCheckState.DownlinkMissingCheck` | WebChat/postgresql-14.2/contrib/amcheck/verify_nbtree.c:2234-2400 | Reports a live child page without downlink unless it follows an incomplete split, is a root, or first downlinks descend from it to a half-dead leaf naming it as top parent |
| `AmcheckChecker.BtreeCheckState.MatchHighKey` | WebChat/postgresql-14.2/contrib/amcheck/verify_nbtree.c:1937-2036 | A child high key must equal the right separator: the next pivot, the target high key, or the first real item of the right sibling |
| `AmcheckChecker.BtreeCheckState.VisitChildPage` | WebChat/postgresql-14.2/contrib/amcheck/verify_nbtree.c:1890-2036 | One page of the child walk: level, sibling link and missing-downlink checks, high key compared unless the page is incompletely split |
| `AmcheckChecker.BtreeCheckState.WalkHighkeys` | WebChat/postgresql-14.2/contrib/amcheck/verify_nbtree.c:1867-2053 | The loop along right links ends with the specified verdict and carry |
| `AmcheckChecker.BtreeCheckState.ChildHighkeyCheck` | WebChat/postgresql-14.2/contrib/amcheck/verify_nbtree.c:1823-2054 | Walks right from the remembered child page to the downlink, leaving prevrightlink and previncompletesplit as specified |
| `AmcheckChecker.BtreeCheckState.CheckChild` | WebChat/postgresql-14.2/contrib/amcheck/verify_nbtree.c:2069-2219 | Every item of a child is strictly above the downlink key, after the high key walk |
| `AmcheckChecker.BtreeCheckState.RightPageCheckScankey` | WebChat/postgresql-14.2/contrib/amcheck/verify_nbtree.c:1544-1744 | Finds the first real item right of the target, stepping over ignorable pages |
| `AmcheckChecker.BtreeCheckState.CheckItem` | WebChat/postgresql-14.2/contrib/amcheck/verify_nbtree.c:1228-1440 | The checks of one item on its own level: attribute count, posting order, high key, order, right neighbour |
| `AmcheckChecker.BtreeCheckState.TargetPageCheck` | WebChat/postgresql-14.2/contrib/amcheck/verify_nbtree.c:1045-1526 | The item loop of a page and the sweep after its last downlink |
| `AmcheckChecker.BtreeCheckState.CheckPlace` | WebChat/postgresql-14.2/contrib/amcheck/verify_nbtree.c:729-806 | A live page has the level and left sibling the walk expects, and the level below it becomes known |
| `AmcheckChecker.BtreeCheckState.CheckPageOnLevel` | WebChat/postgresql-14.2/contrib/amcheck/verify_nbtree.c:684-861 | One iteration of the level walk with all that it carries to the next page |
| `AmcheckChecker.BtreeCheckState.CheckLevelFromLeftmost` | WebChat/postgresql-14.2/contrib/amcheck/verify_nbtree.c:657-874 | The verdict on one level and the level below |
| `AmcheckChecker.BtreeCheckState.CheckEveryLevel` | WebChat/postgresql-14.2/contrib/amcheck/verify_nbtree.c:420-569 | The verdict on the whole index, level by level from the true root |
| `AmcheckChain.MissingDownlinkIsExcused` | WebChat/postgresql-14.2/contrib/amcheck/verify_nbtree.c:2234-2400 | A page passed over without downlink follows an incomplete split, is a root, or is the top parent of an interrupted deletion |
| `AmcheckChain.WalkShape` | WebChat/postgresql-14.2/contrib/amcheck/verify_nbtree.c:1823-2054 | One walk to a downlink steps along right links, and every page on the way is excused |
| `AmcheckChain.ItemsShape` | WebChat/postgresql-14.2/contrib/amcheck/verify_nbtree.c:1228-1526 | All walks of one page join into a single stretch of the child chain |
| `AmcheckChain.LevelHasShape` | WebChat/postgresql-14.2/contrib/amcheck/verify_nbtree.c:657-874 | All walks of a level join, across pages, into one stretch of right links whose marked pages are the downlinks in order |
| `AmcheckTheorems.DownlinksFormOneChain` | WebChat/postgresql-14.2/contrib/amcheck/verify_nbtree.c:1823-2054 | After a clean check of a level none of whose downlinks is P_NONE or leads to a page with InvalidBlockNumber as right link, its downlinks, negative-infinity items included, read left to right are a subsequence of one right-link chain from a leftmost child page to P_NONE; every other live page on it is excused |
| `AmcheckTheorems.ChainIffDownlinksLeadOn` | WebChat/postgresql-14.2/contrib/amcheck/verify_nbtree.c:1841-1893 | For every clean level: such a chain exists if and only if no downlink is P_NONE and no downlinked page has InvalidBlockNumber as right link |
| `AmcheckTheorems.NoneDownlinkPasses` | WebChat/postgresql-14.2/contrib/amcheck/verify_nbtree.c:1841-1893 | A concrete index whose only downlink is P_NONE passes without report |
| `AmcheckTheorems.StrayRightLinkPasses` | WebChat/postgresql-14.2/contrib/amcheck/verify_nbtree.c:1841-1893 | A concrete level passes whose two downlinks are on no chain, the right link of the first child being InvalidBlockNumber |
| `AmcheckTheorems.LevelIsSound` | WebChat/postgresql-14.2/contrib/amcheck/verify_nbtree.c:1045-1526 | On every live page of a clean level the items ascend strictly, across to the next live page too, they obey the high key, and the children match the separators |
| `AmcheckTheorems.LevelsVerified` | WebChat/postgresql-14.2/contrib/amcheck/verify_nbtree.c:420-569 | A clean run over all levels verifies the whole tree: each level is the child chain of the one above |
| `AmcheckTheorems.CleanIndexIsVerified` | WebChat/postgresql-14.2/contrib/amcheck/verify_nbtree.c:420-569 | Without a report, an index that is not empty is fully verified from its true root if and only if no downlink is P_NONE |
| `AmcheckTheorems.SubtreeBounded` | WebChat/postgresql-14.2/contrib/amcheck/verify_nbtree.c:1363-1391 | In a verified tree without incomplete splits and ignorable pages, every leaf tuple any number of downlinks below a non-rightmost page is at most its high key |
| `AmcheckTheorems.HighKeyBoundsSubtree` | WebChat/postgresql-14.2/contrib/amcheck/verify_nbtree.c:1937-2036 | The same, stated from the verdict of the checker itself, for a page of any level |
| `AmcheckTheorems.NoBlockTwice` | WebChat/postgresql-14.2/contrib/amcheck/verify_nbtree.c:684-861 | A level walk over pages that are live visits no block twice, whatever the sibling links are |
| `AmcheckTheorems.BlocksAreBudget` | WebChat/postgresql-14.2/contrib/amcheck/verify_nbtree.c:684-861 | So if the pages along the right links are live, a budget of as many steps as there are blocks gives the final verdict |
| `AmcheckTheorems.LeafWalkEnds` | WebChat/postgresql-14.2/contrib/amcheck/verify_nbtree.c:684-861 | On the leaf level such a walk always ends, at P_NONE or with a report |
| `AmcheckSound.WalkClean` | WebChat/postgresql-14.2/contrib/amcheck/verify_nbtree.c:1867-2053 | From any page of a sound child level the walk reaches the next downlink without a report, past incomplete splits, roots and the top parents of interrupted deletions |
| `AmcheckSound.ExcuseAccepted` | WebChat/postgresql-14.2/contrib/amcheck/verify_nbtree.c:2234-2400 | Every excuse for a missing downlink that the pages record is accepted |
| `AmcheckSound.ItemHolds` | WebChat/postgresql-14.2/contrib/amcheck/verify_nbtree.c:1228-1440 | On a sound level no item is reported: equal to the high key on a leaf is allowed, half-dead pages to the right are stepped over |
| `AmcheckSound.SoundLevelPasses` | WebChat/postgresql-14.2/contrib/amcheck/verify_nbtree.c:657-874 | A sound level passes and leads to the level below |
| `AmcheckSound.SoundIndexPasses` | WebChat/postgresql-14.2/contrib/amcheck/verify_nbtree.c:420-569 | On an index whose pages are sound, as said of the pages alone, nothing is reported |
| `AmcheckExact.TargetSays` | WebChat/postgresql-14.2/contrib/amcheck/verify_nbtree.c:1045-1526 | A page that passes has the attribute counts, ordered posting lists, item order, high key bound and lower bounds of a sound page |
| `AmcheckExact.LevelUnder` | WebChat/postgresql-14.2/contrib/amcheck/verify_nbtree.c:657-874 | What hangs below a level that passes is what the walk stepped on: every page the next downlink or excused, repeating the separator in front of it |
| `AmcheckExact.PassesIffSound` | WebChat/postgresql-14.2/contrib/amcheck/verify_nbtree.c:420-569 | Given more steps than blocks, an index without P_NONE downlinks and strays on its root level passes if and only if it is sound |
| `AmcheckExact.HalfDeadRepeats` | WebChat/postgresql-14.2/src/backend/access/nbtree/nbtpage.c:2221-2233 | A half-dead page below another level is in a sound tree only with a high key that repeats a separator, which the one an interrupted deletion writes does not |
| `AmcheckExact.InterruptedDeletionIsReported` | WebChat/postgresql-14.2/contrib/amcheck/verify_nbtree.c:1926-2036 | A concrete index whose only flaw is a half-dead leaf without attributes in its high key is reported for a mismatch between parent key and child high key |
| `AmcheckExact.DummyHighKeyIsReported` | WebChat/postgresql-14.2/contrib/amcheck/verify_nbtree.c:1926-2036 | So an index with such a page never passes |
| `GistVarKeys.NodeCpLen` | WebChat/postgresql-14.2/contrib/btree_gist/btree_utils_var.c:120-162 | The loop computes the common prefix of the two bounds |
| `GistVarKeys.BinUnion` | WebChat/postgresql-14.2/contrib/btree_gist/btree_utils_var.c:232-277 | The running key becomes the span of itself and one more key |
| `GistVarKeys.Union` | WebChat/postgresql-14.2/contrib/btree_gist/btree_utils_var.c:321-357 | The loop and truncation compute the span of all keys cut one past its common prefix |
| `GistVarKeys.DealOut` | WebChat/postgresql-14.2/contrib/btree_gist/btree_utils_var.c:513-528 | The loop over the sorted entries: the first half goes left, the rest right, with the span of each |
| `GistVarKeys.PickSplit` | WebChat/postgresql-14.2/contrib/btree_gist/btree_utils_var.c:457-547 | Splits a sorted arrangement of the entries in half, both half keys cut at the longer of the two lengths |
| `GistCover.CutCovers` | WebChat/postgresql-14.2/contrib/btree_gist/btree_utils_var.c:203-228 | What a cut of a span still covers of one key inside it |
| `GistCover.UnionCovers` | WebChat/postgresql-14.2/contrib/btree_gist/btree_utils_var.c:321-357 | The union, truncation included, covers every value any input covered, already truncated inputs included |
| `GistCover.UnionOrdered` | WebChat/postgresql-14.2/contrib/btree_gist/btree_utils_var.c:321-357 | The bounds of a union are in order |
| `GistCover.LeafSplitCovers` | WebChat/postgresql-14.2/contrib/btree_gist/btree_utils_var.c:513-544 | Both keys of a split of exact leaf entries cover all entries on their side |
| `GistCover.SplitHalfExact` | WebChat/postgresql-14.2/contrib/btree_gist/btree_utils_var.c:531-541 | A half of any page split keeps all coverage if and only if the cut spares every open upper bound in it |
| `GistCover.ConsistentFinds` | WebChat/postgresql-14.2/contrib/btree_gist/btree_utils_var.c:553-612 | For all six strategies a node key that covers a matching value is consistent with the query; the prefix match makes up for the cut |
| `GistTree.BuiltIsSound` | WebChat/postgresql-14.2/contrib/btree_gist/btree_utils_var.c:321-357 | Keys built bottom-up by unions, to any height, cover everything below them |
| `GistTree.SearchIsExact` | WebChat/postgresql-14.2/contrib/btree_gist/btree_utils_var.c:553-612 | A scan of a sound tree returns exactly the rows a sequential scan would, in order, for every strategy |
| `GistInsert.SplitKeepsBag` | WebChat/postgresql-14.2/src/backend/access/gist/gist.c:1415-1497 | Splitting entries over as many pages as they need keeps every value below them |
| `GistInsert.SplitIsSound` | WebChat/postgresql-14.2/src/backend/access/gist/gist.c:1415-1497 | Every page of such a split covers what is below it if the cuts spare the open upper bounds |
| `GistInsert.LeafSplitSpares` | WebChat/postgresql-14.2/contrib/btree_gist/btree_utils_var.c:513-544 | For the entries of leaf pages they always do |
| `GistInsert.InsertAdds` | WebChat/postgresql-14.2/src/backend/access/gist/gist.c:222-330 | An insertion anywhere, with all the page splits it causes, adds exactly the new value |
| `GistInsert.InsertKeepsSound` | WebChat/postgresql-14.2/src/backend/access/gist/gistutil.c:315-364 | Widening every downlink on the path by a union and splitting full pages keeps the tree sound, if the splits of internal pages spare the open upper bounds |
| `GistInsert.ScanAfterInsert` | WebChat/postgresql-14.2/src/backend/access/gist/gist.c:632-895 | Scans of the tree after an insertion, under a new root if there is one, return exactly the matching ones of the old rows and the new one |
| `GistTree.InternalSplitLosesRow` | WebChat/postgresql-14.2/contrib/btree_gist/btree_utils_var.c:531-541 | A concrete split of an internal page after which a stored row is no longer found |
| `BloomSignature.RandIsParkMiller` | WebChat/postgresql-14.2/contrib/bloom/blutils.c:221-246 | The step computes 16807 * next modulo 2^31 - 1 and stays in [1, 2^31 - 2] |
| `BloomSignature.SrandZeroIff` | WebChat/postgresql-14.2/contrib/bloom/blutils.c:248-254 | mySrand leaves the unusable state 0 for exactly two seeds |
| `BloomSignature.Generator.MySrand` | WebChat/postgresql-14.2/contrib/bloom/blutils.c:248-254 | Seeds the generator, with the truncating remainder of a possibly negative int32 |
| `BloomSignature.Generator.MyRand` | WebChat/postgresql-14.2/contrib/bloom/blutils.c:221-246 | One step; every intermediate value is an int32 |
| `BloomSignature.DrawsInRangeIff` | WebChat/postgresql-14.2/contrib/bloom/blutils.c:271-286 | All bits drawn for a value lie inside the signature if and only if the seed is not one of the two |
| `BloomSignature.SeedValue` | WebChat/postgresql-14.2/contrib/bloom/blutils.c:271-279 | Column number and hash are mixed into the seed |
| `BloomExact.XorBit` | WebChat/postgresql-14.2/contrib/bloom/blutils.c:279-279 | The mixture is the exclusive or, bit by bit |
| `BloomExact.SeedsDiffer` | WebChat/postgresql-14.2/contrib/bloom/blutils.c:265-279 | In one column different hashes give different seeds, and one hash gives different seeds in different columns |
| `BloomExact.BitsAre` | WebChat/postgresql-14.2/contrib/bloom/blutils.c:277-285 | Bit i of a value: state i + 1 of the Park-Miller generator, seeded with the hash and 16807 times the column number plus one less one, modulo the signature length |
| `BloomSignature.SignValue` | WebChat/postgresql-14.2/contrib/bloom/blutils.c:259-287 | Sets in the signature array exactly the bits drawn |
| `BloomSignature.FormSignature` | WebChat/postgresql-14.2/contrib/bloom/blutils.c:292-311 | The signature of a row is made of its non-null columns |
| `BloomSignature.ScanSignature` | WebChat/postgresql-14.2/contrib/bloom/blscan.c:90-116 | The signature of the scan keys, or that nothing can match when one is NULL |
| `BloomSignature.MatchesSignature` | WebChat/postgresql-14.2/contrib/bloom/blscan.c:147-155 | The word loop decides whether one signature has all bits of the other |
| `BloomSignature.RowHasBits` | WebChat/postgresql-14.2/contrib/bloom/blutils.c:300-308 | A row signature has all bits of each of its non-null columns |
| `BloomSignature.RowCoversKeys` | WebChat/postgresql-14.2/contrib/bloom/blscan.c:147-155 | A row whose columns equal all scan keys has a signature the scan accepts |
| `BloomExact.SetBitsExact` | WebChat/postgresql-14.2/contrib/bloom/blutils.c:281-286 | Setting bits sets these bits and no others |
| `BloomExact.RowBits` | WebChat/postgresql-14.2/contrib/bloom/blutils.c:300-308 | A bit of a row signature is set exactly if it is drawn for one of the non-null columns |
| `BloomExact.ScanAcceptsIff` | WebChat/postgresql-14.2/contrib/bloom/blscan.c:147-155 | A scan accepts a row if and only if every bit drawn for one of its keys is drawn for some column of the row |
| `BloomPages.EmptyPageFits` | WebChat/postgresql-14.2/contrib/bloom/blinsert.c:100-104 | An empty page has room for a tuple of any permitted length |
| `BloomPages.Page.Init` | WebChat/postgresql-14.2/contrib/bloom/blutils.c:406-416 | Makes a live, empty page |
| `BloomPages.Page.AddItem` | WebChat/postgresql-14.2/contrib/bloom/blutils.c:317-345 | Appends the tuple, or refuses and changes nothing, exactly by the free-space test |
| `BloomPages.Page.Compact` | WebChat/postgresql-14.2/contrib/bloom/blvacuum.c:81-111 | Moves the survivors down in place: the result is the order-preserving filter of the old tuples, and the count of removed ones is right |
| `BloomPages.Page.Vacuum` | WebChat/postgresql-14.2/contrib/bloom/blvacuum.c:73-138 | The page is marked deleted exactly when something was removed and nothing is left |
| `BloomPages.Page.Scan` | WebChat/postgresql-14.2/contrib/bloom/blscan.c:137-164 | Collects the heap pointers of exactly the matching tuples of a live page |
| `BloomPages.BuildState.FlushCachedPage` | WebChat/postgresql-14.2/contrib/bloom/blinsert.c:46-68 | The cached page goes to the file and a new one is begun; nothing is lost |
| `BloomPages.BuildState.Callback` | WebChat/postgresql-14.2/contrib/bloom/blinsert.c:73-115 | Adds the tuple, flushing a full page first; its error branch is never taken |
| `BloomPages.Build` | WebChat/postgresql-14.2/contrib/bloom/blinsert.c:120-158 | The data pages hold exactly the tuples of the rows, in order |
| `BloomInvariant.StepEvolves` | WebChat/postgresql-14.2/contrib/bloom/blinsert.c:249-354 | No step of any process takes a tuple off its block except by counted removal: no page with live tuples is reinitialised |
| `BloomInvariant.OthersRespectLock` | WebChat/postgresql-14.2/contrib/bloom/blinsert.c:277-354 | While one insert holds the metapage, others leave the window and its freshly extended block alone |
| `BloomInvariant.WindowKept` | WebChat/postgresql-14.2/contrib/bloom/blinsert.c:281-354 | The window keeps naming distinct initialised data pages with nStart <= nEnd |
| `BloomInvariant.ConservedKept` | WebChat/postgresql-14.2/contrib/bloom/blvacuum.c:85-138 | Every step keeps stored tuples equal to inserted less removed, each as often |
| `BloomInvariant.ScanAdvances` | WebChat/postgresql-14.2/contrib/bloom/blscan.c:125-168 | Scanning a page finds every matching tuple owed on it |
| `BloomInvariant.DeleteAdvances` | WebChat/postgresql-14.2/contrib/bloom/blvacuum.c:58-139 | Deleting on a page settles every named tuple owed on it and lists only initialised pages |
| `BloomInvariant.StepKeepsInv` | WebChat/postgresql-14.2/contrib/bloom/blinsert.c:229-363 | Every step, by any process in any phase, keeps the whole invariant |
| `BloomTheorems.BuildStartsRun` | WebChat/postgresql-14.2/contrib/bloom/blinsert.c:120-158 | What the index build leaves is the first state of a run |
| `BloomTheorems.RunKeepsInv` | WebChat/postgresql-14.2/contrib/bloom/blinsert.c:120-363 | The invariant holds in every state of every run from a freshly built index |
| `BloomTheorems.ContentsOnEveryRun` | WebChat/postgresql-14.2/contrib/bloom/blvacuum.c:85-155 | On every run the contents are the inserted less the removed tuples, new and deleted pages are empty, and the window is proper |
| `BloomTheorems.NewBufferIsEmpty` | WebChat/postgresql-14.2/contrib/bloom/blutils.c:351-401 | A page BloomNewBuffer hands out, recycled or extended, is a data page with nothing on it and takes the tuple |
| `BloomTheorems.OnlyNamedAreRemoved` | WebChat/postgresql-14.2/contrib/bloom/blvacuum.c:91-96 | Only tuples the callback names are ever removed, and only by bulk deletion |
| `BloomTheorems.ScanFindsAll` | WebChat/postgresql-14.2/contrib/bloom/blscan.c:80-172 | On every run a finished scan has every tuple stored at its start, not removed since, whose signature covers its own |
| `BloomTheorems.RowIsFound` | WebChat/postgresql-14.2/contrib/bloom/blscan.c:80-172 | So a row whose columns equal all scan keys is in the bitmap: no false negatives under any interleaving |
| `BloomTheorems.BitmapIsTaken` | WebChat/postgresql-14.2/contrib/bloom/blscan.c:125-168 | On every run each pointer in the bitmap was taken from a tuple on the page being read whose signature covers that of the scan |
| `BloomTheorems.DeletionRemovesAll` | WebChat/postgresql-14.2/contrib/bloom/blvacuum.c:58-139 | On every run a finished bulk deletion has removed every named tuple stored at its start |
| `BloomIndex.Index.InsertHinted` | WebChat/postgresql-14.2/contrib/bloom/blinsert.c:229-275 | The attempt on the first page of the window, as steps of the protocol |
| `BloomIndex.Index.InsertWindow` | WebChat/postgresql-14.2/contrib/bloom/blinsert.c:281-334 | The loop over the rest of the window under the metapage lock |
| `BloomIndex.Index.InsertNew` | WebChat/postgresql-14.2/contrib/bloom/blinsert.c:340-354 | Taking a recycled or new page, which becomes the whole window |
| `BloomIndex.Index.Insert` | WebChat/postgresql-14.2/contrib/bloom/blinsert.c:196-366 | The contents gain exactly the tuple, once |
| `BloomIndex.Index.BulkDelete` | WebChat/postgresql-14.2/contrib/bloom/blvacuum.c:33-161 | Every page loses exactly the named tuples, they are counted, and the window becomes pages with room, all of them if they fit |
| `BloomIndex.Index.VacuumCleanup` | WebChat/postgresql-14.2/contrib/bloom/blvacuum.c:168-217 | Exactly the new and deleted pages are recorded as free, and live tuples are counted |
| `HstorePairs.MergeSorted` | WebChat/postgresql-14.2/contrib/hstore/hstore_op.c:519-561 | The merge of two sorted values is strictly ascending |
| `HstorePairs.MergeHas` | WebChat/postgresql-14.2/contrib/hstore/hstore_op.c:519-561 | Its pairs are those of the second value, and those of the first whose key the second does not have |
| `HstorePairs.MinusHas` | WebChat/postgresql-14.2/contrib/hstore/hstore_op.c:410-463 | A pair survives deletion exactly if the other value does not have the very same pair |
| `HstorePairs.WithoutHas` | WebChat/postgresql-14.2/contrib/hstore/hstore_op.c:328-363 | A pair survives deletion by keys exactly if its key is not named |
| `HstorePairs.SortedOnce` | WebChat/postgresql-14.2/contrib/hstore/hstore_op.c:1079-1083 | Strictly ascending values with the same pairs are the same |
| `HstorePairs.ContainsIff` | WebChat/postgresql-14.2/contrib/hstore/hstore_op.c:980-1007 | a contains b if and only if concatenating b to a gives a, and if and only if deleting a from b leaves nothing |
| `HstoreLayout.PutWord` | WebChat/postgresql-14.2/contrib/hstore/hstore.h:18-34 | Stores a 32-bit word little-endian and nothing else |
| `HstoreLayout.ReadPair` | WebChat/postgresql-14.2/contrib/hstore/hstore.h:27-34 | The position macros read back every key, value and null of a packed value |
| `HstoreBuild.MemCpy` | WebChat/postgresql-14.2/contrib/hstore/hstore.h:101-101 | Copies the bytes and touches nothing else |
| `HstoreBuild.CopyItem` | WebChat/postgresql-14.2/contrib/hstore/hstore.h:92-106 | One more pair of the value under construction: strings and two entries |
| `HstoreBuild.MemMoveDown` | WebChat/postgresql-14.2/contrib/hstore/hstore.h:137-137 | Moves bytes toward lower addresses over an overlapping range |
| `HstoreBuild.Finalize` | WebChat/postgresql-14.2/contrib/hstore/hstore.h:128-140 | Flags the first entry, closes the gap behind the entries, sets count and size: a complete packed value |
| `HstoreOps.ImageOnce` | WebChat/postgresql-14.2/contrib/hstore/hstore.h:72-83 | A packed value is that of one list of pairs only |
| `HstoreOps.FindKey` | WebChat/postgresql-14.2/contrib/hstore/hstore_op.c:35-70 | Finds the index of the key or -1, and leaves a lower bound valid for every larger key, so cached searches agree with fresh ones |
| `HstoreOps.OnlyIndex` | WebChat/postgresql-14.2/contrib/hstore/hstore_op.c:29-34 | A key has one index only, so any two searches for it agree |
| `HstoreOps.HstoreContains` | WebChat/postgresql-14.2/contrib/hstore/hstore_op.c:966-1010 | Decides containment by ascending searches with the cached bound |
| `HstoreOps.CopyWhole` | WebChat/postgresql-14.2/contrib/hstore/hstore_op.c:494-510 | Copies a value unchanged into the larger buffer |
| `HstoreOps.MergeLoop` | WebChat/postgresql-14.2/contrib/hstore/hstore_op.c:524-561 | The loop builds the merge, never leaving the buffer |
| `HstoreOps.HstoreConcat` | WebChat/postgresql-14.2/contrib/hstore/hstore_op.c:473-566 | A well-formed value, the first overridden by the second, within VARSIZE(s1) + VARSIZE(s2) bytes |
| `HstoreDelete.MinusLoop` | WebChat/postgresql-14.2/contrib/hstore/hstore_op.c:416-463 | The loop builds exactly the pairs that survive |
| `HstoreDelete.HstoreDeleteHstore` | WebChat/postgresql-14.2/contrib/hstore/hstore_op.c:373-468 | A well-formed value of the surviving pairs, within VARSIZE(hs) bytes |
| `HstoreDelete.WithoutLoop` | WebChat/postgresql-14.2/contrib/hstore/hstore_op.c:333-363 | The loop builds exactly the pairs whose key is not named |
| `HstoreDelete.ArrayToPairs` | WebChat/postgresql-14.2/contrib/hstore/hstore_op.c:72-125 | The keys that are not null, in order and once each, or an error for too many elements |
| `HstoreDelete.WithoutUnnamed` | WebChat/postgresql-14.2/contrib/hstore/hstore_op.c:328-363 | The merge with the sorted keys leaves exactly the pairs the array does not name, in order |
| `HstoreDelete.HstoreDeleteArray` | WebChat/postgresql-14.2/contrib/hstore/hstore_op.c:294-368 | A well-formed value of the pairs whose key is not in the array, within VARSIZE(hs) bytes; or an error for too many elements |
| `HstoreCompare.CompareEntries` | WebChat/postgresql-14.2/contrib/hstore/hstore_op.c:1130-1147 | The first differing entry decides, by end position, then by null |
| `HstoreCompare.HstoreCmp` | WebChat/postgresql-14.2/contrib/hstore/hstore_op.c:1087-1163 | Computes the order on packed values: strings, counts, entries, empty values first |
| `HstoreCompare.CmpZeroIff` | WebChat/postgresql-14.2/contrib/hstore/hstore_op.c:1079-1083 | Zero exactly for equal values |
| `HstoreCompare.CmpAntisymmetric` | WebChat/postgresql-14.2/contrib/hstore/hstore_op.c:1087-1163 | Exchanging the operands flips the sign |
| `HstoreCompare.CmpTransitive` | WebChat/postgresql-14.2/contrib/hstore/hstore_op.c:1087-1163 | The order is transitive, strictly where one step is strict |
| `HstoreText.ReadQuoted` | WebChat/postgresql-14.2/contrib/hstore/hstore_io.c:130-168 | A quoted word is read back, quotes and backslashes in it included |
| `HstoreText.ReadValue` | WebChat/postgresql-14.2/contrib/hstore/hstore_io.c:246-263 | A null is read back as a null, the quoted string null as a string |
| `HstoreText.ReadsWhatIsPrinted` | WebChat/postgresql-14.2/contrib/hstore/hstore_io.c:183-286 | Parsing the printed text records exactly the printed pairs, in order |
| `HstoreGrammar.ReadSpelled` | WebChat/postgresql-14.2/contrib/hstore/hstore_io.c:68-174 | A word is read as its content, quoted or bare, with any spaces before it and any character behind a backslash |
| `HstoreGrammar.ReadSpelling` | WebChat/postgresql-14.2/contrib/hstore/hstore_io.c:183-286 | Every spelling of a list of pairs records these pairs in order, or one of its words is too long |
| `HstoreGrammar.NullWords` | WebChat/postgresql-14.2/contrib/hstore/hstore_io.c:253-258 | The bare word null in any letter case |
| `HstoreGrammar.ParsesExactly` | WebChat/postgresql-14.2/contrib/hstore/hstore_io.c:183-286 | A text is read if and only if it is a spelling of pairs whose words are not too long, and as these pairs |
| `HstoreGrammar.PrintIsSpelling` | WebChat/postgresql-14.2/contrib/hstore/hstore_io.c:1167-1233 | What is printed: all words quoted, quotes and backslashes escaped, nulls bare, one space behind each comma |
| `HstoreParser.HSParser.GetValue` | WebChat/postgresql-14.2/contrib/hstore/hstore_io.c:59-174 | get_val with its moving pointer and growing word buffer, which is never overrun |
| `HstoreParser.HSParser.ParseHstore` | WebChat/postgresql-14.2/contrib/hstore/hstore_io.c:183-286 | parse_hstore with its growing array of pairs |
| `HstoreIo.UniqueAscends` | WebChat/postgresql-14.2/contrib/hstore/hstore_io.c:334-363 | After hstoreUniquePairs the keys are strictly ascending |
| `HstoreIo.UniqueKeeps` | WebChat/postgresql-14.2/contrib/hstore/hstore_io.c:301-308 | Every key survives, and a pair not to be freed is not given up for one that is |
| `HstoreIo.UniqueMembers` | WebChat/postgresql-14.2/contrib/hstore/hstore_io.c:334-363 | The survivors are pairs of the array |
| `HstoreIo.UniqueInPlace` | WebChat/postgresql-14.2/contrib/hstore/hstore_io.c:338-363 | The in-place loop keeps the first of each run of equal keys, and the buffer length it adds up is that of the strings |
| `HstoreIo.UniquePairs` | WebChat/postgresql-14.2/contrib/hstore/hstore_io.c:318-364 | The same for any sort of the pairs, arrays of fewer than two included |
| `HstoreIo.AddItem` | WebChat/postgresql-14.2/contrib/hstore/hstore.h:108-126 | One more pair, a null taking no string space |
| `HstoreIo.BuildFromPairs` | WebChat/postgresql-14.2/contrib/hstore/hstore_io.c:387-414 | Packs the pairs in order into a buffer of exactly the computed size |
| `HstoreIo.HstoreIn` | WebChat/postgresql-14.2/contrib/hstore/hstore_io.c:417-440 | A well-formed value of the parsed pairs without duplicate keys, or the matching error |
| `HstoreOut.Cpw` | WebChat/postgresql-14.2/contrib/hstore/hstore_io.c:1151-1163 | Writes the escaped string |
| `HstoreOut.WrittenFits` | WebChat/postgresql-14.2/contrib/hstore/hstore_io.c:1181-1199 | What is written, terminator included, never exceeds the length computed before |
| `HstoreOut.HstoreOut` | WebChat/postgresql-14.2/contrib/hstore/hstore_io.c:1167-1233 | Prints the value within that buffer |
| `HstoreOut.TextRoundTrip` | WebChat/postgresql-14.2/contrib/hstore/hstore_io.c:183-364 | Reading the printed text of a NUL-free value gives back its pairs, whatever sort is used |
| `HstoreOut.OutThenIn` | WebChat/postgresql-14.2/contrib/hstore/hstore_io.c:417-440 | hstore_in after hstore_out: a well-formed value of the same pairs |
| `HstoreCompat.ValidOldFormat` | WebChat/postgresql-14.2/contrib/hstore/hstore_compat.c:170-229 | Accepts exactly the values with ordered key lengths and contiguous strings within the size, with 2 if they fill it |
| `HstoreCompat.ValidNewFormat` | WebChat/postgresql-14.2/contrib/hstore/hstore_compat.c:118-162 | Accepts exactly the values with one first flag, nondecreasing ends and key lengths, and no null key behind the first, with 2 if they fill the size |
| `HstoreCompat.ConvertOne` | WebChat/postgresql-14.2/contrib/hstore/hstore_compat.c:325-338 | Overwrites one old entry by the two new ones in its place |
| `HstoreCompat.Convert` | WebChat/postgresql-14.2/contrib/hstore/hstore_compat.c:319-344 | In place, an old value becomes a new one with the same keys, values and nulls in the same order |
| `HstoreCompat.TakenIsPacked` | WebChat/postgresql-14.2/contrib/hstore/hstore_compat.c:250-256 | A new value without the version flag, the 8-byte empty value of either format included, is packed and keeps its pairs when passed on |
| `HstoreCompat.HstoreUpgrade` | WebChat/postgresql-14.2/contrib/hstore/hstore_compat.c:235-347 | Which of the four ways a value goes, and what becomes of it: converted with its pairs, passed on with flag and size set, or untouched |
| `HstoreCompat.UpgradeKeepsPairsIff` | WebChat/postgresql-14.2/contrib/hstore/hstore_compat.c:250-256 | A valid old value keeps its pairs if and only if it is not both shorter than 32768 bytes and of a first stored value length of 32768 or more |
| `HstoreCompat.ConvertedIff` | WebChat/postgresql-14.2/contrib/hstore/hstore_compat.c:250-256 | A valid old value takes the short cut if and only if it is shorter than 32768 bytes and its first stored value length is 32768 or more, which then belongs to a null |
| `HstoreCompat.ShortCutMisreads` | WebChat/postgresql-14.2/contrib/hstore/hstore_compat.c:250-256 | A concrete such value, whose null is read as the empty string afterwards |
| `IntQueryParse.RunsTerms` | WebChat/postgresql-14.2/contrib/intarray/_int_bool.c:152-223 | Running makepol over a query emits its postfix form, a new OR being emitted in place of the stacked one |
| `IntQueryParse.ParsesQuery` | WebChat/postgresql-14.2/contrib/intarray/_int_bool.c:152-223 | Every query is parsed to its postfix form or refused as too deep, never as a syntax error |
| `IntQueryAccept.LexAlternates` | WebChat/postgresql-14.2/contrib/intarray/_int_bool.c:47-130 | The token sequence alternates operands and operators and balances parentheses |
| `IntQueryLexing.StrtolIs` | WebChat/postgresql-14.2/contrib/intarray/_int_bool.c:91-99 | A numeral is octal behind a leading zero and decimal otherwise, ended by a digit its base does not have |
| `IntQueryLexing.LexWritten` | WebChat/postgresql-14.2/contrib/intarray/_int_bool.c:47-130 | Tokens written with any numerals and any number of blanks are found as they are |
| `IntQueryLexing.TokensExactly` | WebChat/postgresql-14.2/contrib/intarray/_int_bool.c:47-130 | A text has these tokens and no lexical error if and only if it is a way to write them |
| `IntQueryAccept.AcceptsExactly` | WebChat/postgresql-14.2/contrib/intarray/_int_bool.c:152-223 | makepol succeeds if and only if the text is a query of the grammar whose runs of "!" fit the stack |
| `IntQueryLexing.QueryTexts` | WebChat/postgresql-14.2/contrib/intarray/_int_bool.c:47-223 | The texts read as a query are exactly the ways to write its tokens |
| `IntQueryItems.PostOfQuery` | WebChat/postgresql-14.2/contrib/intarray/_int_bool.c:152-223 | The postfix form is that of the query as a tree, AND and OR associating to the left |
| `IntQueryItems.OneReading` | WebChat/postgresql-14.2/contrib/intarray/_int_bool.c:439-470 | A postfix list has one reading as a tree |
| `IntQueryItems.TreeMeansQuery` | WebChat/postgresql-14.2/contrib/intarray/_int_bool.c:265-294 | The tree means what the infix query means |
| `IntQueryInput.WorkState.GetNumber` | WebChat/postgresql-14.2/contrib/intarray/_int_bool.c:85-104 | Collects a number in a buffer of 16 characters without overrun |
| `IntQueryInput.WorkState.GetToken` | WebChat/postgresql-14.2/contrib/intarray/_int_bool.c:47-130 | gettoken: the token, the text behind it and the state left |
| `IntQueryInput.WorkState.PushQuery` | WebChat/postgresql-14.2/contrib/intarray/_int_bool.c:135-145 | One more node at the end of the list |
| `IntQueryInput.WorkState.MakePolish` | WebChat/postgresql-14.2/contrib/intarray/_int_bool.c:152-223 | makepol with its operator stack of depth 16: list, remaining tokens and errors |
| `IntQueryInput.CopyItems` | WebChat/postgresql-14.2/contrib/intarray/_int_bool.c:517-524 | The list becomes the item array in order |
| `IntQueryInput.BqarrIn` | WebChat/postgresql-14.2/contrib/intarray/_int_bool.c:476-542 | Stores exactly the queries of the grammar that fit, as the linked items of their tree; all other texts are refused |
| `IntQueryEval.FindOprnd` | WebChat/postgresql-14.2/contrib/intarray/_int_bool.c:439-470 | Links every operator to its left operand and ends one before the first item |
| `IntQueryEval.LinksTrueIff` | WebChat/postgresql-14.2/contrib/intarray/_int.h:139-145 | The 16-bit links are the true distances if and only if every right operand has at most 32767 items |
| `IntQueryEval.ExecuteMeans` | WebChat/postgresql-14.2/contrib/intarray/_int_bool.c:265-294 | With links that fit, evaluation is the meaning of the tree, wherever its items stand |
| `IntQueryEval.StoredQueryMeans` | WebChat/postgresql-14.2/contrib/intarray/_int_bool.c:265-294 | A query of up to 32769 items evaluates to the infix meaning of its text |
| `IntQueryEval.LossyNeverMisses` | WebChat/postgresql-14.2/contrib/intarray/_int_bool.c:299-305 | Evaluation without negation over a superset of the values never misses a match |
| `IntQueryEval.LossyMeans` | WebChat/postgresql-14.2/contrib/intarray/_int_bool.c:272-278 | Without calcnot, evaluation takes every negated part as true and means the query otherwise |
| `IntQueryLimits.LongRightOperandMisread` | WebChat/postgresql-14.2/contrib/intarray/_int_bool.c:461-468 | A text bqarr_in accepts and links wrongly, its right operand having 65536 items: the stored query evaluates differently from what the text means |
| `IntQueryPrint.Infix.Write` | WebChat/postgresql-14.2/contrib/intarray/_int_bool.c:563-637 | infix appends the printed operand to a buffer that grows before every write |
| `IntQueryPrint.BqarrOut` | WebChat/postgresql-14.2/contrib/intarray/_int_bool.c:641-659 | The printed query, or the error for an empty one |
| `IntQueryRoundTrip.DecimalReadsBack` | WebChat/postgresql-14.2/contrib/intarray/_int_bool.c:91-99 | What %d prints reads back through strtol with base 0 |
| `IntQueryRoundTrip.LexPrinted` | WebChat/postgresql-14.2/contrib/intarray/_int_bool.c:563-637 | The printed text has the tokens of one derivation |
| `IntQueryRoundTrip.DerivationFits` | WebChat/postgresql-14.2/contrib/intarray/_int_bool.c:176-188 | Which never exceeds the operator stack |
| `IntQueryRoundTrip.DerivationMeans` | WebChat/postgresql-14.2/contrib/intarray/_int_bool.c:563-637 | and means what the tree means |
| `IntQueryRoundTrip.PrintsAgain` | WebChat/postgresql-14.2/contrib/intarray/_int_bool.c:563-637 | and prints as the same text |
| `IntQueryRoundTrip.RoundTrip` | WebChat/postgresql-14.2/contrib/intarray/_int_bool.c:476-659 | Printing any query and reading it back is accepted and keeps meaning, size and text |
| `IntQueryRoundTrip.SameQueryIff` | WebChat/postgresql-14.2/contrib/intarray/_int_bool.c:563-637 | The query read back is the very same if and only if it has no AND as right operand of an AND |
| `IntQueryRoundTrip.RoundTripEvaluates` | WebChat/postgresql-14.2/contrib/intarray/_int_bool.c:265-294 | The query read back evaluates the same on every array, as long as the links of the first fit |
| `IntArrayOps.CheckConditionArr` | WebChat/postgresql-14.2/contrib/intarray/_int_bool.c:234-254 | The binary search decides membership |
| `IntArrayOps.ExecuteArr` | WebChat/postgresql-14.2/contrib/intarray/_int_bool.c:265-294 | execute over a sorted array |
| `IntArrayOps.BoolOp` | WebChat/postgresql-14.2/contrib/intarray/_int_bool.c:419-437 | On any array: the value of the stored items with operands decided by membership |
| `IntArrayOps.BoolOpMeans` | WebChat/postgresql-14.2/contrib/intarray/_int_bool.c:419-437 | Which is what the query means of the array, as long as the links fit |
| `IntArrayOps.InnerIntContains` | WebChat/postgresql-14.2/contrib/intarray/_int_tool.c:14-45 | The merge decides containment |
| `IntArrayOps.InnerIntOverlap` | WebChat/postgresql-14.2/contrib/intarray/_int_tool.c:49-75 | The merge decides overlap |
| `IntArrayOps.QUnique` | WebChat/postgresql-14.2/src/include/lib/qunique.h:45-65 | In place, one of each run of equal elements: strictly ascending, with the same elements |
| `IntArrayOps.PrepareArr` | WebChat/postgresql-14.2/contrib/intarray/_int.h:49-55 | Any array becomes strictly ascending with the same elements |
| `IntArrayOps.IntContains` | WebChat/postgresql-14.2/contrib/intarray/_int_op.c:27-43 | Containment of any two arrays as sets |
| `IntArrayOps.IntOverlap` | WebChat/postgresql-14.2/contrib/intarray/_int_op.c:98-119 | Any two arrays have an element in common |
| `IntArrayOps.IntSame` | WebChat/postgresql-14.2/contrib/intarray/_int_op.c:54-94 | Any two arrays are equal as multisets |
| `IntGin.QueryExtract` | WebChat/postgresql-14.2/contrib/intarray/_int_gin.c:13-105 | Keys and search mode, strategy by strategy |
| `IntGin.GinBoolConsistent` | WebChat/postgresql-14.2/contrib/intarray/_int_bool.c:336-361 | check[] is mapped to the operands in extraction order |
| `IntGin.Consistent` | WebChat/postgresql-14.2/contrib/intarray/_int_gin.c:110-180 | The verdict and the recheck flag, strategy by strategy |
| `IntGin.RecheckIff` | WebChat/postgresql-14.2/contrib/intarray/_int_gin.c:121-176 | The recheck flag of a strategy is set if and only if some query of it has a candidate row that does not match |
| `IntGin.RequiredOperandHolds` | WebChat/postgresql-14.2/contrib/intarray/_int_bool.c:364-396 | Stored items that require a value hold only where one of their operands does, whatever their links |
| `IntGin.RequiredIsPresent` | WebChat/postgresql-14.2/contrib/intarray/_int_bool.c:364-396 | A query that requires a value holds only where one of its values is present |
| `IntGin.RequiresIff` | WebChat/postgresql-14.2/contrib/intarray/_int_bool.c:364-396 | And whenever no negated part holds of an array without the values, a query that does not require one holds there |
| `IntGin.BooleanRows` | WebChat/postgresql-14.2/contrib/intarray/_int_bool.c:336-403 | For any stored boolean query, however long its operands, the rows kept are exactly those the operator matches |
| `IntGin.BooleanRowsMean` | WebChat/postgresql-14.2/contrib/intarray/_int_bool.c:336-403 | Which are those the query means, as long as the links fit |
| `IntGin.RowsAreRight` | WebChat/postgresql-14.2/contrib/intarray/_int_gin.c:22-177 | For every strategy a matching row is a candidate, a candidate without the recheck flag matches, and the rows returned are exactly the matching ones |

## Left out

General

- Buffer manager, WAL, memory contexts, TOAST, error texts, interrupts and stack depth checks. Locks appear only where a
  protocol depends on them. Allocation fails only by the size limits that are modelled.

amcheck

- Everything outside readonly mode, the comparison against the heap, `bt_rootdescend`, and indexes before version 4.
- AmcheckExact.PassesIffSound: is about indexes without a downlink to P_NONE and, on the root level, without pages of another level; the verifier does not look at either.
- AmcheckChecker.BtreeCheckState.CheckEveryLevel: it and the other methods take a step budget and report separately when it runs out, because walks over corrupt child chains need not end; `AmcheckTheorems.LeafWalkEnds` says where they do.
- Tuple sizes and line pointer lengths. Attributes are integers under the operator class order, nulls being one of them; included columns are not modelled.
- Lower bounds of subtrees: negative-infinity items are not compared by the code.

btree_gist

- The penalty functions, which are floating point, the text and bit instances, and the types of fixed size.
- GistInsert.InsertKeepsSound: supposes that splits of internal pages spare the open upper bounds; `GistTree.InternalSplitLosesRow` is one that does not, and `GistCover.SplitHalfExact` says that this is all it takes.
- GistInsert.InsertAdds: one insertion at a time, without the locking and restarts of the source; downlinks are widened and split parts put in on the way back up, all parts of a page at once, and the choice of the path is left open.
- GistVarKeys.PickSplit: qsort is any sorted arrangement.

bloom

- Hash functions and operator class equality: a column value is represented by its hash, so equal values hash equally.
- BloomSignature.SignValue: requires a usable seed; see the two exceptions above.
- BloomIndex.Index.Insert: it and its neighbours run one operation without interference; interleavings are those of `BloomProtocol`, where one step is what happens under one page lock.
- Snapshot checks, cost estimates, option parsing and the initialisation fork.

hstore

- Text is bytes; isspace is that of the C locale. Character lengths in error messages are not computed.
- HstoreIo.UniquePairs: it and `HstoreDelete.HstoreDeleteArray` take qsort as any function that sorts; which of several equal pairs survives is left open by the code too.
- HstoreCompat.HstoreUpgrade: supposes of a value with a count that the memory holds the entries it promises, which the code reads before it checks sizes; the build is that of contrib/hstore, so ambiguous values are old. Sums of lengths are unbounded integers.
- HstoreParser.HSParser.GetValue: it and `IntQueryPrint.Infix.Write` keep their reallocated buffers as sequences of the buffer's length, so aliasing of the old buffer is not captured.
- HstoreBuild.MemMoveDown: moves in one direction only, the one used.
- Slices, conversions to arrays, records and JSON, subscripting, GIN and GiST support, binary input and output.

intarray

- strtol is modelled for an optional sign and digits, a leading zero meaning octal; digits beyond the base end the number.
- IntQueryEval.LossyNeverMisses: stands for the GiST signatures, whose hashing is not modelled.
- The GIN core is represented by which rows a search mode visits: rows with a key, those and empty rows, or all rows.
- IntArrayOps.PrepareArr: isort is any function that sorts; that it reports duplicates when there are some is taken from its comment. Arrays with nulls are refused before.
- Array union, intersection, subarrays and the GiST operator classes.
