/** The GIN support functions: extracting keys and a search mode, deciding a row from which keys it has, and why rows
    are neither missed nor, without recheck, returned wrongly. */
module IntGin {
  import opened IntQueryText
  import opened IntQueryItems
  import opened IntQueryEval
  import opened IntArrayOps

  const RTOverlapStrategyNumber: nat := 3
  const RTSameStrategyNumber: nat := 6
  const RTContainsStrategyNumber: nat := 7
  const RTContainedByStrategyNumber: nat := 8
  const RTOldContainsStrategyNumber: nat := 13
  const RTOldContainedByStrategyNumber: nat := 14
  const BooleanSearchStrategy: nat := 20

  /** What GIN visits: rows with at least one of the keys; those and the empty rows; or all rows. */
  datatype SearchMode = DEFAULT | INCLUDE_EMPTY | ALL

  /** The query argument: an array, or the items of a boolean query. */
  datatype Query = ArrayQuery(elems: seq<int32>) | BoolQuery(items: seq<Item>)

  datatype Extracted = Keys(res: seq<int32>, mode: SearchMode) | UnknownStrategy

  datatype Verdict = Verdict(res: bool, recheck: bool) | UnknownStrategyVerdict

  // ---- Extraction ----

  /** The values of the VAL items before n, in order. */
  function Vals(items: seq<Item>, n: nat): seq<int32>
    requires n <= |items|
  {
    if n == 0 then []
    else if items[n - 1].opr then Vals(items, n - 1)
    else Vals(items, n - 1) + [items[n - 1].val]
  }

  /** contains_required_value. */
  predicate ContainsRequiredValue(items: seq<Item>, i: nat)
    requires LinksDown(items) && i < |items|
    decreases i
  {
    var cur := items[i];
    if !cur.opr then true
    else if IsBang(cur) then false
    else if IsAmp(cur) then ContainsRequiredValue(items, i + cur.left) || ContainsRequiredValue(items, i - 1)
    else ContainsRequiredValue(items, i + cur.left) && ContainsRequiredValue(items, i - 1)
  }

  /** query_has_required_values. */
  predicate QueryHasRequiredValues(items: seq<Item>)
    requires LinksDown(items)
  {
    items != [] && ContainsRequiredValue(items, |items| - 1)
  }

  predicate KnownArrayStrategy(strategy: nat) {
    || strategy == RTOverlapStrategyNumber || strategy == RTSameStrategyNumber
    || strategy == RTContainsStrategyNumber || strategy == RTOldContainsStrategyNumber
    || strategy == RTContainedByStrategyNumber || strategy == RTOldContainedByStrategyNumber
  }

  /** A query of the kind its strategy takes; a stored boolean query has items, and links that stay inside it. */
  predicate FitsStrategy(strategy: nat, query: Query) {
    if strategy == BooleanSearchStrategy then
      query.BoolQuery? && query.items != [] && LinksDown(query.items)
    else
      query.ArrayQuery?
  }

  /** ginint4_queryextract. */
  method QueryExtract(strategy: nat, query: Query) returns (r: Extracted)
    requires if strategy == BooleanSearchStrategy then query.BoolQuery? && LinksDown(query.items) else query.ArrayQuery?
    ensures r == Plan(strategy, query)
  {
    if strategy == BooleanSearchStrategy {
      var items := query.items;
      if |items| <= 0 {
        return Keys([], DEFAULT);
      }
      var mode := if QueryHasRequiredValues(items) then DEFAULT else ALL;
      var res := [];
      for i := 0 to |items|
        invariant res == Vals(items, i)
      {
        if !items[i].opr {
          res := res + [items[i].val];
        }
      }
      return Keys(res, mode);
    }
    var nentries := |query.elems|;
    var res := [];
    for i := 0 to nentries
      invariant res == query.elems[..i]
    {
      res := res + [query.elems[i]];
    }
    if strategy == RTOverlapStrategyNumber {
      return Keys(res, DEFAULT);
    } else if strategy == RTContainedByStrategyNumber || strategy == RTOldContainedByStrategyNumber {
      return Keys(res, INCLUDE_EMPTY);
    } else if strategy == RTSameStrategyNumber {
      return Keys(res, if nentries > 0 then DEFAULT else INCLUDE_EMPTY);
    } else if strategy == RTContainsStrategyNumber || strategy == RTOldContainsStrategyNumber {
      return Keys(res, if nentries > 0 then DEFAULT else ALL);
    } else {
      return UnknownStrategy;
    }
  }

  /** What extraction comes to, strategy by strategy. */
  function Plan(strategy: nat, query: Query): Extracted
    requires if strategy == BooleanSearchStrategy then query.BoolQuery? && LinksDown(query.items) else query.ArrayQuery?
  {
    if strategy == BooleanSearchStrategy then
      Keys(Vals(query.items, |query.items|),
           if query.items == [] || QueryHasRequiredValues(query.items) then DEFAULT else ALL)
    else if !KnownArrayStrategy(strategy) then UnknownStrategy
    else
      var none := query.elems == [];
      Keys(query.elems,
           if strategy == RTOverlapStrategyNumber then DEFAULT
           else if strategy == RTContainedByStrategyNumber || strategy == RTOldContainedByStrategyNumber
           then INCLUDE_EMPTY
           else if !none then DEFAULT
           else if strategy == RTSameStrategyNumber then INCLUDE_EMPTY
           else ALL)
  }

  // ---- Consistency ----

  /** The index among the VAL items. */
  function Rank(items: seq<Item>, i: nat): nat
    requires i <= |items|
  {
    |Vals(items, i)|
  }

  lemma {:induction false} RankInVals(items: seq<Item>, i: nat, n: nat)
    requires i < n <= |items| && !items[i].opr
    ensures Rank(items, i) < |Vals(items, n)| && Vals(items, n)[Rank(items, i)] == items[i].val
    decreases n
  {
    if i < n - 1 {
      RankInVals(items, i, n - 1);
    }
  }

  /** checkcondition_gin through mapped_check. */
  function MappedCheck(items: seq<Item>, check: seq<bool>): nat -> bool {
    i => 0 <= i < |items| && Rank(items, i) < |check| && check[Rank(items, i)]
  }

  lemma RankStep(items: seq<Item>, i: nat)
    requires i < |items|
    ensures Rank(items, i + 1) == if items[i].opr then Rank(items, i) else Rank(items, i) + 1
  {
  }

  lemma MappedIs(items: seq<Item>, check: seq<bool>, i: nat)
    requires i < |items| && !items[i].opr && |check| == |Vals(items, |items|)|
    ensures Rank(items, i) < |check| && MappedCheck(items, check)(i) == check[Rank(items, i)]
  {
    RankInVals(items, i, |items|);
    hide Vals;
  }

  /** The mapped_check array of gin_bool_consistent. */
  method MapCheck(items: seq<Item>, check: seq<bool>) returns (mapped: seq<bool>)
    requires |check| == |Vals(items, |items|)|
    ensures |mapped| == |items|
    ensures forall k :: 0 <= k < |items| && !items[k].opr ==> mapped[k] == MappedCheck(items, check)(k)
  {
    assert Rank(items, 0) == 0;
    hide MappedCheck, Vals, Rank;
    var gcv := new bool[|items|](_ => false);
    var j: nat := 0;
    for i := 0 to |items|
      invariant j == Rank(items, i)
      invariant forall k :: 0 <= k < i && !items[k].opr ==> gcv[k] == MappedCheck(items, check)(k)
    {
      RankStep(items, i);
      if !items[i].opr {
        MappedIs(items, check, i);
        gcv[i] := check[j];
        j := j + 1;
      }
    }
    mapped := gcv[..];
  }

  /** gin_bool_consistent. */
  method GinBoolConsistent(items: seq<Item>, check: seq<bool>) returns (r: bool)
    requires LinksDown(items) && |check| == |Vals(items, |items|)|
    ensures r == (items != [] && Execute(items, |items| - 1, MappedCheck(items, check), true))
  {
    hide LinksDown, Execute, MappedCheck, Vals;
    if |items| <= 0 {
      return false;
    }
    var m := MapCheck(items, check);
    var chk := (i: nat) => i < |m| && m[i];
    SameOperands(items, |items| - 1, chk, MappedCheck(items, check));
    r := Execute(items, |items| - 1, chk, true);
  }

  /** ginint4_consistent. */
  method Consistent(strategy: nat, query: Query, check: seq<bool>, nkeys: nat) returns (r: Verdict)
    requires strategy == BooleanSearchStrategy ==>
               query.BoolQuery? && LinksDown(query.items) && |check| == |Vals(query.items, |query.items|)|
    requires nkeys == |check|
    ensures r == Decision(strategy, query, check)
  {
    var res := false;
    if strategy == RTOverlapStrategyNumber {
      return Verdict(true, false);
    } else if strategy == RTContainedByStrategyNumber || strategy == RTOldContainedByStrategyNumber {
      return Verdict(true, true);
    } else if strategy == RTSameStrategyNumber || strategy == RTContainsStrategyNumber
      || strategy == RTOldContainsStrategyNumber {
      res := true;
      for i := 0 to nkeys
        invariant res && forall k :: 0 <= k < i ==> check[k]
      {
        if !check[i] {
          res := false;
          break;
        }
      }
      return Verdict(res, strategy == RTSameStrategyNumber);
    } else if strategy == BooleanSearchStrategy {
      res := GinBoolConsistent(query.items, check);
      return Verdict(res, false);
    } else {
      return UnknownStrategyVerdict;
    }
  }

  /** What it comes to. */
  function Decision(strategy: nat, query: Query, check: seq<bool>): Verdict
    requires strategy == BooleanSearchStrategy ==> query.BoolQuery? && LinksDown(query.items)
  {
    if strategy == RTOverlapStrategyNumber then Verdict(true, false)
    else if strategy == RTContainedByStrategyNumber || strategy == RTOldContainedByStrategyNumber
    then Verdict(true, true)
    else if strategy == BooleanSearchStrategy then
      Verdict(query.items != [] && Execute(query.items, |query.items| - 1, MappedCheck(query.items, check), true),
              false)
    else if KnownArrayStrategy(strategy) then
      Verdict(forall k :: 0 <= k < |check| ==> check[k], strategy == RTSameStrategyNumber)
    else UnknownStrategyVerdict
  }

  // ---- The rows that come back ----

  /** Which keys a row has. */
  function CheckOf(keys: seq<int32>, row: seq<int32>): seq<bool> {
    seq(|keys|, i requires 0 <= i < |keys| => keys[i] in row)
  }

  /** The rows a search mode visits. */
  predicate Visited(mode: SearchMode, keys: seq<int32>, row: seq<int32>) {
    match mode
    case DEFAULT => exists i :: 0 <= i < |keys| && keys[i] in row
    case INCLUDE_EMPTY => row == [] || exists i :: 0 <= i < |keys| && keys[i] in row
    case ALL => true
  }

  function Has(row: seq<int32>): int32 -> bool { v => v in row }

  /** The operator itself: for a boolean query, what boolop evaluates. */
  predicate Matches(strategy: nat, query: Query, row: seq<int32>)
    requires FitsStrategy(strategy, query)
  {
    if strategy == BooleanSearchStrategy then
      Execute(query.items, |query.items| - 1, ByValue(query.items, Has(row)), true)
    else if strategy == RTOverlapStrategyNumber then Overlap(row, query.elems)
    else if strategy == RTSameStrategyNumber then Same(row, query.elems)
    else if strategy == RTContainsStrategyNumber || strategy == RTOldContainsStrategyNumber
    then Contains(row, query.elems)
    else Contains(query.elems, row)
  }

  // Required values

  /** contains_required_value, on the tree. */
  predicate Requires(t: Tree) {
    match t
    case Leaf(_) => true
    case Neg(_) => false
    case Bin(amp, l, r) => if amp then Requires(l) || Requires(r) else Requires(l) && Requires(r)
  }

  lemma {:induction false} RequiresIs(t: Tree, items: seq<Item>, base: nat)
    requires RightsFit(t) && LinksDown(items) && Stretch(items, base, Linked(t))
    ensures base + Size(t) - 1 < |items| && ContainsRequiredValue(items, base + Size(t) - 1) == Requires(t)
  {
    hide RightsFit, Stretch, Linked, LinksDown;
    match t
    case Leaf(v) => LeafStretch(v, items, base);
    case Neg(x) => NegStretch(x, items, base);
    case Bin(amp, l, r) =>
      BinStretch(amp, l, r, items, base);
      RequiresIs(l, items, base);
      RequiresIs(r, items, base + Size(l));
  }

  /** The values of a tree's operands. */
  function Operands(t: Tree): set<int32> {
    match t
    case Leaf(v) => {v}
    case Neg(x) => Operands(x)
    case Bin(_, l, r) => Operands(l) + Operands(r)
  }

  /** A query that requires a value holds only where one of its values is present. */
  lemma {:induction false} RequiredIsPresent(t: Tree, present: int32 -> bool)
    requires Requires(t) && TreeHolds(t, present)
    ensures exists v :: v in Operands(t) && present(v)
  {
    match t
    case Leaf(v) => assert v in Operands(t);
    case Neg(_) =>
    case Bin(amp, l, r) =>
      if Requires(l) && TreeHolds(l, present) {
        RequiredIsPresent(l, present);
        var v :| v in Operands(l) && present(v);
        assert v in Operands(t);
      } else {
        RequiredIsPresent(r, present);
        var v :| v in Operands(r) && present(v);
        assert v in Operands(t);
      }
  }

  /** Every negated part fails on an array without any of the values. */
  predicate NegationsOpen(t: Tree) {
    match t
    case Leaf(_) => true
    case Neg(x) => !TreeHolds(x, _ => false)
    case Bin(_, l, r) => NegationsOpen(l) && NegationsOpen(r)
  }

  /** The test is as sharp as it can be: a query that does not require a value holds of an array with none of its
      values, unless a negated part holds there itself. */
  lemma {:induction false} RequiresIff(t: Tree)
    requires NegationsOpen(t)
    ensures Requires(t) <==> !TreeHolds(t, _ => false)
  {
    match t
    case Leaf(_) =>
    case Neg(_) =>
    case Bin(_, l, r) =>
      RequiresIff(l);
      RequiresIff(r);
  }

  /** On the stored items themselves: a query that requires a value and holds has an operand that holds. */
  lemma {:induction false} RequiredOperandHolds(items: seq<Item>, i: nat, chk: nat -> bool) returns (k: nat)
    requires LinksDown(items) && i < |items|
    requires ContainsRequiredValue(items, i) && Execute(items, i, chk, true)
    ensures k <= i && !items[k].opr && chk(k)
    decreases i
  {
    var cur := items[i];
    if !cur.opr {
      k := i;
    } else if ContainsRequiredValue(items, i - 1) && Execute(items, i - 1, chk, true) {
      k := RequiredOperandHolds(items, i - 1, chk);
    } else {
      k := RequiredOperandHolds(items, i + cur.left, chk);
    }
  }

  /** The check array, mapped back to the items, says of each operand whether the row has it. */
  lemma CheckIsMapped(items: seq<Item>, row: seq<int32>, i: nat)
    requires i < |items| && !items[i].opr
    ensures MappedCheck(items, CheckOf(Vals(items, |items|), row))(i) == ByValue(items, Has(row))(i)
  {
    RankInVals(items, i, |items|);
  }

  /** So the index decides what the operator decides. */
  lemma BooleanDecision(items: seq<Item>, row: seq<int32>)
    requires LinksDown(items) && items != []
    ensures Execute(items, |items| - 1, MappedCheck(items, CheckOf(Vals(items, |items|), row)), true)
            == Execute(items, |items| - 1, ByValue(items, Has(row)), true)
  {
    var chk := MappedCheck(items, CheckOf(Vals(items, |items|), row));
    hide Execute, MappedCheck, Vals, CheckOf, LinksDown, ByValue, Has;
    forall k | 0 <= k < |items| && !items[k].opr ensures chk(k) == ByValue(items, Has(row))(k) {
      CheckIsMapped(items, row, k);
    }
    SameOperands(items, |items| - 1, chk, ByValue(items, Has(row)));
  }

  /** And where it asks for required values, it visits every row that matches. */
  lemma BooleanVisited(items: seq<Item>, row: seq<int32>)
    requires LinksDown(items) && QueryHasRequiredValues(items)
    requires Execute(items, |items| - 1, ByValue(items, Has(row)), true)
    ensures Visited(DEFAULT, Vals(items, |items|), row)
  {
    var k := RequiredOperandHolds(items, |items| - 1, ByValue(items, Has(row)));
    RankInVals(items, k, |items|);
    hide Execute, LinksDown, ContainsRequiredValue, Vals;
  }

  predicate Supported(strategy: nat) { KnownArrayStrategy(strategy) || strategy == BooleanSearchStrategy }

  /** What the consistent function says of a row that is visited. */
  function VerdictOn(strategy: nat, query: Query, row: seq<int32>): Verdict
    requires FitsStrategy(strategy, query) && Supported(strategy)
  {
    Decision(strategy, query, CheckOf(Plan(strategy, query).res, row))
  }

  /** The index has the row as a candidate. */
  predicate Kept(strategy: nat, query: Query, row: seq<int32>)
    requires FitsStrategy(strategy, query) && Supported(strategy)
  {
    var plan := Plan(strategy, query);
    Visited(plan.mode, plan.res, row) && VerdictOn(strategy, query, row).res
  }

  /** The scan returns the row: a candidate is tested by the operator itself if the flag says so. */
  predicate Returned(strategy: nat, query: Query, row: seq<int32>)
    requires FitsStrategy(strategy, query) && Supported(strategy)
  {
    Kept(strategy, query, row) && (VerdictOn(strategy, query, row).recheck ==> Matches(strategy, query, row))
  }

  /** For a boolean query the rows kept are exactly those the operator accepts, whatever its links are. */
  lemma BooleanRows(items: seq<Item>, row: seq<int32>)
    requires LinksDown(items) && items != []
    ensures Kept(BooleanSearchStrategy, BoolQuery(items), row) <==>
            Matches(BooleanSearchStrategy, BoolQuery(items), row)
  {
    BooleanDecision(items, row);
    if QueryHasRequiredValues(items) && Matches(BooleanSearchStrategy, BoolQuery(items), row) {
      BooleanVisited(items, row);
    }
    hide Execute, LinksDown, QueryHasRequiredValues, Vals, MappedCheck;
  }

  /** With links that fit, these are the rows the query means. */
  lemma BooleanRowsMean(t: Tree, row: seq<int32>)
    requires RightsFit(t)
    ensures FitsStrategy(BooleanSearchStrategy, BoolQuery(Linked(t)))
    ensures Kept(BooleanSearchStrategy, BoolQuery(Linked(t)), row) == TreeHolds(t, Has(row))
  {
    LinkedGoesDown(t);
    hide Linked, RightsFit, LinksDown, TreeHolds, Kept, Plan, Execute;
    BooleanRows(Linked(t), row);
    EvaluateMeans(t, Has(row));
  }

  /** For every strategy the scan returns exactly the matching rows: a matching row is always a candidate, and a
      candidate returned without a recheck matches. */
  lemma RowsAreRight(strategy: nat, query: Query, row: seq<int32>)
    requires FitsStrategy(strategy, query) && Supported(strategy)
    ensures Matches(strategy, query, row) ==> Kept(strategy, query, row)
    ensures Kept(strategy, query, row) && !VerdictOn(strategy, query, row).recheck ==> Matches(strategy, query, row)
    ensures Returned(strategy, query, row) <==> Matches(strategy, query, row)
  {
    hide Kept, Matches, LinksDown, VerdictOn;
    if strategy == BooleanSearchStrategy {
      BooleanRows(query.items, row);
      assert query == BoolQuery(query.items);
    } else {
      ArrayRows(strategy, query.elems, row);
      assert query == ArrayQuery(query.elems);
    }
  }

  lemma ArrayRows(strategy: nat, elems: seq<int32>, row: seq<int32>)
    requires KnownArrayStrategy(strategy)
    ensures var query := ArrayQuery(elems);
            && (Matches(strategy, query, row) ==> Kept(strategy, query, row))
            && (Kept(strategy, query, row) && !VerdictOn(strategy, query, row).recheck ==>
                Matches(strategy, query, row))
  {
    var check := CheckOf(elems, row);
    assert forall i :: 0 <= i < |elems| ==> check[i] == (elems[i] in row);
    assert forall v :: v in elems ==> exists i :: 0 <= i < |elems| && elems[i] == v;
    assert row != [] ==> row[0] in row;
    assert elems != [] ==> elems[0] in elems;
    if strategy == RTSameStrategyNumber {
      if Same(row, elems) {
        SameMembers(row, elems);
      }
    } else if strategy == RTOverlapStrategyNumber {
      if Visited(DEFAULT, elems, row) {
        var i :| 0 <= i < |elems| && elems[i] in row;
        assert elems[i] in elems;
      }
    } else if strategy == RTContainedByStrategyNumber || strategy == RTOldContainedByStrategyNumber {
      assert Contains(elems, row) && row != [] ==> row[0] in elems;
    }
  }

  /** The flag is set where it is needed and nowhere else: a strategy has it exactly if some query has a candidate
      that does not match. */
  lemma RecheckIff(strategy: nat, query: Query, row: seq<int32>)
    requires FitsStrategy(strategy, query) && Supported(strategy)
    ensures VerdictOn(strategy, query, row).recheck <==>
            exists q, r :: FitsStrategy(strategy, q) && Kept(strategy, q, r) && !Matches(strategy, q, r)
  {
    if VerdictOn(strategy, query, row).recheck {
      CandidateThatFails(strategy);
    } else {
      forall q, r | FitsStrategy(strategy, q) && Kept(strategy, q, r) ensures Matches(strategy, q, r) {
        RowsAreRight(strategy, q, r);
      }
    }
  }

  lemma CandidateThatFails(strategy: nat)
    requires strategy == RTSameStrategyNumber || strategy == RTContainedByStrategyNumber
             || strategy == RTOldContainedByStrategyNumber
    ensures FitsStrategy(strategy, ArrayQuery([1])) && Supported(strategy)
    ensures Kept(strategy, ArrayQuery([1]), [1, 2]) && !Matches(strategy, ArrayQuery([1]), [1, 2])
  {
    var elems: seq<int32>, row: seq<int32> := [1], [1, 2];
    assert elems[0] in row && row[1] !in elems;
    assert multiset(row)[2] == 1 && multiset(elems)[2] == 0;
  }

  lemma SameMembers(a: seq<int32>, b: seq<int32>)
    requires Same(a, b)
    ensures |a| == |b| && forall v :: v in a <==> v in b
  {
    assert |multiset(a)| == |a| && |multiset(b)| == |b|;
    assert forall v :: (v in a <==> v in multiset(a)) && (v in b <==> v in multiset(b));
  }
}
