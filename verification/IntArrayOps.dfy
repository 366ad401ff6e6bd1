/** The array operators: merges and binary search over sorted elements, against sets and multisets. */
module IntArrayOps {
  import opened IntQueryText
  import opened IntQueryItems
  import opened IntQueryEval

  predicate Sorted(a: seq<int32>) {
    forall i, j :: 0 <= i < j < |a| ==> a[i] <= a[j]
  }

  predicate SortedUnique(a: seq<int32>) {
    forall i, j :: 0 <= i < j < |a| ==> a[i] < a[j]
  }

  predicate Overlap(a: seq<int32>, b: seq<int32>) { exists v :: v in a && v in b }
  predicate Contains(a: seq<int32>, b: seq<int32>) { forall v :: v in b ==> v in a }
  predicate Same(a: seq<int32>, b: seq<int32>) { multiset(a) == multiset(b) }

  /** checkcondition_arr. */
  method CheckConditionArr(arr: seq<int32>, val: int32) returns (r: bool)
    requires Sorted(arr)
    ensures r == (val in arr)
  {
    var stopLow, stopHigh := 0, |arr|;
    while stopLow < stopHigh
      invariant 0 <= stopLow <= stopHigh <= |arr|
      invariant forall i :: 0 <= i < |arr| && arr[i] == val ==> stopLow <= i < stopHigh
    {
      var stopMiddle := stopLow + (stopHigh - stopLow) / 2;
      if arr[stopMiddle] == val {
        return true;
      } else if arr[stopMiddle] < val {
        stopLow := stopMiddle + 1;
      } else {
        stopHigh := stopMiddle;
      }
    }
    return false;
  }

  /** inner_int_contains. */
  method InnerIntContains(a: seq<int32>, b: seq<int32>) returns (r: bool)
    requires SortedUnique(a) && SortedUnique(b)
    ensures r == Contains(a, b)
  {
    var i, j, n := 0, 0, 0;
    while i < |a| && j < |b|
      invariant 0 <= i <= |a| && 0 <= j <= |b| && n == j
      invariant forall k :: 0 <= k < j ==> b[k] in a[..i]
      invariant forall k, m :: 0 <= k < i && j <= m < |b| ==> a[k] < b[m]
    {
      if a[i] < b[j] {
        i := i + 1;
      } else if a[i] == b[j] {
        assert a[..i + 1][i] == b[j];
        n := n + 1;
        i := i + 1;
        j := j + 1;
      } else {
        assert b[j] !in a;
        break;
      }
    }
    if j < |b| && i == |a| {
      assert b[j] !in a;
    }
    r := n == |b|;
    assert j < |b| ==> b[j] in b;
  }

  /** inner_int_overlap. */
  method InnerIntOverlap(a: seq<int32>, b: seq<int32>) returns (r: bool)
    requires Sorted(a) && Sorted(b)
    ensures r == Overlap(a, b)
  {
    var i, j := 0, 0;
    while i < |a| && j < |b|
      invariant 0 <= i <= |a| && 0 <= j <= |b|
      invariant forall k, m :: 0 <= k < |a| && 0 <= m < |b| && a[k] == b[m] ==> k >= i && m >= j
    {
      if a[i] < b[j] {
        i := i + 1;
      } else if a[i] == b[j] {
        assert a[i] in a && a[i] in b;
        return true;
      } else {
        j := j + 1;
      }
    }
    assert forall k, m :: 0 <= k < |a| && 0 <= m < |b| ==> a[k] != b[m];
    return false;
  }

  lemma LeastFirst(a: seq<int32>, v: int32)
    requires Sorted(a) && v in multiset(a)
    ensures a != [] && a[0] <= v
  {
    var i :| 0 <= i < |a| && a[i] == v;
  }

  lemma BehindFirst(a: seq<int32>)
    requires a != []
    ensures multiset(a[1..]) == multiset(a) - multiset{a[0]}
  {
    assert a == [a[0]] + a[1..];
  }

  lemma HeadAndTail(a: seq<int32>, b: seq<int32>)
    requires a != [] && b != [] && a[0] == b[0] && a[1..] == b[1..]
    ensures a == b
  {
    assert a == [a[0]] + a[1..] && b == [b[0]] + b[1..];
  }

  /** Sorted arrays with the same elements are the same array. */
  lemma {:induction false} SortedOnce(a: seq<int32>, b: seq<int32>)
    requires Sorted(a) && Sorted(b) && multiset(a) == multiset(b)
    ensures a == b
  {
    if a == [] {
      assert |multiset(b)| == 0;
    } else {
      LeastFirst(b, a[0]);
      LeastFirst(a, b[0]);
      BehindFirst(a);
      BehindFirst(b);
      SortedOnce(a[1..], b[1..]);
      HeadAndTail(a, b);
    }
  }

  // ---- Sorting ----

  /** What isort may make of an array: its elements in order. */
  ghost predicate IsSortOf(a: seq<int32>, b: seq<int32>) {
    Sorted(b) && multiset(a) == multiset(b)
  }

  /** What isort reports, having compared any equal elements with each other. */
  predicate HasDuplicates(a: seq<int32>) {
    exists i :: 1 <= i < |a| && a[i - 1] == a[i]
  }

  lemma SortKeeps(a: seq<int32>, b: seq<int32>)
    requires multiset(a) == multiset(b)
    ensures |a| == |b| && forall v :: v in a <==> v in b
  {
    assert |multiset(a)| == |multiset(b)|;
    forall v ensures v in a <==> v in b {
      assert v in multiset(a) <==> v in multiset(b);
    }
  }

  lemma ShortIsSorted(a: seq<int32>)
    requires |a| <= 1
    ensures SortedUnique(a)
  {
  }

  /** SORT. */
  method Sort(x: seq<int32>, isort: seq<int32> -> seq<int32>) returns (r: seq<int32>)
    requires forall a :: IsSortOf(a, isort(a))
    ensures IsSortOf(x, r)
  {
    r := if |x| > 1 then isort(x) else x;
  }

  lemma StrictlySorted(a: seq<int32>)
    requires Sorted(a) && !HasDuplicates(a)
    ensures SortedUnique(a)
  {
    forall i, j | 0 <= i < j < |a| ensures a[i] < a[j] {
      assert a[i] <= a[j - 1] <= a[j];
      assert a[j - 1] != a[j];
    }
  }

  /** qunique_arg, in place: one of each run of equal elements. */
  method QUnique(a: array<int32>) returns (n: nat)
    requires Sorted(a[..])
    modifies a
    ensures n <= a.Length && SortedUnique(a[..n])
    ensures forall v :: v in a[..n] <==> v in old(a[..])
  {
    ghost var s := a[..];
    if a.Length <= 1 {
      return a.Length;
    }
    var i, j := 1, 0;
    while i < a.Length
      invariant 0 <= j < i <= a.Length
      invariant SortedUnique(a[..j + 1]) && a[j] == s[i - 1]
      invariant forall k :: i <= k < a.Length ==> a[k] == s[k]
      invariant forall v :: v in a[..j + 1] <==> v in s[..i]
    {
      assert s[..i + 1] == s[..i] + [s[i]];
      if a[i] != a[j] {
        ghost var before := a[..j + 1];
        j := j + 1;
        if j != i {
          a[j] := a[i];
        }
        assert a[..j + 1] == before + [s[i]];
      }
      i := i + 1;
    }
    assert s[..i] == s;
    n := j + 1;
  }

  /** PREPAREARR: sorted, and without duplicates if the sort reported any. */
  method PrepareArr(x: seq<int32>, isort: seq<int32> -> seq<int32>) returns (r: seq<int32>)
    requires forall a :: IsSortOf(a, isort(a))
    ensures SortedUnique(r) && forall v :: v in r <==> v in x
  {
    if |x| <= 1 {
      ShortIsSorted(x);
      return x;
    }
    var s := isort(x);
    assert IsSortOf(x, s);
    SortKeeps(x, s);
    if !HasDuplicates(s) {
      StrictlySorted(s);
      return s;
    }
    var a := new int32[|s|](i requires 0 <= i < |s| => s[i]);
    assert a[..] == s;
    var n := QUnique(a);
    r := a[..n];
  }

  // ---- The operators ----

  /** _int_contains. */
  method IntContains(a: seq<int32>, b: seq<int32>, isort: seq<int32> -> seq<int32>) returns (res: bool)
    requires forall x :: IsSortOf(x, isort(x))
    ensures res == Contains(a, b)
  {
    var sa := PrepareArr(a, isort);
    var sb := PrepareArr(b, isort);
    res := InnerIntContains(sa, sb);
  }

  /** _int_overlap. */
  method IntOverlap(a: seq<int32>, b: seq<int32>, isort: seq<int32> -> seq<int32>) returns (result: bool)
    requires forall x :: IsSortOf(x, isort(x))
    ensures result == Overlap(a, b)
  {
    if |a| == 0 || |b| == 0 {
      return false;
    }
    var sa := Sort(a, isort);
    var sb := Sort(b, isort);
    SortKeeps(a, sa);
    SortKeeps(b, sb);
    result := InnerIntOverlap(sa, sb);
  }

  /** _int_same. */
  method IntSame(a: seq<int32>, b: seq<int32>, isort: seq<int32> -> seq<int32>) returns (result: bool)
    requires forall x :: IsSortOf(x, isort(x))
    ensures result == Same(a, b)
  {
    if |a| != |b| {
      assert |multiset(a)| != |multiset(b)|;
      return false;
    }
    var da := Sort(a, isort);
    var db := Sort(b, isort);
    SortKeeps(a, da);
    SortKeeps(b, db);
    if multiset(da) == multiset(db) {
      SortedOnce(da, db);
    }
    var n := 0;
    while n < |a|
      invariant 0 <= n <= |a| && da[..n] == db[..n]
    {
      if da[n] != db[n] {
        return false;
      }
      n := n + 1;
    }
    assert da == da[..n] && db == db[..n];
    return true;
  }

  /** execute with checkcondition_arr deciding the operands. */
  method ExecuteArr(items: seq<Item>, i: nat, arr: seq<int32>, calcnot: bool) returns (r: bool)
    requires LinksDown(items) && i < |items| && Sorted(arr)
    ensures r == Execute(items, i, ByValue(items, v => v in arr), calcnot)
    decreases i
  {
    var cur := items[i];
    hide Sorted;
    if !cur.opr {
      r := CheckConditionArr(arr, cur.val);
    } else if cur.val == Code('!') {
      if !calcnot {
        return true;
      }
      r := ExecuteArr(items, i - 1, arr, calcnot);
      r := !r;
    } else if cur.val == Code('&') {
      r := ExecuteArr(items, i + cur.left, arr, calcnot);
      if r {
        r := ExecuteArr(items, i - 1, arr, calcnot);
      }
    } else {
      r := ExecuteArr(items, i + cur.left, arr, calcnot);
      if !r {
        r := ExecuteArr(items, i - 1, arr, calcnot);
      }
    }
  }

  /** boolop: the value of the stored items, the operands decided by membership. */
  method BoolOp(items: seq<Item>, val: seq<int32>, isort: seq<int32> -> seq<int32>) returns (result: bool)
    requires LinksDown(items) && items != [] && forall a :: IsSortOf(a, isort(a))
    ensures result == Execute(items, |items| - 1, ByValue(items, v => v in val), true)
  {
    var arr := PrepareArr(val, isort);
    UniqueIsSorted(arr);
    SameOperands(items, |items| - 1, ByValue(items, v => v in arr), ByValue(items, v => v in val));
    result := ExecuteArr(items, |items| - 1, arr, true);
  }

  lemma UniqueIsSorted(a: seq<int32>)
    requires SortedUnique(a)
    ensures Sorted(a)
  {
  }

  /** That is what the query means, on every array, as long as its links fit. */
  lemma BoolOpMeans(t: Tree, val: seq<int32>)
    requires RightsFit(t)
    ensures LinksDown(Linked(t))
    ensures Execute(Linked(t), |Linked(t)| - 1, ByValue(Linked(t), v => v in val), true) == TreeHolds(t, v => v in val)
  {
    LinkedGoesDown(t);
    EvaluateMeans(t, v => v in val);
  }
}
