/** The byte order of memcmp extended to strings of different lengths: the first difference decides,
    and a proper prefix comes first. bytea values, hstore keys and (with missing attributes read as
    minus infinity) B-tree pivot keys are all ordered this way. */
module Lex {

  type byte = x: int | 0 <= x < 256

  /** The number of leading elements on which a and b agree. */
  function CommonPrefix(a: seq<int>, b: seq<int>): (k: nat)
    ensures k <= |a| && k <= |b|
    ensures forall i :: 0 <= i < k ==> a[i] == b[i]
    ensures k == |a| || k == |b| || a[k] != b[k]
  {
    if a == [] || b == [] || a[0] != b[0] then 0 else 1 + CommonPrefix(a[1..], b[1..])
  }

  predicate Less(a: seq<int>, b: seq<int>) {
    var k := CommonPrefix(a, b);
    k < |b| && (k == |a| || a[k] < b[k])
  }

  predicate Leq(a: seq<int>, b: seq<int>) {
    a == b || Less(a, b)
  }

  /** The sign convention of memcmp-based comparators. */
  function Compare(a: seq<int>, b: seq<int>): (c: int)
    ensures c < 0 <==> Less(a, b)
    ensures c == 0 <==> a == b
    ensures c > 0 <==> Less(b, a)
  {
    Trichotomy(a, b);
    if a == b then 0 else if Less(a, b) then -1 else 1
  }

  /** Agreement on k elements followed by a difference (or an end) pins the common prefix down. */
  lemma {:induction false} PrefixIs(a: seq<int>, b: seq<int>, k: nat)
    requires k <= |a| && k <= |b|
    requires forall i :: 0 <= i < k ==> a[i] == b[i]
    requires k == |a| || k == |b| || a[k] != b[k]
    ensures CommonPrefix(a, b) == k
  {
    if 0 < k {
      PrefixIs(a[1..], b[1..], k - 1);
    }
  }

  lemma PrefixCommutes(a: seq<int>, b: seq<int>)
    ensures CommonPrefix(a, b) == CommonPrefix(b, a)
  {
    PrefixIs(b, a, CommonPrefix(a, b));
  }

  /** Exactly one of a < b, a = b, b < a. */
  lemma Trichotomy(a: seq<int>, b: seq<int>)
    ensures !(Less(a, b) && Less(b, a))
    ensures !Less(a, a)
    ensures a != b ==> Less(a, b) || Less(b, a)
  {
    PrefixCommutes(a, b);
    PrefixIs(a, a, |a|);
    var k := CommonPrefix(a, b);
    if k == |a| && k == |b| {
      assert a == b;
    }
  }

  lemma Transitive(a: seq<int>, b: seq<int>, c: seq<int>)
    requires Less(a, b) && Less(b, c)
    ensures Less(a, c)
  {
    var j, k := CommonPrefix(a, b), CommonPrefix(b, c);
    PrefixIs(a, c, if j < k then j else k);
  }

  lemma LeqTransitive(a: seq<int>, b: seq<int>, c: seq<int>)
    requires Leq(a, b) && Leq(b, c)
    ensures Leq(a, c)
    ensures Less(a, b) || Less(b, c) ==> Less(a, c)
  {
    if Less(a, b) && Less(b, c) {
      Transitive(a, b, c);
    }
  }
}
