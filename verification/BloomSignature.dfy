/** Signatures of the bloom index: the Park-Miller generator in int32 arithmetic, the bits it sets, and why the
    signature of a row covers that of every scan whose keys equal the row's columns. */
module BloomSignature {

  // ---- C arithmetic ----

  /** Division and remainder that truncate toward zero. */
  function TDiv(a: int, b: int): int
    requires b > 0
  {
    if a >= 0 then a / b else -((-a) / b)
  }

  function TMod(a: int, b: int): int
    requires b > 0
  {
    a - b * TDiv(a, b)
  }

  predicate IsInt32(x: int) { -0x8000_0000 <= x < 0x8000_0000 }

  type uint32 = x: int | 0 <= x < 0x1_0000_0000

  /** Assigning a uint32 to an int32. */
  function ToInt32(x: uint32): int {
    if x < 0x8000_0000 then x else x - 0x1_0000_0000
  }

  const M: int := 0x7fff_ffff

  // ---- The generator ----

  /** What mySrand makes of a seed. */
  function Srand(seed: uint32): int {
    TMod(ToInt32(seed), 0x7fff_fffe) + 1
  }

  /** One step of the generator, from its state to the next. */
  function Rand(next: int): int {
    var x := 16807 * TMod(next, 127773) - 2836 * TDiv(next, 127773);
    if x < 0 then x + M else x
  }

  /** Behind a value between the two halves of a state: none of the products leaves int32. */
  lemma Halves(next: int)
    requires -M < next < M
    ensures var hi, lo := TDiv(next, 127773), TMod(next, 127773);
            && next == 127773 * hi + lo
            && -16807 <= hi <= 16807 && -127773 < lo < 127773
            && (hi == 16807 ==> lo < 2836) && (hi == -16807 ==> lo > -2836)
            && (next >= 0 ==> hi >= 0 && lo >= 0) && (next <= 0 ==> hi <= 0 && lo <= 0)
  {
  }

  /** 16807 and 2836 have no common factor, so the difference vanishes for no state in range but 0. */
  lemma NoZero(hi: int, lo: int)
    requires 16807 * lo == 2836 * hi
    requires -16807 <= hi <= 16807 && (hi == 16807 ==> lo < 2836) && (hi == -16807 ==> lo > -2836)
    ensures hi == 0 && lo == 0
  {
    var k := 5790 * lo - 977 * hi;
    assert lo == 2836 * k && hi == 16807 * k;
  }

  lemma ModIs(q: int, r: int)
    requires 0 <= r < M
    ensures (M * q + r) % M == r
  {
  }

  /** The step computes 16807 * next modulo 2^31 - 1, never reaching 0 from another state. */
  lemma RandIsParkMiller(next: int)
    requires next != 0 && -M < next < M
    ensures Rand(next) == 16807 * next % M
    ensures 1 <= Rand(next) < M
  {
    var hi, lo := TDiv(next, 127773), TMod(next, 127773);
    Halves(next);
    var x := 16807 * lo - 2836 * hi;
    assert 16807 * next == M * hi + x;
    if x == 0 {
      NoZero(hi, lo);
    }
    if x < 0 {
      assert 16807 * next == M * (hi - 1) + (x + M);
      ModIs(hi - 1, x + M);
    } else {
      ModIs(hi, x);
    }
  }

  predicate SeedFails(seed: uint32) { seed == 0xffff_ffff || seed == 0x8000_0001 }

  /** mySrand leaves a usable state for all but two seeds. */
  lemma SrandZeroIff(seed: uint32)
    ensures -M < Srand(seed) < M
    ensures Srand(seed) == 0 <==> SeedFails(seed)
  {
  }

  /** The static generator state and its two functions. */
  class Generator {
    var next: int

    constructor ()
      ensures next == 0
    {
      next := 0;
    }

    method MySrand(seed: uint32)
      modifies this
      ensures next == Srand(seed)
    {
      next := ToInt32(seed);
      assert IsInt32(next);
      next := TMod(next, 0x7fff_fffe) + 1;
    }

    /** No intermediate value leaves int32. */
    method MyRand() returns (r: int)
      requires -M < next < M
      modifies this
      ensures next == Rand(old(next)) && r == next - 1 && IsInt32(r)
      ensures old(next) != 0 ==> 1 <= next < M
    {
      Halves(next);
      if next != 0 {
        RandIsParkMiller(next);
      }
      var hi := TDiv(next, 127773);
      var lo := TMod(next, 127773);
      assert IsInt32(hi) && IsInt32(lo) && IsInt32(16807 * lo) && IsInt32(2836 * hi);
      var x := 16807 * lo - 2836 * hi;
      assert IsInt32(x);
      if x < 0 {
        x := x + 0x7fff_ffff;
        assert IsInt32(x);
      }
      next := x;
      return x - 1;
    }
  }

  // ---- The bits of a value ----

  const SIGNWORDBITS: nat := 16

  /** Bit numbers drawn from a state, for a signature of so many bits. */
  function Draws(next: int, k: nat, bits: nat): (r: seq<int>)
    requires bits > 0
    ensures |r| == k
    decreases k
  {
    if k == 0 then [] else [TMod(Rand(next) - 1, bits)] + Draws(Rand(next), k - 1, bits)
  }

  predicate InRange(draws: seq<int>, bits: nat) {
    forall i :: 0 <= i < |draws| ==> 0 <= draws[i] < bits
  }

  lemma TModOf(a: int, b: int)
    requires b > 1
    ensures a >= 0 ==> 0 <= TMod(a, b) < b
    ensures a == -1 ==> TMod(a, b) == -1
  {
    if a >= 0 {
      assert TMod(a, b) == a % b;
    } else if a == -1 {
      assert 1 / b == 0;
    }
  }

  /** Every bit drawn is inside the signature exactly for the seeds that leave a usable state. */
  lemma DrawsInRangeIff(seed: uint32, k: nat, bits: nat)
    requires k > 0 && bits > 1
    ensures InRange(Draws(Srand(seed), k, bits), bits) <==> !SeedFails(seed)
  {
    SrandZeroIff(seed);
    hide Srand;
    if SeedFails(seed) {
      StuckDraws(k, bits);
    } else {
      DrawsInRange(Srand(seed), k, bits);
    }
  }

  /** From the state 0 every number is -1. */
  lemma StuckDraws(k: nat, bits: nat)
    requires k > 0 && bits > 1
    ensures !InRange(Draws(0, k, bits), bits)
  {
    hide TMod, Rand;
    TModOf(-1, bits);
    RandOfZero();
    assert Draws(0, k, bits)[0] == TMod(Rand(0) - 1, bits);
  }

  lemma RandOfZero()
    ensures Rand(0) == 0
  {
  }

  lemma {:induction false} DrawsInRange(next: int, k: nat, bits: nat)
    requires next != 0 && -M < next < M && bits > 1
    ensures InRange(Draws(next, k, bits), bits)
    decreases k
  {
    if k > 0 {
      RandIsParkMiller(next);
      TModOf(Rand(next) - 1, bits);
      hide Rand, TMod;
      DrawsInRange(Rand(next), k - 1, bits);
    }
  }

  datatype Options = Options(bloomLength: nat, bitSize: seq<nat>)

  predicate ValidOptions(o: Options) {
    1 <= o.bloomLength <= 256
  }

  function Pow2(n: nat): nat { if n == 0 then 1 else 2 * Pow2(n - 1) }

  lemma Pow2Of32()
    ensures Pow2(32) == 0x1_0000_0000
  {
    assert Pow2(4) == 16;
    Eight(0);
    Eight(8);
    Eight(16);
    Eight(24);
  }

  lemma Eight(n: nat)
    ensures Pow2(n + 8) == 256 * Pow2(n)
  {
    assert Pow2(n + 2) == 4 * Pow2(n);
    assert Pow2(n + 4) == 4 * Pow2(n + 2);
    assert Pow2(n + 6) == 4 * Pow2(n + 4);
    assert Pow2(n + 8) == 4 * Pow2(n + 6);
  }

  function Odd(a: nat): bool { a % 2 == 1 }

  /** A number from its upper bits and its last one. */
  function Join(upper: nat, last: bool): nat { 2 * upper + if last then 1 else 0 }

  /** Exclusive or of the last n bits. */
  function Xor(a: nat, b: nat, n: nat): (r: nat)
    ensures r < Pow2(n)
  {
    if n == 0 then 0 else Join(Xor(a / 2, b / 2, n - 1), Odd(a) != Odd(b))
  }

  /** hashVal ^ myRand(), in 32 bits. */
  function Mix(hash: uint32, r: uint32): uint32 {
    Pow2Of32();
    Xor(hash, r, 32)
  }

  /** The seed for one value: its hash mixed with the first number of the column's generator. */
  function SeedOf(attno: uint32, hash: uint32): uint32 {
    Mix(hash, (Rand(Srand(attno)) - 1) % 0x1_0000_0000)
  }

  predicate Signable(o: Options, attno: nat, hash: uint32) {
    attno < |o.bitSize| && attno < 0x1_0000 && !SeedFails(SeedOf(attno, hash))
  }

  function BitsOf(o: Options, attno: nat, hash: uint32): (r: seq<int>)
    requires ValidOptions(o) && Signable(o, attno, hash)
    ensures InRange(r, SIGNWORDBITS * o.bloomLength)
  {
    SrandZeroIff(SeedOf(attno, hash));
    DrawsInRange(Srand(SeedOf(attno, hash)), o.bitSize[attno], SIGNWORDBITS * o.bloomLength);
    Draws(Srand(SeedOf(attno, hash)), o.bitSize[attno], SIGNWORDBITS * o.bloomLength)
  }

  type Words = seq<bv16>

  function Mask(n: nat): bv16 { (1 as bv16) << (n % SIGNWORDBITS) }

  function Or(a: bv16, b: bv16): bv16 { a | b }

  /** All bits of m are set in w. */
  predicate Within(m: bv16, w: bv16) { w & m == m }

  lemma OrKeeps(w: bv16, m: bv16, k: bv16)
    requires Within(k, w)
    ensures Within(k, Or(w, m))
  {
  }

  lemma OrSets(w: bv16, m: bv16)
    ensures Within(m, Or(w, m))
  {
  }

  lemma OrWithin(w: bv16, s: bv16, m: bv16)
    requires Within(s, w) && Within(m, w)
    ensures Within(Or(s, m), w)
  {
  }

  lemma NothingWithin(w: bv16)
    ensures Within(0, w)
  {
  }

  function SetWord(s: Words, i: nat, m: bv16): (r: Words)
    requires i < |s|
    ensures |r| == |s|
  {
    s[i := Or(s[i], m)]
  }

  function SetBit(s: Words, n: nat): (r: Words)
    requires n < SIGNWORDBITS * |s|
    ensures |r| == |s|
  {
    SetWord(s, n / SIGNWORDBITS, Mask(n))
  }

  function SetBits(s: Words, ns: seq<int>): (r: Words)
    requires InRange(ns, SIGNWORDBITS * |s|)
    ensures |r| == |s|
    decreases |ns|
  {
    if ns == [] then s else SetBits(SetBit(s, ns[0]), ns[1..])
  }

  /** The two seedings at the start of signValue. */
  method SeedValue(gen: Generator, hash: uint32, attno: nat)
    requires attno < 0x1_0000
    modifies gen
    ensures gen.next == Srand(SeedOf(attno, hash))
  {
    hide Srand, Rand, Mix;
    gen.MySrand(attno);
    SrandZeroIff(attno);
    SrandPositive(attno);
    var r := gen.MyRand();
    assert r % 0x1_0000_0000 == r;
    gen.MySrand(Mix(hash, r % 0x1_0000_0000));
  }

  lemma BitsAreDrawn(o: Options, attno: nat, hash: uint32)
    requires ValidOptions(o) && Signable(o, attno, hash)
    ensures var next := Srand(SeedOf(attno, hash));
            && -M < next < M && next != 0
            && BitsOf(o, attno, hash) == Draws(next, o.bitSize[attno], o.bloomLength * SIGNWORDBITS)
  {
    SrandZeroIff(SeedOf(attno, hash));
    hide Srand, SeedOf, Draws;
  }

  /** signValue. */
  method SignValue(gen: Generator, o: Options, sign: array<bv16>, hash: uint32, attno: nat)
    requires ValidOptions(o) && Signable(o, attno, hash) && sign.Length == o.bloomLength
    modifies gen, sign
    ensures sign[..] == SetBits(old(sign[..]), BitsOf(o, attno, hash))
  {
    hide Srand, SeedOf, Rand, TMod, SetBit, BitsOf;
    SeedValue(gen, hash, attno);
    var bits := o.bloomLength * SIGNWORDBITS;
    ghost var all := BitsOf(o, attno, hash);
    ghost var result := SetBits(sign[..], all);
    BitsAreDrawn(o, attno, hash);
    assert all[0..] == all;
    var j := 0;
    while j < o.bitSize[attno]
      invariant 0 <= j <= o.bitSize[attno] == |all|
      invariant -M < gen.next < M && gen.next != 0
      invariant Draws(gen.next, o.bitSize[attno] - j, bits) == all[j..]
      invariant InRange(all[j..], SIGNWORDBITS * sign.Length) && result == SetBits(sign[..], all[j..])
    {
      var nBit := gen.MyRand();
      nBit := TMod(nBit, bits);
      NextDraw(all, j);
      StoreBit(sign, nBit);
      j := j + 1;
    }
    assert all[j..] == [];
  }

  lemma NextDraw(all: seq<int>, j: nat)
    requires j < |all|
    ensures all[j..][0] == all[j] && all[j..][1..] == all[j + 1..]
  {
  }

  /** SETBIT. */
  method StoreBit(sign: array<bv16>, n: nat)
    requires n < SIGNWORDBITS * sign.Length
    modifies sign
    ensures sign[..] == SetBit(old(sign[..]), n)
  {
    sign[n / SIGNWORDBITS] := sign[n / SIGNWORDBITS] | Mask(n);
  }

  lemma SrandPositive(attno: nat)
    requires attno < 0x1_0000
    ensures Srand(attno) == attno + 1
  {
  }

  // ---- Signatures of rows and scans ----

  datatype Column = Null | Value(hash: uint32)

  datatype Key = Key(attno: nat, arg: Column)

  predicate SignableRow(o: Options, columns: seq<Column>) {
    forall i :: 0 <= i < |columns| && columns[i].Value? ==> Signable(o, i, columns[i].hash)
  }

  predicate SignableKeys(o: Options, keys: seq<Key>) {
    forall i :: 0 <= i < |keys| && keys[i].arg.Value? ==> Signable(o, keys[i].attno, keys[i].arg.hash)
  }

  function Zeros(n: nat): Words { seq(n, _ => 0 as bv16) }

  /** The signature of the first n columns. */
  function RowSignature(o: Options, columns: seq<Column>, n: nat): (r: Words)
    requires ValidOptions(o) && SignableRow(o, columns) && n <= |columns|
    ensures |r| == o.bloomLength
  {
    if n == 0 then Zeros(o.bloomLength)
    else if columns[n - 1].Null? then RowSignature(o, columns, n - 1)
    else SetBits(RowSignature(o, columns, n - 1), BitsOf(o, n - 1, columns[n - 1].hash))
  }

  /** BloomFormTuple: the signature part. */
  method FormSignature(gen: Generator, o: Options, columns: seq<Column>) returns (sign: Words)
    requires ValidOptions(o) && SignableRow(o, columns)
    modifies gen
    ensures sign == RowSignature(o, columns, |columns|)
  {
    hide BitsOf, SetBits, Signable;
    var words := new bv16[o.bloomLength](_ => 0);
    for i := 0 to |columns|
      invariant words[..] == RowSignature(o, columns, i)
    {
      if columns[i].Value? {
        SignValue(gen, o, words, columns[i].hash, i);
      }
    }
    sign := words[..];
  }

  /** The signature of the first n scan keys. */
  function KeysSignature(o: Options, keys: seq<Key>, n: nat): (r: Words)
    requires ValidOptions(o) && SignableKeys(o, keys) && n <= |keys|
    requires forall i :: 0 <= i < |keys| ==> keys[i].arg.Value?
    ensures |r| == o.bloomLength
  {
    if n == 0 then Zeros(o.bloomLength)
    else SetBits(KeysSignature(o, keys, n - 1), BitsOf(o, keys[n - 1].attno, keys[n - 1].arg.hash))
  }

  datatype ScanSign = NothingCanMatch | Sign(words: Words)

  /** The signature blgetbitmap computes first: none if a key is NULL. */
  method ScanSignature(gen: Generator, o: Options, keys: seq<Key>) returns (r: ScanSign)
    requires ValidOptions(o) && SignableKeys(o, keys)
    modifies gen
    ensures r.NothingCanMatch? <==> exists i :: 0 <= i < |keys| && keys[i].arg.Null?
    ensures r.Sign? ==> r.words == KeysSignature(o, keys, |keys|)
  {
    hide BitsOf, SetBits, Signable;
    var words := new bv16[o.bloomLength](_ => 0);
    ghost var plain := if forall i :: 0 <= i < |keys| ==> keys[i].arg.Value? then keys else [];
    for i := 0 to |keys|
      invariant forall k :: 0 <= k < i ==> keys[k].arg.Value?
      invariant plain == keys ==> words[..] == KeysSignature(o, keys, i)
    {
      if keys[i].arg.Null? {
        return NothingCanMatch;
      }
      SignValue(gen, o, words, keys[i].arg.hash, keys[i].attno);
    }
    r := Sign(words[..]);
  }

  /** The signature test of the scan. */
  predicate Covers(t: Words, s: Words) {
    |t| == |s| && forall i :: 0 <= i < |s| ==> Within(s[i], t[i])
  }

  method MatchesSignature(t: Words, s: Words) returns (res: bool)
    requires |t| == |s|
    ensures res == Covers(t, s)
  {
    res := true;
    for i := 0 to |s|
      invariant res && forall k :: 0 <= k < i ==> Within(s[k], t[k])
    {
      if t[i] & s[i] != s[i] {
        res := false;
        break;
      }
    }
  }

  predicate HasBit(t: Words, n: nat)
    requires n < SIGNWORDBITS * |t|
  {
    Within(Mask(n), t[n / SIGNWORDBITS])
  }

  predicate HasBits(t: Words, ns: seq<int>)
    requires InRange(ns, SIGNWORDBITS * |t|)
  {
    forall i :: 0 <= i < |ns| ==> HasBit(t, ns[i])
  }

  lemma SetWordHas(s: Words, i: nat, m: bv16, j: nat, k: bv16)
    requires i < |s| && j < |s|
    ensures Within(m, SetWord(s, i, m)[i])
    ensures Within(k, s[j]) ==> Within(k, SetWord(s, i, m)[j])
  {
    OrSets(s[i], m);
    if Within(k, s[j]) {
      OrKeeps(s[j], m, k);
    }
    hide Within, Or;
  }

  lemma CoversSetWord(t: Words, s: Words, i: nat, m: bv16)
    requires Covers(t, s) && i < |t| && Within(m, t[i])
    ensures Covers(t, SetWord(s, i, m))
  {
    OrWithin(t[i], s[i], m);
    hide Within, Or;
  }

  lemma SetBitHas(s: Words, n: nat, k: nat)
    requires n < SIGNWORDBITS * |s| && k < SIGNWORDBITS * |s|
    ensures HasBit(SetBit(s, n), n)
    ensures HasBit(s, k) ==> HasBit(SetBit(s, n), k)
  {
    hide Mask, Within, Or, SetWord;
    SetWordHas(s, n / SIGNWORDBITS, Mask(n), k / SIGNWORDBITS, Mask(k));
  }

  lemma {:induction false} SetBitsHas(s: Words, ns: seq<int>, k: nat)
    requires InRange(ns, SIGNWORDBITS * |s|) && k < SIGNWORDBITS * |s|
    requires k in ns || HasBit(s, k)
    ensures HasBit(SetBits(s, ns), k)
    decreases |ns|
  {
    hide HasBit, SetBit;
    if ns != [] {
      SetBitHas(s, ns[0], k);
      SetBitsHas(SetBit(s, ns[0]), ns[1..], k);
    }
  }

  lemma {:induction false} CoversSetBits(t: Words, s: Words, ns: seq<int>)
    requires Covers(t, s) && InRange(ns, SIGNWORDBITS * |t|) && HasBits(t, ns)
    ensures Covers(t, SetBits(s, ns))
    decreases |ns|
  {
    if ns != [] {
      CoversSetBit(t, s, ns[0]);
      assert forall i :: 0 <= i < |ns[1..]| ==> HasBit(t, ns[1..][i]);
      hide HasBit, SetBit, Covers;
      CoversSetBits(t, SetBit(s, ns[0]), ns[1..]);
    }
  }

  lemma CoversSetBit(t: Words, s: Words, n: nat)
    requires Covers(t, s) && n < SIGNWORDBITS * |t| && HasBit(t, n)
    ensures Covers(t, SetBit(s, n))
  {
    hide Mask, Within, Or, SetWord;
    CoversSetWord(t, s, n / SIGNWORDBITS, Mask(n));
  }

  /** A row's signature has all the bits of each of its columns. */
  lemma {:induction false} RowHasBits(o: Options, columns: seq<Column>, n: nat, i: nat)
    requires ValidOptions(o) && SignableRow(o, columns) && i < n <= |columns| && columns[i].Value?
    ensures HasBits(RowSignature(o, columns, n), BitsOf(o, i, columns[i].hash))
    decreases n
  {
    hide BitsOf, HasBit, SetBits, Signable;
    var bits := BitsOf(o, i, columns[i].hash);
    var before := RowSignature(o, columns, n - 1);
    if i < n - 1 {
      RowHasBits(o, columns, n - 1, i);
    }
    if columns[n - 1].Value? {
      var more := BitsOf(o, n - 1, columns[n - 1].hash);
      forall k | 0 <= k < |bits| ensures HasBit(SetBits(before, more), bits[k]) {
        if i == n - 1 {
          assert bits[k] in more;
        }
        SetBitsHas(before, more, bits[k]);
      }
    }
  }

  /** The keys hold of the row: each names a column that is not null and equals it. */
  predicate KeysHold(columns: seq<Column>, keys: seq<Key>) {
    forall i :: 0 <= i < |keys| ==>
      keys[i].arg.Value? && keys[i].attno < |columns| && columns[keys[i].attno] == keys[i].arg
  }

  lemma ZerosCovered(t: Words)
    ensures Covers(t, Zeros(|t|))
  {
    forall i | 0 <= i < |t| ensures Within(0, t[i]) {
      NothingWithin(t[i]);
    }
    hide Within;
  }

  /** A row whose columns equal the scan keys has a signature the scan accepts. */
  lemma {:induction false} RowCoversKeys(o: Options, columns: seq<Column>, keys: seq<Key>, n: nat)
    requires ValidOptions(o) && SignableRow(o, columns) && SignableKeys(o, keys) && KeysHold(columns, keys)
             && n <= |keys|
    ensures Covers(RowSignature(o, columns, |columns|), KeysSignature(o, keys, n))
  {
    hide HasBits, RowSignature, BitsOf, Signable, SetBits;
    var t := RowSignature(o, columns, |columns|);
    if n == 0 {
      ZerosCovered(t);
    } else {
      var key := keys[n - 1];
      RowCoversKeys(o, columns, keys, n - 1);
      RowHasBits(o, columns, |columns|, key.attno);
      hide Covers;
      CoversSetBits(t, KeysSignature(o, keys, n - 1), BitsOf(o, key.attno, key.arg.hash));
    }
  }
}
