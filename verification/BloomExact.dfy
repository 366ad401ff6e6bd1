/** What the bits of a bloom signature say: which value and column they were drawn for, and which bits are set. */
module BloomExact {
  import opened BloomSignature

  // ---- Seeds ----

  /** Bit i of a number. */
  function Bit(a: nat, i: nat): bool { if i == 0 then Odd(a) else Bit(a / 2, i - 1) }

  lemma JoinParts(upper: nat, last: bool)
    ensures Join(upper, last) / 2 == upper && Odd(Join(upper, last)) == last
  {
  }

  lemma Joined(a: nat)
    ensures Join(a / 2, Odd(a)) == a
  {
  }

  /** A bit of the mixture is set exactly if it is set in one of the two. */
  lemma {:induction false} XorBit(a: nat, b: nat, n: nat, i: nat)
    requires i < n
    ensures Bit(Xor(a, b, n), i) <==> Bit(a, i) != Bit(b, i)
    decreases n
  {
    hide Join, Odd;
    JoinParts(Xor(a / 2, b / 2, n - 1), Odd(a) != Odd(b));
    if i > 0 {
      XorBit(a / 2, b / 2, n - 1, i - 1);
    }
  }

  lemma {:induction false} XorCancels(a: nat, b: nat, n: nat)
    requires a < Pow2(n)
    ensures Xor(Xor(a, b, n), b, n) == a
    decreases n
  {
    if n > 0 {
      hide Join, Odd;
      JoinParts(Xor(a / 2, b / 2, n - 1), Odd(a) != Odd(b));
      Joined(a);
      XorCancels(a / 2, b / 2, n - 1);
    }
  }

  lemma {:induction false} XorCommutes(a: nat, b: nat, n: nat)
    ensures Xor(a, b, n) == Xor(b, a, n)
    decreases n
  {
    if n > 0 {
      hide Join, Odd;
      XorCommutes(a / 2, b / 2, n - 1);
    }
  }

  /** Mixing the same number in twice gives back the hash. */
  lemma MixCancels(hash: uint32, r: uint32)
    ensures Mix(Mix(hash, r), r) == hash
  {
    hide Xor;
    Pow2Of32();
    XorCancels(hash, r, 32);
  }

  lemma MixCommutes(hash: uint32, r: uint32)
    ensures Mix(hash, r) == Mix(r, hash)
  {
    hide Xor;
    XorCommutes(hash, r, 32);
  }

  /** The first number of a column's generator; small seeds leave the modulus out of play. */
  lemma FirstNumber(attno: nat)
    requires attno < 0x1_0000
    ensures (Rand(Srand(attno)) - 1) % 0x1_0000_0000 == 16807 * (attno + 1) - 1
  {
    SrandPositive(attno);
    hide Srand;
    RandIsParkMiller(attno + 1);
    hide Rand;
    ModIs(0, 16807 * (attno + 1));
  }

  lemma SeedIs(attno: nat, hash: uint32)
    requires attno < 0x1_0000
    ensures SeedOf(attno, hash) == Mix(hash, 16807 * (attno + 1) - 1)
  {
    FirstNumber(attno);
    hide Rand, Srand, Mix;
  }

  /** In one column different hashes give different seeds, and one hash gives different seeds in different columns. */
  lemma SeedsDiffer(attno: nat, attno': nat, hash: uint32, hash': uint32)
    requires attno < 0x1_0000 && attno' < 0x1_0000
    ensures attno == attno' && SeedOf(attno, hash) == SeedOf(attno', hash') ==> hash == hash'
    ensures hash == hash' && SeedOf(attno, hash) == SeedOf(attno', hash') ==> attno == attno'
  {
    SeedIs(attno, hash);
    SeedIs(attno', hash');
    hide SeedOf, Mix;
    var r, r' := 16807 * (attno + 1) - 1, 16807 * (attno' + 1) - 1;
    MixCancels(hash, r);
    MixCancels(hash', r');
    MixCommutes(hash, r);
    MixCommutes(hash', r');
    MixCancels(r, hash);
    MixCancels(r', hash');
  }

  // ---- Which bits are set ----

  function Single(i: nat): bv16
    requires i < SIGNWORDBITS
  {
    if i == 0 then 0x1 else if i == 1 then 0x2 else if i == 2 then 0x4 else if i == 3 then 0x8
    else if i == 4 then 0x10 else if i == 5 then 0x20 else if i == 6 then 0x40 else if i == 7 then 0x80
    else if i == 8 then 0x100 else if i == 9 then 0x200 else if i == 10 then 0x400 else if i == 11 then 0x800
    else if i == 12 then 0x1000 else if i == 13 then 0x2000 else if i == 14 then 0x4000 else 0x8000
  }

  lemma MaskIs(n: nat)
    ensures Mask(n) == Single(n % SIGNWORDBITS)
  {
    ShiftIs(n % SIGNWORDBITS);
  }

  lemma ShiftIs(i: nat)
    requires i < SIGNWORDBITS
    ensures (1 as bv16) << i == Single(i)
  {
    if i == 0 {} else if i == 1 {} else if i == 2 {} else if i == 3 {} else if i == 4 {} else if i == 5 {}
    else if i == 6 {} else if i == 7 {} else if i == 8 {} else if i == 9 {} else if i == 10 {} else if i == 11 {}
    else if i == 12 {} else if i == 13 {} else if i == 14 {} else {}
  }

  lemma SingleDiffer(i: nat, j: nat)
    requires i < SIGNWORDBITS && j < SIGNWORDBITS && i != j
    ensures Single(i) & Single(j) == 0 && Single(i) != 0
  {
  }

  lemma OrAddsNo(w: bv16, k: bv16, m: bv16)
    requires k & m == 0
    ensures Within(k, Or(w, m)) <==> Within(k, w)
  {
  }

  /** Setting a bit sets that bit and no other. */
  lemma SetBitExact(s: Words, n: nat, k: nat)
    requires n < SIGNWORDBITS * |s| && k < SIGNWORDBITS * |s|
    ensures HasBit(SetBit(s, n), k) <==> k == n || HasBit(s, k)
  {
    var i, j := n % SIGNWORDBITS, k % SIGNWORDBITS;
    MaskIs(n);
    MaskIs(k);
    hide Mask, Within, Or, Single;
    if n / SIGNWORDBITS == k / SIGNWORDBITS {
      if i == j {
        SetWordHas(s, n / SIGNWORDBITS, Single(i), n / SIGNWORDBITS, Single(i));
      } else {
        SingleDiffer(j, i);
        OrAddsNo(s[n / SIGNWORDBITS], Single(j), Single(i));
      }
    }
  }

  /** After setting some bits, set are these and the ones that were. */
  lemma {:induction false} SetBitsExact(s: Words, ns: seq<int>, k: nat)
    requires InRange(ns, SIGNWORDBITS * |s|) && k < SIGNWORDBITS * |s|
    ensures HasBit(SetBits(s, ns), k) <==> k in ns || HasBit(s, k)
    decreases |ns|
  {
    hide HasBit, SetBit;
    if ns != [] {
      SetBitExact(s, ns[0], k);
      SetBitsExact(SetBit(s, ns[0]), ns[1..], k);
    }
  }

  lemma NoBitOfZeros(n: nat, k: nat)
    requires k < SIGNWORDBITS * n
    ensures !HasBit(Zeros(n), k)
  {
    MaskIs(k);
    var i := k % SIGNWORDBITS;
    SingleDiffer(i, if i == 0 then 1 else 0);
    hide Mask, Single;
  }

  /** The bits of a row are exactly those drawn for its non-null columns. */
  ghost predicate Drawn(o: Options, columns: seq<Column>, n: nat, k: nat)
    requires ValidOptions(o) && SignableRow(o, columns) && n <= |columns|
  {
    exists i :: 0 <= i < n && columns[i].Value? && k in BitsOf(o, i, columns[i].hash)
  }

  lemma {:induction false} RowBits(o: Options, columns: seq<Column>, n: nat, k: nat)
    requires ValidOptions(o) && SignableRow(o, columns) && n <= |columns| && k < SIGNWORDBITS * o.bloomLength
    ensures HasBit(RowSignature(o, columns, n), k) <==> Drawn(o, columns, n, k)
    decreases n
  {
    hide BitsOf, HasBit, SetBits, Signable, Zeros;
    if n == 0 {
      NoBitOfZeros(o.bloomLength, k);
    } else {
      RowBits(o, columns, n - 1, k);
      if columns[n - 1].Value? {
        SetBitsExact(RowSignature(o, columns, n - 1), BitsOf(o, n - 1, columns[n - 1].hash), k);
      }
    }
  }

  /** The bits of a scan are exactly those drawn for its keys. */
  ghost predicate Asked(o: Options, keys: seq<Key>, n: nat, k: nat)
    requires ValidOptions(o) && SignableKeys(o, keys) && n <= |keys|
    requires forall i :: 0 <= i < |keys| ==> keys[i].arg.Value?
  {
    exists i :: 0 <= i < n && k in BitsOf(o, keys[i].attno, keys[i].arg.hash)
  }

  lemma {:induction false} KeysBits(o: Options, keys: seq<Key>, n: nat, k: nat)
    requires ValidOptions(o) && SignableKeys(o, keys) && n <= |keys| && k < SIGNWORDBITS * o.bloomLength
    requires forall i :: 0 <= i < |keys| ==> keys[i].arg.Value?
    ensures HasBit(KeysSignature(o, keys, n), k) <==> Asked(o, keys, n, k)
    decreases n
  {
    hide BitsOf, HasBit, SetBits, Signable, Zeros;
    if n == 0 {
      NoBitOfZeros(o.bloomLength, k);
    } else {
      KeysBits(o, keys, n - 1, k);
      SetBitsExact(KeysSignature(o, keys, n - 1), BitsOf(o, keys[n - 1].attno, keys[n - 1].arg.hash), k);
    }
  }

  lemma WithinTrans(k: bv16, m: bv16, w: bv16)
    requires Within(k, m) && Within(m, w)
    ensures Within(k, w)
  {
  }

  lemma AllSixteen(m: bv16, w: bv16)
    requires forall i :: 0 <= i < SIGNWORDBITS && Within(Single(i), m) ==> Within(Single(i), w)
    ensures Within(m, w)
  {
    assert Single(0) == 0x1 && Single(1) == 0x2 && Single(2) == 0x4 && Single(3) == 0x8 && Single(4) == 0x10;
    assert Single(5) == 0x20 && Single(6) == 0x40 && Single(7) == 0x80 && Single(8) == 0x100;
    assert Single(9) == 0x200 && Single(10) == 0x400 && Single(11) == 0x800 && Single(12) == 0x1000;
    assert Single(13) == 0x2000 && Single(14) == 0x4000 && Single(15) == 0x8000;
    hide Single, Within;
    BitByBit(m, w);
  }

  lemma BitByBit(m: bv16, w: bv16)
    requires (Within(0x1, m) ==> Within(0x1, w)) && (Within(0x2, m) ==> Within(0x2, w))
    requires (Within(0x4, m) ==> Within(0x4, w)) && (Within(0x8, m) ==> Within(0x8, w))
    requires (Within(0x10, m) ==> Within(0x10, w)) && (Within(0x20, m) ==> Within(0x20, w))
    requires (Within(0x40, m) ==> Within(0x40, w)) && (Within(0x80, m) ==> Within(0x80, w))
    requires (Within(0x100, m) ==> Within(0x100, w)) && (Within(0x200, m) ==> Within(0x200, w))
    requires (Within(0x400, m) ==> Within(0x400, w)) && (Within(0x800, m) ==> Within(0x800, w))
    requires (Within(0x1000, m) ==> Within(0x1000, w)) && (Within(0x2000, m) ==> Within(0x2000, w))
    requires (Within(0x4000, m) ==> Within(0x4000, w)) && (Within(0x8000, m) ==> Within(0x8000, w))
    ensures Within(m, w)
  {
  }

  lemma BitOfWord(t: Words, j: nat, i: nat)
    requires j < |t| && i < SIGNWORDBITS
    ensures SIGNWORDBITS * j + i < SIGNWORDBITS * |t|
    ensures HasBit(t, SIGNWORDBITS * j + i) <==> Within(Single(i), t[j])
  {
    var k := SIGNWORDBITS * j + i;
    assert k / SIGNWORDBITS == j && k % SIGNWORDBITS == i;
    MaskIs(k);
    hide Mask, Single, Within;
  }

  /** The word loop of the scan is bitwise inclusion. */
  lemma CoversIff(t: Words, s: Words)
    requires |t| == |s|
    ensures Covers(t, s) <==> forall k :: 0 <= k < SIGNWORDBITS * |s| && HasBit(s, k) ==> HasBit(t, k)
  {
    hide Mask, Single, Within;
    if Covers(t, s) {
      forall k | 0 <= k < SIGNWORDBITS * |s| && HasBit(s, k) ensures HasBit(t, k) {
        WithinTrans(Mask(k), s[k / SIGNWORDBITS], t[k / SIGNWORDBITS]);
      }
    }
    if forall k :: 0 <= k < SIGNWORDBITS * |s| && HasBit(s, k) ==> HasBit(t, k) {
      forall j | 0 <= j < |s| ensures Within(s[j], t[j]) {
        forall i | 0 <= i < SIGNWORDBITS && Within(Single(i), s[j]) ensures Within(Single(i), t[j]) {
          BitOfWord(s, j, i);
          BitOfWord(t, j, i);
        }
        AllSixteen(s[j], t[j]);
      }
    }
  }

  /** A scan accepts a row exactly if every bit drawn for a key is drawn for some column of the row. */
  lemma ScanAcceptsIff(o: Options, columns: seq<Column>, keys: seq<Key>)
    requires ValidOptions(o) && SignableRow(o, columns) && SignableKeys(o, keys)
    requires forall i :: 0 <= i < |keys| ==> keys[i].arg.Value?
    ensures Covers(RowSignature(o, columns, |columns|), KeysSignature(o, keys, |keys|))
            <==> forall k :: 0 <= k < SIGNWORDBITS * o.bloomLength && Asked(o, keys, |keys|, k)
                             ==> Drawn(o, columns, |columns|, k)
  {
    hide Covers, HasBit, RowSignature, KeysSignature, Asked, Drawn, Signable;
    var t, s := RowSignature(o, columns, |columns|), KeysSignature(o, keys, |keys|);
    CoversIff(t, s);
    forall k | 0 <= k < SIGNWORDBITS * o.bloomLength
      ensures HasBit(t, k) <==> Drawn(o, columns, |columns|, k)
      ensures HasBit(s, k) <==> Asked(o, keys, |keys|, k)
    {
      RowBits(o, columns, |columns|, k);
      KeysBits(o, keys, |keys|, k);
    }
  }

  // ---- Which bits are drawn ----

  function Power(b: int, n: nat): int { if n == 0 then 1 else b * Power(b, n - 1) }

  lemma ModOfSum(q: int, y: int)
    ensures (M * q + y) % M == y % M
  {
    ModIs(q + y / M, y % M);
    assert M * q + y == M * (q + y / M) + y % M;
  }

  lemma ModOfProduct(p: int, x: int)
    ensures p * (x % M) % M == p * x % M
  {
    var q, r := x / M, x % M;
    assert x == M * q + r;
    assert p * x == M * (p * q) + p * r;
    ModOfSum(p * q, p * r);
  }

  /** Number i is drawn from the state after i + 1 steps of the Park-Miller generator. */
  lemma {:induction false} DrawsAre(next: int, k: nat, bits: nat, i: nat)
    requires next != 0 && -M < next < M && bits > 1 && i < k
    ensures Draws(next, k, bits)[i] == (Power(16807, i + 1) * next % M - 1) % bits
    decreases k
  {
    RandIsParkMiller(next);
    hide Rand, TMod;
    var next' := Rand(next);
    if i == 0 {
      NonNegative(next' - 1, bits);
      assert Power(16807, 1) == 16807 * Power(16807, 0);
    } else {
      DrawsAre(next', k - 1, bits, i - 1);
      ModOfProduct(Power(16807, i), 16807 * next);
      PowerStep(16807, i, next);
    }
  }

  lemma PowerStep(b: int, n: nat, x: int)
    ensures Power(b, n) * (b * x) == Power(b, n + 1) * x
  {
  }

  lemma NonNegative(a: nat, b: nat)
    requires b > 0
    ensures TMod(a, b) == a % b
  {
  }

  /** The state a seed leaves: one more than its remainder, which has the sign of the seed as an int32. */
  lemma SrandIs(seed: uint32)
    ensures var r, x := Srand(seed) - 1, ToInt32(seed);
            -0x7fff_fffe < r < 0x7fff_fffe && (x - r) % 0x7fff_fffe == 0 && (x >= 0 ==> r >= 0) && (x <= 0 ==> r <= 0)
  {
  }

  /** The bits of a value: drawn from its hash mixed with the number of its column. */
  lemma BitsAre(o: Options, attno: nat, hash: uint32, i: nat)
    requires ValidOptions(o) && Signable(o, attno, hash) && i < o.bitSize[attno]
    ensures var seed := Mix(hash, 16807 * (attno + 1) - 1);
            BitsOf(o, attno, hash)[i] == (Power(16807, i + 1) * Srand(seed) % M - 1) % (SIGNWORDBITS * o.bloomLength)
  {
    SeedIs(attno, hash);
    BitsAreDrawn(o, attno, hash);
    hide Srand, SeedOf, Mix, Draws, BitsOf, Power;
    DrawsAre(Srand(SeedOf(attno, hash)), o.bitSize[attno], SIGNWORDBITS * o.bloomLength, i);
  }
}
