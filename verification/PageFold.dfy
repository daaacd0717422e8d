/**
 The fold function of extra/innochecksum.c.  A `ulint` has 32 or 64 bits: `word` is 2^32 or
 2^64, and what overflows is cut off.  Only the lower 32 bits of the results are compared.
 */
module PageFold {
  import opened Prelude

  const UT_HASH_RANDOM_MASK: nat := 1463735687
  const UT_HASH_RANDOM_MASK2: nat := 1653893711
  const TWO_32: nat := 0x1_0000_0000
  const TWO_64: nat := 0x1_0000_0000_0000_0000

  predicate IsWord(word: nat) {
    word == TWO_32 || word == TWO_64
  }

  function XorBit(a: nat, b: nat): nat {
    if a % 2 == b % 2 then 0 else 1
  }

  /** `^`, bit by bit. */
  function Xor(a: nat, b: nat): nat
    decreases a + b
  {
    if a == 0 && b == 0 then 0 else XorBit(a, b) + 2 * Xor(a / 2, b / 2)
  }

  /** ut_fold_ulint_pair. */
  function FoldPair(word: nat, n1: nat, n2: nat): nat
    requires IsWord(word)
  {
    (Xor(((Xor(Xor(n1, n2), UT_HASH_RANDOM_MASK2) * 256) % word + n1) % word, UT_HASH_RANDOM_MASK) + n2) % word
  }

  // ---------------------------------------------------------------- xor and the lowest bits

  lemma {:induction false} XorTwice(a: nat, b: nat)
    ensures Xor(Xor(a, b), b) == a
    decreases a + b
  {
    if a > 0 || b > 0 {
      var x := Xor(a, b);
      XorTwice(a / 2, b / 2);
      XorHalf(a, b);
      XorHalf(x, b);
      hide Xor;
      BitAndHalf(Xor(x, b), a % 2, a / 2);
    }
  }

  /** The lowest `k` bits of the result only depend on the lowest `k` bits of the operands. */
  lemma {:induction false} XorBits(a: nat, a': nat, b: nat, k: nat)
    requires a % Pow2(k) == a' % Pow2(k)
    ensures Xor(a, b) % Pow2(k) == Xor(a', b) % Pow2(k)
    decreases k
  {
    hide Xor;
    if k > 0 {
      var m := Pow2(k - 1);
      Halves(a, m);
      Halves(a', m);
      SameHalves(a % 2, a' % 2, (a / 2) % m, (a' / 2) % m);
      XorBits(a / 2, a' / 2, b / 2, k - 1);
      XorHalf(a, b);
      XorHalf(a', b);
      Halves(Xor(a, b), m);
      Halves(Xor(a', b), m);
    }
  }

  lemma SameHalves(bit: nat, bit': nat, half: nat, half': nat)
    requires bit < 2 && bit' < 2 && 2 * half + bit == 2 * half' + bit'
    ensures bit == bit' && half == half'
  {
  }

  lemma XorHalf(a: nat, b: nat)
    ensures Xor(a, b) / 2 == Xor(a / 2, b / 2) && Xor(a, b) % 2 == XorBit(a, b)
  {
    var x, half := Xor(a, b), Xor(a / 2, b / 2);
    assert x == XorBit(a, b) + 2 * half by {
      if a == 0 && b == 0 {
        assert half == 0;
      }
    }
    hide Xor;
    BitAndHalf(x, XorBit(a, b), half);
  }

  lemma BitAndHalf(x: nat, bit: nat, half: nat)
    requires bit < 2
    requires x == bit + 2 * half || (x % 2 == bit && x / 2 == half)
    ensures x == bit + 2 * half
    ensures x / 2 == half && x % 2 == bit
  {
  }

  lemma Halves(a: nat, m: nat)
    requires m > 0
    ensures a % (2 * m) == 2 * ((a / 2) % m) + a % 2
  {
    var q, r := a / 2 / m, (a / 2) % m;
    assert a / 2 == q * m + r;
    assert a == q * (2 * m) + (2 * r + a % 2);
    Divided(a, 2 * m, q, 2 * r + a % 2);
  }

  // ---------------------------------------------------------------- equal lower bits

  predicate Same(a: nat, b: nat, n: nat)
    requires n > 0
  {
    a % n == b % n
  }

  lemma SameIf(a: nat, b: nat, n: nat, d: int)
    requires n > 0 && a - b == d * n
    ensures Same(a, b, n)
  {
    Divided(a, n, b / n + d, b % n);
  }

  lemma SameGives(a: nat, b: nat, n: nat) returns (d: int)
    requires n > 0 && Same(a, b, n)
    ensures a - b == d * n
  {
    d := a / n - b / n;
  }

  /** Equal sums of equal summands. */
  lemma SameRest(a: nat, b: nat, x: nat, y: nat, n: nat)
    requires n > 0 && Same(a, b, n) && Same(a + x, b + y, n)
    ensures Same(x, y, n)
  {
    var d := SameGives(a, b, n);
    var e := SameGives(a + x, b + y, n);
    assert x - y == (e - d) * n;
    SameIf(x, y, n, e - d);
  }

  lemma SameSum(a: nat, b: nat, x: nat, n: nat)
    requires n > 0 && Same(a, b, n)
    ensures Same(a + x, b + x, n)
  {
    var d := SameGives(a, b, n);
    SameIf(a + x, b + x, n, d);
  }

  lemma SameBelow(a: nat, b: nat, n: nat, k: nat)
    requires n > 0 && k > 0 && Same(a, b, n * k)
    ensures Same(a, b, n)
  {
    var d := SameGives(a, b, n * k);
    assert a - b == (d * k) * n;
    SameIf(a, b, n, d * k);
  }

  lemma SameShifted(a: nat, b: nat, n: nat)
    requires n > 0 && Same(a, b, n)
    ensures Same(a * 256, b * 256, n * 256)
  {
    var d := SameGives(a, b, n);
    assert a * 256 - b * 256 == d * (n * 256);
    SameIf(a * 256, b * 256, n * 256, d);
  }

  lemma CutOff(word: nat, z: nat)
    requires IsWord(word)
    ensures Same(z % word, z, TWO_32)
  {
  }

  lemma Powers()
    ensures Pow2(8) == 256 && Pow2(16) == 65536 && Pow2(24) == 16777216 && Pow2(32) == TWO_32
  {
    assert Pow2(4) == 16;
    assert Pow2(8) == 256;
    assert Pow2(12) == 4096;
    assert Pow2(16) == 65536;
    assert Pow2(20) == 1048576;
    assert Pow2(24) == 16777216;
    assert Pow2(28) == 268435456;
  }

  lemma XorSame(a: nat, b: nat, c: nat, k: nat)
    ensures Same(a, b, Pow2(k)) <==> Same(Xor(a, c), Xor(b, c), Pow2(k))
  {
    if Same(a, b, Pow2(k)) {
      XorBits(a, b, c, k);
    }
    if Same(Xor(a, c), Xor(b, c), Pow2(k)) {
      XorBits(Xor(a, c), Xor(b, c), c, k);
      XorTwice(a, c);
      XorTwice(b, c);
    }
  }

  // ---------------------------------------------------------------- what folding keeps

  /** What is shifted in ut_fold_ulint_pair. */
  function Mixed(n1: nat, n2: nat): nat {
    Xor(Xor(n1, n2), UT_HASH_RANDOM_MASK2)
  }

  lemma MixedSame(x: nat, y: nat, n2: nat, k: nat)
    requires Same(x, y, Pow2(k))
    ensures Same(Mixed(x, n2), Mixed(y, n2), Pow2(k))
  {
    XorSame(x, y, n2, k);
    XorSame(Xor(x, n2), Xor(y, n2), UT_HASH_RANDOM_MASK2, k);
  }

  /** From `k` known bits of `x` to eight more. */
  lemma NextByte(x: nat, y: nat, n2: nat, k: nat, more: nat)
    requires Same(x, y, Pow2(k)) && more == Pow2(k) * 256 && Same(Mixed(x, n2) * 256 + x, Mixed(y, n2) * 256 + y, more)
    ensures Same(x, y, more)
  {
    MixedSame(x, y, n2, k);
    SameShifted(Mixed(x, n2), Mixed(y, n2), Pow2(k));
    SameRest(Mixed(x, n2) * 256, Mixed(y, n2) * 256, x, y, more);
  }

  lemma MixedSum(x: nat, y: nat, n2: nat)
    requires Same(Mixed(x, n2) * 256 + x, Mixed(y, n2) * 256 + y, TWO_32)
    ensures Same(x, y, TWO_32)
  {
    hide Mixed, Same;
    var s, t := Mixed(x, n2) * 256 + x, Mixed(y, n2) * 256 + y;
    Powers();
    SameBelow(s, t, 16777216, 256);
    SameBelow(s, t, 65536, 256);
    SameBelow(s, t, 256, 256);
    assert Same(x, y, Pow2(0)) by {
      SameIf(x, y, 1, x - y);
    }
    NextByte(x, y, n2, 0, 256);
    NextByte(x, y, n2, 8, 65536);
    NextByte(x, y, n2, 16, 16777216);
    NextByte(x, y, n2, 24, TWO_32);
  }

  /** The inner part of ut_fold_ulint_pair, with and without cutting off. */
  function Inner(word: nat, n1: nat, n2: nat): nat
    requires IsWord(word)
  {
    ((Mixed(n1, n2) * 256) % word + n1) % word
  }

  lemma InnerSame(word: nat, n1: nat, n2: nat)
    requires IsWord(word)
    ensures Same(Inner(word, n1, n2), Mixed(n1, n2) * 256 + n1, TWO_32)
  {
    hide Mixed;
    var z := Mixed(n1, n2) * 256;
    CutOff(word, z);
    SameSum(z % word, z, n1, TWO_32);
    CutOff(word, z % word + n1);
  }

  lemma FoldPairSame(word: nat, n1: nat, n2: nat)
    requires IsWord(word)
    ensures Same(FoldPair(word, n1, n2), Xor(Inner(word, n1, n2), UT_HASH_RANDOM_MASK) + n2, TWO_32)
  {
    CutOff(word, Xor(Inner(word, n1, n2), UT_HASH_RANDOM_MASK) + n2);
  }

  /** The fold does not forget: different values stay different, whatever byte comes next. */
  lemma FoldPairKeeps(word: nat, a: nat, b: nat, n2: nat)
    requires IsWord(word) && Same(FoldPair(word, a, n2), FoldPair(word, b, n2), TWO_32)
    ensures Same(a, b, TWO_32)
  {
    hide FoldPair, Inner, Mixed;
    var p, q := Inner(word, a, n2), Inner(word, b, n2);
    FoldPairSame(word, a, n2);
    FoldPairSame(word, b, n2);
    SameRest(n2, n2, Xor(p, UT_HASH_RANDOM_MASK), Xor(q, UT_HASH_RANDOM_MASK), TWO_32);
    Powers();
    XorSame(p, q, UT_HASH_RANDOM_MASK, 32);
    InnerSame(word, a, n2);
    InnerSame(word, b, n2);
    MixedSum(a, b, n2);
  }

  /** And it sees the byte. */
  lemma FoldPairSees(word: nat, n1: nat, x: Byte, y: Byte)
    requires IsWord(word) && Same(FoldPair(word, n1, x), FoldPair(word, n1, y), TWO_32)
    ensures x == y
  {
    hide FoldPair, Inner, Mixed;
    var u, v := Xor(Inner(word, n1, x), UT_HASH_RANDOM_MASK), Xor(Inner(word, n1, y), UT_HASH_RANDOM_MASK);
    FoldPairSame(word, n1, x);
    FoldPairSame(word, n1, y);
    assert Same(u + x, v + y, TWO_32);
    hide Same;
    SameBelow(u + x, v + y, 256, 16777216);
    InnerBytes(word, n1, x, y);
    SameRest(u, v, x, y, 256);
    SameByte(x, y);
  }

  lemma SameByte(x: Byte, y: Byte)
    requires Same(x, y, 256)
    ensures x == y
  {
  }

  lemma InnerBytes(word: nat, n1: nat, x: nat, y: nat)
    requires IsWord(word)
    ensures Same(Xor(Inner(word, n1, x), UT_HASH_RANDOM_MASK), Xor(Inner(word, n1, y), UT_HASH_RANDOM_MASK), 256)
  {
    hide Inner, Xor;
    InnerByte(word, n1, x);
    InnerByte(word, n1, y);
    Powers();
    XorSame(Inner(word, n1, x), Inner(word, n1, y), UT_HASH_RANDOM_MASK, 8);
  }

  /** The lowest byte goes through the shift unchanged. */
  lemma InnerByte(word: nat, n1: nat, n2: nat)
    requires IsWord(word)
    ensures Same(Inner(word, n1, n2), n1, 256)
  {
    hide Mixed, Inner;
    InnerSame(word, n1, n2);
    var s := Mixed(n1, n2) * 256 + n1;
    SameBelow(Inner(word, n1, n2), s, 256, 16777216);
    SameIf(s, n1, 256, Mixed(n1, n2));
  }
}
