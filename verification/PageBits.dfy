/** The fold of extra/innochecksum.c on machine words, for computing with it. */
module PageBits {
  import opened Prelude
  import opened PageFold

  type Word = bv48

  const LOW: Word := 0xFFFF_FFFF

  function Value(v: Word): nat
    decreases v
  {
    if v == 0 then 0 else 2 * Value(v >> 1) + Bit(v)
  }

  function Bit(v: Word): nat {
    if v & 1 == 1 then 1 else 0
  }

  lemma Parts(v: Word)
    ensures Value(v) / 2 == Value(v >> 1) && Value(v) % 2 == Bit(v)
  {
  }

  lemma {:induction false} XorValue(v: Word, w: Word, n: nat)
    requires Value(v) + Value(w) <= n
    ensures Value(v ^ w) == Xor(Value(v), Value(w))
    decreases n
  {
    if v == 0 && w == 0 {
      assert v ^ w == 0;
    } else {
      Shorter(v);
      Shorter(w);
      hide Value, Xor, XorBit;
      HalfOfXor(v, w);
      BitOfXor(v, w);
      XorValue(v >> 1, w >> 1, n - 1);
      XorBySides(Value(v), Value(w), Value(v ^ w));
    }
  }

  lemma XorBySides(a: nat, b: nat, x: nat)
    requires x / 2 == Xor(a / 2, b / 2) && x % 2 == XorBit(a, b)
    ensures x == Xor(a, b)
  {
    XorHalf(a, b);
    hide Xor;
  }

  lemma {:induction false} Shorter(v: Word)
    ensures v != 0 ==> Value(v >> 1) < Value(v)
    ensures Value(v >> 1) <= Value(v)
  {
    if v & 1 == 0 && v != 0 {
      assert v >> 1 != 0;
      Shorter(v >> 1);
    }
  }

  lemma HalfOfXor(v: Word, w: Word)
    ensures Value(v ^ w) / 2 == Value((v >> 1) ^ (w >> 1)) && Value(v) / 2 == Value(v >> 1) && Value(w) / 2 == Value(w >> 1)
  {
    Parts(v);
    Parts(w);
    Parts(v ^ w);
    assert (v ^ w) >> 1 == (v >> 1) ^ (w >> 1);
  }

  lemma BitOfXor(v: Word, w: Word)
    ensures Value(v ^ w) % 2 == XorBit(Value(v), Value(w))
  {
    Parts(v);
    Parts(w);
    Parts(v ^ w);
    hide Value;
    assert v & 1 == 0 || v & 1 == 1;
    assert w & 1 == 0 || w & 1 == 1;
    assert (v ^ w) & 1 == (v & 1) ^ (w & 1);
  }

  function Next(v: Word): Word {
    v + 1
  }

  function Plus(v: Word, w: Word): Word {
    v + w
  }

  lemma NextBits(v: Word)
    requires v <= 0x7FFF_FFFF_FFFF
    ensures Next(v) >> 1 == (if Bit(v) == 0 then v >> 1 else Next(v >> 1)) && v >> 1 <= 0x7FFF_FFFF_FFFF
    ensures Bit(Next(v)) == 1 - Bit(v)
  {
  }

  lemma {:induction false} NextValue(v: Word)
    requires v <= 0x7FFF_FFFF_FFFF
    ensures Value(Next(v)) == Value(v) + 1
    decreases Value(v)
  {
    hide Value, Bit, Next;
    NextBits(v);
    Parts(v);
    Parts(Next(v));
    if Bit(v) != 0 {
      NextValue(v >> 1);
    }
  }

  lemma Before(v: Word, w: Word) returns (u: Word)
    requires v <= 0xFFF_FFFF_FFFF && 0 < w <= 0xFFF_FFFF_FFFF
    ensures Next(u) == w && Next(Plus(v, u)) == Plus(v, w)
    ensures u <= 0xFFF_FFFF_FFFF && Plus(v, u) <= 0x7FFF_FFFF_FFFF
  {
    u := w - 1;
  }

  lemma {:induction false} SumValue(v: Word, w: Word, n: nat)
    requires v <= 0xFFF_FFFF_FFFF && w <= 0xFFF_FFFF_FFFF && Value(w) <= n
    ensures Value(Plus(v, w)) == Value(v) + Value(w)
    decreases n
  {
    if w == 0 {
      assert Plus(v, w) == v;
    } else {
      hide Value, Next, Plus;
      var u := Before(v, w);
      NextValue(u);
      SumValue(v, u, n - 1);
      NextValue(Plus(v, u));
    }
  }

  // ---------------------------------------------------------------- bytes and 32 bits

  function AsNat(v: Word): nat {
    v as nat
  }

  lemma HalfOfByte(v: Word)
    requires v <= 255
    ensures AsNat(v >> 1) == AsNat(v) / 2
  {
  }

  lemma LowOfByte(v: Word)
    requires v <= 255
    ensures AsNat(v & 1) == AsNat(v) % 2
  {
  }

  lemma BitIs(v: Word)
    ensures Bit(v) == AsNat(v & 1)
  {
    assert v & 1 == 0 || v & 1 == 1;
  }

  lemma ByteSmall(v: Word)
    requires v <= 255
    ensures AsNat(v) < 256 && v >> 1 <= 255 && (v != 0 ==> AsNat(v) > 0)
  {
  }

  lemma {:induction false} ByteValue(v: Word)
    requires v <= 255
    ensures Value(v) == AsNat(v)
    decreases AsNat(v)
  {
    if v == 0 {
      assert AsNat(v) == 0;
    } else {
      hide Value, Bit, AsNat;
      ByteSmall(v);
      HalfOfByte(v);
      LowOfByte(v);
      BitIs(v);
      Parts(v);
      ByteValue(v >> 1);
    }
  }

  function Twice(v: Word): Word {
    v << 1
  }

  lemma TwiceValue(v: Word)
    requires v <= 0x7FFF_FFFF_FFFF
    ensures Value(Twice(v)) == 2 * Value(v)
  {
    TwiceBits(v);
    Parts(Twice(v));
    hide Value, Twice;
  }

  lemma TwiceBits(v: Word)
    requires v <= 0x7FFF_FFFF_FFFF
    ensures Twice(v) >> 1 == v && Bit(Twice(v)) == 0
  {
  }

  lemma FourTimes(v: Word)
    requires v <= 0x7FF_FFFF_FFFF
    ensures v << 4 == Twice(Twice(Twice(Twice(v))))
    ensures Twice(v) <= 0x7FFF_FFFF_FFFF && Twice(Twice(v)) <= 0x7FFF_FFFF_FFFF && Twice(Twice(Twice(v))) <= 0x7FFF_FFFF_FFFF
  {
  }

  lemma Shift4Value(v: Word)
    requires v <= 0x7FF_FFFF_FFFF
    ensures Value(v << 4) == 16 * Value(v)
  {
    hide Twice, Value;
    FourTimes(v);
    TwiceValue(v);
    TwiceValue(Twice(v));
    TwiceValue(Twice(Twice(v)));
    TwiceValue(Twice(Twice(Twice(v))));
  }

  lemma ShiftValue(v: Word)
    requires v <= 0x7F_FFFF_FFFF
    ensures Value(v << 8) == 256 * Value(v)
  {
    Shift4Value(v);
    assert v << 4 <= 0x7FF_FFFF_FFFF && v << 8 == (v << 4) << 4;
    Shift4Value(v << 4);
    hide Value;
  }

  /** The lowest byte, and the rest. */
  lemma LowByte(v: Word)
    requires v <= 0xFFF_FFFF_FFFF
    ensures Value(v) == 256 * Value(v >> 8) + Value(v & 255) && Value(v & 255) < 256
  {
    var h, l := v >> 8, v & 255;
    assert h <= 0xF_FFFF_FFFF && l <= 255 && h << 8 <= 0xFFF_FFFF_FFFF && Plus(h << 8, l) == v;
    hide Value, Plus;
    ShiftValue(h);
    SumValue(h << 8, l, Value(l));
    ByteValue(l);
    ByteSmall(l);
  }

  lemma Below16(v: Word)
    requires v <= 0xFFFF
    ensures Value(v) < 65536
  {
    var h := v >> 8;
    assert h <= 255;
    hide Value;
    LowByte(v);
    ByteValue(h);
    ByteSmall(h);
  }

  lemma Below24(v: Word)
    requires v <= 0xFF_FFFF
    ensures Value(v) < 16777216
  {
    var h := v >> 8;
    assert h <= 0xFFFF;
    hide Value;
    LowByte(v);
    Below16(h);
  }

  lemma Below32(v: Word)
    requires v <= LOW
    ensures Value(v) < TWO_32
  {
    var h := v >> 8;
    assert h <= 0xFF_FFFF;
    hide Value;
    LowByte(v);
    Below24(h);
  }

  function Byte1(v: Word): Word {
    v << 8
  }

  lemma FourBytesUp(v: Word)
    requires v <= 0xFFF
    ensures v << 32 == Byte1(Byte1(Byte1(Byte1(v))))
    ensures Byte1(v) <= 0x7F_FFFF_FFFF && Byte1(Byte1(v)) <= 0x7F_FFFF_FFFF && Byte1(Byte1(Byte1(v))) <= 0x7F_FFFF_FFFF
  {
  }

  lemma Byte1Value(v: Word)
    requires v <= 0x7F_FFFF_FFFF
    ensures Value(Byte1(v)) == 256 * Value(v)
  {
    ShiftValue(v);
    hide Value;
  }

  lemma Shift32Value(v: Word)
    requires v <= 0xFFF
    ensures Value(v << 32) == TWO_32 * Value(v)
  {
    hide Value, Byte1;
    FourBytesUp(v);
    Byte1Value(v);
    Byte1Value(Byte1(v));
    Byte1Value(Byte1(Byte1(v)));
    Byte1Value(Byte1(Byte1(Byte1(v))));
  }

  /** `% TWO_32`. */
  lemma CutValue(v: Word)
    requires v <= 0xFFF_FFFF_FFFF
    ensures Value(v & LOW) == Value(v) % TWO_32
  {
    var h, l := v >> 32, v & LOW;
    assert h <= 0xFFF && l <= LOW && h << 32 <= 0xFFF_FFFF_FFFF && Plus(h << 32, l) == v;
    hide Value, Plus;
    Shift32Value(h);
    SumValue(h << 32, l, Value(l));
    Below32(l);
    Divided(Value(v), TWO_32, Value(h), Value(l));
  }

  // ---------------------------------------------------------------- a step of the fold

  const MASK: Word := 1463735687
  const MASK2: Word := 1653893711

  function Shifted(v: Word): Word {
    (v << 8) & LOW
  }

  function Sum(v: Word, w: Word): Word {
    (v + w) & LOW
  }

  function XorOf(v: Word, w: Word): Word {
    v ^ w
  }

  /** ut_fold_ulint_pair for 32 bits. */
  function Step(v: Word, n: Word): Word {
    Sum(XorOf(Sum(Shifted(XorOf(XorOf(v, n), MASK2)), v), MASK), n)
  }

  lemma AndByte(v: Word, d: Word)
    requires v <= 0xFF_FFFF && d <= 255
    ensures Value(Plus(Byte1(v), d)) == 256 * Value(v) + AsNat(d)
  {
    Bounds(v, d);
    hide Value, Byte1, Plus;
    Byte1Value(v);
    ByteValue(d);
    SumValue(Byte1(v), d, Value(d));
  }

  lemma Bounds(v: Word, d: Word)
    requires v <= 0xFF_FFFF && d <= 255
    ensures v <= 0x7F_FFFF_FFFF && Byte1(v) <= 0xFFF_FFFF_FFFF && d <= 0xFFF_FFFF_FFFF
  {
  }

  lemma Masks()
    ensures Value(MASK) == UT_HASH_RANDOM_MASK && Value(MASK2) == UT_HASH_RANDOM_MASK2
  {
    assert MASK == Plus(Byte1(0x573ED5), 0x87) && 0x573ED5 == Plus(Byte1(0x573E), 0xD5) && 0x573E == Plus(Byte1(0x57), 0x3E);
    assert MASK2 == Plus(Byte1(0x62946A), 0x4F) && 0x62946A == Plus(Byte1(0x6294), 0x6A) && 0x6294 == Plus(Byte1(0x62), 0x94);
    hide Value, Plus, Byte1;
    ByteValue(0x57);
    AndByte(0x57, 0x3E);
    AndByte(0x573E, 0xD5);
    AndByte(0x573ED5, 0x87);
    ByteValue(0x62);
    AndByte(0x62, 0x94);
    AndByte(0x6294, 0x6A);
    AndByte(0x62946A, 0x4F);
  }

  lemma ShiftedValue(v: Word)
    requires v <= LOW
    ensures Shifted(v) <= LOW && Value(Shifted(v)) == Value(v) * 256 % TWO_32
  {
    assert v << 8 <= 0xFFF_FFFF_FFFF;
    ShiftValue(v);
    CutValue(v << 8);
    hide Value;
  }

  lemma SumOf(v: Word, w: Word)
    requires v <= LOW && w <= LOW
    ensures Sum(v, w) <= LOW && Value(Sum(v, w)) == (Value(v) + Value(w)) % TWO_32
  {
    assert Plus(v, w) <= 0xFFF_FFFF_FFFF;
    SumValue(v, w, Value(w));
    CutValue(Plus(v, w));
    hide Value;
  }

  lemma XorOfValue(v: Word, w: Word)
    requires v <= LOW && w <= LOW
    ensures XorOf(v, w) <= LOW && Value(XorOf(v, w)) == Xor(Value(v), Value(w))
  {
    XorValue(v, w, Value(v) + Value(w));
    hide Value, Xor;
  }

  lemma MasksLow(n: Word)
    ensures MASK <= LOW && MASK2 <= LOW && (n <= 255 ==> n <= LOW)
  {
  }

  lemma MixedValue(v: Word, n: Word)
    requires v <= LOW && n <= 255
    ensures var x := XorOf(XorOf(v, n), MASK2); x <= LOW && Value(x) == Mixed(Value(v), Value(n))
  {
    hide Value, XorOf, Xor;
    Masks();
    MasksLow(n);
    XorOfValue(v, n);
    XorOfValue(XorOf(v, n), MASK2);
  }

  lemma InnerValue(v: Word, n: Word)
    requires v <= LOW && n <= 255
    ensures var t := Sum(Shifted(XorOf(XorOf(v, n), MASK2)), v); t <= LOW && Value(t) == Inner(TWO_32, Value(v), Value(n))
  {
    hide Value, Shifted, Sum, XorOf, Xor, Mixed;
    var x := XorOf(XorOf(v, n), MASK2);
    MixedValue(v, n);
    ShiftedValue(x);
    SumOf(Shifted(x), v);
  }

  lemma StepValue(v: Word, n: Word)
    requires v <= LOW && n <= 255
    ensures Step(v, n) <= LOW && Value(Step(v, n)) == FoldPair(TWO_32, Value(v), Value(n))
  {
    hide Value, Xor, Shifted, Sum, XorOf;
    MasksLow(n);
    InnerValue(v, n);
    hide Inner, FoldPair;
    InnerMeans(Value(v), Value(n));
    Masks();
    LastValue(Sum(Shifted(XorOf(XorOf(v, n), MASK2)), v), n);
  }

  lemma LastValue(t: Word, n: Word)
    requires t <= LOW && n <= LOW
    ensures var r := Sum(XorOf(t, MASK), n); r <= LOW && Value(r) == (Xor(Value(t), Value(MASK)) + Value(n)) % TWO_32
  {
    hide Value, Xor, Sum, XorOf;
    MasksLow(n);
    XorOfValue(t, MASK);
    SumOf(XorOf(t, MASK), n);
  }

  lemma InnerMeans(a: nat, n: nat)
    ensures FoldPair(TWO_32, a, n) == (Xor(Inner(TWO_32, a, n), UT_HASH_RANDOM_MASK) + n) % TWO_32
  {
    hide Xor;
  }
}
