/** A page that innochecksum accepts, and an accepted change of each kind. */
module PageWitness {
  import opened Prelude
  import opened PageFold
  import opened PageBits
  import opened Innochecksum

  // ---------------------------------------------------------------- folding piece by piece

  lemma {:induction false} FoldBoth(word: nat, fold: nat, x: seq<Byte>, y: seq<Byte>)
    requires IsWord(word)
    ensures FoldFrom(word, fold, x + y) == FoldFrom(word, FoldFrom(word, fold, x), y)
    decreases |x|
  {
    if x == [] {
      assert x + y == y;
    } else {
      assert (x + y)[1..] == x[1..] + y;
      hide FoldPair;
      FoldBoth(word, FoldPair(word, fold, x[0]), x[1..], y);
    }
  }

  /** A value that the byte `x` leaves as it is. */
  lemma {:induction false} FoldStays(fold: nat, x: Byte, n: nat)
    requires FoldPair(TWO_32, fold, x) == fold
    ensures FoldFrom(TWO_32, fold, seq(n, _ => x)) == fold
    decreases n
  {
    if n > 0 {
      assert seq(n, _ => x)[1..] == seq(n - 1, _ => x);
      hide FoldPair;
      FoldStays(fold, x, n - 1);
    }
  }

  /** The lower 32 bits are the same with a ulint of 64 bits. */
  lemma {:induction false} FoldLow(word: nat, a: nat, b: nat, bytes: seq<Byte>)
    requires IsWord(word) && Same(a, b, TWO_32)
    ensures Same(FoldFrom(word, a, bytes), FoldFrom(TWO_32, b, bytes), TWO_32)
    decreases |bytes|
  {
    if bytes != [] {
      hide Same, FoldPair;
      FoldPairLow(word, a, b, bytes[0]);
      FoldLow(word, FoldPair(word, a, bytes[0]), FoldPair(TWO_32, b, bytes[0]), bytes[1..]);
    }
  }

  lemma FoldPairLow(word: nat, a: nat, b: nat, x: Byte)
    requires IsWord(word) && Same(a, b, TWO_32)
    ensures Same(FoldPair(word, a, x), FoldPair(TWO_32, b, x), TWO_32)
  {
    hide FoldPair, Inner, Mixed, Xor;
    Powers();
    MixedSame(a, b, x, 32);
    InnerSame(word, a, x);
    InnerSame(TWO_32, b, x);
    TimesLow(Mixed(a, x), Mixed(b, x));
    SumLow(Mixed(a, x) * 256, Mixed(b, x) * 256, a, b);
    XorSame(Inner(word, a, x), Inner(TWO_32, b, x), UT_HASH_RANDOM_MASK, 32);
    FoldPairSame(word, a, x);
    FoldPairSame(TWO_32, b, x);
    SumLow(Xor(Inner(word, a, x), UT_HASH_RANDOM_MASK), Xor(Inner(TWO_32, b, x), UT_HASH_RANDOM_MASK), x, x);
  }

  lemma TimesLow(a: nat, b: nat)
    requires Same(a, b, TWO_32)
    ensures Same(a * 256, b * 256, TWO_32)
  {
    var d := SameGives(a, b, TWO_32);
    SameIf(a * 256, b * 256, TWO_32, d * 256);
  }

  lemma SumLow(a: nat, b: nat, x: nat, y: nat)
    requires Same(a, b, TWO_32) && Same(x, y, TWO_32)
    ensures Same(a + x, b + y, TWO_32)
  {
    var d := SameGives(a, b, TWO_32);
    var e := SameGives(x, y, TWO_32);
    SameIf(a + x, b + y, TWO_32, d + e);
  }

  function Four(v: Word, a: Word, b: Word, c: Word, d: Word): Word {
    Step(Step(Step(Step(v, a), b), c), d)
  }

  lemma FoldOne(fold: nat, x: Byte)
    ensures FoldFrom(TWO_32, fold, [x]) == FoldPair(TWO_32, fold, x)
  {
    hide FoldPair;
    assert [x][1..] == [];
  }

  lemma TwoBytes(v: Word, a: Word, b: Word, bytes: seq<Byte>)
    requires v <= LOW && a <= 255 && b <= 255 && bytes == [AsNat(a), AsNat(b)]
    ensures FoldFrom(TWO_32, Value(v), bytes) == Value(Step(Step(v, a), b)) && Step(Step(v, a), b) <= LOW
  {
    hide Value, Step, FoldPair, FoldFrom, AsNat;
    ByteValue(a);
    ByteValue(b);
    StepValue(v, a);
    StepValue(Step(v, a), b);
    FoldOne(Value(v), bytes[0]);
    FoldOne(Value(Step(v, a)), bytes[1]);
    FoldBoth(TWO_32, Value(v), [bytes[0]], [bytes[1]]);
    assert bytes == [bytes[0]] + [bytes[1]];
  }

  lemma FourBytes(v: Word, a: Word, b: Word, c: Word, d: Word, bytes: seq<Byte>)
    requires v <= LOW && a <= 255 && b <= 255 && c <= 255 && d <= 255
    requires bytes == [AsNat(a), AsNat(b), AsNat(c), AsNat(d)]
    ensures FoldFrom(TWO_32, Value(v), bytes) == Value(Four(v, a, b, c, d)) && Four(v, a, b, c, d) <= LOW
  {
    hide Value, Step, FoldFrom, AsNat;
    var x, y := bytes[..2], bytes[2..];
    TwoBytes(v, a, b, x);
    TwoBytes(Step(Step(v, a), b), c, d, y);
    FoldBoth(TWO_32, Value(v), x, y);
    assert bytes == x + y;
  }

  // ---------------------------------------------------------------- the page

  const ZEROS: seq<Byte> := [0, 0, 0, 0]
  const START: seq<Byte> := [0, 0, 0, 1]
  const LSN: seq<Byte> := [0, 0, 0, 6]
  const TYPE: seq<Byte> := [183, 80]

  /** Bytes 4 to 25. */
  function Header(): seq<Byte> {
    ZEROS + (ZEROS + (ZEROS + (ZEROS + (LSN + TYPE))))
  }

  lemma Next(fold: nat, v: Word, first: seq<Byte>, rest: seq<Byte>)
    requires FoldFrom(TWO_32, fold, first) == Value(v)
    ensures FoldFrom(TWO_32, fold, first + rest) == FoldFrom(TWO_32, Value(v), rest)
  {
    hide FoldFrom, Value;
    FoldBoth(TWO_32, fold, first, rest);
  }

  /** From `s0` over the header, through the values after every four bytes. */
  lemma HeaderFold(s0: Word, s1: Word, s2: Word, s3: Word, s4: Word, s5: Word, s6: Word)
    requires s0 <= LOW && s1 == Four(s0, 0, 0, 0, 0) && s2 == Four(s1, 0, 0, 0, 0)
    requires s3 == Four(s2, 0, 0, 0, 0) && s4 == Four(s3, 0, 0, 0, 0) && s5 == Four(s4, 0, 0, 0, 6) && s6 == Step(Step(s5, 183), 80)
    ensures FoldFrom(TWO_32, Value(s0), Header()) == Value(s6) && s6 <= LOW
  {
    hide FoldFrom, Value, Four, Step;
    FourBytes(s0, 0, 0, 0, 0, ZEROS);
    FourBytes(s1, 0, 0, 0, 0, ZEROS);
    FourBytes(s2, 0, 0, 0, 0, ZEROS);
    FourBytes(s3, 0, 0, 0, 0, ZEROS);
    FourBytes(s4, 0, 0, 0, 6, LSN);
    TwoBytes(s5, 183, 80, TYPE);
    Next(Value(s0), s1, ZEROS, ZEROS + (ZEROS + (ZEROS + (LSN + TYPE))));
    Next(Value(s1), s2, ZEROS, ZEROS + (ZEROS + (LSN + TYPE)));
    Next(Value(s2), s3, ZEROS, ZEROS + (LSN + TYPE));
    Next(Value(s3), s4, ZEROS, LSN + TYPE);
    Next(Value(s4), s5, LSN, TYPE);
  }

  lemma HeaderFromNothing()
    ensures FoldFrom(TWO_32, 0, Header()) == Value(0xAC50130F)
  {
    assert Four(0, 0, 0, 0, 0) == 0xDF1F4E00 && Four(0xDF1F4E00, 0, 0, 0, 0) == 0x47225C00;
    assert Four(0x47225C00, 0, 0, 0, 0) == 0x09632A00 && Four(0x09632A00, 0, 0, 0, 0) == 0xB6543800;
    assert Four(0xB6543800, 0, 0, 0, 6) == 0xB6734C06 && Step(Step(0xB6734C06, 183), 80) == 0xAC50130F;
    assert Value(0) == 0;
    hide Four, Step, FoldFrom, Value;
    HeaderFold(0, 0xDF1F4E00, 0x47225C00, 0x09632A00, 0xB6543800, 0xB6734C06, 0xAC50130F);
  }

  lemma HeaderFromStart()
    ensures FoldFrom(TWO_32, 0, START + Header()) == Value(0x73000000)
  {
    assert Four(0, 0, 0, 0, 1) == 0xDF1F4901;
    assert Four(0xDF1F4901, 0, 0, 0, 0) == 0x873C1701 && Four(0x873C1701, 0, 0, 0, 0) == 0x2C5F2D01;
    assert Four(0x2C5F2D01, 0, 0, 0, 0) == 0x715A3B01 && Four(0x715A3B01, 0, 0, 0, 0) == 0x4D0B6101;
    assert Four(0x4D0B6101, 0, 0, 0, 6) == 0xDBA7D507 && Step(Step(0xDBA7D507, 183), 80) == 0x73000000;
    assert Value(0) == 0;
    hide Four, Step, FoldFrom, Value;
    FourBytes(0, 0, 0, 0, 1, START);
    Next(0, 0xDF1F4901, START, Header());
    HeaderFold(0xDF1F4901, 0x873C1701, 0x2C5F2D01, 0x715A3B01, 0x4D0B6101, 0xDBA7D507, 0x73000000);
  }

  const FIRST: seq<Byte> := [253, 85, 100, 191]
  const LAST: seq<Byte> := [216, 149, 199, 57]

  /** Bytes 38 to 16375. */
  function Data(): seq<Byte> {
    FIRST + (seq(16330, _ => 127) + LAST)
  }

  lemma DataFold()
    ensures FoldFrom(TWO_32, 0, Data()) == Value(0x53AFECF2)
  {
    assert Four(0, 253, 85, 100, 191) == 0x58229383 && Step(0x58229383, 127) == 0x58229383;
    assert Four(0x58229383, 216, 149, 199, 57) == 0x53AFECF2;
    assert Value(0) == 0;
    hide Four, Step, FoldFrom, FoldPair, Value;
    FourBytes(0, 253, 85, 100, 191, FIRST);
    StepValue(0x58229383, 127);
    ByteValue(127);
    FoldStays(Value(0x58229383), 127, 16330);
    FourBytes(0x58229383, 216, 149, 199, 57, LAST);
    Next(0, 0x58229383, FIRST, seq(16330, _ => 127) + LAST);
    Next(Value(0x58229383), 0x58229383, seq(16330, _ => 127), LAST);
  }

  function Witness(): (p: Page) {
    START + Header() + seq(12, _ => 0) + Data() + ZEROS + LSN
  }

  lemma WitnessParts()
    ensures Witness()[..26] == START + Header() && Witness()[4..26] == Header() && Witness()[38..16376] == Data()
    ensures Witness()[0..4] == START && Witness()[16..20] == ZEROS && Witness()[20..24] == LSN
    ensures Witness()[16376..16380] == ZEROS && Witness()[16380..16384] == LSN
    ensures Witness()[30] == 0
  {
  }

  lemma FieldIs(p: Page, at: nat, high: Byte, low: Byte)
    requires at + 4 <= |p| && p[at..at + 4] == [high, 0, 0, low]
    ensures ReadFrom4(p, at) == high * 16777216 + low
  {
    var q := p[at..at + 4];
    assert p[at] == q[0] && p[at + 1] == q[1] && p[at + 2] == q[2] && p[at + 3] == q[3];
  }

  /** What is stored in the page. */
  predicate Stored(p: Page, sum: nat, old': nat) {
    NewField(p) == sum && OldField(p) == old' && LsnHigh(p) == 0 && LsnLow(p) == EndLsn(p) == 6
  }

  lemma StoredIn(p: Page, sum: Byte, old': Byte)
    requires p[0..4] == [0, 0, 0, sum] && p[16..20] == [0, 0, 0, 0] && p[20..24] == [0, 0, 0, 6]
    requires p[16376..16380] == [old', 0, 0, 0] && p[16380..16384] == [0, 0, 0, 6]
    ensures Stored(p, sum, old' * 16777216)
  {
    hide ReadFrom4;
    FieldIs(p, 0, 0, sum);
    FieldIs(p, 16, 0, 0);
    FieldIs(p, 20, 0, 6);
    FieldIs(p, 16376, old', 0);
    FieldIs(p, 16380, 0, 6);
  }

  lemma StoredAfter(p: Page)
    requires p[0..4] == [0, 0, 0, 1] && p[16..20] == [0, 0, 0, 0] && p[20..24] == [0, 0, 0, 6]
    requires p[16376..16380] == [0, 0, 0, 0] && p[16380..16384] == [0, 0, 0, 6]
    ensures Stored(p, 1, 0) && Stored(p[3 := 0], 0, 0) && Stored(p[16376 := 0x73], 1, 0x73000000)
    ensures p[3] == 1 && p[16376] == 0
  {
    hide Stored;
    assert p[3] == p[0..4][3] && p[16376] == p[16376..16380][0];
    StoredIn(p, 1, 0);
    SliceChanged(p, 3, 0, 0, 4);
    SliceChanged(p, 3, 0, 16, 20);
    SliceChanged(p, 3, 0, 20, 24);
    SliceChanged(p, 3, 0, 16376, 16380);
    SliceChanged(p, 3, 0, 16380, 16384);
    StoredIn(p[3 := 0], 0, 0);
    SliceChanged(p, 16376, 0x73, 0, 4);
    SliceChanged(p, 16376, 0x73, 16, 20);
    SliceChanged(p, 16376, 0x73, 20, 24);
    SliceChanged(p, 16376, 0x73, 16376, 16380);
    SliceChanged(p, 16376, 0x73, 16380, 16384);
    StoredIn(p[16376 := 0x73], 1, 0x73);
  }

  lemma OldValue()
    ensures Value(0x73000000) == 0x73000000
  {
    assert 0x73000000 == Plus(Byte1(0x730000), 0) && 0x730000 == Plus(Byte1(0x7300), 0) && 0x7300 == Plus(Byte1(0x73), 0);
    hide Value, Plus, Byte1;
    ByteValue(0x73);
    AndByte(0x73, 0);
    AndByte(0x7300, 0);
    AndByte(0x730000, 0);
  }

  lemma WitnessSums(word: nat)
    requires IsWord(word)
    ensures NewChecksum(word, Witness()) == 1 && OldChecksum(word, Witness()) == 0x73000000
  {
    WitnessParts();
    hide Witness, FoldFrom, Value, Header, Data, Sum;
    assert Same(0, 0, TWO_32);
    FoldLow(word, 0, 0, START + Header());
    HeaderFromStart();
    OldValue();
    FoldLow(word, 0, 0, Header());
    FoldLow(word, 0, 0, Data());
    HeaderFromNothing();
    DataFold();
    var a, b := FoldFrom(word, 0, Header()), FoldFrom(word, 0, Data());
    SumLow(a, Value(0xAC50130F), b, Value(0x53AFECF2));
    CutOff(word, a + b);
    SumOfBoth();
  }

  lemma SumOfBoth()
    ensures (Value(0xAC50130F) + Value(0x53AFECF2)) % TWO_32 == 1
  {
    assert Sum(0xAC50130F, 0x53AFECF2) == 1;
    hide Value, Sum;
    SumOf(0xAC50130F, 0x53AFECF2);
    ByteValue(1);
  }

  lemma Accepted(word: nat, p: Page)
    requires IsWord(word) && Stored(p, 1, 0) && NewChecksum(word, p) == 1
    ensures Judge(word, p) == Okay && NewField(p) != 0
  {
  }

  lemma StillAccepted(word: nat, p: Page)
    requires IsWord(word) && Judge(word, p) == Okay && p[30] == 0 && p[3] == 1 && p[16376] == 0
    requires Stored(p, 1, 0) && Stored(p[3 := 0], 0, 0) && Stored(p[16376 := 0x73], 1, 0x73000000)
    requires OldChecksum(word, p) == 0x73000000
    ensures Judge(word, p[30 := 1]) == Okay
    ensures Judge(word, p[3 := 0]) == Okay
    ensures Judge(word, p[16376 := 0x73]) == Okay && OldChecksum(word, p[16376 := 0x73]) == 0x73000000
  {
    hide Judge, OldChecksum, NewField, OldField, LsnHigh, LsnLow, EndLsn;
    OneByteChanged(word, p, 30, 1);
    OneByteChanged(word, p, 3, 0);
    OneByteChanged(word, p, 16376, 0x73);
    OldChecksumChanged(word, p, 16376, 0x73);
  }

  /** There is a page with a checksum that is accepted, and each of the three ways in which one
      changed byte can go unnoticed occurs with it. */
  lemma EachChangeOccurs(word: nat)
    requires IsWord(word)
    ensures var p := Witness(); Judge(word, p) == Okay && NewField(p) != 0
    ensures Judge(word, Witness()[30 := 1]) == Okay
    ensures var q := Witness()[3 := 0]; Judge(word, q) == Okay && NewField(q) == 0
    ensures var q := Witness()[16376 := 0x73]; Judge(word, q) == Okay && OldField(q) == OldChecksum(word, q) != LsnHigh(q)
  {
    WitnessParts();
    WitnessSums(word);
    hide Witness, Judge, NewChecksum, OldChecksum, NewField, OldField, LsnHigh, LsnLow, EndLsn, Header, Data;
    StoredAfter(Witness());
    Accepted(word, Witness());
    StillAccepted(word, Witness());
  }
}
