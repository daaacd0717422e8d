/** The loops of init_replace over the bits of a set (extra/replace.c). */
module ReplaceBits {
  import opened Prelude
  import opened ReplaceStates

  type Bits = seq<bool>

  /** get_next_bit: the next bit set behind `lastpos`, 0 if there is none. */
  method GetNextBit(bits: Bits, lastpos: int) returns (pos: nat)
    requires -1 <= lastpos < |bits| && (|bits| > 0 ==> !bits[0])
    ensures pos == 0 ==> forall b | lastpos < b < |bits| :: !bits[b]
    ensures pos != 0 ==> lastpos < pos < |bits| && bits[pos] && forall b | lastpos < b < pos :: !bits[b]
  {
    pos := lastpos + 1;
    while pos < |bits| && !bits[pos]
      invariant lastpos < pos <= |bits|
      invariant forall b | lastpos < b < pos :: !bits[b]
    {
      pos := pos + 1;
    }
    if pos == |bits| {
      pos := 0;
    }
  }

  /** How far a loop over the bits has come when it is about to look at `i`. */
  function Reached(bits: Bits, i: nat): nat {
    if i == 0 then |bits| else i
  }

  // ---------------------------------------------------------------- the default state

  /** Whether an occurrence has been found on the way to this set. */
  method HasEnd(follow: seq<Follow>, bits: Bits) returns (has: bool)
    requires |bits| == |follow| && (|bits| > 0 ==> !bits[0])
    ensures has <==> exists b :: 0 <= b < |bits| && bits[b] && follow[b].chr == 0
  {
    has := false;
    if |bits| == 0 {
      return;
    }
    var i: nat := GetNextBit(bits, -1);
    while i != 0
      invariant i != 0 ==> i < |bits| && bits[i]
      invariant has <==> exists b :: 0 <= b < Reached(bits, i) && bits[b] && follow[b].chr == 0
      decreases |bits| - Reached(bits, i)
    {
      if follow[i].chr == 0 {
        has := true;
      }
      i := GetNextBit(bits, i);
    }
  }

  // ---------------------------------------------------------------- the next set

  /** A state of the set after byte `c`: a completed string stays, others move on with `c`. */
  predicate NextBit(follow: seq<Follow>, used: Bits, c: Byte, t: nat)
    requires |used| == |follow| && t < |used|
  {
    || (used[t] && follow[t].chr == 0)
    || (c != 0 && t > 0 && used[t - 1] && follow[t - 1].chr == c)
  }

  /** The same, counting only the states below `n`. */
  predicate NextBitFrom(follow: seq<Follow>, used: Bits, c: Byte, n: nat, t: nat)
    requires |used| == |follow| && t < |used|
  {
    || (t < n && used[t] && follow[t].chr == 0)
    || (c != 0 && 0 < t <= n && used[t - 1] && follow[t - 1].chr == c)
  }

  /** The states a byte `c` completes: for the end of the text, those completed before. */
  predicate Ending(follow: seq<Follow>, used: Bits, c: Byte, b: nat)
    requires |used| == |follow| && b < |used|
  {
    used[b] && follow[b].chr == c && (c != 0 ==> b + 1 < |follow| && follow[b + 1].chr == 0)
  }

  /** A string is never followed by the end of the table: its last place is its end. */
  ghost predicate Closed(follow: seq<Follow>) {
    forall b | 0 < b < |follow| && follow[b].chr != 0 :: b + 1 < |follow|
  }

  method Advance(follow: seq<Follow>, used: Bits, c: Byte) returns (bits: Bits, foundEnd: nat)
    requires |used| == |follow| > 0 && !used[0] && Closed(follow)
    ensures |bits| == |used| && forall t: nat | t < |used| :: bits[t] <==> NextBit(follow, used, c, t)
    ensures forall b: nat | b < |used| && Ending(follow, used, c, b) :: follow[b].len <= foundEnd
    ensures foundEnd > 0 ==> exists b: nat :: b < |used| && Ending(follow, used, c, b) && follow[b].len == foundEnd
  {
    bits := seq(|used|, _ => false);
    foundEnd := 0;
    var i: nat := GetNextBit(used, -1);
    while i != 0
      invariant i != 0 ==> i < |used| && used[i]
      invariant |bits| == |used|
      invariant forall t: nat | t < |used| :: bits[t] <==> NextBitFrom(follow, used, c, Reached(used, i), t)
      invariant forall b: nat | b < Reached(used, i) && Ending(follow, used, c, b) :: follow[b].len <= foundEnd
      invariant foundEnd > 0 ==> exists b: nat :: b < |used| && Ending(follow, used, c, b) && follow[b].len == foundEnd
      decreases |used| - Reached(used, i)
    {
      if follow[i].chr == 0 || follow[i].chr == c {
        if (c == 0 || (follow[i].chr != 0 && follow[i + 1].chr == 0)) && follow[i].len > foundEnd {
          foundEnd := follow[i].len;
          assert Ending(follow, used, c, i);
        }
        if c != 0 && follow[i].chr != 0 {
          bits := bits[i + 1 := true];
        } else {
          bits := bits[i := true];
        }
      }
      ghost var done := i + 1;
      assert forall t: nat | t < |used| :: bits[t] <==> NextBitFrom(follow, used, c, done, t);
      i := GetNextBit(used, i);
      assert forall t: nat | t < |used| :: NextBitFrom(follow, used, c, done, t) <==> NextBitFrom(follow, used, c, Reached(used, i), t);
    }
  }

  // ---------------------------------------------------------------- pruning

  /** The state started no later than the string just completed. */
  predicate EarlyEnough(follow: seq<Follow>, bits: Bits, foundEnd: nat, t: nat)
    requires |bits| == |follow|
  {
    0 < t < |bits| && bits[t] && follow[t - 1].len >= foundEnd
  }

  predicate EndState(follow: seq<Follow>, c: Byte, t: nat)
    requires t < |follow|
  {
    c == 0 || follow[t].chr == 0
  }

  ghost predicate NoneEnded(follow: seq<Follow>, bits: Bits, foundEnd: nat, c: Byte, n: nat)
    requires |bits| == |follow| && n <= |bits|
  {
    forall u: nat | u < n :: EarlyEnough(follow, bits, foundEnd, u) ==> !EndState(follow, c, u)
  }

  /** Of the states that started early enough all stay, but only the first completed one. */
  ghost predicate Kept(follow: seq<Follow>, bits: Bits, foundEnd: nat, c: Byte, t: nat)
    requires |bits| == |follow| && t < |bits|
  {
    EarlyEnough(follow, bits, foundEnd, t) && (EndState(follow, c, t) ==> NoneEnded(follow, bits, foundEnd, c, t))
  }

  ghost function KeptBelow(follow: seq<Follow>, bits: Bits, foundEnd: nat, c: Byte, n: nat): set<int>
    requires |bits| == |follow|
  {
    set t: int | 0 <= t < |bits| && t < n && Kept(follow, bits, foundEnd, c, t)
  }

  /** What the loop has done when the bits below `n` are dealt with. */
  ghost predicate PrunedBelow(follow: seq<Follow>, bits: Bits, foundEnd: nat, c: Byte, n: nat, kept: Bits, tableOffset: int, bitsSet: nat)
    requires |bits| == |follow| && n <= |bits|
  {
    && |kept| == |bits|
    && (forall t: nat | t < |bits| :: kept[t] <==> if t < n then Kept(follow, bits, foundEnd, c, t) else bits[t])
    && (forall t: nat | t < n && Kept(follow, bits, foundEnd, c, t) && EndState(follow, c, t) :: tableOffset == follow[t].tableOffset)
    && bitsSet == |KeptBelow(follow, bits, foundEnd, c, n)|
  }

  /** The loop that runs when byte `c` completed a string of `foundEnd` bytes. */
  method Prune(follow: seq<Follow>, bits: Bits, foundEnd: nat, c: Byte, oldTable: int) returns (kept: Bits, tableOffset: int, bitsSet: nat)
    requires |bits| == |follow| > 0 && !bits[0] && foundEnd > 0
    ensures |kept| == |bits| && forall t: nat | t < |bits| :: kept[t] <==> Kept(follow, bits, foundEnd, c, t)
    ensures forall t: nat | t < |bits| && kept[t] && EndState(follow, c, t) :: tableOffset == follow[t].tableOffset
    ensures bitsSet == |KeptBelow(follow, bits, foundEnd, c, |bits|)|
  {
    kept, tableOffset, bitsSet := bits, oldTable, 0;
    var foundLen := 0;
    var i: nat := GetNextBit(bits, -1);
    assert KeptBelow(follow, bits, foundEnd, c, 0) == {};
    SkipUnset(follow, bits, foundEnd, c, 0, Reached(bits, i), kept, tableOffset, bitsSet);
    while i != 0
      invariant i != 0 ==> i < |bits| && bits[i]
      invariant PrunedBelow(follow, bits, foundEnd, c, Reached(bits, i), kept, tableOffset, bitsSet)
      invariant foundLen == 0 <==> NoneEnded(follow, bits, foundEnd, c, Reached(bits, i))
      decreases |bits| - Reached(bits, i)
    {
      hide PrunedBelow, NoneEnded, KeptBelow, Kept, EndState;
      PruneOne(follow, bits, foundEnd, c, i, kept, tableOffset, bitsSet);
      if follow[i - 1].len < foundEnd || (foundLen != 0 && (c == 0 || follow[i].chr == 0)) {
        kept := kept[i := false];
      } else {
        if c == 0 || follow[i].chr == 0 {
          tableOffset := follow[i].tableOffset;
          foundLen := foundEnd;
        }
        bitsSet := bitsSet + 1;
      }
      ghost var next := i + 1;
      i := GetNextBit(bits, i);
      SkipUnset(follow, bits, foundEnd, c, next, Reached(bits, i), kept, tableOffset, bitsSet);
    }
  }

  /** What the loop has to do with bit `i`. */
  lemma PruneOne(follow: seq<Follow>, bits: Bits, foundEnd: nat, c: Byte, i: nat, kept: Bits, tableOffset: int, bitsSet: nat)
    requires |bits| == |follow| && 0 < i < |bits| && bits[i]
    requires PrunedBelow(follow, bits, foundEnd, c, i, kept, tableOffset, bitsSet)
    ensures |kept| == |bits|
    ensures var early, end, none := follow[i - 1].len >= foundEnd, (c == 0 || follow[i].chr == 0), NoneEnded(follow, bits, foundEnd, c, i);
      && (NoneEnded(follow, bits, foundEnd, c, i + 1) <==> none && !(early && end))
      && (!early || (!none && end) ==> PrunedBelow(follow, bits, foundEnd, c, i + 1, kept[i := false], tableOffset, bitsSet))
      && (early && (none || !end) ==>
            PrunedBelow(follow, bits, foundEnd, c, i + 1, kept, if end then follow[i].tableOffset else tableOffset, bitsSet + 1))
  {
    hide KeptBelow, PrunedBelow;
    NextPruned(follow, bits, foundEnd, c, i, kept, tableOffset, bitsSet);
  }

  /** The state `i` stays or goes. */
  lemma NextPruned(follow: seq<Follow>, bits: Bits, foundEnd: nat, c: Byte, i: nat, kept: Bits, tableOffset: int, bitsSet: nat)
    requires |bits| == |follow| && 0 < i < |bits| && bits[i]
    requires PrunedBelow(follow, bits, foundEnd, c, i, kept, tableOffset, bitsSet)
    ensures |kept| == |bits|
    ensures if Kept(follow, bits, foundEnd, c, i)
      then PrunedBelow(follow, bits, foundEnd, c, i + 1, kept, if EndState(follow, c, i) then follow[i].tableOffset else tableOffset, bitsSet + 1)
      else PrunedBelow(follow, bits, foundEnd, c, i + 1, kept[i := false], tableOffset, bitsSet)
  {
    OneMoreKept(follow, bits, foundEnd, c, i);
    OnlyFirstEnd(follow, bits, foundEnd, c, i);
    hide KeptBelow, Kept, EndState;
  }

  lemma OnlyFirstEnd(follow: seq<Follow>, bits: Bits, foundEnd: nat, c: Byte, i: nat)
    requires |bits| == |follow| && i < |bits|
    ensures Kept(follow, bits, foundEnd, c, i) && EndState(follow, c, i) ==>
      forall t: nat | t < i && Kept(follow, bits, foundEnd, c, t) :: !EndState(follow, c, t)
  {
  }

  lemma OneMoreKept(follow: seq<Follow>, bits: Bits, foundEnd: nat, c: Byte, i: nat)
    requires |bits| == |follow| && i < |bits|
    ensures |KeptBelow(follow, bits, foundEnd, c, i + 1)|
            == |KeptBelow(follow, bits, foundEnd, c, i)| + if Kept(follow, bits, foundEnd, c, i) then 1 else 0
  {
    hide Kept;
    var below := KeptBelow(follow, bits, foundEnd, c, i);
    assert KeptBelow(follow, bits, foundEnd, c, i + 1) == if Kept(follow, bits, foundEnd, c, i) then below + {i as int} else below;
  }

  lemma SkipUnset(follow: seq<Follow>, bits: Bits, foundEnd: nat, c: Byte, n: nat, m: nat, kept: Bits, tableOffset: int, bitsSet: nat)
    requires |bits| == |follow| && n <= m <= |bits| && forall t | n <= t < m :: !bits[t]
    requires PrunedBelow(follow, bits, foundEnd, c, n, kept, tableOffset, bitsSet)
    ensures PrunedBelow(follow, bits, foundEnd, c, m, kept, tableOffset, bitsSet)
    ensures NoneEnded(follow, bits, foundEnd, c, m) <==> NoneEnded(follow, bits, foundEnd, c, n)
  {
    hide EndState;
    assert KeptBelow(follow, bits, foundEnd, c, m) == KeptBelow(follow, bits, foundEnd, c, n);
  }
}
