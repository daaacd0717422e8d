/**
 The sets of states that init_replace builds (extra/replace.c): a set describes the bytes read
 since the last replacement, and one more byte leads to the set that describes one byte more.
 */
module ReplaceSets {
  import opened Prelude
  import opened ReplaceSpec
  import opened ReplaceProgress
  import opened ReplaceStates
  import opened ReplaceBits

  /** REP_SET, without its `next` row, which is kept beside it. */
  datatype RepSet = RepSet(bits: Bits, tableOffset: int, foundOffset: int)

  /** FOUND_SET. */
  datatype FoundSet = FoundSet(tableOffset: int, foundOffset: int)

  ghost predicate MatchOf(from: seq<seq<Byte>>, w: seq<Byte>, j: nat) {
    exists a :: Best(from, w, Match(a, j))
  }

  /** Nothing found and nothing in progress: the machine is back at its start. */
  ghost predicate Fresh(from: seq<seq<Byte>>, w: seq<Byte>) {
    !HasMatch(from, w) && !Waiting(from, w)
  }

  /** Which states are in the set after `w`. */
  ghost predicate BitOn(from: seq<seq<Byte>>, w: seq<Byte>, s: State) {
    if Fresh(from, w) then s.count == 0 else InProgress(from, w, s.str, s.count) || EndOn(from, w, s)
  }

  ghost predicate EndOn(from: seq<seq<Byte>>, w: seq<Byte>, s: State) {
    s.str < |from| && s.count == |from[s.str]| && MatchOf(from, w, s.str)
  }

  ghost predicate BitsOf(from: seq<seq<Byte>>, w: seq<Byte>, bits: Bits) {
    && |bits| == StateCount(from) && !bits[0]
    && forall b: nat | 0 < b < |bits| :: bits[b] <==> BitOn(from, w, StateAt(from, b))
  }

  /** What is noted about the occurrence found: which from-string, and how far back it starts. */
  ghost predicate Noted(from: seq<seq<Byte>>, w: seq<Byte>, tableOffset: int, foundOffset: int) {
    forall m | Best(from, w, m) :: tableOffset == m.str && foundOffset == |w| - m.start
  }

  ghost predicate Describes(from: seq<seq<Byte>>, w: seq<Byte>, st: RepSet) {
    !Decided(from, w) && BitsOf(from, w, st.bits) && Noted(from, w, st.tableOffset, st.foundOffset)
  }

  // ---------------------------------------------------------------- the states a set uses

  ghost predicate UsedOn(from: seq<seq<Byte>>, w: seq<Byte>, s: State) {
    Used(from, w, s.str, s.count) || EndOn(from, w, s)
  }

  ghost predicate UsedBits(from: seq<seq<Byte>>, w: seq<Byte>, used: Bits) {
    && |used| == StateCount(from) && !used[0]
    && forall b: nat | 0 < b < |used| :: used[b] <==> UsedOn(from, w, StateAt(from, b))
  }

  lemma FollowAt(from: seq<seq<Byte>>, follow: seq<Follow>, b: nat)
    requires PlainStrings(from) && FollowsStates(from, follow) && 0 < b < |follow|
    ensures var s := StateAt(from, b);
      && s.str < |from| && s.count <= |from[s.str]|
      && follow[b] == FollowOf(from, s)
      && (follow[b].chr == 0 <==> s.count == |from[s.str]|)
      && (s.count < |from[s.str]| ==> b + 1 < |follow| && StateAt(from, b + 1) == State(s.str, s.count + 1))
      && (s.count > 0 ==> b > 1 && StateAt(from, b - 1) == State(s.str, s.count - 1) && follow[b - 1].len == s.count)
  {
    assert FollowsState(from, follow, b);
    Numbering(from, |from|, b);
    var s := StateAt(from, b);
    if s.count < |from[s.str]| {
      assert from[s.str][s.count] in from[s.str];
    }
    if s.count > 0 {
      assert FollowsState(from, follow, b - 1);
    }
  }

  /** An end state in the set says that an occurrence has been found. */
  lemma EndMeansMatch(from: seq<seq<Byte>>, w: seq<Byte>, follow: seq<Follow>, bits: Bits)
    requires PlainStrings(from) && FollowsStates(from, follow) && BitsOf(from, w, bits)
    ensures (exists b :: 0 <= b < |bits| && bits[b] && follow[b].chr == 0) <==> HasMatch(from, w)
  {
    if b :| 0 <= b < |bits| && bits[b] && follow[b].chr == 0 {
      FollowAt(from, follow, b);
      assert EndOn(from, w, StateAt(from, b));
    }
    if m :| Best(from, w, m) {
      assert Occurs(from, w, m.str, m.start);
      assert m == Match(m.start, m.str);
      var s := State(m.str, |from[m.str]|);
      var b := NumberOf(from, |from|, s);
      assert EndOn(from, w, StateAt(from, b));
      FollowAt(from, follow, b);
    }
  }

  /** Until something is found the set can restart from the start set. */
  lemma UsedBitsAre(from: seq<seq<Byte>>, w: seq<Byte>, follow: seq<Follow>, bits: Bits, start: Bits, used: Bits)
    requires PlainStrings(from) && FollowsStates(from, follow) && BitsOf(from, w, bits)
    requires |start| == |used| == |bits| && !start[0]
    requires forall b: nat | 0 < b < |start| :: start[b] <==> StateAt(from, b).count == 0
    requires forall b | 0 <= b < |used| :: used[b] <==> bits[b] || (!HasMatch(from, w) && start[b])
    ensures UsedBits(from, w, used)
  {
    forall b: nat | 0 < b < |used| ensures used[b] <==> UsedOn(from, w, StateAt(from, b)) {
      FollowAt(from, follow, b);
      var s := StateAt(from, b);
      if !HasMatch(from, w) {
        assert InProgress(from, w, s.str, s.count) <==> EndsWith(from, w, s.str, s.count) && 1 <= s.count < |from[s.str]|;
        assert MatchOf(from, w, s.str) ==> HasMatch(from, w);
      }
    }
  }

  // ---------------------------------------------------------------- one more byte

  /** The states before pruning. */
  ghost predicate RawOn(from: seq<seq<Byte>>, w: seq<Byte>, c: Byte, s: State) {
    || EndOn(from, w, s)
    || (c != 0 && s.str < |from| && 1 <= s.count <= |from[s.str]| && Used(from, w, s.str, s.count - 1) && from[s.str][s.count - 1] == c)
  }

  ghost predicate RawBits(from: seq<seq<Byte>>, w: seq<Byte>, c: Byte, bits: Bits) {
    && |bits| == StateCount(from) && !bits[0]
    && forall b: nat | 0 < b < |bits| :: bits[b] <==> RawOn(from, w, c, StateAt(from, b))
  }

  lemma AdvanceMeans(from: seq<seq<Byte>>, w: seq<Byte>, follow: seq<Follow>, used: Bits, c: Byte, bits: Bits)
    requires PlainStrings(from) && FollowsStates(from, follow) && UsedBits(from, w, used)
    requires |bits| == |used| && forall t: nat | t < |used| :: bits[t] <==> NextBit(follow, used, c, t)
    ensures RawBits(from, w, c, bits)
  {
    forall b: nat | 0 < b < |bits| ensures bits[b] <==> RawOn(from, w, c, StateAt(from, b)) {
      FollowAt(from, follow, b);
      if b > 1 {
        FollowAt(from, follow, b - 1);
      }
    }
  }

  lemma EndingMeans(from: seq<seq<Byte>>, w: seq<Byte>, follow: seq<Follow>, used: Bits, c: Byte, foundEnd: nat)
    requires PlainStrings(from) && FollowsStates(from, follow) && UsedBits(from, w, used) && c != 0
    requires forall b: nat | b < |used| && Ending(follow, used, c, b) :: follow[b].len <= foundEnd
    requires foundEnd > 0 ==> exists b: nat :: b < |used| && Ending(follow, used, c, b) && follow[b].len == foundEnd
    ensures LongestCompleted(from, w, c, foundEnd)
  {
    forall j: nat | Completes(from, w, c, j) ensures |from[j]| <= foundEnd {
      var b := NumberOf(from, |from|, State(j, |from[j]| - 1));
      FollowAt(from, follow, b);
      FollowAt(from, follow, b + 1);
      assert Ending(follow, used, c, b);
    }
    if foundEnd > 0 {
      var b: nat :| b < |used| && Ending(follow, used, c, b) && follow[b].len == foundEnd;
      FollowAt(from, follow, b);
      FollowAt(from, follow, b + 1);
      assert Completes(from, w, c, StateAt(from, b).str);
    }
  }

  /** A string completed before is too short to keep when another is completed. */
  lemma OldEndTooShort(from: seq<seq<Byte>>, w: seq<Byte>, c: Byte, n: nat, j: nat)
    requires PlainStrings(from) && LongestCompleted(from, w, c, n) && n > 0 && j < |from| && MatchOf(from, w, j)
    ensures |from[j]| < n
  {
    var a :| Best(from, w, Match(a, j));
    var i: nat :| Completes(from, w, c, i) && |from[i]| == n;
    CompletesMeans(from, w, c, i);
    assert Occurs(from, w, j, a);
  }

  /** No string completed: the states before pruning are those of the longer text. */
  lemma NoneCompleted(from: seq<seq<Byte>>, w: seq<Byte>, c: Byte, bits: Bits, tableOffset: int, foundOffset: int)
    requires PlainStrings(from) && LongestCompleted(from, w, c, 0) && RawBits(from, w, c, bits)
    requires Noted(from, w, tableOffset, foundOffset)
    ensures Waiting(from, w + [c]) ==> BitsOf(from, w + [c], bits)
    ensures Noted(from, w + [c], tableOffset, foundOffset + 1)
    ensures HasMatch(from, w + [c]) <==> HasMatch(from, w)
  {
    forall m ensures Best(from, w + [c], m) <==> Best(from, w, m) {
      NextMatch(from, w, c, 0, m);
    }
    if Waiting(from, w + [c]) {
      forall b: nat | 0 < b < |bits| ensures bits[b] <==> BitOn(from, w + [c], StateAt(from, b)) {
        Numbering(from, |from|, b);
        var s := StateAt(from, b);
        NextProgress(from, w, c, 0, s.str, s.count);
        if c == 0 && s.count < |from[s.str]| && 0 < s.count {
          assert from[s.str][s.count - 1] in from[s.str];
        }
        assert !Completes(from, w, c, s.str);
        assert EndOn(from, w + [c], s) <==> EndOn(from, w, s);
      }
    }
  }

  /** A string completed: pruning keeps what started early enough, and the new occurrence. */
  lemma SomeCompleted(from: seq<seq<Byte>>, w: seq<Byte>, follow: seq<Follow>, c: Byte, n: nat, bits: Bits, kept: Bits)
    requires PlainStrings(from) && FollowsStates(from, follow) && LongestCompleted(from, w, c, n) && n > 0 && c != 0
    requires RawBits(from, w, c, bits)
    requires |kept| == |bits| && forall t: nat | t < |bits| :: kept[t] <==> Kept(follow, bits, n, c, t)
    ensures HasMatch(from, w + [c]) && BitsOf(from, w + [c], kept)
  {
    var m := Completion(from, w, c, n);
    forall b: nat | 0 < b < |bits| ensures kept[b] <==> BitOn(from, w + [c], StateAt(from, b)) {
      KeptMeans(from, w, follow, c, n, bits, m, b);
    }
  }

  /** The occurrence that the byte `c` completes. */
  lemma Completion(from: seq<seq<Byte>>, w: seq<Byte>, c: Byte, n: nat) returns (m: Match)
    requires PlainStrings(from) && LongestCompleted(from, w, c, n) && n > 0
    ensures Best(from, w + [c], m) && Completes(from, w, c, m.str) && |from[m.str]| == n && m.start == |w| + 1 - n
  {
    var i: nat :| Completes(from, w, c, i) && |from[i]| == n;
    CompletesMeans(from, w, c, i);
    OccursMore(from, w, c, i, |w| + 1 - n);
    m := MatchFromOccurrence(from, w + [c], i, |w| + 1 - n);
    NextMatch(from, w, c, n, m);
  }

  lemma KeptMeans(from: seq<seq<Byte>>, w: seq<Byte>, follow: seq<Follow>, c: Byte, n: nat, bits: Bits, m: Match, b: nat)
    requires PlainStrings(from) && FollowsStates(from, follow) && LongestCompleted(from, w, c, n) && n > 0 && c != 0
    requires RawBits(from, w, c, bits) && Best(from, w + [c], m) && 0 < b < |bits|
    ensures Kept(follow, bits, n, c, b) <==> BitOn(from, w + [c], StateAt(from, b))
  {
    var s := StateAt(from, b);
    FollowAt(from, follow, b);
    NextProgress(from, w, c, n, s.str, s.count);
    EarlyMeans(from, w, follow, c, n, bits, b);
    assert !Fresh(from, w + [c]);
    NextMatch(from, w, c, n, m);
    if s.count == |from[s.str]| {
      EndKept(from, w, follow, c, n, bits, m, b);
    }
  }

  lemma EarlyMeans(from: seq<seq<Byte>>, w: seq<Byte>, follow: seq<Follow>, c: Byte, n: nat, bits: Bits, b: nat)
    requires PlainStrings(from) && FollowsStates(from, follow) && LongestCompleted(from, w, c, n) && n > 0 && c != 0
    requires RawBits(from, w, c, bits) && 0 < b < |bits|
    ensures var s := StateAt(from, b);
      && s.str < |from| && s.count <= |from[s.str]|
      && (EarlyEnough(follow, bits, n, b) <==>
            && n <= s.count && Used(from, w, s.str, s.count - 1) && from[s.str][s.count - 1] == c)
      && (EndState(follow, c, b) <==> s.count == |from[s.str]|)
      && (EarlyEnough(follow, bits, n, b) && EndState(follow, c, b) <==> s.count == |from[s.str]| == n && Completes(from, w, c, s.str))
  {
    var s := StateAt(from, b);
    FollowAt(from, follow, b);
    if EndOn(from, w, s) {
      OldEndTooShort(from, w, c, n, s.str);
    }
  }

  lemma EndKept(from: seq<seq<Byte>>, w: seq<Byte>, follow: seq<Follow>, c: Byte, n: nat, bits: Bits, m: Match, b: nat)
    requires PlainStrings(from) && FollowsStates(from, follow) && LongestCompleted(from, w, c, n) && n > 0 && c != 0
    requires RawBits(from, w, c, bits) && Best(from, w + [c], m) && 0 < b < |bits|
    requires var s := StateAt(from, b); s.str < |from| && s.count == |from[s.str]|
    ensures Kept(follow, bits, n, c, b) <==> EndOn(from, w + [c], StateAt(from, b))
  {
    var s, w' := StateAt(from, b), w + [c];
    EarlyMeans(from, w, follow, c, n, bits, b);
    NextMatch(from, w, c, n, m);
    var d := NumberOf(from, |from|, State(m.str, |from[m.str]|));
    EarlyMeans(from, w, follow, c, n, bits, d);
    if EndOn(from, w', s) {
      var a :| Best(from, w', Match(a, s.str));
      BestIsUnique(from, w', m, Match(a, s.str));
      forall u: nat | 0 < u < b ensures EarlyEnough(follow, bits, n, u) ==> !EndState(follow, c, u) {
        EarlyMeans(from, w, follow, c, n, bits, u);
        NumberedOnce(from, |from|, u, b);
      }
    } else if EarlyEnough(follow, bits, n, b) {
      assert s.str != m.str by {
        assert m == Match(m.start, m.str);
      }
      if b < d {
        NumberedOnce(from, |from|, b, d);
      } else {
        assert b != d;
      }
    }
  }
}
