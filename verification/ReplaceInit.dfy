/** init_replace (extra/replace.c): the subset construction. */
module ReplaceInit {
  import opened Prelude
  import opened ReplaceSpec
  import opened ReplaceProgress
  import opened ReplaceStates
  import opened ReplaceBits
  import opened ReplaceSets
  import opened ReplaceEntries
  import opened ReplaceCount

  // ---------------------------------------------------------------- one byte

  /** A byte that no state in use goes on with: found if something was found, else back to the start. */
  lemma UnusedByte(from: seq<seq<Byte>>, w: seq<Byte>, follow: seq<Follow>, used: Bits, c: Byte, st: RepSet)
    requires PlainStrings(from) && FollowsStates(from, follow) && Describes(from, w, st) && UsedBits(from, w, used)
    requires c != 0 && forall b: nat | 0 < b < |used| && used[b] :: follow[b].chr != c
    ensures if HasMatch(from, w) then Decided(from, w + [c]) && Noted(from, w + [c], st.tableOffset, st.foundOffset + 1)
            else Fresh(from, w + [c])
  {
    forall j: nat, p: nat | j < |from| && p < |from[j]| && Used(from, w, j, p) ensures from[j][p] != c {
      var b := NumberOf(from, |from|, State(j, p));
      FollowAt(from, follow, b);
    }
    assert LongestCompleted(from, w, c, 0);
    NothingGoesOn(from, w, c);
    forall m ensures Best(from, w + [c], m) <==> Best(from, w, m) {
      NextMatch(from, w, c, 0, m);
    }
  }

  /** A byte that goes on with some state but completes none. */
  lemma ByteGoesOn(from: seq<seq<Byte>>, w: seq<Byte>, follow: seq<Follow>, used: Bits, c: Byte, st: RepSet, bits: Bits, b: nat)
    requires PlainStrings(from) && FollowsStates(from, follow) && Describes(from, w, st) && UsedBits(from, w, used)
    requires c != 0 && 0 < b < |used| && used[b] && follow[b].chr == c
    requires LongestCompleted(from, w, c, 0) && RawBits(from, w, c, bits)
    ensures Describes(from, w + [c], RepSet(bits, st.tableOffset, st.foundOffset + 1))
  {
    FollowAt(from, follow, b);
    var s := StateAt(from, b);
    assert Used(from, w, s.str, s.count);
    assert !Completes(from, w, c, s.str);
    NextProgress(from, w, c, 0, s.str, s.count + 1);
    assert InProgress(from, w + [c], s.str, s.count + 1);
    NoneCompleted(from, w, c, bits, st.tableOffset, st.foundOffset);
  }

  /** A byte that completes a string: if only that is left it is decided. */
  lemma ByteCompletes(from: seq<seq<Byte>>, w: seq<Byte>, follow: seq<Follow>, c: Byte, n: nat, bits: Bits, kept: Bits, tableOffset: int)
    requires PlainStrings(from) && FollowsStates(from, follow) && LongestCompleted(from, w, c, n) && n > 0 && c != 0
    requires RawBits(from, w, c, bits)
    requires |kept| == |bits| && forall t: nat | t < |bits| :: kept[t] <==> Kept(follow, bits, n, c, t)
    requires forall t: nat | t < |bits| && kept[t] && EndState(follow, c, t) :: tableOffset == follow[t].tableOffset
    ensures BitsOf(from, w + [c], kept) && Noted(from, w + [c], tableOffset, n)
    ensures Decided(from, w + [c]) <==> |KeptBelow(follow, bits, n, c, |bits|)| == 1
  {
    SomeCompleted(from, w, follow, c, n, bits, kept);
    var w' := w + [c];
    var m := Completion(from, w, c, n);
    var e := NumberOf(from, |from|, State(m.str, |from[m.str]|));
    FollowAt(from, follow, e);
    assert m == Match(m.start, m.str) && EndOn(from, w', StateAt(from, e));
    forall o | Best(from, w', o) ensures o == m {
      BestIsUnique(from, w', o, m);
    }
    var left := KeptBelow(follow, bits, n, c, |bits|);
    assert e in left;
    if j, p :| InProgress(from, w', j, p) {
      var b := NumberOf(from, |from|, State(j, p));
      assert b in left && b != e;
      TwoElements(left, b, e);
    } else {
      forall t | t in left ensures t == e {
        FollowAt(from, follow, t);
        OneNumber(from, t, e);
      }
      assert left == {e as int};
    }
  }

  lemma TwoElements(s: set<int>, x: int, y: int)
    requires x in s && y in s && x != y
    ensures |s| >= 2
  {
    assert s == (s - {x} - {y}) + {x} + {y};
  }

  lemma OneNumber(from: seq<seq<Byte>>, b: nat, d: nat)
    requires 0 < b < StateCount(from) && 0 < d < StateCount(from) && StateAt(from, b) == StateAt(from, d)
    ensures b == d
  {
    if b < d {
      NumberedOnce(from, |from|, b, d);
    } else if d < b {
      NumberedOnce(from, |from|, d, b);
    }
  }

  // ---------------------------------------------------------------- find_set, find_found

  /** find_set: the set with the same bits, or the new one. */
  method FindSet(sets: seq<RepSet>, find: RepSet) returns (more: seq<RepSet>, i: nat)
    ensures i < |more| && more[i].bits == find.bits
    ensures more == sets || (more == sets + [find] && i == |sets| && forall q | 0 <= q < |sets| :: sets[q].bits != find.bits)
  {
    i := 0;
    while i < |sets|
      invariant i <= |sets|
      invariant forall q | 0 <= q < i :: sets[q].bits != find.bits
    {
      if sets[i].bits == find.bits {
        return sets, i;
      }
      i := i + 1;
    }
    more := sets + [find];
  }

  /** find_found: the entry's number as it is kept in a `next` row. */
  method FindFound(found: seq<FoundSet>, tableOffset: int, foundOffset: int) returns (more: seq<FoundSet>, v: int)
    ensures v <= -2 && -v - 2 < |more| && more[-v - 2] == FoundSet(tableOffset, foundOffset)
    ensures more == found || (more == found + [FoundSet(tableOffset, foundOffset)] && FoundSet(tableOffset, foundOffset) !in found)
  {
    var i := 0;
    while i < |found|
      invariant i <= |found|
      invariant forall q | 0 <= q < i :: found[q] != FoundSet(tableOffset, foundOffset)
    {
      if found[i].tableOffset == tableOffset && found[i].foundOffset == foundOffset {
        return found, -i - 2;
      }
      i := i + 1;
    }
    more := found + [FoundSet(tableOffset, foundOffset)];
    v := -i - 2;
  }

  // ---------------------------------------------------------------- one set

  /** Everything the construction of one set starts from. */
  ghost predicate Preparing(from: seq<seq<Byte>>, follow: seq<Follow>, st: RepSet, used: Bits, hasEnd: bool) {
    && PlainStrings(from) && FollowsStates(from, follow)
    && |follow| == |used| == |st.bits| && !used[0] && Closed(follow)
    && forall w | Describes(from, w, st) :: UsedBits(from, w, used) && (hasEnd <==> HasMatch(from, w))
  }

  /** The set that byte `c`, which some state in use goes on with, leads to. */
  method NextSet(ghost from: seq<seq<Byte>>, follow: seq<Follow>, st: RepSet, used: Bits, ghost hasEnd: bool, c: Byte)
    returns (newSet: RepSet, decided: bool)
    requires Preparing(from, follow, st, used, hasEnd)
    requires exists b :: 0 <= b < |used| && used[b] && follow[b].chr == c
    ensures forall w | Describes(from, w, st) && (c != 0 || HasMatch(from, w)) ::
              if decided then Decided(from, w + [c]) && Noted(from, w + [c], newSet.tableOffset, newSet.foundOffset)
              else Describes(from, w + [c], newSet)
  {
    ghost var b: nat :| b < |used| && used[b] && follow[b].chr == c;
    var bits, foundEnd := Advance(follow, used, c);
    decided := false;
    newSet := RepSet(bits, st.tableOffset, st.foundOffset + 1);
    if foundEnd > 0 {
      var kept, tableOffset, bitsSet := Prune(follow, bits, foundEnd, c, st.tableOffset);
      newSet := RepSet(kept, tableOffset, if c != 0 then foundEnd else st.foundOffset + 1);
      decided := bitsSet == 1;
    }
    forall w | Describes(from, w, st) && (c != 0 || HasMatch(from, w))
      ensures if decided then Decided(from, w + [c]) && Noted(from, w + [c], newSet.tableOffset, newSet.foundOffset)
              else Describes(from, w + [c], newSet)
    {
      AdvanceMeans(from, w, follow, used, c, bits);
      if c == 0 {
        EndOfText(from, w, st);
        OnlyTheEnd(from, w, follow, used, bits, foundEnd);
      } else {
        EndingMeans(from, w, follow, used, c, foundEnd);
        if foundEnd == 0 {
          ByteGoesOn(from, w, follow, used, c, st, bits, b);
        } else {
          ByteCompletes(from, w, follow, c, foundEnd, bits, newSet.bits, newSet.tableOffset);
        }
      }
    }
  }

  /** At the end of the text nothing but the occurrence found is left. */
  lemma OnlyTheEnd(from: seq<seq<Byte>>, w: seq<Byte>, follow: seq<Follow>, used: Bits, bits: Bits, n: nat)
    requires PlainStrings(from) && FollowsStates(from, follow) && UsedBits(from, w, used) && HasMatch(from, w)
    requires RawBits(from, w, 0, bits)
    requires forall b: nat | b < |used| && Ending(follow, used, 0, b) :: follow[b].len <= n
    requires n > 0 ==> exists b: nat :: b < |used| && Ending(follow, used, 0, b) && follow[b].len == n
    ensures n > 0 && |KeptBelow(follow, bits, n, 0, |bits|)| == 1
    ensures forall m, t: nat | Best(from, w, m) && t < |bits| && Kept(follow, bits, n, 0, t) :: follow[t].tableOffset == m.str
  {
    var m :| Best(from, w, m);
    assert m == Match(m.start, m.str) && Occurs(from, w, m.str, m.start);
    var e := NumberOf(from, |from|, State(m.str, |from[m.str]|));
    forall o | Best(from, w, o) ensures o == m {
      BestIsUnique(from, w, o, m);
    }
    FollowAt(from, follow, e);
    assert EndOn(from, w, StateAt(from, e));
    forall b: nat | 0 < b < |bits| && (bits[b] || (used[b] && follow[b].chr == 0)) ensures b == e {
      FollowAt(from, follow, b);
      OneNumber(from, b, e);
    }
    assert Ending(follow, used, 0, e);
    assert Kept(follow, bits, n, 0, e);
    assert KeptBelow(follow, bits, n, 0, |bits|) == {e as int};
  }

  // ---------------------------------------------------------------- one row

  /** used_chars: the bytes that some state in use goes on with. */
  method UsedChars(follow: seq<Follow>, used: Bits) returns (chars: seq<bool>)
    requires |used| == |follow| > 0 && !used[0]
    ensures |chars| == 256
    ensures forall c | 0 <= c < 256 :: chars[c] <==> exists b :: 0 <= b < |used| && used[b] && follow[b].chr == c
  {
    chars := seq(256, _ => false);
    var i: nat := GetNextBit(used, -1);
    while i != 0
      invariant i != 0 ==> i < |used| && used[i]
      invariant |chars| == 256
      invariant forall c | 0 <= c < 256 :: chars[c] <==> exists b :: 0 <= b < Reached(used, i) && used[b] && follow[b].chr == c
      decreases |used| - Reached(used, i)
    {
      chars := chars[follow[i].chr := true];
      i := GetNextBit(used, i);
    }
  }

  lemma EntryGrows(from: seq<seq<Byte>>, sets: seq<RepSet>, sets': seq<RepSet>, found: seq<FoundSet>, found': seq<FoundSet>, st: RepSet, c: Byte, v: int)
    requires EntryOk(from, sets, found, st, c, v) && sets <= sets' && found <= found'
    ensures EntryOk(from, sets', found', st, c, v)
  {
    forall w | Describes(from, w, st) ensures NextOk(from, sets', found', w, c, v) {
      assert NextOk(from, sets, found, w, c, v);
    }
  }

  lemma IsPrepared(from: seq<seq<Byte>>, follow: seq<Follow>, st: RepSet, start: Bits, used: Bits, hasEnd: bool)
    requires PlainStrings(from) && FollowsStates(from, follow) && Closed(follow) && StartBits(from, start) && Described(from, st)
    requires hasEnd <==> exists b :: 0 <= b < |st.bits| && b < |follow| && st.bits[b] && follow[b].chr == 0
    requires |used| == |st.bits| == |start| && forall b | 0 <= b < |used| :: used[b] <==> st.bits[b] || (!hasEnd && start[b])
    ensures Preparing(from, follow, st, used, hasEnd)
  {
    forall w | Describes(from, w, st) ensures UsedBits(from, w, used) && (hasEnd <==> HasMatch(from, w)) {
      EndMeansMatch(from, w, follow, st.bits);
      UsedBitsAre(from, w, follow, st.bits, start, used);
    }
  }

  lemma DefaultReported(from: seq<seq<Byte>>, st: RepSet, w: seq<Byte>)
    requires PlainStrings(from) && Describes(from, w, st) && HasMatch(from, w)
    ensures Reported(from, FoundSet(st.tableOffset, st.foundOffset + 1))
  {
    EndOfText(from, w, st);
    assert ReportedAfter(from, w, 0, FoundSet(st.tableOffset, st.foundOffset + 1));
  }

  lemma UnusedEntry(from: seq<seq<Byte>>, follow: seq<Follow>, st: RepSet, used: Bits, hasEnd: bool, sets: seq<RepSet>, found: seq<FoundSet>,
                    start: Bits, c: Byte, v: int)
    requires Preparing(from, follow, st, used, hasEnd) && SetsOk(from, sets, start) && StartBits(from, start)
    requires forall b :: 0 <= b < |used| && used[b] ==> follow[b].chr != c
    requires if c == 0 then v == -1
             else if hasEnd then v <= -2 && -v - 2 < |found| && found[-v - 2] == FoundSet(st.tableOffset, st.foundOffset + 1)
             else v == 0
    ensures EntryOk(from, sets, found, st, c, v)
  {
    forall w | Describes(from, w, st) ensures NextOk(from, sets, found, w, c, v) {
      if c == 0 {
        EndMeansMatch(from, w, follow, st.bits);
        EndIsUsed(from, w, follow, st, used);
      } else {
        UnusedByte(from, w, follow, used, c, st);
        if !hasEnd {
          FreshIsStart(from, w + [c], sets[0]);
        }
      }
    }
  }

  lemma EndIsUsed(from: seq<seq<Byte>>, w: seq<Byte>, follow: seq<Follow>, st: RepSet, used: Bits)
    requires PlainStrings(from) && FollowsStates(from, follow) && Describes(from, w, st) && UsedBits(from, w, used)
    ensures HasMatch(from, w) <==> exists b :: 0 <= b < |used| && used[b] && follow[b].chr == 0
  {
    EndMeansMatch(from, w, follow, st.bits);
    if b :| 0 <= b < |st.bits| && st.bits[b] && follow[b].chr == 0 {
      FollowAt(from, follow, b);
      assert used[b];
    }
    if b :| 0 <= b < |used| && used[b] && follow[b].chr == 0 {
      FollowAt(from, follow, b);
      assert EndOn(from, w, StateAt(from, b));
    }
  }

  lemma DecidedEntry(from: seq<seq<Byte>>, follow: seq<Follow>, st: RepSet, used: Bits, hasEnd: bool, sets: seq<RepSet>, found: seq<FoundSet>,
                     newSet: RepSet, c: Byte, v: int)
    requires Preparing(from, follow, st, used, hasEnd) && exists b :: 0 <= b < |used| && used[b] && follow[b].chr == c
    requires forall w | Describes(from, w, st) && (c != 0 || HasMatch(from, w)) ::
               Decided(from, w + [c]) && Noted(from, w + [c], newSet.tableOffset, newSet.foundOffset)
    requires v <= -2 && -v - 2 < |found| && found[-v - 2] == FoundSet(newSet.tableOffset, newSet.foundOffset)
    ensures EntryOk(from, sets, found, st, c, v)
  {
    forall w | Describes(from, w, st) ensures NextOk(from, sets, found, w, c, v) {
      EndIsUsed(from, w, follow, st, used);
    }
  }

  lemma SharedEntry(from: seq<seq<Byte>>, follow: seq<Follow>, st: RepSet, used: Bits, hasEnd: bool, sets: seq<RepSet>, found: seq<FoundSet>,
                    newSet: RepSet, c: Byte, i: nat)
    requires Preparing(from, follow, st, used, hasEnd) && exists b :: 0 <= b < |used| && used[b] && follow[b].chr == c
    requires forall w | Describes(from, w, st) && (c != 0 || HasMatch(from, w)) :: Describes(from, w + [c], newSet)
    requires i < |sets| && sets[i].bits == newSet.bits && Described(from, sets[i])
    ensures EntryOk(from, sets, found, st, c, i)
  {
    forall w | Describes(from, w, st) ensures NextOk(from, sets, found, w, c, i) {
      EndIsUsed(from, w, follow, st, used);
      SameBitsSameSet(from, w + [c], newSet, sets[i]);
    }
  }

  /** The `next` row of one set; new sets are added behind the others. */
  method FillRow(ghost from: seq<seq<Byte>>, follow: seq<Follow>, st: RepSet, sets: seq<RepSet>, found: seq<FoundSet>, ghost start: Bits)
    returns (row: seq<int>, ghost wide: seq<int>, sets': seq<RepSet>, found': seq<FoundSet>)
    requires PlainStrings(from) && FollowsStates(from, follow) && Closed(follow) && StartBits(from, start)
    requires SetsOk(from, sets, start) && FoundOk(from, found) && Described(from, st)
    ensures |row| == 256 && Shorts(row, wide) && sets <= sets' && found <= found'
    ensures SetsOk(from, sets', start) && FoundOk(from, found')
    ensures forall c: Byte | c < 256 :: EntryOk(from, sets', found', st, c, wide[c])
  {
    hide EntryOk, SetsOk, FoundOk, Preparing, Describes, HasMatch, ToShort;
    row, wide, sets' := [], [], sets;
    ghost var w := SomeText(from, st);
    var used, usedChars, hasEnd, defaultState;
    used, usedChars, hasEnd, found', defaultState := Prepare(from, follow, st, sets, found, start, w);
    var chr := 0;
    while chr < 256
      invariant chr <= 256 && |row| == chr && Shorts(row, wide)
      invariant sets <= sets' && found <= found'
      invariant SetsOk(from, sets', start) && FoundOk(from, found')
      invariant DefaultOk(found', st, hasEnd, defaultState)
      invariant forall c: Byte | c < chr :: EntryOk(from, sets', found', st, c, wide[c])
    {
      var v, more, moreFound := FillEntry(from, follow, st, used, hasEnd, usedChars, sets', found', defaultState, chr, start, w);
      forall c: Byte | c < chr ensures EntryOk(from, more, moreFound, st, c, wide[c]) {
        EntryGrows(from, sets', more, found', moreFound, st, c, wide[c]);
      }
      row, wide, sets', found' := row + [ToShort(v)], wide + [v], more, moreFound;
      chr := chr + 1;
    }
  }

  lemma SomeText(from: seq<seq<Byte>>, st: RepSet) returns (w: seq<Byte>)
    requires Described(from, st)
    ensures Describes(from, w, st)
  {
    w :| Describes(from, w, st);
  }

  /** default_state: 0, or the found entry for a byte that leads nowhere. */
  predicate DefaultOk(found: seq<FoundSet>, st: RepSet, hasEnd: bool, v: int) {
    if hasEnd then v <= -2 && -v - 2 < |found| && found[-v - 2] == FoundSet(st.tableOffset, st.foundOffset + 1)
    else v == 0
  }

  /** What FillRow works out before it looks at the bytes. */
  method Prepare(ghost from: seq<seq<Byte>>, follow: seq<Follow>, st: RepSet, sets: seq<RepSet>, found: seq<FoundSet>,
                 ghost start: Bits, ghost w: seq<Byte>)
    returns (used: Bits, usedChars: seq<bool>, hasEnd: bool, found': seq<FoundSet>, defaultState: int)
    requires PlainStrings(from) && FollowsStates(from, follow) && Closed(follow) && StartBits(from, start)
    requires SetsOk(from, sets, start) && FoundOk(from, found) && Describes(from, w, st)
    ensures Preparing(from, follow, st, used, hasEnd) && DefaultOk(found', st, hasEnd, defaultState)
    ensures found <= found' && FoundOk(from, found')
    ensures |usedChars| == 256 && forall c | 0 <= c < 256 :: usedChars[c] <==> exists b :: 0 <= b < |used| && used[b] && follow[b].chr == c
  {
    found', defaultState := found, 0;
    hasEnd := HasEnd(follow, st.bits);
    // Until an occurrence is found the machine can restart from the start set.
    used := if hasEnd then st.bits else OrBits(st.bits, sets[0].bits);
    IsPrepared(from, follow, st, start, used, hasEnd);
    if hasEnd {
      found', defaultState := FindFound(found', st.tableOffset, st.foundOffset + 1);
      DefaultReported(from, st, w);
    }
    usedChars := UsedChars(follow, used);
  }

  method FillEntry(ghost from: seq<seq<Byte>>, follow: seq<Follow>, st: RepSet, used: Bits, hasEnd: bool, usedChars: seq<bool>,
                   sets: seq<RepSet>, found: seq<FoundSet>, defaultState: int, chr: Byte, ghost start: Bits, ghost w: seq<Byte>)
    returns (v: int, sets': seq<RepSet>, found': seq<FoundSet>)
    requires Preparing(from, follow, st, used, hasEnd) && StartBits(from, start)
    requires SetsOk(from, sets, start) && FoundOk(from, found) && Describes(from, w, st)
    requires |usedChars| == 256 && (usedChars[chr] <==> exists b :: 0 <= b < |used| && used[b] && follow[b].chr == chr)
    requires DefaultOk(found, st, hasEnd, defaultState)
    ensures sets <= sets' && found <= found'
    ensures SetsOk(from, sets', start) && FoundOk(from, found')
    ensures EntryOk(from, sets', found', st, chr, v)
  {
    hide EntryOk, BitsOf, HasMatch, Decided, Noted;
    sets', found' := sets, found;
    if !usedChars[chr] {
      v := if chr != 0 then defaultState else -1;
      UnusedEntry(from, follow, st, used, hasEnd, sets, found, start, chr, v);
    } else {
      EndIsUsed(from, w, follow, st, used);
      var newSet, decided := NextSet(from, follow, st, used, hasEnd, chr);
      if decided {
        found', v := FindFound(found, newSet.tableOffset, newSet.foundOffset);
        DecidedEntry(from, follow, st, used, hasEnd, sets, found', newSet, chr, v);
        assert ReportedAfter(from, w, chr, FoundSet(newSet.tableOffset, newSet.foundOffset));
      } else {
        var i;
        sets', i := FindSet(sets, newSet);
        assert Describes(from, w + [chr], newSet);
        SharedEntry(from, follow, st, used, hasEnd, sets', found', newSet, chr, i);
        v := i;
      }
    }
  }

  function OrBits(a: Bits, b: Bits): (r: Bits)
    requires |a| == |b|
    ensures |r| == |a| && forall i | 0 <= i < |r| :: r[i] <==> a[i] || b[i]
  {
    seq(|a|, i requires 0 <= i < |a| => a[i] || b[i])
  }

  // ---------------------------------------------------------------- all rows

  /** All bit vectors of length `n`. */
  ghost function AllBits(n: nat): set<Bits> {
    if n == 0 then {[]} else Extended(AllBits(n - 1), false) + Extended(AllBits(n - 1), true)
  }

  ghost function Extended(s: set<Bits>, x: bool): set<Bits> {
    set b | b in s :: b + [x]
  }

  lemma {:induction false} InAllBits(b: Bits)
    ensures b in AllBits(|b|)
  {
    if |b| > 0 {
      var shorter, last := b[..|b| - 1], b[|b| - 1];
      InAllBits(shorter);
      assert b == shorter + [last];
      assert b in Extended(AllBits(|b| - 1), last);
    }
  }

  ghost function SeenBits(sets: seq<RepSet>): set<Bits> {
    set q | 0 <= q < |sets| :: sets[q].bits
  }

  /** Every set added is new, so the loop over the growing list of sets comes to an end. */
  lemma SeesMore(from: seq<seq<Byte>>, sets: seq<RepSet>, more: seq<RepSet>, start: Bits)
    requires SetsOk(from, more, start) && 2 <= |sets| <= |more| && sets <= more
    ensures SeenBits(sets) <= SeenBits(more) <= AllBits(StateCount(from))
    ensures |sets| < |more| ==> AllBits(StateCount(from)) - SeenBits(more) < AllBits(StateCount(from)) - SeenBits(sets)
  {
    forall b | b in SeenBits(more) ensures b in AllBits(StateCount(from)) {
      var q :| 0 <= q < |more| && more[q].bits == b;
      var w :| Describes(from, w, more[q]);
      InAllBits(b);
    }
    forall b | b in SeenBits(sets) ensures b in SeenBits(more) {
      var q :| 0 <= q < |sets| && sets[q].bits == b;
      assert more[q].bits == b;
    }
    if |sets| < |more| {
      var b := more[|sets|].bits;
      assert b in SeenBits(more);
      assert b !in SeenBits(sets);
    }
  }

  // ---------------------------------------------------------------- the machine

  /** init_replace; it refuses an empty from-string.  Every entry is right if and only if all of
      them fit a `short`. */
  method InitReplace(from: seq<seq<Byte>>) returns (r: Option<Machine>)
    requires forall j | 0 <= j < |from| :: 0 !in from[j] && 92 !in from[j]
    ensures r.None? <==> exists j :: 0 <= j < |from| && from[j] == []
    ensures r.Some? ==> |r.value.sets| == 2 + |Prefixes(from)| && |r.value.found| == |FoundPairs(from)|
    ensures r.Some? ==> (MachineOk(from, r.value) <==> TableFits(from))
  {
    var i: nat, maxLength: nat := 0, 0;
    while i < |from|
      invariant i <= |from| && forall j | 0 <= j < i :: from[j] != [] && |from[j]| <= maxLength
    {
      if |from[i]| == 0 {
        return None;
      }
      if |from[i]| > maxLength {
        maxLength := |from[i]|;
      }
      i := i + 1;
    }
    hide MachineOk, TableFits;
    var m := Construct(from, maxLength);
    r := Some(m);
  }

  /** One from-string of 40000 bytes is too long: set 32768 is entered through a negative number. */
  method TooLong() returns (m: Machine)
    ensures |m.sets| == 40001 && !MachineOk(LongString(), m)
  {
    LongStringUnfit();
    hide MachineOk, TableFits;
    var r := InitReplace(LongString());
    m := r.value;
  }

  /** The loop over the sets, which grow while it runs. */
  method Construct(from: seq<seq<Byte>>, ghost maxLength: nat) returns (m: Machine)
    requires PlainStrings(from) && LongestIs(from, maxLength)
    ensures |m.sets| == 2 + |Prefixes(from)| && |m.found| == |FoundPairs(from)| <= |from| * maxLength
    ensures MachineOk(from, m) <==> TableFits(from)
  {
    hide RowOk, Described, FollowsStates, Closed, AllBits, SeenBits, BitsOf, Noted, Decided, FoundOk, Prefixes, FoundPairs, TableFits;
    var follow, start := BuildFollow(from);
    IsClosed(from, follow);
    var sets, next, found := [RepSet(start, -1, 0), RepSet(start, -1, 0)], [], [];
    ghost var wide: seq<seq<int>> := [];
    StartIsDescribed(from, sets[0]);
    NoneFound(from);
    var setNr := 0;
    while setNr < |sets|
      invariant setNr <= |sets| && |next| == |wide| == setNr
      invariant SetsOk(from, sets, start) && FoundOk(from, found)
      invariant sets[0] == sets[1] == RepSet(start, -1, 0)
      invariant forall q | 0 <= q < setNr :: RowOk(from, sets, found, sets[q], wide[q]) && Shorts(next[q], wide[q])
      decreases AllBits(StateCount(from)) - SeenBits(sets), |sets| - setNr
    {
      var row, wideRow, more, moreFound := FillRow(from, follow, sets[setNr], sets, found, start);
      SeesMore(from, sets, more, start);
      forall q | 0 <= q < setNr ensures RowOk(from, more, moreFound, more[q], wide[q]) {
        RowGrows(from, sets, more, found, moreFound, sets[q], wide[q]);
      }
      IsRow(from, more, moreFound, more[setNr], wideRow);
      next, wide := next + [row], wide + [wideRow];
      sets, found := more, moreFound;
      setNr := setNr + 1;
    }
    m := Machine(sets, next, found);
    ghost var ideal := Machine(sets, wide, found);
    FoundFits(from, maxLength);
    StoredOk(from, m, ideal, start);
  }

  lemma NoneFound(from: seq<seq<Byte>>)
    ensures FoundOk(from, [])
  {
  }

  lemma StartIsDescribed(from: seq<seq<Byte>>, st: RepSet)
    requires PlainStrings(from) && StartBits(from, st.bits)
    ensures Described(from, st) && forall w | Fresh(from, w) :: Describes(from, w, st)
  {
    NothingReadIsFresh(from);
    forall w | Fresh(from, w) ensures Describes(from, w, st) {
      FreshIsStart(from, w, st);
    }
  }

  lemma IsRow(from: seq<seq<Byte>>, sets: seq<RepSet>, found: seq<FoundSet>, st: RepSet, row: seq<int>)
    requires |row| == 256 && forall c: Byte | c < 256 :: EntryOk(from, sets, found, st, c, row[c])
    ensures RowOk(from, sets, found, st, row)
  {
  }

  lemma RowGrows(from: seq<seq<Byte>>, sets: seq<RepSet>, sets': seq<RepSet>, found: seq<FoundSet>, found': seq<FoundSet>, st: RepSet, row: seq<int>)
    requires RowOk(from, sets, found, st, row) && sets <= sets' && found <= found'
    ensures RowOk(from, sets', found', st, row)
  {
    forall c: Byte | c < 256 ensures EntryOk(from, sets', found', st, c, row[c]) {
      EntryGrows(from, sets, sets', found, found', st, c, row[c]);
    }
  }

  lemma IsClosed(from: seq<seq<Byte>>, follow: seq<Follow>)
    requires PlainStrings(from) && FollowsStates(from, follow)
    ensures Closed(follow)
  {
    forall b | 0 < b < |follow| && follow[b].chr != 0 ensures b + 1 < |follow| {
      FollowAt(from, follow, b);
    }
  }
}
