/** What the tables built by init_replace (extra/replace.c) promise. */
module ReplaceEntries {
  import opened Prelude
  import opened ReplaceSpec
  import opened ReplaceProgress
  import opened ReplaceStates
  import opened ReplaceBits
  import opened ReplaceSets

  // ---------------------------------------------------------------- what a table entry promises

  /** The entry says which occurrence is decided after `w`, and how far back it starts. */
  ghost predicate IsFound(from: seq<seq<Byte>>, found: seq<FoundSet>, w: seq<Byte>, v: int) {
    && v <= -2 && -v - 2 < |found|
    && Decided(from, w) && Noted(from, w, found[-v - 2].tableOffset, found[-v - 2].foundOffset)
  }

  /** The entry for byte `c` of a set that describes `w`. */
  ghost predicate NextOk(from: seq<seq<Byte>>, sets: seq<RepSet>, found: seq<FoundSet>, w: seq<Byte>, c: Byte, v: int) {
    if c == 0 && !HasMatch(from, w) then v == -1
    else if Decided(from, w + [c]) then IsFound(from, found, w + [c], v)
    else 0 <= v < |sets| && Describes(from, w + [c], sets[v])
  }

  ghost predicate EntryOk(from: seq<seq<Byte>>, sets: seq<RepSet>, found: seq<FoundSet>, st: RepSet, c: Byte, v: int) {
    forall w | Describes(from, w, st) :: NextOk(from, sets, found, w, c, v)
  }

  ghost predicate Described(from: seq<seq<Byte>>, st: RepSet) {
    exists w :: Describes(from, w, st)
  }

  /** All sets mean something, set 0 is the start, and no two but the two start sets are alike. */
  ghost predicate SetsOk(from: seq<seq<Byte>>, sets: seq<RepSet>, start: Bits) {
    && |sets| >= 2 && sets[0].bits == sets[1].bits == start
    && (forall q | 0 <= q < |sets| :: Described(from, sets[q]))
    && (forall p, q | 0 <= p < q < |sets| && q != 1 :: sets[p].bits != sets[q].bits)
  }

  /** After `w` nothing is decided, and after one byte more the occurrence noted in `f` is. */
  ghost predicate ReportedAfter(from: seq<seq<Byte>>, w: seq<Byte>, c: Byte, f: FoundSet) {
    !Decided(from, w) && Decided(from, w + [c]) && Noted(from, w + [c], f.tableOffset, f.foundOffset)
  }

  ghost predicate Reported(from: seq<seq<Byte>>, f: FoundSet) {
    exists w, c :: ReportedAfter(from, w, c, f)
  }

  /** All found entries mean something, and no two are alike. */
  ghost predicate FoundOk(from: seq<seq<Byte>>, found: seq<FoundSet>) {
    && (forall q | 0 <= q < |found| :: Reported(from, found[q]))
    && (forall p, q | 0 <= p < q < |found| :: found[p] != found[q])
  }

  ghost predicate StartBits(from: seq<seq<Byte>>, start: Bits) {
    && |start| == StateCount(from) && !start[0]
    && forall b: nat | 0 < b < |start| :: start[b] <==> StateAt(from, b).count == 0
  }

  /** REPLACE: the sets with their rows, and the found table. */
  datatype Machine = Machine(sets: seq<RepSet>, next: seq<seq<int>>, found: seq<FoundSet>)

  ghost predicate RowOk(from: seq<seq<Byte>>, sets: seq<RepSet>, found: seq<FoundSet>, st: RepSet, row: seq<int>) {
    |row| == 256 && forall c: Byte | c < 256 :: EntryOk(from, sets, found, st, c, row[c])
  }

  /** What a `short` keeps of a number. */
  function ToShort(v: int): int {
    (v + 0x8000) % 0x1_0000 - 0x8000
  }

  ghost predicate Shorts(row: seq<int>, wide: seq<int>) {
    |row| == |wide| && forall c | 0 <= c < |row| :: row[c] == ToShort(wide[c])
  }

  /** Sets 0 and 1 are the start; every entry leads where the text says. */
  ghost predicate MachineOk(from: seq<seq<Byte>>, m: Machine) {
    && |m.next| == |m.sets| >= 2
    && (forall w | Fresh(from, w) :: Describes(from, w, m.sets[0]) && Describes(from, w, m.sets[1]))
    && forall q | 0 <= q < |m.sets| :: RowOk(from, m.sets, m.found, m.sets[q], m.next[q])
  }

  // ---------------------------------------------------------------- what follows from that

  /** Sets with the same bits describe the same texts: the distance back to the occurrence
      found is a function of the states in progress. */
  lemma SameBitsSameSet(from: seq<seq<Byte>>, w: seq<Byte>, st: RepSet, other: RepSet)
    requires PlainStrings(from) && Describes(from, w, st) && Described(from, other) && other.bits == st.bits
    ensures Describes(from, w, other)
  {
    var v :| Describes(from, v, other);
    if m :| Best(from, w, m) {
      var j, p :| InProgress(from, w, j, p);
      var b := NumberOf(from, |from|, State(j, p));
      assert st.bits[b];
      assert InProgress(from, v, j, p);
      assert Occurs(from, w, m.str, m.start) && m == Match(m.start, m.str);
      var e := NumberOf(from, |from|, State(m.str, |from[m.str]|));
      assert EndOn(from, w, StateAt(from, e)) && st.bits[e];
      assert MatchOf(from, v, m.str);
      forall o | Best(from, w, o) ensures o == m {
        BestIsUnique(from, w, o, m);
      }
      var a :| Best(from, v, Match(a, m.str));
      SameTailSameMatch(from, w, v, j, p, m, Match(a, m.str));
    }
  }

  lemma NothingGoesOn(from: seq<seq<Byte>>, w: seq<Byte>, c: Byte)
    requires PlainStrings(from) && LongestCompleted(from, w, c, 0)
    requires forall j: nat, p: nat | j < |from| && p < |from[j]| && Used(from, w, j, p) :: from[j][p] != c
    ensures !Waiting(from, w + [c])
  {
    forall j: nat, q: nat ensures !InProgress(from, w + [c], j, q) {
      if j < |from| {
        NextProgress(from, w, c, 0, j, q);
      }
    }
  }

  /** The end of the text after something was found. */
  lemma EndOfText(from: seq<seq<Byte>>, w: seq<Byte>, st: RepSet)
    requires PlainStrings(from) && Describes(from, w, st) && HasMatch(from, w)
    ensures Decided(from, w + [0]) && Noted(from, w + [0], st.tableOffset, st.foundOffset + 1)
  {
    forall j: nat, p: nat | j < |from| && p < |from[j]| ensures from[j][p] != 0 {
      assert from[j][p] in from[j];
    }
    assert LongestCompleted(from, w, 0, 0);
    NothingGoesOn(from, w, 0);
    forall m ensures Best(from, w + [0], m) <==> Best(from, w, m) {
      NextMatch(from, w, 0, 0, m);
    }
  }

  lemma FreshIsStart(from: seq<seq<Byte>>, w: seq<Byte>, st: RepSet)
    requires StartBits(from, st.bits) && Fresh(from, w)
    ensures Describes(from, w, st)
  {
    forall m | Best(from, w, m) ensures false {
      assert HasMatch(from, w);
    }
  }

  lemma NothingReadIsFresh(from: seq<seq<Byte>>)
    requires PlainStrings(from)
    ensures Fresh(from, [])
  {
    forall j: nat, a: nat ensures !Occurs(from, [], j, a) {
      assert j < |from| ==> from[j] != [];
    }
  }
}
