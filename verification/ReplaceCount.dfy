/**
 How many sets and found entries init_replace builds (extra/replace.c), and when their numbers fit
 the `short` entries of its tables.
 */
module ReplaceCount {
  import opened Prelude
  import opened ReplaceSpec
  import opened ReplaceProgress
  import opened ReplaceStates
  import opened ReplaceBits
  import opened ReplaceSets
  import opened ReplaceEntries

  /** The different beginnings of the from-strings, without the whole strings. */
  function Prefixes(from: seq<seq<Byte>>): set<seq<Byte>> {
    set j, n | 0 <= j < |from| && 1 <= n < |from[j]| :: from[j][..n]
  }

  /** From-string `j` is the first of its like, and no other goes on after it. */
  predicate Alone(from: seq<seq<Byte>>, j: nat)
    requires j < |from|
  {
    forall i | 0 <= i < |from| :: !(from[j] < from[i]) && (from[i] == from[j] ==> j <= i)
  }

  /** The occurrence found in `p`, as it is seen one byte later. */
  function PairOf(from: seq<seq<Byte>>, p: seq<Byte>): FoundSet
    requires FirstMatch(from, p, 0).Some?
  {
    var m := FirstMatch(from, p, 0).value;
    FoundSet(m.str, |p| - m.start + 1)
  }

  /** Occurrences that are known only when a longer from-string did not come, ... */
  function Waits(from: seq<seq<Byte>>, prefixes: set<seq<Byte>>): set<FoundSet> {
    set p | p in prefixes && FirstMatch(from, p, 0).Some? :: PairOf(from, p)
  }

  /** ... and those that are known at once. */
  function AtOnce(from: seq<seq<Byte>>, n: nat): set<FoundSet>
    requires n <= |from|
  {
    set j: nat | j < n && Alone(from, j) :: FoundSet(j, |from[j]|)
  }

  function FoundPairs(from: seq<seq<Byte>>): set<FoundSet> {
    Waits(from, Prefixes(from)) + AtOnce(from, |from|)
  }

  /** The numbers of all sets and found entries fit a `short`. */
  predicate TableFits(from: seq<seq<Byte>>) {
    |Prefixes(from)| + 2 <= 0x8000 && |FoundPairs(from)| <= 0x7FFF
  }

  // ---------------------------------------------------------------- texts and prefixes

  lemma PrefixInProgress(from: seq<seq<Byte>>, j: nat, n: nat)
    requires j < |from| && 1 <= n < |from[j]|
    ensures from[j][..n] in Prefixes(from) && InProgress(from, from[j][..n], j, n)
    ensures !Fresh(from, from[j][..n]) && !Decided(from, from[j][..n])
  {
    var p := from[j][..n];
    assert p[|p| - n..] == p;
    assert InProgress(from, p, j, n);
  }

  lemma PrefixWaits(from: seq<seq<Byte>>, p: seq<Byte>)
    requires p in Prefixes(from)
    ensures Waiting(from, p)
  {
    var j: nat, n: nat :| j < |from| && 1 <= n < |from[j]| && p == from[j][..n];
    PrefixInProgress(from, j, n);
  }

  /** Different prefixes have different bits. */
  lemma SamePrefix(from: seq<seq<Byte>>, p: seq<Byte>, q: seq<Byte>, bits: Bits)
    requires PlainStrings(from) && p in Prefixes(from) && q in Prefixes(from) && BitsOf(from, p, bits) && BitsOf(from, q, bits)
    ensures p == q
  {
    PrefixWaits(from, p);
    PrefixWaits(from, q);
    PrefixShows(from, p, q, bits);
    PrefixShows(from, q, p, bits);
    assert q[|q| - |p|..] == q;
  }

  lemma PrefixShows(from: seq<seq<Byte>>, p: seq<Byte>, w: seq<Byte>, bits: Bits)
    requires PlainStrings(from) && p in Prefixes(from) && BitsOf(from, p, bits) && BitsOf(from, w, bits) && !Fresh(from, w)
    ensures |w| >= |p| && w[|w| - |p|..] == p
  {
    var j: nat, n: nat :| j < |from| && 1 <= n < |from[j]| && p == from[j][..n];
    PrefixInProgress(from, j, n);
    var b := NumberOf(from, |from|, State(j, n));
    assert bits[b] && BitOn(from, w, State(j, n));
  }

  /** The longest from-string in progress. */
  lemma LongestInProgress(from: seq<seq<Byte>>, w: seq<Byte>, j: nat, p: nat) returns (i: nat, q: nat)
    requires InProgress(from, w, j, p)
    ensures InProgress(from, w, i, q) && forall k: nat, r: nat | InProgress(from, w, k, r) :: r <= q
    decreases |w| - p
  {
    if k: nat, r: nat :| InProgress(from, w, k, r) && r > p {
      i, q := LongestInProgress(from, w, k, r);
    } else {
      i, q := j, p;
    }
  }

  /** The tail of `w` as long as its longest from-string in progress. */
  ghost predicate TailOf(from: seq<seq<Byte>>, w: seq<Byte>, j: nat, p: nat, v: seq<Byte>) {
    && InProgress(from, w, j, p) && v == from[j][..p] && InProgress(from, v, j, p)
    && forall k: nat, r: nat | InProgress(from, w, k, r) :: r <= p
  }

  lemma MatchInTail(from: seq<seq<Byte>>, w: seq<Byte>, j: nat, p: nat, v: seq<Byte>, m: Match) returns (o: Match)
    requires PlainStrings(from) && TailOf(from, w, j, p, v) && Best(from, w, m)
    ensures Best(from, v, o)
  {
    var t := |w| - p;
    assert w[t..] == v;
    OccursShift(from, w, t, m.str, m.start - t);
    o := MatchFromOccurrence(from, v, m.str, m.start - t);
  }

  lemma MatchInWhole(from: seq<seq<Byte>>, w: seq<Byte>, j: nat, p: nat, v: seq<Byte>, o: Match) returns (m: Match)
    requires PlainStrings(from) && TailOf(from, w, j, p, v) && Best(from, v, o)
    ensures Best(from, w, m)
  {
    var t := |w| - p;
    assert w[t..] == v;
    OccursShift(from, w, t, o.str, o.start);
    m := MatchFromOccurrence(from, w, o.str, t + o.start);
  }

  /** What is found in `w` starts within that tail, and is found there. */
  lemma TailMatch(from: seq<seq<Byte>>, w: seq<Byte>, j: nat, p: nat, v: seq<Byte>)
    requires PlainStrings(from) && TailOf(from, w, j, p, v)
    ensures HasMatch(from, w) <==> HasMatch(from, v)
    ensures forall m, o | Best(from, w, m) && Best(from, v, o) :: |w| - m.start == |v| - o.start && m.str == o.str
  {
    hide Best, InProgress;
    if m :| Best(from, w, m) {
      var o := MatchInTail(from, w, j, p, v, m);
    }
    if o :| Best(from, v, o) {
      var m := MatchInWhole(from, w, j, p, v, o);
    }
    forall m, o | Best(from, w, m) && Best(from, v, o) ensures |w| - m.start == |v| - o.start && m.str == o.str {
      SameTailSameMatch(from, w, v, j, p, m, o);
    }
  }

  lemma TailProgress(from: seq<seq<Byte>>, w: seq<Byte>, j: nat, p: nat, v: seq<Byte>, i: nat, q: nat)
    requires PlainStrings(from) && TailOf(from, w, j, p, v)
    ensures InProgress(from, w, i, q) <==> InProgress(from, v, i, q)
  {
    TailMatch(from, w, j, p, v);
    var t := |w| - p;
    assert w[t..] == v;
    if q <= p {
      assert w[|w| - q..] == v[|v| - q..];
    }
    if m :| Best(from, w, m) {
      var o :| Best(from, v, o);
      OnlyBest(from, w, m);
      OnlyBest(from, v, o);
    }
  }

  lemma TailEnd(from: seq<seq<Byte>>, w: seq<Byte>, j: nat, p: nat, v: seq<Byte>, s: State)
    requires PlainStrings(from) && TailOf(from, w, j, p, v)
    ensures EndOn(from, w, s) <==> EndOn(from, v, s)
  {
    TailMatch(from, w, j, p, v);
    if a :| Best(from, w, Match(a, s.str)) {
      var o :| Best(from, v, o);
      assert o == Match(o.start, s.str);
    }
    if b :| Best(from, v, Match(b, s.str)) {
      var m :| Best(from, w, m);
      assert m == Match(m.start, s.str);
    }
  }

  /** A text in progress has the bits of a prefix. */
  lemma TailBits(from: seq<seq<Byte>>, w: seq<Byte>, bits: Bits) returns (v: seq<Byte>)
    requires PlainStrings(from) && Waiting(from, w) && BitsOf(from, w, bits)
    ensures v in Prefixes(from) && BitsOf(from, v, bits)
  {
    var j, p;
    j, p, v := Tail(from, w);
    assert Waiting(from, v);
    forall b: nat | 0 < b < |bits| ensures bits[b] <==> BitOn(from, v, StateAt(from, b)) {
      var s := StateAt(from, b);
      TailProgress(from, w, j, p, v, s.str, s.count);
      TailEnd(from, w, j, p, v, s);
      hide InProgress, EndOn;
    }
  }

  lemma Tail(from: seq<seq<Byte>>, w: seq<Byte>) returns (j: nat, p: nat, v: seq<Byte>)
    requires Waiting(from, w)
    ensures TailOf(from, w, j, p, v) && v in Prefixes(from)
  {
    j, p :| InProgress(from, w, j, p);
    j, p := LongestInProgress(from, w, j, p);
    v := from[j][..p];
    PrefixInProgress(from, j, p);
  }

  // ---------------------------------------------------------------- the sets

  /** The machine comes to a set that describes each prefix. */
  lemma {:induction false} Reach(from: seq<seq<Byte>>, m: Machine, j: nat, n: nat) returns (q: nat)
    requires PlainStrings(from) && MachineOk(from, m) && j < |from| && n < |from[j]|
    ensures q < |m.sets| && Describes(from, from[j][..n], m.sets[q])
    decreases n
  {
    if n == 0 {
      NothingReadIsFresh(from);
      assert from[j][..0] == [];
      q := 0;
    } else {
      var before := Reach(from, m, j, n - 1);
      var c := from[j][n - 1];
      assert c in from[j];
      assert from[j][..n] == from[j][..n - 1] + [c];
      PrefixInProgress(from, j, n);
      q := EntrySet(from, m, before, from[j][..n - 1], c);
    }
  }

  /** What the entry for `c` says of a text that the set describes. */
  lemma EntryAt(from: seq<seq<Byte>>, m: Machine, q: nat, w: seq<Byte>, c: Byte) returns (v: int)
    requires MachineOk(from, m) && q < |m.sets| && Describes(from, w, m.sets[q])
    ensures |m.next[q]| == 256 && v == m.next[q][c] && NextOk(from, m.sets, m.found, w, c, v)
  {
    assert RowOk(from, m.sets, m.found, m.sets[q], m.next[q]);
    assert EntryOk(from, m.sets, m.found, m.sets[q], c, m.next[q][c]);
    v := m.next[q][c];
  }

  lemma EntrySet(from: seq<seq<Byte>>, m: Machine, q: nat, w: seq<Byte>, c: Byte) returns (v: nat)
    requires MachineOk(from, m) && q < |m.sets| && Describes(from, w, m.sets[q]) && c != 0 && !Decided(from, w + [c])
    ensures |m.next[q]| == 256 && v == m.next[q][c] && v < |m.sets| && Describes(from, w + [c], m.sets[v])
  {
    v := EntryAt(from, m, q, w, c);
  }

  lemma SameBits(from: seq<seq<Byte>>, w: seq<Byte>, a: Bits, b: Bits)
    requires BitsOf(from, w, a) && BitsOf(from, w, b)
    ensures a == b
  {
    forall i | 0 <= i < |a| ensures a[i] == b[i] {
      if i > 0 {
        assert a[i] <==> BitOn(from, w, StateAt(from, i));
      }
    }
  }

  lemma NotFresh(from: seq<seq<Byte>>, sets: seq<RepSet>, start: Bits, q: nat, w: seq<Byte>)
    requires SetsOk(from, sets, start) && StartBits(from, start) && 2 <= q < |sets| && Describes(from, w, sets[q])
    ensures Waiting(from, w)
  {
    assert sets[0].bits != sets[q].bits;
    if Fresh(from, w) {
      FreshIsStart(from, w, RepSet(start, -1, 0));
      SameBits(from, w, start, sets[q].bits);
    }
  }

  /** A set behind the start sets has the bits of a prefix, ... */
  lemma SetPrefix(from: seq<seq<Byte>>, sets: seq<RepSet>, start: Bits, q: nat) returns (p: seq<Byte>)
    requires PlainStrings(from) && SetsOk(from, sets, start) && StartBits(from, start) && 2 <= q < |sets|
    ensures p in Prefixes(from) && BitsOf(from, p, sets[q].bits)
  {
    var w :| Describes(from, w, sets[q]);
    NotFresh(from, sets, start, q, w);
    p := TailBits(from, w, sets[q].bits);
  }

  /** ... and a set with the bits of a prefix is behind the start sets. */
  lemma NotStart(from: seq<seq<Byte>>, sets: seq<RepSet>, start: Bits, p: seq<Byte>, q: nat)
    requires PlainStrings(from) && SetsOk(from, sets, start) && StartBits(from, start) && q < |sets|
    requires p in Prefixes(from) && BitsOf(from, p, sets[q].bits)
    ensures q >= 2
  {
    var j: nat, n: nat :| j < |from| && 1 <= n < |from[j]| && p == from[j][..n];
    PrefixInProgress(from, j, n);
    var b := NumberOf(from, |from|, State(j, n));
    assert sets[q].bits[b] && !start[b];
  }

  ghost predicate SetOfPrefix(from: seq<seq<Byte>>, sets: seq<RepSet>, q: nat, p: seq<Byte>) {
    2 <= q < |sets| && p in Prefixes(from) && BitsOf(from, p, sets[q].bits)
  }

  lemma {:induction false} SetPrefixes(from: seq<seq<Byte>>, sets: seq<RepSet>, start: Bits, n: nat) returns (ps: seq<seq<Byte>>)
    requires PlainStrings(from) && SetsOk(from, sets, start) && StartBits(from, start) && n + 2 <= |sets|
    ensures |ps| == n && forall q | 0 <= q < n :: SetOfPrefix(from, sets, q + 2, ps[q])
  {
    ps := [];
    if n > 0 {
      ps := SetPrefixes(from, sets, start, n - 1);
      var p := SetPrefix(from, sets, start, n + 1);
      ps := ps + [p];
    }
  }

  /** The entry that leads to the set of a prefix: that for its last byte, in the set before. */
  lemma Entered(from: seq<seq<Byte>>, m: Machine, start: Bits, p: seq<Byte>) returns (q: nat, c: Byte, v: nat)
    requires PlainStrings(from) && MachineOk(from, m) && SetsOk(from, m.sets, start) && StartBits(from, start) && p in Prefixes(from)
    ensures p != [] && c == p[|p| - 1] != 0 && !Decided(from, p[..|p| - 1] + [c])
    ensures q < |m.sets| && Describes(from, p[..|p| - 1], m.sets[q]) && |m.next[q]| == 256 && m.next[q][c] == v
    ensures SetOfPrefix(from, m.sets, v, p)
  {
    hide MachineOk, PlainStrings, SetsOk, StartBits, Prefixes, Describes, Decided, BitsOf;
    var j, n := LastByte(from, p);
    q := Reach(from, m, j, n);
    c := p[n];
    v := EntrySet(from, m, q, p[..n], c);
    DescribedBits(from, p, m.sets[v]);
    NotStart(from, m.sets, start, p, v);
  }

  lemma DescribedBits(from: seq<seq<Byte>>, w: seq<Byte>, st: RepSet)
    requires Describes(from, w, st)
    ensures BitsOf(from, w, st.bits)
  {
  }

  lemma LastByte(from: seq<seq<Byte>>, p: seq<Byte>) returns (j: nat, n: nat)
    requires PlainStrings(from) && p in Prefixes(from)
    ensures j < |from| && |p| == n + 1 && n + 1 < |from[j]| && p[..n] == from[j][..n]
    ensures p[n] != 0 && p[..n] + [p[n]] == p && !Decided(from, p)
  {
    var i: nat, k: nat :| i < |from| && 1 <= k < |from[i]| && p == from[i][..k];
    j, n := i, k - 1;
    assert from[j][n] in from[j];
    PrefixInProgress(from, j, n + 1);
  }

  lemma OneSet(from: seq<seq<Byte>>, sets: seq<RepSet>, start: Bits, a: nat, b: nat, p: seq<Byte>)
    requires SetsOk(from, sets, start) && SetOfPrefix(from, sets, a, p) && SetOfPrefix(from, sets, b, p)
    ensures a == b
  {
    SameBits(from, p, sets[a].bits, sets[b].bits);
  }

  lemma OtherPrefix(from: seq<seq<Byte>>, sets: seq<RepSet>, start: Bits, a: nat, b: nat, p: seq<Byte>, p': seq<Byte>)
    requires SetsOk(from, sets, start) && SetOfPrefix(from, sets, a, p) && SetOfPrefix(from, sets, b, p') && a != b
    ensures p != p'
  {
    if p == p' {
      OneSet(from, sets, start, a, b, p);
    }
  }

  lemma {:induction false} DistinctCount<T>(s: seq<T>, all: set<T>)
    requires forall i, j | 0 <= i < j < |s| :: s[i] != s[j]
    requires forall x :: x in s <==> x in all
    ensures |s| == |all|
    decreases |s|
  {
    if s == [] {
      assert all == {};
    } else {
      var shorter, last := s[..|s| - 1], s[|s| - 1];
      assert s == shorter + [last];
      DistinctCount(shorter, all - {last});
    }
  }

  /** There are two start sets, and one set for each prefix. */
  lemma SetsCount(from: seq<seq<Byte>>, m: Machine, start: Bits)
    requires PlainStrings(from) && MachineOk(from, m) && SetsOk(from, m.sets, start) && StartBits(from, start)
    ensures |m.sets| == 2 + |Prefixes(from)|
  {
    hide MachineOk, StartBits, BitsOf, Prefixes, PlainStrings;
    var ps := SetPrefixes(from, m.sets, start, |m.sets| - 2);
    forall p | p in Prefixes(from) ensures p in ps {
      PrefixListed(from, m, start, ps, p);
    }
    forall p | p in ps ensures p in Prefixes(from) {
      var q :| 0 <= q < |ps| && ps[q] == p;
      assert SetOfPrefix(from, m.sets, q + 2, ps[q]);
    }
    hide SetOfPrefix, SetsOk;
    forall a, b | 0 <= a < b < |ps| ensures ps[a] != ps[b] {
      OtherPrefix(from, m.sets, start, a + 2, b + 2, ps[a], ps[b]);
    }
    DistinctCount(ps, Prefixes(from));
  }

  lemma PrefixListed(from: seq<seq<Byte>>, m: Machine, start: Bits, ps: seq<seq<Byte>>, p: seq<Byte>)
    requires PlainStrings(from) && MachineOk(from, m) && SetsOk(from, m.sets, start) && StartBits(from, start)
    requires |ps| + 2 == |m.sets| && forall q | 0 <= q < |ps| :: SetOfPrefix(from, m.sets, q + 2, ps[q])
    requires p in Prefixes(from)
    ensures p in ps
  {
    hide MachineOk, StartBits, BitsOf, Prefixes, PlainStrings, SetsOk;
    var q, c, v := Entered(from, m, start, p);
    var listed := ps[v - 2];
    assert SetOfPrefix(from, m.sets, v, listed);
    SamePrefix(from, p, listed, m.sets[v].bits);
  }

  // ---------------------------------------------------------------- the found entries

  lemma WholeInProgress(from: seq<seq<Byte>>, j: nat, i: nat, q: nat)
    requires j < |from| && InProgress(from, from[j], i, q) && q >= |from[j]|
    ensures from[j] < from[i]
  {
    assert from[j][0..] == from[i][..q];
  }

  /** A from-string that is alone is decided as soon as it is read. */
  lemma AloneDecided(from: seq<seq<Byte>>, j: nat)
    requires PlainStrings(from) && j < |from| && Alone(from, j)
    ensures Best(from, from[j], Match(0, j)) && Decided(from, from[j])
  {
    var s := from[j];
    assert s[0..0 + |s|] == s;
    forall i: nat, a: nat | Occurs(from, s, i, a) ensures Beats(from, Match(0, j), Match(a, i)) {
      if a == 0 && |from[i]| == |s| {
        assert s[0..|s|] == from[i];
      }
    }
    forall i: nat, q: nat ensures !InProgress(from, s, i, q) {
      if InProgress(from, s, i, q) {
        WholeInProgress(from, j, i, q);
      }
    }
  }

  /** Everything reported is one of the pairs. */
  lemma ReportedIs(from: seq<seq<Byte>>, f: FoundSet)
    requires PlainStrings(from) && Reported(from, f)
    ensures f in FoundPairs(from)
  {
    var w, c :| ReportedAfter(from, w, c, f);
    var n := SomeLongest(from, w, c, |from|);
    if n > 0 {
      CompletedReport(from, w, c, f, n);
    } else {
      WaitedReport(from, w, c, f);
    }
  }

  lemma SomeLongest(from: seq<seq<Byte>>, w: seq<Byte>, c: Byte, k: nat) returns (n: nat)
    requires k <= |from|
    ensures forall j: nat | j < k && Completes(from, w, c, j) :: |from[j]| <= n
    ensures n > 0 ==> exists j: nat :: j < k && Completes(from, w, c, j) && |from[j]| == n
  {
    n := 0;
    if k > 0 {
      n := SomeLongest(from, w, c, k - 1);
      if Completes(from, w, c, k - 1) && |from[k - 1]| > n {
        n := |from[k - 1]|;
      }
    }
  }

  lemma CompletedReport(from: seq<seq<Byte>>, w: seq<Byte>, c: Byte, f: FoundSet, n: nat)
    requires PlainStrings(from) && ReportedAfter(from, w, c, f) && LongestCompleted(from, w, c, n) && n > 0
    ensures f in AtOnce(from, |from|)
  {
    var m := Completion(from, w, c, n);
    assert f == FoundSet(m.str, n);
    var j := m.str;
    CompletesMeans(from, w, c, j);
    NextMatch(from, w, c, n, m);
    forall i | 0 <= i < |from| ensures !(from[j] < from[i]) && (from[i] == from[j] ==> j <= i) {
      CompletesMeans(from, w, c, i);
      if from[j] < from[i] {
        GoesOn(from, w + [c], m, i);
      }
    }
  }

  /** A longer from-string that begins like the one found is still in progress. */
  lemma GoesOn(from: seq<seq<Byte>>, w: seq<Byte>, m: Match, i: nat)
    requires PlainStrings(from) && Best(from, w, m) && m.start + |from[m.str]| == |w| && i < |from| && from[m.str] < from[i]
    ensures Waiting(from, w)
  {
    var n := |from[m.str]|;
    OnlyBest(from, w, m);
    assert w[|w| - n..] == w[m.start..m.start + n] == from[i][..n];
    assert InProgress(from, w, i, n);
  }

  lemma WaitedReport(from: seq<seq<Byte>>, w: seq<Byte>, c: Byte, f: FoundSet)
    requires PlainStrings(from) && ReportedAfter(from, w, c, f) && LongestCompleted(from, w, c, 0)
    ensures f in Waits(from, Prefixes(from))
  {
    var m :| Best(from, w + [c], m);
    NextMatch(from, w, c, 0, m);
    var j, p, v := Tail(from, w);
    TailMatch(from, w, j, p, v);
    var o :| Best(from, v, o);
    BestIsFirstMatch(from, v, o);
    assert f == PairOf(from, v);
  }

  /** Every pair is reported by an entry. */
  lemma PairReported(from: seq<seq<Byte>>, m: Machine, f: FoundSet) returns (q: nat, w: seq<Byte>, c: Byte, v: int)
    requires PlainStrings(from) && MachineOk(from, m) && f in FoundPairs(from)
    ensures q < |m.sets| && Describes(from, w, m.sets[q]) && |m.next[q]| == 256 && v == m.next[q][c]
    ensures (c != 0 || HasMatch(from, w)) && ReportedAfter(from, w, c, f)
    ensures v <= -2 && -v - 2 < |m.found| && m.found[-v - 2] == f
  {
    hide MachineOk, FirstMatch, Describes, PlainStrings;
    if f in Waits(from, Prefixes(from)) {
      var p :| p in Prefixes(from) && FirstMatch(from, p, 0).Some? && f == PairOf(from, p);
      q := WaitReported(from, m, p);
      w, c := p, 0;
    } else {
      var j: nat :| j < |from| && Alone(from, j) && f == FoundSet(j, |from[j]|);
      q := AloneReported(from, m, j);
      w, c := from[j][..|from[j]| - 1], from[j][|from[j]| - 1];
    }
    v := ReportEntry(from, m, q, w, c, f);
  }

  lemma WaitReported(from: seq<seq<Byte>>, m: Machine, p: seq<Byte>) returns (q: nat)
    requires PlainStrings(from) && MachineOk(from, m) && p in Prefixes(from) && FirstMatch(from, p, 0).Some?
    ensures q < |m.sets| && Describes(from, p, m.sets[q]) && HasMatch(from, p) && ReportedAfter(from, p, 0, PairOf(from, p))
  {
    var j: nat, n: nat :| j < |from| && 1 <= n < |from[j]| && p == from[j][..n];
    q := Reach(from, m, j, n);
    hide MachineOk, FirstMatch;
    var o := FirstMatch(from, p, 0).value;
    BestIsFirstMatch(from, p, o);
    NotedIs(from, p, o, m.sets[q]);
    EndOfText(from, p, m.sets[q]);
  }

  lemma AloneReported(from: seq<seq<Byte>>, m: Machine, j: nat) returns (q: nat)
    requires PlainStrings(from) && MachineOk(from, m) && j < |from| && Alone(from, j)
    ensures from[j] != [] && var w, c := from[j][..|from[j]| - 1], from[j][|from[j]| - 1];
      q < |m.sets| && Describes(from, w, m.sets[q]) && c != 0 && ReportedAfter(from, w, c, FoundSet(j, |from[j]|))
  {
    var w, c := from[j][..|from[j]| - 1], from[j][|from[j]| - 1];
    q := Reach(from, m, j, |w|);
    hide MachineOk;
    assert c in from[j];
    assert w + [c] == from[j];
    AloneDecided(from, j);
    OnlyBest(from, from[j], Match(0, j));
  }

  lemma ReportEntry(from: seq<seq<Byte>>, m: Machine, q: nat, w: seq<Byte>, c: Byte, f: FoundSet) returns (v: int)
    requires MachineOk(from, m) && q < |m.sets| && Describes(from, w, m.sets[q])
    requires (c != 0 || HasMatch(from, w)) && ReportedAfter(from, w, c, f)
    ensures |m.next[q]| == 256 && v == m.next[q][c] && v <= -2 && -v - 2 < |m.found| && m.found[-v - 2] == f
  {
    v := EntryAt(from, m, q, w, c);
    hide MachineOk;
    SameNoted(from, w + [c], f, m.found[-v - 2]);
  }

  lemma NotedIs(from: seq<seq<Byte>>, w: seq<Byte>, o: Match, st: RepSet)
    requires Best(from, w, o) && Describes(from, w, st)
    ensures st.tableOffset == o.str && st.foundOffset == |w| - o.start
  {
  }

  lemma SameNoted(from: seq<seq<Byte>>, w: seq<Byte>, f: FoundSet, g: FoundSet)
    requires HasMatch(from, w) && Noted(from, w, f.tableOffset, f.foundOffset) && Noted(from, w, g.tableOffset, g.foundOffset)
    ensures f == g
  {
    var m :| Best(from, w, m);
  }

  /** There is one found entry for each pair. */
  lemma FoundCount(from: seq<seq<Byte>>, m: Machine)
    requires PlainStrings(from) && MachineOk(from, m) && FoundOk(from, m.found)
    ensures |m.found| == |FoundPairs(from)|
  {
    forall f | f in m.found ensures f in FoundPairs(from) {
      ReportedIs(from, f);
    }
    forall f | f in FoundPairs(from) ensures f in m.found {
      var q, w, c, v := PairReported(from, m, f);
    }
    hide FoundPairs;
    DistinctCount(m.found, FoundPairs(from));
  }

  // ---------------------------------------------------------------- what fits

  ghost predicate LongestIs(from: seq<seq<Byte>>, maxLength: nat) {
    forall j | 0 <= j < |from| :: |from[j]| <= maxLength
  }

  lemma PairFits(from: seq<seq<Byte>>, f: FoundSet, maxLength: nat)
    requires PlainStrings(from) && LongestIs(from, maxLength) && f in FoundPairs(from)
    ensures 0 <= f.tableOffset < |from| && 1 <= f.foundOffset <= maxLength
  {
    if f in Waits(from, Prefixes(from)) {
      var p :| p in Prefixes(from) && FirstMatch(from, p, 0).Some? && f == PairOf(from, p);
      var j: nat, n: nat :| j < |from| && 1 <= n < |from[j]| && p == from[j][..n];
      FirstMatchIsBest(from, p, 0);
    } else {
      var j: nat :| j < |from| && Alone(from, j) && f == FoundSet(j, |from[j]|);
    }
  }

  /** The found table stays inside the memory allocated for it. */
  lemma FoundFits(from: seq<seq<Byte>>, maxLength: nat)
    requires PlainStrings(from) && LongestIs(from, maxLength)
    ensures |FoundPairs(from)| <= |from| * maxLength
  {
    var pairs := FoundPairs(from);
    var codes := set f | f in pairs :: Code(f, maxLength);
    forall f | f in pairs ensures 0 <= Code(f, maxLength) < |from| * maxLength && 1 <= f.foundOffset <= maxLength {
      PairFits(from, f, maxLength);
      CodeFits(f, |from|, maxLength);
    }
    hide FoundPairs;
    CodesCount(pairs, maxLength);
    RangeCount(codes, |from| * maxLength);
  }

  function Code(f: FoundSet, maxLength: nat): int {
    f.tableOffset * maxLength + (f.foundOffset - 1)
  }

  lemma CodeFits(f: FoundSet, count: nat, maxLength: nat)
    requires 0 <= f.tableOffset < count && 1 <= f.foundOffset <= maxLength
    ensures 0 <= Code(f, maxLength) < count * maxLength
  {
    assert (f.tableOffset + 1) * maxLength <= count * maxLength;
    assert f.tableOffset * maxLength + maxLength == (f.tableOffset + 1) * maxLength;
  }

  lemma CodesDiffer(f: FoundSet, g: FoundSet, maxLength: nat)
    requires f != g && 1 <= f.foundOffset <= maxLength && 1 <= g.foundOffset <= maxLength
    ensures Code(f, maxLength) != Code(g, maxLength)
  {
    var d := f.tableOffset - g.tableOffset;
    assert Code(f, maxLength) - Code(g, maxLength) == d * maxLength + (f.foundOffset - g.foundOffset);
    NonzeroMultiple(d, maxLength);
  }

  lemma {:induction false} CodesCount(pairs: set<FoundSet>, maxLength: nat)
    requires forall f | f in pairs :: 1 <= f.foundOffset <= maxLength
    ensures |set f | f in pairs :: Code(f, maxLength)| == |pairs|
  {
    if pairs != {} {
      var one :| one in pairs;
      var rest := pairs - {one};
      CodesCount(rest, maxLength);
      forall f | f in rest ensures Code(f, maxLength) != Code(one, maxLength) {
        CodesDiffer(f, one, maxLength);
      }
      assert (set f | f in pairs :: Code(f, maxLength)) == (set f | f in rest :: Code(f, maxLength)) + {Code(one, maxLength)};
    }
  }

  lemma {:induction false} RangeCount(s: set<int>, n: nat)
    requires forall x | x in s :: 0 <= x < n
    ensures |s| <= n
  {
    if n > 0 {
      RangeCount(s - {n - 1}, n - 1);
      assert s <= (s - {n - 1}) + {n - 1};
      if n - 1 in s {
        assert s == (s - {n - 1}) + {n - 1};
      } else {
        assert s == s - {n - 1};
      }
    } else {
      assert forall x :: x !in s;
    }
  }

  /** The tables with the numbers as a `short` keeps them. */
  ghost predicate StoredAs(m: Machine, ideal: Machine) {
    && m.sets == ideal.sets && m.found == ideal.found && |m.next| == |ideal.next|
    && forall q | 0 <= q < |m.next| :: Shorts(m.next[q], ideal.next[q])
  }

  /** No entry is larger than its table. */
  lemma EntryBound(from: seq<seq<Byte>>, m: Machine, q: nat, c: Byte)
    requires MachineOk(from, m) && q < |m.sets| && Described(from, m.sets[q])
    ensures |m.next[q]| == 256 && -|m.found| - 1 <= m.next[q][c] < |m.sets|
  {
    var w :| Describes(from, w, m.sets[q]);
    var v := EntryAt(from, m, q, w, c);
  }

  lemma FitsShort(v: int)
    ensures -0x8000 <= v < 0x8000 ==> ToShort(v) == v
    ensures v == 0x8000 ==> ToShort(v) < 0
    ensures v == -0x8001 ==> ToShort(v) >= 0
  {
  }

  /** If all numbers fit, the tables are as they should be. */
  lemma StoredWhole(from: seq<seq<Byte>>, m: Machine, ideal: Machine)
    requires MachineOk(from, ideal) && StoredAs(m, ideal) && forall q | 0 <= q < |ideal.sets| :: Described(from, ideal.sets[q])
    requires |ideal.sets| <= 0x8000 && |ideal.found| <= 0x7FFF
    ensures m == ideal
  {
    forall q | 0 <= q < |m.next| ensures m.next[q] == ideal.next[q] {
      assert Shorts(m.next[q], ideal.next[q]);
      assert RowOk(from, ideal.sets, ideal.found, ideal.sets[q], ideal.next[q]);
      forall c: Byte | c < 256 ensures m.next[q][c] == ideal.next[q][c] {
        EntryBound(from, ideal, q, c);
        FitsShort(ideal.next[q][c]);
      }
    }
    assert m.next == ideal.next;
  }

  /** A set too many is entered through a negative number, ... */
  lemma SetTooMany(from: seq<seq<Byte>>, m: Machine, ideal: Machine, start: Bits)
    requires PlainStrings(from) && MachineOk(from, ideal) && StoredAs(m, ideal)
    requires SetsOk(from, ideal.sets, start) && StartBits(from, start) && |ideal.sets| > 0x8000
    ensures !MachineOk(from, m)
  {
    var p := SetPrefix(from, ideal.sets, start, 0x8000);
    var q, c, v := Entered(from, ideal, start, p);
    OneSet(from, ideal.sets, start, v, 0x8000, p);
    FitsShort(v);
    assert Shorts(m.next[q], ideal.next[q]);
    if MachineOk(from, m) {
      var u := EntryAt(from, m, q, p[..|p| - 1], c);
    }
  }

  /** ... and a found entry too many through the number of a set. */
  lemma FoundTooMany(from: seq<seq<Byte>>, m: Machine, ideal: Machine)
    requires PlainStrings(from) && MachineOk(from, ideal) && StoredAs(m, ideal) && FoundOk(from, ideal.found) && |ideal.found| > 0x7FFF
    ensures !MachineOk(from, m)
  {
    var f := ideal.found[0x7FFF];
    ReportedIs(from, f);
    var q, w, c, v := PairReported(from, ideal, f);
    FitsShort(v);
    assert Shorts(m.next[q], ideal.next[q]);
    if MachineOk(from, m) {
      var u := EntryAt(from, m, q, w, c);
    }
  }

  /** The tables are right if and only if their numbers fit. */
  lemma StoredOk(from: seq<seq<Byte>>, m: Machine, ideal: Machine, start: Bits)
    requires PlainStrings(from) && MachineOk(from, ideal) && StoredAs(m, ideal)
    requires SetsOk(from, ideal.sets, start) && StartBits(from, start) && FoundOk(from, ideal.found)
    ensures |m.sets| == 2 + |Prefixes(from)| && |m.found| == |FoundPairs(from)|
    ensures MachineOk(from, m) <==> TableFits(from)
  {
    SetsCount(from, ideal, start);
    FoundCount(from, ideal);
    hide MachineOk, Prefixes, FoundPairs;
    if TableFits(from) {
      StoredWhole(from, m, ideal);
    } else if |ideal.sets| > 0x8000 {
      SetTooMany(from, m, ideal, start);
    } else {
      FoundTooMany(from, m, ideal);
    }
  }

  // ---------------------------------------------------------------- from-strings that fit

  function TotalLength(from: seq<seq<Byte>>): nat {
    if from == [] then 0 else TotalLength(from[..|from| - 1]) + |from[|from| - 1]|
  }

  function PrefixesOf(s: seq<Byte>, n: nat): set<seq<Byte>>
    requires n <= |s|
  {
    set k | 1 <= k < n :: s[..k]
  }

  lemma {:induction false} PrefixesOfCount(s: seq<Byte>, n: nat)
    requires 1 <= n <= |s|
    ensures |PrefixesOf(s, n)| == n - 1
  {
    if n == 1 {
      assert PrefixesOf(s, 1) == {};
    } else {
      PrefixesOfCount(s, n - 1);
      assert PrefixesOf(s, n) == PrefixesOf(s, n - 1) + {s[..n - 1]};
      forall p | p in PrefixesOf(s, n - 1) ensures |p| < n - 1 {
      }
    }
  }

  lemma {:induction false} PrefixesCount(from: seq<seq<Byte>>)
    requires PlainStrings(from)
    ensures |Prefixes(from)| + |from| <= TotalLength(from)
  {
    if from == [] {
      assert Prefixes(from) == {};
    } else {
      var fewer, last := from[..|from| - 1], from[|from| - 1];
      PrefixesCount(fewer);
      PrefixesOfCount(last, |last|);
      assert Prefixes(from) == Prefixes(fewer) + PrefixesOf(last, |last|);
      assert |Prefixes(from)| <= |Prefixes(fewer)| + |PrefixesOf(last, |last|)|;
    }
  }

  lemma {:induction false} WaitsCount(from: seq<seq<Byte>>, prefixes: set<seq<Byte>>)
    ensures |Waits(from, prefixes)| <= |prefixes|
  {
    hide FirstMatch, PairOf;
    if prefixes == {} {
      assert Waits(from, prefixes) == {};
    } else {
      var one :| one in prefixes;
      WaitsCount(from, prefixes - {one});
      var more := if FirstMatch(from, one, 0).Some? then {PairOf(from, one)} else {};
      assert Waits(from, prefixes) == Waits(from, prefixes - {one}) + more;
    }
  }

  lemma {:induction false} AtOnceCount(from: seq<seq<Byte>>, n: nat)
    requires n <= |from|
    ensures |AtOnce(from, n)| <= n
  {
    hide Alone;
    if n == 0 {
      assert AtOnce(from, n) == {};
    } else {
      AtOnceCount(from, n - 1);
      var more := if Alone(from, n - 1) then {FoundSet(n - 1, |from[n - 1]|)} else {};
      assert AtOnce(from, n) == AtOnce(from, n - 1) + more;
    }
  }

  /** From-strings of 32767 bytes together fit. */
  lemma ShortEnough(from: seq<seq<Byte>>)
    requires PlainStrings(from) && TotalLength(from) <= 0x7FFF
    ensures TableFits(from)
  {
    PrefixesCount(from);
    WaitsCount(from, Prefixes(from));
    AtOnceCount(from, |from|);
    var waits, atOnce := Waits(from, Prefixes(from)), AtOnce(from, |from|);
    assert FoundPairs(from) == waits + atOnce;
    hide FoundPairs, Waits, AtOnce;
    assert |waits + atOnce| <= |waits| + |atOnce|;
    if from == [] {
      assert Prefixes(from) == {};
    }
  }

  /** One from-string of 40000 bytes. */
  function LongString(): seq<seq<Byte>> {
    [seq(40000, _ => 97)]
  }

  lemma LongStringUnfit()
    ensures PlainStrings(LongString()) && |Prefixes(LongString())| == 39999 && !TableFits(LongString())
  {
    var from := LongString();
    PrefixesOfCount(from[0], 40000);
    assert Prefixes(from) == PrefixesOf(from[0], 40000);
  }
}
