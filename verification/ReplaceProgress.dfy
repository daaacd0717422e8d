/**
 What the bits of a set mean: after the bytes `w` since the last replacement, which
 from-strings are in progress and which occurrence is waiting to be replaced.
 */
module ReplaceProgress {
  import opened Prelude
  import opened ReplaceSpec

  ghost predicate HasMatch(from: seq<seq<Byte>>, w: seq<Byte>) {
    exists m :: Best(from, w, m)
  }

  /** From-string `j` has been read up to byte `p`, not to its end, and could still start no
      later than the occurrence found so far. */
  ghost predicate InProgress(from: seq<seq<Byte>>, w: seq<Byte>, j: nat, p: nat) {
    && EndsWith(from, w, j, p) && 1 <= p < |from[j]|
    && forall m | Best(from, w, m) :: |w| - p <= m.start
  }

  ghost predicate Waiting(from: seq<seq<Byte>>, w: seq<Byte>) {
    exists j, p :: InProgress(from, w, j, p)
  }

  /** An occurrence is found and nothing can beat it any more. */
  ghost predicate Decided(from: seq<seq<Byte>>, w: seq<Byte>) {
    HasMatch(from, w) && !Waiting(from, w)
  }

  lemma MatchFromOccurrence(from: seq<seq<Byte>>, w: seq<Byte>, j: nat, a: nat) returns (m: Match)
    requires PlainStrings(from) && Occurs(from, w, j, a)
    ensures Best(from, w, m) && Beats(from, m, Match(a, j))
  {
    FirstMatchIsBest(from, w, 0);
    m := FirstMatch(from, w, 0).value;
  }

  /** The first occurrence can only be one that ends with the byte just read. */
  lemma NewMatch(from: seq<seq<Byte>>, w: seq<Byte>, c: Byte, m: Match)
    requires PlainStrings(from) && m.str < |from|
    requires !HasMatch(from, w)
    ensures Best(from, w + [c], m) <==>
              && EndsWith(from, w + [c], m.str, |from[m.str]|) && m.start + |from[m.str]| == |w| + 1
              && forall j | 0 <= j < |from| && EndsWith(from, w + [c], j, |from[j]|) ::
                   |from[j]| < |from[m.str]| || (|from[j]| == |from[m.str]| && m.str <= j)
  {
    var w' := w + [c];
    forall j: nat, a: nat
      ensures Occurs(from, w', j, a) <==> j < |from| && a + |from[j]| == |w'| && EndsWith(from, w', j, |from[j]|)
    {
      if j < |from| {
        OccursMore(from, w, c, j, a);
        if Occurs(from, w, j, a) {
          var o := MatchFromOccurrence(from, w, j, a);
        }
      }
    }
    if Best(from, w', m) {
      forall j | 0 <= j < |from| && EndsWith(from, w', j, |from[j]|)
        ensures |from[j]| < |from[m.str]| || (|from[j]| == |from[m.str]| && m.str <= j)
      {
        assert Occurs(from, w', j, |w'| - |from[j]|);
      }
    }
  }

  /** As long as nothing is found a from-string may start at any byte, so everything the text
      ends with counts; afterwards only what was in progress. */
  ghost predicate Used(from: seq<seq<Byte>>, w: seq<Byte>, j: nat, p: nat) {
    if HasMatch(from, w) then InProgress(from, w, j, p)
    else EndsWith(from, w, j, p) && p < |from[j]|
  }

  /** The byte `c` completes from-string `j`. */
  ghost predicate Completes(from: seq<seq<Byte>>, w: seq<Byte>, c: Byte, j: nat) {
    j < |from| && from[j] != [] && Used(from, w, j, |from[j]| - 1) && from[j][|from[j]| - 1] == c
  }

  /** `n` is the length of the longest from-string completed, 0 if none is. */
  ghost predicate LongestCompleted(from: seq<seq<Byte>>, w: seq<Byte>, c: Byte, n: nat) {
    && (forall j: nat | Completes(from, w, c, j) :: |from[j]| <= n)
    && (n > 0 ==> exists j: nat :: Completes(from, w, c, j) && |from[j]| == n)
  }

  lemma CompletesMeans(from: seq<seq<Byte>>, w: seq<Byte>, c: Byte, j: nat)
    requires PlainStrings(from) && j < |from|
    ensures Completes(from, w, c, j) <==>
            EndsWith(from, w + [c], j, |from[j]|) && forall m | Best(from, w, m) :: |w| + 1 - |from[j]| <= m.start
  {
    EndsWithMore(from, w, c, j, |from[j]| - 1);
    if m :| Best(from, w, m) {
      forall o | Best(from, w, o) ensures o == m {
        BestIsUnique(from, w, o, m);
      }
      assert Occurs(from, w, m.str, m.start);
      assert from[m.str] != [];
    }
  }

  /** What is found after one more byte. */
  lemma NextMatch(from: seq<seq<Byte>>, w: seq<Byte>, c: Byte, n: nat, m: Match)
    requires PlainStrings(from) && LongestCompleted(from, w, c, n)
    ensures n == 0 ==> (Best(from, w + [c], m) <==> Best(from, w, m))
    ensures n > 0 ==>
      (Best(from, w + [c], m) <==>
        && Completes(from, w, c, m.str) && |from[m.str]| == n && m.start + n == |w| + 1
        && forall j: nat | Completes(from, w, c, j) && |from[j]| == n :: m.str <= j)
  {
    forall j: nat | j < |from| ensures Completes(from, w, c, j) <==> Completed(from, w, c, j) {
      CompletesMeans(from, w, c, j);
    }
    if HasMatch(from, w) {
      var b :| Best(from, w, b);
      NextMatchAfter(from, w, c, n, m, b);
    } else if m.str < |from| {
      NewMatch(from, w, c, m);
      assert Best(from, w + [c], m) ==> Completed(from, w, c, m.str);
    }
  }

  ghost predicate Completed(from: seq<seq<Byte>>, w: seq<Byte>, c: Byte, j: nat) {
    && j < |from| && EndsWith(from, w + [c], j, |from[j]|)
    && forall m | Best(from, w, m) :: |w| + 1 - |from[j]| <= m.start
  }

  /** An occurrence in `w + [c]`, `b` being the best in `w`: it loses to `b`, or `c` completed it. */
  ghost predicate LosesOrCompletes(from: seq<seq<Byte>>, w: seq<Byte>, c: Byte, b: Match, j: nat, a: nat) {
    j < |from| && (Beats(from, b, Match(a, j)) || (Completes(from, w, c, j) && a + |from[j]| == |w| + 1 && a <= b.start))
  }

  /** What `c` completes occurs, and beats `b`. */
  ghost predicate CompletedWins(from: seq<seq<Byte>>, w: seq<Byte>, c: Byte, b: Match, j: nat) {
    && j < |from| && |from[j]| <= |w| + 1 && |w| + 1 - |from[j]| <= b.start
    && Occurs(from, w + [c], j, |w| + 1 - |from[j]|) && Beats(from, Match(|w| + 1 - |from[j]|, j), b)
  }

  lemma OneLosesOrCompletes(from: seq<seq<Byte>>, w: seq<Byte>, c: Byte, b: Match, j: nat, a: nat)
    requires PlainStrings(from) && Best(from, w, b) && Occurs(from, w + [c], j, a)
    requires Completes(from, w, c, j) <==> Completed(from, w, c, j)
    ensures LosesOrCompletes(from, w, c, b, j, a)
  {
    OccursMore(from, w, c, j, a);
    if Occurs(from, w, j, a) {
      assert Beats(from, b, Match(a, j));
    } else if a <= b.start {
      OnlyBest(from, w, b);
      assert Completed(from, w, c, j);
    }
  }

  lemma OneCompletedWins(from: seq<seq<Byte>>, w: seq<Byte>, c: Byte, b: Match, j: nat)
    requires PlainStrings(from) && Best(from, w, b) && Completed(from, w, c, j)
    ensures CompletedWins(from, w, c, b, j)
  {
    OccursMore(from, w, c, j, |w| + 1 - |from[j]|);
    assert Occurs(from, w, b.str, b.start);
  }

  lemma OnlyBest(from: seq<seq<Byte>>, w: seq<Byte>, b: Match)
    requires Best(from, w, b)
    ensures forall o | Best(from, w, o) :: o == b
  {
    forall o | Best(from, w, o) ensures o == b {
      BestIsUnique(from, w, o, b);
    }
  }

  /** Nothing was completed: the best occurrence stays. */
  lemma BestStays(from: seq<seq<Byte>>, w: seq<Byte>, c: Byte, m: Match, b: Match)
    requires LongestCompleted(from, w, c, 0) && Occurs(from, w + [c], b.str, b.start)
    requires forall j: nat, a: nat | Occurs(from, w + [c], j, a) :: LosesOrCompletes(from, w, c, b, j, a)
    ensures Best(from, w + [c], m) <==> m == b
  {
    hide Occurs, Used;
    assert Best(from, w + [c], b);
    if Best(from, w + [c], m) {
      BestIsUnique(from, w + [c], m, b);
    }
  }

  /** Otherwise the longest completed string takes over, the first listed of these. */
  lemma BestChanges(from: seq<seq<Byte>>, w: seq<Byte>, c: Byte, n: nat, m: Match, b: Match)
    requires LongestCompleted(from, w, c, n) && n > 0
    requires b.str < |from| && b.start + |from[b.str]| <= |w|
    requires forall j: nat, a: nat | Occurs(from, w + [c], j, a) :: LosesOrCompletes(from, w, c, b, j, a)
    requires forall j: nat | Completes(from, w, c, j) :: CompletedWins(from, w, c, b, j)
    ensures Best(from, w + [c], m) <==>
              && Completes(from, w, c, m.str) && |from[m.str]| == n && m.start + n == |w| + 1
              && forall j: nat | Completes(from, w, c, j) && |from[j]| == n :: m.str <= j
  {
    hide Occurs, Used;
    var j0: nat :| Completes(from, w, c, j0) && |from[j0]| == n;
    var won := Match(|w| + 1 - n, j0);
    assert CompletedWins(from, w, c, b, j0);
    if Best(from, w + [c], m) {
      assert Beats(from, m, won) && LosesOrCompletes(from, w, c, b, m.str, m.start);
      forall j: nat | Completes(from, w, c, j) && |from[j]| == n ensures m.str <= j {
        assert CompletedWins(from, w, c, b, j) && Beats(from, m, Match(|w| + 1 - n, j));
      }
    }
    if Completes(from, w, c, m.str) && |from[m.str]| == n && m.start + n == |w| + 1 && forall j: nat | Completes(from, w, c, j) && |from[j]| == n :: m.str <= j {
      assert CompletedWins(from, w, c, b, m.str);
      forall j: nat, a: nat | Occurs(from, w + [c], j, a) ensures Beats(from, m, Match(a, j)) {
        assert LosesOrCompletes(from, w, c, b, j, a);
      }
    }
  }

  lemma NextMatchAfter(from: seq<seq<Byte>>, w: seq<Byte>, c: Byte, n: nat, m: Match, b: Match)
    requires PlainStrings(from) && LongestCompleted(from, w, c, n) && Best(from, w, b)
    requires forall j: nat | j < |from| :: Completes(from, w, c, j) <==> Completed(from, w, c, j)
    ensures n == 0 ==> (Best(from, w + [c], m) <==> Best(from, w, m))
    ensures n > 0 ==>
      (Best(from, w + [c], m) <==>
        && Completes(from, w, c, m.str) && |from[m.str]| == n && m.start + n == |w| + 1
        && forall j: nat | Completes(from, w, c, j) && |from[j]| == n :: m.str <= j)
  {
    OnlyBest(from, w, b);
    OccursMore(from, w, c, b.str, b.start);
    forall j: nat, a: nat | Occurs(from, w + [c], j, a) ensures LosesOrCompletes(from, w, c, b, j, a) {
      OneLosesOrCompletes(from, w, c, b, j, a);
    }
    hide LosesOrCompletes, CompletedWins, Completed, LongestCompleted, Used;
    forall j: nat | Completes(from, w, c, j) ensures CompletedWins(from, w, c, b, j) {
      OneCompletedWins(from, w, c, b, j);
    }
    if n == 0 {
      BestStays(from, w, c, m, b);
    } else {
      BestChanges(from, w, c, n, m, b);
    }
  }

  /** What is in progress after one more byte. */
  lemma NextProgress(from: seq<seq<Byte>>, w: seq<Byte>, c: Byte, n: nat, j: nat, q: nat)
    requires PlainStrings(from) && LongestCompleted(from, w, c, n)
    requires j < |from|
    ensures InProgress(from, w + [c], j, q) <==>
            1 <= q < |from[j]| && Used(from, w, j, q - 1) && from[j][q - 1] == c && q >= n
  {
    if 1 <= q < |from[j]| {
      EndsWithMore(from, w, c, j, q - 1);
      UsedMeans(from, w, j, q - 1);
      if HasMatch(from, w + [c]) {
        var m :| Best(from, w + [c], m);
        forall o | Best(from, w + [c], o) ensures o == m {
          BestIsUnique(from, w + [c], o, m);
        }
        NextMatch(from, w, c, n, m);
        if n > 0 {
          CompletesMeans(from, w, c, m.str);
        }
      } else {
        NoMatchYet(from, w, c, n);
      }
    }
  }

  lemma UsedMeans(from: seq<seq<Byte>>, w: seq<Byte>, j: nat, p: nat)
    requires PlainStrings(from) && j < |from|
    ensures Used(from, w, j, p) <==> EndsWith(from, w, j, p) && p < |from[j]| && forall m | Best(from, w, m) :: |w| - p <= m.start
  {
    if m :| Best(from, w, m) {
      assert Occurs(from, w, m.str, m.start);
      assert from[m.str] != [];
    }
  }

  lemma NoMatchYet(from: seq<seq<Byte>>, w: seq<Byte>, c: Byte, n: nat)
    requires PlainStrings(from) && LongestCompleted(from, w, c, n) && !HasMatch(from, w + [c])
    ensures n == 0 && !HasMatch(from, w)
  {
    if m :| Best(from, w, m) {
      NextMatch(from, w, c, n, m);
      OccursMore(from, w, c, m.str, m.start);
      assert Occurs(from, w + [c], m.str, m.start);
      var o := MatchFromOccurrence(from, w + [c], m.str, m.start);
    }
    if n > 0 {
      var j: nat :| Completes(from, w, c, j) && |from[j]| == n;
      CompletesMeans(from, w, c, j);
      OccursMore(from, w, c, j, |w| + 1 - n);
      var o := MatchFromOccurrence(from, w + [c], j, |w| + 1 - n);
    }
  }

  // ---------------------------------------------------------------- rewinding

  /** What is found within a tail that `w` has too is no better than the best of `w`. */
  lemma SameTailNoBetter(from: seq<seq<Byte>>, v: seq<Byte>, w: seq<Byte>, j: nat, p: nat, m: Match, o: Match)
    requires InProgress(from, v, j, p) && InProgress(from, w, j, p)
    requires Best(from, v, m) && Best(from, w, o)
    ensures |v| >= m.start && Beats(from, Match(|v| + o.start, o.str), Match(|w| + m.start, m.str))
  {
    var s, t := |v| - p, |w| - p;
    assert v[s..] == w[t..];
    OccursShift(from, v, s, m.str, m.start - s);
    OccursShift(from, w, t, m.str, m.start - s);
    assert Beats(from, o, Match(t + (m.start - s), m.str));
  }

  /** Equal tails have equal occurrences. */
  lemma SameTailSameMatch(from: seq<seq<Byte>>, v: seq<Byte>, w: seq<Byte>, j: nat, p: nat, m: Match, o: Match)
    requires PlainStrings(from) && InProgress(from, v, j, p) && InProgress(from, w, j, p)
    requires Best(from, v, m) && Best(from, w, o)
    ensures |v| - m.start == |w| - o.start && m.str == o.str
  {
    SameTailNoBetter(from, v, w, j, p, m, o);
    SameTailNoBetter(from, w, v, j, p, o, m);
  }

  /** Once an occurrence is decided, no later byte can change it. */
  lemma DecidedStays(from: seq<seq<Byte>>, w: seq<Byte>, rest: seq<Byte>, m: Match)
    requires PlainStrings(from) && Best(from, w, m) && Decided(from, w)
    ensures Best(from, w + rest, m)
  {
    var t := w + rest;
    assert t[m.start..m.start + |from[m.str]|] == w[m.start..m.start + |from[m.str]|];
    forall j: nat, a: nat | Occurs(from, t, j, a) ensures Beats(from, m, Match(a, j)) {
      if a + |from[j]| <= |w| {
        assert t[a..a + |from[j]|] == w[a..a + |from[j]|];
        assert Occurs(from, w, j, a);
      }
      CutOff(from, w, rest, m, j, a);
    }
  }

  /** An occurrence that starts early enough and runs past `w` was in progress at its end. */
  lemma CutOff(from: seq<seq<Byte>>, w: seq<Byte>, rest: seq<Byte>, m: Match, j: nat, a: nat)
    requires PlainStrings(from) && Best(from, w, m) && Occurs(from, w + rest, j, a)
    ensures a <= m.start && a + |from[j]| > |w| ==> InProgress(from, w, j, |w| - a)
  {
    if a <= m.start && a + |from[j]| > |w| {
      var t, p := w + rest, |w| - a;
      assert from[m.str] != [];
      assert w[|w| - p..] == t[a..a + |from[j]|][..p];
      forall o | Best(from, w, o) ensures o == m {
        BestIsUnique(from, w, o, m);
      }
    }
  }

  /** Occurrences never cover a NUL. */
  lemma NothingAtNul(from: seq<seq<Byte>>, text: seq<Byte>, m: Match)
    requires PlainStrings(from)
    ensures Best(from, text + [0], m) <==> Best(from, text, m)
  {
    forall j: nat, a: nat ensures Occurs(from, text + [0], j, a) <==> Occurs(from, text, j, a) {
      if j < |from| {
        OccursMore(from, text, 0, j, a);
        EndsWithMore(from, text, 0, j, |from[j]| - 1);
        assert from[j][|from[j]| - 1] in from[j];
      }
    }
  }
}
