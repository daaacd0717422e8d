/**
 What extra/replace.c promises (its header comment): each text is replaced from left to
 right, the first occurrence first, a longer from-string before a shorter one.
 Here also: what a prefix of the text tells about its occurrences, which is what the
 state machine keeps track of.
 */
module ReplaceSpec {
  import opened Prelude

  datatype Match = Match(start: nat, str: nat)

  /** Plain from-strings: not empty, no NUL and no backslash. */
  predicate PlainStrings(from: seq<seq<Byte>>) {
    forall j | 0 <= j < |from| :: from[j] != [] && 0 !in from[j] && 92 !in from[j]
  }

  /** From-string `j` stands in `w` at `a`. */
  predicate Occurs(from: seq<seq<Byte>>, w: seq<Byte>, j: nat, a: nat) {
    j < |from| && a + |from[j]| <= |w| && w[a..a + |from[j]|] == from[j]
  }

  /** The longest of the first `k` from-strings that stands at `a`; the first of equals. */
  function LongestAt(from: seq<seq<Byte>>, w: seq<Byte>, a: nat, k: nat): Option<nat>
    requires k <= |from|
  {
    if k == 0 then None
    else
      var before := LongestAt(from, w, a, k - 1);
      if Occurs(from, w, k - 1, a) && (before.None? || (before.value < |from| && |from[before.value]| < |from[k - 1]|))
      then Some(k - 1) else before
  }

  /** The occurrence a scanner that tries position after position finds first. */
  function FirstMatch(from: seq<seq<Byte>>, w: seq<Byte>, a: nat): Option<Match>
    decreases |w| - a
  {
    if a >= |w| then None
    else if LongestAt(from, w, a, |from|).Some? then Some(Match(a, LongestAt(from, w, a, |from|).value))
    else FirstMatch(from, w, a + 1)
  }

  /** `m` beats every other occurrence in `w`: leftmost, then longest, then first listed. */
  ghost predicate Best(from: seq<seq<Byte>>, w: seq<Byte>, m: Match) {
    && Occurs(from, w, m.str, m.start)
    && forall j: nat, a: nat | Occurs(from, w, j, a) :: Beats(from, m, Match(a, j))
  }

  ghost predicate Beats(from: seq<seq<Byte>>, m: Match, o: Match) {
    && m.str < |from| && o.str < |from|
    && (|| m.start < o.start
        || (m.start == o.start && |from[m.str]| > |from[o.str]|)
        || (m.start == o.start && |from[m.str]| == |from[o.str]| && m.str <= o.str))
  }

  /** The naive scanner: replace the first match, go on behind it. */
  function Replaced(from: seq<seq<Byte>>, to: seq<seq<Byte>>, text: seq<Byte>): seq<Byte>
    requires |to| == |from| && PlainStrings(from)
    decreases |text|
  {
    match FirstMatch(from, text, 0)
    case None => text
    case Some(m) =>
      FirstMatchIsBest(from, text, 0);
      text[..m.start] + to[m.str] + Replaced(from, to, text[m.start + |from[m.str]|..])
  }

  lemma {:induction false} LongestAtIsBest(from: seq<seq<Byte>>, w: seq<Byte>, a: nat, k: nat)
    requires k <= |from|
    ensures match LongestAt(from, w, a, k)
      case None => forall j: nat | j < k :: !Occurs(from, w, j, a)
      case Some(m) => m < k && Occurs(from, w, m, a) && forall j: nat | j < k && Occurs(from, w, j, a) :: Beats(from, Match(a, m), Match(a, j))
  {
    if k > 0 {
      LongestAtIsBest(from, w, a, k - 1);
    }
  }

  /** The scanner's choice is the best one, and it misses nothing. */
  lemma {:induction false} FirstMatchIsBest(from: seq<seq<Byte>>, w: seq<Byte>, a: nat)
    requires PlainStrings(from)
    ensures match FirstMatch(from, w, a)
      case None => forall j: nat, b: nat | Occurs(from, w, j, b) :: b < a
      case Some(m) => a <= m.start && Occurs(from, w, m.str, m.start) && forall j: nat, b: nat | b >= a && Occurs(from, w, j, b) :: Beats(from, m, Match(b, j))
    decreases |w| - a
  {
    if a >= |w| {
      forall j: nat, b: nat | Occurs(from, w, j, b) ensures b < a {
        assert from[j] != [];
      }
    } else {
      LongestAtIsBest(from, w, a, |from|);
      if LongestAt(from, w, a, |from|).None? {
        FirstMatchIsBest(from, w, a + 1);
        forall j: nat, b: nat | b >= a && Occurs(from, w, j, b) ensures b >= a + 1 {
        }
      }
    }
  }

  lemma BestIsUnique(from: seq<seq<Byte>>, w: seq<Byte>, m: Match, o: Match)
    requires Best(from, w, m) && Best(from, w, o)
    ensures m == o
  {
    assert Beats(from, m, Match(o.start, o.str)) && Beats(from, o, Match(m.start, m.str));
  }

  lemma BestIsFirstMatch(from: seq<seq<Byte>>, w: seq<Byte>, m: Match)
    requires PlainStrings(from)
    ensures Best(from, w, m) <==> FirstMatch(from, w, 0) == Some(m)
  {
    FirstMatchIsBest(from, w, 0);
    match FirstMatch(from, w, 0)
    case None =>
    case Some(o) =>
      assert Best(from, w, o);
      if Best(from, w, m) {
        BestIsUnique(from, w, m, o);
      }
  }

  // ---------------------------------------------------------------- one more byte

  /** `w` ends with the first `p` bytes of from-string `j`. */
  predicate EndsWith(from: seq<seq<Byte>>, w: seq<Byte>, j: nat, p: nat) {
    j < |from| && p <= |from[j]| && p <= |w| && w[|w| - p..] == from[j][..p]
  }

  lemma EndsWithMore(from: seq<seq<Byte>>, w: seq<Byte>, c: Byte, j: nat, p: nat)
    requires j < |from| && p < |from[j]|
    ensures EndsWith(from, w + [c], j, p + 1) <==> EndsWith(from, w, j, p) && from[j][p] == c
  {
    var w' := w + [c];
    assert from[j][..p + 1] == from[j][..p] + [from[j][p]];
    if p <= |w| {
      assert w'[|w'| - (p + 1)..] == w[|w| - p..] + [c];
    }
  }

  lemma OccursMore(from: seq<seq<Byte>>, w: seq<Byte>, c: Byte, j: nat, a: nat)
    requires j < |from| && from[j] != []
    ensures Occurs(from, w + [c], j, a) <==>
            Occurs(from, w, j, a) || (a + |from[j]| == |w| + 1 && EndsWith(from, w + [c], j, |from[j]|))
  {
    var w', n := w + [c], |from[j]|;
    if a + n <= |w| {
      assert w'[a..a + n] == w[a..a + n];
    } else if a + n == |w'| {
      assert w'[a..a + n] == w'[|w'| - n..];
      assert from[j][..n] == from[j];
    }
  }

  /** An occurrence inside `w[k..]` stands `k` further on in `w`. */
  lemma OccursShift(from: seq<seq<Byte>>, w: seq<Byte>, k: nat, j: nat, a: nat)
    requires k <= |w|
    ensures Occurs(from, w[k..], j, a) <==> Occurs(from, w, j, k + a)
  {
    if j < |from| && k + a + |from[j]| <= |w| {
      assert w[k..][a..a + |from[j]|] == w[k + a..k + a + |from[j]|];
    }
  }
}
