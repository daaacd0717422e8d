/** The states that init_replace numbers (extra/replace.c): one for each place in each from-string. */
module ReplaceStates {
  import opened Prelude
  import opened ReplaceSpec

  /** `count` bytes of from-string `str` have been read. */
  datatype State = State(str: nat, count: nat)

  /** FOLLOWS: the byte to be read next (0 behind the last), the from-string, the bytes read then. */
  datatype Follow = Follow(chr: Byte, tableOffset: nat, len: nat)

  function Places(str: nat, n: nat): (st: seq<State>)
    ensures |st| == n && forall p | 0 <= p < n :: st[p] == State(str, p)
  {
    seq(n, (p: nat) => State(str, p))
  }

  /** State numbers; number 0 is not used, because get_next_bit returns 0 for `none'. */
  function States(from: seq<seq<Byte>>, n: nat): (st: seq<State>)
    requires n <= |from|
    ensures |st| > 0
  {
    if n == 0 then [State(0, 0)] else States(from, n - 1) + Places(n - 1, |from[n - 1]| + 1)
  }

  function StateCount(from: seq<seq<Byte>>): nat {
    |States(from, |from|)|
  }

  function StateAt(from: seq<seq<Byte>>, b: nat): State
    requires b < StateCount(from)
  {
    States(from, |from|)[b]
  }

  function FollowOf(from: seq<seq<Byte>>, s: State): Follow
    requires s.str < |from| && s.count <= |from[s.str]|
  {
    if s.count < |from[s.str]| then Follow(from[s.str][s.count], s.str, s.count + 1) else Follow(0, s.str, |from[s.str]|)
  }

  /** State numbers below `n` strings: what is next to what. */
  lemma {:induction false} Numbering(from: seq<seq<Byte>>, n: nat, b: nat)
    requires n <= |from| && 0 < b < |States(from, n)|
    ensures var st, s := States(from, n), States(from, n)[b];
      && s.str < n && s.count <= |from[s.str]|
      && (s.count < |from[s.str]| ==> b + 1 < |st| && st[b + 1] == State(s.str, s.count + 1))
      && (s.count > 0 ==> b > 1 && st[b - 1] == State(s.str, s.count - 1))
  {
    var before := |States(from, n - 1)|;
    if b < before {
      Numbering(from, n - 1, b);
    }
  }

  /** Each state has one number, and numbers go up with the from-string. */
  lemma {:induction false} NumberedOnce(from: seq<seq<Byte>>, n: nat, b: nat, d: nat)
    requires n <= |from| && 0 < b < d < |States(from, n)|
    ensures var s, t := States(from, n)[b], States(from, n)[d];
      s.str < t.str || (s.str == t.str && s.count < t.count)
  {
    var before := |States(from, n - 1)|;
    if d < before {
      NumberedOnce(from, n - 1, b, d);
    } else if b < before {
      Numbering(from, n - 1, b);
    }
  }

  lemma {:induction false} NumberOf(from: seq<seq<Byte>>, n: nat, s: State) returns (b: nat)
    requires n <= |from| && s.str < n && s.count <= |from[s.str]|
    ensures 0 < b < |States(from, n)| && States(from, n)[b] == s
  {
    if s.str == n - 1 {
      b := |States(from, n - 1)| + s.count;
    } else {
      b := NumberOf(from, n - 1, s);
    }
  }

  ghost predicate FollowsStates(from: seq<seq<Byte>>, follow: seq<Follow>) {
    && |follow| == StateCount(from)
    && forall b: nat | 0 < b < |follow| :: FollowsState(from, follow, b)
  }

  ghost predicate FollowsState(from: seq<seq<Byte>>, follow: seq<Follow>, b: nat)
    requires 0 < b < |follow| == StateCount(from)
  {
    var s := StateAt(from, b);
    s.str < |from| && s.count <= |from[s.str]| && follow[b] == FollowOf(from, s)
  }

  /** The loop of init_replace that fills `follow` and the start set. */
  method BuildFollow(from: seq<seq<Byte>>) returns (follow: seq<Follow>, start: seq<bool>)
    requires PlainStrings(from)
    ensures FollowsStates(from, follow)
    ensures |start| == |follow| && !start[0]
    ensures forall b: nat | 0 < b < |start| :: start[b] <==> StateAt(from, b).count == 0
  {
    follow, start := [Follow(0, 0, 0)], [false];
    var i := 0;
    while i < |from|
      invariant i <= |from|
      invariant Filled(from, States(from, i), follow, start)
    {
      // The start set gets the state before the first byte.
      var len := 0;
      ghost var st := States(from, i);
      while len < |from[i]|
        invariant len <= |from[i]|
        invariant Filled(from, st, follow, start)
        invariant st == States(from, i) + Places(i, len)
      {
        st := st + [State(i, len)];
        follow := follow + [Follow(from[i][len], i, len + 1)];
        start := start + [len == 0];
        len := len + 1;
        assert st == States(from, i) + Places(i, len);
      }
      follow := follow + [Follow(0, i, len)];
      start := start + [false];
      st := st + [State(i, len)];
      assert st == States(from, i) + Places(i, |from[i]| + 1);
      i := i + 1;
      assert st == States(from, i);
    }
    forall b: nat | 0 < b < |follow| ensures FollowsState(from, follow, b) {
    }
  }

  ghost predicate Filled(from: seq<seq<Byte>>, st: seq<State>, follow: seq<Follow>, start: seq<bool>) {
    && |st| == |follow| == |start| && |st| > 0 && !start[0]
    && forall b: nat | 0 < b < |st| ::
         && st[b].str < |from| && st[b].count <= |from[st[b].str]| && follow[b] == FollowOf(from, st[b])
         && (start[b] <==> st[b].count == 0)
  }
}
