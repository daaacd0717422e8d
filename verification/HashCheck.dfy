/** check_one_key (heap/_check.c): the executable invariant of a hash index. */
module HashCheck {
  import opened Prelude
  import opened LinearHash
  import opened HashWalk

  /** Next links stay in the index. */
  ghost predicate InRange(slots: seq<HashInfo>, n: nat) {
    n <= |slots| && forall s: nat | s < n && slots[s].next != NIL :: 0 <= slots[s].next < n
  }

  /** They do not run in circles: `rank` grows along them. */
  ghost predicate Acyclic(slots: seq<HashInfo>, n: nat, rank: seq<nat>) {
    InRange(slots, n) && |rank| == |slots| && forall s: nat | s < n && slots[s].next != NIL :: rank[s] < rank[slots[s].next]
  }

  /** What a good index is, said of the slots alone: a home that records belong to is held by
      one of them, links stay within a home, and every slot is on the chain of its home. */
  ghost predicate WellChained(slots: seq<HashInfo>, n: nat, f: nat -> nat)
    requires n <= |slots|
  {
    forall s: nat | s < n :: WellPlaced(slots, n, f, s)
  }

  ghost predicate WellPlaced(slots: seq<HashInfo>, n: nat, f: nat -> nat, s: nat)
    requires s < n <= |slots|
  {
    var h := f(slots[s].rec);
    && h < n && f(slots[h].rec) == h
    && (0 <= slots[s].next < n ==> f(slots[slots[s].next].rec) == h)
    && OnChain(slots, h, s)
  }

  ghost predicate OnChain(slots: seq<HashInfo>, h: nat, s: nat) {
    exists k :: Leads(slots, h, s, k)
  }

  // ---------------------------------------------------------------- ends and circles

  /** A record of home `h` is in slot `h`. */
  predicate InUse(slots: seq<HashInfo>, n: nat, f: nat -> nat, h: nat)
    requires n <= |slots|
  {
    h < n && f(slots[h].rec) == h
  }

  ghost predicate EndsAt(slots: seq<HashInfo>, s: int, e: int, k: nat) {
    Leads(slots, s, e, k) && 0 <= e < |slots| && slots[e].next == NIL
  }

  /** The links from `s` on come to an end. */
  ghost predicate Ending(slots: seq<HashInfo>, s: int) {
    exists e, k :: EndsAt(slots, s, e, k)
  }

  ghost predicate ChainsEnd(slots: seq<HashInfo>, n: nat, f: nat -> nat)
    requires n <= |slots|
  {
    forall h: nat | InUse(slots, n, f, h) :: Ending(slots, h)
  }

  /** From `s` on the links go round, and never through a slot of home `h`. */
  ghost predicate ForeignCircle(slots: seq<HashInfo>, f: nat -> nat, h: nat, s: nat) {
    forall p: nat, k | Leads(slots, s, p, k) :: p < |slots| && slots[p].next != NIL && f(slots[p].rec) != h
  }

  /** The links from `s` on run into such a circle. */
  ghost predicate TrapAhead(slots: seq<HashInfo>, f: nat -> nat, h: nat, s: nat) {
    exists p: nat :: p < |slots| && OnChain(slots, s, p) && ForeignCircle(slots, f, h, p)
  }

  ghost predicate Trapped(slots: seq<HashInfo>, f: nat -> nat, h: nat) {
    TrapAhead(slots, f, h, h)
  }

  /** No home below `i` is trapped, unless the chain of an earlier one has no end either: on that
      one the check has counted more slots than there are, and walks no more. */
  ghost predicate NoTrap(slots: seq<HashInfo>, n: nat, f: nat -> nat, i: nat)
    requires n <= |slots|
  {
    forall h: nat | h < i && InUse(slots, n, f, h) && Trapped(slots, f, h) :: EndlessBelow(slots, n, f, h)
  }

  ghost predicate EndlessBelow(slots: seq<HashInfo>, n: nat, f: nat -> nat, i: nat)
    requires n <= |slots|
  {
    exists g: nat :: g < i && InUse(slots, n, f, g) && !Ending(slots, g)
  }

  lemma {:induction false} LeadsInRange(slots: seq<HashInfo>, n: nat, s: nat, p: int, k: nat)
    requires InRange(slots, n) && s < n && Leads(slots, s, p, k)
    ensures 0 <= p < n
    decreases k
  {
    if k > 0 {
      LeadsInRange(slots, n, slots[s].next, p, k - 1);
    }
  }

  lemma {:induction false} LeadsBoth(slots: seq<HashInfo>, s: int, p: int, q: int, j: nat, k: nat)
    requires Leads(slots, s, p, j) && Leads(slots, p, q, k)
    ensures Leads(slots, s, q, j + k)
    decreases j
  {
    if j > 0 {
      LeadsBoth(slots, slots[s].next, p, q, j - 1, k);
    }
  }

  /** An end is the end of everything before it. */
  lemma {:induction false} EndAhead(slots: seq<HashInfo>, h: int, e: int, k: nat, s: int, j: nat)
    requires EndsAt(slots, h, e, k) && Leads(slots, h, s, j)
    ensures j <= k && EndsAt(slots, s, e, k - j)
    decreases j
  {
    if j > 0 {
      assert k > 0;
      EndAhead(slots, slots[h].next, e, k - 1, s, j - 1);
    }
  }

  lemma OneEnd(slots: seq<HashInfo>, s: int, d: int, j: nat, e: int, k: nat)
    requires EndsAt(slots, s, d, j) && EndsAt(slots, s, e, k)
    ensures j == k && d == e
  {
    EndAhead(slots, s, e, k, d, j);
  }

  /** How many links it is to the end. */
  ghost function ToEnd(slots: seq<HashInfo>, s: int): nat {
    if Ending(slots, s) then var e, k: nat :| EndsAt(slots, s, e, k); k else 0
  }

  ghost function ToEnds(slots: seq<HashInfo>): (r: seq<nat>)
    ensures |r| == |slots| && forall s | 0 <= s < |r| :: r[s] == ToEnd(slots, s)
  {
    seq(|slots|, (s: nat) => ToEnd(slots, s))
  }

  /** A rank that grows along all chains that end. */
  ghost function Ranks(slots: seq<HashInfo>): (r: seq<nat>)
    ensures |r| == |slots|
    ensures forall s | 0 <= s < |r| :: r[s] == RankBound(ToEnds(slots)) - ToEnd(slots, s)
  {
    var ends := ToEnds(slots);
    var bound := RankBound(ends);
    seq(|slots|, s requires 0 <= s < |slots| => assert ends[s] < bound; bound - ends[s])
  }

  lemma RanksGrow(slots: seq<HashInfo>, s: nat)
    requires s < |slots| && Ending(slots, s) && 0 <= slots[s].next < |slots|
    ensures Ending(slots, slots[s].next) && Ranks(slots)[s] < Ranks(slots)[slots[s].next]
  {
    var t := slots[s].next;
    var e, k: nat :| EndsAt(slots, s, e, k) && ToEnd(slots, s) == k;
    assert EndsAt(slots, t, e, k - 1);
    var d, j :| EndsAt(slots, t, d, j) && ToEnd(slots, t) == j;
    OneEnd(slots, t, d, j, e, k - 1);
  }

  /** Along the chain of `i`, `rank` grows. */
  ghost predicate Ranked(slots: seq<HashInfo>, n: nat, i: nat, rank: seq<nat>) {
    && InRange(slots, n) && |rank| == |slots|
    && forall s: nat | s < n && OnChain(slots, i, s) && slots[s].next != NIL :: rank[s] < rank[slots[s].next]
  }

  lemma EndingRanked(slots: seq<HashInfo>, n: nat, i: nat)
    requires InRange(slots, n) && i < n && Ending(slots, i)
    ensures Ranked(slots, n, i, Ranks(slots))
  {
    var e, k: nat :| EndsAt(slots, i, e, k);
    forall s: nat | s < n && OnChain(slots, i, s) && slots[s].next != NIL ensures Ranks(slots)[s] < Ranks(slots)[slots[s].next] {
      var j :| Leads(slots, i, s, j);
      EndAhead(slots, i, e, k, s, j);
      RanksGrow(slots, s);
    }
  }

  /** An index is without circles if and only if its chains end, where every slot is on a chain. */
  lemma AcyclicIff(slots: seq<HashInfo>, n: nat, f: nat -> nat)
    requires InRange(slots, n) && WellChained(slots, n, f)
    ensures ChainsEnd(slots, n, f) <==> exists rank :: Acyclic(slots, n, rank)
  {
    if ChainsEnd(slots, n, f) {
      forall s: nat | s < n && slots[s].next != NIL ensures Ranks(slots)[s] < Ranks(slots)[slots[s].next] {
        assert WellPlaced(slots, n, f, s);
        var h := f(slots[s].rec);
        var j :| Leads(slots, h, s, j);
        assert InUse(slots, n, f, h);
        var e, k: nat :| EndsAt(slots, h, e, k);
        EndAhead(slots, h, e, k, s, j);
        RanksGrow(slots, s);
      }
      assert Acyclic(slots, n, Ranks(slots));
    }
    if rank: seq<nat> :| Acyclic(slots, n, rank) {
      forall h: nat | InUse(slots, n, f, h) ensures Ending(slots, h) {
        RankedEnds(slots, n, rank, h, RankBound(rank));
      }
    }
  }

  lemma {:induction false} RankedEnds(slots: seq<HashInfo>, n: nat, rank: seq<nat>, s: nat, bound: nat)
    requires Acyclic(slots, n, rank) && s < n && forall x | 0 <= x < |rank| :: rank[x] < bound
    ensures Ending(slots, s)
    decreases bound - rank[s]
  {
    if slots[s].next == NIL {
      assert EndsAt(slots, s, s, 0);
    } else {
      RankedEnds(slots, n, rank, slots[s].next, bound);
      var e, k: nat :| EndsAt(slots, slots[s].next, e, k);
      assert EndsAt(slots, s, e, k + 1);
    }
  }

  /** A chain that ends is not trapped. */
  lemma EndingNotTrapped(slots: seq<HashInfo>, n: nat, f: nat -> nat, h: nat)
    requires InRange(slots, n) && h < n && Ending(slots, h)
    ensures !Trapped(slots, f, h)
  {
    var e: nat, k :| EndsAt(slots, h, e, k);
    if s: nat :| s < |slots| && OnChain(slots, h, s) && ForeignCircle(slots, f, h, s) {
      var j :| Leads(slots, h, s, j);
      EndAhead(slots, h, e, k, s, j);
    }
  }

  // ---------------------------------------------------------------- well-chained indexes

  /** The chains that hp_write_key and hp_delete_key keep are well placed. */
  lemma ChainedIsWellChained(a: Links, n: nat, f: nat -> nat)
    requires Chained(a, n, f, NIL)
    ensures WellChained(a.slots, n, f) && Acyclic(a.slots, n, a.rank)
    ensures ChainsEnd(a.slots, n, f) && NoTrap(a.slots, n, f, n)
  {
    AllPlaced(a, n, f);
    AcyclicIff(a.slots, n, f);
    forall h: nat | InUse(a.slots, n, f, h) ensures !Trapped(a.slots, f, h) {
      EndingNotTrapped(a.slots, n, f, h);
    }
  }

  lemma AllPlaced(a: Links, n: nat, f: nat -> nat)
    requires Chained(a, n, f, NIL)
    ensures WellChained(a.slots, n, f) && Acyclic(a.slots, n, a.rank)
  {
    forall s: nat | s < n
      ensures WellPlaced(a.slots, n, f, s)
      ensures a.slots[s].next != NIL ==> 0 <= a.slots[s].next < n && a.rank[s] < a.rank[a.slots[s].next]
    {
      HomeHeads(a, n, f, NIL, s);
      var k := HomeLeads(a, n, f, NIL, s);
      if a.slots[s].next != NIL {
        assert SlotOk(a, n, f, NIL, a.slots[s].next);
      }
    }
  }

  /** Conversely, a well-chained index has the back links that `Chained` asks for. */
  lemma WellChainedIsChained(slots: seq<HashInfo>, n: nat, f: nat -> nat, rank: seq<nat>) returns (a: Links)
    requires Acyclic(slots, n, rank) && WellChained(slots, n, f) && DistinctRecs(slots, n, NIL)
    ensures a.slots == slots && a.rank == rank && Chained(a, n, f, NIL)
  {
    a := Links(slots, seq(|slots|, s requires 0 <= s < |slots| => Before(slots, n, s)), rank);
    forall s: nat | s < n ensures SlotOk(a, n, f, NIL, s) {
      assert WellPlaced(slots, n, f, s);
      BackLink(slots, n, f, rank, s);
      if slots[s].next != NIL {
        UniqueBefore(slots, n, f, rank, s, slots[s].next);
      }
    }
  }

  /** Some slot that links to `s`, if there is one. */
  ghost function Before(slots: seq<HashInfo>, n: nat, s: int): int
    requires n <= |slots|
  {
    if p :| 0 <= p < n && slots[p].next == s then p else NIL
  }

  lemma BackLink(slots: seq<HashInfo>, n: nat, f: nat -> nat, rank: seq<nat>, s: nat)
    requires Acyclic(slots, n, rank) && WellChained(slots, n, f) && s < n
    ensures var p := Before(slots, n, s);
      && (p == NIL <==> f(slots[s].rec) == s)
      && (p != NIL ==> 0 <= p < n && slots[p].next == s && f(slots[p].rec) == f(slots[s].rec) && rank[p] < rank[s])
  {
    assert WellPlaced(slots, n, f, s);
    var h, p := f(slots[s].rec), Before(slots, n, s);
    if h != s {
      var k :| Leads(slots, h, s, k);
      var q := LastStep(slots, n, rank, h, s, k);
    }
    if p != NIL {
      assert WellPlaced(slots, n, f, p);
      var k :| Leads(slots, f(slots[p].rec), p, k);
      LeadsUp(slots, n, rank, f(slots[p].rec), p, k);
    }
  }

  lemma {:induction false} LeadsUp(slots: seq<HashInfo>, n: nat, rank: seq<nat>, s: nat, p: int, k: nat)
    requires Acyclic(slots, n, rank) && s < n && Leads(slots, s, p, k)
    ensures 0 <= p < n && rank[s] + k <= rank[p]
    decreases k
  {
    if k > 0 {
      LeadsUp(slots, n, rank, slots[s].next, p, k - 1);
    }
  }

  lemma {:induction false} LastStep(slots: seq<HashInfo>, n: nat, rank: seq<nat>, s: nat, p: nat, k: nat) returns (q: nat)
    requires Acyclic(slots, n, rank) && s < n && Leads(slots, s, p, k) && s != p
    ensures q < n && slots[q].next == p && k > 0 && Leads(slots, s, q, k - 1)
    decreases k
  {
    var t := slots[s].next;
    if t == p {
      q := s;
      LeadsUp(slots, n, rank, t, p, k - 1);
    } else {
      q := LastStep(slots, n, rank, t, p, k - 1);
    }
  }

  /** Along one chain no slot has two predecessors. */
  lemma UniqueBefore(slots: seq<HashInfo>, n: nat, f: nat -> nat, rank: seq<nat>, p: nat, s: nat)
    requires Acyclic(slots, n, rank) && WellChained(slots, n, f) && p < n && s < n && slots[p].next == s
    ensures Before(slots, n, s) == p
  {
    var q: nat := Before(slots, n, s);
    assert WellPlaced(slots, n, f, p) && WellPlaced(slots, n, f, q);
    var h := f(slots[p].rec);
    var i :| Leads(slots, h, p, i);
    var j :| Leads(slots, h, q, j);
    SamePath(slots, n, rank, h, p, i, q, j);
  }

  lemma {:induction false} SamePath(slots: seq<HashInfo>, n: nat, rank: seq<nat>, h: nat, p: nat, i: nat, q: nat, j: nat)
    requires Acyclic(slots, n, rank) && h < n && p < n && q < n
    requires Leads(slots, h, p, i) && Leads(slots, h, q, j) && slots[p].next == slots[q].next != NIL
    ensures p == q
    decreases i
  {
    LeadsUp(slots, n, rank, h, p, i);
    LeadsUp(slots, n, rank, h, q, j);
    if i > 0 && j > 0 {
      SamePath(slots, n, rank, slots[h].next, p, i - 1, q, j - 1);
    } else if i > 0 {
      LeadsUp(slots, n, rank, slots[h].next, p, i - 1);
    } else if j > 0 {
      LeadsUp(slots, n, rank, slots[h].next, q, j - 1);
    }
  }

  // ---------------------------------------------------------------- the check itself

  /** The slots with home below `i` that are on the chain of a home that is in use. */
  ghost function Covered(slots: seq<HashInfo>, n: nat, f: nat -> nat, i: nat): set<int>
    requires n <= |slots|
  {
    set s | 0 <= s < n && f(slots[s].rec) < i && Counted(slots, n, f, s)
  }

  ghost predicate Counted(slots: seq<HashInfo>, n: nat, f: nat -> nat, s: nat)
    requires s < n <= |slots|
  {
    var h := f(slots[s].rec);
    h < n && f(slots[h].rec) == h && OnChain(slots, h, s)
  }

  ghost predicate PureChain(slots: seq<HashInfo>, n: nat, f: nat -> nat, h: nat)
    requires n <= |slots|
  {
    forall s: nat | s < n && OnChain(slots, h, s) :: f(slots[s].rec) == h
  }

  ghost function Range(n: nat): (r: set<int>)
    ensures |r| == n && forall x :: x in r <==> 0 <= x < n
  {
    if n == 0 then {} else Range(n - 1) + {n - 1}
  }

  lemma SubsetOfRange(s: set<int>, n: nat)
    requires forall x | x in s :: 0 <= x < n
    ensures |s| <= n
    ensures |s| == n ==> forall x | 0 <= x < n :: x in s
  {
    var range := Range(n);
    assert range == s + (range - s);
    assert |range| == |s| + |range - s|;
  }

  /** The slots walked so far from home `i` that belong there. */
  ghost function AtHome(slots: seq<HashInfo>, f: nat -> nat, i: nat, walked: set<nat>): set<int>
    requires forall s | s in walked :: s < |slots|
  {
    set s: int | s in walked && f(slots[s].rec) == i
  }

  ghost predicate Walked(slots: seq<HashInfo>, n: nat, rank: seq<nat>, i: nat, walked: set<nat>, last: nat)
    requires n <= |slots| == |rank|
  {
    && last in walked && i in walked
    && (forall s | s in walked :: s < n && OnChain(slots, i, s))
    && (forall s | s in walked :: last < n && rank[s] <= rank[last])
    && (forall s: nat | s < n && OnChain(slots, i, s) :: s in walked || OnChain'(slots, slots[last].next, s))
  }

  ghost predicate OnChain'(slots: seq<HashInfo>, h: int, s: nat) {
    h != NIL && exists k :: Leads(slots, h, s, k)
  }

  lemma WalkBegins(slots: seq<HashInfo>, n: nat, rank: seq<nat>, i: nat)
    requires InRange(slots, n) && |rank| == |slots| && i < n
    ensures Walked(slots, n, rank, i, {i}, i)
  {
    assert Leads(slots, i, i, 0);
    forall s: nat | s < n && OnChain(slots, i, s) && s != i ensures OnChain'(slots, slots[i].next, s) {
      var k: nat :| Leads(slots, i, s, k);
      assert Leads(slots, slots[i].next, s, k - 1);
    }
  }

  lemma WalkGoesOn(slots: seq<HashInfo>, n: nat, rank: seq<nat>, i: nat, walked: set<nat>, last: nat)
    requires Ranked(slots, n, i, rank) && i < n && Walked(slots, n, rank, i, walked, last)
    requires slots[last].next != NIL
    ensures var t := slots[last].next; 0 <= t < n && t !in walked && rank[last] < rank[t] && Walked(slots, n, rank, i, walked + {t}, t)
  {
    var t: nat := slots[last].next;
    var j :| Leads(slots, i, last, j);
    LeadsOn(slots, i, last, j);
    assert OnChain(slots, i, t);
    forall s: nat | s < n && OnChain'(slots, t, s) && s != t ensures OnChain'(slots, slots[t].next, s) {
      var k: nat :| Leads(slots, t, s, k);
      assert Leads(slots, slots[t].next, s, k - 1);
    }
  }

  /** Walking the whole chain of home `i` covers exactly its records. */
  lemma WalkEnds(slots: seq<HashInfo>, n: nat, f: nat -> nat, rank: seq<nat>, i: nat, walked: set<nat>, last: nat)
    requires Ranked(slots, n, i, rank) && i < n && Walked(slots, n, rank, i, walked, last) && slots[last].next == NIL
    requires f(slots[i].rec) == i
    ensures Covered(slots, n, f, i + 1) == Covered(slots, n, f, i) + AtHome(slots, f, i, walked)
    ensures PureChain(slots, n, f, i) <==> forall s | s in walked :: f(slots[s].rec) == i
  {
  }

  lemma CoveredFits(slots: seq<HashInfo>, n: nat, f: nat -> nat, i: nat, walked: set<nat>)
    requires n <= |slots| && forall s | s in walked :: s < n
    ensures |Covered(slots, n, f, i)| + |AtHome(slots, f, i, walked)| <= n
    ensures Covered(slots, n, f, i) !! AtHome(slots, f, i, walked)
  {
    SubsetOfRange(Covered(slots, n, f, i) + AtHome(slots, f, i, walked), n);
  }

  lemma {:induction false} PureAlong(slots: seq<HashInfo>, n: nat, f: nat -> nat, s: nat, p: nat, k: nat)
    requires InRange(slots, n) && WellChained(slots, n, f) && s < n && Leads(slots, s, p, k)
    ensures p < n ==> f(slots[p].rec) == f(slots[s].rec)
    decreases k
  {
    if k > 0 {
      assert WellPlaced(slots, n, f, s);
      PureAlong(slots, n, f, slots[s].next, p, k - 1);
    }
  }

  /** What the counts say at the end. */
  lemma Verdict(slots: seq<HashInfo>, n: nat, f: nat -> nat)
    requires InRange(slots, n) && forall r :: n > 0 ==> f(r) < n
    ensures WellChained(slots, n, f) <==>
            |Covered(slots, n, f, n)| == n && forall h: nat | h < n && f(slots[h].rec) == h :: PureChain(slots, n, f, h)
  {
    var covered := Covered(slots, n, f, n);
    SubsetOfRange(covered, n);
    if |covered| == n && forall h: nat | h < n && f(slots[h].rec) == h :: PureChain(slots, n, f, h) {
      forall s: nat | s < n ensures WellPlaced(slots, n, f, s) {
        assert s in covered && Counted(slots, n, f, s);
        var h := f(slots[s].rec);
        if slots[s].next != NIL {
          var k :| Leads(slots, h, s, k);
          LeadsOn(slots, h, s, k);
          assert PureChain(slots, n, f, h) && OnChain(slots, h, slots[s].next);
        }
      }
    }
    if WellChained(slots, n, f) {
      forall s: nat | s < n ensures s in covered {
        assert WellPlaced(slots, n, f, s);
      }
      assert Range(n) <= covered;
      assert covered == Range(n);
      forall h: nat | h < n && f(slots[h].rec) == h ensures PureChain(slots, n, f, h) {
        forall s: nat | s < n && OnChain(slots, h, s) ensures f(slots[s].rec) == h {
          var k :| Leads(slots, h, s, k);
          PureAlong(slots, n, f, h, s, k);
        }
      }
    }
  }

  ghost function HeadsBelow(slots: seq<HashInfo>, n: nat, f: nat -> nat, i: nat): set<int>
    requires n <= |slots|
  {
    set s | 0 <= s < n && s < i && f(slots[s].rec) == s
  }

  lemma NoneBelow(slots: seq<HashInfo>, n: nat, f: nat -> nat)
    requires n <= |slots|
    ensures Covered(slots, n, f, 0) == {} && HeadsBelow(slots, n, f, 0) == {}
  {
  }

  lemma OneMoreHead(slots: seq<HashInfo>, n: nat, f: nat -> nat, i: nat)
    requires i < n <= |slots|
    ensures |HeadsBelow(slots, n, f, i + 1)| == |HeadsBelow(slots, n, f, i)| + (if f(slots[i].rec) == i then 1 else 0)
  {
    var one: set<int> := if f(slots[i].rec) == i then {i} else {};
    assert HeadsBelow(slots, n, f, i + 1) == HeadsBelow(slots, n, f, i) + one;
  }

  lemma AllHeads(slots: seq<HashInfo>, n: nat, f: nat -> nat)
    requires n <= |slots|
    ensures HeadsBelow(slots, n, f, n) == Heads(slots, n, f, NIL)
  {
  }

  lemma NothingCovered(slots: seq<HashInfo>, n: nat, f: nat -> nat, i: nat)
    requires i < n <= |slots| && f(slots[i].rec) != i
    ensures Covered(slots, n, f, i + 1) == Covered(slots, n, f, i)
  {
  }

  // ---------------------------------------------------------------- the loops

  /** What the check has counted, and whether it has seen a slot in the wrong chain. */
  datatype Tally = Tally(found: nat, error: bool)

  function Tallied(t: Tally, own: bool): Tally {
    if own then t.(found := t.found + 1) else t.(error := true)
  }

  /** The inner loop of check_one_key on the chain of `i`, from slot `at` on, if it ends within
      `turns` turns. */
  ghost function Walk(slots: seq<HashInfo>, n: nat, f: nat -> nat, i: nat, at: int, t: Tally, turns: nat): Option<Tally>
    decreases turns
  {
    if at == NIL || t.found > n then Some(t)
    else if turns == 0 || at < 0 || at >= |slots| then None
    else Walk(slots, n, f, i, slots[at].next, Tallied(t, f(slots[at].rec) == i), turns - 1)
  }

  /** The same, if it ends at all. */
  ghost function WalkEnd(slots: seq<HashInfo>, n: nat, f: nat -> nat, i: nat, at: int, t: Tally): Option<Tally> {
    if turns: nat :| Walk(slots, n, f, i, at, t, turns).Some? then Walk(slots, n, f, i, at, t, turns) else None
  }

  /** The outer loop up to slot `i`, if it comes there. */
  ghost function Scan(slots: seq<HashInfo>, n: nat, f: nat -> nat, i: nat): Option<Tally>
    requires i <= n <= |slots|
  {
    if i == 0 then Some(Tally(0, false))
    else
      match Scan(slots, n, f, i - 1)
      case None => None
      case Some(t) =>
        if InUse(slots, n, f, i - 1) then WalkEnd(slots, n, f, i - 1, slots[i - 1].next, Tallied(t, true)) else Some(t)
  }

  lemma {:induction false} MoreTurns(slots: seq<HashInfo>, n: nat, f: nat -> nat, i: nat, at: int, t: Tally, a: nat, b: nat)
    requires Walk(slots, n, f, i, at, t, a).Some? && a <= b
    ensures Walk(slots, n, f, i, at, t, b) == Walk(slots, n, f, i, at, t, a)
    decreases a
  {
    if at != NIL && t.found <= n {
      MoreTurns(slots, n, f, i, slots[at].next, Tallied(t, f(slots[at].rec) == i), a - 1, b - 1);
    }
  }

  lemma WalkEndIs(slots: seq<HashInfo>, n: nat, f: nat -> nat, i: nat, at: int, t: Tally, turns: nat)
    requires Walk(slots, n, f, i, at, t, turns).Some?
    ensures WalkEnd(slots, n, f, i, at, t) == Walk(slots, n, f, i, at, t, turns)
  {
    var other: nat :| Walk(slots, n, f, i, at, t, other).Some? && WalkEnd(slots, n, f, i, at, t) == Walk(slots, n, f, i, at, t, other);
    if other <= turns {
      MoreTurns(slots, n, f, i, at, t, other, turns);
    } else {
      MoreTurns(slots, n, f, i, at, t, turns, other);
    }
  }

  // ---------------------------------------------------------------- where they end

  ghost predicate WrongSeen(slots: seq<HashInfo>, f: nat -> nat, i: nat, walked: set<nat>) {
    exists s :: s in walked && s < |slots| && f(slots[s].rec) != i
  }

  /** A chain that ends `k` links on is walked to its end, and its members are counted. */
  lemma {:induction false} EndingWalk(slots: seq<HashInfo>, n: nat, f: nat -> nat, rank: seq<nat>, i: nat, walked: set<nat>, last: nat,
                                      e: int, k: nat, t: Tally, before: bool)
    requires Ranked(slots, n, i, rank) && InUse(slots, n, f, i) && Walked(slots, n, rank, i, walked, last) && EndsAt(slots, last, e, k)
    requires t.found == |Covered(slots, n, f, i)| + |AtHome(slots, f, i, walked)| && (t.error <==> before || WrongSeen(slots, f, i, walked))
    ensures Walk(slots, n, f, i, slots[last].next, t, k) ==
            Some(Tally(|Covered(slots, n, f, i + 1)|, before || !PureChain(slots, n, f, i)))
    decreases k
  {
    CoveredFits(slots, n, f, i, walked);
    if slots[last].next == NIL {
      WalkedAll(slots, n, f, rank, i, walked, last);
      hide Ranked, Walked, Covered, AtHome, WrongSeen, PureChain;
    } else {
      var at := slots[last].next;
      WalkGoesOn(slots, n, rank, i, walked, last);
      TalliedOne(slots, f, i, walked, at);
      hide Ranked, Walked, Covered, AtHome, WrongSeen, PureChain;
      EndingWalk(slots, n, f, rank, i, walked + {at}, at, e, k - 1, Tallied(t, f(slots[at].rec) == i), before);
    }
  }

  lemma WalkedAll(slots: seq<HashInfo>, n: nat, f: nat -> nat, rank: seq<nat>, i: nat, walked: set<nat>, last: nat)
    requires Ranked(slots, n, i, rank) && InUse(slots, n, f, i) && Walked(slots, n, rank, i, walked, last) && slots[last].next == NIL
    ensures |Covered(slots, n, f, i + 1)| == |Covered(slots, n, f, i)| + |AtHome(slots, f, i, walked)|
    ensures WrongSeen(slots, f, i, walked) <==> !PureChain(slots, n, f, i)
  {
    WalkEnds(slots, n, f, rank, i, walked, last);
    CoveredFits(slots, n, f, i, walked);
  }

  lemma TalliedOne(slots: seq<HashInfo>, f: nat -> nat, i: nat, walked: set<nat>, at: nat)
    requires at < |slots| && at !in walked && forall s | s in walked :: s < |slots|
    ensures |AtHome(slots, f, i, walked + {at})| == |AtHome(slots, f, i, walked)| + if f(slots[at].rec) == i then 1 else 0
    ensures WrongSeen(slots, f, i, walked + {at}) <==> WrongSeen(slots, f, i, walked) || f(slots[at].rec) != i
  {
    var more: set<int> := if f(slots[at].rec) == i then {at} else {};
    assert AtHome(slots, f, i, walked + {at}) == AtHome(slots, f, i, walked) + more;
    assert at in walked + {at};
  }

  /** `k` links on there is a slot of home `i`. */
  ghost predicate OwnAhead(slots: seq<HashInfo>, f: nat -> nat, i: nat, at: int, k: nat) {
    exists p: nat :: Leads(slots, at, p, k) && p < |slots| && f(slots[p].rec) == i
  }

  lemma NextOnChain(slots: seq<HashInfo>, n: nat, i: nat, at: nat)
    requires InRange(slots, n) && i < n && OnChain(slots, i, at) && !Ending(slots, i)
    ensures at < n && 0 <= slots[at].next < n && OnChain(slots, i, slots[at].next)
  {
    var j: nat :| Leads(slots, i, at, j);
    LeadsInRange(slots, n, i, at, j);
    assert slots[at].next == NIL ==> EndsAt(slots, i, at, j);
    LeadsOn(slots, i, at, j);
  }

  /** A chain that runs in a circle with slots of its own home is walked until more are counted
      than there are. */
  lemma {:induction false} CircleWalk(slots: seq<HashInfo>, n: nat, f: nat -> nat, i: nat, at: nat, t: Tally, ahead: nat) returns (turns: nat)
    requires InRange(slots, n) && i < n && OnChain(slots, i, at) && !Ending(slots, i) && !Trapped(slots, f, i)
    requires OwnAhead(slots, f, i, at, ahead)
    ensures var end := Walk(slots, n, f, i, at, t, turns); end.Some? && end.value.found > n
    decreases if t.found > n then 0 else n + 1 - t.found, ahead
  {
    if t.found > n {
      return 0;
    }
    NextOnChain(slots, n, i, at);
    var next, own, ahead' := slots[at].next, f(slots[at].rec) == i, 0;
    if own {
      ahead' := SomeOwnAhead(slots, n, f, i, next);
    } else {
      var p: nat :| Leads(slots, at, p, ahead) && p < |slots| && f(slots[p].rec) == i;
      assert ahead > 0 && Leads(slots, next, p, ahead - 1);
      ahead' := ahead - 1;
    }
    turns := CircleWalk(slots, n, f, i, next, Tallied(t, own), ahead');
    turns := turns + 1;
  }

  lemma SomeOwnAhead(slots: seq<HashInfo>, n: nat, f: nat -> nat, i: nat, at: nat) returns (ahead: nat)
    requires InRange(slots, n) && i < n && at < n && OnChain(slots, i, at) && !Ending(slots, i) && !Trapped(slots, f, i)
    ensures OwnAhead(slots, f, i, at, ahead)
  {
    assert !ForeignCircle(slots, f, i, at);
    var p: nat, k: nat :| Leads(slots, at, p, k) && !(p < |slots| && slots[p].next != NIL && f(slots[p].rec) != i);
    LeadsInRange(slots, n, at, p, k);
    var j: nat :| Leads(slots, i, at, j);
    LeadsBoth(slots, i, at, p, j, k);
    NextOnChain(slots, n, i, p);
    ahead := k;
  }

  /** Slots that lead back to themselves are on the chains of all that they lead to. */
  lemma {:induction false} Round(slots: seq<HashInfo>, p: nat, round: nat, s: nat, k: nat)
    requires Leads(slots, p, p, round) && round > 0 && Leads(slots, p, s, k)
    ensures OnChain(slots, s, p)
    decreases k
  {
    if k > 0 {
      var q := slots[p].next;
      assert Leads(slots, q, p, round - 1) && 0 <= p < |slots|;
      LeadsOn(slots, q, p, round - 1);
      Round(slots, q, round, s, k - 1);
      var j: nat :| Leads(slots, s, q, j);
      LeadsBoth(slots, s, q, p, j, round - 1);
    } else {
      assert Leads(slots, s, p, 0);
    }
  }

  lemma RoundAgain(slots: seq<HashInfo>, p: nat, s: nat, k: nat)
    requires p < |slots| && 0 <= slots[p].next < |slots| && OnChain(slots, slots[p].next, p) && Leads(slots, p, s, k)
    ensures OnChain(slots, s, p)
  {
    var j: nat :| Leads(slots, slots[p].next, p, j);
    assert Leads(slots, p, p, j + 1);
    Round(slots, p, j + 1, s, k);
  }

  lemma FromBefore(slots: seq<HashInfo>, s: nat, p: nat)
    requires s < |slots| && 0 <= slots[s].next < |slots| && OnChain(slots, slots[s].next, p)
    ensures OnChain(slots, s, p)
  {
    var k: nat :| Leads(slots, slots[s].next, p, k);
    assert Leads(slots, s, p, k + 1);
  }

  /** On the way into a trap: there is a next slot, the trap is ahead of it too, and a slot of
      home `i` is not come to again. */
  lemma IntoTrap(slots: seq<HashInfo>, n: nat, f: nat -> nat, i: nat, at: nat)
    requires InRange(slots, n) && at < n && TrapAhead(slots, f, i, at)
    ensures 0 <= slots[at].next < n && TrapAhead(slots, f, i, slots[at].next)
    ensures f(slots[at].rec) == i ==> !OnChain(slots, slots[at].next, at)
  {
    var s: nat :| s < |slots| && OnChain(slots, at, s) && ForeignCircle(slots, f, i, s);
    var k: nat :| Leads(slots, at, s, k);
    if k == 0 {
      assert Leads(slots, s, s, 0);
      var t := slots[s].next;
      assert Leads(slots, t, t, 0);
      forall p: nat, j: nat | Leads(slots, t, p, j) ensures p < |slots| && slots[p].next != NIL && f(slots[p].rec) != i {
        assert Leads(slots, s, p, j + 1);
      }
      assert OnChain(slots, t, t) && ForeignCircle(slots, f, i, t);
    } else {
      assert Leads(slots, slots[at].next, s, k - 1);
    }
    if f(slots[at].rec) == i && OnChain(slots, slots[at].next, at) {
      RoundAgain(slots, at, s, k);
    }
  }

  /** The walk into a trap does not end. */
  lemma {:induction false} TrappedWalk(slots: seq<HashInfo>, n: nat, f: nat -> nat, i: nat, own: set<nat>, at: nat, t: Tally, turns: nat)
    requires InRange(slots, n) && at < n && TrapAhead(slots, f, i, at)
    requires forall p | p in own :: p < n && f(slots[p].rec) == i && !OnChain(slots, at, p)
    requires t.found == |Covered(slots, n, f, i)| + |own|
    ensures Walk(slots, n, f, i, at, t, turns) == None
    decreases turns
  {
    assert own == AtHome(slots, f, i, own);
    CoveredFits(slots, n, f, i, own);
    if turns > 0 {
      var next, here := slots[at].next, f(slots[at].rec) == i;
      IntoTrap(slots, n, f, i, at);
      assert Leads(slots, at, at, 0);
      forall p: nat | p in own ensures !OnChain(slots, next, p) {
        if OnChain(slots, next, p) {
          FromBefore(slots, at, p);
        }
      }
      TrappedWalk(slots, n, f, i, if here then own + {at} else own, next, Tallied(t, here), turns - 1);
    }
  }

  ghost predicate Impure(slots: seq<HashInfo>, n: nat, f: nat -> nat, i: nat)
    requires n <= |slots|
  {
    exists h: nat :: h < i && InUse(slots, n, f, h) && !PureChain(slots, n, f, h)
  }

  /** One turn of the outer loop, when all is as expected so far. */
  lemma OneHome(slots: seq<HashInfo>, n: nat, f: nat -> nat, i: nat, t: Tally)
    requires InRange(slots, n) && InUse(slots, n, f, i) && t.found == |Covered(slots, n, f, i)|
    ensures var end := WalkEnd(slots, n, f, i, slots[i].next, Tallied(t, true));
      && (Ending(slots, i) ==> end == Some(Tally(|Covered(slots, n, f, i + 1)|, t.error || !PureChain(slots, n, f, i))))
      && (!Ending(slots, i) && !Trapped(slots, f, i) ==> end.Some? && end.value.found > n)
      && (Trapped(slots, f, i) ==> end == None)
  {
    var own: set<nat>, start := {i}, Tallied(t, true);
    assert Leads(slots, i, i, 0);
    if Ending(slots, i) {
      EndingNotTrapped(slots, n, f, i);
      EndingRanked(slots, n, i);
      WalkBegins(slots, n, Ranks(slots), i);
      assert AtHome(slots, f, i, own) == {i as int};
      var e, k: nat :| EndsAt(slots, i, e, k);
      EndingWalk(slots, n, f, Ranks(slots), i, own, i, e, k, start, t.error);
      WalkEndIs(slots, n, f, i, slots[i].next, start, k);
    } else {
      NextOnChain(slots, n, i, i);
      if Trapped(slots, f, i) {
        IntoTrap(slots, n, f, i, i);
        forall turns: nat ensures Walk(slots, n, f, i, slots[i].next, start, turns) == None {
          TrappedWalk(slots, n, f, i, own, slots[i].next, start, turns);
        }
      } else {
        var ahead := SomeOwnAhead(slots, n, f, i, slots[i].next);
        var turns := CircleWalk(slots, n, f, i, slots[i].next, start, ahead);
        WalkEndIs(slots, n, f, i, slots[i].next, start, turns);
      }
    }
  }

  /** How the check comes to slot `i`: with all that it should have counted, if all chains so far
      have an end; with more than there are, if not; or not at all. */
  lemma {:induction false} ScanIs(slots: seq<HashInfo>, n: nat, f: nat -> nat, i: nat)
    requires InRange(slots, n) && i <= n
    ensures Scan(slots, n, f, i).Some? <==> NoTrap(slots, n, f, i)
    ensures !EndlessBelow(slots, n, f, i) ==> Scan(slots, n, f, i) == Some(Tally(|Covered(slots, n, f, i)|, Impure(slots, n, f, i)))
    ensures EndlessBelow(slots, n, f, i) && NoTrap(slots, n, f, i) ==> Scan(slots, n, f, i).value.found > n
    decreases i
  {
    if i == 0 {
      NoneBelow(slots, n, f);
    } else {
      var h: nat := i - 1;
      ScanIs(slots, n, f, h);
      var before := Scan(slots, n, f, h);
      if !InUse(slots, n, f, h) {
        NothingCovered(slots, n, f, h);
      } else if !EndlessBelow(slots, n, f, h) {
        OneHome(slots, n, f, h, before.value);
      } else if before.Some? {
        WalkEndIs(slots, n, f, h, slots[h].next, Tallied(before.value, true), 0);
      }
    }
  }

  /** The check ends if and only if it does not come to a trapped home before it has counted too
      many slots. */
  lemma CheckEnds(slots: seq<HashInfo>, n: nat, f: nat -> nat)
    requires InRange(slots, n)
    ensures Scan(slots, n, f, n).Some? <==> NoTrap(slots, n, f, n)
  {
    ScanIs(slots, n, f, n);
  }

  /** Slots 1 and 2 link to each other, and slot 0 to slot 1; every record is in its home. */
  lemma SomeTrap(slots: seq<HashInfo>, f: nat -> nat)
    requires slots == [HashInfo(1, 0), HashInfo(2, 1), HashInfo(1, 2)] && forall r :: f(r) == r
    ensures InRange(slots, 3) && Scan(slots, 3, f, 3) == None
  {
    forall p: nat, k | Leads(slots, 1, p, k) ensures p < 3 && slots[p].next != NIL && f(slots[p].rec) != 0 {
      BetweenTwo(slots, 1, p, k);
    }
    assert Leads(slots, 1, 1, 0) && Leads(slots, 0, 1, 1) && ForeignCircle(slots, f, 0, 1);
    assert Trapped(slots, f, 0) && InUse(slots, 3, f, 0) && !EndlessBelow(slots, 3, f, 0);
    CheckEnds(slots, 3, f);
  }

  lemma {:induction false} BetweenTwo(slots: seq<HashInfo>, s: nat, p: int, k: nat)
    requires |slots| == 3 && slots[1].next == 2 && slots[2].next == 1 && 1 <= s <= 2 && Leads(slots, s, p, k)
    ensures 1 <= p <= 2
    decreases k
  {
    if k > 0 {
      BetweenTwo(slots, slots[s].next, p, k - 1);
    }
  }

  // ---------------------------------------------------------------- the program

  /** The inner loop, on the chain of home `i`, which is in use. */
  method WalkChain(slots: seq<HashInfo>, address: nat -> nat, records: nat, i: nat, before: Tally) returns (t: Tally)
    requires InRange(slots, records) && InUse(slots, records, address, i)
    requires WalkEnd(slots, records, address, i, slots[i].next, Tallied(before, true)).Some?
    ensures WalkEnd(slots, records, address, i, slots[i].next, Tallied(before, true)) == Some(t)
  {
    t := Tallied(before, true);
    var hashInfo := slots[i].next;
    ghost var start := t;
    ghost var all: nat :| Walk(slots, records, address, i, hashInfo, start, all).Some?;
    ghost var turns := all;
    while hashInfo != NIL && t.found < records + 1
      invariant hashInfo == NIL || 0 <= hashInfo < records
      invariant Walk(slots, records, address, i, hashInfo, t, turns).Some?
      invariant Walk(slots, records, address, i, hashInfo, t, turns) == Walk(slots, records, address, i, slots[i].next, start, all)
      decreases turns
    {
      t := if address(slots[hashInfo].rec) != i then t.(error := true) else t.(found := t.found + 1);
      hashInfo := slots[hashInfo].next;
      turns := turns - 1;
    }
    WalkEndIs(slots, records, address, i, slots[i].next, start, all);
  }

  /** check_one_key, without its printed statistics: no error means exactly a good index. */
  method CheckOneKey(slots: seq<HashInfo>, hashBuckets: int, address: nat -> nat, records: nat) returns (error: bool)
    requires InRange(slots, records) && NoTrap(slots, records, address, records)
    requires forall r :: records > 0 ==> address(r) < records
    ensures !error <==>
      && WellChained(slots, records, address) && ChainsEnd(slots, records, address)
      && hashBuckets == |Heads(slots, records, address, NIL)|
  {
    hide PureChain, Covered, WellChained, HeadsBelow, Heads, InRange, Ending, Trapped, WalkEnd;
    var t, hashBucketsFound, i := Tally(0, false), 0, 0;
    RangeFits(slots, records);
    NoneBelow(slots, records, address);
    while i < records
      invariant i <= records && Scan(slots, records, address, i) == Some(t)
      invariant hashBucketsFound == |HeadsBelow(slots, records, address, i)|
    {
      OneMoreHead(slots, records, address, i);
      ScanIs(slots, records, address, i + 1);
      if address(slots[i].rec) == i {
        t := WalkChain(slots, address, records, i, t);
        hashBucketsFound := hashBucketsFound + 1;
      }
      i := i + 1;
    }
    ScanIs(slots, records, address, records);
    Verdict(slots, records, address);
    AllHeads(slots, records, address);
    error := t.error;
    if t.found != records {
      error := true;
    }
    if hashBuckets != hashBucketsFound {
      error := true;
    }
  }

  lemma RangeFits(slots: seq<HashInfo>, n: nat)
    requires InRange(slots, n)
    ensures n <= |slots|
  {
  }
}
