/** Walks along next links: what the search loops and hp_movelink rely on. */
module HashWalk {
  import opened LinearHash

  /** `k` links lead from slot `s` to slot `p`. */
  ghost predicate Leads(slots: seq<HashInfo>, s: int, p: int, k: nat)
    decreases k
  {
    && 0 <= s < |slots|
    && (if k == 0 then s == p else slots[s].next != NIL && Leads(slots, slots[s].next, p, k - 1))
  }

  lemma {:induction false} LeadsOn(slots: seq<HashInfo>, s: int, p: int, k: nat)
    requires Leads(slots, s, p, k) && 0 <= p < |slots| && 0 <= slots[p].next < |slots|
    ensures Leads(slots, s, slots[p].next, k + 1)
    decreases k
  {
    if k > 0 {
      LeadsOn(slots, slots[s].next, p, k - 1);
    } else {
      assert Leads(slots, slots[p].next, slots[p].next, 0);
    }
  }

  /** Every record is reached from its home slot. */
  lemma {:induction false} HomeLeads(a: Links, n: nat, f: nat -> nat, hole: int, p: nat) returns (k: nat)
    requires Chained(a, n, f, hole) && p < n && p != hole
    ensures Leads(a.slots, f(a.slots[p].rec), p, k)
    decreases a.rank[p]
  {
    assert SlotOk(a, n, f, hole, p);
    if a.prev[p] == NIL {
      k := 0;
    } else {
      k := HomeLeads(a, n, f, hole, a.prev[p]);
      LeadsOn(a.slots, f(a.slots[p].rec), a.prev[p], k);
      k := k + 1;
    }
  }

  /** Links stay in the chain and go up in rank. */
  lemma {:induction false} LeadsStays(a: Links, n: nat, f: nat -> nat, hole: int, s: nat, p: int, k: nat)
    requires Chained(a, n, f, hole) && s < n && s != hole && Leads(a.slots, s, p, k)
    ensures 0 <= p < n && p != hole && f(a.slots[p].rec) == f(a.slots[s].rec)
    ensures a.rank[s] + k <= a.rank[p]
    decreases k
  {
    assert SlotOk(a, n, f, hole, s);
    if k > 0 {
      assert SlotOk(a, n, f, hole, a.slots[s].next);
      LeadsStays(a, n, f, hole, a.slots[s].next, p, k - 1);
    }
  }

  /** Every chain ends. */
  lemma {:induction false} ChainEnds(a: Links, n: nat, f: nat -> nat, hole: int, s: nat, bound: nat) returns (end: nat, k: nat)
    requires Chained(a, n, f, hole) && s < n && s != hole
    requires forall x | 0 <= x < |a.rank| :: a.rank[x] < bound
    ensures end < n && end != hole && a.slots[end].next == NIL && f(a.slots[end].rec) == f(a.slots[s].rec)
    ensures Leads(a.slots, s, end, k)
    decreases bound - a.rank[s]
  {
    assert SlotOk(a, n, f, hole, s);
    if a.slots[s].next == NIL {
      end, k := s, 0;
    } else {
      var t := a.slots[s].next;
      assert SlotOk(a, n, f, hole, t);
      end, k := ChainEnds(a, n, f, hole, t, bound);
      k := k + 1;
    }
  }

  ghost function RankBound(rank: seq<nat>): (bound: nat)
    ensures forall s | 0 <= s < |rank| :: rank[s] < bound
  {
    if rank == [] then 0
    else
      var rest := RankBound(rank[1..]);
      assert forall s | 1 <= s < |rank| :: rank[s] == rank[1..][s - 1];
      rest + rank[0] + 1
  }

  /** From `s`, slot `p` is the first whose next link is `pos`, `k` links on: what
      hp_movelink's loop finds. */
  ghost predicate FirstLinkTo(slots: seq<HashInfo>, s: int, pos: int, p: int, k: nat)
    decreases k
  {
    && 0 <= s < |slots|
    && (if slots[s].next == pos then k == 0 && s == p
        else k > 0 && FirstLinkTo(slots, slots[s].next, pos, p, k - 1))
  }

  /** The pointers already moved do not disturb the walk to `p` if they keep the next links
      of the slots of that chain up to `p`. */
  lemma {:induction false} WalkUndisturbed(a: Links, n: nat, f: nat -> nat, hole: int, slots: seq<HashInfo>, s: nat, p: nat, k: nat)
    requires Chained(a, n, f, hole) && |slots| == |a.slots|
    requires s < n && s != hole && p < n && p != hole && Leads(a.slots, s, p, k)
    requires forall x: nat | x < n && x != hole && f(a.slots[x].rec) == f(a.slots[p].rec) && a.rank[x] <= a.rank[p] ::
               slots[x].next == a.slots[x].next
    ensures FirstLinkTo(slots, s, a.slots[p].next, p, k)
    decreases k
  {
    assert SlotOk(a, n, f, hole, s);
    assert SlotOk(a, n, f, hole, p);
    LeadsStays(a, n, f, hole, s, p, k);
    if k > 0 {
      var t := a.slots[s].next;
      assert SlotOk(a, n, f, hole, t);
      LeadsStays(a, n, f, hole, t, p, k - 1);
      WalkUndisturbed(a, n, f, hole, slots, t, p, k - 1);
    }
  }
}
