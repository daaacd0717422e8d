/**
 hp_delete_key (heap/hp_delete.c): what its pointer moves do to the chains.
 One lemma for each way of unlinking the record, one for each exit that then moves the
 last slot.  `f` is the address under n slots, `g` the address under n - 1.
 */
module HashDelete {
  import opened LinearHash
  import opened HashWalk

  // ---------------------------------------------------------------- unlinking

  /** `prev` with the back link of `t`, if there is a `t`, set to `p`. */
  ghost function Relinked(prev: seq<int>, t: int, p: int): seq<int> {
    if 0 <= t < |prev| then prev[t := p] else prev
  }

  lemma RecsWithout(slots: seq<HashInfo>, n: nat, x: nat, slots': seq<HashInfo>, hole: nat)
    requires n <= |slots| && n <= |slots'| && x < n && hole < n
    requires DistinctRecs(slots, n, NIL)
    requires forall s | 0 <= s < n && s != hole :: slots'[s].rec == slots[if s == x then hole else s].rec
    ensures Recs(slots', n, hole) == Recs(slots, n, NIL) - {slots[x].rec}
    ensures DistinctRecs(slots', n, hole)
  {
    forall r ensures r in Recs(slots', n, hole) <==> r in Recs(slots, n, NIL) && r != slots[x].rec {
      if r in Recs(slots', n, hole) {
        var s :| 0 <= s < n && s != hole && slots'[s].rec == r;
        assert Differ(slots, if s == x then hole else s, x);
      }
      if r in Recs(slots, n, NIL) && r != slots[x].rec {
        var s :| 0 <= s < n && slots[s].rec == r;
        assert slots'[if s == hole then x else s].rec == r;
      }
    }
    forall s, t | 0 <= s < n && 0 <= t < n && s != t && s != hole && t != hole ensures Differ(slots', s, t) {
      assert Differ(slots, if s == x then hole else s, if t == x then hole else t);
    }
  }

  /** The slot has a predecessor in its chain. */
  lemma UnlinkInner(a: Links, n: nat, f: nat -> nat, x: nat) returns (b: Links)
    requires Chained(a, n, f, NIL) && x < n && a.prev[x] != NIL
    ensures SlotOk(a, n, f, NIL, x)
    ensures var p := a.prev[x]; b.slots == a.slots[p := a.slots[p].(next := a.slots[x].next)]
    ensures Chained(b, n, f, x)
    ensures Recs(b.slots, n, x) == Recs(a.slots, n, NIL) - {a.slots[x].rec}
    ensures Heads(b.slots, n, f, x) == Heads(a.slots, n, f, NIL)
  {
    assert SlotOk(a, n, f, NIL, x);
    var p, t := a.prev[x], a.slots[x].next;
    b := Links(a.slots[p := a.slots[p].(next := t)], Relinked(a.prev, t, p), a.rank);
    assert SlotOk(a, n, f, NIL, p);
    if t != NIL {
      assert SlotOk(a, n, f, NIL, t);
    }
    forall s: nat | s < n && s != x ensures SlotOk(b, n, f, x, s) {
      assert SlotOk(a, n, f, NIL, s);
    }
    RecsWithout(a.slots, n, x, b.slots, x);
  }

  /** The record heads a chain of several: its successor is copied into the home slot. */
  lemma UnlinkHead(a: Links, n: nat, f: nat -> nat, x: nat) returns (b: Links)
    requires Chained(a, n, f, NIL) && x < n && a.prev[x] == NIL && a.slots[x].next != NIL
    ensures SlotOk(a, n, f, NIL, x)
    ensures b.slots == a.slots[x := a.slots[a.slots[x].next]]
    ensures Chained(b, n, f, a.slots[x].next)
    ensures Recs(b.slots, n, a.slots[x].next) == Recs(a.slots, n, NIL) - {a.slots[x].rec}
    ensures Heads(b.slots, n, f, a.slots[x].next) == Heads(a.slots, n, f, NIL)
  {
    assert SlotOk(a, n, f, NIL, x);
    var hole := a.slots[x].next;
    assert SlotOk(a, n, f, NIL, hole);
    var t := a.slots[hole].next;
    b := Links(a.slots[x := a.slots[hole]], Relinked(a.prev, t, x), a.rank);
    if t != NIL {
      assert SlotOk(a, n, f, NIL, t);
    }
    forall s: nat | s < n && s != hole ensures SlotOk(b, n, f, hole, s) {
      assert SlotOk(a, n, f, NIL, s);
    }
    RecsWithout(a.slots, n, x, b.slots, hole);
    assert x in Heads(a.slots, n, f, NIL);
  }

  /** The record is alone in its chain. */
  lemma UnlinkOnly(a: Links, n: nat, f: nat -> nat, x: nat)
    requires Chained(a, n, f, NIL) && x < n && a.prev[x] == NIL && a.slots[x].next == NIL
    ensures Chained(a, n, f, x)
    ensures Recs(a.slots, n, x) == Recs(a.slots, n, NIL) - {a.slots[x].rec}
    ensures Heads(a.slots, n, f, x) == Heads(a.slots, n, f, NIL) - {x as int}
    ensures x in Heads(a.slots, n, f, NIL)
  {
    assert SlotOk(a, n, f, NIL, x);
    forall s: nat | s < n && s != x ensures SlotOk(a, n, f, x, s) {
      assert SlotOk(a, n, f, NIL, s);
    }
    RecsWithout(a.slots, n, x, a.slots, x);
  }

  // ---------------------------------------------------------------- moving the last slot

  /** Slot `n - 1` is about to go, `hole` is free, and the keys addressed to slot `n - 1`
      all move to `target` while the other addresses stay. */
  ghost predicate Shrinking(a: Links, n: nat, f: nat -> nat, hole: nat, g: nat -> nat, target: nat) {
    && Chained(a, n, f, hole)
    && hole < n - 1 && target < n - 1
    && Readdresses(n, f, g, target)
  }

  /** The part of the invariant that matters for slot `s` of the new index. */
  ghost predicate Locally(a: Links, n: nat, f: nat -> nat, hole: nat, s: nat) {
    && n <= |a.slots| == |a.prev| == |a.rank|
    && s < n
    && (s != hole ==> SlotOk(a, n, f, hole, s) && f(a.slots[s].rec) != hole)
  }

  lemma IsLocally(a: Links, n: nat, f: nat -> nat, hole: nat, s: nat)
    requires Chained(a, n, f, hole) && s < n
    ensures Locally(a, n, f, hole, s)
    ensures s != hole ==> var h := f(a.slots[s].rec); h < n && f(a.slots[h].rec) == h && a.prev[h] == NIL
  {
    if s != hole {
      HomeHeads(a, n, f, hole, s);
    }
  }

  /** The index over one slot less, with the same records. */
  ghost predicate Shrunk(a: Links, n: nat, hole: nat, g: nat -> nat, b: Links)
    requires 0 < n <= |a.slots|
  {
    && |b.slots| == |a.slots|
    && Chained(b, n - 1, g, NIL)
    && Recs(b.slots, n - 1, NIL) == Recs(a.slots, n, hole)
  }

  /** Slot `s` of the new index `b` is in order; its record is the old one, except that the
      last record went to slot `pos` and the one in `pos`, if `pos` was in use, to `hole`;
      and it is at home if it was before or if it is in `added`. */
  ghost predicate SlotMoved(a: Links, n: nat, f: nat -> nat, hole: nat, g: nat -> nat, b: Links, pos: nat, added: set<int>, s: nat)
    requires 0 < n <= |a.slots| && |a.slots| == |b.slots| == |b.prev| == |b.rank| && s < n - 1 && pos < n && hole < n
  {
    && SlotOk(b, n - 1, g, NIL, s)
    && b.slots[s].rec == a.slots[Origin(n, hole, pos, s)].rec
    && (g(b.slots[s].rec) == s <==> s in added || (s != hole && f(a.slots[s].rec) == s))
  }

  lemma AllMoved(a: Links, n: nat, f: nat -> nat, hole: nat, g: nat -> nat, b: Links, pos: nat, added: set<int>)
    requires Chained(a, n, f, hole) && hole < n - 1 && pos < n - 1
    requires |a.slots| == |b.slots| == |b.prev| == |b.rank|
    requires forall s | s in added :: 0 <= s < n - 1
    requires forall s: nat | s < n - 1 :: SlotMoved(a, n, f, hole, g, b, pos, added, s)
    ensures Shrunk(a, n, hole, g, b)
    ensures Heads(b.slots, n - 1, g, NIL) == Heads(a.slots, n, f, hole) - {n - 1} + added
  {
    var last: nat := n - 1;
    forall s: nat | s < last ensures SlotOk(b, last, g, NIL, s) {
      assert SlotMoved(a, n, f, hole, g, b, pos, added, s);
    }
    forall s: nat | s < last
      ensures b.slots[s].rec == a.slots[Origin(n, hole, pos, s)].rec
      ensures s in Heads(b.slots, last, g, NIL) <==> s in added || s in Heads(a.slots, n, f, hole)
    {
      assert SlotMoved(a, n, f, hole, g, b, pos, added, s);
    }
    RecsMoved(a.slots, n, hole, b.slots, pos);
  }

  /** Where the record of slot `s` of the new index came from. */
  function Origin(n: nat, hole: nat, pos: nat, s: nat): nat
    requires 0 < n
  {
    if s == pos then n - 1 else if s == hole then pos else s
  }

  lemma RecsMoved(slots: seq<HashInfo>, n: nat, hole: nat, slots': seq<HashInfo>, pos: nat)
    requires 0 < n <= |slots| && |slots'| == |slots| && hole < n - 1 && pos < n - 1
    requires DistinctRecs(slots, n, hole)
    requires forall s: nat | s < n - 1 :: slots'[s].rec == slots[Origin(n, hole, pos, s)].rec
    ensures Recs(slots', n - 1, NIL) == Recs(slots, n, hole)
    ensures DistinctRecs(slots', n - 1, NIL)
  {
    forall r ensures r in Recs(slots', n - 1, NIL) <==> r in Recs(slots, n, hole) {
      if r in Recs(slots', n - 1, NIL) {
        var s :| 0 <= s < n - 1 && slots'[s].rec == r;
        assert slots[Origin(n, hole, pos, s)].rec == r;
      }
      if r in Recs(slots, n, hole) {
        var s :| 0 <= s < n && s != hole && slots[s].rec == r;
        assert slots'[if s == n - 1 then pos else if s == pos then hole else s].rec == r;
      }
    }
    forall s, t | 0 <= s < n - 1 && 0 <= t < n - 1 && s != t ensures Differ(slots', s, t) {
      assert Differ(slots, Origin(n, hole, pos, s), Origin(n, hole, pos, t));
    }
  }

  /** Exit 1: the free slot is the last one. */
  lemma NothingToMove(a: Links, n: nat, f: nat -> nat, g: nat -> nat)
    requires 0 < n && Chained(a, n, f, n - 1)
    requires forall s | 0 <= s < n - 1 && f(a.slots[s].rec) != n - 1 :: g(a.slots[s].rec) == f(a.slots[s].rec)
    ensures Shrunk(a, n, n - 1, g, a)
    ensures Heads(a.slots, n - 1, g, NIL) == Heads(a.slots, n, f, n - 1)
  {
    var last: nat := n - 1;
    forall s: nat | s < last ensures SlotOk(a, last, g, NIL, s) && f(a.slots[s].rec) != last {
      HomeHeads(a, n, f, last, s);
    }
    assert Recs(a.slots, last, NIL) == Recs(a.slots, n, last);
  }

  ghost function MovedToHole(a: Links, n: nat, hole: nat): Links
    requires hole < n - 1 && n <= |a.slots| == |a.prev| == |a.rank|
  {
    Links(a.slots[hole := a.slots[n - 1]],
          seq(|a.prev|, s requires 0 <= s < |a.prev| =>
            if s == hole then NIL else if a.prev[s] == n - 1 then hole else a.prev[s]),
          a.rank[hole := a.rank[n - 1]])
  }

  /** Exit 2: the last record's new home is the free slot. */
  lemma MoveToHole(a: Links, n: nat, f: nat -> nat, hole: nat, g: nat -> nat, target: nat) returns (b: Links)
    requires Shrinking(a, n, f, hole, g, target)
    requires g(a.slots[n - 1].rec) == hole
    ensures b.slots == a.slots[hole := a.slots[n - 1]]
    ensures Shrunk(a, n, hole, g, b)
    ensures |Heads(b.slots, n - 1, g, NIL)| == |Heads(a.slots, n, f, hole)|
  {
    hide SlotMoved, DistinctRecs, Recs, NextOk;
    var last: nat := n - 1;
    IsLocally(a, n, f, hole, last);
    b := MovedToHole(a, n, hole);
    var added: set<int> := {hole};
    forall s: nat | s < last ensures SlotMoved(a, n, f, hole, g, b, hole, added, s) {
      IsLocally(a, n, f, hole, s);
      MoveToHoleSlot(a, n, f, hole, g, s);
    }
    AllMoved(a, n, f, hole, g, b, hole, added);
  }

  lemma MoveToHoleSlot(a: Links, n: nat, f: nat -> nat, hole: nat, g: nat -> nat, s: nat)
    requires hole < n - 1 && s < n - 1 && Readdresses(n, f, g, hole)
    requires Locally(a, n, f, hole, n - 1) && Locally(a, n, f, hole, s)
    requires f(a.slots[n - 1].rec) == n - 1
    ensures SlotMoved(a, n, f, hole, g, MovedToHole(a, n, hole), hole, {hole as int}, s)
  {
  }

  ghost function Evicted(a: Links, n: nat, hole: nat, pos: nat): Links
    requires hole < n - 1 && pos < n - 1 && n <= |a.slots| == |a.prev| == |a.rank|
    requires 0 <= a.prev[pos] < n
  {
    var p := a.prev[pos];
    Links(seq(|a.slots|, s requires 0 <= s < |a.slots| =>
            if s == pos then a.slots[n - 1] else if s == hole then a.slots[pos]
            else if s == p then a.slots[p].(next := hole) else a.slots[s]),
          seq(|a.prev|, s requires 0 <= s < |a.prev| =>
            if s == pos then NIL else if s == hole then p
            else if a.prev[s] == n - 1 then pos else if a.prev[s] == pos then hole else a.prev[s]),
          seq(|a.rank|, s requires 0 <= s < |a.rank| =>
            if s == pos then a.rank[n - 1] else if s == hole then a.rank[pos] else a.rank[s]))
  }

  /** Exit 3: a record of another home sits in the last record's new home; it is evicted
      to the free slot. */
  lemma EvictForeigner(a: Links, n: nat, f: nat -> nat, hole: nat, g: nat -> nat, target: nat, pos: nat) returns (b: Links)
    requires Shrinking(a, n, f, hole, g, target)
    requires pos != hole && pos < n - 1 && g(a.slots[n - 1].rec) == pos && g(a.slots[pos].rec) != pos
    ensures var p := a.prev[pos]; 0 <= p < n - 1 && p != hole && p != pos && f(a.slots[p].rec) == f(a.slots[pos].rec)
    ensures b.slots == a.slots[hole := a.slots[pos]][pos := a.slots[n - 1]][a.prev[pos] := a.slots[a.prev[pos]].(next := hole)]
    ensures Shrunk(a, n, hole, g, b)
    ensures |Heads(b.slots, n - 1, g, NIL)| == |Heads(a.slots, n, f, hole)|
  {
    hide SlotMoved, DistinctRecs, Recs, NextOk;
    var last: nat := n - 1;
    IsLocally(a, n, f, hole, last);
    IsLocally(a, n, f, hole, pos);
    b := Evicted(a, n, hole, pos);
    EvictedSlots(a, n, hole, pos);
    var added: set<int> := {pos};
    forall s: nat | s < last ensures SlotMoved(a, n, f, hole, g, b, pos, added, s) {
      IsLocally(a, n, f, hole, s);
      EvictForeignerSlot(a, n, f, hole, g, pos, s);
    }
    EvictForeignerHeads(a, n, f, hole, pos);
    hide Evicted, Heads, Locally, Readdresses;
    AllMoved(a, n, f, hole, g, b, pos, added);
  }

  lemma EvictedSlots(a: Links, n: nat, hole: nat, pos: nat)
    requires hole < n - 1 && pos < n - 1 && pos != hole && n <= |a.slots| == |a.prev| == |a.rank|
    requires 0 <= a.prev[pos] < n - 1 && a.prev[pos] != hole && a.prev[pos] != pos
    ensures var b := Evicted(a, n, hole, pos);
      && b.slots == a.slots[hole := a.slots[pos]][pos := a.slots[n - 1]][a.prev[pos] := a.slots[a.prev[pos]].(next := hole)]
      && |a.slots| == |b.slots| == |b.prev| == |b.rank|
  {
  }

  /** One head goes, another comes. */
  lemma EvictForeignerHeads(a: Links, n: nat, f: nat -> nat, hole: nat, pos: nat)
    requires hole < n - 1 && pos < n - 1 && pos != hole && n <= |a.slots|
    requires f(a.slots[n - 1].rec) == n - 1 && f(a.slots[pos].rec) != pos
    ensures var heads, added: set<int> := Heads(a.slots, n, f, hole), {pos}; |heads - {n - 1} + added| == |heads|
  {
    var heads, added: set<int> := Heads(a.slots, n, f, hole), {pos};
    assert n - 1 in heads && pos !in heads;
    hide Heads;
    Swapped(heads, n - 1, pos);
  }

  lemma Swapped(s: set<int>, x: int, y: int)
    requires x in s && y !in s
    ensures |s - {x} + {y}| == |s|
  {
    assert |s - {x}| == |s| - 1;
  }

  lemma EvictForeignerBack(a: Links, n: nat, f: nat -> nat, hole: nat, g: nat -> nat, pos: nat, s: nat)
    requires hole < n - 1 && pos < n - 1 && pos != hole && s < n - 1
    requires Readdresses(n, f, g, pos)
    requires Locally(a, n, f, hole, n - 1) && Locally(a, n, f, hole, pos) && Locally(a, n, f, hole, s)
    requires f(a.slots[n - 1].rec) == n - 1 && f(a.slots[pos].rec) != pos && f(a.slots[pos].rec) != n - 1
    requires s != hole ==> f(a.slots[s].rec) != pos
    ensures BackOk(Evicted(a, n, hole, pos), n - 1, g, NIL, s)
  {
  }

  lemma EvictForeignerSlot(a: Links, n: nat, f: nat -> nat, hole: nat, g: nat -> nat, pos: nat, s: nat)
    requires hole < n - 1 && pos < n - 1 && pos != hole && s < n - 1
    requires Readdresses(n, f, g, pos)
    requires Locally(a, n, f, hole, n - 1) && Locally(a, n, f, hole, pos) && Locally(a, n, f, hole, s)
    requires f(a.slots[n - 1].rec) == n - 1 && f(a.slots[pos].rec) != pos && f(a.slots[pos].rec) != n - 1
    requires s != hole ==> f(a.slots[s].rec) != pos
    ensures SlotMoved(a, n, f, hole, g, Evicted(a, n, hole, pos), pos, {pos as int}, s)
  {
    EvictForeignerBack(a, n, f, hole, g, pos, s);
    hide BackOk;
  }

  ghost function Relocated(a: Links, n: nat, hole: nat): Links
    requires hole < n - 1 && n <= |a.slots| == |a.prev| == |a.rank|
    requires 0 <= a.prev[n - 1] < n
  {
    var p := a.prev[n - 1];
    Links(seq(|a.slots|, s requires 0 <= s < |a.slots| =>
            if s == hole then a.slots[n - 1] else if s == p then a.slots[p].(next := hole) else a.slots[s]),
          seq(|a.prev|, s requires 0 <= s < |a.prev| =>
            if s == hole then p else if a.prev[s] == n - 1 then hole else a.prev[s]),
          a.rank[hole := a.rank[n - 1]])
  }

  /** Exit 4: the last record is an inner member of a home that stays; only the link to it
      is redirected. */
  lemma RelinkMember(a: Links, n: nat, f: nat -> nat, hole: nat, g: nat -> nat, target: nat) returns (b: Links)
    requires Shrinking(a, n, f, hole, g, target)
    requires f(a.slots[n - 1].rec) != n - 1
    ensures var p := a.prev[n - 1]; 0 <= p < n - 1 && p != hole && f(a.slots[p].rec) == f(a.slots[n - 1].rec)
    ensures b.slots == a.slots[hole := a.slots[n - 1]][a.prev[n - 1] := a.slots[a.prev[n - 1]].(next := hole)]
    ensures Shrunk(a, n, hole, g, b)
    ensures |Heads(b.slots, n - 1, g, NIL)| == |Heads(a.slots, n, f, hole)|
  {
    hide SlotMoved, DistinctRecs, Recs, NextOk, Readdresses;
    var last: nat := n - 1;
    IsLocally(a, n, f, hole, last);
    b := Relocated(a, n, hole);
    forall s: nat | s < last ensures SlotMoved(a, n, f, hole, g, b, hole, {}, s) {
      IsLocally(a, n, f, hole, s);
      RelinkMemberSlot(a, n, f, hole, g, target, s);
    }
    AllMoved(a, n, f, hole, g, b, hole, {});
    assert last as int !in Heads(a.slots, n, f, hole);
    assert Heads(a.slots, n, f, hole) - {n - 1} + {} == Heads(a.slots, n, f, hole);
  }

  lemma RelinkMemberSlot(a: Links, n: nat, f: nat -> nat, hole: nat, g: nat -> nat, target: nat, s: nat)
    requires hole < n - 1 && s < n - 1 && Readdresses(n, f, g, target)
    requires Locally(a, n, f, hole, n - 1) && Locally(a, n, f, hole, s)
    requires f(a.slots[n - 1].rec) != n - 1 && (s != hole ==> f(a.slots[s].rec) != n - 1)
    ensures SlotMoved(a, n, f, hole, g, Relocated(a, n, hole), hole, {}, s)
  {
  }

  ghost function Spliced(a: Links, n: nat, hole: nat, pos: nat, p: nat): Links
    requires hole < n - 1 && pos < n - 1 && p < n - 1 && n <= |a.slots| == |a.prev| == |a.rank|
  {
    var h := if p == hole then a.slots[n - 1].(next := a.slots[pos].next) else a.slots[n - 1];
    Links(seq(|a.slots|, s requires 0 <= s < |a.slots| =>
            if s == pos then a.slots[pos].(next := hole) else if s == hole then h
            else if s == p then a.slots[p].(next := a.slots[pos].next) else a.slots[s]),
          seq(|a.prev|, s requires 0 <= s < |a.prev| =>
            if s == pos then NIL else if s == hole then pos
            else if a.prev[s] == n - 1 then hole else if a.prev[s] == pos then p else a.prev[s]),
          seq(|a.rank|, s requires 0 <= s < |a.rank| =>
            if s == pos then 0 else if s == hole then a.rank[n - 1] + 1 else a.rank[s] + 1))
  }

  /** Exit 5: both records are of the home that goes; its chain is renamed to `target`, whose
      slot is spliced to the front.  `p` is the predecessor of `target` after the copy. */
  lemma SpliceOwnMember(a: Links, n: nat, f: nat -> nat, hole: nat, g: nat -> nat, target: nat, p: nat) returns (b: Links)
    requires Shrinking(a, n, f, hole, g, target) && target != hole
    requires f(a.slots[n - 1].rec) == n - 1 && f(a.slots[target].rec) == n - 1
    requires p == if a.prev[target] == n - 1 then hole else a.prev[target]
    ensures p < n - 1 && p != target
    ensures var copied := a.slots[hole := a.slots[n - 1]];
            b.slots == copied[p := copied[p].(next := a.slots[target].next)][target := a.slots[target].(next := hole)]
    ensures Shrunk(a, n, hole, g, b)
    ensures |Heads(b.slots, n - 1, g, NIL)| == |Heads(a.slots, n, f, hole)|
  {
    hide SlotMoved, DistinctRecs, Recs, NextOk, Readdresses;
    var last: nat := n - 1;
    IsLocally(a, n, f, hole, last);
    IsLocally(a, n, f, hole, target);
    b := Spliced(a, n, hole, target, p);
    var added: set<int> := {target};
    forall s: nat | s < last ensures SlotMoved(a, n, f, hole, g, b, hole, added, s) {
      IsLocally(a, n, f, hole, s);
      SpliceOwnMemberSlot(a, n, f, hole, g, target, p, s);
    }
    AllMoved(a, n, f, hole, g, b, hole, added);
  }

  lemma SpliceOwnMemberBack(a: Links, n: nat, f: nat -> nat, hole: nat, g: nat -> nat, target: nat, p: nat, s: nat)
    requires hole < n - 1 && target < n - 1 && target != hole && s < n - 1 && Readdresses(n, f, g, target)
    requires Locally(a, n, f, hole, n - 1) && Locally(a, n, f, hole, target) && Locally(a, n, f, hole, s)
    requires f(a.slots[n - 1].rec) == n - 1 && f(a.slots[target].rec) == n - 1
    requires s != hole ==> f(a.slots[s].rec) != target
    requires p == (if a.prev[target] == n - 1 then hole else a.prev[target]) && p < n - 1
    ensures BackOk(Spliced(a, n, hole, target, p), n - 1, g, NIL, s)
  {
  }

  lemma SpliceOwnMemberNext(a: Links, n: nat, f: nat -> nat, hole: nat, g: nat -> nat, target: nat, p: nat, s: nat)
    requires hole < n - 1 && target < n - 1 && target != hole && s < n - 1 && Readdresses(n, f, g, target)
    requires Locally(a, n, f, hole, n - 1) && Locally(a, n, f, hole, target) && Locally(a, n, f, hole, s)
    requires f(a.slots[n - 1].rec) == n - 1 && f(a.slots[target].rec) == n - 1
    requires s != hole ==> f(a.slots[s].rec) != target
    requires p == (if a.prev[target] == n - 1 then hole else a.prev[target]) && p < n - 1
    ensures NextOk(Spliced(a, n, hole, target, p), n - 1, NIL, s)
  {
  }

  lemma SpliceOwnMemberSlot(a: Links, n: nat, f: nat -> nat, hole: nat, g: nat -> nat, target: nat, p: nat, s: nat)
    requires hole < n - 1 && target < n - 1 && target != hole && s < n - 1 && Readdresses(n, f, g, target)
    requires Locally(a, n, f, hole, n - 1) && Locally(a, n, f, hole, target) && Locally(a, n, f, hole, s)
    requires f(a.slots[n - 1].rec) == n - 1 && f(a.slots[target].rec) == n - 1
    requires s != hole ==> f(a.slots[s].rec) != target
    requires p == (if a.prev[target] == n - 1 then hole else a.prev[target]) && p < n - 1
    ensures SlotMoved(a, n, f, hole, g, Spliced(a, n, hole, target, p), hole, {target as int}, s)
  {
    hide BackOk;
    SpliceOwnMemberBack(a, n, f, hole, g, target, p, s);
    SpliceOwnMemberNext(a, n, f, hole, g, target, p, s);
  }

  /** `end` is where the chain of home `n - 1` ends once slot `n - 1` is copied to `hole`. */
  ghost predicate EndOfLast(a: Links, n: nat, f: nat -> nat, hole: nat, end: nat)
    requires hole < n - 1 && n <= |a.slots|
  {
    && end < n - 1
    && (if end == hole then a.slots[n - 1].next == NIL else f(a.slots[end].rec) == n - 1 && a.slots[end].next == NIL)
  }

  ghost function Merged(a: Links, n: nat, f: nat -> nat, hole: nat, pos: nat, end: nat, bound: nat): Links
    requires hole < n - 1 && pos < n - 1 && end < n - 1 && n <= |a.slots| == |a.prev| == |a.rank|
  {
    var h := if end == hole then a.slots[n - 1].(next := a.slots[pos].next) else a.slots[n - 1];
    Links(seq(|a.slots|, s requires 0 <= s < |a.slots| =>
            if s == pos then a.slots[pos].(next := hole) else if s == hole then h
            else if s == end then a.slots[end].(next := a.slots[pos].next) else a.slots[s]),
          seq(|a.prev|, s requires 0 <= s < |a.prev| =>
            if s == hole then pos
            else if a.prev[s] == n - 1 then hole else if a.prev[s] == pos then end else a.prev[s]),
          seq(|a.rank|, s requires 0 <= s < |a.rank| =>
            if s == pos then 0 else if s == hole then a.rank[n - 1] + 1
            else if f(a.slots[s].rec) == pos then a.rank[s] + bound + 1 else a.rank[s] + 1))
  }

  /** Exit 6: two chains fall together.  The old chain of `target` is hung behind `end`, the
      end (after the copy) of the chain of the home that goes, and that chain behind the
      record in `target`. */
  lemma MergeChains(a: Links, n: nat, f: nat -> nat, hole: nat, g: nat -> nat, target: nat, end: nat) returns (b: Links)
    requires Shrinking(a, n, f, hole, g, target) && target != hole
    requires f(a.slots[n - 1].rec) == n - 1 && f(a.slots[target].rec) == target
    requires EndOfLast(a, n, f, hole, end)
    ensures var copied := a.slots[hole := a.slots[n - 1]];
            b.slots == copied[end := copied[end].(next := a.slots[target].next)][target := a.slots[target].(next := hole)]
    ensures Shrunk(a, n, hole, g, b)
    ensures |Heads(b.slots, n - 1, g, NIL)| == |Heads(a.slots, n, f, hole)| - 1
  {
    hide SlotMoved, DistinctRecs, Recs, NextOk, Readdresses;
    var last: nat := n - 1;
    IsLocally(a, n, f, hole, last);
    IsLocally(a, n, f, hole, target);
    IsLocally(a, n, f, hole, end);
    var bound := RankBound(a.rank);
    b := Merged(a, n, f, hole, target, end, bound);
    forall s: nat | s < last ensures SlotMoved(a, n, f, hole, g, b, hole, {}, s) {
      IsLocally(a, n, f, hole, s);
      MergeChainsSlot(a, n, f, hole, g, target, end, bound, s);
    }
    AllMoved(a, n, f, hole, g, b, hole, {});
  }

  lemma MergeChainsBack(a: Links, n: nat, f: nat -> nat, hole: nat, g: nat -> nat, target: nat, end: nat, bound: nat, s: nat)
    requires hole < n - 1 && target < n - 1 && target != hole && s < n - 1 && Readdresses(n, f, g, target)
    requires Locally(a, n, f, hole, n - 1) && Locally(a, n, f, hole, target) && Locally(a, n, f, hole, s) && Locally(a, n, f, hole, end)
    requires f(a.slots[n - 1].rec) == n - 1 && f(a.slots[target].rec) == target
    requires EndOfLast(a, n, f, hole, end)
    requires a.rank[n - 1] < bound && a.rank[end] < bound
    ensures BackOk(Merged(a, n, f, hole, target, end, bound), n - 1, g, NIL, s)
  {
  }

  lemma MergeChainsSlot(a: Links, n: nat, f: nat -> nat, hole: nat, g: nat -> nat, target: nat, end: nat, bound: nat, s: nat)
    requires hole < n - 1 && target < n - 1 && target != hole && s < n - 1 && Readdresses(n, f, g, target)
    requires Locally(a, n, f, hole, n - 1) && Locally(a, n, f, hole, target) && Locally(a, n, f, hole, s) && Locally(a, n, f, hole, end)
    requires f(a.slots[n - 1].rec) == n - 1 && f(a.slots[target].rec) == target
    requires EndOfLast(a, n, f, hole, end)
    requires a.rank[n - 1] < bound && a.rank[end] < bound
    ensures SlotMoved(a, n, f, hole, g, Merged(a, n, f, hole, target, end, bound), hole, {}, s)
  {
    hide BackOk;
    MergeChainsBack(a, n, f, hole, g, target, end, bound, s);
    MergeChainsNext(a, n, f, hole, g, target, end, bound, s);
  }

  lemma MergeChainsNext(a: Links, n: nat, f: nat -> nat, hole: nat, g: nat -> nat, target: nat, end: nat, bound: nat, s: nat)
    requires hole < n - 1 && target < n - 1 && target != hole && s < n - 1 && Readdresses(n, f, g, target)
    requires Locally(a, n, f, hole, n - 1) && Locally(a, n, f, hole, target) && Locally(a, n, f, hole, s) && Locally(a, n, f, hole, end)
    requires f(a.slots[n - 1].rec) == n - 1 && f(a.slots[target].rec) == target
    requires EndOfLast(a, n, f, hole, end)
    requires a.rank[n - 1] < bound && a.rank[end] < bound
    ensures NextOk(Merged(a, n, f, hole, target, end, bound), n - 1, NIL, s)
  {
  }

  // ---------------------------------------------------------------- hp_movelink's walks

  lemma EvictWalk(a: Links, n: nat, f: nat -> nat, hole: nat, pos: nat) returns (k: nat)
    requires Chained(a, n, f, hole) && hole < n - 1 && pos < n - 1 && pos != hole
    requires f(a.slots[pos].rec) != pos && f(a.slots[n - 1].rec) == n - 1 && f(a.slots[pos].rec) != n - 1
    ensures FirstLinkTo(a.slots[hole := a.slots[pos]][pos := a.slots[n - 1]], f(a.slots[pos].rec), pos, a.prev[pos], k)
  {
    IsLocally(a, n, f, hole, pos);
    var p := a.prev[pos];
    k := HomeLeads(a, n, f, hole, p);
    HomeHeads(a, n, f, hole, p);
    WalkUndisturbed(a, n, f, hole, a.slots[hole := a.slots[pos]][pos := a.slots[n - 1]], f(a.slots[p].rec), p, k);
  }

  lemma RelinkWalk(a: Links, n: nat, f: nat -> nat, hole: nat) returns (k: nat)
    requires Chained(a, n, f, hole) && hole < n - 1
    requires f(a.slots[n - 1].rec) != n - 1
    ensures FirstLinkTo(a.slots[hole := a.slots[n - 1]], f(a.slots[n - 1].rec), n - 1, a.prev[n - 1], k)
  {
    IsLocally(a, n, f, hole, n - 1);
    var p := a.prev[n - 1];
    k := HomeLeads(a, n, f, hole, p);
    HomeHeads(a, n, f, hole, p);
    WalkUndisturbed(a, n, f, hole, a.slots[hole := a.slots[n - 1]], f(a.slots[p].rec), p, k);
  }

  /** The copy of the last slot leads wherever the last slot led. */
  lemma CopyWalk(a: Links, n: nat, f: nat -> nat, hole: nat, p: nat, k: nat)
    requires Chained(a, n, f, hole) && hole < n - 1 && p < n && p != hole && Leads(a.slots, n - 1, p, k)
    ensures FirstLinkTo(a.slots[hole := a.slots[n - 1]], hole, a.slots[p].next, if p == n - 1 then hole else p, k)
  {
    var last: nat := n - 1;
    var copied := a.slots[hole := a.slots[last]];
    LeadsStays(a, n, f, hole, last, p, k);
    if k > 0 {
      var t := a.slots[last].next;
      assert SlotOk(a, n, f, hole, last);
      assert SlotOk(a, n, f, hole, t);
      assert SlotOk(a, n, f, hole, p);
      LeadsStays(a, n, f, hole, t, p, k - 1);
      WalkUndisturbed(a, n, f, hole, copied, t, p, k - 1);
    }
  }

  lemma SpliceWalk(a: Links, n: nat, f: nat -> nat, hole: nat, target: nat) returns (p: nat, k: nat)
    requires Chained(a, n, f, hole) && hole < n - 1 && target < n - 1 && target != hole
    requires f(a.slots[n - 1].rec) == n - 1 && f(a.slots[target].rec) == n - 1
    ensures p == if a.prev[target] == n - 1 then hole else a.prev[target]
    ensures FirstLinkTo(a.slots[hole := a.slots[n - 1]], hole, target, p, k)
  {
    IsLocally(a, n, f, hole, target);
    var q := a.prev[target];
    p := if q == n - 1 then hole else q;
    k := HomeLeads(a, n, f, hole, q);
    CopyWalk(a, n, f, hole, q, k);
  }

  lemma MergeWalk(a: Links, n: nat, f: nat -> nat, hole: nat) returns (end: nat, k: nat)
    requires Chained(a, n, f, hole) && hole < n - 1
    requires f(a.slots[n - 1].rec) == n - 1
    ensures EndOfLast(a, n, f, hole, end)
    ensures FirstLinkTo(a.slots[hole := a.slots[n - 1]], hole, NIL, end, k)
  {
    var bound := RankBound(a.rank);
    end, k := ChainEnds(a, n, f, hole, n - 1, bound);
    CopyWalk(a, n, f, hole, end, k);
    end := if end == n - 1 then hole else end;
  }

  /** The last two exits, which differ in whether hp_movelink looks for `target` or for the
      end of the chain. */
  lemma JoinChains(a: Links, n: nat, f: nat -> nat, hole: nat, g: nat -> nat, target: nat, pos3: int)
    returns (b: Links, p: nat, k: nat)
    requires Shrinking(a, n, f, hole, g, target) && target != hole
    requires f(a.slots[n - 1].rec) == n - 1
    requires f(a.slots[target].rec) == if pos3 == NIL then target else n - 1
    requires pos3 == NIL || pos3 == target
    ensures p < n - 1 && FirstLinkTo(a.slots[hole := a.slots[n - 1]], hole, pos3, p, k)
    ensures var copied := a.slots[hole := a.slots[n - 1]];
            b.slots == copied[p := copied[p].(next := a.slots[target].next)][target := a.slots[target].(next := hole)]
    ensures p != target || pos3 == NIL
    ensures Shrunk(a, n, hole, g, b)
    ensures |Heads(b.slots, n - 1, g, NIL)| == |Heads(a.slots, n, f, hole)| - (if pos3 == NIL then 1 else 0)
  {
    if pos3 == NIL {
      p, k := MergeWalk(a, n, f, hole);
      b := MergeChains(a, n, f, hole, g, target, p);
    } else {
      p, k := SpliceWalk(a, n, f, hole, target);
      b := SpliceOwnMember(a, n, f, hole, g, target, p);
    }
  }
}
