/**
 hp_write_key (heap/hp_write.c): splitting the chain of one home over two homes, and
 putting the new record into the slot that is left free.
 */
module HashWrite {
  import opened LinearHash
  import opened HashWalk

  // ---------------------------------------------------------------- splitting a chain

  /** The chain of home `low` is being split between the homes `low` and `n`.

      `w` is the index as if the link the code still owes to the last entry of either new
      chain (`lowEnd`, `highEnd`) were already written.  `rest` are the slots not looked at
      yet, from `pos` on; `hole` is free. */
  datatype Split = Split(w: Links, n: nat, low: nat, hole: nat, pos: int, rest: set<int>, lowEnd: int, highEnd: int)

  /** An entry still to be looked at. */
  ghost predicate RestOk(sp: Split, g: nat -> nat, s: nat)
    requires sp.n < |sp.w.slots| == |sp.w.prev| == |sp.w.rank| && s <= sp.n
  {
    var w, p, t := sp.w, sp.w.prev[s], sp.w.slots[s].next;
    && (g(w.slots[s].rec) == sp.low || g(w.slots[s].rec) == sp.n)
    && (p == NIL <==> s == sp.pos)
    && (p != NIL ==> 0 <= p < sp.n && p in sp.rest && w.slots[p].next == s && w.rank[p] < w.rank[s])
    && (t != NIL ==> 0 <= t < sp.n && t in sp.rest && w.prev[t] == s)
  }

  ghost predicate PartOk(sp: Split, g: nat -> nat, s: nat)
    requires sp.n < |sp.w.slots| == |sp.w.prev| == |sp.w.rank| && s <= sp.n
  {
    if s in sp.rest then RestOk(sp, g, s) else SlotOk(sp.w, sp.n + 1, g, sp.hole, s)
  }

  /** The last entry of a new chain, if it has one, waits for the next. */
  ghost predicate EndOk(sp: Split, g: nat -> nat, home: nat, end: int)
    requires sp.n < |sp.w.slots| == |sp.w.prev| == |sp.w.rank|
  {
    end != NIL ==>
      && 0 <= end <= sp.n && end != sp.hole && end !in sp.rest
      && g(sp.w.slots[end].rec) == home && sp.w.slots[end].next == NIL
      && (0 <= sp.pos <= sp.n ==> sp.w.rank[end] < sp.w.rank[sp.pos])
  }

  /** Which slot is free, and what is left, at each stage. */
  ghost predicate Shape(sp: Split) {
    && sp.low < sp.n < |sp.w.slots| == |sp.w.prev| == |sp.w.rank|
    && sp.hole <= sp.n && sp.hole !in sp.rest
    && (forall s | s in sp.rest :: 0 <= s < sp.n)
    && (sp.pos == NIL ==> sp.rest == {})
    && (sp.pos != NIL ==> sp.pos in sp.rest)
    && (sp.highEnd == NIL ==> sp.hole == sp.n)
    && (sp.highEnd != NIL && sp.lowEnd == NIL ==> sp.hole == sp.low)
    && (sp.highEnd == NIL && sp.lowEnd == NIL ==> sp.pos == sp.low)
    && (sp.low in sp.rest ==> sp.highEnd == NIL && sp.lowEnd == NIL)
  }

  ghost predicate Splitting(sp: Split, g: nat -> nat) {
    && Shape(sp)
    && (forall s: nat | s <= sp.n && s != sp.hole :: PartOk(sp, g, s))
    && EndOk(sp, g, sp.low, sp.lowEnd) && EndOk(sp, g, sp.n, sp.highEnd)
    && DistinctRecs(sp.w.slots, sp.n + 1, sp.hole)
  }

  /** The chain is whole again when nothing is left. */
  lemma SplitDone(sp: Split, g: nat -> nat)
    requires Splitting(sp, g) && sp.pos == NIL
    ensures Chained(sp.w, sp.n + 1, g, sp.hole)
  {
    var m := sp.n + 1;
    forall s: nat | s < m && s != sp.hole ensures SlotOk(sp.w, m, g, sp.hole, s) {
      assert PartOk(sp, g, s);
    }
  }

  /** Before the loop: all of the chain is left, slot `n` is free. */
  lemma SplitStart(a: Links, n: nat, f: nat -> nat, g: nat -> nat, low: nat) returns (sp: Split)
    requires Chained(a, n, f, NIL) && low < n < |a.slots| && Readdresses(n + 1, g, f, low)
    requires forall r :: g(r) <= n
    requires f(a.slots[low].rec) == low
    ensures sp.w == a && sp.n == n && sp.low == low && sp.hole == n && sp.pos == low && sp.lowEnd == NIL && sp.highEnd == NIL
    ensures Splitting(sp, g)
    ensures Recs(a.slots, n + 1, n) == Recs(a.slots, n, NIL)
  {
    sp := Split(a, n, low, n, low, (set s | 0 <= s < n && f(a.slots[s].rec) == low), NIL, NIL);
    forall s: nat | s <= n && s != n ensures PartOk(sp, g, s) {
      HomeHeads(a, n, f, NIL, s);
      if a.slots[s].next != NIL {
        HomeHeads(a, n, f, NIL, a.slots[s].next);
      }
    }
    assert low in sp.rest;
  }

  // ---------------------------------------------------------------- one entry of the chain

  /** The entry at `pos` becomes the end of the chain of `home`, whose end was `end` (NIL if
      it was empty).  An entry that opens a chain away from its home slot moves to the free
      slot, which is then that home; its own slot becomes free. */
  ghost function Taken(sp: Split, isLow: bool): Split
    requires sp.n < |sp.w.slots| == |sp.w.prev| == |sp.w.rank| && 0 <= sp.pos <= sp.n && sp.hole <= sp.n
  {
    var end := if isLow then sp.lowEnd else sp.highEnd;
    var stays := end != NIL || (isLow && sp.highEnd == NIL);
    var at: nat := if stays then sp.pos else sp.hole;
    var w, t := sp.w, sp.w.slots[sp.pos].next;
    var w' := Links(
      seq(|w.slots|, s requires 0 <= s < |w.slots| =>
        if s == at then HashInfo(NIL, w.slots[sp.pos].rec) else if s == end then w.slots[s].(next := sp.pos) else w.slots[s]),
      seq(|w.prev|, s requires 0 <= s < |w.prev| =>
        if s == at then end else if s == t then NIL else w.prev[s]),
      seq(|w.rank|, s requires 0 <= s < |w.rank| => if s == at then w.rank[sp.pos] else w.rank[s]));
    Split(w', sp.n, sp.low, if stays then sp.hole else sp.pos, t, sp.rest - {sp.pos},
          if isLow then at else sp.lowEnd, if isLow then sp.highEnd else at)
  }

  lemma TakeRest(sp: Split, g: nat -> nat, isLow: bool, s: nat)
    requires Shape(sp) && sp.pos != NIL && EndOk(sp, g, sp.low, sp.lowEnd) && EndOk(sp, g, sp.n, sp.highEnd)
    requires PartOk(sp, g, sp.pos) && s <= sp.n && PartOk(sp, g, s)
    requires g(sp.w.slots[sp.pos].rec) == if isLow then sp.low else sp.n
    requires s in sp.rest && s != sp.pos
    ensures RestOk(Taken(sp, isLow), g, s)
  {
  }

  lemma TakeEntry(sp: Split, g: nat -> nat, isLow: bool, s: nat)
    requires Shape(sp) && sp.pos != NIL && EndOk(sp, g, sp.low, sp.lowEnd) && EndOk(sp, g, sp.n, sp.highEnd)
    requires PartOk(sp, g, sp.pos)
    requires g(sp.w.slots[sp.pos].rec) == if isLow then sp.low else sp.n
    requires s == sp.hole || s == sp.pos
    requires s != Taken(sp, isLow).hole
    ensures SlotOk(Taken(sp, isLow).w, sp.n + 1, g, Taken(sp, isLow).hole, s)
  {
  }

  lemma TakeOther(sp: Split, g: nat -> nat, isLow: bool, s: nat)
    requires Shape(sp) && sp.pos != NIL && EndOk(sp, g, sp.low, sp.lowEnd) && EndOk(sp, g, sp.n, sp.highEnd)
    requires PartOk(sp, g, sp.pos) && s <= sp.n && s != sp.hole && PartOk(sp, g, s)
    requires g(sp.w.slots[sp.pos].rec) == if isLow then sp.low else sp.n
    requires s !in sp.rest
    ensures SlotOk(Taken(sp, isLow).w, sp.n + 1, g, Taken(sp, isLow).hole, s)
  {
  }

  /** One round of the loop keeps the split going, with the same records. */
  lemma Take(sp: Split, g: nat -> nat, isLow: bool)
    requires Splitting(sp, g) && sp.pos != NIL
    requires g(sp.w.slots[sp.pos].rec) == if isLow then sp.low else sp.n
    ensures Splitting(Taken(sp, isLow), g)
    ensures Recs(Taken(sp, isLow).w.slots, sp.n + 1, Taken(sp, isLow).hole) == Recs(sp.w.slots, sp.n + 1, sp.hole)
  {
    var sp' := Taken(sp, isLow);
    EndsElsewhere(sp, g);
    hide SlotOk, RestOk, DistinctRecs, Recs, EndOk, Shape;
    assert PartOk(sp, g, sp.pos);
    TakeEnds(sp, g, isLow);
    TakeRecs(sp, isLow);
    forall s: nat | s <= sp.n && s != sp'.hole ensures PartOk(sp', g, s) {
      assert s != sp.hole ==> PartOk(sp, g, s);
      TakePart(sp, g, isLow, s);
    }
  }

  lemma EndsElsewhere(sp: Split, g: nat -> nat)
    requires Splitting(sp, g) && sp.pos != NIL
    ensures sp.lowEnd != sp.pos && sp.highEnd != sp.pos && sp.hole != sp.pos && 0 <= sp.pos < sp.n
  {
  }

  lemma TakenRest(sp: Split, isLow: bool)
    requires sp.n < |sp.w.slots| == |sp.w.prev| == |sp.w.rank| && 0 <= sp.pos <= sp.n && sp.hole <= sp.n
    ensures var sp' := Taken(sp, isLow);
      sp'.n == sp.n && sp'.rest == sp.rest - {sp.pos} && |sp'.w.slots| == |sp'.w.prev| == |sp'.w.rank| == |sp.w.slots|
    ensures Taken(sp, isLow).hole == sp.hole || Taken(sp, isLow).hole == sp.pos
  {
  }

  lemma TakePart(sp: Split, g: nat -> nat, isLow: bool, s: nat)
    requires Shape(sp) && 0 <= sp.pos < sp.n && sp.pos != sp.hole && EndOk(sp, g, sp.low, sp.lowEnd) && EndOk(sp, g, sp.n, sp.highEnd)
    requires PartOk(sp, g, sp.pos) && s <= sp.n && (s != sp.hole ==> PartOk(sp, g, s))
    requires g(sp.w.slots[sp.pos].rec) == if isLow then sp.low else sp.n
    requires s != Taken(sp, isLow).hole
    ensures PartOk(Taken(sp, isLow), g, s)
  {
    TakenRest(sp, isLow);
    hide SlotOk, RestOk, EndOk, Taken;
    if s == sp.hole || s == sp.pos {
      hide PartOk;
      TakeEntry(sp, g, isLow, s);
      EntryPart(sp, g, isLow, s);
    } else if s in sp.rest {
      TakeRest(sp, g, isLow, s);
    } else {
      TakeOther(sp, g, isLow, s);
    }
  }

  lemma EntryPart(sp: Split, g: nat -> nat, isLow: bool, s: nat)
    requires Shape(sp) && 0 <= sp.pos < sp.n && (s == sp.hole || s == sp.pos) && s <= sp.n
    requires SlotOk(Taken(sp, isLow).w, sp.n + 1, g, Taken(sp, isLow).hole, s)
    ensures Taken(sp, isLow).n == sp.n && |Taken(sp, isLow).w.slots| == |Taken(sp, isLow).w.prev| == |Taken(sp, isLow).w.rank| == |sp.w.slots|
    ensures PartOk(Taken(sp, isLow), g, s)
  {
    TakenRest(sp, isLow);
    hide SlotOk, Taken;
  }

  lemma TakeEnds(sp: Split, g: nat -> nat, isLow: bool)
    requires Shape(sp) && sp.pos != NIL && EndOk(sp, g, sp.low, sp.lowEnd) && EndOk(sp, g, sp.n, sp.highEnd)
    requires forall s: nat | s <= sp.n && s != sp.hole :: PartOk(sp, g, s)
    requires g(sp.w.slots[sp.pos].rec) == if isLow then sp.low else sp.n
    ensures var sp' := Taken(sp, isLow); Shape(sp') && EndOk(sp', g, sp.low, sp'.lowEnd) && EndOk(sp', g, sp.n, sp'.highEnd)
  {
    AfterPos(sp, g);
    TakeShape(sp, isLow);
    hide PartOk;
    TakeEnd(sp, g, isLow);
  }

  /** What is left after the entry at `pos`. */
  lemma AfterPos(sp: Split, g: nat -> nat)
    requires Shape(sp) && sp.pos != NIL
    requires forall s: nat | s <= sp.n && s != sp.hole :: PartOk(sp, g, s)
    ensures RestOk(sp, g, sp.pos)
    ensures var t := sp.w.slots[sp.pos].next;
      if t == NIL then sp.rest - {sp.pos} == {}
      else 0 <= t < sp.n && t in sp.rest && t != sp.pos && sp.w.rank[sp.pos] < sp.w.rank[t]
  {
    assert PartOk(sp, g, sp.pos);
    var t := sp.w.slots[sp.pos].next;
    if t != NIL {
      assert PartOk(sp, g, t);
    } else {
      forall s | s in sp.rest ensures s == sp.pos {
        NothingAfter(sp, g, s);
      }
    }
  }

  lemma TakeShape(sp: Split, isLow: bool)
    requires Shape(sp) && sp.pos != NIL
    requires sp.lowEnd != NIL ==> 0 <= sp.lowEnd <= sp.n && sp.lowEnd !in sp.rest && sp.lowEnd != sp.hole
    requires sp.highEnd != NIL ==> 0 <= sp.highEnd <= sp.n && sp.highEnd !in sp.rest && sp.highEnd != sp.hole
    requires var t := sp.w.slots[sp.pos].next;
      if t == NIL then sp.rest - {sp.pos} == {} else 0 <= t < sp.n && t in sp.rest && t != sp.pos
    ensures Shape(Taken(sp, isLow))
  {
  }

  lemma TakeEnd(sp: Split, g: nat -> nat, isLow: bool)
    requires Shape(sp) && sp.pos != NIL && EndOk(sp, g, sp.low, sp.lowEnd) && EndOk(sp, g, sp.n, sp.highEnd)
    requires RestOk(sp, g, sp.pos) && g(sp.w.slots[sp.pos].rec) == if isLow then sp.low else sp.n
    requires var t := sp.w.slots[sp.pos].next;
      t != NIL ==> 0 <= t < sp.n && t in sp.rest && t != sp.pos && sp.w.rank[sp.pos] < sp.w.rank[t]
    ensures var sp' := Taken(sp, isLow); EndOk(sp', g, sp.low, sp'.lowEnd) && EndOk(sp', g, sp.n, sp'.highEnd)
  {
  }

  /** If the entry at `pos` has no successor it is the only one left. */
  lemma {:induction false} NothingAfter(sp: Split, g: nat -> nat, s: nat)
    requires Shape(sp) && sp.pos != NIL && s in sp.rest
    requires forall s: nat | s <= sp.n && s != sp.hole :: PartOk(sp, g, s)
    requires sp.w.slots[sp.pos].next == NIL
    ensures s == sp.pos
    decreases sp.w.rank[s]
  {
    assert PartOk(sp, g, s);
    if s != sp.pos {
      NothingAfter(sp, g, sp.w.prev[s]);
    }
  }

  lemma TakeRecs(sp: Split, isLow: bool)
    requires Shape(sp) && sp.pos != NIL && DistinctRecs(sp.w.slots, sp.n + 1, sp.hole)
    requires sp.lowEnd != sp.pos && sp.highEnd != sp.pos
    ensures var sp' := Taken(sp, isLow);
      && DistinctRecs(sp'.w.slots, sp.n + 1, sp'.hole)
      && Recs(sp'.w.slots, sp.n + 1, sp'.hole) == Recs(sp.w.slots, sp.n + 1, sp.hole)
  {
    TakenRecs(sp, isLow);
    hide Taken, Shape;
    var sp' := Taken(sp, isLow);
    MovedRecs(sp.w.slots, sp'.w.slots, sp.n + 1, sp.hole, sp'.hole, sp.pos);
  }

  /** Every record is where it was, but for one that may have moved to the free slot. */
  lemma TakenRecs(sp: Split, isLow: bool)
    requires Shape(sp) && sp.pos != NIL && sp.lowEnd != sp.pos && sp.highEnd != sp.pos
    ensures var sp' := Taken(sp, isLow);
      RecMoved(sp.w.slots, sp'.w.slots, sp.n + 1, sp.hole, sp'.hole, sp.pos)
  {
  }

  ghost predicate RecMoved(slots: seq<HashInfo>, slots': seq<HashInfo>, n: nat, hole: nat, hole': nat, pos: int) {
    && hole < n <= |slots| == |slots'| && 0 <= pos < n && pos != hole
    && (hole' == hole || (hole' == pos && slots'[hole].rec == slots[pos].rec))
    && forall s | 0 <= s < n && s != hole && s != hole' :: slots'[s].rec == slots[s].rec
  }

  lemma MovedRecs(slots: seq<HashInfo>, slots': seq<HashInfo>, n: nat, hole: nat, hole': nat, pos: int)
    requires RecMoved(slots, slots', n, hole, hole', pos) && DistinctRecs(slots, n, hole)
    ensures DistinctRecs(slots', n, hole') && Recs(slots', n, hole') == Recs(slots, n, hole)
  {
    forall s, t | 0 <= s < n && 0 <= t < n && s != t && s != hole' && t != hole' ensures Differ(slots', s, t) {
      assert Differ(slots, if s == hole then pos else s, if t == hole then pos else t);
    }
    SameRecs(slots, slots', n, hole, hole', pos);
  }

  lemma SameRecs(slots: seq<HashInfo>, slots': seq<HashInfo>, n: nat, hole: nat, hole': nat, pos: int)
    requires RecMoved(slots, slots', n, hole, hole', pos)
    ensures Recs(slots', n, hole') == Recs(slots, n, hole)
  {
    forall r ensures r in Recs(slots', n, hole') <==> r in Recs(slots, n, hole) {
      if r in Recs(slots', n, hole') {
        var s :| 0 <= s < n && s != hole' && slots'[s].rec == r;
        assert slots[if s == hole then pos else s].rec == r;
      }
      if r in Recs(slots, n, hole) {
        var s :| 0 <= s < n && s != hole && slots[s].rec == r;
        assert slots'[if s == hole' then hole else s].rec == r;
      }
    }
  }

  // ---------------------------------------------------------------- counting the chains

  /** The homes in use other than the two that share the chain. */
  ghost function OtherHeads(sp: Split, g: nat -> nat): set<int>
    requires sp.n < |sp.w.slots|
  {
    set s | 0 <= s <= sp.n && s != sp.hole && s != sp.low && s != sp.n && g(sp.w.slots[s].rec) == s
  }

  lemma TakeHeads(sp: Split, g: nat -> nat, isLow: bool)
    requires Shape(sp) && sp.pos != NIL && EndOk(sp, g, sp.low, sp.lowEnd) && EndOk(sp, g, sp.n, sp.highEnd)
    requires g(sp.w.slots[sp.pos].rec) == if isLow then sp.low else sp.n
    ensures OtherHeads(Taken(sp, isLow), g) == OtherHeads(sp, g)
  {
  }

  /** After the loop there is one chain more if both halves got an entry. */
  lemma SplitHeads(sp: Split, g: nat -> nat)
    requires Splitting(sp, g) && sp.pos == NIL
    ensures |Heads(sp.w.slots, sp.n + 1, g, sp.hole)| ==
              |OtherHeads(sp, g)| + (if sp.lowEnd != NIL && sp.highEnd != NIL then 2 else 1)
  {
    var heads := Heads(sp.w.slots, sp.n + 1, g, sp.hole);
    SplitEnds(sp, g);
    hide Splitting;
    HeadsSplit(sp, g, heads);
    hide Heads, OtherHeads;
    TwoMore(OtherHeads(sp, g), sp.low, sp.n, sp.low in heads, sp.n in heads);
  }

  lemma HeadsSplit(sp: Split, g: nat -> nat, heads: set<int>)
    requires sp.low < sp.n < |sp.w.slots| && heads == Heads(sp.w.slots, sp.n + 1, g, sp.hole)
    ensures heads == OtherHeads(sp, g) + Single(sp.low, sp.low in heads) + Single(sp.n, sp.n in heads)
    ensures sp.low !in OtherHeads(sp, g) && sp.n !in OtherHeads(sp, g)
  {
  }

  ghost function Single(x: int, there: bool): set<int> {
    if there then {x} else {}
  }

  lemma TwoMore(s: set<int>, x: int, y: int, there: bool, there': bool)
    requires x !in s && y !in s && x != y
    ensures |s + Single(x, there) + Single(y, there')| == |s| + (if there then 1 else 0) + if there' then 1 else 0
  {
    assert |s + Single(x, there)| == |s| + if there then 1 else 0;
  }

  /** After the loop a half heads a chain exactly when it got an entry. */
  lemma SplitEnds(sp: Split, g: nat -> nat)
    requires Splitting(sp, g) && sp.pos == NIL
    ensures var heads := Heads(sp.w.slots, sp.n + 1, g, sp.hole);
            (sp.low in heads <==> sp.lowEnd != NIL) && (sp.n in heads <==> sp.highEnd != NIL)
    ensures sp.low < sp.n && (sp.lowEnd != NIL || sp.highEnd != NIL)
  {
    SplitDone(sp, g);
    if sp.lowEnd != NIL {
      HomeHeads(sp.w, sp.n + 1, g, sp.hole, sp.lowEnd);
    }
    if sp.highEnd != NIL {
      HomeHeads(sp.w, sp.n + 1, g, sp.hole, sp.highEnd);
    }
  }

  lemma StartHeads(a: Links, n: nat, f: nat -> nat, g: nat -> nat, low: nat, sp: Split)
    requires Chained(a, n, f, NIL) && low < n < |a.slots| && Readdresses(n + 1, g, f, low)
    requires forall r :: g(r) <= n
    requires f(a.slots[low].rec) == low
    requires sp.w == a && sp.n == n && sp.low == low && sp.hole == n
    ensures |Heads(a.slots, n, f, NIL)| == |OtherHeads(sp, g)| + 1
  {
    assert Heads(a.slots, n, f, NIL) == OtherHeads(sp, g) + {low as int};
  }

  /** No entry has the home `low`: no chain to split. */
  lemma NoSplit(a: Links, n: nat, f: nat -> nat, g: nat -> nat, low: nat)
    requires Chained(a, n, f, NIL) && n < |a.slots| && Readdresses(n + 1, g, f, low)
    requires forall r :: g(r) <= n
    requires low < n ==> f(a.slots[low].rec) != low
    ensures Chained(a, n + 1, g, n)
    ensures Recs(a.slots, n + 1, n) == Recs(a.slots, n, NIL)
    ensures Heads(a.slots, n + 1, g, n) == Heads(a.slots, n, f, NIL)
  {
    forall s: nat | s < n + 1 && s != n ensures SlotOk(a, n + 1, g, n, s) && f(a.slots[s].rec) == g(a.slots[s].rec) {
      HomeHeads(a, n, f, NIL, s);
    }
  }

  // ---------------------------------------------------------------- placing the new record

  /** The index with the record `r` in place: its home slot and the slots it disturbs. */
  ghost function Placed(a: Links, g: nat -> nat, hole: nat, r: nat): Links
    requires hole < |a.slots| == |a.prev| == |a.rank| && g(r) < |a.slots|
    requires g(r) != hole && g(a.slots[g(r)].rec) != g(r) ==> 0 <= a.prev[g(r)] < |a.slots|
  {
    var h := g(r);
    if h == hole then
      Links(a.slots[h := HashInfo(NIL, r)], a.prev[h := NIL], a.rank)
    else if g(a.slots[h].rec) == h then
      Links(a.slots[hole := a.slots[h]][h := HashInfo(hole, r)],
            seq(|a.prev|, s requires 0 <= s < |a.prev| => if s == h then NIL else if s == hole then h else if a.prev[s] == h then hole else a.prev[s]),
            seq(|a.rank|, s requires 0 <= s < |a.rank| => if s == h then 0 else if s == hole then a.rank[h] + 1 else a.rank[s] + 1))
    else
      var p := a.prev[h];
      Links(a.slots[hole := a.slots[h]][h := HashInfo(NIL, r)][p := a.slots[p].(next := hole)],
            seq(|a.prev|, s requires 0 <= s < |a.prev| => if s == h then NIL else if s == hole then p else if a.prev[s] == h then hole else a.prev[s]),
            a.rank[hole := a.rank[h]])
  }

  lemma Place(a: Links, m: nat, g: nat -> nat, hole: nat, r: nat) returns (b: Links)
    requires Chained(a, m, g, hole) && hole < m && g(r) < m && r !in Recs(a.slots, m, hole)
    ensures g(r) != hole && g(a.slots[g(r)].rec) != g(r) ==>
              0 <= a.prev[g(r)] < m && a.prev[g(r)] != g(r) && a.prev[g(r)] != hole
    ensures b == Placed(a, g, hole, r)
    ensures Chained(b, m, g, NIL)
    ensures Recs(b.slots, m, NIL) == Recs(a.slots, m, hole) + {r}
    ensures |Heads(b.slots, m, g, NIL)| ==
              |Heads(a.slots, m, g, hole)| + (if g(r) != hole && g(a.slots[g(r)].rec) == g(r) then 0 else 1)
  {
    hide DistinctRecs, Recs, SlotOk;
    var h := g(r);
    if h != hole {
      PlaceHome(a, m, g, hole, h);
    }
    b := Placed(a, g, hole, r);
    forall s: nat | s < m ensures SlotOk(b, m, g, NIL, s) {
      if s != hole {
        HomeHeads(a, m, g, hole, s);
      }
      PlaceSlot(a, m, g, hole, r, s);
    }
    PlaceRecs(a, m, g, hole, r);
    PlaceHeads(a, m, g, hole, r);
  }

  lemma PlaceHome(a: Links, m: nat, g: nat -> nat, hole: nat, h: nat)
    requires Chained(a, m, g, hole) && h < m && h != hole
    ensures SlotOk(a, m, g, hole, h) && g(a.slots[h].rec) != hole
    ensures g(a.slots[h].rec) != h ==> 0 <= a.prev[h] < m && a.prev[h] != h && a.prev[h] != hole
  {
    HomeHeads(a, m, g, hole, h);
  }

  lemma PlaceSlot(a: Links, m: nat, g: nat -> nat, hole: nat, r: nat, s: nat)
    requires m <= |a.slots| == |a.prev| == |a.rank| && hole < m && g(r) < m && s < m
    requires g(r) != hole ==> SlotOk(a, m, g, hole, g(r)) && g(a.slots[g(r)].rec) != hole
    requires s != hole ==> SlotOk(a, m, g, hole, s) && g(a.slots[s].rec) != hole
    requires s != hole && g(r) != hole && g(a.slots[g(r)].rec) != g(r) ==> g(a.slots[s].rec) != g(r)
    ensures SlotOk(Placed(a, g, hole, r), m, g, NIL, s)
  {
  }

  lemma PlaceRecs(a: Links, m: nat, g: nat -> nat, hole: nat, r: nat)
    requires m <= |a.slots| == |a.prev| == |a.rank| && hole < m && g(r) < m
    requires g(r) != hole && g(a.slots[g(r)].rec) != g(r) ==> 0 <= a.prev[g(r)] < m && a.prev[g(r)] != g(r) && a.prev[g(r)] != hole
    requires DistinctRecs(a.slots, m, hole) && r !in Recs(a.slots, m, hole)
    ensures var b := Placed(a, g, hole, r);
      Recs(b.slots, m, NIL) == Recs(a.slots, m, hole) + {r} && DistinctRecs(b.slots, m, NIL)
  {
    var h := g(r);
    var slots, slots' := a.slots, Placed(a, g, hole, r).slots;
    assert forall s | 0 <= s < m :: slots'[s].rec == if s == h then r else if s == hole then slots[h].rec else slots[s].rec;
    forall s, t | 0 <= s < m && 0 <= t < m && s != t ensures Differ(slots', s, t) {
      if s != h && t != h {
        assert Differ(slots, if s == hole then h else s, if t == hole then h else t);
      } else {
        var other := if s == h then t else s;
        assert slots[if other == hole then h else other].rec in Recs(slots, m, hole);
      }
    }
    forall x ensures x in Recs(slots', m, NIL) <==> x in Recs(slots, m, hole) || x == r {
      if x in Recs(slots', m, NIL) {
        var s :| 0 <= s < m && slots'[s].rec == x;
        assert s != h ==> slots[if s == hole then h else s].rec == x;
      }
      if x == r {
        assert slots'[h].rec == x;
      } else if x in Recs(slots, m, hole) {
        var s :| 0 <= s < m && s != hole && slots[s].rec == x;
        assert slots'[if s == h then hole else s].rec == x;
      }
    }
  }

  lemma PlaceHeads(a: Links, m: nat, g: nat -> nat, hole: nat, r: nat)
    requires Chained(a, m, g, hole) && hole < m && g(r) < m
    requires g(r) != hole && g(a.slots[g(r)].rec) != g(r) ==> 0 <= a.prev[g(r)] < m && a.prev[g(r)] != g(r) && a.prev[g(r)] != hole
    ensures |Heads(Placed(a, g, hole, r).slots, m, g, NIL)| ==
              |Heads(a.slots, m, g, hole)| + (if g(r) != hole && g(a.slots[g(r)].rec) == g(r) then 0 else 1)
  {
    var h := g(r);
    var slots' := Placed(a, g, hole, r).slots;
    forall s | 0 <= s < m && s != hole ensures g(a.slots[s].rec) != hole {
      HomeHeads(a, m, g, hole, s);
    }
    assert forall s | 0 <= s < m :: slots'[s].rec == if s == h then r else if s == hole then a.slots[h].rec else a.slots[s].rec;
    assert Heads(slots', m, g, NIL) == Heads(a.slots, m, g, hole) + {h as int};
  }

  lemma PlaceWalk(a: Links, m: nat, g: nat -> nat, hole: nat, r: nat) returns (k: nat)
    requires Chained(a, m, g, hole) && hole < m && g(r) < m && g(r) != hole && g(a.slots[g(r)].rec) != g(r)
    ensures FirstLinkTo(a.slots[hole := a.slots[g(r)]][g(r) := HashInfo(NIL, r)], g(a.slots[g(r)].rec), g(r), a.prev[g(r)], k)
  {
    var h := g(r);
    PlaceHome(a, m, g, hole, h);
    var p := a.prev[h];
    k := HomeLeads(a, m, g, hole, p);
    HomeHeads(a, m, g, hole, p);
    WalkUndisturbed(a, m, g, hole, a.slots[hole := a.slots[h]][h := HashInfo(NIL, r)], g(a.slots[p].rec), p, k);
  }

  // ---------------------------------------------------------------- links owed

  /** The slots as the loop has them: the last entry of either half may still lack its
      record or its link; an end that is `used` has both, with the link leading on to `pos`. */
  ghost predicate Owing(slots: seq<HashInfo>, sp: Split, lowUsed: bool, lowRec: nat, highUsed: bool, highRec: nat) {
    && |slots| == |sp.w.slots|
    && (forall s: nat | s < |slots| && s != sp.hole && s != sp.lowEnd && s != sp.highEnd :: slots[s] == sp.w.slots[s])
    && EndOwing(slots, sp, sp.lowEnd, lowUsed, lowRec)
    && EndOwing(slots, sp, sp.highEnd, highUsed, highRec)
  }

  ghost predicate EndOwing(slots: seq<HashInfo>, sp: Split, end: int, used: bool, r: nat)
    requires |slots| == |sp.w.slots|
  {
    && (used ==> end != NIL)
    && (0 <= end < |slots| ==> sp.w.slots[end].rec == r && (used ==> slots[end] == HashInfo(sp.pos, r)))
  }

  /** The link the loop writes when it sees the entry at `pos`: only if the entry before it
      went to the other half. */
  ghost function Paid(slots: seq<HashInfo>, sp: Split, isLow: bool, used: bool, r: nat): seq<HashInfo> {
    var end := if isLow then sp.lowEnd else sp.highEnd;
    if 0 <= end < |slots| && !used then slots[end := HashInfo(sp.pos, r)] else slots
  }

  /** One round of the loop: what is owed afterwards. */
  lemma OweNext(slots: seq<HashInfo>, sp: Split, g: nat -> nat, isLow: bool, lowUsed: bool, lowRec: nat, highUsed: bool, highRec: nat)
    requires Splitting(sp, g) && sp.pos != NIL && !(lowUsed && highUsed)
    requires Owing(slots, sp, lowUsed, lowRec, highUsed, highRec)
    ensures slots[sp.pos] == sp.w.slots[sp.pos]
    ensures var slots' := Paid(slots, sp, isLow, if isLow then lowUsed else highUsed, if isLow then lowRec else highRec);
            var r := slots[sp.pos].rec;
            && Owing(slots', Taken(sp, isLow),
                     isLow && (sp.lowEnd != NIL || sp.highEnd == NIL), if isLow then r else lowRec,
                     !isLow && sp.highEnd != NIL, if isLow then highRec else r)
            && slots'[sp.pos].next == Taken(sp, isLow).pos
  {
    hide SlotOk, RestOk, DistinctRecs;
  }

  /** After the loop only the ends can differ. */
  lemma OweNothing(slots: seq<HashInfo>, sp: Split, g: nat -> nat, lowUsed: bool, lowRec: nat, highUsed: bool, highRec: nat)
    returns (paid: seq<HashInfo>)
    requires Splitting(sp, g) && sp.pos == NIL
    requires Owing(slots, sp, lowUsed, lowRec, highUsed, highRec)
    ensures sp.lowEnd != NIL ==> 0 <= sp.lowEnd < |slots|
    ensures sp.highEnd != NIL ==> 0 <= sp.highEnd < |slots|
    ensures var once := if sp.lowEnd != NIL && !lowUsed then slots[sp.lowEnd := HashInfo(NIL, lowRec)] else slots;
            paid == if sp.highEnd != NIL && !highUsed then once[sp.highEnd := HashInfo(NIL, highRec)] else once
    ensures |paid| == |sp.w.slots|
    ensures forall s: nat | s < |paid| && s != sp.hole :: paid[s] == sp.w.slots[s]
  {
    hide SlotOk, RestOk, DistinctRecs;
    var once := if sp.lowEnd != NIL && !lowUsed then slots[sp.lowEnd := HashInfo(NIL, lowRec)] else slots;
    paid := if sp.highEnd != NIL && !highUsed then once[sp.highEnd := HashInfo(NIL, highRec)] else once;
  }

  /** What is in a free slot does not matter. */
  lemma FreeSlotIsFree(a: Links, m: nat, g: nat -> nat, hole: nat, slots: seq<HashInfo>)
    requires Chained(a, m, g, hole) && |slots| == |a.slots|
    requires forall s: nat | s < |slots| && s != hole :: slots[s] == a.slots[s]
    ensures Chained(Links(slots, a.prev, a.rank), m, g, hole)
    ensures Recs(slots, m, hole) == Recs(a.slots, m, hole)
    ensures Heads(slots, m, g, hole) == Heads(a.slots, m, g, hole)
  {
    var b := Links(slots, a.prev, a.rank);
    forall s: nat | s < m && s != hole ensures SlotOk(b, m, g, hole, s) {
      assert SlotOk(a, m, g, hole, s);
    }
    forall s, t | 0 <= s < m && 0 <= t < m && s != t && s != hole && t != hole ensures Differ(slots, s, t) {
      assert Differ(a.slots, s, t);
    }
  }

  /** The whole loop invariant, with the records and the other chains it keeps. */
  ghost predicate Halving(sp: Split, g: nat -> nat, n: nat, low: nat, contents: set<nat>, others: set<int>) {
    && Splitting(sp, g) && sp.n == n && sp.low == low
    && Recs(sp.w.slots, n + 1, sp.hole) == contents
    && OtherHeads(sp, g) == others
  }

  lemma HalveNext(sp: Split, g: nat -> nat, n: nat, low: nat, contents: set<nat>, others: set<int>, isLow: bool)
    requires Halving(sp, g, n, low, contents, others) && sp.pos != NIL
    requires 0 <= sp.pos <= n && g(sp.w.slots[sp.pos].rec) == if isLow then low else n
    ensures Halving(Taken(sp, isLow), g, n, low, contents, others)
    ensures var sp' := Taken(sp, isLow);
      && sp'.rest < sp.rest
      && sp'.hole == (if (if isLow then sp.lowEnd != NIL || sp.highEnd == NIL else sp.highEnd != NIL) then sp.hole else sp.pos)
      && sp'.lowEnd == (if !isLow then sp.lowEnd else if sp.lowEnd != NIL || sp.highEnd == NIL then sp.pos else sp.hole)
      && sp'.highEnd == (if isLow then sp.highEnd else if sp.highEnd != NIL then sp.pos else sp.hole)
  {
    hide Splitting;
    Take(sp, g, isLow);
    SplittingShape(sp, g);
    TakeHeads(sp, g, isLow);
  }

  lemma SplittingShape(sp: Split, g: nat -> nat)
    requires Splitting(sp, g)
    ensures Shape(sp) && EndOk(sp, g, sp.low, sp.lowEnd) && EndOk(sp, g, sp.n, sp.highEnd)
    ensures sp.pos != NIL ==> RestOk(sp, g, sp.pos)
  {
    if sp.pos != NIL {
      assert PartOk(sp, g, sp.pos);
    }
  }

  /** The index that the split leaves once the links still owed are written. */
  lemma HalveDone(slots: seq<HashInfo>, sp: Split, g: nat -> nat, n: nat, low: nat, contents: set<nat>, others: set<int>,
                  lowUsed: bool, lowRec: nat, highUsed: bool, highRec: nat)
    returns (paid: seq<HashInfo>)
    requires Halving(sp, g, n, low, contents, others) && sp.pos == NIL
    requires Owing(slots, sp, lowUsed, lowRec, highUsed, highRec)
    ensures -1 <= sp.lowEnd < |slots| && -1 <= sp.highEnd < |slots| && sp.hole <= n
    ensures var once := if sp.lowEnd != NIL && !lowUsed then slots[sp.lowEnd := HashInfo(NIL, lowRec)] else slots;
            paid == if sp.highEnd != NIL && !highUsed then once[sp.highEnd := HashInfo(NIL, highRec)] else once
    ensures Chained(Links(paid, sp.w.prev, sp.w.rank), n + 1, g, sp.hole)
    ensures Recs(paid, n + 1, sp.hole) == contents
    ensures |Heads(paid, n + 1, g, sp.hole)| == |others| + (if sp.lowEnd != NIL && sp.highEnd != NIL then 2 else 1)
  {
    hide Owing, Shape;
    paid := OweNothing(slots, sp, g, lowUsed, lowRec, highUsed, highRec);
    SplittingShape(sp, g);
    SplitDone(sp, g);
    SplitHeads(sp, g);
    FreeSlotIsFree(sp.w, n + 1, g, sp.hole, paid);
  }

  lemma HalveStart(a: Links, n: nat, f: nat -> nat, g: nat -> nat, low: nat) returns (sp: Split, others: set<int>)
    requires Chained(a, n, f, NIL) && low < n < |a.slots| && Readdresses(n + 1, g, f, low)
    requires forall r :: g(r) <= n
    requires f(a.slots[low].rec) == low
    ensures Halving(sp, g, n, low, Recs(a.slots, n, NIL), others)
    ensures sp.hole == n && sp.pos == low && sp.lowEnd == NIL && sp.highEnd == NIL
    ensures |Heads(a.slots, n, f, NIL)| == |others| + 1
    ensures Owing(a.slots, sp, false, 0, false, 0)
  {
    sp := SplitStart(a, n, f, g, low);
    others := OtherHeads(sp, g);
    StartHeads(a, n, f, g, low, sp);
  }

  lemma HalvingEntry(slots: seq<HashInfo>, sp: Split, g: nat -> nat, n: nat, low: nat, contents: set<nat>, others: set<int>,
                     lowUsed: bool, lowRec: nat, highUsed: bool, highRec: nat)
    requires Halving(sp, g, n, low, contents, others) && sp.pos != NIL
    requires Owing(slots, sp, lowUsed, lowRec, highUsed, highRec)
    ensures Splitting(sp, g) && 0 <= sp.pos < n && slots[sp.pos].rec == sp.w.slots[sp.pos].rec
    ensures g(slots[sp.pos].rec) == low || g(slots[sp.pos].rec) == n
    ensures sp.n < |sp.w.slots| == |sp.w.prev| == |sp.w.rank| && sp.n == n && sp.hole <= n && |slots| == |sp.w.slots|
    ensures -1 <= sp.lowEnd <= n && -1 <= sp.highEnd <= n && sp.lowEnd != sp.pos && sp.highEnd != sp.pos
  {
    hide Splitting;
    SplittingShape(sp, g);
  }

  /** A chain whose head has no link is just the head. */
  lemma AloneAtHome(a: Links, m: nat, g: nat -> nat, h: nat)
    requires Chained(a, m, g, NIL) && h < m && g(a.slots[h].rec) == h && a.slots[h].next == NIL
    ensures forall s | 0 <= s < m && s != h :: g(a.slots[s].rec) != h
  {
    forall s: nat | s < m && s != h ensures g(a.slots[s].rec) != h {
      var k := HomeLeads(a, m, g, NIL, s);
    }
  }

  /** A record with the key of the new record `r` sits in another slot of the same chain. */
  lemma SameKeySlots(a: Links, m: nat, g: nat -> nat, head: nat, before: set<nat>, r: nat, sameKey: nat -> bool)
    requires Chained(a, m, g, NIL) && Recs(a.slots, m, NIL) == before + {r} && r !in before
    requires head < m && a.slots[head].rec == r && g(r) == head
    requires forall x :: sameKey(x) ==> g(x) == head
    ensures (exists x :: x in before && sameKey(x)) <==>
            exists s :: 0 <= s < m && s != head && g(a.slots[s].rec) == head && sameKey(a.slots[s].rec)
  {
    if x :| x in before && sameKey(x) {
      assert x in Recs(a.slots, m, NIL);
      var s :| 0 <= s < m && a.slots[s].rec == x;
      assert s != head;
    }
    if s :| 0 <= s < m && s != head && g(a.slots[s].rec) == head && sameKey(a.slots[s].rec) {
      assert a.slots[s].rec in Recs(a.slots, m, NIL);
      assert Differ(a.slots, s, head);
    }
  }

  /** One slot more behind the index changes nothing. */
  lemma SlotAppended(a: Links, n: nat, f: nat -> nat, x: HashInfo)
    requires Chained(a, n, f, NIL)
    ensures Chained(Links(a.slots + [x], a.prev + [NIL], a.rank + [0]), n, f, NIL)
    ensures Recs(a.slots + [x], n, NIL) == Recs(a.slots, n, NIL)
    ensures Heads(a.slots + [x], n, f, NIL) == Heads(a.slots, n, f, NIL)
  {
    var b := Links(a.slots + [x], a.prev + [NIL], a.rank + [0]);
    forall s: nat | s < n ensures SlotOk(b, n, f, NIL, s) && b.slots[s] == a.slots[s] {
      assert SlotOk(a, n, f, NIL, s);
    }
    forall s, t | 0 <= s < n && 0 <= t < n && s != t ensures Differ(b.slots, s, t) {
      assert Differ(a.slots, s, t);
    }
    forall r ensures r in Recs(b.slots, n, NIL) <==> r in Recs(a.slots, n, NIL) {
      if r in Recs(b.slots, n, NIL) {
        var s :| 0 <= s < n && b.slots[s].rec == r;
        assert a.slots[s].rec == r;
      }
      if r in Recs(a.slots, n, NIL) {
        var s :| 0 <= s < n && a.slots[s].rec == r;
        assert b.slots[s].rec == r;
      }
    }
  }
}
