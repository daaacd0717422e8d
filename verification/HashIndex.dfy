/** HP_KEYDEF's hash index as it is updated in place. */
module HashIndex {
  import opened LinearHash
  import opened HashWalk
  import opened HashDelete
  import opened HashWrite

  datatype Status = Ok | Crashed | DuplicateKey

  /** What hp_delete_key needs of hp_mask when the table goes to `records` records. */
  lemma ShrinkFacts(hash: nat -> nat, records: nat, recpos: nat) returns (target: int)
    ensures var b := BLength(records);
            BLength(records + 1) == if records + 1 == b then b + b else b
    ensures Address(hash, BLength(records + 1), records + 1)(recpos) < records + 1
    ensures records > 0 ==>
              && 0 <= target < records
              && Readdresses(records + 1, Address(hash, BLength(records + 1), records + 1), Address(hash, BLength(records), records), target)
  {
    hide Readdresses, Address, Mask;
    target := 0;
    BLengthStep(records + 1);
    AddressInRange(hash, records + 1, recpos);
    if records > 0 {
      ShrinkReaddresses(hash, records + 1);
      target := records - BLength(records) / 2;
    }
  }

  /** What hp_write_key needs of hp_mask when a record is added to `n` records: `low` is
      first_index, the address that the new slot takes keys from, and the addresses it
      computes with the old `blength` are the right ones. */
  lemma GrowFacts(hash: nat -> nat, n: nat) returns (low: nat)
    ensures low == n - BLength(n) / 2
    ensures var f, g := Address(hash, BLength(n), n), Address(hash, BLength(n + 1), n + 1);
      && Readdresses(n + 1, g, f, low)
      && (forall r, s :: hash(r) == hash(s) ==> g(r) == g(s))
      && forall r :: g(r) <= n && Address(hash, BLength(n), n + 1)(r) == g(r)
           && (low < n && (g(r) == low || g(r) == n) ==> (g(r) == n <==> UpperHalf(hash(r), BLength(n) / 2)))
  {
    low := n - BLength(n) / 2;
    var f, g := Address(hash, BLength(n), n), Address(hash, BLength(n + 1), n + 1);
    BLengthStep(n + 1);
    forall r: nat
      ensures f(r) == if g(r) == n then low else g(r)
      ensures g(r) <= n && Address(hash, BLength(n), n + 1)(r) == g(r)
      ensures low < n && (g(r) == low || g(r) == n) ==> (g(r) == n <==> UpperHalf(hash(r), BLength(n) / 2))
    {
      GrowFact(hash, n, r);
    }
  }

  lemma AddressesMean(hash: nat -> nat, n: nat, r: nat)
    ensures BLength(n) > 0 && BLength(n + 1) > 0
    ensures Address(hash, BLength(n), n)(r) == if n == 0 then 0 else Mask(hash(r), BLength(n), n)
    ensures Address(hash, BLength(n + 1), n + 1)(r) == Mask(hash(r), BLength(n + 1), n + 1)
    ensures Address(hash, BLength(n), n + 1)(r) == Mask(hash(r), BLength(n), n + 1)
  {
    hide Mask;
  }

  lemma GrowFact(hash: nat -> nat, n: nat, r: nat)
    ensures var f, g, low := Address(hash, BLength(n), n), Address(hash, BLength(n + 1), n + 1), n - BLength(n) / 2;
      && f(r) == (if g(r) == n then low else g(r))
      && g(r) <= n && Address(hash, BLength(n), n + 1)(r) == g(r)
      && (low < n && (g(r) == low || g(r) == n) ==> (g(r) == n <==> UpperHalf(hash(r), BLength(n) / 2)))
  {
    hide UpperHalf, Mask, BLength;
    AddressesMean(hash, n, r);
    hide Address;
    MaskGrows(hash(r), n);
    if n > 0 {
      MaskShrinks(hash(r), n + 1);
    }
  }

  /** An index only depends on the hashes of its own records. */
  lemma Rehash(a: Links, n: nat, f: nat -> nat, g: nat -> nat)
    requires Chained(a, n, f, NIL)
    requires forall r :: r in Recs(a.slots, n, NIL) ==> g(r) == f(r)
    ensures Chained(a, n, g, NIL) && Heads(a.slots, n, g, NIL) == Heads(a.slots, n, f, NIL)
  {
    forall s: nat | s < n ensures g(a.slots[s].rec) == f(a.slots[s].rec) {
      assert a.slots[s].rec in Recs(a.slots, n, NIL);
    }
    forall s: nat | s < n ensures SlotOk(a, n, g, NIL, s) {
      assert SlotOk(a, n, f, NIL, s);
    }
  }

  class KeyDef {
    var slots: seq<HashInfo>
    var hashBuckets: int
    ghost var prev: seq<int>
    ghost var rank: seq<nat>

    ghost function Index(): Links
      reads this
    {
      Links(slots, prev, rank)
    }

    /** The index of `records` records, each addressed by its hash. */
    ghost predicate Valid(hash: nat -> nat, records: nat)
      reads this
    {
      && Chained(Index(), records, Address(hash, BLength(records), records), NIL)
      && hashBuckets == |Heads(slots, records, Address(hash, BLength(records), records), NIL)|
    }

    ghost function Contents(records: nat): set<nat>
      requires records <= |slots|
      reads this
    {
      Recs(slots, records, NIL)
    }

    constructor ()
      ensures forall hash :: Valid(hash, 0)
    {
      slots, hashBuckets, prev, rank := [], 0, [], [];
    }

    /** hp_clear_keys for one hash index. */
    method Clear()
      modifies this
      ensures forall hash :: Valid(hash, 0)
    {
      slots, hashBuckets, prev, rank := [], 0, [], [];
    }

    lemma ValidRehashed(hash: nat -> nat, hash': nat -> nat, n: nat)
      requires Valid(hash, n)
      requires forall r :: r in Contents(n) ==> hash'(r) == hash(r)
      ensures Valid(hash', n)
    {
      hide Heads, Address, Recs;
      forall r | r in Contents(n) ensures Address(hash, BLength(n), n)(r) == Address(hash', BLength(n), n)(r) {
        AddressSame(hash, hash', BLength(n), n, r, r);
      }
      Rehash(Index(), n, Address(hash, BLength(n), n), Address(hash', BLength(n), n));
    }

    /** hp_movelink: the link to `pos` on the way from `start` is set to `newLink`. */
    method MoveLink(pos: int, start: nat, newLink: int, ghost p: nat, ghost k: nat)
      requires FirstLinkTo(slots, start, pos, p, k)
      modifies this`slots
      ensures p < |old(slots)| && slots == old(slots)[p := old(slots)[p].(next := newLink)]
    {
      var oldLink, nextLink := start, slots[start].next;
      ghost var left := k;
      while nextLink != pos
        invariant 0 <= oldLink < |slots| && nextLink == slots[oldLink].next
        invariant FirstLinkTo(slots, oldLink, pos, p, left)
        decreases left
      {
        oldLink := nextLink;
        nextLink := slots[oldLink].next;
        left := left - 1;
      }
      slots := slots[oldLink := slots[oldLink].(next := newLink)];
    }

    /** The search loop of hp_delete_key: the slot of `recpos` and the slot that links to
        it.  `address` is hp_mask(hp_rec_hashnr(record), blength, n). */
    method Search(address: nat -> nat, ghost n: nat, recpos: nat) returns (pos: int, gpos: int)
      requires Chained(Index(), n, address, NIL) && address(recpos) < n
      ensures pos == NIL <==> recpos !in Contents(n)
      ensures pos != NIL ==> 0 <= pos < n && slots[pos].rec == recpos && gpos == prev[pos]
    {
      ghost var a, k := Index(), 0;
      ghost var bound := RankBound(rank);
      ghost var x := NIL;
      pos, gpos := address(recpos), NIL;
      if recpos in Contents(n) {
        x :| 0 <= x < n && slots[x].rec == recpos;
        HomeHeads(a, n, address, NIL, x);
        k := HomeLeads(a, n, address, NIL, x);
      }
      while slots[pos].rec != recpos
        invariant 0 <= pos < n
        invariant x != NIL ==> Leads(slots, pos, x, k) && gpos == prev[pos]
        decreases bound - rank[pos]
      {
        assert SlotOk(a, n, address, NIL, pos);
        gpos := pos;
        pos := slots[pos].next;
        if pos == NIL {
          return;
        }
        assert SlotOk(a, n, address, NIL, pos);
        k := if k > 0 then k - 1 else 0;
      }
      assert x != NIL && x != pos ==> Differ(slots, x, pos);
    }

    /** hp_delete_key without its cursor fix-up.  `records` and `shareBLength` are the
        table's counters, which heap_delete has already decreased. */
    method DeleteKey(hash: nat -> nat, recpos: nat, records: nat, shareBLength: nat) returns (status: Status)
      requires Valid(hash, records + 1) && shareBLength == BLength(records)
      modifies this
      ensures status == if recpos in old(Contents(records + 1)) then Ok else Crashed
      ensures status == Ok ==> Valid(hash, records) && Contents(records) == old(Contents(records + 1)) - {recpos}
      ensures status == Crashed ==> Valid(hash, records + 1) && slots == old(slots)
      ensures |slots| == |old(slots)|
    {
      hide Chained, Recs, Heads, Readdresses, Address, Mask;
      var blength := if records + 1 == shareBLength then shareBLength + shareBLength else shareBLength;
      ghost var target := ShrinkFacts(hash, records, recpos);
      status := DeleteEntry(Address(hash, blength, records + 1), Address(hash, shareBLength, records), recpos, records, target);
    }

    /** hp_delete_key in terms of the addresses under the old and the new slot count. */
    method DeleteEntry(oldAddress: nat -> nat, newAddress: nat -> nat, recpos: nat, records: nat, ghost target: int)
      returns (status: Status)
      requires oldAddress(recpos) < records + 1
      requires records > 0 ==> 0 <= target < records && Readdresses(records + 1, oldAddress, newAddress, target)
      requires Chained(Index(), records + 1, oldAddress, NIL)
      requires hashBuckets == |Heads(slots, records + 1, oldAddress, NIL)|
      modifies this
      ensures |slots| == |old(slots)|
      ensures status == if recpos in old(Contents(records + 1)) then Ok else Crashed
      ensures status == Ok ==>
                && Chained(Index(), records, newAddress, NIL)
                && hashBuckets == |Heads(slots, records, newAddress, NIL)|
                && Contents(records) == old(Contents(records + 1)) - {recpos}
      ensures status == Crashed ==> unchanged(this)
    {
      hide Heads, Readdresses;
      var pos, gpos := Search(oldAddress, records + 1, recpos);
      if pos == NIL {
        return Crashed;
      }
      var empty := Unlink(oldAddress, records + 1, pos, gpos);
      MoveLast(oldAddress, newAddress, empty, records, if records > 0 then target else 0);
      status := Ok;
    }

    /** Removes the link to the record in `pos`; slot `empty` is then free. */
    method Unlink(oldAddress: nat -> nat, ghost n: nat, pos: nat, gpos: int) returns (empty: nat)
      requires Chained(Index(), n, oldAddress, NIL) && pos < n && gpos == prev[pos]
      requires hashBuckets == |Heads(slots, n, oldAddress, NIL)|
      modifies this
      ensures |slots| == |old(slots)| && empty < n && Chained(Index(), n, oldAddress, empty)
      ensures hashBuckets == |Heads(slots, n, oldAddress, empty)|
      ensures Recs(slots, n, empty) == old(Contents(n)) - {old(slots[pos]).rec}
    {
      ghost var a, b := Index(), Index();
      assert SlotOk(a, n, oldAddress, NIL, pos);
      empty := pos;
      if gpos != NIL {
        b := UnlinkInner(a, n, oldAddress, pos);
        slots := slots[gpos := slots[gpos].(next := slots[pos].next)];
      } else if slots[pos].next != NIL {
        b := UnlinkHead(a, n, oldAddress, pos);
        empty := slots[pos].next;
        slots := slots[pos := slots[empty]];
      } else {
        UnlinkOnly(a, n, oldAddress, pos);
        hashBuckets := hashBuckets - 1;
      }
      prev, rank := b.prev, b.rank;
      assert b == Index();
    }

    /** The part of hp_delete_key that moves the last slot into the free one. */
    method MoveLast(oldAddress: nat -> nat, newAddress: nat -> nat, empty: nat, records: nat, ghost target: nat)
      requires empty <= records
      requires empty < records ==> target < records
      requires Readdresses(records + 1, oldAddress, newAddress, target) || records == 0
      requires Chained(Index(), records + 1, oldAddress, empty)
      requires hashBuckets == |Heads(slots, records + 1, oldAddress, empty)|
      modifies this
      ensures |slots| == |old(slots)| && Chained(Index(), records, newAddress, NIL)
      ensures hashBuckets == |Heads(slots, records, newAddress, NIL)|
      ensures Contents(records) == old(Recs(slots, records + 1, empty))
    {
      hide Heads, Recs, DistinctRecs;
      var lastpos := records;
      ghost var n := records + 1;
      ghost var a, b := Index(), Index();
      if empty == lastpos {
        NothingToMove(a, n, oldAddress, newAddress);
        return;
      }
      HomeHeads(a, n, oldAddress, empty, lastpos);
      // pos is where lastpos should be.
      var pos := newAddress(slots[lastpos].rec);
      if pos == empty {
        b := MoveToHole(a, n, oldAddress, empty, newAddress, target);
        slots := slots[empty := slots[lastpos]];
        prev, rank := b.prev, b.rank;
        return;
      }
      HomeHeads(a, n, oldAddress, empty, pos);
      // pos3 is where the record in pos should be.
      var pos3 := newAddress(slots[pos].rec);
      if pos != pos3 {
        b := EvictForeigner(a, n, oldAddress, empty, newAddress, target, pos);
        ghost var k := EvictWalk(a, n, oldAddress, empty, pos);
        slots := slots[empty := slots[pos]];
        slots := slots[pos := slots[lastpos]];
        MoveLink(pos, pos3, empty, prev[pos], k);
        prev, rank := b.prev, b.rank;
        return;
      }
      var pos2 := oldAddress(slots[lastpos].rec);
      if pos2 == oldAddress(slots[pos].rec) && pos2 != records {
        b := RelinkMember(a, n, oldAddress, empty, newAddress, target);
        ghost var k := RelinkWalk(a, n, oldAddress, empty);
        slots := slots[empty := slots[lastpos]];
        MoveLink(lastpos, pos, empty, prev[lastpos], k);
        prev, rank := b.prev, b.rank;
        return;
      }
      JoinLast(oldAddress, newAddress, empty, records, pos, pos2 == oldAddress(slots[pos].rec));
    }

    /** The last two exits: the chain of the last slot and that of `pos` become one. */
    method JoinLast(oldAddress: nat -> nat, newAddress: nat -> nat, empty: nat, records: nat, pos: nat, same: bool)
      requires Shrinking(Index(), records + 1, oldAddress, empty, newAddress, pos) && pos != empty
      requires oldAddress(slots[records].rec) == records && oldAddress(slots[pos].rec) == if same then records else pos
      requires hashBuckets == |Heads(slots, records + 1, oldAddress, empty)|
      modifies this
      ensures |slots| == |old(slots)| && Chained(Index(), records, newAddress, NIL)
      ensures hashBuckets == |Heads(slots, records, newAddress, NIL)|
      ensures Contents(records) == old(Recs(slots, records + 1, empty))
    {
      hide Heads, Recs, DistinctRecs, SlotOk, Readdresses;
      ghost var a := Index();
      var pos3: int := pos;
      if !same {
        // Different positions merge.
        pos3 := NIL;
        hashBuckets := hashBuckets - 1;
      }
      ghost var b, p, k := JoinChains(a, records + 1, oldAddress, empty, newAddress, pos, pos3);
      slots := slots[empty := slots[records]];
      MoveLink(pos3, empty, slots[pos].next, p, k);
      slots := slots[pos := slots[pos].(next := empty)];
      prev, rank := b.prev, b.rank;
    }

    /** The first half of hp_write_key: the home `low` gives up, to the new slot `n`, the
        entries whose hash has the bit `halfbuff`; slot `empty` is then free. */
    method SplitChain(hash: nat -> nat, oldAddress: nat -> nat, ghost newAddress: nat -> nat, n: nat, low: nat, halfbuff: nat)
      returns (empty: nat)
      requires Chained(Index(), n, oldAddress, NIL) && low <= n < |slots|
      requires hashBuckets == |Heads(slots, n, oldAddress, NIL)|
      requires Readdresses(n + 1, newAddress, oldAddress, low)
      requires forall r :: newAddress(r) <= n && (low < n && (newAddress(r) == low || newAddress(r) == n) ==> (newAddress(r) == n <==> UpperHalf(hash(r), halfbuff)))
      modifies this
      ensures |slots| == |old(slots)| && empty <= n && Chained(Index(), n + 1, newAddress, empty)
      ensures hashBuckets == |Heads(slots, n + 1, newAddress, empty)|
      ensures Recs(slots, n + 1, empty) == old(Contents(n))
    {
      hide DistinctRecs, Recs, Heads, SlotOk, Halving, Owing, Taken, Splitting, Readdresses;
      empty := n;
      ghost var a, contents := Index(), Recs(slots, n, NIL);
      if low == n || oldAddress(slots[low].rec) != low {
        NoSplit(a, n, oldAddress, newAddress, low);
        return;
      }
      var lowFind, lowUsed, highFind, highUsed := false, false, false, false;
      var gpos: nat, gpos2: nat, ptrToRec: nat, ptrToRec2: nat := 0, 0, 0, 0;
      var pos: int := low;
      ghost var sp, others := HalveStart(a, n, oldAddress, newAddress, low);
      while pos != NIL
        invariant Halving(sp, newAddress, n, low, contents, others) && sp.pos == pos && sp.hole == empty
        invariant Owing(slots, sp, lowUsed, ptrToRec, highUsed, ptrToRec2)
        invariant !(lowUsed && highUsed) && (lowUsed ==> lowFind) && (highUsed ==> highFind)
        invariant sp.lowEnd == (if lowFind then gpos else NIL) && sp.highEnd == (if highFind then gpos2 else NIL)
        invariant |slots| == |old(slots)| && hashBuckets == old(hashBuckets)
        decreases sp.rest
      {
        HalvingEntry(slots, sp, newAddress, n, low, contents, others, lowUsed, ptrToRec, highUsed, ptrToRec2);
        var hashnr := hash(slots[pos].rec);
        ghost var isLow := !UpperHalf(hashnr, halfbuff);
        OweNext(slots, sp, newAddress, isLow, lowUsed, ptrToRec, highUsed, ptrToRec2);
        HalveNext(sp, newAddress, n, low, contents, others, isLow);
        ghost var sp' := Taken(sp, isLow);
        // What will be owed after this round.
        ghost var lowKept, highKept := isLow && (sp.lowEnd != NIL || sp.highEnd == NIL), !isLow && sp.highEnd != NIL;
        ghost var lowRec, highRec := if isLow then slots[pos].rec else ptrToRec, if isLow then ptrToRec2 else slots[pos].rec;
        ghost var paid := Paid(slots, sp, isLow, if isLow then lowUsed else highUsed, if isLow then ptrToRec else ptrToRec2);
        if !UpperHalf(hashnr, halfbuff) {
          if !lowFind {
            lowFind := true;
            if highFind {
              // The entry shall move to the current empty position.
              lowUsed, highUsed := false, false;
              gpos := empty;
              ptrToRec := slots[pos].rec;
              empty := pos;
            } else {
              lowUsed := true;
              gpos := pos;
              ptrToRec := slots[pos].rec;
            }
          } else {
            if !lowUsed {
              // Change the link of the previous lower entry.
              slots := slots[gpos := HashInfo(pos, ptrToRec)];
              lowUsed, highUsed := true, false;
            }
            gpos := pos;
            ptrToRec := slots[pos].rec;
          }
        } else {
          if !highFind {
            highFind, highUsed, lowUsed := true, false, false;
            // The entry shall move to the last (empty) position.
            gpos2 := empty;
            empty := pos;
            ptrToRec2 := slots[pos].rec;
          } else {
            if !highUsed {
              slots := slots[gpos2 := HashInfo(pos, ptrToRec2)];
              highUsed, lowUsed := true, false;
            }
            gpos2 := pos;
            ptrToRec2 := slots[pos].rec;
          }
        }
        assert slots == paid && lowUsed == lowKept && highUsed == highKept && ptrToRec == lowRec && ptrToRec2 == highRec;
        pos := slots[pos].next;
        sp := sp';
      }
      ghost var whole := HalveDone(slots, sp, newAddress, n, low, contents, others, lowUsed, ptrToRec, highUsed, ptrToRec2);
      if lowFind && highFind {
        hashBuckets := hashBuckets + 1;
      }
      if lowFind && !lowUsed {
        slots := slots[gpos := HashInfo(NIL, ptrToRec)];
      }
      if highFind && !highUsed {
        slots := slots[gpos2 := HashInfo(NIL, ptrToRec2)];
      }
      prev, rank := sp.w.prev, sp.w.rank;
    }

    /** The second half of hp_write_key: the record goes to its home slot, and what was there
        to the free slot. */
    method Place(newAddress: nat -> nat, ghost g: nat -> nat, ghost m: nat, empty: nat, recpos: nat) returns (joined: bool)
      requires Chained(Index(), m, g, empty) && empty < m && g(recpos) < m && recpos !in Recs(slots, m, empty)
      requires forall r :: newAddress(r) == g(r)
      requires hashBuckets == |Heads(slots, m, g, empty)|
      modifies this
      ensures |slots| == |old(slots)| && Chained(Index(), m, g, NIL)
      ensures hashBuckets == |Heads(slots, m, g, NIL)|
      ensures Contents(m) == old(Recs(slots, m, empty)) + {recpos}
      ensures slots[g(recpos)].rec == recpos
      ensures joined ==> slots[g(recpos)].next == empty
      ensures !joined ==> forall s | 0 <= s < m && s != g(recpos) :: g(slots[s].rec) != g(recpos)
    {
      hide DistinctRecs, Recs, Heads;
      ghost var a := Index();
      ghost var b := HashWrite.Place(a, m, g, empty, recpos);
      var pos := newAddress(recpos);
      joined := false;
      if pos == empty {
        slots := slots[pos := HashInfo(NIL, recpos)];
        hashBuckets := hashBuckets + 1;
      } else {
        var gpos := newAddress(slots[pos].rec);
        slots := slots[empty := slots[pos]];
        if pos == gpos {
          joined := true;
          slots := slots[pos := HashInfo(empty, recpos)];
        } else {
          ghost var k := PlaceWalk(a, m, g, empty, recpos);
          hashBuckets := hashBuckets + 1;
          slots := slots[pos := HashInfo(NIL, recpos)];
          MoveLink(pos, gpos, empty, prev[pos], k);
        }
      }
      prev, rank := b.prev, b.rank;
      if !joined {
        AloneAtHome(Index(), m, g, pos);
      }
    }

    /** The loop of hp_write_key that looks for a record with the same key behind the new one. */
    method FindSameKey(ghost g: nat -> nat, ghost n: nat, head: nat, start: nat, sameKey: nat -> bool) returns (found: bool)
      requires Chained(Index(), n, g, NIL) && head < n && g(slots[head].rec) == head && slots[head].next == start
      ensures found <==> exists s :: 0 <= s < n && s != head && g(slots[s].rec) == head && sameKey(slots[s].rec)
    {
      hide DistinctRecs;
      ghost var a, k := Index(), 0;
      ghost var bound := RankBound(rank);
      ghost var x := NIL;
      if s :| 0 <= s < n && s != head && g(slots[s].rec) == head && sameKey(slots[s].rec) {
        x := s;
        k := HomeLeads(a, n, g, NIL, x);
        k := k - 1;
      }
      assert SlotOk(a, n, g, NIL, head);
      var pos: int := start;
      assert SlotOk(a, n, g, NIL, pos);
      while true
        invariant 0 <= pos < n && g(slots[pos].rec) == head && pos != head && SlotOk(a, n, g, NIL, pos)
        invariant x != NIL ==> 0 <= x < n && sameKey(slots[x].rec) && Leads(slots, pos, x, k)
        decreases bound - rank[pos]
      {
        if sameKey(slots[pos].rec) {
          return true;
        }
        k := if k > 0 then k - 1 else 0;
        if slots[pos].next == NIL {
          return false;
        }
        pos := slots[pos].next;
        assert SlotOk(a, n, g, NIL, pos);
      }
    }

    /** hp_write_key.  `checkUnique` is `(flag & HA_NOSAME)` and not exempt by a NULL part;
        `sameKey` says which records hp_rec_key_cmp finds equal to the new one.  The record
        is added even when a duplicate is reported. */
    method WriteKey(hash: nat -> nat, recpos: nat, records: nat, shareBLength: nat, checkUnique: bool, sameKey: nat -> bool)
      returns (status: Status)
      requires Valid(hash, records) && shareBLength == BLength(records) && recpos !in Contents(records)
      requires forall r :: sameKey(r) ==> hash(r) == hash(recpos)
      modifies this
      ensures Valid(hash, records + 1) && Contents(records + 1) == old(Contents(records)) + {recpos}
      ensures status == if checkUnique && exists r :: r in old(Contents(records)) && sameKey(r) then DuplicateKey else Ok
    {
      hide Chained, Recs, Heads, Readdresses, Address, UpperHalf;
      ghost var low := GrowFacts(hash, records);
      Extend(Address(hash, BLength(records), records), records);
      status := WriteEntry(hash, Address(hash, shareBLength, records), Address(hash, shareBLength, records + 1),
                           Address(hash, BLength(records + 1), records + 1), recpos, records, shareBLength / 2, checkUnique, sameKey);
    }

    /** hp_find_free_hash: slot `n` exists. */
    method Extend(ghost f: nat -> nat, n: nat)
      requires Chained(Index(), n, f, NIL)
      requires hashBuckets == |Heads(slots, n, f, NIL)|
      modifies this
      ensures n < |slots| && Chained(Index(), n, f, NIL)
      ensures hashBuckets == |Heads(slots, n, f, NIL)|
      ensures Contents(n) == old(Contents(n))
    {
      if n == |slots| {
        SlotAppended(Index(), n, f, HashInfo(NIL, 0));
        slots := slots + [HashInfo(NIL, 0)];
        prev, rank := prev + [NIL], rank + [0];
      }
    }

    /** hp_write_key in terms of the addresses under the old and the new slot count. */
    method WriteEntry(hash: nat -> nat, oldAddress: nat -> nat, newAddress: nat -> nat, ghost g: nat -> nat, recpos: nat,
                      n: nat, halfbuff: nat, checkUnique: bool, sameKey: nat -> bool)
      returns (status: Status)
      requires Chained(Index(), n, oldAddress, NIL) && halfbuff <= n < |slots| && recpos !in Contents(n)
      requires hashBuckets == |Heads(slots, n, oldAddress, NIL)|
      requires Readdresses(n + 1, g, oldAddress, n - halfbuff)
      requires forall r :: g(r) <= n && newAddress(r) == g(r)
      requires forall r :: n - halfbuff < n && (g(r) == n - halfbuff || g(r) == n) ==> (g(r) == n <==> UpperHalf(hash(r), halfbuff))
      requires forall r :: sameKey(r) ==> g(r) == g(recpos)
      modifies this
      ensures Chained(Index(), n + 1, g, NIL)
      ensures hashBuckets == |Heads(slots, n + 1, g, NIL)|
      ensures Contents(n + 1) == old(Contents(n)) + {recpos}
      ensures status == if checkUnique && exists r :: r in old(Contents(n)) && sameKey(r) then DuplicateKey else Ok
    {
      hide Heads, Readdresses, UpperHalf, Chained;
      ghost var contents := Contents(n);
      var empty := SplitChain(hash, oldAddress, g, n, n - halfbuff, halfbuff);
      var joined := Place(newAddress, g, n + 1, empty, recpos);
      SameKeySlots(Index(), n + 1, g, g(recpos), contents, recpos, sameKey);
      status := Ok;
      if checkUnique && joined {
        var found := FindSameKey(g, n + 1, newAddress(recpos), empty, sameKey);
        if found {
          status := DuplicateKey;
        }
      }
    }

    /** hp_search for the first record with a key (nextflag 0). `home` is the address of the
        key; the search gives up at once if the home slot holds a record of another home. */
    method SearchKey(address: nat -> nat, n: nat, home: nat, sameKey: nat -> bool) returns (recpos: int)
      requires Chained(Index(), n, address, NIL) && (n > 0 ==> home < n)
      requires forall r :: r in Contents(n) && sameKey(r) ==> address(r) == home
      ensures recpos == NIL <==> forall r :: r in Contents(n) ==> !sameKey(r)
      ensures recpos != NIL ==> recpos >= 0 && recpos in Contents(n) && sameKey(recpos)
    {
      hide DistinctRecs;
      if n == 0 {
        return NIL;
      }
      ghost var a, k := Index(), 0;
      ghost var bound := RankBound(rank);
      ghost var x := NIL;
      if s :| 0 <= s < n && sameKey(slots[s].rec) {
        x := s;
        assert slots[x].rec in Contents(n);
        HomeHeads(a, n, address, NIL, x);
        k := HomeLeads(a, n, address, NIL, x);
      }
      var pos: int := home;
      var first := true;
      while true
        invariant 0 <= pos < n
        invariant x == NIL ==> forall s | 0 <= s < n :: !sameKey(slots[s].rec)
        invariant x != NIL ==> 0 <= x < n && sameKey(slots[x].rec) && Leads(slots, pos, x, k)
        invariant x != NIL ==> slots[home].rec in Contents(n) && address(slots[home].rec) == home
        invariant first ==> pos == home
        decreases bound - rank[pos]
      {
        assert SlotOk(a, n, address, NIL, pos);
        if sameKey(slots[pos].rec) {
          assert slots[pos].rec in Contents(n);
          return slots[pos].rec;
        }
        if first {
          first := false;
          if address(slots[pos].rec) != pos {
            return NIL;
          }
        }
        if slots[pos].next == NIL {
          return NIL;
        }
        pos := slots[pos].next;
        k := if k > 0 then k - 1 else 0;
        assert SlotOk(a, n, address, NIL, pos);
      }
    }
  }
}
