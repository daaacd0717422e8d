/**
 The HEAP storage engine's in-place linear hash: addressing (heap/hp_hash.c) and the
 shape every hash index keeps.

 A slot is a HASH_INFO.  A slot pointer is the slot's number, because the block tree
 never moves a slot; `NIL` is the null pointer.  A record pointer is a record position.
 */
module LinearHash {
  import opened Prelude

  const NIL := -1

  datatype HashInfo = HashInfo(next: int, rec: nat)

  // ---------------------------------------------------------------- addressing

  /** hp_mask.  `buffmax` is a power of two, so `& (buffmax - 1)` is a remainder. */
  function Mask(hashnr: nat, buffmax: nat, maxlength: nat): (address: nat)
    requires 0 < maxlength && 0 < buffmax
    ensures buffmax / 2 <= maxlength ==> address < maxlength
  {
    if hashnr % buffmax < maxlength then hashnr % buffmax else hashnr % (buffmax / 2)
  }

  /** The power of two that HP_SHARE::blength must be: the least one above `records`. */
  function BLength(records: nat): (b: nat)
    ensures b / 2 <= records < b
    ensures records > 0 ==> b % 2 == 0
  {
    if records == 0 then 1 else 2 * BLength(records / 2)
  }

  /** heap_delete's update of `blength` (and heap_write's, read backwards). */
  lemma {:induction false} BLengthStep(n: nat)
    requires 0 < n
    ensures BLength(n - 1) == if n - 1 < BLength(n) / 2 then BLength(n) / 2 else BLength(n)
    ensures BLength(n) == if n == BLength(n - 1) then 2 * BLength(n - 1) else BLength(n - 1)
  {
    if n > 1 && n % 2 == 0 {
      BLengthStep(n / 2);
      assert (n - 1) / 2 == n / 2 - 1;
    } else {
      assert n > 1 ==> (n - 1) / 2 == n / 2;
    }
  }

  lemma RemainderByHalf(h: nat, half: nat)
    requires 0 < half
    ensures h % (2 * half) == h % half || h % (2 * half) == h % half + half
    ensures h % (2 * half) == h % half <==> (h / half) % 2 == 0
  {
    var q, r := h / half, h % half;
    assert h == q * half + r;
    if q % 2 == 0 {
      var p := q / 2;
      assert h == p * (2 * half) + r;
      Divided(h, 2 * half, p, r);
    } else {
      var p := q / 2;
      assert h == p * (2 * half) + (half + r) by {
        assert q == 2 * p + 1;
        assert q * half == p * (2 * half) + half;
      }
      Divided(h, 2 * half, p, half + r);
    }
  }

  /** A table that has just filled its power of two has the same addresses under the
      doubled one: why hp_delete_key may recover the old `blength` from the new pair. */
  lemma DoublingKeepsAddresses(h: nat, b: nat)
    requires 0 < b
    ensures Mask(h, 2 * b, b) == Mask(h, b, b)
  {
    RemainderByHalf(h, b);
  }

  /** Going from `n` slots to `n - 1` changes the address of exactly the keys addressed to
      slot `n - 1`, and sends all of them to one slot.  The test bit is the one that
      hp_write_key reads with `hashnr & halfbuff`. */
  lemma OneSlotLess(h: nat, b: nat, n: nat)
    requires 1 < n && b / 2 <= n - 1 < b && b % 2 == 0
    ensures Mask(h, b, n - 1) == (if Mask(h, b, n) == n - 1 then n - 1 - b / 2 else Mask(h, b, n))
    ensures Mask(h, b, n - 1) == n - 1 - b / 2 ==> (Mask(h, b, n) == n - 1 <==> (h / (b / 2)) % 2 == 1)
  {
    var half := b / 2;
    assert b == 2 * half;
    RemainderByHalf(h, half);
    assert h % half < half;
  }

  /** hp_mask(hp_rec_hashnr(record), blength, n): the home of a record among `n` slots. */
  function Address(hash: nat -> nat, blength: nat, n: nat): nat -> nat {
    r => if n == 0 || blength == 0 then 0 else Mask(hash(r), blength, n)
  }

  lemma AddressSame(hash: nat -> nat, hash': nat -> nat, b: nat, n: nat, r: nat, r': nat)
    requires hash(r) == hash'(r')
    ensures Address(hash, b, n)(r) == Address(hash', b, n)(r')
  {
  }

  lemma AddressInRange(hash: nat -> nat, n: nat, r: nat)
    requires 0 < n
    ensures Address(hash, BLength(n), n)(r) < n
  {
    var address := Mask(hash(r), BLength(n), n);
    assert address < n;
  }

  /** The keys addressed to slot `n - 1` all move to `target`; the other addresses stay. */
  ghost predicate Readdresses(n: nat, f: nat -> nat, g: nat -> nat, target: nat) {
    forall r :: g(r) == if f(r) == n - 1 then target else f(r)
  }

  /** hp_write_key's test `hashnr & halfbuff`, for `halfbuff` a power of two (0 is never asked). */
  predicate UpperHalf(hashnr: nat, halfbuff: nat) {
    halfbuff != 0 && (hashnr / halfbuff) % 2 == 1
  }

  /** One hash number, going from `n` slots to `n - 1`. */
  lemma MaskShrinks(h: nat, n: nat)
    requires 1 < n
    ensures var lower := n - 1 - BLength(n - 1) / 2;
      && Mask(h, BLength(n - 1), n - 1) == (if Mask(h, BLength(n), n) == n - 1 then lower else Mask(h, BLength(n), n))
      && (Mask(h, BLength(n - 1), n - 1) == lower ==>
            (Mask(h, BLength(n), n) == n - 1 <==> UpperHalf(h, BLength(n - 1) / 2)))
  {
    var b := BLength(n - 1);
    BLengthStep(n);
    OneSlotLess(h, b, n);
    if n == b {
      DoublingKeepsAddresses(h, b);
    }
  }

  /** Adding the record that fills the power of two: the old `blength` still gives the new address. */
  lemma MaskGrows(h: nat, n: nat)
    ensures Mask(h, BLength(n), n + 1) == Mask(h, BLength(n + 1), n + 1)
    ensures Mask(h, BLength(n + 1), n + 1) <= n
  {
    BLengthStep(n + 1);
    if n + 1 == BLength(n) {
      DoublingKeepsAddresses(h, n + 1);
    }
    var address := Mask(h, BLength(n + 1), n + 1);
  }

  lemma ShrinkReaddresses(hash: nat -> nat, n: nat)
    requires 1 < n
    ensures Readdresses(n, Address(hash, BLength(n), n), Address(hash, BLength(n - 1), n - 1), n - 1 - BLength(n - 1) / 2)
  {
    var f, g := Address(hash, BLength(n), n), Address(hash, BLength(n - 1), n - 1);
    var target := n - 1 - BLength(n - 1) / 2;
    forall r: nat ensures g(r) == if f(r) == n - 1 then target else f(r) {
      MaskShrinks(hash(r), n);
    }
  }

  // ---------------------------------------------------------------- chains

  /** The slots with ghost back links and ghost ranks. */
  datatype Links = Links(slots: seq<HashInfo>, prev: seq<int>, rank: seq<nat>)

  /** What holds of one slot in use.  `prev` inverts the next links and `rank` grows along
      them; they only serve to say that the links form chains: a slot has no predecessor
      exactly when it is the home of its own record, and links never leave a home.  `hole`
      is the free slot, or NIL. */
  ghost predicate SlotOk(a: Links, n: nat, f: nat -> nat, hole: int, s: nat)
    requires n <= |a.slots| == |a.prev| == |a.rank| && s < n
  {
    BackOk(a, n, f, hole, s) && NextOk(a, n, hole, s)
  }

  ghost predicate BackOk(a: Links, n: nat, f: nat -> nat, hole: int, s: nat)
    requires n <= |a.slots| == |a.prev| == |a.rank| && s < n
  {
    var p := a.prev[s];
    && f(a.slots[s].rec) < n
    && (p == NIL <==> f(a.slots[s].rec) == s)
    && (p != NIL ==>
          && 0 <= p < n && p != hole
          && a.slots[p].next == s && f(a.slots[p].rec) == f(a.slots[s].rec) && a.rank[p] < a.rank[s])
  }

  ghost predicate NextOk(a: Links, n: nat, hole: int, s: nat)
    requires n <= |a.slots| == |a.prev| && s < n
  {
    var t := a.slots[s].next;
    t != NIL ==> 0 <= t < n && t != hole && a.prev[t] == s
  }

  ghost predicate DistinctRecs(slots: seq<HashInfo>, n: nat, hole: int)
    requires n <= |slots|
  {
    forall s, t | 0 <= s < n && 0 <= t < n && s != t && s != hole && t != hole :: Differ(slots, s, t)
  }

  ghost predicate Differ(slots: seq<HashInfo>, s: nat, t: nat) {
    s < |slots| && t < |slots| && slots[s].rec != slots[t].rec
  }

  /** Slots 0..n, all but `hole`, form one chain a home and hold different records. */
  ghost predicate Chained(a: Links, n: nat, f: nat -> nat, hole: int) {
    && n <= |a.slots| == |a.prev| == |a.rank|
    && (forall s: nat | s < n && s != hole :: SlotOk(a, n, f, hole, s))
    && DistinctRecs(a.slots, n, hole)
  }

  /** The records held by slots 0..n, leaving out `hole`. */
  ghost function Recs(slots: seq<HashInfo>, n: nat, hole: int): set<nat>
    requires n <= |slots|
  {
    set s | 0 <= s < n && s != hole :: slots[s].rec
  }

  /** The homes that have a chain: `hash_buckets` counts them. */
  ghost function Heads(slots: seq<HashInfo>, n: nat, f: nat -> nat, hole: int): set<int>
    requires n <= |slots|
  {
    set s | 0 <= s < n && s != hole && f(slots[s].rec) == s
  }

  /** A chain hangs off its home: any record's home slot is in use by a record of that home. */
  lemma {:induction false} HomeHeads(a: Links, n: nat, f: nat -> nat, hole: int, s: nat)
    requires Chained(a, n, f, hole) && s < n && s != hole
    ensures SlotOk(a, n, f, hole, s)
    ensures var h := f(a.slots[s].rec); h < n && h != hole && f(a.slots[h].rec) == h && a.prev[h] == NIL
    decreases a.rank[s]
  {
    assert SlotOk(a, n, f, hole, s);
    if a.prev[s] != NIL {
      HomeHeads(a, n, f, hole, a.prev[s]);
    }
  }
}
