/** How many records init_block of heap/hp_create.c puts into a block. */
module BlockSize {
  import opened Prelude
  import opened BlockTree

  const HP_MAX_LEVELS: nat := 4
  const UINT: nat := 0x1_0000_0000

  /** What init_block is given, on a machine with pointers of `ptr` bytes and blocks of `n`
      pointers: the limits of the table and my_default_record_cache_size. */
  datatype Limits = Limits(n: nat, ptr: nat, reclength: nat, minRecords: nat, maxRecords: nat, cache: nat)

  /** The cache has room for one block of each level, and the record length fits `uint`. */
  predicate Usable(l: Limits) {
    && l.n >= 2 && l.ptr > 0 && l.n * l.ptr < UINT && 0 < l.reclength && l.reclength + l.ptr <= UINT
    && l.n * l.ptr * HP_MAX_LEVELS <= l.cache
  }

  /** The share of the cache that the records of one block should fit into. */
  function Share(l: Limits): nat
    requires Usable(l)
  {
    l.cache - l.n * l.ptr * HP_MAX_LEVELS
  }

  /** The record length, rounded up to whole pointers. */
  function RecBuffer(l: Limits): (r: nat)
    requires Usable(l)
    ensures l.reclength <= r < l.reclength + l.ptr && r % l.ptr == 0
  {
    var words := (l.reclength + l.ptr - 1) / l.ptr;
    Divided(words * l.ptr, l.ptr, words, 0);
    words * l.ptr
  }

  /** A tenth of the records, but 10 at least; `uint` cuts it off. */
  function Wanted(l: Limits): (r: nat)
    ensures 10 <= r < UINT
  {
    var most := if l.minRecords > l.maxRecords then l.minRecords else l.maxRecords;
    var tenth := (if most == 0 then 1000 else most) / 10 % UINT;
    if tenth < 10 then 10 else tenth
  }

  /** Whether that many records are too much, as the product in `uint` says. */
  predicate TooMuch(l: Limits)
    requires Usable(l)
  {
    Wanted(l) * RecBuffer(l) % UINT > Share(l)
  }

  function RecordsInBlock(l: Limits): nat
    requires Usable(l)
  {
    if TooMuch(l) then (Share(l) / RecBuffer(l) + 1) % UINT else Wanted(l)
  }

  function Chosen(l: Limits): Geometry
    requires Usable(l)
  {
    Geometry(l.n, l.n * l.ptr, RecordsInBlock(l), RecBuffer(l))
  }

  /** The product that hp_get_new_block asks malloc for is not cut off by `uint`. */
  predicate LeafFits(g: Geometry) {
    g.recordsInBlock * g.recbuffer < UINT
  }

  /** The part of init_block that chooses the sizes. */
  method ChooseSizes(l: Limits) returns (recordsInBlock: nat, recbuffer: nat)
    requires Usable(l)
    ensures recordsInBlock == RecordsInBlock(l) && recbuffer == RecBuffer(l)
  {
    var most := if l.minRecords > l.maxRecords then l.minRecords else l.maxRecords;
    if most == 0 {
      most := 1000;
    }
    recbuffer := RecBuffer(l);
    recordsInBlock := most / 10 % UINT;
    if recordsInBlock < 10 {
      recordsInBlock := 10;
    }
    hide RecBuffer;
    if recordsInBlock * recbuffer % UINT > l.cache - l.n * l.ptr * HP_MAX_LEVELS {
      recordsInBlock := ((l.cache - l.n * l.ptr * HP_MAX_LEVELS) / recbuffer + 1) % UINT;
    }
  }

  /** What does not fit is cut down to one record more than fits; never is it cut to none. */
  lemma CutDown(l: Limits)
    requires Usable(l) && TooMuch(l)
    ensures RecordsInBlock(l) == Share(l) / RecBuffer(l) + 1
    ensures (RecordsInBlock(l) - 1) * RecBuffer(l) <= Share(l) < RecordsInBlock(l) * RecBuffer(l)
    ensures RecordsInBlock(l) == 1 <==> Share(l) < RecBuffer(l)
  {
    hide Share, RecBuffer;
    InUint(Wanted(l) * RecBuffer(l));
    Quotient(Share(l), RecBuffer(l));
  }

  lemma InUint(x: nat)
    ensures x % UINT < UINT
    ensures x < UINT ==> x % UINT == x
  {
  }

  lemma Quotient(share: nat, rec: nat)
    requires rec > 0
    ensures share / rec <= share && (share < UINT - 1 ==> (share / rec + 1) % UINT == share / rec + 1)
    ensures share / rec * rec <= share < (share / rec + 1) * rec
    ensures share / rec == 0 <==> share < rec
  {
    var q := share / rec;
    assert share == q * rec + share % rec;
    assert (q + 1) * rec == q * rec + rec;
    NonzeroMultiple(rec, q);
    NonzeroMultiple(q, rec);
  }

  lemma ChosenSound(l: Limits)
    requires Usable(l)
    ensures Sound(Chosen(l)) && Chosen(l).ptrs < UINT
  {
    NonzeroMultiple(l.n, l.ptr);
    hide Wanted, RecBuffer, TooMuch, Share;
    if TooMuch(l) {
      CutDown(l);
    }
  }

  /** How many records are wanted: 100 when no limits are given, 10 of a table of less than 100
      records, otherwise a tenth of the larger limit. */
  lemma WantedOf(l: Limits)
    ensures l.minRecords == 0 && l.maxRecords == 0 ==> Wanted(l) == 100
    ensures l.minRecords < 100 && l.maxRecords < 100 && l.minRecords + l.maxRecords > 0 ==> Wanted(l) == 10
    ensures l.maxRecords <= l.minRecords && 100 <= l.minRecords < 10 * UINT ==> 10 * Wanted(l) <= l.minRecords < 10 * Wanted(l) + 10
    ensures l.minRecords <= l.maxRecords && 100 <= l.maxRecords < 10 * UINT ==> 10 * Wanted(l) <= l.maxRecords < 10 * Wanted(l) + 10
  {
  }

  /** They are all put into a block if they fit what the cache has beside one block of pointers for
      each of four levels; if not, and the product is not cut off, one more than fit. */
  lemma SizesOf(l: Limits)
    requires Usable(l)
    ensures Wanted(l) * RecBuffer(l) + 4 * (l.n * l.ptr) <= l.cache ==> RecordsInBlock(l) == Wanted(l)
    ensures Wanted(l) * RecBuffer(l) + 4 * (l.n * l.ptr) > l.cache && Wanted(l) * RecBuffer(l) < UINT ==>
      && RecordsInBlock(l) > 0
      && (RecordsInBlock(l) - 1) * RecBuffer(l) + 4 * (l.n * l.ptr) <= l.cache < RecordsInBlock(l) * RecBuffer(l) + 4 * (l.n * l.ptr)
  {
    var product := Wanted(l) * RecBuffer(l);
    InUint(product);
    assert Share(l) == l.cache - 4 * (l.n * l.ptr);
    hide Wanted, RecBuffer, Share;
    if TooMuch(l) {
      CutDown(l);
    }
    Remainder(product);
  }

  lemma Remainder(x: nat)
    ensures x % UINT <= x
  {
  }

  /** A leaf fits what is asked for it if and only if the product of the sizes chosen is one of
      `uint`: of the records wanted, or of those left after the cut. */
  lemma LeafFitsIff(l: Limits)
    requires Usable(l)
    ensures LeafFits(Chosen(l)) <==> (if TooMuch(l) then Share(l) / RecBuffer(l) + 1 else Wanted(l)) * RecBuffer(l) < UINT
  {
    hide Share, RecBuffer, Wanted;
    if TooMuch(l) {
      CutDown(l);
    }
  }

  /** So it does where the records wanted are no more than `uint` and the cache leaves room for one
      record more; and then the leaf and all blocks above it are within that. */
  lemma LeafWithin(l: Limits, i: nat)
    requires Usable(l) && i <= HP_MAX_LEVELS && Wanted(l) * RecBuffer(l) < UINT && l.cache + RecBuffer(l) < UINT
    ensures LeafFits(Chosen(l))
    ensures i * (l.n * l.ptr) + RecordsInBlock(l) * RecBuffer(l) <= l.cache + if TooMuch(l) then RecBuffer(l) else 0
  {
    var rec, blocks := RecBuffer(l), l.n * l.ptr;
    hide RecBuffer, Wanted;
    InUint(Wanted(l) * rec);
    AtMost(i, HP_MAX_LEVELS, blocks);
    if TooMuch(l) {
      CutDown(l);
      Times(RecordsInBlock(l) - 1, rec);
    }
    hide Share;
  }

  /** A block has a single record if and only if a record is longer than the share of the
      cache, and the product of `uint` does not hide it. */
  lemma OneRecordIff(l: Limits)
    requires Usable(l)
    ensures RecordsInBlock(l) == 1 <==> Share(l) < RecBuffer(l) && TooMuch(l)
    ensures Wanted(l) * RecBuffer(l) < UINT ==> (RecordsInBlock(l) == 1 <==> Share(l) < RecBuffer(l))
  {
    var share, rec, wanted := Share(l), RecBuffer(l), Wanted(l);
    hide Share, RecBuffer, Wanted;
    if TooMuch(l) {
      CutDown(l);
    }
    InUint(wanted * rec);
    NonzeroMultiple(wanted, rec);
  }
}
