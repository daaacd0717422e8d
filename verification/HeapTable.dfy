/**
 A HEAP table: heap_write, heap_delete and heap_check_heap over all hash indexes, with the
 list of deleted positions.
 */
module HeapTable {
  import opened LinearHash
  import opened HashIndex
  import opened HashCheck

  /** The bytes of a row. */
  type Record = seq<int>

  /** A record position: its flag byte says which.  A deleted one holds the link to the next. */
  datatype Cell = Live(rec: Record) | Deleted(next: int)

  /** One hash key of the table: the hash of a record's key parts, when two records have the
      same key, and whether duplicates are refused. */
  datatype KeyInfo = KeyInfo(hashnr: Record -> nat, sameKey: (Record, Record) -> bool, noSame: bool, nullPart: bool, nullInKey: Record -> bool) {
    function HashOf(record: Record): nat {
      hashnr(record)
    }

    ghost predicate Sound() {
      forall x, y :: sameKey(x, y) ==> hashnr(x) == hashnr(y)
    }

    ghost predicate Symmetric() {
      forall x, y :: sameKey(x, y) ==> sameKey(y, x)
    }

    /** Whether hp_write_key looks for a duplicate of this record at all. */
    predicate Checked(record: Record) {
      noSame && (!nullPart || !nullInKey(record))
    }
  }

  /** hp_rec_hashnr of the record at a position. */
  function HashAt(info: KeyInfo, data: seq<Cell>): nat -> nat {
    (p: nat) => if p < |data| && data[p].Live? then info.HashOf(data[p].rec) else 0
  }

  /** Which positions hold a record with the key of `record`. */
  function SameKeyAt(info: KeyInfo, data: seq<Cell>, record: Record): nat -> bool {
    (p: nat) => p < |data| && data[p].Live? && info.sameKey(record, data[p].rec)
  }

  /** Which positions hold a record with a key. */
  function KeyAt(data: seq<Cell>, sameKey: Record -> bool): nat -> bool {
    (p: nat) => p < |data| && data[p].Live? && sameKey(data[p].rec)
  }

  ghost function LivePositions(data: seq<Cell>): set<nat> {
    set p: nat | p < |data| && data[p].Live?
  }

  /** `list` is the chain of deleted positions starting at `link`. */
  ghost predicate FreeList(data: seq<Cell>, link: int, list: seq<nat>) {
    && (forall k | 0 <= k < |list| :: FreeAt(data, list, k))
    && (forall j, k | 0 <= j < k < |list| :: list[j] != list[k])
    && link == (if list == [] then NIL else list[0])
    && (forall p: nat | p < |data| && data[p].Deleted? :: p in list)
  }

  ghost predicate FreeAt(data: seq<Cell>, list: seq<nat>, k: nat)
    requires k < |list|
  {
    list[k] < |data| && data[list[k]] == Deleted(FreeNext(list, k))
  }

  ghost function FreeNext(list: seq<nat>, k: nat): int {
    if k + 1 < |list| then list[k + 1] else NIL
  }

  /** A unique key, of which this record has no NULL part, and which a live record has already. */
  ghost predicate Duplicate(info: KeyInfo, data: seq<Cell>, record: Record) {
    && info.noSame && !(info.nullPart && info.nullInKey(record))
    && exists p :: p in LivePositions(data) && info.sameKey(record, data[p].rec)
  }

  /** No two live records have the same unique key, unless one of them has NULL in it. */
  ghost predicate NoTwins(info: KeyInfo, data: seq<Cell>) {
    info.noSame ==> forall p, q | 0 <= p < |data| && 0 <= q < |data| && p != q && data[p].Live? && data[q].Live? ::
      info.sameKey(data[p].rec, data[q].rec) ==> info.nullPart && (info.nullInKey(data[p].rec) || info.nullInKey(data[q].rec))
  }

  lemma StillNoTwins(info: KeyInfo, data: seq<Cell>, data': seq<Cell>)
    requires NoTwins(info, data)
    requires forall p | 0 <= p < |data'| && data'[p].Live? :: p < |data| && data[p] == data'[p]
    ensures NoTwins(info, data')
  {
  }

  /** A record that is no duplicate brings no twins. */
  lemma MoreNoTwins(info: KeyInfo, data: seq<Cell>, data': seq<Cell>, pos: nat, record: Record)
    requires info.Symmetric() && NoTwins(info, data) && !Duplicate(info, data, record)
    requires pos < |data'| && data'[pos] == Live(record)
    requires forall p | 0 <= p < |data'| && data'[p].Live? && p != pos :: p < |data| && data[p] == data'[p]
    ensures NoTwins(info, data')
  {
    forall p | 0 <= p < |data'| && p != pos && data'[p].Live?
      ensures info.noSame && (info.sameKey(data'[p].rec, record) || info.sameKey(record, data'[p].rec)) ==>
              info.nullPart && info.nullInKey(record)
    {
      assert p in LivePositions(data);
    }
  }

  /** What check_one_key looks for in an index of `records` records of the data. */
  ghost predicate WellIndexed(info: KeyInfo, data: seq<Cell>, records: nat, slots: seq<HashInfo>, hashBuckets: int) {
    var f := Address(HashAt(info, data), BLength(records), records);
    && records <= |slots| && WellChained(slots, records, f) && ChainsEnd(slots, records, f)
    && hashBuckets == |Heads(slots, records, f, NIL)|
  }

  /** check_one_key comes to an end there. */
  ghost predicate Checkable(info: KeyInfo, data: seq<Cell>, records: nat, slots: seq<HashInfo>) {
    InRange(slots, records) && NoTrap(slots, records, Address(HashAt(info, data), BLength(records), records), records)
  }

  datatype WriteResult = Written | DuplicateOf(errkey: nat) | TableFull

  // ---------------------------------------------------------------- the free list

  lemma LiveWith(data: seq<Cell>, pos: nat, record: Record, data': seq<Cell>)
    requires pos <= |data| && (pos < |data| ==> data[pos].Deleted?)
    requires data' == if pos == |data| then data + [Live(record)] else data[pos := Live(record)]
    ensures LivePositions(data') == LivePositions(data) + {pos} && pos !in LivePositions(data)
    ensures SameRecords(data, data', LivePositions(data))
  {
    forall p: nat ensures p in LivePositions(data') <==> p in LivePositions(data) || p == pos {
    }
  }

  lemma FreeHead(data: seq<Cell>, link: int, list: seq<nat>)
    requires FreeList(data, link, list)
    ensures link == NIL <==> list == []
  {
  }

  /** next_free_record_pos takes the head of the list ... */
  lemma PopFree(data: seq<Cell>, link: int, list: seq<nat>, record: Record)
    requires FreeList(data, link, list) && list != []
    ensures link == list[0] && link < |data| && data[link].Deleted?
    ensures FreeList(data[link := Live(record)], data[link].next, list[1..])
    ensures LivePositions(data[link := Live(record)]) == LivePositions(data) + {link}
    ensures link !in LivePositions(data) && SameRecords(data, data[link := Live(record)], LivePositions(data))
  {
    hide LivePositions, SameRecords;
    assert FreeAt(data, list, 0);
    var rest, data' := list[1..], data[link := Live(record)];
    LiveWith(data, link, record, data');
    forall k: nat | k < |rest| ensures FreeAt(data', rest, k) {
      ghost var k' := k + 1;
      assert FreeAt(data, list, k') && rest[k] == list[k'] && FreeNext(rest, k) == FreeNext(list, k') && list[0] != list[k'];
    }
    forall p: nat | p < |data'| && data'[p].Deleted? ensures p in rest {
      var k :| 0 <= k < |list| && list[k] == p;
      assert rest[k - 1] == p;
    }
  }

  /** ... or a new position behind all others. */
  lemma AppendLive(data: seq<Cell>, link: int, list: seq<nat>, record: Record)
    requires FreeList(data, link, list)
    ensures FreeList(data + [Live(record)], link, list)
    ensures LivePositions(data + [Live(record)]) == LivePositions(data) + {|data|}
    ensures |data| !in LivePositions(data) && SameRecords(data, data + [Live(record)], LivePositions(data))
  {
    hide LivePositions, SameRecords;
    LiveWith(data, |data|, record, data + [Live(record)]);
    forall k: nat | k < |list| ensures FreeAt(data + [Live(record)], list, k) {
      assert FreeAt(data, list, k);
    }
  }

  lemma LiveWithout(data: seq<Cell>, pos: nat, link: int)
    requires pos < |data| && data[pos].Live?
    ensures LivePositions(data[pos := Deleted(link)]) == LivePositions(data) - {pos}
    ensures pos in LivePositions(data)
  {
  }

  /** heap_delete, and heap_write after a duplicate, push a position. */
  lemma PushFree(data: seq<Cell>, link: int, list: seq<nat>, pos: nat)
    requires FreeList(data, link, list) && pos < |data| && data[pos].Live?
    ensures FreeList(data[pos := Deleted(link)], pos, [pos] + list)
    ensures LivePositions(data[pos := Deleted(link)]) == LivePositions(data) - {pos}
    ensures pos in LivePositions(data)
  {
    hide LivePositions;
    LiveWithout(data, pos, link);
    var data', list' := data[pos := Deleted(link)], [pos] + list;
    forall k: nat | k < |list'| ensures FreeAt(data', list', k) && (k > 0 ==> list'[k] != pos) {
      if k > 0 {
        ghost var k' := k - 1;
        assert FreeAt(data, list, k') && list'[k] == list[k'] && FreeNext(list', k) == FreeNext(list, k');
      }
    }
  }

  class Table {
    var data: seq<Cell>
    var records: nat
    var blength: nat
    var deleted: nat
    var delLink: int
    const infos: seq<KeyInfo>
    const keys: seq<KeyDef>
    ghost var freeList: seq<nat>

    ghost predicate KeysApart() {
      && |infos| == |keys|
      && (forall i | 0 <= i < |infos| :: infos[i].Sound())
      && (forall i, j | 0 <= i < j < |keys| :: keys[i] != keys[j])
    }

    /** Counters and free list agree with the positions. */
    ghost predicate Counted()
      reads this
    {
      && blength == BLength(records)
      && |data| == records + deleted
      && |freeList| == deleted
      && records == |LivePositions(data)|
      && FreeList(data, delLink, freeList)
    }

    /** Index `i` is a good index of exactly the positions `contents`. */
    ghost predicate Indexed(i: nat, memory: seq<Cell>, n: nat, contents: set<nat>)
      requires i < |infos| == |keys|
      reads keys[i]
    {
      keys[i].Valid(HashAt(infos[i], memory), n) && keys[i].Contents(n) == contents
    }

    /** What every operation keeps: every index holds exactly the live positions. */
    ghost predicate Consistent()
      reads this, keys
    {
      && KeysApart() && Counted()
      && forall i | 0 <= i < |keys| :: Indexed(i, data, records, LivePositions(data))
    }

    /** An index does not notice changes at positions it does not hold. */
    lemma StillIndexed(i: nat, memory: seq<Cell>, memory': seq<Cell>, n: nat, contents: set<nat>)
      requires i < |infos| == |keys|
      requires Indexed(i, memory, n, contents)
      requires forall p :: p in contents ==> (p < |memory| <==> p < |memory'|) && (p < |memory| ==> memory'[p] == memory[p])
      ensures Indexed(i, memory', n, contents)
    {
      keys[i].ValidRehashed(HashAt(infos[i], memory), HashAt(infos[i], memory'), n);
    }

    /** The loop of heap_write: the record, which `memory` has at `pos`, is added to the
        indexes one by one, up to the first that refuses it. */
    method WriteKeys(record: Record, pos: nat, memory: seq<Cell>, ghost live: set<nat>, ghost more: nat, ghost grown: set<nat>) returns (errkey: nat)
      requires more == records + 1 && grown == live + {pos}
      requires KeysApart() && blength == BLength(records) && live == LivePositions(data) && pos !in live
      requires pos < |memory| && memory[pos] == Live(record)
      requires forall p :: p in live ==> p < |memory| && memory[p] == data[p]
      requires forall i | 0 <= i < |keys| :: Indexed(i, memory, records, live)
      modifies keys
      ensures errkey <= |keys|
      ensures forall i | 0 <= i < errkey :: !Duplicate(infos[i], data, record)
      ensures errkey < |keys| ==> Duplicate(infos[errkey], data, record)
      ensures forall i | 0 <= i < |keys| && i <= errkey :: Indexed(i, memory, more, grown)
      ensures forall i | errkey < i < |keys| :: Indexed(i, memory, records, live)
    {
      hide Indexed, Duplicate, LivePositions;
      errkey := 0;
      while errkey < |keys|
        invariant errkey <= |keys|
        invariant forall i | 0 <= i < errkey :: !Duplicate(infos[i], data, record)
        invariant forall i | 0 <= i < errkey :: Indexed(i, memory, more, grown)
        invariant forall i | errkey <= i < |keys| :: Indexed(i, memory, records, live)
      {
        var duplicate := WriteOneKey(errkey, record, pos, memory, live);
        if duplicate {
          return;
        }
        errkey := errkey + 1;
      }
    }

    method WriteOneKey(i: nat, record: Record, pos: nat, memory: seq<Cell>, ghost live: set<nat>) returns (duplicate: bool)
      requires |infos| == |keys| && i < |keys| && infos[i].Sound()
      requires blength == BLength(records) && live == LivePositions(data) && pos !in live
      requires pos < |memory| && memory[pos] == Live(record)
      requires forall p :: p in live ==> p < |memory| && memory[p] == data[p]
      requires Indexed(i, memory, records, live)
      modifies keys[i]
      ensures Indexed(i, memory, records + 1, live + {pos})
      ensures duplicate <==> Duplicate(infos[i], data, record)
    {
      hide KeyDef.Valid, KeyDef.Contents, LivePositions, HashAt, SameKeyAt, KeyInfo.Sound;
      var info := infos[i];
      SameKeyHashes(info, data, memory, record, pos);
      var status := keys[i].WriteKey(HashAt(info, memory), pos, records, blength, info.Checked(record), SameKeyAt(info, data, record));
      duplicate := status == DuplicateKey;
    }

    method DeleteOneKey(i: nat, pos: nat, memory: seq<Cell>, n: nat, shareBLength: nat, ghost more: nat, ghost contents: set<nat>)
      returns (status: Status)
      requires |infos| == |keys| && i < |keys| && shareBLength == BLength(n) && more == n + 1
      requires Indexed(i, memory, more, contents)
      modifies keys[i]
      ensures status == if pos in contents then Ok else Crashed
      ensures status == Ok ==> Indexed(i, memory, n, contents - {pos})
      ensures status == Crashed ==> Indexed(i, memory, more, contents)
    {
      status := keys[i].DeleteKey(HashAt(infos[i], memory), pos, n, shareBLength);
    }

    /** The error path of heap_write: the record is taken out of the indexes that have it. */
    method Rollback(errkey: nat, pos: nat, memory: seq<Cell>, ghost live: set<nat>, ghost more: nat, ghost grown: set<nat>)
      requires KeysApart() && errkey < |keys| && blength == BLength(records)
      requires pos !in live && more == records + 1 && grown == live + {pos}
      requires forall i | 0 <= i < |keys| && i <= errkey :: Indexed(i, memory, more, grown)
      requires forall i | errkey < i < |keys| :: Indexed(i, memory, records, live)
      modifies keys
      ensures forall i | 0 <= i < |keys| :: Indexed(i, memory, records, live)
    {
      hide Indexed;
      assert grown - {pos} == live;
      var left: nat := errkey + 1;
      while left > 0
        invariant left <= errkey + 1
        invariant forall i | 0 <= i < left :: Indexed(i, memory, more, grown)
        invariant forall i | left <= i < |keys| :: Indexed(i, memory, records, live)
      {
        var status := DeleteOneKey(left - 1, pos, memory, records, blength, more, grown);
        left := left - 1;
      }
    }

    /** Index `e` is the first that lacks the record; those before it have lost it, the others are
        as they were. */
    ghost predicate StoppedAt(e: nat, pos: nat, memory: seq<Cell>, n: nat, contents: seq<set<nat>>)
      requires |infos| == |keys| == |contents|
      reads keys
    {
      && e < |keys| && pos !in contents[e]
      && (forall i: nat | i < e :: pos in contents[i] && Indexed(i, memory, n, contents[i] - {pos}))
      && (forall i: nat | e <= i < |keys| :: Indexed(i, memory, n + 1, contents[i]))
    }

    ghost predicate Stopped(pos: nat, memory: seq<Cell>, n: nat, contents: seq<set<nat>>)
      requires |infos| == |keys| == |contents|
      reads keys
    {
      exists e :: StoppedAt(e, pos, memory, n, contents)
    }

    /** The loop of heap_delete: stops at the first index that does not have the record. */
    method DeleteKeys(pos: nat, memory: seq<Cell>, n: nat, shareBLength: nat, ghost more: nat, ghost contents: seq<set<nat>>) returns (failed: bool)
      requires KeysApart() && shareBLength == BLength(n) && more == n + 1 && |contents| == |keys|
      requires forall i | 0 <= i < |keys| :: Indexed(i, memory, more, contents[i])
      modifies keys
      ensures failed <==> exists i :: 0 <= i < |keys| && pos !in contents[i]
      ensures !failed ==> forall i | 0 <= i < |keys| :: Indexed(i, memory, n, contents[i] - {pos})
      ensures failed ==> Stopped(pos, memory, n, contents)
    {
      hide Indexed;
      var done := 0;
      while done < |keys|
        invariant done <= |keys|
        invariant forall i | 0 <= i < done :: pos in contents[i] && Indexed(i, memory, n, contents[i] - {pos})
        invariant forall i | done <= i < |keys| :: Indexed(i, memory, more, contents[i])
      {
        var status := DeleteOneKey(done, pos, memory, n, shareBLength, more, contents[done]);
        if status != Ok {
          assert StoppedAt(done, pos, memory, n, contents);
          return true;
        }
        done := done + 1;
      }
      failed := false;
    }

    /** next_free_record_pos: `memory` is the data with the new record, `rest` the free list left. */
    method NextFreeRecordPos(record: Record) returns (pos: nat, memory: seq<Cell>, ghost live: set<nat>, ghost grown: set<nat>)
      requires Consistent()
      modifies this`deleted, this`delLink, this`freeList
      ensures old(delLink) != NIL ==>
                && pos == old(delLink) && pos < |old(data)| && memory == old(data)[pos := Live(record)]
                && old(data)[pos].Deleted? && delLink == old(data)[pos].next && deleted == old(deleted) - 1
      ensures old(delLink) == NIL ==>
                pos == |old(data)| && memory == old(data) + [Live(record)] && delLink == NIL && deleted == old(deleted)
      ensures live == LivePositions(data) && pos !in live && grown == live + {pos} && LivePositions(memory) == grown
      ensures FreeList(memory, delLink, freeList) && |freeList| == deleted && |memory| == records + deleted + 1
      ensures pos < |memory| && memory[pos] == Live(record)
      ensures forall p :: p in live ==> p < |memory| && p < |data| && memory[p] == data[p]
      ensures forall i | 0 <= i < |keys| :: Indexed(i, memory, records, live)
    {
      hide LivePositions, Indexed, FreeList, FreeAt;
      live := LivePositions(data);
      FreeHead(data, delLink, freeList);
      if delLink != NIL {
        PopFree(data, delLink, freeList, record);
        pos := delLink;
        memory := data[pos := Live(record)];
        delLink := data[pos].next;
        deleted := deleted - 1;
        freeList := freeList[1..];
      } else {
        AppendLive(data, delLink, freeList, record);
        pos := |data|;
        memory := data + [Live(record)];
      }
      grown := live + {pos};
      forall i | 0 <= i < |keys| ensures Indexed(i, memory, records, live) {
        StillIndexed(i, data, memory, records, live);
      }
    }

    /** heap_write.  `full` is next_free_record_pos's test that no new block may be had; it
        only matters when there is no deleted position to take. */
    method HeapWrite(record: Record, full: bool) returns (result: WriteResult)
      requires Consistent()
      modifies this, keys
      ensures Consistent()
      ensures result == TableFull <==> old(delLink) == NIL && full
      ensures result == TableFull ==> unchanged(this, keys)
      // the first unique key, of which this record has no NULL part, that a live record has already
      ensures result.DuplicateOf? ==>
                && result.errkey < |infos|
                && infos[result.errkey].noSame && !(infos[result.errkey].nullPart && infos[result.errkey].nullInKey(record))
                && exists p :: 0 <= p < |old(data)| && old(data)[p].Live? && infos[result.errkey].sameKey(record, old(data)[p].rec)
      ensures forall i, p | 0 <= i < |infos| && 0 <= p < |old(data)| && old(data)[p].Live? && infos[i].sameKey(record, old(data)[p].rec) ::
                infos[i].noSame && !(infos[i].nullPart && infos[i].nullInKey(record)) ==>
                  result == TableFull || (result.DuplicateOf? && result.errkey <= i)
      // what was deleted last is used first
      ensures result == Written && old(delLink) != NIL ==>
                && 0 <= old(delLink) < |old(data)| && old(data)[old(delLink)].Deleted?
                && data == old(data)[old(delLink) := Live(record)]
                && delLink == old(data)[old(delLink)].next && deleted == old(deleted) - 1
      ensures result == Written && old(delLink) == NIL ==>
                data == old(data) + [Live(record)] && delLink == NIL && deleted == old(deleted)
      ensures result == Written ==> records == old(records) + 1
      // a refused record leaves its position behind as a deleted one
      ensures result.DuplicateOf? && old(delLink) != NIL ==>
                data == old(data) && delLink == old(delLink) && deleted == old(deleted)
      ensures result.DuplicateOf? && old(delLink) == NIL ==>
                data == old(data) + [Deleted(NIL)] && delLink == |old(data)| && deleted == old(deleted) + 1
      ensures result.DuplicateOf? ==> records == old(records)
      ensures forall i | 0 <= i < |infos| && infos[i].Symmetric() && old(NoTwins(infos[i], data)) :: NoTwins(infos[i], data)
    {
      if delLink == NIL && full {
        return TableFull;
      }
      ghost var before := data;
      var errkey := WriteRecord(record);
      result := if errkey < |keys| then DuplicateOf(errkey) else Written;
      hide Consistent, FreeList, LivePositions, Duplicate, NoTwins;
      if errkey < |keys| {
        OfDuplicate(infos[errkey], before, record);
      }
      forall i, p: nat | 0 <= i < |infos| && p < |before| && before[p].Live? && infos[i].sameKey(record, before[p].rec)
        ensures infos[i].noSame && !(infos[i].nullPart && infos[i].nullInKey(record)) ==> errkey <= i && errkey < |keys|
      {
        AsDuplicate(infos[i], before, record, p);
      }
      forall i | 0 <= i < |infos| && infos[i].Symmetric() && NoTwins(infos[i], before) ensures NoTwins(infos[i], data) {
        StillApart(infos[i], before, data, old(delLink), record, result == Written);
      }
    }

    /** heap_write once there is a position: the number of the key that refused the record, or of
        the keys. */
    method WriteRecord(record: Record) returns (errkey: nat)
      requires Consistent()
      modifies this, keys
      ensures Consistent() && errkey <= |infos|
      ensures forall i | 0 <= i < errkey :: !Duplicate(infos[i], old(data), record)
      ensures errkey < |infos| ==> Duplicate(infos[errkey], old(data), record)
      ensures errkey == |infos| ==> records == old(records) + 1
      ensures errkey < |infos| ==> records == old(records)
      ensures old(delLink) != NIL ==> 0 <= old(delLink) < |old(data)| && old(data)[old(delLink)].Deleted?
      ensures errkey == |infos| && old(delLink) != NIL ==>
                && data == old(data)[old(delLink) := Live(record)]
                && delLink == old(data)[old(delLink)].next && deleted == old(deleted) - 1
      ensures errkey == |infos| && old(delLink) == NIL ==>
                data == old(data) + [Live(record)] && delLink == NIL && deleted == old(deleted)
      ensures errkey < |infos| && old(delLink) != NIL ==>
                data == old(data) && delLink == old(delLink) && deleted == old(deleted)
      ensures errkey < |infos| && old(delLink) == NIL ==>
                data == old(data) + [Deleted(NIL)] && delLink == |old(data)| && deleted == old(deleted) + 1
    {
      hide Indexed, Duplicate, LivePositions, FreeList;
      var pos, memory, live, grown := NextFreeRecordPos(record);
      ghost var more := records + 1;
      errkey := WriteKeys(record, pos, memory, live, more, grown);
      if errkey < |keys| {
        Rollback(errkey, pos, memory, live, more, grown);
        ghost var contents := seq(|keys|, _ => live);
        assert forall i | 0 <= i < |keys| :: contents[i] == live;
        assert grown - {pos} == live;
        PutBack(pos, memory, contents);
        forall i | 0 <= i < |keys| ensures Indexed(i, data, records, LivePositions(data)) {
          assert contents[i] == live;
        }
      } else {
        Commit(memory, grown, more);
      }
    }

    /** The end of heap_write when every index took the record. */
    method Commit(memory: seq<Cell>, ghost grown: set<nat>, ghost more: nat)
      requires KeysApart() && blength == BLength(records) && FreeList(memory, delLink, freeList) && |freeList| == deleted
      requires more == records + 1 && |memory| == more + deleted && LivePositions(memory) == grown && |grown| == more
      requires forall i | 0 <= i < |keys| :: Indexed(i, memory, more, grown)
      modifies this`data, this`records, this`blength
      ensures Consistent() && data == memory
    {
      hide Indexed, LivePositions, FreeList, BLength;
      BLengthStep(more);
      data := memory;
      records := records + 1;
      if records == blength {
        blength := blength + blength;
      }
    }

    /** A position goes onto the free list: the end of heap_delete and of heap_write's error path. */
    method PutBack(pos: nat, memory: seq<Cell>, ghost contents: seq<set<nat>>)
      requires KeysApart() && blength == BLength(records) && FreeList(memory, delLink, freeList) && |freeList| == deleted
      requires |memory| == records + deleted + 1 && pos < |memory| && memory[pos].Live? && |LivePositions(memory)| == records + 1
      requires |contents| == |keys| && forall i | 0 <= i < |keys| :: Indexed(i, memory, records, contents[i]) && pos !in contents[i]
      modifies this`data, this`delLink, this`deleted, this`freeList
      ensures Counted() && LivePositions(data) == LivePositions(memory) - {pos}
      ensures forall i | 0 <= i < |keys| :: Indexed(i, data, records, contents[i])
      ensures data == memory[pos := Deleted(old(delLink))] && deleted == old(deleted) + 1 && delLink == pos
    {
      PushFree(memory, delLink, freeList, pos);
      data := memory[pos := Deleted(delLink)];
      delLink := pos;
      deleted := deleted + 1;
      freeList := [pos] + freeList;
      forall i | 0 <= i < |keys| ensures Indexed(i, data, records, contents[i]) {
        StillIndexed(i, memory, data, records, contents[i]);
      }
    }

    /** heap_delete of the record at `pos`.  Nothing is asked of the indexes but that each is a
        good index of as many records as the table has: an index that lacks the record makes
        the deletion fail, and the counters are set back. */
    method HeapDelete(pos: nat, ghost contents: seq<set<nat>>) returns (ok: bool)
      requires KeysApart() && Counted() && |contents| == |keys|
      requires forall i | 0 <= i < |keys| :: Indexed(i, data, records, contents[i])
      requires pos < |data| && data[pos].Live?
      modifies this, keys
      ensures ok <==> forall i | 0 <= i < |keys| :: pos in contents[i]
      ensures !ok ==> unchanged(this) && records > 0 && Stopped(pos, data, records - 1, contents)
      ensures ok ==>
                && Counted() && data == old(data)[pos := Deleted(old(delLink))] && delLink == pos
                && records == old(records) - 1 && deleted == old(deleted) + 1
                && LivePositions(data) == old(LivePositions(data)) - {pos}
      ensures ok && (forall i | 0 <= i < |keys| :: contents[i] == old(LivePositions(data))) ==> Consistent()
      ensures ok ==> forall i | 0 <= i < |infos| && old(NoTwins(infos[i], data)) :: NoTwins(infos[i], data)
    {
      hide Indexed, FreeList, LivePositions, Stopped, NoTwins, BLength;
      ghost var more, live := records, LivePositions(data);
      PushFree(data, delLink, freeList, pos);
      BLengthStep(more);
      records := records - 1;
      if records < blength / 2 {
        blength := blength / 2;
      }
      var failed := DeleteKeys(pos, data, records, blength, more, contents);
      if failed {
        records := records + 1;
        if records == blength {
          blength := blength + blength;
        }
        return false;
      }
      ok := true;
      GiveUp(pos, contents);
    }

    /** The end of heap_delete. */
    method GiveUp(pos: nat, ghost contents: seq<set<nat>>)
      requires KeysApart() && blength == BLength(records) && FreeList(data, delLink, freeList) && |freeList| == deleted
      requires |data| == records + deleted + 1 && pos < |data| && data[pos].Live? && |LivePositions(data)| == records + 1
      requires |contents| == |keys| && forall i | 0 <= i < |keys| :: Indexed(i, data, records, contents[i] - {pos})
      modifies this`data, this`delLink, this`deleted, this`freeList
      ensures Counted() && data == old(data)[pos := Deleted(old(delLink))] && delLink == pos && deleted == old(deleted) + 1
      ensures LivePositions(data) == old(LivePositions(data)) - {pos}
      ensures (forall i | 0 <= i < |keys| :: contents[i] == old(LivePositions(data))) ==> Consistent()
      ensures forall i | 0 <= i < |infos| && old(NoTwins(infos[i], data)) :: NoTwins(infos[i], data)
    {
      hide Indexed, FreeList, LivePositions, NoTwins;
      ghost var live, before := LivePositions(data), data;
      ghost var left := seq(|contents|, i requires 0 <= i < |contents| => contents[i] - {pos});
      PutBack(pos, data, left);
      if forall i | 0 <= i < |keys| :: contents[i] == live {
        forall i | 0 <= i < |keys| ensures Indexed(i, data, records, LivePositions(data)) {
          assert left[i] == live - {pos};
        }
      }
      forall i | 0 <= i < |infos| && NoTwins(infos[i], before) ensures NoTwins(infos[i], data) {
        StillNoTwins(infos[i], before, data);
      }
    }

    /** A new table over new hash indexes. */
    constructor (infos: seq<KeyInfo>, keys: seq<KeyDef>)
      requires |infos| == |keys| && forall i | 0 <= i < |infos| :: infos[i].Sound()
      requires forall i, j | 0 <= i < j < |keys| :: keys[i] != keys[j]
      requires forall i, hash | 0 <= i < |keys| :: keys[i].Valid(hash, 0)
      ensures this.infos == infos && this.keys == keys
      ensures Consistent() && LivePositions(data) == {}
    {
      this.infos, this.keys := infos, keys;
      data, records, deleted, blength, delLink, freeList := [], 0, 0, 1, NIL, [];
      new;
      assert LivePositions(data) == {};
      forall i | 0 <= i < |keys| ensures Indexed(i, data, 0, {}) {
        assert keys[i].Valid(HashAt(infos[i], data), 0);
        assert keys[i].Contents(0) == {};
      }
    }

    /** hp_search for the first record with a key in index `i`. */
    method Find(i: nat, hashnr: nat, sameKey: Record -> bool) returns (pos: int)
      requires Consistent() && i < |infos|
      requires forall x :: sameKey(x) ==> infos[i].HashOf(x) == hashnr
      ensures pos == NIL <==> forall p :: p in LivePositions(data) ==> !sameKey(data[p].rec)
      ensures pos != NIL ==> pos >= 0 && pos in LivePositions(data) && sameKey(data[pos].rec)
    {
      assert Indexed(i, data, records, LivePositions(data));
      var address := Address(HashAt(infos[i], data), blength, records);
      var home := Address((p: nat) => hashnr, blength, records)(0);
      SameHome(infos[i], data, records, hashnr, sameKey);
      assert Chained(keys[i].Index(), records, address, NIL);
      hide HashAt, Address, BLength, Chained, KeyDef.Valid, Counted, KeysApart, Indexed;
      pos := keys[i].SearchKey(address, records, home, KeyAt(data, sameKey));
    }

    /** heap_check_heap on any table whose links are in range, where it ends: no error if and
        only if every index is well chained and the counters are those of the flags.
        `recordsInBlock` is how often the scan looks up its position afresh. */
    method CheckHeap(recordsInBlock: nat) returns (error: bool)
      requires recordsInBlock > 0 && |infos| == |keys| && blength == BLength(records)
      requires forall i | 0 <= i < |keys| :: Checkable(infos[i], data, records, keys[i].slots)
      requires records + deleted <= |data|
      ensures !error <==>
        && (forall i | 0 <= i < |keys| :: WellIndexed(infos[i], data, records, keys[i].slots, keys[i].hashBuckets))
        && records == |LivePositions(data[..records + deleted])|
    {
      hide LivePositions, Checkable, WellIndexed;
      error := false;
      var key := 0;
      while key < |keys|
        invariant key <= |keys| && (!error <==> forall i | 0 <= i < key :: WellIndexed(infos[i], data, records, keys[i].slots, keys[i].hashBuckets))
      {
        var wrong := CheckIndex(key);
        error := error || wrong;
        key := key + 1;
      }
      var recordsFound, deletedFound := CountPositions(data, records + deleted, recordsInBlock);
      if recordsFound != records || deletedFound != deleted {
        error := true;
      }
    }

    method CheckIndex(i: nat) returns (error: bool)
      requires i < |infos| == |keys| && blength == BLength(records) && Checkable(infos[i], data, records, keys[i].slots)
      ensures !error <==> WellIndexed(infos[i], data, records, keys[i].slots, keys[i].hashBuckets)
    {
      hide HashAt, WellChained, ChainsEnd, NoTrap, Heads;
      var address := Address(HashAt(infos[i], data), blength, records);
      forall r: nat | records > 0 ensures address(r) < records {
        AddressInRange(HashAt(infos[i], data), records, r);
      }
      error := CheckOneKey(keys[i].slots, keys[i].hashBuckets, address, records);
    }

    /** A table that only these operations have touched passes. */
    lemma ConsistentPasses()
      requires Consistent()
      ensures blength == BLength(records) && records + deleted == |data|
      ensures forall i | 0 <= i < |keys| ::
        Checkable(infos[i], data, records, keys[i].slots) && WellIndexed(infos[i], data, records, keys[i].slots, keys[i].hashBuckets)
      ensures records == |LivePositions(data[..records + deleted])|
    {
      assert data[..|data|] == data;
      forall i | 0 <= i < |keys|
        ensures Checkable(infos[i], data, records, keys[i].slots) && WellIndexed(infos[i], data, records, keys[i].slots, keys[i].hashBuckets)
      {
        assert Indexed(i, data, records, LivePositions(data));
        hide FreeList, LivePositions, Indexed, Heads, WellChained, ChainsEnd, NoTrap, InRange;
        ChainedIsWellChained(keys[i].Index(), records, Address(HashAt(infos[i], data), blength, records));
      }
    }
  }

  /** A call of heap_write, or of heap_delete on the record at a position. */
  datatype Call = Write(record: Record, full: bool) | Delete(pos: nat)

  /** No calls ever lead to two live records with the same key in a unique index without null
      parts; with null parts, only to records that have NULL in it. */
  method Perform(t: Table, calls: seq<Call>)
    requires t.Consistent() && t.data == [] && forall i | 0 <= i < |t.infos| :: t.infos[i].Symmetric()
    modifies t, t.keys
    ensures t.Consistent()
    ensures forall i, p, q | 0 <= i < |t.infos| && t.infos[i].noSame && !t.infos[i].nullPart
              && 0 <= p < |t.data| && 0 <= q < |t.data| && p != q && t.data[p].Live? && t.data[q].Live? ::
              !t.infos[i].sameKey(t.data[p].rec, t.data[q].rec)
    ensures forall i, p, q | 0 <= i < |t.infos| && t.infos[i].noSame
              && 0 <= p < |t.data| && 0 <= q < |t.data| && p != q && t.data[p].Live? && t.data[q].Live?
              && t.infos[i].sameKey(t.data[p].rec, t.data[q].rec) ::
              t.infos[i].nullInKey(t.data[p].rec) || t.infos[i].nullInKey(t.data[q].rec)
  {
    var n := 0;
    while n < |calls|
      invariant n <= |calls| && t.Consistent()
      invariant forall i | 0 <= i < |t.infos| :: NoTwins(t.infos[i], t.data)
    {
      hide NoTwins, Table.Consistent, KeyInfo.Symmetric;
      PerformOne(t, calls[n]);
      n := n + 1;
    }
  }

  method PerformOne(t: Table, call: Call)
    requires t.Consistent() && forall i | 0 <= i < |t.infos| :: t.infos[i].Symmetric() && NoTwins(t.infos[i], t.data)
    modifies t, t.keys
    ensures t.Consistent() && forall i | 0 <= i < |t.infos| :: NoTwins(t.infos[i], t.data)
  {
    hide NoTwins, KeyInfo.Symmetric, LivePositions, FreeList, KeyDef.Valid;
    match call
    case Write(record, full) =>
      var result := t.HeapWrite(record, full);
    case Delete(pos) =>
      if pos < |t.data| && t.data[pos].Live? {
        InLive(t.data, pos);
        ghost var live := LivePositions(t.data);
        ghost var contents := seq(|t.keys|, _ => live);
        assert forall i | 0 <= i < |t.keys| :: contents[i] == live;
        var ok := t.HeapDelete(pos, contents);
      }
  }

  lemma InLive(data: seq<Cell>, pos: nat)
    requires pos < |data| && data[pos].Live?
    ensures pos in LivePositions(data)
  {
  }

  /** The full scan of heap_check_heap: flag bytes seen over positions 0..total. */
  method CountPositions(data: seq<Cell>, total: nat, recordsInBlock: nat) returns (records: nat, deleted: nat)
    requires total <= |data| && recordsInBlock > 0
    ensures records == |LivePositions(data[..total])| && records + deleted == total
  {
    records, deleted := 0, 0;
    var pos, nextBlock := 0, 0;
    assert LivePositions(data[..0]) == {};
    while true
      invariant pos <= nextBlock <= total
      invariant records == |LivePositions(data[..pos])| && records + deleted == pos
      decreases total - pos
    {
      if pos >= nextBlock {
        nextBlock := nextBlock + recordsInBlock;
        if nextBlock >= total {
          nextBlock := total;
          if pos >= nextBlock {
            break;
          }
        }
      }
      OneMorePosition(data, pos);
      if data[pos].Live? {
        records := records + 1;
      } else {
        deleted := deleted + 1;
      }
      pos := pos + 1;
    }
  }

  lemma OneMorePosition(data: seq<Cell>, pos: nat)
    requires pos < |data|
    ensures |LivePositions(data[..pos + 1])| == |LivePositions(data[..pos])| + (if data[pos].Live? then 1 else 0)
  {
    var one: set<nat> := if data[pos].Live? then {pos} else {};
    assert LivePositions(data[..pos + 1]) == LivePositions(data[..pos]) + one;
  }

  /** Records with the key have its address. */
  lemma SameHome(info: KeyInfo, data: seq<Cell>, records: nat, hashnr: nat, sameKey: Record -> bool)
    requires forall x :: sameKey(x) ==> info.HashOf(x) == hashnr
    ensures var b := BLength(records); var home := Address((p: nat) => hashnr, b, records)(0);
      && (records > 0 ==> home < records)
      && forall r: nat | r < |data| && data[r].Live? && sameKey(data[r].rec) :: Address(HashAt(info, data), b, records)(r) == home
  {
    var b, key := BLength(records), (p: nat) => hashnr;
    if records > 0 {
      AddressInRange(key, records, 0);
    }
    forall r: nat | r < |data| && data[r].Live? && sameKey(data[r].rec)
      ensures Address(HashAt(info, data), b, records)(r) == Address(key, b, records)(0)
    {
      AddressSame(HashAt(info, data), key, b, records, r, 0);
    }
  }

  ghost predicate SameRecords(data: seq<Cell>, data': seq<Cell>, positions: set<nat>) {
    forall p :: p in positions ==> p < |data| && p < |data'| && data'[p] == data[p]
  }

  /** heap_write brings no twins, whether it keeps the record or refuses it. */
  lemma StillApart(info: KeyInfo, data: seq<Cell>, data': seq<Cell>, link: int, record: Record, written: bool)
    requires info.Symmetric() && NoTwins(info, data) && (written ==> !Duplicate(info, data, record))
    requires link != NIL ==> 0 <= link < |data| && data' == if written then data[link := Live(record)] else data
    requires link == NIL ==> data' == data + [if written then Live(record) else Deleted(NIL)]
    ensures NoTwins(info, data')
  {
    if written {
      MoreNoTwins(info, data, data', if link == NIL then |data| else link, record);
    } else {
      StillNoTwins(info, data, data');
    }
  }

  lemma AsDuplicate(info: KeyInfo, data: seq<Cell>, record: Record, p: nat)
    requires p < |data| && data[p].Live? && info.sameKey(record, data[p].rec)
    ensures info.noSame && !(info.nullPart && info.nullInKey(record)) ==> Duplicate(info, data, record)
  {
    assert p in LivePositions(data);
  }

  lemma OfDuplicate(info: KeyInfo, data: seq<Cell>, record: Record)
    requires Duplicate(info, data, record)
    ensures info.noSame && !(info.nullPart && info.nullInKey(record))
    ensures exists p :: 0 <= p < |data| && data[p].Live? && info.sameKey(record, data[p].rec)
  {
  }

  lemma SameKeyHashes(info: KeyInfo, data: seq<Cell>, memory: seq<Cell>, record: Record, pos: nat)
    requires info.Sound() && pos < |memory| && memory[pos] == Live(record)
    requires forall p :: p in LivePositions(data) ==> p < |memory| && memory[p] == data[p]
    ensures forall r :: SameKeyAt(info, data, record)(r) ==> HashAt(info, memory)(r) == HashAt(info, memory)(pos)
    ensures forall r :: r in LivePositions(data) ==> (SameKeyAt(info, data, record)(r) <==> info.sameKey(record, data[r].rec))
  {
    forall r: nat | SameKeyAt(info, data, record)(r) ensures HashAt(info, memory)(r) == HashAt(info, memory)(pos) {
      assert r in LivePositions(data);
      assert info.sameKey(record, data[r].rec);
    }
  }
}