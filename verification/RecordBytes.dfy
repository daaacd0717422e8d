/**
 A record position of a HEAP table as bytes: the record, with the link of a deleted one written
 over its start, and the flag byte behind it (heap/hp_create.c, heap/hp_delete.c, heap/hp_write.c).
 */
module RecordBytes {
  import opened HeapTable

  /** How a link is laid out in memory. */
  datatype Pointers = Pointers(size: nat, encode: int -> seq<int>, decode: seq<int> -> int) {
    predicate Holds(link: int) {
      |encode(link)| == size && decode(encode(link)) == link
    }
  }

  /** heap_create: a record is at least as long as a pointer, and no longer than it must. */
  function RecordLength(reclength: nat, p: Pointers): (length: nat)
    ensures reclength <= length && p.size <= length && (length == reclength || length == p.size)
  {
    if reclength < p.size then p.size else reclength
  }

  /** What a position holds, by its flag byte. */
  function CellOf(bytes: seq<int>, length: nat, p: Pointers): Cell
    requires p.size <= length < |bytes|
  {
    if bytes[length] == 0 then Deleted(p.decode(bytes[..p.size])) else Live(bytes[..length])
  }

  function LinkWritten(bytes: seq<int>, link: int, p: Pointers): seq<int>
    requires p.size <= |bytes|
  {
    p.encode(link) + bytes[p.size..]
  }

  /** Writing a link leaves the byte at `at` as it is, whatever is there, if and only if that
      byte is behind the pointer. */
  lemma FlagKept(p: Pointers, at: nat, link: int)
    requires p.Holds(link)
    ensures at >= p.size <==> forall bytes: seq<int> | at < |bytes| && p.size <= |bytes| :: LinkWritten(bytes, link, p)[at] == bytes[at]
  {
    if at < p.size {
      var bytes := seq(p.size, i => p.encode(link)[at] + 1);
      assert LinkWritten(bytes, link, p)[at] != bytes[at];
    }
  }

  /** heap_delete turns a position into a deleted one with the link, in either order of its two
      writes; heap_write turns it into the record. */
  lemma CellsWritten(p: Pointers, reclength: nat, bytes: seq<int>, link: int, record: seq<int>)
    requires p.Holds(link)
    requires var length := RecordLength(reclength, p); |bytes| > length && |record| == length
    ensures var length := RecordLength(reclength, p);
      && |LinkWritten(bytes, link, p)| == |bytes|
      && CellOf(LinkWritten(bytes, link, p)[length := 0], length, p) == Deleted(link)
      && CellOf(LinkWritten(bytes[length := 0], link, p), length, p) == Deleted(link)
      && CellOf((record + bytes[length..])[length := 1], length, p) == Live(record)
  {
    var length := RecordLength(reclength, p);
    assert LinkWritten(bytes, link, p)[length := 0][..p.size] == p.encode(link);
    assert LinkWritten(bytes[length := 0], link, p)[..p.size] == p.encode(link);
    assert (record + bytes[length..])[length := 1][..length] == record;
  }
}
