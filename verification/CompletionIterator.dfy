/** new_command_generator of client/mysql.cc: the words of the completion hash one by one. */
module CompletionIterator {
  import opened Prelude
  import opened CompletionHash

  // ---------------------------------------------------------------- what is enumerated

  /** The entries of a bucket that are as long as its key. */
  function Whole(entries: seq<string>, n: nat): seq<string> {
    if entries == [] then []
    else if |entries[0]| == n then [entries[0]] + Whole(entries[1..], n)
    else Whole(entries[1..], n)
  }

  function WholeOfChain(chain: seq<Bucket>): seq<string> {
    if chain == [] then [] else Whole(chain[0].entries, |chain[0].key|) + WholeOfChain(chain[1..])
  }

  function WholeOfTable(slots: seq<seq<Bucket>>): seq<string> {
    if slots == [] then [] else WholeOfChain(slots[0]) + WholeOfTable(slots[1..])
  }

  lemma NoChain(list: seq<string>)
    ensures WholeOfChain([]) + list == list
    ensures WholeOfTable([]) == []
  {
  }

  lemma WholeFrom(slots: seq<seq<Bucket>>, i: nat)
    requires i < |slots|
    ensures WholeOfTable(slots[i..]) == WholeOfChain(slots[i]) + WholeOfTable(slots[i + 1..])
    ensures slots[i] == [] ==> WholeOfTable(slots[i..]) == WholeOfTable(slots[i + 1..])
  {
    hide WholeOfChain;
    assert slots[i..][1..] == slots[i + 1..];
    NoChain(WholeOfTable(slots[i + 1..]));
  }

  lemma {:induction false} NoneIn(slots: seq<seq<Bucket>>)
    requires forall k | 0 <= k < |slots| :: slots[k] == []
    ensures WholeOfTable(slots) == []
  {
    if slots != [] {
      NoneIn(slots[1..]);
    }
  }

  /** From entry `e` of bucket `b[0]` on: the rest of its entries, of its chain, of the table. */
  function Remaining(b: seq<Bucket>, e: seq<string>, later: seq<seq<Bucket>>): seq<string>
    requires b != []
  {
    Whole(e, |b[0].key|) + (WholeOfChain(b[1..]) + WholeOfTable(later))
  }

  lemma RemainingNext(b: seq<Bucket>, e: seq<string>, later: seq<seq<Bucket>>)
    requires b != [] && e != []
    ensures Remaining(b, e, later) == (if |e[0]| == |b[0].key| then [e[0]] else []) + Remaining(b, e[1..], later)
    ensures Remaining(b, [], later) == WholeOfChain(b[1..]) + WholeOfTable(later)
  {
    hide WholeOfChain, WholeOfTable;
  }

  lemma RemainingStart(b: seq<Bucket>, later: seq<seq<Bucket>>)
    requires b != []
    ensures Remaining(b, b[0].entries, later) == WholeOfChain(b) + WholeOfTable(later)
  {
    hide WholeOfTable;
  }

  /** The static variables of new_command_generator: the slot, the chain from the bucket on,
      and the entry list from the entry on. */
  class Generator {
    const ht: HashTable
    var textlen: nat
    var b: seq<Bucket>
    var e: seq<string>
    var i: nat

    /** The chain of the entry is there, if there is one. */
    ghost predicate Traversing()
      reads this, ht, ht.arBuckets
    {
      ht.Valid() && (e != [] ==> b != [] && forall k | 0 <= k < |b| :: b[k].entries != [])
    }

    /** The slots from `from` on; none behind the table. */
    ghost function Slots(from: nat): seq<seq<Bucket>>
      reads ht, ht.arBuckets
    {
      if from <= ht.arBuckets.Length then ht.arBuckets[from..] else []
    }

    /** What the enumeration has still to yield. */
    ghost function Rest(): seq<string>
      requires Traversing()
      reads this, ht, ht.arBuckets
    {
      if e == [] then [] else Remaining(b, e, Slots(i + 1))
    }

    ghost predicate NoBuckets()
      reads ht, ht.arBuckets
    {
      forall k | 0 <= k < ht.arBuckets.Length :: ht.arBuckets[k] == []
    }

    constructor (ht: HashTable)
      requires ht.Valid()
      ensures Traversing() && e == [] && this.ht == ht
    {
      this.ht := ht;
      textlen, b, e, i := 0, [], [], 0;
    }

    /** The search for the next used bucket. */
    method NextUsed(from: nat)
      requires ht.Valid()
      modifies this`b, this`e, this`i
      ensures from <= i && (i >= ht.arBuckets.Length <==> forall k | from <= k < ht.arBuckets.Length :: ht.arBuckets[k] == [])
      ensures i >= ht.arBuckets.Length ==> WholeOfTable(Slots(from)) == [] && b == old(b) && e == old(e)
      ensures i < ht.arBuckets.Length || e == [] ==> Traversing() && Rest() == WholeOfTable(Slots(from))
      ensures i < ht.arBuckets.Length ==> e != []
    {
      hide Remaining, WholeOfChain, WholeOfTable, HashTable.Valid;
      NoChain(WholeOfTable(Slots(from)));
      i := from;
      if from > ht.arBuckets.Length {
        return;
      }
      while i < ht.arBuckets.Length
        invariant from <= i <= ht.arBuckets.Length && b == old(b) && e == old(e)
        invariant forall k | from <= k < i :: ht.arBuckets[k] == []
        invariant WholeOfTable(ht.arBuckets[i..]) == WholeOfTable(ht.arBuckets[from..])
      {
        WholeFrom(ht.arBuckets[..], i);
        if ht.arBuckets[i] != [] {
          b := ht.arBuckets[i];
          e := b[0].entries;
          FirstBucket();
          return;
        }
        i := i + 1;
      }
      assert ht.arBuckets[i..] == [];
    }

    lemma FirstBucket()
      requires ht.Valid() && i < ht.arBuckets.Length && b == ht.arBuckets[i] != [] && e == b[0].entries
      ensures Traversing() && e != [] && Rest() == WholeOfChain(ht.arBuckets[i]) + WholeOfTable(ht.arBuckets[i + 1..])
    {
      forall k | 0 <= k < |b| ensures b[k].entries != [] {
        assert BucketOk(ht.hash, ht.arBuckets.Length, i, b[k]);
      }
      RemainingStart(b, ht.arBuckets[i + 1..]);
    }

    /** The end of an entry list: on to the next bucket of the chain or of the table. */
    method NextBucket()
      requires ht.Valid() && b != [] && e == [] && forall k | 0 <= k < |b| :: b[k].entries != []
      modifies this`b, this`e, this`i
      ensures Traversing() && Rest() == WholeOfChain(old(b)[1..]) + WholeOfTable(Slots(old(i) + 1))
      ensures i >= old(i) && (i == old(i) || i >= ht.arBuckets.Length ==> |b| < |old(b)|)
    {
      hide HashTable.Valid, Remaining, WholeOfTable, WholeOfChain;
      ghost var chain, later := b[1..], WholeOfTable(Slots(i + 1));
      b := b[1..];
      if b == [] {
        NextUsed(i + 1);
        NoChain(later);
      } else {
        e := b[0].entries;
        RemainingStart(b, Slots(i + 1));
      }
    }

    /** One step of the enumeration: past the entry `e`, to the next used bucket if need be. */
    method Advance()
      requires Traversing() && e != []
      modifies this`b, this`e, this`i
      ensures Traversing()
      ensures old(Rest()) == (if |old(e)[0]| == |old(b)[0].key| then [old(e)[0]] else []) + Rest()
      ensures i >= old(i)
      ensures i == old(i) || i >= ht.arBuckets.Length ==> |b| <= |old(b)| && (|b| == |old(b)| ==> |e| < |old(e)|)
    {
      hide WholeOfChain, WholeOfTable, Remaining, HashTable.Valid;
      RemainingNext(b, e, Slots(i + 1));
      e := e[1..];
      if e == [] {
        NextBucket();
      }
    }

    /** new_command_generator.  With a text: the words that start with it.  Without: all words.
        With no bucket in the table the first call goes on with what is left of an earlier
        enumeration, as the later calls do. */
    method Generate(text: string, state: int) returns (ptr: Option<string>)
      requires ht.Valid()
      requires (if state == 0 then text == [] && NoBuckets() else textlen == 0) ==> Traversing()
      modifies this
      ensures textlen == if state == 0 then |text| else old(textlen)
      ensures textlen > 0 && (state != 0 || ht.Entries(text) != []) ==> Yields(if state == 0 then ht.Entries(text) else old(e), ptr, e)
      ensures textlen > 0 && state == 0 && ht.Entries(text) == [] ==> ptr.None? && b == [] && e == old(e)
      ensures textlen == 0 ==> Traversing()
      ensures textlen == 0 && state == 0 && !NoBuckets() ==> Yields(WholeOfTable(ht.arBuckets[..]), ptr, Rest())
      ensures textlen == 0 && (state != 0 || NoBuckets()) ==> Yields(old(Rest()), ptr, Rest())
    {
      if state == 0 {
        textlen := |text|;
      }
      if textlen > 0 {
        if state == 0 {
          b := ht.FindInChain(text);
          if b == [] {
            return None;
          }
          e := b[0].entries;
        }
        if e != [] {
          ptr, e := Some(e[0]), e[1..];
          return;
        }
        return None;
      }
      ghost var left, later := e, Slots(i + 1);
      if state == 0 {
        NextUsed(0);
        assert ht.arBuckets[0..] == ht.arBuckets[..];
        if NoBuckets() {
          NoneIn(later);
          NoneIn(Slots(i + 1));
        }
      }
      ptr := None;
      ghost var all := Rest();
      while e != [] && ptr.None?
        invariant textlen == 0 && Traversing() && (if ptr.None? then all == Rest() else all == [ptr.value] + Rest())
        decreases if ptr.None? then 1 else 0, if i < ht.arBuckets.Length then ht.arBuckets.Length - i else 0, |b|, |e|
      {
        if |e[0]| == |b[0].key| {
          ptr := Some(e[0]);
        }
        Advance();
      }
    }
  }

  /** The next of a list; after its end nothing. */
  ghost predicate Yields(list: seq<string>, ptr: Option<string>, rest: seq<string>) {
    if list == [] then ptr.None? else ptr == Some(list[0]) && rest == list[1..]
  }

  // ---------------------------------------------------------------- every word once per add_word

  function Times(words: seq<string>, w: string): nat {
    if words == [] then 0 else (if words[0] == w then 1 else 0) + Times(words[1..], w)
  }

  lemma {:induction false} TimesOfBoth(a: seq<string>, b: seq<string>, w: string)
    ensures Times(a + b, w) == Times(a, w) + Times(b, w)
  {
    if a == [] {
      assert a + b == b;
    } else {
      assert (a + b)[1..] == a[1..] + b;
      TimesOfBoth(a[1..], b, w);
    }
  }

  /** Among the words that start with `key`, those as long as it are copies of it. */
  lemma {:induction false} WholeTimes(words: seq<string>, key: string, w: string)
    ensures Times(Whole(Matching(words, key), |key|), w) == if w == key then Times(words, w) else 0
  {
    if words != [] {
      WholeTimes(words[1..], key, w);
      if key <= words[0] && |words[0]| == |key| {
        assert words[0] == key;
      }
    }
  }

  ghost predicate BucketIndexes(words: seq<string>, b: Bucket) {
    b.key != [] && b.entries == Matching(words, b.key) && b.entries != []
  }

  /** In a chain without equal keys: the word is there as often as it was added if it has a
      bucket here, otherwise not at all. */
  lemma {:induction false} ChainTimes(words: seq<string>, chain: seq<Bucket>, w: string)
    requires forall k | 0 <= k < |chain| :: BucketIndexes(words, chain[k])
    requires forall j, k | 0 <= j < k < |chain| :: chain[j].key != chain[k].key
    ensures Times(WholeOfChain(chain), w) == if Position(chain, w) < |chain| then Times(words, w) else 0
  {
    if chain != [] {
      var rest := chain[1..];
      ChainTimes(words, rest, w);
      WholeTimes(words, chain[0].key, w);
      TimesOfBoth(Whole(chain[0].entries, |chain[0].key|), WholeOfChain(rest), w);
      if chain[0].key == w {
        PositionIs(rest, w, |rest|);
      }
    }
  }

  lemma {:induction false} SlotsTimes(words: seq<string>, slots: seq<seq<Bucket>>, w: string, slot: nat, n: nat)
    requires forall i | 0 <= i < |slots| :: ChainIndexes(words, slots[i])
    requires n <= slot < n + |slots| ==> (Position(slots[slot - n], w) == |slots[slot - n]| ==> w !in words)
    requires forall i: nat | i < |slots| && n + i != slot :: Position(slots[i], w) == |slots[i]|
    ensures Times(WholeOfTable(slots), w) == if n <= slot < n + |slots| then Times(words, w) else 0
  {
    if slots != [] {
      var rest := slots[1..];
      assert forall i: nat | i < |rest| :: rest[i] == slots[i + 1];
      assert ChainIndexes(words, slots[0]);
      hide ChainIndexes, Times, WholeOfChain, Position;
      SlotsTimes(words, rest, w, slot, n + 1);
      SlotTimes(words, slots[0], w);
      TimesOfBoth(WholeOfChain(slots[0]), WholeOfTable(rest), w);
      NotThere(words, w);
    }
  }

  lemma SlotTimes(words: seq<string>, chain: seq<Bucket>, w: string)
    requires ChainIndexes(words, chain)
    ensures Position(chain, w) <= |chain|
    ensures Times(WholeOfChain(chain), w) == if Position(chain, w) < |chain| then Times(words, w) else 0
  {
    hide Times, WholeOfChain, BucketIndexes;
    ChainTimes(words, chain, w);
  }

  ghost predicate ChainIndexes(words: seq<string>, chain: seq<Bucket>) {
    && (forall k | 0 <= k < |chain| :: BucketIndexes(words, chain[k]))
    && (forall j, k | 0 <= j < k < |chain| :: chain[j].key != chain[k].key)
  }

  lemma {:induction false} NotThere(words: seq<string>, w: string)
    ensures Times(words, w) == 0 <==> w !in words
  {
    if words != [] {
      NotThere(words[1..], w);
      assert w in words <==> w == words[0] || w in words[1..];
    }
  }

  lemma SlotIndexes(ht: HashTable, words: seq<string>, i: nat)
    requires ht.Indexes(words) && i < ht.arBuckets.Length
    ensures ChainIndexes(words, ht.arBuckets[i])
  {
    var chain := ht.arBuckets[i];
    forall k | 0 <= k < |chain| ensures BucketIndexes(words, chain[k]) {
      assert BucketOk(ht.hash, ht.arBuckets.Length, i, chain[k]);
      PositionIs(chain, chain[k].key, k);
      assert ht.Entries(chain[k].key) == chain[k].entries;
    }
  }

  lemma OtherSlot(ht: HashTable, i: nat, w: string)
    requires ht.Valid() && i < ht.arBuckets.Length && i != ht.hash(w) % ht.arBuckets.Length
    ensures Position(ht.arBuckets[i], w) == |ht.arBuckets[i]|
  {
    var chain := ht.arBuckets[i];
    forall k | 0 <= k < |chain| ensures chain[k].key != w {
      assert BucketOk(ht.hash, ht.arBuckets.Length, i, chain[k]);
    }
    PositionIs(chain, w, |chain|);
  }

  /** The whole table yields each word exactly as often as it was added. */
  lemma TableTimes(ht: HashTable, words: seq<string>, w: string)
    requires ht.Indexes(words) && w != []
    ensures Times(WholeOfTable(ht.arBuckets[..]), w) == Times(words, w)
  {
    var slots, slot := ht.arBuckets[..], ht.hash(w) % ht.arBuckets.Length;
    forall i | 0 <= i < |slots| ensures ChainIndexes(words, slots[i]) {
      SlotIndexes(ht, words, i);
    }
    forall i: nat | i < |slots| && i != slot ensures Position(slots[i], w) == |slots[i]| {
      OtherSlot(ht, i, w);
    }
    MatchingMeans(words, w);
    assert ht.Entries(w) == Matching(words, w);
    assert w in words ==> w in Matching(words, w);
    hide HashTable.Valid, Matching;
    SlotsTimes(words, slots, w, slot, 0);
  }

  lemma NoEmptyWord(ht: HashTable, words: seq<string>)
    requires ht.Indexes(words)
    ensures Times(WholeOfTable(ht.arBuckets[..]), []) == 0
  {
    var slots := ht.arBuckets[..];
    forall i: nat | i < |slots| ensures ChainIndexes(words, slots[i]) && Position(slots[i], []) == |slots[i]| {
      SlotIndexes(ht, words, i);
      assert forall k | 0 <= k < |slots[i]| :: BucketIndexes(words, slots[i][k]);
      PositionIs(slots[i], [], |slots[i]|);
    }
    hide HashTable.Valid, Matching;
    SlotsTimes(words, slots, [], |slots|, 0);
  }

  /** The calls of the completion library with no text, up to the one that returns nothing:
      every word once for each time it was added, and nothing else; only with no bucket in the
      table it is what is left of an earlier enumeration. */
  method EnumerateAll(g: Generator, ghost words: seq<string>) returns (all: seq<string>)
    requires g.ht.Indexes(words) && (g.NoBuckets() ==> g.Traversing())
    modifies g
    ensures old(g.NoBuckets()) ==> all == old(g.Rest())
    ensures old(g.e) == [] || !old(g.NoBuckets()) ==>
      Times(all, []) == 0 && forall w: string | w != [] :: Times(all, w) == Times(words, w)
  {
    all := CollectAll(g);
    if g.NoBuckets() {
      NoneIn(g.ht.arBuckets[..]);
    }
    NoEmptyWord(g.ht, words);
    forall w: string | w != [] ensures Times(WholeOfTable(g.ht.arBuckets[..]), w) == Times(words, w) {
      TableTimes(g.ht, words, w);
    }
  }

  method CollectAll(g: Generator) returns (all: seq<string>)
    requires g.ht.Valid() && (g.NoBuckets() ==> g.Traversing())
    modifies g
    ensures all == if g.NoBuckets() then old(g.Rest()) else WholeOfTable(g.ht.arBuckets[..])
  {
    hide HashTable.Valid, Remaining, WholeOfTable, Generator.Traversing, Generator.NoBuckets, Generator.Rest;
    ghost var whole := if g.NoBuckets() then g.Rest() else WholeOfTable(g.ht.arBuckets[..]);
    all := [];
    var ptr := g.Generate([], 0);
    while ptr.Some?
      invariant g.textlen == 0 && g.Traversing()
      invariant if ptr.Some? then whole == all + [ptr.value] + g.Rest() else whole == all
      decreases if ptr.Some? then 1 + |g.Rest()| else 0
    {
      all := all + [ptr.value];
      ptr := g.Generate([], 1);
    }
  }

  /** With a text: exactly the words that start with it, the newest first. */
  method EnumerateMatches(g: Generator, text: string, ghost words: seq<string>) returns (all: seq<string>)
    requires g.ht.Indexes(words) && text != []
    modifies g
    ensures all == Matching(words, text)
  {
    hide Generator.Traversing, Generator.NoBuckets, Generator.Rest, HashTable.Valid, Matching;
    all := [];
    var ptr := g.Generate(text, 0);
    while ptr.Some?
      invariant g.textlen > 0 && g.ht.Indexes(words)
      invariant if ptr.Some? then Matching(words, text) == all + [ptr.value] + g.e else Matching(words, text) == all
      decreases if ptr.Some? then 1 + |g.e| else 0
    {
      all := all + [ptr.value];
      ptr := g.Generate(text, 1);
    }
  }
}
