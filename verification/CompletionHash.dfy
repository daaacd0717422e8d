/**
 The prefix index of client/completion_hash.cc.  Linked lists are sequences, the head first;
 a pointer into one is the rest of the list from there on.  The hash function is arbitrary.
 */
module CompletionHash {
  import opened Prelude

  /** The words added that start with `key`, the newest first. */
  datatype Bucket = Bucket(h: nat, key: string, count: nat, entries: seq<string>)

  // ---------------------------------------------------------------- what is indexed

  /** The words of a list that start with `p`, in its order. */
  function Matching(words: seq<string>, p: string): seq<string> {
    if words == [] then []
    else if p <= words[0] then [words[0]] + Matching(words[1..], p)
    else Matching(words[1..], p)
  }

  lemma {:induction false} MatchingMeans(words: seq<string>, p: string)
    ensures forall w :: w in Matching(words, p) <==> w in words && p <= w
  {
    if words != [] {
      MatchingMeans(words[1..], p);
    }
  }

  /** A longer prefix matches fewer words, or the same. */
  lemma {:induction false} LongerPrefix(words: seq<string>, p: string, q: string)
    requires p <= q
    ensures |Matching(words, q)| <= |Matching(words, p)|
    ensures |Matching(words, q)| == |Matching(words, p)| ==> Matching(words, q) == Matching(words, p)
    ensures |Matching(words, q)| < |Matching(words, p)| ==> exists w :: w in words && p <= w && !(q <= w)
  {
    if words != [] {
      LongerPrefix(words[1..], p, q);
      if p <= words[0] && !(q <= words[0]) {
        assert words[0] in words;
      } else if |Matching(words[1..], q)| < |Matching(words[1..], p)| {
        var w :| w in words[1..] && p <= w && !(q <= w);
        assert w in words;
      }
    }
  }

  // ---------------------------------------------------------------- chains

  /** Where the bucket of `key` is in a chain. */
  function Position(chain: seq<Bucket>, key: string): (k: nat)
    ensures k <= |chain| && (k < |chain| ==> chain[k].key == key)
    ensures forall j | 0 <= j < k :: chain[j].key != key
  {
    if chain == [] || chain[0].key == key then 0
    else
      assert forall j | 0 < j < |chain| :: chain[j] == chain[1..][j - 1];
      1 + Position(chain[1..], key)
  }

  function EntriesIn(chain: seq<Bucket>, key: string): seq<string> {
    var k := Position(chain, key);
    if k < |chain| then chain[k].entries else []
  }

  ghost predicate BucketOk(hash: string -> nat, size: nat, slot: nat, b: Bucket)
    requires size > 0
  {
    b.h == hash(b.key) && b.h % size == slot && b.key != [] && b.count == |b.entries| > 0
  }

  ghost predicate ChainOk(hash: string -> nat, size: nat, slot: nat, chain: seq<Bucket>)
    requires size > 0
  {
    && (forall k | 0 <= k < |chain| :: BucketOk(hash, size, slot, chain[k]))
    && (forall j, k | 0 <= j < k < |chain| :: chain[j].key != chain[k].key)
  }

  lemma PositionIs(chain: seq<Bucket>, key: string, k: nat)
    requires k <= |chain| && (k < |chain| ==> chain[k].key == key) && forall j | 0 <= j < k :: chain[j].key != key
    ensures Position(chain, key) == k
  {
  }

  class HashTable {
    const hash: string -> nat
    const arBuckets: array<seq<Bucket>>

    ghost predicate Valid()
      reads this, arBuckets
    {
      arBuckets.Length > 0 && forall i | 0 <= i < arBuckets.Length :: ChainOk(hash, arBuckets.Length, i, arBuckets[i])
    }

    /** The entry list of a key, empty if it has no bucket. */
    ghost function Entries(key: string): seq<string>
      requires arBuckets.Length > 0
      reads this, arBuckets
    {
      EntriesIn(arBuckets[hash(key) % arBuckets.Length], key)
    }

    /** The index is that of `words`, the newest first. */
    ghost predicate Indexes(words: seq<string>)
      reads this, arBuckets
    {
      Valid() && forall key: string | key != [] :: Entries(key) == Matching(words, key)
    }

    /** completion_hash_init. */
    constructor (hash: string -> nat, size: nat)
      requires size > 0
      ensures Indexes([]) && fresh(arBuckets) && this.hash == hash && arBuckets.Length == size
    {
      this.hash := hash;
      arBuckets := new seq<Bucket>[size](_ => []);
    }

    /** The walk along a chain in completion_hash_update and completion_hash_find. */
    method Walk(chain: seq<Bucket>, h: nat, key: string) returns (k: nat)
      requires h == hash(key) && forall j | 0 <= j < |chain| :: chain[j].h == hash(chain[j].key)
      ensures k == Position(chain, key)
    {
      k := 0;
      while k < |chain| && !(chain[k].h == h && |chain[k].key| == |key| && chain[k].key == key)
        invariant k <= |chain| && forall j | 0 <= j < k :: chain[j].key != key
      {
        k := k + 1;
      }
      PositionIs(chain, key, k);
    }

    /** completion_hash_update; it fails for the empty key. */
    method Update(key: string, str: string) returns (ok: bool)
      requires Valid()
      modifies arBuckets
      ensures Valid()
      ensures ok <==> key != []
      ensures !ok ==> unchanged(arBuckets)
      ensures ok ==> forall other :: Entries(other) == if other == key then [str] + old(Entries(other)) else old(Entries(other))
    {
      var h := hash(key);
      var slot := h % arBuckets.Length;
      if |key| <= 0 {
        return false;
      }
      var chain := arBuckets[slot];
      var k := Walk(chain, h, key);
      if k < |chain| {
        var b := chain[k];
        arBuckets[slot] := chain[k := b.(entries := [str] + b.entries, count := b.count + 1)];
        EntryAdded(chain, k, arBuckets[slot][k]);
      } else {
        arBuckets[slot] := [Bucket(h, key, 1, [str])] + chain;
        BucketAdded(chain, arBuckets[slot][0]);
      }
      ok := true;
    }

    /** add_word: the word is entered under each of its prefixes. */
    method AddWord(str: string, ghost words: seq<string>)
      requires Indexes(words)
      modifies arBuckets
      ensures Indexes([str] + words)
    {
      assert arBuckets.Length > 0;
      hide Matching, EntriesIn, Valid, Added;
      assert forall key: string :: Added(words, str, 1, key) == Matching(words, key) || key == [] by {
        AddedNone(words, str);
      }
      var i := 1;
      while i <= |str|
        invariant 1 <= i <= |str| + 1 && Valid() && arBuckets.Length > 0
        invariant forall key: string | key != [] :: Entries(key) == Added(words, str, i, key)
      {
        AddedNext(words, str, i, str[..i]);
        var ok := Update(str[..i], str);
        i := i + 1;
      }
      AllAdded(words, str);
    }

    /** completion_hash_find: the bucket with what comes behind it in its chain. */
    method FindInChain(key: string) returns (b: seq<Bucket>)
      requires Valid()
      ensures b == [] ==> Entries(key) == []
      ensures b != [] ==> key != [] && b[0].key == key && b[0].entries == Entries(key) != [] && b[0].count == |Entries(key)|
      ensures forall k | 0 <= k < |b| :: b[k].entries != []
    {
      var h := hash(key);
      var chain := arBuckets[h % arBuckets.Length];
      var k := Walk(chain, h, key);
      b := chain[k..];
      forall j | 0 <= j < |b| ensures b[j].entries != [] {
        assert BucketOk(hash, arBuckets.Length, h % arBuckets.Length, chain[k + j]);
      }
    }

    method Find(key: string) returns (b: Option<Bucket>)
      requires Valid()
      ensures b.None? ==> Entries(key) == []
      ensures b.Some? ==> key != [] && b.value.key == key && b.value.entries == Entries(key) != [] && b.value.count == |Entries(key)|
    {
      var chain := FindInChain(key);
      b := if chain == [] then None else Some(chain[0]);
    }

    /** find_all_matches: nothing if and only if no word starts with `str`; otherwise exactly
        these words, the newest first, and their number. */
    method FindAllMatches(str: string, ghost words: seq<string>) returns (b: Option<Bucket>, resLength: nat)
      requires Indexes(words)
      ensures b.None? <==> str == [] || forall w | w in words :: !(str <= w)
      ensures b.None? ==> resLength == 0
      ensures b.Some? ==> b.value.entries == Matching(words, str) && b.value.count == |Matching(words, str)| && resLength == |str|
    {
      b := Find(str);
      resLength := if b.None? then 0 else |str|;
      MatchingMeans(words, str);
      if str != [] && Matching(words, str) != [] {
        assert Matching(words, str)[0] in words;
      }
    }

    /** find_longest_match: the length is that of the longest prefix that all words starting
        with `str` share. */
    method FindLongestMatch(str: string, ghost words: seq<string>) returns (b: Option<Bucket>, resLength: nat)
      requires Indexes(words)
      ensures b.None? <==> str == [] || forall w | w in words :: !(str <= w)
      ensures b.None? ==> resLength == 0
      ensures b.Some? ==> b.value.entries == Matching(words, str) && LongestShared(words, str, b.value.key) && resLength == |b.value.key|
    {
      b := Find(str);
      MatchingMeans(words, str);
      if b.None? {
        return None, 0;
      }
      var count, s := b.value.count, b.value.entries[0];
      assert s in Matching(words, str) && s[..|str|] == str;
      resLength := |str|;
      while resLength < |s|
        invariant b.Some? && |str| <= resLength <= |s| && s[..resLength] == b.value.key
        invariant b.value.entries == Matching(words, str) && count == |Matching(words, str)|
        invariant str <= s && s in Matching(words, str) && forall w | w in Matching(words, str) :: s[..resLength] <= w
      {
        var longer := Find(s[..resLength + 1]);
        LongerPrefix(words, str, s[..resLength + 1]);
        MatchingMeans(words, s[..resLength + 1]);
        if longer.None? {
          break;
        }
        if longer.value.count < count {
          return;
        }
        b, resLength := longer, resLength + 1;
      }
    }
  }

  /** The entries of `key` while `str` is added, when the prefixes shorter than `i` are done. */
  ghost function Added(words: seq<string>, str: string, i: nat, key: string): seq<string> {
    (if key <= str && |key| < i then [str] else []) + Matching(words, key)
  }

  lemma AddedNone(words: seq<string>, str: string)
    ensures forall key: string :: key != [] ==> Added(words, str, 1, key) == Matching(words, key)
  {
  }

  lemma AddedNext(words: seq<string>, str: string, i: nat, prefix: string)
    requires i <= |str| && prefix == str[..i]
    ensures forall key: string :: Added(words, str, i + 1, key) == if key == prefix then [str] + Added(words, str, i, key) else Added(words, str, i, key)
  {
  }

  lemma AllAdded(words: seq<string>, str: string)
    ensures forall key: string :: Added(words, str, |str| + 1, key) == Matching([str] + words, key)
  {
    assert ([str] + words)[1..] == words;
  }

  /** Every word that starts with `str` starts with `p`, and with no longer string. */
  ghost predicate LongestShared(words: seq<string>, str: string, p: string) {
    && str <= p
    && (forall w | w in words && str <= w :: p <= w)
    && forall c: char :: exists w :: w in words && str <= w && !(p + [c] <= w)
  }

  lemma EntryAdded(chain: seq<Bucket>, k: nat, b: Bucket)
    requires k < |chain| && chain[k].key == b.key && forall j | 0 <= j < k :: chain[j].key != b.key
    ensures forall key :: EntriesIn(chain[k := b], key) == if key == b.key then b.entries else EntriesIn(chain, key)
  {
    forall key ensures EntriesIn(chain[k := b], key) == if key == b.key then b.entries else EntriesIn(chain, key) {
      PositionIs(chain[k := b], key, Position(chain, key));
    }
  }

  lemma BucketAdded(chain: seq<Bucket>, b: Bucket)
    ensures forall key :: EntriesIn([b] + chain, key) == if key == b.key then b.entries else EntriesIn(chain, key)
  {
    forall key ensures EntriesIn([b] + chain, key) == if key == b.key then b.entries else EntriesIn(chain, key) {
      assert ([b] + chain)[1..] == chain;
    }
  }
}
