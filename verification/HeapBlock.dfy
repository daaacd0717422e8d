/** HP_BLOCK: heap/hp_block.c, init_block of heap/hp_create.c and its reset in heap/hp_clear.c. */
module HeapBlock {
  import opened Prelude
  import opened BlockSize
  import opened BlockTree
  import opened BlockFree
  import opened BlockGrow
  import opened BlockLevels

  /** How many records are under a block of level `i`. */
  function RecordsUnder(g: Geometry, i: nat): nat {
    if i == 0 then 1 else g.recordsInBlock * Pow(g.n, i - 1)
  }

  predicate SameWeights(info: seq<LevelInfo>, info': seq<LevelInfo>) {
    |info| == |info'| && forall j | 0 <= j < |info| :: info'[j].recordsUnder == info[j].recordsUnder
  }

  lemma WeightsThrough(a: seq<LevelInfo>, b: seq<LevelInfo>, c: seq<LevelInfo>)
    requires SameWeights(a, b) && SameWeights(b, c)
    ensures SameWeights(a, c)
  {
  }

  /** The lowest level in use with a free pointer, or the number of levels. */
  function OpenLevel(info: seq<LevelInfo>, levels: nat, i: nat): (r: nat)
    requires i <= levels <= |info|
    ensures i <= r <= levels && (r < levels ==> info[r].freePtrs > 0) && forall j | i <= j < r :: info[j].freePtrs == 0
    decreases levels - i
  {
    if i < levels && info[i].freePtrs == 0 then OpenLevel(info, levels, i + 1) else i
  }

  /** The tree of `levels` levels with one more leaf, in allocation `c`; `i` is the lowest level
      with a free pointer. */
  ghost function Grown(g: Geometry, t: Tree, levels: nat, i: nat, c: nat): Tree
    requires levels > 0 ==> 0 < i <= levels && Shape(g.n, t, levels - 1)
  {
    var p := Ptr(c, 0);
    if levels == 0 then Leaf(p)
    else if i == levels then Node(p, [t, Chain(g, Plus(p, g.ptrs), levels - 1)])
    else Append(g.n, t, levels - 1, i, Chain(g, p, i - 1))
  }

  /** How many of the new blocks are used: on top of the tree there is one more. */
  function Above(levels: nat, i: nat): nat {
    if i == levels || i == 0 then i else i - 1
  }

  /** The leaf of a position, and its number there. */
  function LeafOf(g: Geometry, leaves: seq<Ptr>, pos: nat): Ptr
    requires g.recordsInBlock > 0 && pos < |leaves| * g.recordsInBlock
  {
    InBlocks(pos, g.recordsInBlock, |leaves|);
    leaves[pos / g.recordsInBlock]
  }

  function InLeaf(g: Geometry, pos: nat): (r: nat)
    requires g.recordsInBlock > 0
    ensures r < g.recordsInBlock
  {
    pos % g.recordsInBlock
  }

  /** Where the record of a position is. */
  function RecordAt(g: Geometry, leaves: seq<Ptr>, pos: nat): Ptr
    requires g.recordsInBlock > 0 && pos < |leaves| * g.recordsInBlock
  {
    Plus(LeafOf(g, leaves, pos), InLeaf(g, pos) * g.recbuffer)
  }

  lemma RecordPlace(g: Geometry, leaves: seq<Ptr>, pos: nat)
    requires g.recordsInBlock > 0 && pos < |leaves| * g.recordsInBlock
    ensures pos / g.recordsInBlock < |leaves|
    ensures var leaf, place := leaves[pos / g.recordsInBlock], RecordAt(g, leaves, pos);
      place.chunk == leaf.chunk && place.off == leaf.off + pos % g.recordsInBlock * g.recbuffer
  {
    InBlocks(pos, g.recordsInBlock, |leaves|);
  }

  /** malloc gives memory at `base` that is not in use. */
  ghost predicate Unused(bases: seq<int>, sizes: seq<nat>, base: int, length: nat) {
    forall c | 0 <= c < |bases| && c < |sizes| :: base + length <= bases[c] || bases[c] + sizes[c] <= base
  }

  /** What is asked for a leaf and `i` blocks above it: the product is one of `uint`. */
  ghost function ChunkLength(g: Geometry, i: nat): nat {
    if i == 0 then g.recordsInBlock * g.recbuffer % UINT else g.ptrs + ChunkLength(g, i - 1)
  }

  lemma {:induction false} ChunkLengthIs(g: Geometry, i: nat)
    ensures ChunkLength(g, i) == i * g.ptrs + g.recordsInBlock * g.recbuffer % UINT
    ensures LeafFits(g) ==> ChunkLength(g, i) == i * g.ptrs + g.recordsInBlock * g.recbuffer
  {
    if i > 0 {
      ChunkLengthIs(g, i - 1);
      Times(i - 1, g.ptrs);
    }
    InUint(g.recordsInBlock * g.recbuffer);
  }

  ghost function AllChunks(n: nat): seq<Ptr> {
    seq(n, (c: nat) => Ptr(c, 0))
  }

  /** Leaf `m` is in allocation `m`, and fits into it. */
  ghost predicate LeavesFit(g: Geometry, sizes: seq<nat>, leaves: seq<Ptr>) {
    && |leaves| == |sizes|
    && forall m: nat | m < |leaves| :: leaves[m].chunk == m && leaves[m].off + g.recordsInBlock * g.recbuffer <= sizes[m]
  }

  /** The allocations: they do not overlap, and each is one subtree's. */
  ghost predicate Layout(g: Geometry, bases: seq<int>, sizes: seq<nat>, t: Tree) {
    && Laid(g, sizes, t) && Disjoint(bases, sizes) && t.ptr.off == 0
    && Bag(t, false) == multiset(AllChunks(|sizes|))
    && LeavesFit(g, sizes, Leaves(t))
  }

  class Block {
    const g: Geometry
    var levels: nat
    var root: Ptr
    const levelInfo: array<LevelInfo>
    var mem: Memory
    var bases: seq<int>
    ghost var sizes: seq<nat>
    ghost var tree: Tree

    ghost predicate Valid()
      reads this, levelInfo
    {
      && Sound(g) && g.ptrs < UINT && levelInfo.Length == HP_MAX_LEVELS + 1 && levels <= levelInfo.Length
      && (forall i | 0 <= i < levelInfo.Length :: levelInfo[i].recordsUnder == RecordsUnder(g, i) % UINT)
      && levelInfo[0].freePtrs == 0
      && if levels == 0 then sizes == [] && bases == [] && mem == map[]
         else
           && Kept(g, levelInfo[..], mem, tree, levels - 1, Ptr(|sizes|, 0))
           && root == tree.ptr && |bases| == |sizes| && (levels >= 2 ==> |tree.kids| >= 2)
           && (LeafFits(g) ==> Layout(g, bases, sizes, tree))
    }

    /** The leaves in the order of the positions. */
    ghost function LeafList(): seq<Ptr>
      reads this
    {
      if levels == 0 then [] else Leaves(tree)
    }

    /** init_block. */
    constructor (l: Limits)
      requires Usable(l)
      ensures Valid() && levels == 0 && LeafList() == [] && g == Chosen(l) && fresh(levelInfo)
    {
      hide RecordsInBlock, RecBuffer, RecordsUnder;
      var recordsInBlock, recbuffer := ChooseSizes(l);
      ChosenSound(l);
      g := Geometry(l.n, l.n * l.ptr, recordsInBlock, recbuffer);
      levels, root, mem, bases, sizes, tree := 0, Ptr(0, 0), map[], [], [], Leaf(Ptr(0, 0));
      levelInfo := new LevelInfo[HP_MAX_LEVELS + 1](_ => LevelInfo(0, 0, Ptr(0, 0)));
      new;
      var i := 0;
      while i <= HP_MAX_LEVELS
        invariant i <= HP_MAX_LEVELS + 1 && levels == 0 && mem == map[] && bases == [] && sizes == []
        invariant forall j | 0 <= j < i :: levelInfo[j].recordsUnder == RecordsUnder(g, j) % UINT
        invariant forall j | 0 <= j < levelInfo.Length :: levelInfo[j].freePtrs == 0
      {
        var under := if i == 0 then 1 else if i == 1 then g.recordsInBlock else g.n * levelInfo[i - 1].recordsUnder;
        WeightNext(g, i, if i == 0 then 1 else levelInfo[i - 1].recordsUnder);
        levelInfo[i] := LevelInfo(0, under % UINT, Ptr(0, 0));
        i := i + 1;
      }
    }

    /** No weight that hp_find_block divides by was cut off. */
    ghost predicate WeightsFit()
      reads this
    {
      forall i: nat | i < levels :: RecordsUnder(g, i) < UINT
    }

    /** hp_find_block: only pointers that were stored are followed, and the record is in the
        leaf of its number. */
    method FindBlock(pos: nat) returns (p: Ptr)
      requires Valid() && WeightsFit() && g.recordsInBlock > 0 && pos < |LeafList()| * g.recordsInBlock
      ensures p == RecordAt(g, LeafList(), pos)
    {
      RecordHeld(g, tree, pos);
      hide Kept, Layout, Holds, RecordAt;
      ghost var leaf, inLeaf := LeafOf(g, Leaves(tree), pos), InLeaf(g, pos);
      var rest;
      p, rest := FindLeaf(pos, leaf, inLeaf);
      p := Plus(p, rest * g.recbuffer);
    }

    /** The descent through the levels. */
    method FindLeaf(pos: nat, ghost leaf: Ptr, ghost inLeaf: nat) returns (p: Ptr, rest: nat)
      requires Valid() && WeightsFit() && levels > 0 && Holds(g, tree, pos, leaf, inLeaf)
      ensures p == leaf && rest == inLeaf
    {
      hide Layout, Holds, LevelOk, LastsApart, Older, RecordsUnder;
      var i: nat := levels - 1;
      p, rest := root, pos;
      ghost var sub := tree;
      while i > 0
        invariant i < levels && Shape(g.n, sub, i) && Stored(mem, sub) && p == sub.ptr
        invariant Holds(g, sub, rest, leaf, inLeaf)
      {
        var under := levelInfo[i].recordsUnder;
        InUint(RecordsUnder(g, i));
        UnderPositive(g, i);
        var k, next := rest / under, rest % under;
        Descend(g, sub, i, rest, under, k, next, leaf, inLeaf);
        assert Slot(p, k) in mem;
        p, sub := mem[Slot(p, k)], sub.kids[k];
        rest := next;
        i := i - 1;
      }
      LeafLast(g, rest, sub, leaf, inLeaf);
    }

    /** All blocks that the levels can hold are there. */
    predicate AllFull()
      requires levels <= levelInfo.Length
      reads this, levelInfo
    {
      levels == levelInfo.Length && OpenLevel(levelInfo[..], levels, 0) == levels
    }

    /** What hp_get_new_block asks malloc for. */
    ghost function AllocLength(): nat
      requires levels <= levelInfo.Length
      reads this, levelInfo
    {
      ChunkLength(g, OpenLevel(levelInfo[..], levels, 0))
    }

    /** The tree with one more leaf. */
    ghost function NewTree(): Tree
      requires Valid()
      reads this, levelInfo
    {
      Grown(g, tree, levels, OpenLevel(levelInfo[..], levels, 0), |sizes|)
    }

    /** The new leaf takes a free pointer of level `i`, with a chain of blocks above it. */
    method Occupy(i: nat, p: Ptr)
      requires Sound(g) && 0 < i < levelInfo.Length && 0 < levelInfo[i].freePtrs <= g.n && levelInfo[0].freePtrs == 0
      requires Older(mem, p) && Earlier(levelInfo[i].last, p) && Slot(levelInfo[i].last, g.n - levelInfo[i].freePtrs) !in mem
      modifies this`mem, levelInfo
      ensures Occupied(g, old(levelInfo[..]), old(mem), i, p, levelInfo[..], mem)
    {
      ghost var info, before := levelInfo[..], mem;
      var slot := Slot(levelInfo[i].last, g.n - levelInfo[i].freePtrs);
      mem := mem[slot := p];
      levelInfo[i] := levelInfo[i].(freePtrs := levelInfo[i].freePtrs - 1);
      var q, j := p, i - 1;
      DownOne(g, p);
      while j > 0
        invariant 0 <= j < i && q == Down(g, p, i - 1 - j) && Extends(before, mem)
        invariant levelInfo[i] == info[i].(freePtrs := info[i].freePtrs - 1)
        invariant forall k | 0 <= k < levelInfo.Length && (k > i || k <= j) :: levelInfo[k] == info[k]
        invariant forall k | j < k < i :: levelInfo[k] == LevelInfo(g.n - 1, info[k].recordsUnder, Down(g, p, i - 1 - k))
        invariant slot in mem && mem[slot] == p
        invariant forall s | s in mem :: s in before || s == slot || (s.node.chunk == p.chunk && s.node.off >= p.off && s.index == 0)
        invariant forall d: nat | d < i - 1 - j :: LinksDown(g, mem, p, d)
      {
        ghost var d: nat := i - 1 - j;
        var next := Plus(q, g.ptrs);
        DownNext(g, p, d);
        LinkAdded(g, mem, p, d, q, next, mem[Slot(q, 0) := next]);
        mem := mem[Slot(q, 0) := next];
        levelInfo[j] := LevelInfo(g.n - 1, levelInfo[j].recordsUnder, q);
        q, j := next, j - 1;
      }
      levelInfo[0] := levelInfo[0].(last := q);
    }

    /** A new top block `p`, with the tree so far as its first child. */
    method AddTop(p: Ptr)
      requires levels > 0 && levels < levelInfo.Length && Kept(g, levelInfo[..], mem, tree, levels - 1, p) && root == tree.ptr
      requires forall j | 0 <= j < levels :: levelInfo[j].freePtrs == 0
      modifies this`levels, this`root, this`mem, this`tree, levelInfo
      ensures levels == old(levels) + 1 && root == p == tree.ptr && tree == Node(p, [old(tree)])
      ensures Kept(g, levelInfo[..], mem, tree, levels - 1, Plus(p, g.ptrs)) && LowestFree(levelInfo[..], levels - 1)
      ensures levelInfo[levels - 1].freePtrs <= g.n && levelInfo[0].freePtrs == 0
      ensures SameWeights(old(levelInfo[..]), levelInfo[..])
    {
      ghost var info, before, h: nat := levelInfo[..], mem, levels - 1;
      levels := levels + 1;
      levelInfo[levels - 1] := LevelInfo(g.n - 1, levelInfo[levels - 1].recordsUnder, p);
      mem := mem[Slot(p, 0) := root];
      root := p;
      ToppedKept(g, info, before, tree, h, p, levelInfo[..], mem);
      assert info[h + 1 := levelInfo[h + 1]] == levelInfo[..];
      tree := Node(p, [tree]);
    }

    /** Occupies the free pointer found and keeps the tree up to date. */
    method HangIn(i: nat, p: Ptr)
      requires levels > 0 && levels <= levelInfo.Length && 1 <= i < levels && LowestFree(levelInfo[..], i)
      requires levelInfo[i].freePtrs <= g.n && levelInfo[0].freePtrs == 0
      requires Kept(g, levelInfo[..], mem, tree, levels - 1, p) && root == tree.ptr
      modifies this`mem, this`tree, levelInfo
      ensures Shape(g.n, old(tree), levels - 1) && tree == Append(g.n, old(tree), levels - 1, i, Chain(g, p, i - 1)) && root == tree.ptr
      ensures Kept(g, levelInfo[..], mem, tree, levels - 1, Ptr(p.chunk + 1, 0)) && levelInfo[0].freePtrs == 0
      ensures SameWeights(old(levelInfo[..]), levelInfo[..])
    {
      ghost var info, before, h: nat := levelInfo[..], mem, levels - 1;
      hide Kept, Older, Occupied, LowestFree, Append, Shape, Chain, Sound, Earlier;
      ReadyToOccupy(g, info, mem, tree, h, i, p);
      Occupy(i, p);
      ghost var grown := HungIn(g, info, before, tree, h, i, p, levelInfo[..], mem);
      tree := grown;
    }

    /** hp_get_new_block, when malloc gives memory at `base`: one leaf more, behind all others,
        which stay where they are.  It is behind its blocks, and in its allocation if and only if
        the product fits `uint`. */
    method GetNewBlock(base: int) returns (allocLength: nat)
      requires Valid() && !AllFull() && Unused(bases, sizes, base, AllocLength())
      modifies this, levelInfo
      ensures Valid() && levels > 0 && allocLength == old(AllocLength())
      ensures levels == old(levels) + (if old(OpenLevel(levelInfo[..], levels, 0) == levels) then 1 else 0)
      ensures tree == old(NewTree())
      ensures |LeafList()| == |old(LeafList())| + 1 && old(LeafList()) <= LeafList()
      ensures bases == old(bases) + [base] && sizes == old(sizes) + [allocLength]
      ensures LeafList()[|old(LeafList())|].chunk == |old(sizes)|
      ensures LeafList()[|old(LeafList())|].off + g.recordsInBlock * g.recbuffer <= allocLength <==> LeafFits(g)
    {
      hide Unused, Kept, Layout, RecordsUnder, ChunkLength, Leaves, Shape, Sound;
      var i := 0;
      while i < levels && levelInfo[i].freePtrs == 0
        invariant i <= levels && OpenLevel(levelInfo[..], levels, i) == OpenLevel(levelInfo[..], levels, 0)
        invariant forall j | 0 <= j < i :: levelInfo[j].freePtrs == 0
      {
        i := i + 1;
      }
      ChunkLengthIs(g, i);
      allocLength := g.ptrs * i + g.recordsInBlock * g.recbuffer % UINT;
      if levels > 0 {
        StartOfTree(g, levelInfo[..], mem, tree, levels - 1, Ptr(|sizes|, 0));
      }
      GrownLeaves(g, tree, levels, i, |sizes|);
      AskedEnough(g, i, levels);
      if i == 0 {
        FirstBlock(base);
      } else if i == levels {
        OnTop(base);
      } else {
        Below(i, base);
      }
    }

    method FirstBlock(base: int)
      requires Valid() && levels == 0
      modifies this, levelInfo
      ensures Valid() && levels == 1 && tree == Leaf(Ptr(0, 0))
      ensures bases == old(bases) + [base] && sizes == old(sizes) + [old(AllocLength())]
    {
      ghost var length := AllocLength();
      bases, sizes := bases + [base], sizes + [length];
      levels, root := 1, Ptr(0, 0);
      levelInfo[0] := levelInfo[0].(last := root);
      tree := Leaf(root);
      if LeafFits(g) {
        OneChunk(g, base, length);
      }
    }

    /** The new leaf goes under an existing block. */
    method Below(i: nat, base: int)
      requires Valid() && 0 < i < levels && i == OpenLevel(levelInfo[..], levels, 0)
      requires Unused(bases, sizes, base, AllocLength())
      modifies this, levelInfo
      ensures Valid() && levels == old(levels) && tree == old(NewTree())
      ensures bases == old(bases) + [base] && sizes == old(sizes) + [old(AllocLength())]
    {
      hide Unused, Kept, Layout, RecordsUnder, ChunkLength, Append, Chain, Leaves, Shape, Sound, OpenLevel;
      assert LowestFree(levelInfo[..], i);
      hide LowestFree;
      ReadyToOccupy(g, levelInfo[..], mem, tree, levels - 1, i, Ptr(|sizes|, 0));
      if LeafFits(g) {
        AppendLayout(g, bases, sizes, tree, levels - 1, i, base);
      }
      AppendKids(g.n, tree, levels - 1, i, Chain(g, Ptr(|sizes|, 0), i - 1));
      var p := Ptr(|bases|, 0);
      bases, sizes := bases + [base], sizes + [AllocLength()];
      HangIn(i, p);
    }

    /** All blocks are full: the tree gets a new top block. */
    method OnTop(base: int)
      requires Valid() && 0 < levels < levelInfo.Length && OpenLevel(levelInfo[..], levels, 0) == levels
      requires Unused(bases, sizes, base, AllocLength())
      modifies this, levelInfo
      ensures Valid() && levels == old(levels) + 1 && tree == old(NewTree())
      ensures bases == old(bases) + [base] && sizes == old(sizes) + [old(AllocLength())]
    {
      hide Unused, Kept, Layout, RecordsUnder, ChunkLength, LowestFree, Append, Chain, Leaves, Shape, Sound, OpenLevel;
      if LeafFits(g) {
        ToppedLayout(g, bases, sizes, tree, levels - 1, base);
      }
      var p := Ptr(|bases|, 0);
      bases, sizes := bases + [base], sizes + [AllocLength()];
      Raise(p);
    }

    /** A new top block with the old tree and a new chain under it. */
    method Raise(p: Ptr)
      requires levels > 0 && levels < levelInfo.Length && Kept(g, levelInfo[..], mem, tree, levels - 1, p) && root == tree.ptr
      requires forall j | 0 <= j < levels :: levelInfo[j].freePtrs == 0
      modifies this`levels, this`root, this`mem, this`tree, levelInfo
      ensures levels == old(levels) + 1 && tree == Node(p, [old(tree), Chain(g, Plus(p, g.ptrs), old(levels) - 1)]) && root == tree.ptr
      ensures Kept(g, levelInfo[..], mem, tree, levels - 1, Ptr(p.chunk + 1, 0)) && levelInfo[0].freePtrs == 0
      ensures SameWeights(old(levelInfo[..]), levelInfo[..])
    {
      ghost var info, t, h: nat := levelInfo[..], tree, levels - 1;
      hide Kept, LowestFree, Append, Chain, Shape, Sound, SameWeights;
      AddTop(p);
      ghost var topped := levelInfo[..];
      HangIn(levels - 1, Plus(p, g.ptrs));
      WeightsThrough(info, topped, levelInfo[..]);
      ToppedAppend(g, t, h, p);
    }

    /** hp_free_level: frees what is under `pos`, a block of level `level - 1`, and `pos` itself
        unless it is where the memory before it ended. */
    method FreeLevel(level: nat, pos: Ptr, lastPos: Option<Ptr>, ghost t: Tree, ghost isLast: bool)
      returns (freed: seq<Ptr>, nextPtr: Option<Ptr>)
      requires Valid() && 0 < level <= levels && Shape(g.n, t, level - 1) && Stored(mem, t) && pos == t.ptr
      requires if isLast then t == LastAt(g.n, tree, levels - 1, level - 1) else Full(g.n, t, level - 1)
      ensures (freed, nextPtr) == Free(g, bases, t, lastPos)
      decreases level
    {
      hide Layout, LastsApart, Older;
      if level == 1 {
        freed, nextPtr := [], Some(Plus(pos, g.recbuffer));
      } else {
        ChildrenCount(g, levelInfo[level - 1], mem, tree, levels - 1, level - 1, t);
        var maxPos := if levelInfo[level - 1].last == pos then g.n - levelInfo[level - 1].freePtrs else g.n;
        freed, nextPtr := FreeChildren(level, pos, maxPos, t, isLast);
      }
      if !SamePlace(bases, pos, lastPos) {
        freed, nextPtr := freed + [pos], lastPos;
      }
    }

    /** The loop over the children. */
    method FreeChildren(level: nat, pos: Ptr, maxPos: nat, ghost t: Tree, ghost isLast: bool)
      returns (freed: seq<Ptr>, nextPtr: Option<Ptr>)
      requires Valid() && 1 < level <= levels && Shape(g.n, t, level - 1) && Stored(mem, t) && pos == t.ptr && maxPos == |t.kids|
      requires if isLast then t == LastAt(g.n, tree, levels - 1, level - 1) else Full(g.n, t, level - 1)
      ensures (freed, nextPtr) == FreeKids(g, bases, t.kids, Some(Plus(pos, g.ptrs)))
      decreases level, 0
    {
      hide Layout, LastsApart, Older, LevelOk, Stored, Full, RecordsUnder;
      freed, nextPtr := [], Some(Plus(pos, g.ptrs));
      var i: nat := 0;
      while i < maxPos
        invariant i <= maxPos && (freed, nextPtr) == FreeKids(g, bases, t.kids[..i], Some(Plus(pos, g.ptrs)))
      {
        ChildStored(mem, t, i);
        ChildShape(g, tree, levels - 1, level - 1, t, isLast, i);
        var more;
        ghost var next := i + 1;
        more, nextPtr := FreeLevel(level - 1, mem[Slot(pos, i)], nextPtr, t.kids[i], isLast && i == maxPos - 1);
        freed := freed + more;
        assert t.kids[..next][..i] == t.kids[..i];
        i := i + 1;
      }
      assert t.kids[..i] == t.kids;
    }

    /** The part of hp_clear and hp_clear_keys about a block tree: nothing is freed but what was
        allocated, and nothing twice; and all of it in clean trees. */
    method Clear() returns (freed: seq<Ptr>)
      requires Valid()
      modifies this
      ensures Valid() && levels == 0 && LeafList() == []
      ensures old(levels) > 0 ==> freed == Free(g, old(bases), old(tree), None).0
      ensures LeafFits(g) ==> multiset(freed) <= multiset(AllChunks(|old(sizes)|))
      ensures LeafFits(g) && old(levels) > 0 ==>
        (multiset(freed) == multiset(AllChunks(|old(sizes)|)) <==> Clean(g, old(bases), old(tree)))
      ensures (LeafFits(g) && g.recordsInBlock >= 2) || old(levels) == 0 ==> multiset(freed) == multiset(AllChunks(|old(sizes)|))
    {
      hide Clean, AllChunks, RecordsUnder;
      freed := [];
      if levels == 0 {
        NoChunks();
      } else {
        hide Layout, Kept;
        StartOfTree(g, levelInfo[..], mem, tree, levels - 1, Ptr(|sizes|, 0));
        var nextPtr;
        freed, nextPtr := FreeLevel(levels, root, None, tree, true);
        if LeafFits(g) {
          AllReleased(g, bases, sizes, tree);
        }
      }
      Reset();
    }

    method Reset()
      requires Sound(g) && levelInfo.Length == HP_MAX_LEVELS + 1 && levelInfo[0].freePtrs == 0
      requires g.ptrs < UINT && forall i | 0 <= i < levelInfo.Length :: levelInfo[i].recordsUnder == RecordsUnder(g, i) % UINT
      modifies this
      ensures Valid() && levels == 0 && LeafList() == []
    {
      levels, mem, bases, sizes := 0, map[], [], [];
    }
  }

  lemma NoChunks()
    ensures AllChunks(0) == []
  {
  }

  lemma {:induction false} StartOfTree(g: Geometry, info: seq<LevelInfo>, mem: Memory, t: Tree, h: nat, p: Ptr)
    requires Kept(g, info, mem, t, h, p)
    ensures Shape(g.n, t, h) && Stored(mem, t) && t == LastAt(g.n, t, h, h)
  {
  }

  lemma {:induction false} AllReleased(g: Geometry, bases: seq<int>, sizes: seq<nat>, t: Tree)
    requires Sound(g) && Layout(g, bases, sizes, t)
    ensures multiset(Free(g, bases, t, None).0) <= multiset(AllChunks(|sizes|))
    ensures multiset(Free(g, bases, t, None).0) == multiset(AllChunks(|sizes|)) <==> Clean(g, bases, t)
    ensures g.recordsInBlock >= 2 ==> multiset(Free(g, bases, t, None).0) == multiset(AllChunks(|sizes|))
  {
    hide Laid, Disjoint, Starts, Free, Clean;
    ExactRelease(g, bases, sizes, t);
  }

  /** How many children hp_free_level visits: all, also where a block that is not the last one
      on its level would have the same pointer. */
  lemma {:induction false} ChildrenCount(g: Geometry, info: LevelInfo, mem: Memory, tree: Tree, h: nat, j: nat, t: Tree)
    requires Shape(g.n, tree, h) && 0 < j <= h && LevelOk(g.n, info, mem, tree, h, j) && Stored(mem, t)
    requires Shape(g.n, t, j) && (t == LastAt(g.n, tree, h, j) || Full(g.n, t, j))
    ensures |t.kids| == if info.last == t.ptr then g.n - info.freePtrs else g.n
  {
    assert forall k: nat | k < |t.kids| :: Slot(t.ptr, k) in mem;
  }

  lemma {:induction false} ChildStored(mem: Memory, t: Tree, i: nat)
    requires Stored(mem, t) && t.Node? && i < |t.kids|
    ensures Slot(t.ptr, i) in mem && mem[Slot(t.ptr, i)] == t.kids[i].ptr && Stored(mem, t.kids[i])
  {
  }

  lemma {:induction false} ChildShape(g: Geometry, tree: Tree, h: nat, j: nat, t: Tree, isLast: bool, i: nat)
    requires Shape(g.n, tree, h) && 0 < j <= h && Shape(g.n, t, j) && i < |t.kids| && g.n >= 1
    requires if isLast then t == LastAt(g.n, tree, h, j) else Full(g.n, t, j)
    ensures Shape(g.n, t.kids[i], j - 1)
    ensures if isLast && i == |t.kids| - 1 then t.kids[i] == LastAt(g.n, tree, h, j - 1) else Full(g.n, t.kids[i], j - 1)
  {
    if isLast && i == |t.kids| - 1 {
      LastOfLast(g.n, tree, h, j, j - 1);
    } else {
      FullIsShape(g.n, t.kids[i], j - 1);
    }
  }

  /** A record is inside its leaf, and so inside the allocation of the leaf's number. */
  lemma RecordInside(g: Geometry, sizes: seq<nat>, leaves: seq<Ptr>, p: nat)
    requires Sound(g) && LeavesFit(g, sizes, leaves) && p < |leaves| * g.recordsInBlock
    ensures var r := RecordAt(g, leaves, p); r.chunk == p / g.recordsInBlock < |sizes| && r.off + g.recbuffer <= sizes[r.chunk]
  {
    InBlocks(p, g.recordsInBlock, |leaves|);
    SlotIn(InLeaf(g, p), g.recordsInBlock, g.recbuffer);
  }

  lemma {:induction false} RecordsApart(g: Geometry, bases: seq<int>, sizes: seq<nat>, t: Tree, p: nat, q: nat)
    requires Sound(g) && Layout(g, bases, sizes, t) && p < q < |Leaves(t)| * g.recordsInBlock
    ensures var a, b := At(bases, RecordAt(g, Leaves(t), p)), At(bases, RecordAt(g, Leaves(t), q));
      a + g.recbuffer <= b || b + g.recbuffer <= a
  {
    RecordInside(g, sizes, Leaves(t), p);
    RecordInside(g, sizes, Leaves(t), q);
    if p / g.recordsInBlock == q / g.recordsInBlock {
      SameLeafApart(g, Leaves(t), p, q);
    }
    hide Laid, RecordAt, LeavesFit;
  }

  /** Records of different positions do not overlap, where the leaves fit. */
  lemma PositionsApart(b: Block, p: nat, q: nat)
    requires b.Valid() && LeafFits(b.g) && p < q < |b.LeafList()| * b.g.recordsInBlock
    ensures var x, y := At(b.bases, RecordAt(b.g, b.LeafList(), p)), At(b.bases, RecordAt(b.g, b.LeafList(), q));
      x + b.g.recbuffer <= y || y + b.g.recbuffer <= x
  {
    hide RecordAt, Kept, Layout;
    RecordsApart(b.g, b.bases, b.sizes, b.tree, p, q);
  }

  lemma SameLeafApart(g: Geometry, leaves: seq<Ptr>, p: nat, q: nat)
    requires Sound(g) && p < q < |leaves| * g.recordsInBlock && p / g.recordsInBlock == q / g.recordsInBlock
    ensures var a, b := RecordAt(g, leaves, p), RecordAt(g, leaves, q); a.chunk == b.chunk && a.off + g.recbuffer <= b.off
  {
    var rib, k := g.recordsInBlock, p / g.recordsInBlock;
    var x, y := InLeaf(g, p), InLeaf(g, q);
    assert p == k * rib + x && q == k * rib + y;
    AtMost(x + 1, y, g.recbuffer);
    Times(x, g.recbuffer);
  }

  lemma SlotIn(x: nat, rib: nat, recbuffer: nat)
    requires x < rib
    ensures x * recbuffer + recbuffer <= rib * recbuffer
  {
    AtMost(x + 1, rib, recbuffer);
    Times(x, recbuffer);
  }

  lemma {:induction false} ToppedAppend(g: Geometry, t: Tree, h: nat, p: Ptr)
    requires Shape(g.n, Node(p, [t]), h + 1)
    ensures Append(g.n, Node(p, [t]), h + 1, h + 1, Chain(g, Plus(p, g.ptrs), h)) == Node(p, [t, Chain(g, Plus(p, g.ptrs), h)])
  {
    assert [t] + [Chain(g, Plus(p, g.ptrs), h)] == [t, Chain(g, Plus(p, g.ptrs), h)];
  }

  lemma OneChunk(g: Geometry, base: int, length: nat)
    requires Sound(g) && LeafFits(g) && length == ChunkLength(g, 0)
    ensures Layout(g, [base], [length], Leaf(Ptr(0, 0)))
  {
    assert AllChunks(1) == [Ptr(0, 0)] && Starts(Leaf(Ptr(0, 0)), false) == [Ptr(0, 0)];
  }

  lemma ReadyToOccupy(g: Geometry, info: seq<LevelInfo>, mem: Memory, t: Tree, h: nat, i: nat, p: Ptr)
    requires Kept(g, info, mem, t, h, p) && 1 <= i <= h && LowestFree(info, i)
    ensures Sound(g) && h < |info| && 0 < info[i].freePtrs <= g.n && Earlier(info[i].last, p) && Older(mem, p) && Shape(g.n, t, h)
    ensures Slot(info[i].last, g.n - info[i].freePtrs) !in mem
  {
    assert LevelOk(g.n, info[i], mem, t, h, i);
  }

  /** The tree with the new leaf. */
  lemma HungIn(g: Geometry, info: seq<LevelInfo>, mem: Memory, t: Tree, h: nat, i: nat, p: Ptr, info': seq<LevelInfo>, mem': Memory) returns (t': Tree)
    requires Kept(g, info, mem, t, h, p) && 1 <= i <= h && LowestFree(info, i) && info[i].freePtrs <= g.n
    requires Occupied(g, info, mem, i, p, info', mem')
    ensures Shape(g.n, t, h) && t' == Append(g.n, t, h, i, Chain(g, p, i - 1)) && t'.ptr == t.ptr
    ensures Kept(g, info', mem', t', h, Ptr(p.chunk + 1, 0)) && |info'| == |info| && info'[0].freePtrs == 0
    ensures forall j | 0 <= j < |info| :: info'[j].recordsUnder == info[j].recordsUnder
  {
    OccupiedKept(g, info, mem, t, h, i, p, info', mem');
    OccupiedShape(g, info, mem, t, h, i, p, mem', info');
    OccupiedUnder(g, info, mem, i, p, info', mem');
    t' := Append(g.n, t, h, i, Chain(g, p, i - 1));
  }

  lemma OccupiedUnder(g: Geometry, info: seq<LevelInfo>, mem: Memory, i: nat, p: Ptr, info': seq<LevelInfo>, mem': Memory)
    requires i < |info| && 0 < info[i].freePtrs <= g.n && Occupied(g, info, mem, i, p, info', mem') && i > 0
    ensures |info'| == |info| && info'[0].freePtrs == 0 && forall j | 0 <= j < |info| :: info'[j].recordsUnder == info[j].recordsUnder
  {
  }

  // ---------------------------------------------------------------- the allocations

  lemma MoreChunks(n: nat)
    ensures multiset(AllChunks(n + 1)) == multiset(AllChunks(n)) + multiset{Ptr(n, 0)}
  {
    assert AllChunks(n + 1) == AllChunks(n) + [Ptr(n, 0)];
  }

  lemma MoreDisjoint(bases: seq<int>, sizes: seq<nat>, base: int, length: nat)
    requires Disjoint(bases, sizes)
    requires Unused(bases, sizes, base, length)
    ensures Disjoint(bases + [base], sizes + [length])
  {
  }

  lemma MoreLeaves(g: Geometry, sizes: seq<nat>, leaves: seq<Ptr>, leaf: Ptr, length: nat)
    requires LeavesFit(g, sizes, leaves) && leaf.chunk == |sizes| && leaf.off + g.recordsInBlock * g.recbuffer <= length
    ensures LeavesFit(g, sizes + [length], leaves + [leaf])
  {
  }

  /** A tree with one leaf and one allocation more. */
  lemma {:induction false} MoreLayout(g: Geometry, bases: seq<int>, sizes: seq<nat>, t: Tree, t': Tree, leaf: Ptr, base: int, length: nat)
    requires Layout(g, bases, sizes, t) && Laid(g, sizes + [length], t') && t'.ptr.off == 0
    requires Bag(t', false) == Bag(t, false) + multiset{Ptr(|sizes|, 0)} && Leaves(t') == Leaves(t) + [leaf]
    requires leaf.chunk == |sizes| && leaf.off + g.recordsInBlock * g.recbuffer <= length
    requires Unused(bases, sizes, base, length)
    ensures Layout(g, bases + [base], sizes + [length], t')
  {
    hide Laid, Bag, AllChunks, LeavesFit;
    MoreChunks(|sizes|);
    MoreDisjoint(bases, sizes, base, length);
    MoreLeaves(g, sizes, Leaves(t), leaf, length);
  }

  /** The new chain in its allocation. */
  lemma {:induction false} ChainFits(g: Geometry, sizes: seq<nat>, p: Ptr, h: nat)
    requires Sound(g) && p.chunk < |sizes| && p.off + h * g.ptrs + g.recordsInBlock * g.recbuffer <= sizes[p.chunk]
    ensures var chain := Chain(g, p, h);
      && Laid(g, sizes, chain) && chain.ptr == p && Bag(chain, false) == multiset{p} && Bag(chain, true) == multiset{}
      && Shape(g.n, chain, h) && Leaves(chain) == [Down(g, p, h)]
  {
    ChainLaid(g, sizes, p, h);
    ChainStarts(g, sizes, p, h);
    ChainShape(g, p, h);
  }

  /** The new leaf is behind all others, and after its blocks in the new allocation. */
  lemma {:induction false} GrownLeaves(g: Geometry, t: Tree, levels: nat, i: nat, c: nat)
    requires Sound(g) && (levels > 0 ==> 0 < i <= levels && Shape(g.n, t, levels - 1)) && (levels == 0 ==> i == 0)
    ensures Leaves(Grown(g, t, levels, i, c)) == (if levels == 0 then [] else Leaves(t)) + [Ptr(c, Above(levels, i) * g.ptrs)]
  {
    hide Append, Shape;
    if levels == 0 {
      assert Plus(Ptr(c, 0), 0) == Ptr(c, 0);
    } else if i == levels {
      ChainShape(g, Ptr(c, g.ptrs), levels - 1);
      LeavesOfTwo(t, Ptr(c, 0), Chain(g, Ptr(c, g.ptrs), levels - 1));
      Times(levels - 1, g.ptrs);
    } else {
      ChainShape(g, Ptr(c, 0), i - 1);
      AppendLeaves(g.n, t, levels - 1, i, Chain(g, Ptr(c, 0), i - 1));
    }
  }

  /** What is asked for has room for the leaf if and only if nothing of the product is cut off. */
  lemma AskedEnough(g: Geometry, i: nat, levels: nat)
    requires g.ptrs < UINT && i <= levels
    ensures Above(levels, i) * g.ptrs + g.recordsInBlock * g.recbuffer <= ChunkLength(g, i) <==> LeafFits(g)
  {
    var product := g.recordsInBlock * g.recbuffer;
    ChunkLengthIs(g, i);
    CutOff(product);
    if i > 0 {
      Times(i - 1, g.ptrs);
    }
  }

  lemma CutOff(x: nat)
    ensures x < UINT ==> x % UINT == x
    ensures x >= UINT ==> x % UINT + UINT <= x
  {
  }

  /** A leaf hung in below level `i`. */
  lemma {:induction false} AppendLayout(g: Geometry, bases: seq<int>, sizes: seq<nat>, t: Tree, h: nat, i: nat, base: int)
    requires Sound(g) && LeafFits(g) && Shape(g.n, t, h) && 1 <= i <= h && Layout(g, bases, sizes, t)
    requires Unused(bases, sizes, base, ChunkLength(g, i))
    ensures Layout(g, bases + [base], sizes + [ChunkLength(g, i)], Append(g.n, t, h, i, Chain(g, Ptr(|sizes|, 0), i - 1)))
  {
    hide Laid, Starts, Append, Chain, Shape, Bag, LeavesFit, Disjoint, AllChunks;
    var length := ChunkLength(g, i);
    var p, more := Ptr(|sizes|, 0), sizes + [length];
    var chain := Chain(g, p, i - 1);
    ChunkLengthIs(g, i - 1);
    ChainFits(g, more, p, i - 1);
    AppendLaid(g, sizes, more, t, h, i, chain);
    AppendBag(g, sizes, t, h, i, chain, false);
    AppendLeaves(g.n, t, h, i, chain);
    AppendKids(g.n, t, h, i, chain);
    MoreLayout(g, bases, sizes, t, Append(g.n, t, h, i, chain), Down(g, p, i - 1), base, length);
  }

  /** A new top block, with the old tree and the new chain under it. */
  lemma {:induction false} ToppedLayout(g: Geometry, bases: seq<int>, sizes: seq<nat>, t: Tree, h: nat, base: int)
    requires Sound(g) && LeafFits(g) && Layout(g, bases, sizes, t)
    requires Unused(bases, sizes, base, ChunkLength(g, h + 1))
    ensures Layout(g, bases + [base], sizes + [ChunkLength(g, h + 1)], Node(Ptr(|sizes|, 0), [t, Chain(g, Ptr(|sizes|, g.ptrs), h)]))
  {
    hide Laid, Starts, Chain, Shape, Bag, LeavesFit, Disjoint, AllChunks, Leaves;
    var length := ChunkLength(g, h + 1);
    var p, q, more := Ptr(|sizes|, 0), Ptr(|sizes|, g.ptrs), sizes + [length];
    var chain := Chain(g, q, h);
    var t' := Node(p, [t, chain]);
    ChunkLengthIs(g, h);
    ChainFits(g, more, q, h);
    ToppedLaid(g, sizes, more, t, p, chain);
    ToppedBag(t, p, chain);
    LeavesOfTwo(t, p, chain);
    MoreLayout(g, bases, sizes, t, t', Down(g, q, h), base, length);
  }

  lemma {:induction false} LeavesOfTwo(t: Tree, p: Ptr, chain: Tree)
    ensures Leaves(Node(p, [t, chain])) == Leaves(t) + Leaves(chain)
  {
    LeavesOfMore([t], chain);
    LeavesOfOne(t);
    assert [t] + [chain] == [t, chain];
  }

  lemma {:induction false} ToppedBag(t: Tree, p: Ptr, chain: Tree)
    requires t.ptr.off == 0
    ensures Bag(Node(p, [t, chain]), false) == Bag(t, false) + Bag(chain, true) + multiset{p}
  {
    ToppedStarts(t, p, chain);
    hide Starts;
  }

  lemma DownNext(g: Geometry, p: Ptr, d: nat)
    ensures Plus(Down(g, p, d), g.ptrs) == Down(g, p, d + 1)
    ensures Down(g, p, d).chunk == p.chunk && Down(g, p, d).off >= p.off
  {
    Times(d, g.ptrs);
  }

  /** A further link of the chain leaves those before it alone. */
  lemma LinkAdded(g: Geometry, mem: Memory, p: Ptr, d: nat, q: Ptr, next: Ptr, more: Memory)
    requires Sound(g) && q == Down(g, p, d) && next == Down(g, p, d + 1) && forall e: nat | e < d :: LinksDown(g, mem, p, e)
    requires more == mem[Slot(q, 0) := next]
    ensures forall e: nat | e <= d :: LinksDown(g, more, p, e)
  {
    forall e: nat | e <= d ensures LinksDown(g, more, p, e) {
      if e < d {
        DownApart(g, p, e, d);
        assert LinksDown(g, mem, p, e);
      }
    }
  }

  /** Record `rest` of subtree `t` is number `inLeaf` in the leaf `leaf`. */
  ghost predicate Holds(g: Geometry, t: Tree, rest: nat, leaf: Ptr, inLeaf: nat) {
    && g.recordsInBlock > 0 && rest / g.recordsInBlock < |Leaves(t)|
    && Leaves(t)[rest / g.recordsInBlock] == leaf && rest % g.recordsInBlock == inLeaf
  }

  lemma RecordHeld(g: Geometry, t: Tree, pos: nat)
    requires g.recordsInBlock > 0 && pos < |Leaves(t)| * g.recordsInBlock
    ensures Holds(g, t, pos, LeafOf(g, Leaves(t), pos), InLeaf(g, pos))
    ensures RecordAt(g, Leaves(t), pos) == Plus(LeafOf(g, Leaves(t), pos), InLeaf(g, pos) * g.recbuffer)
  {
    InBlocks(pos, g.recordsInBlock, |Leaves(t)|);
  }

  /** The weights, cut off by `uint` one after the other. */
  lemma WeightNext(g: Geometry, i: nat, below: nat)
    requires i > 0 ==> below == RecordsUnder(g, i - 1) % UINT
    ensures (if i == 0 then 1 else if i == 1 then g.recordsInBlock else g.n * below) % UINT == RecordsUnder(g, i) % UINT
  {
    if i >= 2 {
      assert g.recordsInBlock * (g.n * Pow(g.n, i - 2)) == g.n * (g.recordsInBlock * Pow(g.n, i - 2));
      CutFactor(g.n, RecordsUnder(g, i - 1));
    }
  }

  lemma CutFactor(n: nat, x: nat)
    ensures n * (x % UINT) % UINT == n * x % UINT
  {
    var q, r := x / UINT, x % UINT;
    assert n * x == n * q * UINT + n * r;
    Divided(n * x, UINT, n * q + n * r / UINT, n * r % UINT);
  }

  lemma InBlocks(pos: nat, rib: nat, leaves: nat)
    requires rib > 0 && pos < leaves * rib
    ensures pos / rib < leaves
  {
    var k, r := pos / rib, pos % rib;
    assert pos == k * rib + r;
    if k >= leaves {
      AtMost(leaves, k, rib);
    }
  }

  lemma LeafLast(g: Geometry, rest: nat, t: Tree, leaf: Ptr, inLeaf: nat)
    requires t.Leaf? && Holds(g, t, rest, leaf, inLeaf)
    ensures rest == inLeaf && t.ptr == leaf
  {
  }

  /** One level down: the child with the record, and where in it. */
  lemma Descend(g: Geometry, t: Tree, h: nat, rest: nat, under: nat, k: nat, next: nat, leaf: Ptr, inLeaf: nat)
    requires Sound(g) && Shape(g.n, t, h) && h > 0 && under == RecordsUnder(g, h) > 0 && Holds(g, t, rest, leaf, inLeaf)
    requires k == rest / under && next == rest % under
    ensures k < |t.kids| && Holds(g, t.kids[k], next, leaf, inLeaf)
  {
    var rib, m := g.recordsInBlock, Pow(g.n, h - 1);
    PowPositive(g.n, h - 1);
    var block, r := Split(rest, rib, m, under, k, next);
    hide Shape, Leaves, Pow;
    Locate(g.n, t, h, k, r);
  }

  /** The two divisions of hp_find_block and those by leaf and by child. */
  lemma Split(rest: nat, rib: nat, m: nat, under: nat, k: nat, next: nat) returns (block: nat, r: nat)
    requires rib > 0 && m > 0 && under == rib * m > 0 && k == rest / under && next == rest % under
    ensures block == rest / rib == k * m + r && r < m
    ensures r == next / rib && next % rib == rest % rib
  {
    block := rest / rib;
    r := block % m;
    Digits(rest, rib, m, block / m, r);
  }

  lemma UnderPositive(g: Geometry, h: nat)
    requires Sound(g) && h > 0
    ensures RecordsUnder(g, h) > 0
  {
    PowPositive(g.n, h - 1);
  }

  lemma {:induction false} PowPositive(n: nat, h: nat)
    requires n > 0
    ensures Pow(n, h) > 0
  {
    if h > 0 {
      PowPositive(n, h - 1);
    }
  }

  lemma Digits(rest: nat, rib: nat, m: nat, k: nat, r: nat)
    requires rib > 0 && m > 0 && k == rest / rib / m && r == rest / rib % m
    ensures rib * m > 0 && k * m + r == rest / rib && r < m
    ensures rest / (rib * m) == k && rest % (rib * m) / rib == r && rest % (rib * m) % rib == rest % rib
  {
    var x := rest % rib;
    assert rest / rib == k * m + r && rest == (k * m + r) * rib + x;
    Regrouped(rib, m, k, r, x);
    Divided(rest, rib * m, k, r * rib + x);
    Divided(r * rib + x, rib, r, x);
  }

  lemma Regrouped(rib: nat, m: nat, k: nat, r: nat, x: nat)
    requires r < m && x < rib
    ensures (k * m + r) * rib + x == k * (rib * m) + (r * rib + x) && r * rib + x < rib * m
  {
    assert (k * m + r) * rib == k * (rib * m) + r * rib;
    AtMost(r + 1, m, rib);
    Times(r, rib);
  }

  // ---------------------------------------------------------------- the limits

  /** The tree only refuses to grow when it has all the leaves that its levels can hold. */
  lemma AllFullCapacity(b: Block)
    requires b.Valid() && b.AllFull()
    ensures |b.LeafList()| == Pow(b.g.n, HP_MAX_LEVELS)
  {
    var h: nat := b.levels - 1;
    FullBelow(b.g, b.levelInfo[..], b.mem, b.tree, h, h + 1, Ptr(|b.sizes|, 0));
    FullLeaves(b.g.n, b.tree, h);
  }

  lemma {:induction false} SomeLeaves(n: nat, t: Tree, h: nat)
    requires Shape(n, t, h)
    ensures |Leaves(t)| > 0
    decreases h
  {
    if h > 0 {
      SomeLeaves(n, t.kids[|t.kids| - 1], h - 1);
    }
  }

  lemma {:induction false} PowMore(n: nat, a: nat, b: nat)
    requires n > 0 && a <= b
    ensures Pow(n, a) <= Pow(n, b)
  {
    if a < b {
      PowMore(n, a, b - 1);
      AtMost(1, n, Pow(n, b - 1));
    }
  }

  /** How many leaves a tree of some height has. */
  lemma LeavesOfHeight(g: Geometry, t: Tree, h: nat)
    requires g.n >= 1 && Shape(g.n, t, h) && (h > 0 ==> |t.kids| >= 2)
    ensures |Leaves(t)| <= Pow(g.n, h) && (h > 0 ==> Pow(g.n, h - 1) < |Leaves(t)|)
  {
    ShapeLeaves(g.n, t, h);
    if h > 0 {
      var last := |t.kids| - 1;
      FullLeavesOf(g.n, t.kids[..last], h);
      SomeLeaves(g.n, t.kids[last], h - 1);
      AtMost(1, last, Pow(g.n, h - 1));
    }
  }

  lemma UnderMore(g: Geometry, i: nat, j: nat)
    requires Sound(g) && i <= j
    ensures RecordsUnder(g, i) <= RecordsUnder(g, j)
  {
    if j > 0 {
      PowPositive(g.n, j - 1);
      NonzeroMultiple(Pow(g.n, j - 1), g.recordsInBlock);
      if i > 0 {
        PowMore(g.n, i - 1, j - 1);
        AtMost(Pow(g.n, i - 1), Pow(g.n, j - 1), g.recordsInBlock);
      }
    }
  }

  /** The weights used are right up to N^k leaves, where `k` is the last level with a weight
      that fits `uint`, and not beyond. */
  lemma WeightsFitIff(b: Block, k: nat)
    requires b.Valid() && RecordsUnder(b.g, k) < UINT <= RecordsUnder(b.g, k + 1)
    ensures b.WeightsFit() <==> |b.LeafList()| <= Pow(b.g.n, k)
  {
    hide RecordsUnder, Pow, Layout;
    if b.levels > 0 {
      var h: nat := b.levels - 1;
      LeavesOfHeight(b.g, b.tree, h);
      if h <= k {
        PowMore(b.g.n, h, k);
        forall i: nat | i < b.levels ensures RecordsUnder(b.g, i) < UINT {
          UnderMore(b.g, i, k);
        }
      } else {
        PowMore(b.g.n, k, h - 1);
        UnderMore(b.g, k + 1, h);
      }
    }
  }

  lemma TopWeight(g: Geometry, h: nat, leaves: nat)
    requires Sound(g) && leaves * g.recordsInBlock <= UINT && (h > 0 ==> Pow(g.n, h - 1) < leaves)
    ensures RecordsUnder(g, h) < UINT
  {
    if h > 0 {
      AtMost(Pow(g.n, h - 1) + 1, leaves, g.recordsInBlock);
      Times(Pow(g.n, h - 1), g.recordsInBlock);
    }
  }

  /** They are right as long as the positions are numbers of `uint`. */
  lemma WeightsFitPositions(b: Block)
    requires b.Valid() && |b.LeafList()| * b.g.recordsInBlock <= UINT
    ensures b.WeightsFit()
  {
    hide Pow, Layout, Leaves, Shape;
    if b.levels > 0 {
      var h: nat := b.levels - 1;
      LeavesOfHeight(b.g, b.tree, h);
      TopWeight(b.g, h, |b.LeafList()|);
      hide RecordsUnder;
      forall i: nat | i < b.levels ensures RecordsUnder(b.g, i) < UINT {
        UnderMore(b.g, i, h);
      }
    }
  }

  // ---------------------------------------------------------------- one record in a block

  /** A table with records of 4112 bytes under the smallest read buffer, on a 64-bit machine. */
  function LongRecords(): Limits {
    Limits(128, 8, 4112, 0, 0, 8200)
  }

  lemma LongRecordsAlone()
    ensures Usable(LongRecords()) && Chosen(LongRecords()) == Geometry(128, 1024, 1, 4112)
  {
    var l := LongRecords();
    assert RecBuffer(l) == 4112 && Wanted(l) == 100;
    OneRecordIff(l);
  }

  /** A tree of three blocks of one record each. */
  function TightTree(): Tree {
    Node(Ptr(1, 0), [Leaf(Ptr(0, 0)), Leaf(Ptr(1, 1024)), Leaf(Ptr(2, 0))])
  }

  /** The third allocation right behind the second. */
  lemma TightUnclean(g: Geometry, bases: seq<int>)
    requires g == Geometry(128, 1024, 1, 4112) && bases == [100000, 200000, 205136]
    ensures !Clean(g, bases, TightTree())
  {
    var t := TightTree();
    assert Inline(t) == 1 && |t.kids| == 3;
    assert At(bases, t.kids[2].ptr) == At(bases, End(g, t.kids[1]));
  }

  lemma OneOnTop(g: Geometry, t: Tree)
    ensures Grown(g, t, 0, 0, 0) == Leaf(Ptr(0, 0))
    ensures Grown(g, Leaf(Ptr(0, 0)), 1, 1, 1) == Node(Ptr(1, 0), [Leaf(Ptr(0, 0)), Leaf(Ptr(1, g.ptrs))])
  {
  }

  lemma OneBelow(g: Geometry)
    requires g == Geometry(128, 1024, 1, 4112)
    ensures var t := Node(Ptr(1, 0), [Leaf(Ptr(0, 0)), Leaf(Ptr(1, 1024))]);
      Shape(128, t, 1) && Grown(g, t, 2, 1, 2) == TightTree()
  {
    var t := Node(Ptr(1, 0), [Leaf(Ptr(0, 0)), Leaf(Ptr(1, 1024))]);
    assert Full(128, t.kids[0], 0) && Shape(128, t.kids[1], 0);
    assert Shape(128, t, 1);
    assert t.kids + [Leaf(Ptr(2, 0))] == TightTree().kids;
  }

  lemma PlacesUnused()
    ensures Unused([], [], 100000, 4112)
    ensures Unused([100000], [4112], 200000, 5136)
    ensures Unused([100000, 200000], [4112, 5136], 205136, 5136)
  {
  }

  /** Where the next block goes, and how much is asked for, up to two levels. */
  lemma NextPlace(b: Block)
    requires b.Valid() && b.levels <= 2 && (b.levels == 2 ==> b.tree.Node? && |b.tree.kids| < b.g.n)
    ensures !b.AllFull() && OpenLevel(b.levelInfo[..], b.levels, 0) == if b.levels == 0 then 0 else 1
    ensures b.AllocLength() == b.g.recordsInBlock * b.g.recbuffer % UINT + if b.levels == 0 then 0 else b.g.ptrs
  {
    var info := b.levelInfo[..];
    ChunkLengthIs(b.g, 0);
    ChunkLengthIs(b.g, 1);
    assert b.levels > 0 ==> OpenLevel(info, b.levels, 0) == OpenLevel(info, b.levels, 1);
    if b.levels == 2 {
      assert LevelOk(b.g.n, info[1], b.mem, b.tree, 1, 1);
    }
    hide Kept, Layout, ChunkLength;
  }

  /** With one record in a block the release can go wrong: here the third block begins where the
      record of the second ends, so it is taken for its continuation and not freed. */
  method OneRecordLeaks() returns (freed: seq<Ptr>)
    ensures multiset(freed) < multiset(AllChunks(3))
  {
    LongRecordsAlone();
    hide Unused, Kept, Layout, RecordsUnder, Leaves, Clean, AllChunks, Chosen, Grown, OpenLevel, ChunkLength;
    PlacesUnused();
    var b := new Block(LongRecords());
    NextPlace(b);
    OneOnTop(b.g, b.tree);
    var length := b.GetNewBlock(100000);
    assert b.levels == 1 && b.tree == Leaf(Ptr(0, 0)) && b.bases == [100000] && b.sizes == [4112];
    NextPlace(b);
    OneBelow(b.g);
    length := b.GetNewBlock(200000);
    assert b.levels == 2 && b.bases == [100000, 200000] && b.sizes == [4112, 5136];
    NextPlace(b);
    length := b.GetNewBlock(205136);
    assert b.tree == TightTree() && b.bases == [100000, 200000, 205136];
    TightUnclean(b.g, b.bases);
    freed := b.Clear();
  }

  // ---------------------------------------------------------------- a product that is cut off

  /** A quarter of a billion records of 16 bytes are wanted in a block, on a 64-bit machine. */
  function ManyRecords(): Limits {
    Limits(128, 8, 16, 2684354560, 0, 131072)
  }

  lemma ManyRecordsCutOff()
    ensures Usable(ManyRecords()) && !TooMuch(ManyRecords())
    ensures Chosen(ManyRecords()) == Geometry(128, 1024, 268435456, 16) && !LeafFits(Chosen(ManyRecords()))
  {
    assert RecBuffer(ManyRecords()) == 16 && Wanted(ManyRecords()) == 268435456;
  }

  lemma TwoLeaves()
    ensures Leaves(Node(Ptr(1, 0), [Leaf(Ptr(0, 0)), Leaf(Ptr(1, 1024))])) == [Ptr(0, 0), Ptr(1, 1024)]
  {
    LeavesOfTwo(Leaf(Ptr(0, 0)), Ptr(1, 0), Leaf(Ptr(1, 1024)));
  }

  /** The second allocation is 16 bytes behind the first: record 65 of the first leaf is where the
      second leaf begins behind its block of pointers. */
  lemma RecordOverLeaf(g: Geometry, bases: seq<int>, leaves: seq<Ptr>)
    requires g == Geometry(128, 1024, 268435456, 16) && bases == [100000, 100016]
    requires |leaves| == 2 && leaves[0] == Ptr(0, 0) && leaves[1] == Ptr(1, 1024)
    ensures At(bases, RecordAt(g, leaves, 65)) == At(bases, RecordAt(g, leaves, 268435456)) == 101040
  {
    assert LeafOf(g, leaves, 65) == leaves[0] && LeafOf(g, leaves, 268435456) == leaves[1];
    assert InLeaf(g, 65) == 65 && InLeaf(g, 268435456) == 0;
  }

  /** The first leaf is asked for with no bytes at all; so a record of it may have the address of
      the first record of the second leaf. */
  method RecordsMeet() returns (b: Block, p: nat, q: nat)
    ensures b.Valid() && b.g == Chosen(ManyRecords()) && Disjoint(b.bases, b.sizes)
    ensures p < q < |b.LeafList()| * b.g.recordsInBlock
    ensures At(b.bases, RecordAt(b.g, b.LeafList(), p)) == At(b.bases, RecordAt(b.g, b.LeafList(), q))
  {
    ManyRecordsCutOff();
    hide Kept, Layout, RecordsUnder, Leaves, AllChunks, Chosen, Grown, OpenLevel, ChunkLength;
    b := new Block(ManyRecords());
    NextPlace(b);
    OneOnTop(b.g, b.tree);
    var length := b.GetNewBlock(100000);
    assert b.levels == 1 && b.tree == Leaf(Ptr(0, 0)) && b.bases == [100000] && b.sizes == [0];
    NextPlace(b);
    length := b.GetNewBlock(100016);
    assert b.bases == [100000, 100016] && b.sizes == [0, 1024];
    TwoLeaves();
    RecordOverLeaf(b.g, b.bases, b.LeafList());
    p, q := 65, 268435456;
  }
}
