/** level_info of a HP_BLOCK: the last block on each level and its free pointers. */
module BlockLevels {
  import opened BlockTree

  /** struct st_level_info. */
  datatype LevelInfo = LevelInfo(freePtrs: nat, recordsUnder: nat, last: Ptr)

  /** `d` blocks behind `p`. */
  function Down(g: Geometry, p: Ptr, d: nat): Ptr {
    Plus(p, d * g.ptrs)
  }

  /** Level `j` of the tree is as level_info says; the free pointers were never written. */
  ghost predicate LevelOk(n: nat, info: LevelInfo, mem: Memory, t: Tree, h: nat, j: nat)
    requires Shape(n, t, h) && j <= h
  {
    var last := LastAt(n, t, h, j);
    && info.last == last.ptr
    && info.freePtrs == (if j == 0 then 0 else n - |last.kids|)
    && (j > 0 ==> forall k | k >= |last.kids| :: Slot(last.ptr, k) !in mem)
  }

  ghost predicate LastsApart(info: seq<LevelInfo>, h: nat) {
    h < |info| && forall i, j | 0 <= i < j <= h :: info[i].last != info[j].last
  }

  /** Allocated earlier, or before `p` in the same allocation. */
  predicate Earlier(q: Ptr, p: Ptr) {
    q.chunk < p.chunk || (q.chunk == p.chunk && q.off < p.off)
  }

  ghost predicate Older(mem: Memory, p: Ptr) {
    forall s | s in mem :: Earlier(s.node, p)
  }

  /** The tree, its memory and level_info belong together; all of it is earlier than `p`. */
  ghost predicate Kept(g: Geometry, info: seq<LevelInfo>, mem: Memory, t: Tree, h: nat, p: Ptr) {
    && Sound(g) && h < |info|
    && Shape(g.n, t, h) && Stored(mem, t)
    && (forall j: nat | j <= h :: LevelOk(g.n, info[j], mem, t, h, j))
    && LastsApart(info, h) && Older(mem, p)
    && forall j | 0 <= j <= h :: Earlier(info[j].last, p)
  }

  // ---------------------------------------------------------------- a chain of new blocks

  lemma DownDown(g: Geometry, p: Ptr, a: nat, b: nat)
    ensures Down(g, Down(g, p, a), b) == Down(g, p, a + b)
  {
    assert a * g.ptrs + b * g.ptrs == (a + b) * g.ptrs;
  }

  lemma DownOne(g: Geometry, p: Ptr)
    ensures Down(g, p, 0) == p && Down(g, p, 1) == Plus(p, g.ptrs)
  {
  }

  lemma DownApart(g: Geometry, p: Ptr, a: nat, b: nat)
    requires Sound(g) && a < b
    ensures Down(g, p, a) != Down(g, p, b)
  {
    AtMost(a + 1, b, g.ptrs);
    Times(a, g.ptrs);
  }

  lemma {:induction false} ChainLast(g: Geometry, p: Ptr, h: nat, j: nat)
    requires Sound(g) && j <= h && Shape(g.n, Chain(g, p, h), h)
    ensures LastAt(g.n, Chain(g, p, h), h, j) == Chain(g, Down(g, p, h - j), j)
    decreases h
  {
    DownOne(g, p);
    if j < h {
      var q := Plus(p, g.ptrs);
      ChainShape(g, q, h - 1);
      ChainLast(g, q, h - 1, j);
      DownDown(g, p, 1, h - 1 - j);
      assert Chain(g, p, h).kids == [Chain(g, q, h - 1)];
    }
  }

  ghost predicate LinksDown(g: Geometry, mem: Memory, p: Ptr, d: nat) {
    Slot(Down(g, p, d), 0) in mem && mem[Slot(Down(g, p, d), 0)] == Down(g, p, d + 1)
  }

  lemma {:induction false} ChainStored(g: Geometry, mem: Memory, p: Ptr, h: nat)
    requires forall d: nat | d < h :: LinksDown(g, mem, p, d)
    ensures Stored(mem, Chain(g, p, h)) && Chain(g, p, h).ptr == p
    decreases h
  {
    if h > 0 {
      var q := Plus(p, g.ptrs);
      DownOne(g, p);
      forall d: nat | d < h - 1 ensures LinksDown(g, mem, q, d) {
        assert LinksDown(g, mem, p, d + 1);
        DownDown(g, p, 1, d);
        DownDown(g, p, 1, d + 1);
      }
      assert LinksDown(g, mem, p, 0);
      ChainStored(g, mem, q, h - 1);
      assert Chain(g, p, h).kids == [Chain(g, q, h - 1)];
    }
  }

  // ---------------------------------------------------------------- occupying a free pointer

  /** What hp_get_new_block writes below level `i`, whose last block takes the new chain `p`. */
  ghost predicate Occupied(g: Geometry, info: seq<LevelInfo>, mem: Memory, i: nat, p: Ptr, info': seq<LevelInfo>, mem': Memory)
    requires i < |info| && 0 < info[i].freePtrs <= g.n
  {
    && |info'| == |info|
    && info'[i] == info[i].(freePtrs := info[i].freePtrs - 1)
    && (forall j | i < j < |info| :: info'[j] == info[j])
    && (forall j: nat | j < i :: info'[j] == LevelInfo(if j == 0 then 0 else g.n - 1, info[j].recordsUnder, Down(g, p, i - 1 - j)))
    && Extends(mem, mem')
    && (var slot := Slot(info[i].last, g.n - info[i].freePtrs);
        && slot in mem' && mem'[slot] == p
        && forall s | s in mem' :: s in mem || s == slot || (s.node.chunk == p.chunk && s.node.off >= p.off && s.index == 0))
    && forall d: nat | d < i - 1 :: LinksDown(g, mem', p, d)
  }

  /** The lowest level with a free pointer. */
  ghost predicate LowestFree(info: seq<LevelInfo>, i: nat) {
    i < |info| && info[i].freePtrs > 0 && forall j | 0 <= j < i :: info[j].freePtrs == 0
  }

  lemma FullBelow(g: Geometry, info: seq<LevelInfo>, mem: Memory, t: Tree, h: nat, i: nat, p: Ptr)
    requires Kept(g, info, mem, t, h, p) && i <= h + 1 && i > 0 && forall j | 0 <= j < i :: info[j].freePtrs == 0
    ensures Full(g.n, LastAt(g.n, t, h, i - 1), i - 1)
  {
    var below: nat := i - 1;
    var last := LastAt(g.n, t, h, below);
    forall j: nat | j <= below ensures NoneFree(g.n, last, below, j) {
      assert LevelOk(g.n, info[j], mem, t, h, j);
      LastOfLast(g.n, t, h, below, j);
    }
    NoneFreeIsFull(g.n, last, below);
  }

  lemma OccupiedShape(g: Geometry, info: seq<LevelInfo>, mem: Memory, t: Tree, h: nat, i: nat, p: Ptr, mem': Memory, info': seq<LevelInfo>)
    requires Kept(g, info, mem, t, h, p) && 1 <= i <= h && LowestFree(info, i) && info[i].freePtrs <= g.n
    requires Occupied(g, info, mem, i, p, info', mem')
    ensures var chain := Chain(g, p, i - 1); var t' := Append(g.n, t, h, i, chain);
      && Shape(g.n, chain, i - 1) && Shape(g.n, t', h) && t'.ptr == t.ptr && Stored(mem', t')
      && Leaves(t') == Leaves(t) + [Down(g, p, i - 1)]
  {
    var chain := Chain(g, p, i - 1);
    assert LevelOk(g.n, info[i], mem, t, h, i);
    FullBelow(g, info, mem, t, h, i, p);
    OccupiedMemory(g, info, mem, i, p, info', mem', t);
    hide Kept, Occupied, LowestFree, LevelOk, Chain, Shape, Append, Leaves, Full;
    ChainShape(g, p, i - 1);
    AppendShape(g.n, t, h, i, chain);
    AppendLeaves(g.n, t, h, i, chain);
    AppendStored(mem', g.n, t, h, i, chain);
  }

  lemma OccupiedMemory(g: Geometry, info: seq<LevelInfo>, mem: Memory, i: nat, p: Ptr, info': seq<LevelInfo>, mem': Memory, t: Tree)
    requires 1 <= i < |info| && 0 < info[i].freePtrs <= g.n && Occupied(g, info, mem, i, p, info', mem') && Stored(mem, t)
    ensures Stored(mem', t) && Stored(mem', Chain(g, p, i - 1))
    ensures var slot := Slot(info[i].last, g.n - info[i].freePtrs); slot in mem' && mem'[slot] == p
  {
    StoredMore(mem, mem', t);
    ChainStored(g, mem', p, i - 1);
  }

  /** LevelOk in terms of the last block. */
  ghost predicate LastOk(n: nat, info: LevelInfo, mem: Memory, ptr: Ptr, count: nat, j: nat) {
    && info.last == ptr
    && info.freePtrs == (if j == 0 then 0 else n - count)
    && (j > 0 ==> forall k | k >= count :: Slot(ptr, k) !in mem)
  }

  lemma BelowOk(g: Geometry, info: seq<LevelInfo>, mem: Memory, i: nat, p: Ptr, info': seq<LevelInfo>, mem': Memory, j: nat)
    requires i < |info| && 0 < info[i].freePtrs <= g.n && Older(mem, p) && j < i && Earlier(info[i].last, p)
    requires Occupied(g, info, mem, i, p, info', mem')
    ensures LastOk(g.n, info'[j], mem', Down(g, p, i - 1 - j), 1, j)
  {
    var q := Down(g, p, i - 1 - j);
    assert q.chunk == p.chunk && q.off >= p.off;
    hide LinksDown, Extends, Down;
  }

  lemma AboveOk(g: Geometry, info: seq<LevelInfo>, mem: Memory, i: nat, p: Ptr, info': seq<LevelInfo>, mem': Memory, count: nat, j: nat)
    requires i < |info| && 0 < info[i].freePtrs <= g.n && Older(mem, p) && 0 < i <= j < |info| && Earlier(info[j].last, p)
    requires Occupied(g, info, mem, i, p, info', mem') && (j > i ==> info[j].last != info[i].last)
    requires LastOk(g.n, info[j], mem, info[j].last, count, j) && count <= g.n
    ensures LastOk(g.n, info'[j], mem', info[j].last, count + if j == i then 1 else 0, j)
  {
    hide LinksDown, Extends;
  }

  lemma OccupiedLevel(g: Geometry, info: seq<LevelInfo>, mem: Memory, t: Tree, h: nat, i: nat, p: Ptr, info': seq<LevelInfo>, mem': Memory, j: nat)
    requires Kept(g, info, mem, t, h, p) && 1 <= i <= h && 0 < info[i].freePtrs <= g.n
    requires Occupied(g, info, mem, i, p, info', mem') && j <= h && |info'| == |info|
    requires Shape(g.n, Chain(g, p, i - 1), i - 1) && Shape(g.n, Append(g.n, t, h, i, Chain(g, p, i - 1)), h)
    ensures LevelOk(g.n, info'[j], mem', Append(g.n, t, h, i, Chain(g, p, i - 1)), h, j)
  {
    hide Occupied, Older, Stored, Append, Chain, Shape, LastOk;
    var chain, last := Chain(g, p, i - 1), LastAt(g.n, Append(g.n, t, h, i, Chain(g, p, i - 1)), h, j);
    AppendLast(g.n, t, h, i, chain, j);
    if j < i {
      ChainLast(g, p, i - 1, j);
      BelowOk(g, info, mem, i, p, info', mem', j);
      ChainIsLastOk(g, info'[j], mem', Down(g, p, i - 1 - j), j);
      SameLast(g.n, info'[j], mem', last, j);
    } else {
      LevelIsLastOk(g.n, info[j], mem, t, h, j);
      AboveOk(g, info, mem, i, p, info', mem', |LastAt(g.n, t, h, j).kids|, j);
      SameLast(g.n, info'[j], mem', last, j);
    }
  }

  lemma LevelIsLastOk(n: nat, info: LevelInfo, mem: Memory, t: Tree, h: nat, j: nat)
    requires Shape(n, t, h) && 0 < j <= h && LevelOk(n, info, mem, t, h, j)
    ensures var last := LastAt(n, t, h, j); last.Node? && |last.kids| <= n && LastOk(n, info, mem, info.last, |last.kids|, j)
  {
  }

  lemma ChainIsLastOk(g: Geometry, info: LevelInfo, mem: Memory, p: Ptr, j: nat)
    requires LastOk(g.n, info, mem, p, 1, j)
    ensures Chain(g, p, j).ptr == p && LastOk(g.n, info, mem, p, if j > 0 then |Chain(g, p, j).kids| else 0, j)
  {
  }

  lemma SameLast(n: nat, info: LevelInfo, mem: Memory, last: Tree, j: nat)
    requires Shape(n, last, j) && LastOk(n, info, mem, last.ptr, if j > 0 then |last.kids| else 0, j)
    ensures info.last == last.ptr && info.freePtrs == (if j == 0 then 0 else n - |last.kids|)
    ensures j > 0 ==> forall k | k >= |last.kids| :: Slot(last.ptr, k) !in mem
  {
  }

  /** Each last block is the old one or a new one of the chain. */
  lemma OccupiedLast(g: Geometry, info: seq<LevelInfo>, mem: Memory, i: nat, p: Ptr, info': seq<LevelInfo>, mem': Memory, j: nat)
    requires i < |info| && 0 < info[i].freePtrs <= g.n && j < |info| && Occupied(g, info, mem, i, p, info', mem')
    ensures |info'| == |info| && info'[j].last == if j < i then Down(g, p, i - 1 - j) else info[j].last
  {
  }

  lemma OccupiedApart(g: Geometry, info: seq<LevelInfo>, mem: Memory, h: nat, i: nat, p: Ptr, info': seq<LevelInfo>, mem': Memory)
    requires Sound(g) && i < |info| == |info'| && 0 < info[i].freePtrs <= g.n && Occupied(g, info, mem, i, p, info', mem')
    requires LastsApart(info, h) && forall j | 0 <= j <= h :: Earlier(info[j].last, p)
    ensures LastsApart(info', h) && forall j | 0 <= j <= h :: Earlier(info'[j].last, Ptr(p.chunk + 1, 0))
  {
    hide Occupied;
    forall j | 0 <= j <= h ensures Earlier(info'[j].last, Ptr(p.chunk + 1, 0)) {
      OccupiedLast(g, info, mem, i, p, info', mem', j);
    }
    forall a: nat, b: nat | a < b <= h ensures info'[a].last != info'[b].last {
      TwoApart(g, info, mem, h, i, p, info', mem', a, b);
    }
  }

  lemma TwoApart(g: Geometry, info: seq<LevelInfo>, mem: Memory, h: nat, i: nat, p: Ptr, info': seq<LevelInfo>, mem': Memory, a: nat, b: nat)
    requires Sound(g) && i < |info| == |info'| && 0 < info[i].freePtrs <= g.n && Occupied(g, info, mem, i, p, info', mem')
    requires LastsApart(info, h) && (forall j | 0 <= j <= h :: Earlier(info[j].last, p)) && a < b <= h
    ensures info'[a].last != info'[b].last
  {
    hide Occupied;
    OccupiedLast(g, info, mem, i, p, info', mem', a);
    OccupiedLast(g, info, mem, i, p, info', mem', b);
    if b < i {
      DownApart(g, p, i - 1 - b, i - 1 - a);
    } else if a < i {
      DownLater(g, p, i - 1 - a, info[b].last);
    }
    hide Down;
  }

  /** What is earlier than `p` is not in the chain. */
  lemma DownLater(g: Geometry, p: Ptr, a: nat, q: Ptr)
    requires Earlier(q, p)
    ensures Down(g, p, a) != q
  {
    AtMost(0, a, g.ptrs);
  }

  lemma OccupiedOlder(g: Geometry, info: seq<LevelInfo>, mem: Memory, i: nat, p: Ptr, info': seq<LevelInfo>, mem': Memory)
    requires i < |info| && 0 < info[i].freePtrs <= g.n && Occupied(g, info, mem, i, p, info', mem')
    requires Older(mem, p) && Earlier(info[i].last, p)
    ensures Older(mem', Ptr(p.chunk + 1, 0))
  {
    hide LinksDown, Extends, Down;
  }

  /** After the new leaf has been hung in, everything still belongs together. */
  lemma OccupiedKept(g: Geometry, info: seq<LevelInfo>, mem: Memory, t: Tree, h: nat, i: nat, p: Ptr, info': seq<LevelInfo>, mem': Memory)
    requires Kept(g, info, mem, t, h, p) && 1 <= i <= h && LowestFree(info, i) && info[i].freePtrs <= g.n
    requires Occupied(g, info, mem, i, p, info', mem')
    ensures Shape(g.n, Chain(g, p, i - 1), i - 1)
    ensures Kept(g, info', mem', Append(g.n, t, h, i, Chain(g, p, i - 1)), h, Ptr(p.chunk + 1, 0))
  {
    OccupiedShape(g, info, mem, t, h, i, p, mem', info');
    OccupiedApart(g, info, mem, h, i, p, info', mem');
    OccupiedOlder(g, info, mem, i, p, info', mem');
    forall j: nat | j <= h ensures LevelOk(g.n, info'[j], mem', Append(g.n, t, h, i, Chain(g, p, i - 1)), h, j) {
      OccupiedLevel(g, info, mem, t, h, i, p, info', mem', j);
    }
    hide Occupied, LevelOk, Shape, Stored, LastsApart, Older;
  }

  // ---------------------------------------------------------------- a new top level

  /** The whole tree becomes the first child of a new top block `p`, on the level above `h`. */
  lemma ToppedKept(g: Geometry, info: seq<LevelInfo>, mem: Memory, t: Tree, h: nat, p: Ptr, info': seq<LevelInfo>, mem': Memory)
    requires Kept(g, info, mem, t, h, p) && h + 1 < |info| && forall j | 0 <= j <= h :: info[j].freePtrs == 0
    requires info' == info[h + 1 := LevelInfo(g.n - 1, info[h + 1].recordsUnder, p)] && mem' == mem[Slot(p, 0) := t.ptr]
    ensures Kept(g, info', mem', Node(p, [t]), h + 1, Plus(p, g.ptrs))
  {
    var top, h' := Node(p, [t]), h + 1;
    FullBelow(g, info, mem, t, h, h', p);
    StoredMore(mem, mem', t);
    assert Slot(p, 0) !in mem && Full(g.n, t, h);
    assert Shape(g.n, top, h') && Stored(mem', top);
    forall j: nat | j <= h' ensures LevelOk(g.n, info'[j], mem', top, h', j) {
      if j <= h {
        assert LevelOk(g.n, info[j], mem, t, h, j);
        assert LastAt(g.n, top, h', j) == LastAt(g.n, t, h, j);
      }
    }
  }
}
