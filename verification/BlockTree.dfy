/**
 The tree of record blocks of heap/hp_block.c as a value.  A pointer is an allocation and an
 offset into it: one allocation may hold several nodes and a leaf.
 */
module BlockTree {
  datatype Ptr = Ptr(chunk: nat, off: nat)

  function Plus(p: Ptr, n: nat): Ptr {
    Ptr(p.chunk, p.off + n)
  }

  /** HP_PTRS_IN_NOD, sizeof(HP_PTRS), records_in_block, recbuffer. */
  datatype Geometry = Geometry(n: nat, ptrs: nat, recordsInBlock: nat, recbuffer: nat)

  predicate Sound(g: Geometry) {
    g.n >= 2 && g.ptrs > 0 && g.recordsInBlock > 0 && g.recbuffer > 0
  }

  datatype Tree = Leaf(ptr: Ptr) | Node(ptr: Ptr, kids: seq<Tree>)

  function Leaves(t: Tree): seq<Ptr> {
    match t
    case Leaf(p) => [p]
    case Node(_, kids) => LeavesOf(kids)
  }

  function LeavesOf(kids: seq<Tree>): seq<Ptr> {
    if kids == [] then [] else LeavesOf(kids[..|kids| - 1]) + Leaves(kids[|kids| - 1])
  }

  /** All blocks above the leaves have `n` children. */
  predicate Full(n: nat, t: Tree, h: nat)
    decreases h
  {
    if h == 0 then t.Leaf? else t.Node? && |t.kids| == n && forall k | 0 <= k < n :: Full(n, t.kids[k], h - 1)
  }

  /** All leaves at depth `h`, all blocks full but for the last one on each level. */
  predicate Shape(n: nat, t: Tree, h: nat)
    decreases h
  {
    if h == 0 then t.Leaf?
    else
      && t.Node? && 1 <= |t.kids| <= n
      && (forall k | 0 <= k < |t.kids| - 1 :: Full(n, t.kids[k], h - 1))
      && Shape(n, t.kids[|t.kids| - 1], h - 1)
  }

  /** The last block on level `i`. */
  function LastAt(n: nat, t: Tree, h: nat, i: nat): (last: Tree)
    requires Shape(n, t, h) && i <= h
    ensures Shape(n, last, i)
    decreases h
  {
    if i == h then t else LastAt(n, t.kids[|t.kids| - 1], h - 1, i)
  }

  /** `sub` as a new child of the last block on level `i`. */
  function Append(n: nat, t: Tree, h: nat, i: nat, sub: Tree): Tree
    requires Shape(n, t, h) && 1 <= i <= h
    decreases h
  {
    if i == h then Node(t.ptr, t.kids + [sub])
    else
      var last := |t.kids| - 1;
      Node(t.ptr, t.kids[..last] + [Append(n, t.kids[last], h - 1, i, sub)])
  }

  /** Blocks with one child each, down to a leaf, one behind the other in memory. */
  function Chain(g: Geometry, p: Ptr, h: nat): Tree
    decreases h
  {
    if h == 0 then Leaf(p) else Node(p, [Chain(g, Plus(p, g.ptrs), h - 1)])
  }

  function Pow(n: nat, h: nat): nat {
    if h == 0 then 1 else n * Pow(n, h - 1)
  }

  // ---------------------------------------------------------------- shape

  lemma {:induction false} FullIsShape(n: nat, t: Tree, h: nat)
    requires n >= 1 && Full(n, t, h)
    ensures Shape(n, t, h)
    decreases h
  {
    if h > 0 {
      FullIsShape(n, t.kids[n - 1], h - 1);
    }
  }

  /** The last block on level `j` has no free pointer. */
  predicate NoneFree(n: nat, t: Tree, h: nat, j: nat)
    requires Shape(n, t, h) && j <= h
  {
    j > 0 ==> |LastAt(n, t, h, j).kids| == n
  }

  /** Nothing is free below level `i`: the last block there is full with all under it. */
  lemma {:induction false} NoneFreeIsFull(n: nat, t: Tree, h: nat)
    requires Shape(n, t, h) && forall j: nat | j <= h :: NoneFree(n, t, h, j)
    ensures Full(n, t, h)
    decreases h
  {
    if h > 0 {
      var last, h' := t.kids[|t.kids| - 1], h - 1;
      assert NoneFree(n, t, h, h);
      forall j: nat | j <= h' ensures NoneFree(n, last, h', j) {
        assert NoneFree(n, t, h, j);
      }
      NoneFreeIsFull(n, last, h');
    }
  }

  lemma {:induction false} LastOfLast(n: nat, t: Tree, h: nat, i: nat, j: nat)
    requires Shape(n, t, h) && j <= i <= h
    ensures LastAt(n, LastAt(n, t, h, i), i, j) == LastAt(n, t, h, j)
    decreases h
  {
    if i < h {
      LastOfLast(n, t.kids[|t.kids| - 1], h - 1, i, j);
    }
  }

  lemma {:induction false} ChainShape(g: Geometry, p: Ptr, h: nat)
    requires Sound(g)
    ensures Shape(g.n, Chain(g, p, h), h) && Chain(g, p, h).ptr == p
    ensures Leaves(Chain(g, p, h)) == [Plus(p, h * g.ptrs)]
    decreases h
  {
    if h > 0 {
      var q := Plus(p, g.ptrs);
      ChainShape(g, q, h - 1);
      LeavesOfOne(Chain(g, q, h - 1));
      assert Plus(q, (h - 1) * g.ptrs) == Plus(p, h * g.ptrs);
    }
  }

  lemma LeavesOfOne(t: Tree)
    ensures LeavesOf([t]) == Leaves(t)
  {
    assert [t][..0] == [];
  }

  lemma LeavesOfMore(kids: seq<Tree>, t: Tree)
    ensures LeavesOf(kids + [t]) == LeavesOf(kids) + Leaves(t)
  {
    assert (kids + [t])[..|kids|] == kids;
  }

  /** Appending keeps the shape ... */
  lemma {:induction false} AppendShape(n: nat, t: Tree, h: nat, i: nat, sub: Tree)
    requires Shape(n, t, h) && 1 <= i <= h && Shape(n, sub, i - 1)
    requires |LastAt(n, t, h, i).kids| < n && Full(n, LastAt(n, t, h, i - 1), i - 1)
    ensures Shape(n, Append(n, t, h, i, sub), h) && Append(n, t, h, i, sub).ptr == t.ptr
    decreases h
  {
    hide Full;
    var last, h' := |t.kids| - 1, h - 1;
    if i == h {
      assert LastAt(n, t, h, i - 1) == LastAt(n, t.kids[last], h', i - 1) == t.kids[last];
    } else {
      AppendShape(n, t.kids[last], h', i, sub);
    }
  }

  /** ... and puts the new leaves behind all others. */
  lemma {:induction false} AppendLeaves(n: nat, t: Tree, h: nat, i: nat, sub: Tree)
    requires Shape(n, t, h) && 1 <= i <= h
    ensures Leaves(Append(n, t, h, i, sub)) == Leaves(t) + Leaves(sub)
    decreases h
  {
    hide Full;
    var last := |t.kids| - 1;
    if i == h {
      LeavesOfMore(t.kids, sub);
    } else {
      AppendLeaves(n, t.kids[last], h - 1, i, sub);
      LeavesOfMore(t.kids[..last], Append(n, t.kids[last], h - 1, i, sub));
      LeavesOfMore(t.kids[..last], t.kids[last]);
      assert t.kids[..last] + [t.kids[last]] == t.kids;
    }
  }

  /** Where the last blocks are afterwards. */
  lemma {:induction false} AppendLast(n: nat, t: Tree, h: nat, i: nat, sub: Tree, j: nat)
    requires Shape(n, t, h) && 1 <= i <= h && Shape(n, sub, i - 1) && j <= h
    requires Shape(n, Append(n, t, h, i, sub), h)
    ensures var last, was := LastAt(n, Append(n, t, h, i, sub), h, j), LastAt(n, t, h, j);
      && (j < i ==> last == LastAt(n, sub, i - 1, j))
      && (j >= i ==> last.ptr == was.ptr && last.Node? && was.Node? && |last.kids| == |was.kids| + if j == i then 1 else 0)
    decreases h
  {
    var t' := Append(n, t, h, i, sub);
    if i == h {
      if j < h {
        assert LastAt(n, t', h, j) == LastAt(n, sub, h - 1, j);
      }
    } else if j < h {
      AppendLast(n, t.kids[|t.kids| - 1], h - 1, i, sub, j);
    }
  }

  // ---------------------------------------------------------------- looking up

  lemma {:induction false} FullLeaves(n: nat, t: Tree, h: nat)
    requires Full(n, t, h)
    ensures |Leaves(t)| == Pow(n, h)
    decreases h, n + 1
  {
    if h > 0 {
      FullLeavesOf(n, t.kids, h);
    }
  }

  lemma {:induction false} FullLeavesOf(n: nat, kids: seq<Tree>, h: nat)
    requires h > 0 && |kids| <= n && forall k | 0 <= k < |kids| :: Full(n, kids[k], h - 1)
    ensures |LeavesOf(kids)| == |kids| * Pow(n, h - 1)
    decreases h, |kids|
  {
    if kids != [] {
      var last := |kids| - 1;
      FullLeavesOf(n, kids[..last], h);
      FullLeaves(n, kids[last], h - 1);
      Times(last, Pow(n, h - 1));
      hide Pow, Full, Leaves;
    }
  }

  lemma Times(k: nat, m: nat)
    ensures (k + 1) * m == k * m + m
  {
  }

  /** The leaves of full children are found by division. */
  lemma {:induction false} LeafIn(n: nat, kids: seq<Tree>, h: nat, k: nat, r: nat)
    requires h > 0 && k < |kids| <= n && (forall j | 0 <= j < |kids| - 1 :: Full(n, kids[j], h - 1)) && r < |Leaves(kids[k])|
    ensures k * Pow(n, h - 1) + r < |LeavesOf(kids)| && LeavesOf(kids)[k * Pow(n, h - 1) + r] == Leaves(kids[k])[r]
    decreases |kids|
  {
    var last := |kids| - 1;
    FullLeavesOf(n, kids[..last], h);
    if k < last {
      FullLeaves(n, kids[k], h - 1);
      LeafIn(n, kids[..last], h, k, r);
    }
  }

  lemma {:induction false} ShapeLeaves(n: nat, t: Tree, h: nat)
    requires Shape(n, t, h)
    ensures |Leaves(t)| <= Pow(n, h)
    decreases h
  {
    if h > 0 {
      var last := |t.kids| - 1;
      FullLeavesOf(n, t.kids[..last], h);
      ShapeLeaves(n, t.kids[last], h - 1);
      Times(last, Pow(n, h - 1));
      AtMost(|t.kids|, n, Pow(n, h - 1));
    }
  }

  lemma AtMost(a: nat, b: nat, m: nat)
    requires a <= b
    ensures a * m <= b * m
  {
  }

  lemma Below(k: nat, last: nat, m: nat, r: nat, x: nat)
    requires k * m + r < last * m + x && x <= m && k >= last
    ensures k == last && r < x
  {
    if k > last {
      AtMost(last + 1, k, m);
      Times(last, m);
    }
  }

  /** Which child has a leaf, and where in it. */
  lemma Locate(n: nat, t: Tree, h: nat, k: nat, r: nat)
    requires Shape(n, t, h) && h > 0 && r < Pow(n, h - 1) && k * Pow(n, h - 1) + r < |Leaves(t)|
    ensures k < |t.kids| && r < |Leaves(t.kids[k])| && Leaves(t)[k * Pow(n, h - 1) + r] == Leaves(t.kids[k])[r]
  {
    var m, last := Pow(n, h - 1), |t.kids| - 1;
    FullLeavesOf(n, t.kids[..last], h);
    ShapeLeaves(n, t.kids[last], h - 1);
    assert |Leaves(t)| == last * m + |Leaves(t.kids[last])|;
    if k < last {
      FullLeaves(n, t.kids[k], h - 1);
    } else {
      Below(k, last, m, r, |Leaves(t.kids[last])|);
    }
    LeafIn(n, t.kids, h, k, r);
  }

  // ---------------------------------------------------------------- in memory

  /** The pointers stored so far: `blocks[index]` of the HP_PTRS at `node`. */
  datatype Slot = Slot(node: Ptr, index: nat)

  type Memory = map<Slot, Ptr>

  ghost predicate Stored(mem: Memory, t: Tree) {
    t.Node? ==> forall k: nat | k < |t.kids| ::
      Slot(t.ptr, k) in mem && mem[Slot(t.ptr, k)] == t.kids[k].ptr && Stored(mem, t.kids[k])
  }

  ghost predicate Extends(mem: Memory, more: Memory) {
    forall s | s in mem :: s in more && more[s] == mem[s]
  }

  lemma {:induction false} StoredMore(mem: Memory, more: Memory, t: Tree)
    requires Stored(mem, t) && Extends(mem, more)
    ensures Stored(more, t)
    decreases t
  {
    if t.Node? {
      forall k: nat | k < |t.kids| ensures Stored(more, t.kids[k]) {
        StoredMore(mem, more, t.kids[k]);
      }
    }
  }

  lemma {:induction false} AppendStored(mem: Memory, n: nat, t: Tree, h: nat, i: nat, sub: Tree)
    requires Shape(n, t, h) && 1 <= i <= h && Stored(mem, t) && Stored(mem, sub)
    requires var last := LastAt(n, t, h, i); Slot(last.ptr, |last.kids|) in mem && mem[Slot(last.ptr, |last.kids|)] == sub.ptr
    ensures Stored(mem, Append(n, t, h, i, sub)) && Append(n, t, h, i, sub).ptr == t.ptr
    decreases h
  {
    if i < h {
      AppendStored(mem, n, t.kids[|t.kids| - 1], h - 1, i, sub);
    }
  }
}
