/** Releasing the tree of record blocks: hp_free_level (heap/hp_block.c). */
module BlockFree {
  import opened Prelude
  import opened BlockTree

  /** The address of a pointer, when allocation `c` starts at `bases[c]`. */
  function At(bases: seq<int>, p: Ptr): int {
    (if p.chunk < |bases| then bases[p.chunk] else 0) + p.off
  }

  /** `(byte*) pos != last_pos`. */
  predicate SamePlace(bases: seq<int>, p: Ptr, last: Option<Ptr>) {
    last.Some? && At(bases, p) == At(bases, last.value)
  }

  // ---------------------------------------------------------------- what hp_free_level does

  /** The pointers freed, and the next memory position. */
  function Free(g: Geometry, bases: seq<int>, t: Tree, last: Option<Ptr>): (seq<Ptr>, Option<Ptr>)
    decreases t
  {
    var (freed, next) :=
      match t
      case Leaf(p) => ([], Some(Plus(p, g.recbuffer)))
      case Node(p, kids) => FreeKids(g, bases, kids, Some(Plus(p, g.ptrs)));
    if SamePlace(bases, t.ptr, last) then (freed, next) else (freed + [t.ptr], last)
  }

  function FreeKids(g: Geometry, bases: seq<int>, kids: seq<Tree>, next: Option<Ptr>): (seq<Ptr>, Option<Ptr>)
    decreases kids
  {
    if kids == [] then ([], next)
    else
      var n := |kids| - 1;
      var (freed, then') := FreeKids(g, bases, kids[..n], next);
      var (more, end) := Free(g, bases, kids[n], then');
      (freed + more, end)
  }

  // ---------------------------------------------------------------- what was allocated

  /** The child that lies in the same allocation: the first, or for a block put on top of the
      whole tree the second. */
  function Inline(t: Tree): nat
    requires t.Node? && t.kids != []
  {
    if t.kids[0].ptr.off == 0 then 1 else 0
  }

  /** Every block is followed in memory by its inline child; the other children start their own
      allocations; everything fits. */
  ghost predicate Laid(g: Geometry, sizes: seq<nat>, t: Tree) {
    && t.ptr.chunk < |sizes|
    && match t
       case Leaf(p) => p.off + g.recordsInBlock * g.recbuffer <= sizes[p.chunk]
       case Node(p, kids) =>
         && kids != [] && Inline(t) < |kids| && kids[Inline(t)].ptr == Plus(p, g.ptrs)
         && (forall k | 0 <= k < |kids| :: Laid(g, sizes, kids[k]))
         && (forall k | 0 <= k < |kids| && k != Inline(t) :: kids[k].ptr.off == 0 && kids[k].ptr.chunk != p.chunk)
  }

  /** malloc: different allocations do not overlap. */
  ghost predicate Disjoint(bases: seq<int>, sizes: seq<nat>) {
    && |bases| == |sizes|
    && forall c, d | 0 <= c < |bases| && 0 <= d < |bases| && c != d :: bases[c] + sizes[c] <= bases[d] || bases[d] + sizes[d] <= bases[c]
  }

  /** The allocations under a block, in the order hp_free_level comes to them. */
  function Starts(t: Tree, inline: bool): seq<Ptr>
    decreases t, 1
  {
    (match t case Leaf(_) => [] case Node(_, kids) => if kids == [] then [] else StartsOf(kids, Inline(t)))
    + if inline then [] else [t.ptr]
  }

  function StartsOf(kids: seq<Tree>, inline: nat): seq<Ptr>
    decreases kids, 0
  {
    if kids == [] then []
    else StartsOf(kids[..|kids| - 1], inline) + Starts(kids[|kids| - 1], |kids| - 1 == inline)
  }

  /** Where hp_free_level expects the memory after a block with all that is inline. */
  function End(g: Geometry, t: Tree): Ptr {
    match t
    case Leaf(p) => Plus(p, g.recbuffer)
    case Node(p, kids) => if kids != [] && Inline(t) < |kids| then End(g, kids[Inline(t)]) else p
  }

  lemma {:induction false} EndInside(g: Geometry, sizes: seq<nat>, t: Tree)
    requires Sound(g) && Laid(g, sizes, t)
    ensures var e := End(g, t); e.chunk == t.ptr.chunk && t.ptr.off < e.off <= sizes[e.chunk]
    ensures g.recordsInBlock >= 2 ==> End(g, t).off < sizes[t.ptr.chunk]
    decreases t
  {
    match t
    case Leaf(_) => AtMost(if g.recordsInBlock >= 2 then 2 else 1, g.recordsInBlock, g.recbuffer);
    case Node(_, kids) => EndInside(g, sizes, kids[Inline(t)]);
  }

  /** No child that is an allocation of its own begins just where the memory of its block is
      expected to end. */
  predicate Clean(g: Geometry, bases: seq<int>, t: Tree) {
    t.Node? && t.kids != [] && Inline(t) < |t.kids| ==>
      && (forall k | 0 <= k < |t.kids| :: Clean(g, bases, t.kids[k]))
      && (forall k | Inline(t) < k < |t.kids| :: At(bases, t.kids[k].ptr) != At(bases, End(g, t.kids[Inline(t)])))
  }

  /** The start of one allocation is not inside another one. */
  lemma StartNotInside(bases: seq<int>, sizes: seq<nat>, p: Ptr, q: Ptr)
    requires Disjoint(bases, sizes) && p.chunk < |bases| && q.chunk < |bases| && p.chunk != q.chunk
    requires p.off == 0 && sizes[p.chunk] > 0 && 0 <= q.off < sizes[q.chunk]
    ensures At(bases, p) != At(bases, q)
  {
  }

  /** With two records in a block or more there is no doubt. */
  lemma {:induction false} TwoRecordsClean(g: Geometry, bases: seq<int>, sizes: seq<nat>, t: Tree)
    requires Sound(g) && g.recordsInBlock >= 2 && Laid(g, sizes, t) && Disjoint(bases, sizes)
    ensures Clean(g, bases, t)
    decreases t
  {
    if t.Node? {
      var inl := t.kids[Inline(t)];
      EndInside(g, sizes, inl);
      forall k | 0 <= k < |t.kids| ensures Clean(g, bases, t.kids[k]) {
        TwoRecordsClean(g, bases, sizes, t.kids[k]);
      }
      forall k | Inline(t) < k < |t.kids| ensures At(bases, t.kids[k].ptr) != At(bases, End(g, inl)) {
        EndInside(g, sizes, t.kids[k]);
        StartNotInside(bases, sizes, t.kids[k].ptr, End(g, inl));
      }
    }
  }

  // ---------------------------------------------------------------- exact release

  /** Whether child `k` is taken for the continuation of what was just looked at. */
  lemma ChildMatched(g: Geometry, bases: seq<int>, sizes: seq<nat>, t: Tree, k: nat)
    requires Sound(g) && Laid(g, sizes, t) && Disjoint(bases, sizes) && t.Node? && k < |t.kids|
    requires Clean(g, bases, t)
    ensures SamePlace(bases, t.kids[k].ptr, Some(if k <= Inline(t) then Plus(t.ptr, g.ptrs) else End(g, t.kids[Inline(t)]))) <==> k == Inline(t)
  {
    EndInside(g, sizes, t.kids[Inline(t)]);
    EndInside(g, sizes, t.kids[k]);
    if k < Inline(t) {
      StartNotInside(bases, sizes, t.kids[k].ptr, Plus(t.ptr, g.ptrs));
    }
  }

  /** The children up to `j` are those before it and `j`. */
  lemma {:induction false} KidAfter(g: Geometry, bases: seq<int>, t: Tree, j: nat, k: nat, start: Option<Ptr>)
    requires t.Node? && j < k == j + 1 <= |t.kids|
    ensures var (freed, next) := FreeKids(g, bases, t.kids[..j], start); var (more, end) := Free(g, bases, t.kids[j], next);
      FreeKids(g, bases, t.kids[..k], start) == (freed + more, end)
    ensures StartsOf(t.kids[..k], Inline(t)) == StartsOf(t.kids[..j], Inline(t)) + Starts(t.kids[j], j == Inline(t))
  {
    assert t.kids[..k][..j] == t.kids[..j];
    hide Free, Starts;
  }

  /** hp_free_level frees each allocation under a block, and the block's own unless it is
      inline; it comes out at the end of the block. */
  lemma {:induction false} FreeClean(g: Geometry, bases: seq<int>, sizes: seq<nat>, t: Tree, last: Option<Ptr>)
    requires Sound(g) && Laid(g, sizes, t) && Disjoint(bases, sizes) && Clean(g, bases, t)
    ensures var same := SamePlace(bases, t.ptr, last);
      Free(g, bases, t, last) == (Starts(t, same), if same then Some(End(g, t)) else last)
    decreases t, 0
  {
    match t
    case Leaf(p) =>
      assert Starts(t, true) == [] && Starts(t, false) == [p];
    case Node(p, kids) =>
      FreeKidsClean(g, bases, sizes, t, |kids|);
      assert kids[..|kids|] == kids;
      var all := StartsOf(kids, Inline(t));
      assert FreeKids(g, bases, kids, Some(Plus(p, g.ptrs))) == (all, Some(End(g, t)));
      assert Starts(t, true) == all && Starts(t, false) == all + [p];
  }

  lemma {:induction false} FreeKidsClean(g: Geometry, bases: seq<int>, sizes: seq<nat>, t: Tree, k: nat)
    requires Sound(g) && Laid(g, sizes, t) && Disjoint(bases, sizes) && Clean(g, bases, t) && t.Node? && k <= |t.kids|
    ensures FreeKids(g, bases, t.kids[..k], Some(Plus(t.ptr, g.ptrs)))
            == (StartsOf(t.kids[..k], Inline(t)), Some(if k <= Inline(t) then Plus(t.ptr, g.ptrs) else End(g, t.kids[Inline(t)])))
    decreases t, 0, k
  {
    if k > 0 {
      var j: nat, kid := k - 1, t.kids[k - 1];
      FreeKidsClean(g, bases, sizes, t, j);
      KidAfter(g, bases, t, j, k, Some(Plus(t.ptr, g.ptrs)));
      ChildMatched(g, bases, sizes, t, j);
      FreeClean(g, bases, sizes, kid, Some(if j <= Inline(t) then Plus(t.ptr, g.ptrs) else End(g, t.kids[Inline(t)])));
      hide SamePlace, Clean, Laid, Disjoint, FreeKids, Free, StartsOf, Starts, End;
    }
  }

  // ---------------------------------------------------------------- and when it is not exact

  /** Something goes wrong with one of the first `k` children. */
  predicate Spoilt(g: Geometry, bases: seq<int>, t: Tree, k: nat)
    requires t.Node? && k <= |t.kids| && t.kids != [] && Inline(t) < |t.kids|
  {
    exists j | 0 <= j < k :: SpoiltAt(g, bases, t, j)
  }

  predicate SpoiltAt(g: Geometry, bases: seq<int>, t: Tree, j: nat)
    requires t.Node? && j < |t.kids| && t.kids != [] && Inline(t) < |t.kids|
  {
    !Clean(g, bases, t.kids[j]) || (j > Inline(t) && At(bases, t.kids[j].ptr) == At(bases, End(g, t.kids[Inline(t)])))
  }

  lemma StartsShorter(t: Tree)
    ensures |Starts(t, false)| == |Starts(t, true)| + 1
  {
  }

  lemma CleanIsNotSpoilt(g: Geometry, bases: seq<int>, t: Tree)
    requires t.Node? && t.kids != [] && Inline(t) < |t.kids|
    ensures Clean(g, bases, t) <==> !Spoilt(g, bases, t, |t.kids|)
  {
    if !Spoilt(g, bases, t, |t.kids|) {
      forall k | 0 <= k < |t.kids|
        ensures Clean(g, bases, t.kids[k]) && (k > Inline(t) ==> At(bases, t.kids[k].ptr) != At(bases, End(g, t.kids[Inline(t)])))
      {
        assert !SpoiltAt(g, bases, t, k);
      }
    }
  }

  /** Up to the inline child nothing can go wrong. */
  lemma FirstMatched(g: Geometry, bases: seq<int>, sizes: seq<nat>, t: Tree, k: nat)
    requires Sound(g) && Laid(g, sizes, t) && Disjoint(bases, sizes) && t.Node? && k < |t.kids|
    ensures k <= Inline(t) ==> (SamePlace(bases, t.kids[k].ptr, Some(Plus(t.ptr, g.ptrs))) <==> k == Inline(t))
  {
    EndInside(g, sizes, t.kids[Inline(t)]);
    EndInside(g, sizes, t.kids[k]);
    if k < Inline(t) {
      StartNotInside(bases, sizes, t.kids[k].ptr, Plus(t.ptr, g.ptrs));
    }
  }

  lemma SpoiltNext(g: Geometry, bases: seq<int>, t: Tree, j: nat, k: nat)
    requires t.Node? && j < k == j + 1 <= |t.kids| && Inline(t) < |t.kids|
    ensures Spoilt(g, bases, t, k) <==> Spoilt(g, bases, t, j) || SpoiltAt(g, bases, t, j)
  {
    hide SpoiltAt;
  }

  /** Child `j` after those before it. */
  lemma {:induction false} NextKid(g: Geometry, bases: seq<int>, sizes: seq<nat>, t: Tree, j: nat, next: Option<Ptr>)
    requires Sound(g) && Laid(g, sizes, t) && Disjoint(bases, sizes) && t.Node? && j < |t.kids|
    requires j <= Inline(t) ==> next == Some(Plus(t.ptr, g.ptrs))
    requires j > Inline(t) && !Spoilt(g, bases, t, j) ==> next == Some(End(g, t.kids[Inline(t)]))
    ensures var (freed, after) := Free(g, bases, t.kids[j], next);
      && |freed| <= |Starts(t.kids[j], j == Inline(t))|
      && (SpoiltAt(g, bases, t, j) && !Spoilt(g, bases, t, j) ==> |freed| < |Starts(t.kids[j], j == Inline(t))|)
      && (j < Inline(t) ==> after == next)
      && (!SpoiltAt(g, bases, t, j) && !Spoilt(g, bases, t, j) && j >= Inline(t) ==> after == Some(End(g, t.kids[Inline(t)])))
    decreases t, 0, j, 0
  {
    var kid := t.kids[j];
    FirstMatched(g, bases, sizes, t, j);
    FreeFewer(g, bases, sizes, kid, next);
    StartsShorter(kid);
    if Clean(g, bases, kid) {
      FreeClean(g, bases, sizes, kid, next);
    }
    hide Clean, Laid, Disjoint, Spoilt, Starts;
  }

  /** Never too many; too few exactly where an allocation is mistaken for an inline block. */
  lemma {:induction false} FreeFewer(g: Geometry, bases: seq<int>, sizes: seq<nat>, t: Tree, last: Option<Ptr>)
    requires Sound(g) && Laid(g, sizes, t) && Disjoint(bases, sizes)
    ensures |Free(g, bases, t, last).0| <= |Starts(t, SamePlace(bases, t.ptr, last))|
    ensures !Clean(g, bases, t) ==> |Free(g, bases, t, last).0| < |Starts(t, SamePlace(bases, t.ptr, last))|
    decreases t, 0
  {
    if t.Node? {
      FreeKidsFewer(g, bases, sizes, t, |t.kids|);
      assert t.kids[..|t.kids|] == t.kids;
      CleanIsNotSpoilt(g, bases, t);
      hide Clean, Spoilt, Laid, Disjoint;
    }
  }

  lemma {:induction false} FreeKidsFewer(g: Geometry, bases: seq<int>, sizes: seq<nat>, t: Tree, k: nat)
    requires Sound(g) && Laid(g, sizes, t) && Disjoint(bases, sizes) && t.Node? && k <= |t.kids|
    ensures var (freed, next) := FreeKids(g, bases, t.kids[..k], Some(Plus(t.ptr, g.ptrs)));
      && |freed| <= |StartsOf(t.kids[..k], Inline(t))|
      && (k <= Inline(t) ==> next == Some(Plus(t.ptr, g.ptrs)))
      && (Spoilt(g, bases, t, k) ==> |freed| < |StartsOf(t.kids[..k], Inline(t))|)
      && (!Spoilt(g, bases, t, k) && k > Inline(t) ==> next == Some(End(g, t.kids[Inline(t)])))
    decreases t, 0, k
  {
    if k > 0 {
      var j: nat := k - 1;
      FreeKidsFewer(g, bases, sizes, t, j);
      KidAfter(g, bases, t, j, k, Some(Plus(t.ptr, g.ptrs)));
      NextKid(g, bases, sizes, t, j, FreeKids(g, bases, t.kids[..j], Some(Plus(t.ptr, g.ptrs))).1);
      SpoiltNext(g, bases, t, j, k);
      hide Clean, Laid, Disjoint, Spoilt, SpoiltAt, Starts, StartsOf, Free, FreeKids, End;
    }
  }

  lemma InlineStarts(t: Tree)
    ensures Starts(t, false) == Starts(t, true) + [t.ptr]
    ensures multiset(Starts(t, true)) <= multiset(Starts(t, false))
  {
    assert Starts(t, true) + [] == Starts(t, true);
  }

  /** Nothing is freed that is not the start of an allocation under the block, and nothing
      twice, however the addresses are: `t` need not be clean. */
  lemma {:induction false} FreeWithin(g: Geometry, bases: seq<int>, sizes: seq<nat>, t: Tree, last: Option<Ptr>)
    requires Sound(g) && Laid(g, sizes, t) && Disjoint(bases, sizes)
    ensures multiset(Free(g, bases, t, last).0) <= multiset(Starts(t, SamePlace(bases, t.ptr, last)))
    decreases t, 0
  {
    InlineStarts(t);
    if t.Node? {
      FreeKidsWithin(g, bases, sizes, t, |t.kids|);
      assert t.kids[..|t.kids|] == t.kids;
      assert Starts(t, true) == StartsOf(t.kids, Inline(t));
    }
  }

  lemma {:induction false} FreeKidsWithin(g: Geometry, bases: seq<int>, sizes: seq<nat>, t: Tree, k: nat)
    requires Sound(g) && Laid(g, sizes, t) && Disjoint(bases, sizes) && t.Node? && k <= |t.kids|
    ensures multiset(FreeKids(g, bases, t.kids[..k], Some(Plus(t.ptr, g.ptrs))).0) <= multiset(StartsOf(t.kids[..k], Inline(t)))
    decreases t, 0, k
  {
    if k > 0 {
      var j: nat := k - 1;
      FreeKidsWithin(g, bases, sizes, t, j);
      KidWithin(g, bases, sizes, t, j);
      var start := Some(Plus(t.ptr, g.ptrs));
      KidAfter(g, bases, t, j, k, start);
      hide Laid, Disjoint, Starts, Free, FreeKids, StartsOf, Inline;
      var (freed, next) := FreeKids(g, bases, t.kids[..j], start);
      BothWithin(freed, Free(g, bases, t.kids[j], next).0, StartsOf(t.kids[..j], Inline(t)), Starts(t.kids[j], j == Inline(t)));
    }
  }

  lemma BothWithin<T>(a: seq<T>, b: seq<T>, x: seq<T>, y: seq<T>)
    requires multiset(a) <= multiset(x) && multiset(b) <= multiset(y)
    ensures multiset(a + b) <= multiset(x + y)
  {
  }

  lemma {:induction false} KidWithin(g: Geometry, bases: seq<int>, sizes: seq<nat>, t: Tree, j: nat)
    requires Sound(g) && Laid(g, sizes, t) && Disjoint(bases, sizes) && t.Node? && j < |t.kids|
    ensures var next := FreeKids(g, bases, t.kids[..j], Some(Plus(t.ptr, g.ptrs))).1;
      multiset(Free(g, bases, t.kids[j], next).0) <= multiset(Starts(t.kids[j], j == Inline(t)))
    decreases t, 0, j, 0
  {
    var next := FreeKids(g, bases, t.kids[..j], Some(Plus(t.ptr, g.ptrs))).1;
    FreeKidsFewer(g, bases, sizes, t, j);
    FirstMatched(g, bases, sizes, t, j);
    FreeWithin(g, bases, sizes, t.kids[j], next);
    InlineStarts(t.kids[j]);
    hide Laid, Disjoint, Starts, Free, FreeKids, Spoilt, Clean;
  }

  /** Never is anything freed but allocations, and none twice.  All of them are freed if and
      only if the tree is clean; and always when a block holds two records or more. */
  lemma ExactRelease(g: Geometry, bases: seq<int>, sizes: seq<nat>, t: Tree)
    requires Sound(g) && Laid(g, sizes, t) && Disjoint(bases, sizes)
    ensures multiset(Free(g, bases, t, None).0) <= multiset(Starts(t, false))
    ensures multiset(Free(g, bases, t, None).0) == multiset(Starts(t, false)) <==> Clean(g, bases, t)
    ensures g.recordsInBlock >= 2 ==> Free(g, bases, t, None).0 == Starts(t, false)
  {
    FreeWithin(g, bases, sizes, t, None);
    if Clean(g, bases, t) {
      FreeClean(g, bases, sizes, t, None);
    } else {
      FreeFewer(g, bases, sizes, t, None);
      assert |multiset(Free(g, bases, t, None).0)| < |multiset(Starts(t, false))|;
    }
    if g.recordsInBlock >= 2 {
      TwoRecordsClean(g, bases, sizes, t);
    }
  }
}
