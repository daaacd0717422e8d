/** How the tree of record blocks looks in memory after it has grown. */
module BlockGrow {
  import opened BlockTree
  import opened BlockFree

  lemma {:induction false} LaidMore(g: Geometry, sizes: seq<nat>, more: seq<nat>, t: Tree)
    requires Laid(g, sizes, t) && sizes <= more
    ensures Laid(g, more, t)
    decreases t
  {
    if t.Node? {
      forall k | 0 <= k < |t.kids| ensures Laid(g, more, t.kids[k]) {
        LaidMore(g, sizes, more, t.kids[k]);
      }
    }
  }

  lemma {:induction false} ChainLaid(g: Geometry, sizes: seq<nat>, p: Ptr, h: nat)
    requires Sound(g) && p.chunk < |sizes| && p.off + h * g.ptrs + g.recordsInBlock * g.recbuffer <= sizes[p.chunk]
    ensures Laid(g, sizes, Chain(g, p, h)) && Chain(g, p, h).ptr == p
    ensures Starts(Chain(g, p, h), true) == []
    decreases h
  {
    if h > 0 {
      var q, t := Plus(p, g.ptrs), Chain(g, p, h);
      Times(h - 1, g.ptrs);
      ChainLaid(g, sizes, q, h - 1);
      assert t.kids == [Chain(g, q, h - 1)] && Inline(t) == 0;
      StartsOfOne(Chain(g, q, h - 1));
    }
  }

  lemma StartsOfOne(t: Tree)
    ensures StartsOf([t], 0) == Starts(t, true)
  {
    assert [t][..0] == [];
  }

  lemma StartsOfMore(kids: seq<Tree>, t: Tree, inline: nat)
    ensures StartsOf(kids + [t], inline) == StartsOf(kids, inline) + Starts(t, |kids| == inline)
  {
    assert (kids + [t])[..|kids|] == kids;
  }

  /** A chain in its own allocation is one allocation. */
  lemma ChainStarts(g: Geometry, sizes: seq<nat>, p: Ptr, h: nat)
    requires Sound(g) && p.chunk < |sizes| && p.off + h * g.ptrs + g.recordsInBlock * g.recbuffer <= sizes[p.chunk]
    ensures Starts(Chain(g, p, h), false) == [p]
  {
    ChainLaid(g, sizes, p, h);
    assert Starts(Chain(g, p, h), false) == Starts(Chain(g, p, h), true) + [p];
  }

  /** Appending only replaces or adds a last child. */
  lemma AppendKids(n: nat, t: Tree, h: nat, i: nat, sub: Tree)
    requires Shape(n, t, h) && 1 <= i <= h
    ensures var t', last := Append(n, t, h, i, sub), |t.kids| - 1;
      && t'.Node? && t'.ptr == t.ptr && t'.kids[0].ptr == t.kids[0].ptr && Inline(t') == Inline(t)
      && (i == h ==> t'.kids == t.kids + [sub])
      && (i < h ==> t'.kids == t.kids[..last] + [Append(n, t.kids[last], h - 1, i, sub)] && t'.kids[last].ptr == t.kids[last].ptr)
  {
  }

  /** A new child in an allocation of its own. */
  lemma {:induction false} AppendLaid(g: Geometry, older: seq<nat>, sizes: seq<nat>, t: Tree, h: nat, i: nat, sub: Tree)
    requires Shape(g.n, t, h) && 1 <= i <= h && Laid(g, older, t) && Laid(g, sizes, sub)
    requires older <= sizes && sub.ptr.off == 0 && sub.ptr.chunk >= |older|
    ensures Laid(g, sizes, Append(g.n, t, h, i, sub))
    decreases h
  {
    var last, t' := |t.kids| - 1, Append(g.n, t, h, i, sub);
    AppendKids(g.n, t, h, i, sub);
    LaidMore(g, older, sizes, t);
    if i < h {
      AppendLaid(g, older, sizes, t.kids[last], h - 1, i, sub);
      hide Shape, Append;
      LastKidLaid(g, sizes, t, t');
    } else {
      hide Shape, Append;
      MoreKidLaid(g, older, sizes, t, t', sub);
    }
  }

  lemma {:induction false} LastKidLaid(g: Geometry, sizes: seq<nat>, t: Tree, t': Tree)
    requires Laid(g, sizes, t) && t.Node? && t'.Node? && t'.ptr == t.ptr && |t'.kids| == |t.kids|
    requires forall k | 0 <= k < |t.kids| - 1 :: t'.kids[k] == t.kids[k]
    requires var last := |t.kids| - 1; Laid(g, sizes, t'.kids[last]) && t'.kids[last].ptr == t.kids[last].ptr
    ensures Laid(g, sizes, t')
  {
    forall k | 0 <= k < |t'.kids| ensures Laid(g, sizes, t'.kids[k]) && t'.kids[k].ptr == t.kids[k].ptr {
      assert k < |t.kids| - 1 ==> t'.kids[k] == t.kids[k];
    }
  }

  lemma {:induction false} MoreKidLaid(g: Geometry, older: seq<nat>, sizes: seq<nat>, t: Tree, t': Tree, sub: Tree)
    requires Laid(g, sizes, t) && Laid(g, older, t) && t.Node? && t' == Node(t.ptr, t.kids + [sub]) && Laid(g, sizes, sub)
    requires sub.ptr.off == 0 && sub.ptr.chunk >= |older|
    ensures Laid(g, sizes, t')
  {
    assert t'.kids[0] == t.kids[0];
  }

  /** The allocations under a block, whatever their order. */
  ghost function Bag(t: Tree, inline: bool): multiset<Ptr> {
    multiset(Starts(t, inline))
  }

  ghost function BagOf(kids: seq<Tree>, inline: nat): multiset<Ptr> {
    multiset(StartsOf(kids, inline))
  }

  ghost function Own(t: Tree, inline: bool): multiset<Ptr> {
    if inline then multiset{} else multiset{t.ptr}
  }

  lemma BagOfNode(t: Tree, inline: bool)
    requires t.Node? && t.kids != []
    ensures Bag(t, inline) == BagOf(t.kids, Inline(t)) + Own(t, inline)
  {
    assert Starts(t, inline) == StartsOf(t.kids, Inline(t)) + if inline then [] else [t.ptr];
  }

  lemma BagOfMore(kids: seq<Tree>, t: Tree, inline: nat)
    ensures BagOf(kids + [t], inline) == BagOf(kids, inline) + Bag(t, |kids| == inline)
  {
    StartsOfMore(kids, t, inline);
    hide Starts, StartsOf;
  }

  /** One allocation more. */
  lemma {:induction false} AppendBag(g: Geometry, sizes: seq<nat>, t: Tree, h: nat, i: nat, sub: Tree, inline: bool)
    requires Shape(g.n, t, h) && 1 <= i <= h && Laid(g, sizes, t)
    ensures Bag(Append(g.n, t, h, i, sub), inline) == Bag(t, inline) + Bag(sub, false)
    decreases h
  {
    hide Bag;
    var last, inl := |t.kids| - 1, Inline(t);
    AppendKids(g.n, t, h, i, sub);
    if i == h {
      BagAdded(t, Append(g.n, t, h, i, sub), sub, inline);
    } else {
      AppendBag(g, sizes, t.kids[last], h - 1, i, sub, last == inl);
      BagReplaced(t, Append(g.n, t, h, i, sub), Append(g.n, t.kids[last], h - 1, i, sub), sub, inline);
    }
  }

  lemma {:induction false} BagAdded(t: Tree, t': Tree, sub: Tree, inline: bool)
    requires t.Node? && t.kids != [] && Inline(t) < |t.kids|
    requires t'.Node? && t'.ptr == t.ptr && t'.kids == t.kids + [sub] && Inline(t') == Inline(t)
    ensures Bag(t', inline) == Bag(t, inline) + Bag(sub, false)
  {
    hide Bag, BagOf, Inline;
    BagOfNode(t, inline);
    BagOfNode(t', inline);
    BagOfMore(t.kids, sub, Inline(t));
  }

  lemma {:induction false} BagReplaced(t: Tree, t': Tree, grown: Tree, sub: Tree, inline: bool)
    requires t.Node? && t.kids != [] && t'.Node? && t'.ptr == t.ptr
    requires t'.kids == t.kids[..|t.kids| - 1] + [grown] && Inline(t') == Inline(t)
    requires var last := |t.kids| - 1; Bag(grown, last == Inline(t)) == Bag(t.kids[last], last == Inline(t)) + Bag(sub, false)
    ensures Bag(t', inline) == Bag(t, inline) + Bag(sub, false)
  {
    hide Bag, BagOf, Inline;
    var last, inl := |t.kids| - 1, Inline(t);
    BagOfNode(t, inline);
    BagOfNode(t', inline);
    BagOfMore(t.kids[..last], grown, inl);
    BagOfMore(t.kids[..last], t.kids[last], inl);
    assert t.kids[..last] + [t.kids[last]] == t.kids;
  }

  /** The whole tree under a new top block. */
  lemma {:induction false} ToppedLaid(g: Geometry, older: seq<nat>, sizes: seq<nat>, t: Tree, p: Ptr, chain: Tree)
    requires Laid(g, older, t) && t.ptr.off == 0 && older <= sizes && Sound(g)
    requires p.off == 0 && |older| <= p.chunk < |sizes| && chain.ptr == Plus(p, g.ptrs) && Laid(g, sizes, chain)
    ensures Laid(g, sizes, Node(p, [t, chain]))
  {
    LaidMore(g, older, sizes, t);
  }

  lemma {:induction false} ToppedStarts(t: Tree, p: Ptr, chain: Tree)
    requires t.ptr.off == 0
    ensures Starts(Node(p, [t, chain]), false) == Starts(t, false) + Starts(chain, true) + [p]
  {
    StartsOfTop(t, p, chain);
    hide Starts, StartsOf;
    StartsOfMore([t], chain, 1);
    StartsOfMore([], t, 1);
    assert [t] + [chain] == [t, chain] && [] + [t] == [t];
    assert StartsOf([], 1) + Starts(t, false) == Starts(t, false);
  }

  lemma {:induction false} StartsOfTop(t: Tree, p: Ptr, chain: Tree)
    requires t.ptr.off == 0
    ensures Starts(Node(p, [t, chain]), false) == StartsOf([t, chain], 1) + [p] && StartsOf([], 1) == []
  {
    hide StartsOf;
    assert Inline(Node(p, [t, chain])) == 1;
    NoStarts(1);
  }

  lemma {:induction false} NoStarts(inline: nat)
    ensures StartsOf([], inline) == []
  {
  }
}
