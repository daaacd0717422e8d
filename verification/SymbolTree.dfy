/** The binary search tree over function names of dbug/dbug_analyze.c, kept in an array. */
module SymbolTree {
  /** MAXPROCS, which is also the index that means "no subtree". */
  const NONE: nat := 10000

  /** struct bnode. */
  datatype BNode = BNode(lchild: nat, rchild: nat, pos: nat)

  /** The tree that the indexes describe. */
  datatype Tree = Leaf | Node(left: Tree, ind: nat, right: Tree)

  // ---------------------------------------------------------------- strcmp

  function Strcmp(a: string, b: string): int {
    if a == [] && b == [] then 0
    else if a == [] then -1
    else if b == [] then 1
    else if a[0] != b[0] then a[0] as int - b[0] as int
    else Strcmp(a[1..], b[1..])
  }

  lemma {:induction false} StrcmpEqual(a: string, b: string)
    ensures Strcmp(a, b) == 0 <==> a == b
    ensures Strcmp(a, b) < 0 <==> Strcmp(b, a) > 0
  {
    if a != [] && b != [] && a[0] == b[0] {
      StrcmpEqual(a[1..], b[1..]);
      assert a == [a[0]] + a[1..] && b == [b[0]] + b[1..];
    }
  }

  /** Where two strings differ first, the smaller byte decides; a beginning comes first. */
  ghost predicate Differs(a: string, b: string, k: nat) {
    && k <= |a| && k <= |b| && a[..k] == b[..k]
    && if k < |a| && k < |b| then a[k] < b[k] else k == |a| < |b|
  }

  lemma {:induction false} StrcmpOrder(a: string, b: string)
    ensures Strcmp(a, b) < 0 <==> exists k :: Differs(a, b, k)
  {
    if a == [] || b == [] || a[0] != b[0] {
      if Strcmp(a, b) < 0 {
        assert Differs(a, b, 0);
      }
      if k: nat :| Differs(a, b, k) && k > 0 {
        assert a[..k][0] == b[..k][0];
      }
    } else {
      StrcmpOrder(a[1..], b[1..]);
      if k: nat :| Differs(a[1..], b[1..], k) {
        assert a[..k + 1] == [a[0]] + a[1..][..k] && b[..k + 1] == [b[0]] + b[1..][..k];
        assert Differs(a, b, k + 1);
      }
      if k: nat :| Differs(a, b, k) {
        assert k > 0;
        assert a[1..][..k - 1] == a[..k][1..] && b[1..][..k - 1] == b[..k][1..];
        assert Differs(a[1..], b[1..], k - 1);
      }
    }
  }

  lemma {:induction false} StrcmpTransitive(a: string, b: string, c: string)
    requires Strcmp(a, b) < 0 && Strcmp(b, c) < 0
    ensures Strcmp(a, c) < 0
  {
    if a != [] && b != [] && c != [] && a[0] == b[0] && b[0] == c[0] {
      StrcmpTransitive(a[1..], b[1..], c[1..]);
    }
  }

  // ---------------------------------------------------------------- trees

  /** The indexes in the order out_body visits them. */
  function InOrder(t: Tree): seq<nat> {
    match t
    case Leaf => []
    case Node(l, k, r) => InOrder(l) + [k] + InOrder(r)
  }

  ghost predicate Below(t: Tree, names: seq<string>, x: string) {
    forall k | k in InOrder(t) :: k < |names| && Strcmp(names[k], x) < 0
  }

  ghost predicate Above(t: Tree, names: seq<string>, x: string) {
    forall k | k in InOrder(t) :: k < |names| && Strcmp(names[k], x) > 0
  }

  ghost predicate Ordered(t: Tree, names: seq<string>) {
    match t
    case Leaf => true
    case Node(l, k, r) =>
      k < |names| && Ordered(l, names) && Ordered(r, names) && Below(l, names, names[k]) && Above(r, names, names[k])
  }

  /** Node `i` of the array is the root of `t`; subtrees have higher indexes. */
  ghost predicate Represents(table: seq<BNode>, n: nat, i: nat, t: Tree)
    decreases t
  {
    match t
    case Leaf => i == NONE
    case Node(l, k, r) =>
      && i == k < n <= |table| && n <= NONE && table[k].pos == k
      && Represents(table, n, table[k].lchild, l) && Represents(table, n, table[k].rchild, r)
  }

  /** Where the search for `x` ends: at the node of that name, or left or right of a node
      without a subtree there. */
  datatype Spot = Found(ind: nat) | LeftOf(ind: nat) | RightOf(ind: nat)

  function Search(t: Tree, names: seq<string>, x: string): Spot
    requires t.Node? && Ordered(t, names)
  {
    var cmp := Strcmp(x, names[t.ind]);
    if cmp == 0 then Found(t.ind)
    else if cmp < 0 then if t.left.Leaf? then LeftOf(t.ind) else Search(t.left, names, x)
    else if t.right.Leaf? then RightOf(t.ind) else Search(t.right, names, x)
  }

  /** A name that is in the tree is found, and only then. */
  lemma {:induction false} SearchFinds(t: Tree, names: seq<string>, x: string)
    requires t.Node? && Ordered(t, names)
    ensures match Search(t, names, x)
      case Found(k) => k in InOrder(t) && k < |names| && names[k] == x
      case _ => forall k | k in InOrder(t) :: k < |names| && names[k] != x
  {
    var cmp := Strcmp(x, names[t.ind]);
    StrcmpEqual(x, names[t.ind]);
    if cmp < 0 && t.left.Node? {
      SearchFinds(t.left, names, x);
    } else if cmp > 0 && t.right.Node? {
      SearchFinds(t.right, names, x);
    }
  }

  // ---------------------------------------------------------------- a new node

  function Insert(t: Tree, names: seq<string>, x: string, n: nat): Tree
    requires Ordered(t, names)
  {
    match t
    case Leaf => Node(Leaf, n, Leaf)
    case Node(l, k, r) =>
      if Strcmp(x, names[k]) < 0 then Node(Insert(l, names, x, n), k, r) else Node(l, k, Insert(r, names, x, n))
  }

  /** The array with node `n` hung in where the search ended. */
  function TableWith(table: seq<BNode>, spot: Spot, n: nat): seq<BNode>
    requires !spot.Found? && spot.ind < |table| && n < |table|
  {
    var linked := if spot.LeftOf? then table[spot.ind].(lchild := n) else table[spot.ind].(rchild := n);
    table[spot.ind := linked][n := BNode(NONE, NONE, n)]
  }

  lemma {:induction false} SearchEndsIn(t: Tree, names: seq<string>, x: string)
    requires t.Node? && Ordered(t, names)
    ensures Search(t, names, x).ind in InOrder(t)
  {
    var cmp := Strcmp(x, names[t.ind]);
    if cmp < 0 && t.left.Node? {
      SearchEndsIn(t.left, names, x);
    } else if cmp > 0 && t.right.Node? {
      SearchEndsIn(t.right, names, x);
    }
  }

  lemma {:induction false} IndexesInRange(table: seq<BNode>, n: nat, i: nat, t: Tree)
    requires Represents(table, n, i, t)
    ensures forall k | k in InOrder(t) :: k < n
    decreases t
  {
    if t.Node? {
      IndexesInRange(table, n, table[t.ind].lchild, t.left);
      IndexesInRange(table, n, table[t.ind].rchild, t.right);
    }
  }

  lemma {:induction false} Untouched(table: seq<BNode>, table': seq<BNode>, n: nat, n': nat, i: nat, t: Tree)
    requires Represents(table, n, i, t) && |table'| == |table| && n <= n' <= |table| && n' <= NONE
    requires forall k | k in InOrder(t) && k < |table| :: table'[k] == table[k]
    ensures Represents(table', n', i, t)
    decreases t
  {
    if t.Node? {
      Untouched(table, table', n, n', table[t.ind].lchild, t.left);
      Untouched(table, table', n, n', table[t.ind].rchild, t.right);
    }
  }

  /** An index left of `k`'s node, `k` itself and an index right of it are different. */
  lemma Apart(t: Tree, names: seq<string>, j: nat)
    requires t.Node? && Ordered(t, names)
    ensures j in InOrder(t.left) ==> j != t.ind && j !in InOrder(t.right)
    ensures j in InOrder(t.right) ==> j != t.ind && j !in InOrder(t.left)
  {
    StrcmpEqual(names[t.ind], names[t.ind]);
  }

  lemma {:induction false} InsertRepresents(table: seq<BNode>, n: nat, i: nat, t: Tree, names: seq<string>, x: string)
    requires t.Node? && Ordered(t, names) && Represents(table, n, i, t) && n < |table| && n < NONE
    requires !Search(t, names, x).Found?
    ensures Search(t, names, x).ind < n
    ensures Represents(TableWith(table, Search(t, names, x), n), n + 1, i, Insert(t, names, x, n))
    decreases t
  {
    hide TableWith, InOrder;
    var spot := Search(t, names, x);
    var left := Strcmp(x, names[t.ind]) < 0;
    var below, there := if left then t.left else t.right, if left then table[t.ind].lchild else table[t.ind].rchild;
    var other, elsewhere := if left then t.right else t.left, if left then table[t.ind].rchild else table[t.ind].lchild;
    SearchEndsIn(t, names, x);
    IndexesInRange(table, n, i, t);
    if below.Node? {
      SearchEndsIn(below, names, x);
      InsertRepresents(table, n, there, below, names, x);
    }
    OtherApart(t, names, n, below, other, spot.ind);
    StillThere(table, n, spot, elsewhere, other);
    InsertLocal(table, n, t, Insert(below, names, x, n), left, spot);
  }

  lemma StillThere(table: seq<BNode>, n: nat, spot: Spot, i: nat, t: Tree)
    requires Represents(table, n, i, t) && n < |table| && n < NONE && !spot.Found? && spot.ind < n
    requires forall k | k in InOrder(t) :: k < n && k != spot.ind
    ensures Represents(TableWith(table, spot, n), n + 1, i, t)
  {
    Untouched(table, TableWith(table, spot, n), n, n + 1, i, t);
  }

  /** At a node: one subtree took the new node, the other is as it was. */
  lemma InsertLocal(table: seq<BNode>, n: nat, t: Tree, grown: Tree, left: bool, spot: Spot)
    requires t.Node? && Represents(table, n, t.ind, t) && n < |table| && n < NONE && !spot.Found? && spot.ind < n
    requires var table', below, there := TableWith(table, spot, n), if left then t.left else t.right, if left then table[t.ind].lchild else table[t.ind].rchild;
      && (below.Leaf? ==> spot == (if left then LeftOf(t.ind) else RightOf(t.ind)) && grown == Node(Leaf, n, Leaf))
      && (below.Node? ==> spot.ind != t.ind && Represents(table', n + 1, there, grown))
      && Represents(table', n + 1, if left then table[t.ind].rchild else table[t.ind].lchild, if left then t.right else t.left)
    ensures Represents(TableWith(table, spot, n), n + 1, t.ind, if left then Node(grown, t.ind, t.right) else Node(t.left, t.ind, grown))
  {
  }

  /** The other subtree has neither the new node nor the one it hangs on. */
  lemma OtherApart(t: Tree, names: seq<string>, n: nat, below: Tree, other: Tree, spot: nat)
    requires t.Node? && Ordered(t, names) && (forall k | k in InOrder(t) :: k < n)
    requires (below == t.left && other == t.right) || (below == t.right && other == t.left)
    requires spot == t.ind || spot in InOrder(below)
    ensures t.ind < n && (forall k | k in InOrder(other) :: k < n && k != spot && k != t.ind)
    ensures below.Node? && spot in InOrder(below) ==> spot != t.ind
  {
    assert t.ind in InOrder(t);
    forall k | k in InOrder(other) ensures k < n && k != spot && k != t.ind {
      Apart(t, names, k);
      assert k in InOrder(t);
    }
    Apart(t, names, spot);
  }

  lemma {:induction false} OrderedMore(t: Tree, names: seq<string>, more: seq<string>)
    requires Ordered(t, names) && names <= more
    ensures Ordered(t, more)
  {
    if t.Node? {
      OrderedMore(t.left, names, more);
      OrderedMore(t.right, names, more);
    }
  }

  lemma {:induction false} InsertContents(t: Tree, names: seq<string>, x: string, n: nat)
    requires Ordered(t, names)
    ensures forall k :: k in InOrder(Insert(t, names, x, n)) <==> k == n || k in InOrder(t)
    ensures |InOrder(Insert(t, names, x, n))| == |InOrder(t)| + 1
  {
    if t.Node? {
      if Strcmp(x, names[t.ind]) < 0 {
        InsertContents(t.left, names, x, n);
      } else {
        InsertContents(t.right, names, x, n);
      }
    }
  }

  lemma {:induction false} InsertOrdered(t: Tree, names: seq<string>, x: string)
    requires Ordered(t, names) && (t.Node? ==> !Search(t, names, x).Found?)
    ensures Ordered(Insert(t, names, x, |names|), names + [x])
  {
    var n, more := |names|, names + [x];
    if t.Node? {
      StrcmpEqual(x, names[t.ind]);
      OrderedMore(t.left, names, more);
      OrderedMore(t.right, names, more);
      if Strcmp(x, names[t.ind]) < 0 {
        InsertOrdered(t.left, names, x);
        InsertContents(t.left, names, x, n);
      } else {
        InsertOrdered(t.right, names, x);
        InsertContents(t.right, names, x, n);
      }
    }
  }

  // ---------------------------------------------------------------- the sorted list

  ghost predicate Increasing(list: seq<nat>, names: seq<string>) {
    forall i, j | 0 <= i < j < |list| :: list[i] < |names| && list[j] < |names| && Strcmp(names[list[i]], names[list[j]]) < 0
  }

  /** The traversal of an ordered tree comes in increasing order of the names. */
  lemma {:induction false} InOrderIncreasing(t: Tree, names: seq<string>)
    requires Ordered(t, names)
    ensures Increasing(InOrder(t), names)
  {
    if t.Node? {
      InOrderIncreasing(t.left, names);
      InOrderIncreasing(t.right, names);
      assert InOrder(t) == InOrder(t.left) + [t.ind] + InOrder(t.right);
      BothIncreasing(InOrder(t.left), t.ind, InOrder(t.right), names);
    }
  }

  lemma BothIncreasing(a: seq<nat>, k: nat, b: seq<nat>, names: seq<string>)
    requires Increasing(a, names) && Increasing(b, names) && k < |names|
    requires forall i | i in a :: i < |names| && Strcmp(names[i], names[k]) < 0
    requires forall i | i in b :: i < |names| && Strcmp(names[i], names[k]) > 0
    ensures Increasing(a + [k] + b, names)
  {
    var list, n, mid := a + [k] + b, |a|, names[k];
    forall i, j | 0 <= i < j < |list| ensures list[i] < |names| && list[j] < |names| && Strcmp(names[list[i]], names[list[j]]) < 0 {
      assert i < n ==> list[i] in a;
      assert j > n ==> list[j] == b[j - n - 1] && list[j] in b;
      assert i > n ==> list[i] == b[i - n - 1];
      if i < n < j {
        StrcmpEqual(mid, names[list[j]]);
        StrcmpTransitive(names[list[i]], mid, names[list[j]]);
      } else if i == n {
        StrcmpEqual(mid, names[list[j]]);
      }
    }
  }
}
