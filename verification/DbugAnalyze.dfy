/** dbug/dbug_analyze.c: the stack, the function table and its search tree in static arrays. */
module DbugAnalyze {
  import opened ProfileSpec
  import opened SymbolTree

  function NamesOf(modules: seq<Mod>): seq<string> {
    seq(|modules|, i requires 0 <= i < |modules| => modules[i].name)
  }

  /** The tree in the array is a search tree with each of the `n` names once. */
  ghost predicate Indexed(table: seq<BNode>, modules: seq<Mod>, tree: Tree) {
    Represents(table, |modules|, if modules == [] then NONE else 0, tree) && Complete(modules, tree)
  }

  ghost predicate Complete(modules: seq<Mod>, tree: Tree) {
    && Ordered(tree, NamesOf(modules))
    && (forall k: nat :: k in InOrder(tree) <==> k < |modules|)
    && |InOrder(tree)| == |modules|
  }

  lemma FirstIndexed(table: seq<BNode>, name: string)
    requires |table| == MAXPROCS && table[0] == BNode(NONE, NONE, 0)
    ensures Indexed(table, [Mod(name, 0, 0)], Node(Leaf, 0, Leaf))
  {
    assert InOrder(Node(Leaf, 0, Leaf)) == [0];
  }

  lemma FoundIndexed(table: seq<BNode>, modules: seq<Mod>, tree: Tree, name: string)
    requires Indexed(table, modules, tree) && tree.Node? && Search(tree, NamesOf(modules), name).Found?
    ensures Search(tree, NamesOf(modules), name).ind == IndexOf(modules, name) < |modules|
  {
    SearchFinds(tree, NamesOf(modules), name);
    var k := Search(tree, NamesOf(modules), name).ind;
    NoTwins(modules, tree, IndexOf(modules, name), k);
  }

  /** Names in the tree are different. */
  lemma NoTwins(modules: seq<Mod>, tree: Tree, i: nat, k: nat)
    requires Ordered(tree, NamesOf(modules)) && i in InOrder(tree) && k in InOrder(tree)
    requires i < |modules| && k < |modules| && modules[i].name == modules[k].name
    ensures i == k
  {
    InOrderIncreasing(tree, NamesOf(modules));
    var list := InOrder(tree);
    var a :| 0 <= a < |list| && list[a] == i;
    var b :| 0 <= b < |list| && list[b] == k;
    StrcmpEqual(modules[i].name, modules[k].name);
    StrcmpEqual(modules[k].name, modules[i].name);
  }

  lemma NotFound(modules: seq<Mod>, tree: Tree, name: string)
    requires Ordered(tree, NamesOf(modules)) && tree.Node? && !Search(tree, NamesOf(modules), name).Found?
    requires forall k: nat :: k in InOrder(tree) <==> k < |modules|
    ensures IndexOf(modules, name) == |modules|
  {
    SearchFinds(tree, NamesOf(modules), name);
    forall i: nat | i < |modules| ensures modules[i].name != name {
      assert i in InOrder(tree);
      assert NamesOf(modules)[i] != name;
    }
  }

  lemma GrownIndexed(table: seq<BNode>, modules: seq<Mod>, tree: Tree, name: string)
    requires Indexed(table, modules, tree) && tree.Node? && !Search(tree, NamesOf(modules), name).Found?
    requires |table| == MAXPROCS > |modules|
    ensures Search(tree, NamesOf(modules), name).ind < |modules|
    ensures Indexed(TableWith(table, Search(tree, NamesOf(modules), name), |modules|), modules + [Mod(name, 0, 0)],
                    Insert(tree, NamesOf(modules), name, |modules|))
  {
    assert modules != [];
    InsertRepresents(table, |modules|, 0, tree, NamesOf(modules), name);
    GrownComplete(modules, tree, name);
  }

  lemma GrownComplete(modules: seq<Mod>, tree: Tree, name: string)
    requires Complete(modules, tree) && (tree.Node? ==> !Search(tree, NamesOf(modules), name).Found?)
    ensures Complete(modules + [Mod(name, 0, 0)], Insert(tree, NamesOf(modules), name, |modules|))
  {
    hide Search, InOrder, Insert, Ordered;
    var names, n := NamesOf(modules), |modules|;
    InsertOrdered(tree, names, name);
    InsertContents(tree, names, name, n);
    assert NamesOf(modules + [Mod(name, 0, 0)]) == names + [name];
  }

  /** Charging a function does not disturb the tree. */
  lemma ChargedIndexed(table: seq<BNode>, modules: seq<Mod>, tree: Tree, pos: nat, time: int)
    requires Indexed(table, modules, tree) && pos < |modules|
    ensures Indexed(table, modules[pos := Charge(modules[pos], time)], tree)
  {
    assert NamesOf(modules[pos := Charge(modules[pos], time)]) == NamesOf(modules);
  }

  class Analyzer {
    const fnStack: array<Frame>
    var stackTop: nat
    var totTime: nat
    var totCalls: nat
    const modules: array<Mod>
    const sTable: array<BNode>
    var nItems: nat
    ghost var tree: Tree

    ghost predicate Valid()
      reads this, fnStack, modules, sTable
    {
      && fnStack.Length == STACKSIZ + 1 && stackTop <= STACKSIZ
      && modules.Length == sTable.Length == MAXPROCS && nItems <= MAXPROCS
      && Indexed(sTable[..], modules[..nItems], tree)
      && Sane(View())
    }

    ghost function View(): Profile
      requires stackTop < fnStack.Length && nItems <= modules.Length
      reads this, fnStack, modules
    {
      Profile(modules[..nItems], fnStack[..stackTop + 1], totTime, totCalls)
    }

    constructor ()
      ensures Valid() && View() == Start()
      ensures fresh(fnStack) && fresh(modules) && fresh(sTable)
    {
      fnStack := new Frame[STACKSIZ + 1](_ => Frame(0, 0, 0));
      modules := new Mod[MAXPROCS](_ => Mod("", 0, 0));
      sTable := new BNode[MAXPROCS](_ => BNode(0, 0, 0));
      stackTop, totTime, totCalls, nItems, tree := 0, 0, 0, 0, Leaf;
      new;
      assert fnStack[..1] == [Frame(0, 0, 0)];
    }

    /** A new node left or right of `ind`, where the search for its name ended. */
    method HangIn(name: string, ind: nat, left: bool) returns (pos: nat, ok: bool)
      requires Valid() && tree.Node?
      requires Search(tree, NamesOf(modules[..nItems]), name) == if left then LeftOf(ind) else RightOf(ind)
      modifies this`nItems, this`tree, modules, sTable
      ensures ok <==> !TooMany(old(View()).modules, name)
      ensures ok ==> pos == IndexOf(old(View()).modules, name)
      ensures nItems <= MAXPROCS && Indexed(sTable[..], modules[..nItems], tree)
      ensures View() == if ok then old(View()).(modules := Added(old(View()).modules, name)) else old(View())
    {
      hide Sane, Ordered, Represents, Search, InOrder, Insert;
      ghost var before, table := modules[..nItems], sTable[..];
      NotFound(before, tree, name);
      if nItems >= MAXPROCS {
        return 0, false;
      }
      GrownIndexed(table, before, tree, name);
      sTable[ind] := if left then sTable[ind].(lchild := nItems) else sTable[ind].(rchild := nItems);
      sTable[nItems] := BNode(NONE, NONE, nItems);
      pos, ok := nItems, true;
      AppendModule(name, Insert(tree, NamesOf(before), name, nItems));
      assert sTable[..] == TableWith(table, if left then LeftOf(ind) else RightOf(ind), pos);
    }

    method AddFirst(name: string)
      requires Valid() && nItems == 0
      modifies this`nItems, this`tree, modules, sTable
      ensures nItems == 1 && Indexed(sTable[..], modules[..nItems], tree)
      ensures !TooMany(old(View()).modules, name) && IndexOf(old(View()).modules, name) == 0
      ensures View() == old(View()).(modules := Added(old(View()).modules, name))
    {
      sTable[0] := BNode(NONE, NONE, 0);
      AppendModule(name, Node(Leaf, 0, Leaf));
      FirstIndexed(sTable[..], name);
      assert modules[..nItems] == [Mod(name, 0, 0)];
    }

    lemma SaneAdded(p: Profile, name: string)
      requires Sane(p)
      ensures Sane(p.(modules := Added(p.modules, name)))
    {
    }

    /** add: the index of the name, which is entered if it is new; not `ok` is the exit when
        there are too many. */
    method Add(name: string) returns (pos: nat, ok: bool)
      requires Valid()
      modifies this`nItems, this`tree, modules, sTable
      ensures Valid()
      ensures ok <==> !TooMany(old(View()).modules, name)
      ensures ok ==> pos == IndexOf(old(View()).modules, name)
      ensures View() == if ok then old(View()).(modules := Added(old(View()).modules, name)) else old(View())
    {
      ghost var before, table, p := modules[..nItems], sTable[..], View();
      SaneAdded(p, name);
      hide Sane, Represents, Ordered, Search, InOrder, TableWith, Insert, Complete, NamesOf;
      if nItems == 0 {
        pos, ok := nItems, true;
        AddFirst(name);
        return;
      }
      var spot := Locate(name);
      if spot.Found? {
        FoundIndexed(table, before, tree, name);
        pos, ok := spot.ind, true;
      } else {
        pos, ok := HangIn(name, spot.ind, spot.LeftOf?);
      }
    }

    /** The search of add, from the root. */
    method Locate(name: string) returns (spot: Spot)
      requires Valid() && nItems > 0
      ensures tree.Node? && Ordered(tree, NamesOf(modules[..nItems])) && spot == Search(tree, NamesOf(modules[..nItems]), name)
    {
      hide Sane, InOrder, TableWith, Insert, Below, Above;
      var ind := 0;
      ghost var sub, table, names := tree, sTable[..], NamesOf(modules[..nItems]);
      while Strcmp(name, modules[ind].name) != 0
        invariant sub.Node? && sub.ind == ind < nItems
        invariant Represents(table, nItems, ind, sub) && Ordered(sub, names)
        invariant Search(sub, names, name) == Search(tree, names, name)
        decreases sub
      {
        if Strcmp(name, modules[ind].name) < 0 {
          if sTable[ind].lchild == NONE {
            return LeftOf(ind);
          }
          ind, sub := sTable[ind].lchild, sub.left;
        } else {
          if sTable[ind].rchild == NONE {
            return RightOf(ind);
          }
          ind, sub := sTable[ind].rchild, sub.right;
        }
      }
      return Found(ind);
    }

    method AppendModule(name: string, ghost grown: Tree)
      requires nItems < modules.Length
      modifies this`nItems, this`tree, modules
      ensures nItems == old(nItems) + 1 && tree == grown && modules[..nItems] == old(modules[..nItems]) + [Mod(name, 0, 0)]
    {
      modules[nItems] := Mod(name, 0, 0);
      nItems, tree := nItems + 1, grown;
    }

    /** push; not `ok` is the exit on a stack overflow. */
    method Push(pos: nat, time: nat) returns (ok: bool)
      requires Valid() && pos < nItems
      modifies this`stackTop, fnStack
      ensures ok <==> old(stackTop) < STACKSIZ
      ensures ok ==> Valid() && View() == old(View()).(stack := old(View()).stack + [Frame(pos, time, 0)])
    {
      hide Indexed;
      if stackTop + 1 > STACKSIZ {
        return false;
      }
      ghost var p := View();
      stackTop := stackTop + 1;
      fnStack[stackTop] := Frame(pos, time, 0);
      assert fnStack[..stackTop + 1] == p.stack + [Frame(pos, time, 0)];
      return true;
    }

    /** pop, and what process does with the function popped. */
    method PopAndCharge(now: nat) returns (oldPos: nat)
      requires Valid() && stackTop > 0
      modifies this`stackTop, this`totTime, this`totCalls, fnStack, modules
      ensures Valid() && View() == Popped(old(View()), now)
      ensures stackTop == old(stackTop) - 1 && oldPos == old(fnStack[stackTop].pos)
    {
      hide Indexed;
      ghost var p, table := View(), sTable[..];
      var top := fnStack[stackTop];
      stackTop := stackTop - 1;
      oldPos := top.pos;
      assert p.stack[|p.stack| - 1] == top;
      var time := now - top.time;
      fnStack[stackTop] := fnStack[stackTop].(children := Wrap(fnStack[stackTop].children + time));
      time := time - top.children;
      ChargedIndexed(table, p.modules, tree, oldPos, time);
      Account(oldPos, time);
      assert View().stack == Popped(p, now).stack;
    }

    /** `m_time`, `m_calls` and the totals. */
    method Account(pos: nat, time: int)
      requires pos < nItems <= modules.Length
      modifies this`totTime, this`totCalls, modules
      ensures modules[..nItems] == old(modules[..nItems])[pos := Charge(old(modules[pos]), time)]
      ensures totTime == Wrap(old(totTime) + time) && totCalls == Wrap(old(totCalls) + 1)
    {
      modules[pos] := Charge(modules[pos], time);
      totTime := Wrap(totTime + time);
      totCalls := Wrap(totCalls + 1);
    }

    /** The loop of process over an exit record. */
    method Leave(pos: nat, now: nat)
      requires Valid() && pos < nItems
      modifies this`stackTop, this`totTime, this`totCalls, fnStack, modules
      ensures Valid() && View() == Left(old(View()), pos, now)
    {
      hide Indexed, Popped, Orphan;
      while stackTop > 0
        invariant Valid() && Left(View(), pos, now) == Left(old(View()), pos, now)
        decreases stackTop
      {
        var oldPos := PopAndCharge(now);
        if oldPos == pos {
          return;
        }
      }
      LeaveBottom(pos, now);
    }

    method LeaveBottom(pos: nat, now: nat)
      requires Valid() && pos < nItems && stackTop == 0
      modifies this`totTime, this`totCalls, fnStack, modules
      ensures Valid() && View() == Orphan(old(View()), pos, now)
    {
      hide Indexed;
      var bottom := fnStack[0];
      var time := now - bottom.time - bottom.children;
      fnStack[0] := bottom.(time := now, children := 0);
      ChargedIndexed(sTable[..], modules[..nItems], tree, pos, time);
      Account(pos, time);
      assert fnStack[..1] == [fnStack[0]];
    }

    /** One record of the trace. */
    method Record(e: Event) returns (ok: bool)
      requires Valid()
      modifies this, fnStack, modules, sTable
      ensures ok <==> Step(old(View()), e).Some?
      ensures ok ==> Valid() && View() == Step(old(View()), e).value
    {
      hide Indexed, Left;
      var pos;
      pos, ok := Add(e.name);
      if !ok {
        return;
      }
      match e {
        case Enter(_, time) => ok := Push(pos, time);
        case Exit(_, time) => Leave(pos, time);
        case Use(_) =>
      }
    }

    /** process: the whole trace, then what is still on the stack. */
    method Process(trace: seq<Event>) returns (ok: bool)
      requires Valid()
      modifies this, fnStack, modules, sTable
      ensures ok <==> Run(old(View()), trace).Some?
      ensures ok ==> Valid() && View() == Drained(Run(old(View()), trace).value, LastTime(trace, 0))
    {
      hide Indexed, Step, Popped;
      var now := 0;
      var i := 0;
      while i < |trace|
        invariant i <= |trace| && Valid()
        invariant Run(View(), trace[i..]) == Run(old(View()), trace)
        invariant LastTime(trace[i..], now) == LastTime(trace, 0)
      {
        assert trace[i..][1..] == trace[i + 1..];
        now := TimeIn(trace[i], now);
        ok := Record(trace[i]);
        if !ok {
          return;
        }
        i := i + 1;
      }
      ok := true;
      while stackTop > 0
        invariant Valid() && Drained(View(), now) == Drained(Run(old(View()), trace).value, now)
        decreases stackTop
      {
        var oldPos := PopAndCharge(now);
      }
    }
  }
}
