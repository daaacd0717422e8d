/** out_body, out_item and output of dbug/dbug_analyze.c: the sorted report and its sums. */
module ProfileReport {
  import opened Prelude
  import opened ProfileSpec
  import opened ProfileAccounts
  import opened ProfileNested
  import opened ProfileClock
  import opened SymbolTree
  import opened DbugAnalyze

  function ListTime(modules: seq<Mod>, list: seq<nat>): nat {
    if list == [] then 0
    else ListTime(modules, list[..|list| - 1]) + if list[|list| - 1] < |modules| then modules[list[|list| - 1]].time else 0
  }

  /** The calls as out_item reports them. */
  function ListCalls(modules: seq<Mod>, list: seq<nat>): nat {
    if list == [] then 0
    else ListCalls(modules, list[..|list| - 1]) + if list[|list| - 1] < |modules| then modules[list[|list| - 1]].calls % UINT else 0
  }

  lemma {:induction false} ListSums(modules: seq<Mod>, a: seq<nat>, b: seq<nat>)
    ensures ListTime(modules, a + b) == ListTime(modules, a) + ListTime(modules, b)
    ensures ListCalls(modules, a + b) == ListCalls(modules, a) + ListCalls(modules, b)
    decreases |b|
  {
    if b == [] {
      assert a + b == a;
    } else {
      assert (a + b)[..|a + b| - 1] == a + b[..|b| - 1];
      ListSums(modules, a, b[..|b| - 1]);
    }
  }

  lemma ListOne(modules: seq<Mod>, list: seq<nat>, k: nat)
    requires k < |modules|
    ensures ListCalls(modules, list + [k]) == ListCalls(modules, list) + modules[k].calls % UINT
    ensures ListTime(modules, list + [k]) == ListTime(modules, list) + modules[k].time
  {
    assert (list + [k])[..|list|] == list;
  }

  /** Sums that started at `sCalls` and `sTime` and now have these items in them. */
  ghost predicate Summed(modules: seq<Mod>, list: seq<nat>, sCalls: nat, sTime: nat, calls: nat, time: nat) {
    calls == Wrap(sCalls + ListCalls(modules, list)) && time == Wrap(sTime + ListTime(modules, list))
  }

  lemma SummedNone(modules: seq<Mod>, sCalls: nat, sTime: nat)
    ensures Summed(modules, [], sCalls, sTime, Wrap(sCalls), Wrap(sTime))
  {
  }

  lemma SummedBoth(modules: seq<Mod>, a: seq<nat>, b: seq<nat>, c0: nat, t0: nat, c1: nat, t1: nat, c2: nat, t2: nat)
    requires Summed(modules, a, c0, t0, c1, t1) && Summed(modules, b, c1, t1, c2, t2)
    ensures Summed(modules, a + b, c0, t0, c2, t2)
  {
    hide Wrap;
    ListSums(modules, a, b);
    WrapAdd(c0 + ListCalls(modules, a), ListCalls(modules, b));
    WrapAdd(t0 + ListTime(modules, a), ListTime(modules, b));
  }

  lemma SummedOne(modules: seq<Mod>, a: seq<nat>, k: nat, c0: nat, t0: nat, c1: nat, t1: nat)
    requires Summed(modules, a, c0, t0, c1, t1) && k < |modules|
    ensures Summed(modules, a + [k], c0, t0, Wrap(c1 + modules[k].calls % UINT), Wrap(t1 + modules[k].time))
  {
    hide Wrap;
    ListOne(modules, a, k);
    WrapAdd(c0 + ListCalls(modules, a), modules[k].calls % UINT);
    WrapAdd(t0 + ListTime(modules, a), modules[k].time);
  }

  /** out_item: what it adds to the sums. */
  method OutItem(m: Mod) returns (calls: nat, time: nat)
    ensures calls == m.calls % UINT && time == m.time
  {
    calls, time := m.calls % UINT, m.time;
  }

  lemma InOrderParts(t: Tree, before: seq<nat>)
    ensures t.Node? ==> before + InOrder(t) == before + (InOrder(t.left) + [t.ind]) + InOrder(t.right)
    ensures !t.Node? ==> before + InOrder(t) == before
  {
  }

  /** out_body: the functions in the order printed, and the sums. */
  method OutBody(a: Analyzer, root: nat, sCalls: nat, sTime: nat, ghost t: Tree) returns (printed: seq<nat>, calls: nat, time: nat)
    requires a.Valid() && Represents(a.sTable[..], a.nItems, root, t)
    ensures printed == InOrder(t)
    ensures Summed(a.modules[..a.nItems], printed, sCalls, sTime, calls, time)
    decreases t, 1
  {
    hide Indexed, Sane, Wrap, Summed, InOrder;
    ghost var rest, table, modules := t, a.sTable[..], a.modules[..a.nItems];
    printed, calls, time := [], Wrap(sCalls), Wrap(sTime);
    SummedNone(modules, sCalls, sTime);
    var node := root;
    while node != NONE
      invariant rest == t || rest < t
      invariant Represents(table, a.nItems, node, rest) && printed + InOrder(rest) == InOrder(t)
      invariant Summed(modules, printed, sCalls, sTime, calls, time)
      decreases rest
    {
      ghost var calls0, time0 := calls, time;
      var items;
      items, calls, time := OutNode(a, node, calls, time, rest);
      SummedBoth(modules, printed, items, sCalls, sTime, calls0, time0, calls, time);
      InOrderParts(rest, printed);
      printed := printed + items;
      node, rest := a.sTable[node].rchild, rest.right;
    }
    InOrderParts(rest, printed);
  }

  /** The left subtree of a node and the node itself. */
  method OutNode(a: Analyzer, node: nat, sCalls: nat, sTime: nat, ghost t: Tree) returns (items: seq<nat>, calls: nat, time: nat)
    requires a.Valid() && t.Node? && Represents(a.sTable[..], a.nItems, node, t)
    ensures items == InOrder(t.left) + [t.ind]
    ensures Summed(a.modules[..a.nItems], items, sCalls, sTime, calls, time)
    decreases t, 0
  {
    hide Indexed, Sane, Wrap, Summed, InOrder;
    items, calls, time := OutBody(a, a.sTable[node].lchild, sCalls, sTime, t.left);
    var itemCalls, itemTime := OutItem(a.modules[a.sTable[node].pos]);
    SummedOne(a.modules[..a.nItems], items, node, sCalls, sTime, calls, time);
    calls, time := Wrap(calls + itemCalls), Wrap(time + itemTime);
    items := items + [a.sTable[node].pos];
  }

  // ---------------------------------------------------------------- the whole report

  /** All the calls as out_item reports them. */
  function SumReported(modules: seq<Mod>): nat {
    if modules == [] then 0 else SumReported(modules[..|modules| - 1]) + modules[|modules| - 1].calls % UINT
  }

  ghost predicate EachOnce(list: seq<nat>, n: nat) {
    && |list| == n
    && (forall k: nat :: k in list <==> k < n)
    && (forall i, j | 0 <= i < j < |list| :: list[i] != list[j])
  }

  lemma {:induction false} FewerModules(modules: seq<Mod>, n: nat, list: seq<nat>)
    requires n <= |modules| && forall i | 0 <= i < |list| :: list[i] < n
    ensures ListTime(modules, list) == ListTime(modules[..n], list) && ListCalls(modules, list) == ListCalls(modules[..n], list)
    decreases |list|
  {
    if list != [] {
      FewerModules(modules, n, list[..|list| - 1]);
    }
  }

  lemma TakenOut(list: seq<nat>, n: nat, i: nat)
    requires n > 0 && EachOnce(list, n) && i < |list| && list[i] == n - 1
    ensures EachOnce(list[..i] + list[i + 1..], n - 1)
  {
    var rest := list[..i] + list[i + 1..];
    forall k: nat ensures k in rest <==> k < n - 1 {
      if k < n - 1 {
        assert k in list;
        var j :| 0 <= j < |list| && list[j] == k;
        assert rest[if j < i then j else j - 1] == k;
      }
      if k in rest {
        var j :| 0 <= j < |rest| && rest[j] == k;
        assert rest[j] == list[if j < i then j else j + 1];
        assert list[if j < i then j else j + 1] in list;
      }
    }
  }

  lemma Where(list: seq<nat>, n: nat) returns (i: nat)
    requires n > 0 && EachOnce(list, n)
    ensures i < |list| && list[i] == n - 1
  {
    var last: nat := n - 1;
    assert last in list;
    i :| i < |list| && list[i] == last;
  }

  lemma SumsAround(modules: seq<Mod>, list: seq<nat>, i: nat)
    requires i < |list| && list[i] < |modules|
    ensures ListTime(modules, list) == ListTime(modules, list[..i] + list[i + 1..]) + modules[list[i]].time
    ensures ListCalls(modules, list) == ListCalls(modules, list[..i] + list[i + 1..]) + modules[list[i]].calls % UINT
  {
    hide ListTime, ListCalls;
    var a, b := list[..i], list[i + 1..];
    assert list == a + [list[i]] + b;
    ListSums(modules, a + [list[i]], b);
    ListOne(modules, a, list[i]);
    ListSums(modules, a, b);
  }

  /** The order does not matter for the sums. */
  lemma {:induction false} SumsOfAll(modules: seq<Mod>, list: seq<nat>)
    requires EachOnce(list, |modules|)
    ensures ListTime(modules, list) == SumTimes(modules) && ListCalls(modules, list) == SumReported(modules)
    decreases |modules|
  {
    var n := |modules|;
    if n == 0 {
      assert list == [];
    } else {
      var i := Where(list, n);
      TakenOut(list, n, i);
      hide EachOnce, SumTimes, SumReported, ListTime, ListCalls;
      SumsAround(modules, list, i);
      SumsWithoutLast(modules, list[..i] + list[i + 1..]);
    }
  }

  lemma {:induction false} SumsWithoutLast(modules: seq<Mod>, list: seq<nat>)
    requires modules != [] && EachOnce(list, |modules| - 1)
    ensures ListTime(modules, list) + modules[|modules| - 1].time == SumTimes(modules)
    ensures ListCalls(modules, list) + modules[|modules| - 1].calls % UINT == SumReported(modules)
    decreases |modules|, 0
  {
    forall i | 0 <= i < |list| ensures list[i] < |modules| - 1 {
      assert list[i] in list;
    }
    FewerModules(modules, |modules| - 1, list);
    SumsOfAll(modules[..|modules| - 1], list);
  }

  lemma PrintedOnce(modules: seq<Mod>, tree: Tree)
    requires Complete(modules, tree)
    ensures Increasing(InOrder(tree), NamesOf(modules)) && EachOnce(InOrder(tree), |modules|)
  {
    hide InOrder, Ordered, NamesOf, Increasing;
    InOrderIncreasing(tree, NamesOf(modules));
    IncreasingDistinct(InOrder(tree), NamesOf(modules));
  }

  lemma IncreasingDistinct(list: seq<nat>, names: seq<string>)
    requires Increasing(list, names)
    ensures forall i, j | 0 <= i < j < |list| :: list[i] != list[j]
  {
    forall i, j | 0 <= i < j < |list| ensures list[i] != list[j] {
      var a, b := list[i], list[j];
      assert a < |names| && b < |names| && Strcmp(names[a], names[b]) < 0;
      StrcmpEqual(names[a], names[b]);
    }
  }

  /** output: every function once, in increasing order of the names; the times printed add up
      to the total time. */
  method Output(a: Analyzer) returns (ok: bool, printed: seq<nat>, sumCalls: nat, sumTime: nat)
    requires a.Valid() && Accounted(a.View())
    ensures ok <==> a.nItems > 0
    ensures ok ==> Increasing(printed, NamesOf(a.modules[..a.nItems])) && EachOnce(printed, a.nItems)
    ensures ok ==> sumTime == a.totTime && sumCalls == Wrap(SumReported(a.modules[..a.nItems]))
  {
    hide Represents, Ordered, InOrder, Increasing, EachOnce, Sane;
    printed, sumCalls, sumTime := [], 0, 0;
    if a.nItems == 0 {
      return false, printed, sumCalls, sumTime;
    }
    ok := true;
    PrintedOnce(a.modules[..a.nItems], a.tree);
    printed, sumCalls, sumTime := OutBody(a, 0, 0, 0, a.tree);
    SumsOfAll(a.modules[..a.nItems], printed);
  }

  // ---------------------------------------------------------------- where the sums of calls differ

  lemma {:induction false} ReportedLess(modules: seq<Mod>)
    ensures SumReported(modules) <= SumCalls(modules)
    ensures SumReported(modules) == SumCalls(modules) <==> forall i | 0 <= i < |modules| :: modules[i].calls < UINT
  {
    if modules != [] {
      var n := |modules| - 1;
      ReportedLess(modules[..n]);
      assert forall i | 0 <= i < n :: modules[i] == modules[..n][i];
      CutCalls(modules[n].calls);
    }
  }

  lemma CutCalls(calls: nat)
    ensures calls % UINT <= calls && (calls % UINT == calls <==> calls < UINT)
  {
  }

  /** What out_item cuts off the calls. */
  function CutOff(modules: seq<Mod>): nat {
    if modules == [] then 0 else CutOff(modules[..|modules| - 1]) + modules[|modules| - 1].calls / UINT
  }

  lemma {:induction false} ReportedAndCut(modules: seq<Mod>)
    ensures SumCalls(modules) == SumReported(modules) + UINT * CutOff(modules)
  {
    if modules != [] {
      ReportedAndCut(modules[..|modules| - 1]);
    }
  }

  /** Numbers that differ by `d` are the same `unsigned long` if it divides `d`. */
  lemma WrapSame(a: int, d: int)
    ensures Wrap(a) == Wrap(a + d) <==> Wrap(d) == 0
  {
    WrapAdd(a + d, -a);
    WrapAdd(a, -a);
    WrapAdd(d, a);
  }

  /** The sum of the calls is the total counted if and only if what was cut off makes whole
      `unsigned long`s: where the calls add up to less than one, if and only if no function was
      called 2^32 times. */
  lemma CallsReported(p: Profile)
    requires Accounted(p)
    ensures Wrap(SumReported(p.modules)) == p.totCalls <==> Wrap(UINT * CutOff(p.modules)) == 0
    ensures SumCalls(p.modules) < ULONG ==>
      (Wrap(SumReported(p.modules)) == p.totCalls <==> forall i | 0 <= i < |p.modules| :: p.modules[i].calls < UINT)
  {
    ReportedLess(p.modules);
    ReportedAndCut(p.modules);
    WrapSame(SumReported(p.modules), UINT * CutOff(p.modules));
  }

  /** `n` exits of a function that was not entered. */
  function Exits(n: nat): seq<Event> {
    seq(n, _ => Exit("f", 0))
  }

  /** The profile after `calls` of them. */
  function Orphaned(calls: nat): (p: Profile)
    ensures Sane(p)
  {
    Profile([Mod("f", 0, calls)], [Frame(0, 0, 0)], 0, calls)
  }

  lemma OneExit(calls: nat)
    ensures Step(Orphaned(calls), Exit("f", 0)) == Some(Orphaned(Wrap(calls + 1)))
  {
    var p := Orphaned(calls);
    assert IndexOf(p.modules, "f") == 0;
    assert p.modules[0 := Charge(p.modules[0], 0)] == [Mod("f", 0, Wrap(calls + 1))];
  }

  lemma RunMore(p: Profile, trace: seq<Event>, q: Profile)
    requires Sane(p) && trace != [] && Step(p, trace[0]) == Some(q)
    ensures Run(p, trace) == Run(q, trace[1..])
  {
  }

  lemma WrapSmall(x: int)
    ensures Wrap(x) < ULONG && (0 <= x < ULONG ==> Wrap(x) == x)
  {
  }

  lemma ExitsMore(n: nat)
    ensures if n == 0 then Exits(n) == [] else Exits(n) != [] && Exits(n)[0] == Exit("f", 0) && Exits(n)[1..] == Exits(n - 1)
  {
  }

  lemma {:induction false} ManyExits(calls: nat, n: nat)
    requires calls < ULONG
    ensures Run(Orphaned(calls), Exits(n)) == Some(Orphaned(Wrap(calls + n)))
    decreases n
  {
    hide Step, Orphaned, Wrap, Exits;
    ExitsMore(n);
    WrapSmall(calls);
    WrapSmall(calls + 1);
    if n > 0 {
      OneExit(calls);
      RunMore(Orphaned(calls), Exits(n), Orphaned(Wrap(calls + 1)));
      hide Run;
      ManyExits(Wrap(calls + 1), n - 1);
      WrapAdd(calls + 1, n - 1);
    }
  }

  /** A trace on which the sum of the calls printed is not the number counted, if an `unsigned
      long` is longer than an `unsigned int`: one function is left 2^32 times. */
  lemma ManyCallsLost()
    ensures var q := Run(Start(), Exits(UINT));
      && q.Some? && q.value.totCalls == Wrap(UINT)
      && var p := Drained(q.value, LastTime(Exits(UINT), 0));
        SumReported(p.modules) == 0 && (p.totCalls == 0 <==> ULONG == UINT)
  {
    FirstExit();
    assert Exits(UINT)[1..] == Exits(UINT - 1);
    hide Step, Wrap;
    ManyExits(1, UINT - 1);
    WrapUint();
  }

  lemma FirstExit()
    ensures Step(Start(), Exit("f", 0)) == Some(Orphaned(1))
  {
    var q, e := Orphaned(0), Exit("f", 0);
    OneExit(0);
    assert IndexOf(q.modules, "f") == 0 && Added(Start().modules, "f") == q.modules;
    hide Left;
    assert Step(q, e) == Some(Left(q, 0, 0)) == Step(Start(), e);
  }

  lemma WrapUint()
    ensures Wrap(UINT) % UINT == 0 && (Wrap(UINT) == 0 <==> ULONG == UINT)
  {
  }

  lemma ByTheClock(trace: seq<Event>, q: Profile)
    requires Run(Start(), trace) == Some(q)
    ensures var r, c := Drained(q, LastTime(trace, 0)), After(MIDNIGHT, trace);
      && r.totTime == Wrap(c.last - c.idle) && NameSet(r.modules) == NamesIn(trace)
      && (forall f :: Wrap(TimeOf(r, f)) == Wrap(Spent(MIDNIGHT, trace, f)))
      && (forall f :: Wrap(CallsOf(r, f)) == Wrap(Called(MIDNIGHT, trace, f)))
  {
    hide *;
    ReadToTheEnd(trace);
    TotalIsClock(trace);
    DrainedNames(q, LastTime(trace, 0));
    SameNameSet(q.modules, Drained(q, LastTime(trace, 0)).modules);
    forall f: string
      ensures Wrap(TimeOf(Drained(q, LastTime(trace, 0)), f)) == Wrap(Spent(MIDNIGHT, trace, f))
      ensures Wrap(CallsOf(Drained(q, LastTime(trace, 0)), f)) == Wrap(Called(MIDNIGHT, trace, f))
    {
      ReportIsClock(trace, f);
    }
  }

  lemma NoNames(modules: seq<Mod>, trace: seq<Event>)
    requires NameSet(modules) == NamesIn(trace)
    ensures modules == [] <==> trace == []
  {
    if modules != [] {
      assert modules[0].name in NameSet(modules);
    }
    if trace != [] {
      assert trace[0].name in NamesIn(trace);
    }
  }

  /** A whole run: reading a trace and printing the report. */
  method ProfileTrace(trace: seq<Event>) returns (ok: bool, a: Analyzer, printed: seq<nat>, sumCalls: nat, sumTime: nat)
    ensures ok <==> Run(Start(), trace).Some? && a.nItems > 0
    ensures Run(Start(), trace).Some? ==> a.Valid() && a.View() == Drained(Run(Start(), trace).value, LastTime(trace, 0))
    ensures ok ==> Increasing(printed, NamesOf(a.modules[..a.nItems])) && EachOnce(printed, a.nItems)
    ensures ok ==> sumTime == a.totTime && sumCalls == Wrap(SumReported(a.modules[..a.nItems]))
    ensures ok ==> Wrap(a.totCalls) == Wrap(Entries(trace) + Orphans(Start(), trace))
    // said by the clock
    ensures ok <==> trace != [] && OpenWithin(MIDNIGHT, trace, 100) && |NamesIn(trace)| <= 10000
    ensures ok ==> NameSet(a.modules[..a.nItems]) == NamesIn(trace)
    ensures ok ==> forall f :: Wrap(TimeOf(a.View(), f)) == Wrap(Spent(MIDNIGHT, trace, f))
    ensures ok ==> forall f :: Wrap(CallsOf(a.View(), f)) == Wrap(Called(MIDNIGHT, trace, f))
    ensures ok ==> var c := After(MIDNIGHT, trace); sumTime == Wrap(c.last - c.idle)
  {
    ReadToTheEnd(trace);
    a := new Analyzer();
    ok := a.Process(trace);
    printed, sumCalls, sumTime := [], 0, 0;
    if ok {
      ghost var q := Run(Start(), trace).value;
      StartAccounted();
      RunAccounted(Start(), trace);
      DrainedAccounted(q, LastTime(trace, 0));
      TotalCalls(trace, LastTime(trace, 0));
      ByTheClock(trace, q);
      NoNames(a.modules[..a.nItems], trace);
      ok, printed, sumCalls, sumTime := Output(a);
    }
  }
}
