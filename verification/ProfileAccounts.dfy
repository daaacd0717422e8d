/** Nothing is lost: the totals of dbug/dbug_analyze.c after every event of every trace. */
module ProfileAccounts {
  import opened ProfileSpec

  lemma PoppedStack(stack: seq<Frame>, below: Frame)
    requires |stack| >= 2
    ensures var n := |stack|;
      && SumChildren(stack) == SumChildren(stack[..n - 2]) + stack[n - 2].children + stack[n - 1].children
      && SumChildren(stack[..n - 2] + [below]) == SumChildren(stack[..n - 2]) + below.children
  {
    var n := |stack|;
    assert stack[..n - 1][..n - 2] == stack[..n - 2];
    assert (stack[..n - 2] + [below])[..n - 2] == stack[..n - 2];
  }

  lemma PoppedAccounted(p: Profile, now: nat)
    requires Sane(p) && Accounted(p) && |p.stack| >= 2
    ensures Accounted(Popped(p, now))
  {
    hide SumChildren, SumTimes, SumCalls, Wrap;
    var n := |p.stack|;
    var top, below := p.stack[n - 1], p.stack[n - 2];
    var parent := below.(children := Wrap(below.children + now - top.time));
    PoppedStack(p.stack, parent);
    ChargedSums(p.(stack := p.stack[..n - 2] + [parent]), top.pos, now - top.time - top.children);
    var rest := p.stack[0].time + SumChildren(p.stack[..n - 2]);
    WrapAdd(rest, below.children + now - top.time);
    WrapAdd(rest + below.children + top.children, now - top.time - top.children);
  }

  lemma OrphanAccounted(p: Profile, pos: nat, now: nat)
    requires Sane(p) && Accounted(p) && |p.stack| == 1 && pos < |p.modules|
    ensures Accounted(Orphan(p, pos, now))
  {
    var bottom := p.stack[0];
    assert p.stack == [bottom] && SumChildren([bottom]) == bottom.children;
    var reset := [bottom.(time := now, children := 0)];
    assert SumChildren(reset) == 0;
    ChargedSums(p.(stack := reset), pos, now - bottom.time - bottom.children);
    WrapAdd(bottom.time + bottom.children, now - bottom.time - bottom.children);
  }

  lemma AddedAccounted(p: Profile, name: string)
    requires Sane(p) && Accounted(p)
    ensures Sane(p.(modules := Added(p.modules, name))) && Accounted(p.(modules := Added(p.modules, name)))
  {
    var more := p.modules + [Mod(name, 0, 0)];
    assert more[..|p.modules|] == p.modules;
  }

  lemma {:induction false} LeftAccounted(p: Profile, pos: nat, now: nat)
    requires Sane(p) && Accounted(p) && pos < |p.modules|
    ensures Accounted(Left(p, pos, now))
    decreases |p.stack|
  {
    hide Accounted, SumChildren;
    if |p.stack| == 1 {
      OrphanAccounted(p, pos, now);
    } else {
      PoppedAccounted(p, now);
      if p.stack[|p.stack| - 1].pos != pos {
        LeftAccounted(Popped(p, now), pos, now);
      }
    }
  }

  lemma StepAccounted(p: Profile, e: Event)
    requires Sane(p) && Accounted(p) && Step(p, e).Some?
    ensures Accounted(Step(p, e).value)
  {
    AddedAccounted(p, e.name);
    var q := p.(modules := Added(p.modules, e.name));
    match e
    case Enter(_, time) =>
      var more := q.stack + [Frame(IndexOf(p.modules, e.name), time, 0)];
      assert more[..|q.stack|] == q.stack;
    case Exit(_, time) => LeftAccounted(q, IndexOf(p.modules, e.name), time);
    case Use(_) =>
  }

  /** After every event of any trace, matched or not. */
  lemma {:induction false} RunAccounted(p: Profile, trace: seq<Event>)
    requires Sane(p) && Accounted(p) && Run(p, trace).Some?
    ensures Accounted(Run(p, trace).value)
    decreases |trace|
  {
    if trace != [] {
      StepAccounted(p, trace[0]);
      hide Accounted;
      RunAccounted(Step(p, trace[0]).value, trace[1..]);
    }
  }

  lemma {:induction false} DrainedAccounted(p: Profile, now: nat)
    requires Sane(p) && Accounted(p)
    ensures Accounted(Drained(p, now))
    decreases |p.stack|
  {
    hide Accounted, SumChildren;
    if |p.stack| > 1 {
      PoppedAccounted(p, now);
      DrainedAccounted(Popped(p, now), now);
    }
  }

  lemma StartAccounted()
    ensures Sane(Start()) && Accounted(Start())
  {
    assert SumChildren([Frame(0, 0, 0)]) == 0;
  }

  // ---------------------------------------------------------------- how many calls

  function Entries(trace: seq<Event>): nat {
    if trace == [] then 0 else (if trace[0].Enter? then 1 else 0) + Entries(trace[1..])
  }

  /** An exit that finds no entry of its function on the stack. */
  predicate IsOrphan(p: Profile, e: Event)
    requires Sane(p)
  {
    e.Exit? && forall k | 0 < k < |p.stack| :: p.modules[p.stack[k].pos].name != e.name
  }

  function Orphans(p: Profile, trace: seq<Event>): nat
    requires Sane(p)
    decreases |trace|
  {
    if trace == [] || Step(p, trace[0]).None? then 0
    else (if IsOrphan(p, trace[0]) then 1 else 0) + Orphans(Step(p, trace[0]).value, trace[1..])
  }

  /** Calls counted, and functions still on the stack. */
  function Calls(p: Profile): int {
    p.totCalls + |p.stack| - 1
  }

  ghost predicate OnStack(p: Profile, pos: nat) {
    exists k :: 0 < k < |p.stack| && p.stack[k].pos == pos
  }

  lemma PoppedCalls(p: Profile, pos: nat, now: nat)
    requires Sane(p) && |p.stack| > 1
    ensures Wrap(Calls(Popped(p, now))) == Wrap(Calls(p))
    ensures OnStack(p, pos) <==> p.stack[|p.stack| - 1].pos == pos || OnStack(Popped(p, now), pos)
  {
    WrapAdd(p.totCalls + 1, |p.stack| - 2);
    hide Wrap;
    var q := Popped(p, now);
    assert forall k | 0 < k < |q.stack| :: q.stack[k].pos == p.stack[k].pos;
    if OnStack(p, pos) && p.stack[|p.stack| - 1].pos != pos {
      var k :| 0 < k < |p.stack| && p.stack[k].pos == pos;
      assert 0 < k < |q.stack| && q.stack[k].pos == pos;
    }
    if k :| 0 < k < |q.stack| && q.stack[k].pos == pos {
      assert p.stack[k].pos == pos;
    }
  }

  lemma OrphanCalls(p: Profile, pos: nat, now: nat)
    requires Sane(p) && |p.stack| == 1 && pos < |p.modules|
    ensures Wrap(Calls(Orphan(p, pos, now))) == Wrap(Calls(p) + 1) && !OnStack(p, pos)
  {
    WrapAdd(p.totCalls + 1, 0);
    hide Wrap;
  }

  lemma LeftOnce(p: Profile, pos: nat, now: nat)
    requires Sane(p) && |p.stack| > 1 && pos < |p.modules|
    ensures var q := Popped(p, now);
      && Sane(q) && |q.stack| == |p.stack| - 1 && |q.modules| == |p.modules|
      && Left(p, pos, now) == if p.stack[|p.stack| - 1].pos == pos then q else Left(q, pos, now)
  {
  }

  lemma {:induction false} LeftCalls(p: Profile, pos: nat, now: nat)
    requires Sane(p) && pos < |p.modules|
    ensures Wrap(Calls(Left(p, pos, now))) == Wrap(Calls(p) + if OnStack(p, pos) then 0 else 1)
    decreases |p.stack|
  {
    hide Wrap, OnStack, Popped, Calls, Orphan;
    if |p.stack| == 1 {
      OrphanCalls(p, pos, now);
    } else {
      var q := Popped(p, now);
      LeftOnce(p, pos, now);
      PoppedCalls(p, pos, now);
      hide Left, Sane;
      if p.stack[|p.stack| - 1].pos != pos {
        LeftCalls(q, pos, now);
        SameAndMore(Calls(q), Calls(p), if OnStack(p, pos) then 0 else 1);
      }
    }
  }

  lemma SameAndMore(a: int, b: int, more: int)
    requires Wrap(a) == Wrap(b)
    ensures Wrap(a + more) == Wrap(b + more)
  {
    hide Wrap;
    WrapAdd(a, more);
    WrapAdd(b, more);
  }

  lemma StepCalls(p: Profile, e: Event)
    requires Sane(p) && Step(p, e).Some?
    ensures Wrap(Calls(Step(p, e).value)) == Wrap(Calls(p) + (if e.Enter? then 1 else 0) + if IsOrphan(p, e) then 1 else 0)
  {
    hide Left, Wrap;
    var pos := IndexOf(p.modules, e.name);
    var q := p.(modules := Added(p.modules, e.name));
    if e.Exit? {
      OrphanMeans(p, q, pos, e);
      hide OnStack, IsOrphan, Sane, IndexOf;
      LeftCalls(q, pos, e.time);
    }
  }

  lemma OrphanMeans(p: Profile, q: Profile, pos: nat, e: Event)
    requires Sane(p) && e.Exit? && pos == IndexOf(p.modules, e.name) && q == p.(modules := Added(p.modules, e.name))
    ensures Sane(q) && pos < |q.modules| && Calls(q) == Calls(p) && (IsOrphan(p, e) <==> !OnStack(q, pos))
  {
    forall k | 0 < k < |p.stack| ensures p.stack[k].pos == pos <==> p.modules[p.stack[k].pos].name == e.name {
      SameName(p.modules, e.name, p.stack[k].pos);
    }
  }

  lemma SameName(modules: seq<Mod>, name: string, i: nat)
    requires i < |modules| && forall i, j | 0 <= i < j < |modules| :: modules[i].name != modules[j].name
    ensures IndexOf(modules, name) == i <==> modules[i].name == name
  {
  }

  lemma {:induction false} RunCalls(p: Profile, trace: seq<Event>)
    requires Sane(p) && Run(p, trace).Some?
    ensures Wrap(Calls(Run(p, trace).value)) == Wrap(Calls(p) + Entries(trace) + Orphans(p, trace))
    decreases |trace|
  {
    hide Wrap, IsOrphan, Step;
    if trace != [] {
      var q := Step(p, trace[0]).value;
      StepCalls(p, trace[0]);
      RunCalls(q, trace[1..]);
      var more := Entries(trace[1..]) + Orphans(q, trace[1..]);
      WrapAdd(Calls(q), more);
      WrapAdd(Calls(p) + (if trace[0].Enter? then 1 else 0) + if IsOrphan(p, trace[0]) then 1 else 0, more);
    }
  }

  lemma {:induction false} DrainedCalls(p: Profile, now: nat)
    requires Sane(p)
    ensures Wrap(Calls(Drained(p, now))) == Wrap(Calls(p))
    decreases |p.stack|
  {
    if |p.stack| > 1 {
      var q := Popped(p, now);
      WrapAdd(p.totCalls + 1, |p.stack| - 2);
      hide Wrap;
      DrainedCalls(q, now);
    }
  }

  /** At the end of any trace: the total is the number of entries and orphaned exits. */
  lemma TotalCalls(trace: seq<Event>, now: nat)
    requires Run(Start(), trace).Some?
    ensures Wrap(Drained(Run(Start(), trace).value, now).totCalls) == Wrap(Entries(trace) + Orphans(Start(), trace))
  {
    hide Run, Wrap, Orphans, Entries, Drained, Calls;
    var q := Run(Start(), trace).value;
    CallsAtBottom(Start());
    CallsAtBottom(Drained(q, now));
    RunCalls(Start(), trace);
    DrainedCalls(q, now);
  }

  lemma CallsAtBottom(p: Profile)
    requires |p.stack| == 1
    ensures Calls(p) == p.totCalls
  {
  }
}
