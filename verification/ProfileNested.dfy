/** What dbug/dbug_analyze.c reports for a program whose entries and exits match. */
module ProfileNested {
  import opened Prelude
  import opened ProfileSpec
  import opened ProfileAccounts

  /** The calls that a function makes, one after the other. */
  datatype Forest = NoCalls | Call(name: string, enter: nat, body: Forest, leave: nat, next: Forest)

  function Trace(c: Forest): seq<Event> {
    match c
    case NoCalls => []
    case Call(name, enter, body, leave, next) => [Enter(name, enter)] + Trace(body) + [Exit(name, leave)] + Trace(next)
  }

  /** The time from entry to exit of these calls together. */
  function Inside(c: Forest): int {
    match c
    case NoCalls => 0
    case Call(_, enter, _, leave, next) => leave - enter + Inside(next)
  }

  /** The time spent in function `f` itself, in all its calls, recursive ones too. */
  function SelfTime(c: Forest, f: string): int {
    match c
    case NoCalls => 0
    case Call(name, enter, body, leave, next) =>
      (if name == f then leave - enter - Inside(body) else 0) + SelfTime(body, f) + SelfTime(next, f)
  }

  /** How often `f` is called. */
  function Count(c: Forest, f: string): nat {
    match c
    case NoCalls => 0
    case Call(name, _, body, _, next) => (if name == f then 1 else 0) + Count(body, f) + Count(next, f)
  }

  // ---------------------------------------------------------------- what is noted for a name

  function TimeOf(p: Profile, f: string): nat {
    var i := IndexOf(p.modules, f);
    if i < |p.modules| then p.modules[i].time else 0
  }

  function CallsOf(p: Profile, f: string): nat {
    var i := IndexOf(p.modules, f);
    if i < |p.modules| then p.modules[i].calls else 0
  }

  /** The table only grows; indexes keep their names. */
  ghost predicate Grown(a: seq<Mod>, b: seq<Mod>) {
    |a| <= |b| && forall i | 0 <= i < |a| :: b[i].name == a[i].name
  }

  lemma SameIndex(a: seq<Mod>, b: seq<Mod>, f: string)
    requires Grown(a, b) && Distinct(a) && Distinct(b)
    ensures IndexOf(a, f) < |a| || |a| == |b| ==> IndexOf(b, f) == if IndexOf(a, f) < |a| then IndexOf(a, f) else |b|
  {
    if IndexOf(a, f) < |a| {
      SameName(b, f, IndexOf(a, f));
    } else if IndexOf(b, f) < |a| {
      SameName(a, f, IndexOf(b, f));
    }
  }

  ghost predicate Distinct(modules: seq<Mod>) {
    forall i, j | 0 <= i < j < |modules| :: modules[i].name != modules[j].name
  }

  lemma ChargedOf(p: Profile, pos: nat, time: int, f: string)
    requires Sane(p) && pos < |p.modules|
    ensures var q := Charged(p, pos, time);
      && Sane(q) && Grown(p.modules, q.modules) && q.stack == p.stack
      && (if p.modules[pos].name == f then TimeOf(q, f) == Wrap(TimeOf(p, f) + time) && CallsOf(q, f) == Wrap(CallsOf(p, f) + 1)
          else TimeOf(q, f) == TimeOf(p, f) && CallsOf(q, f) == CallsOf(p, f))
  {
    hide Wrap;
    SameIndex(p.modules, Charged(p, pos, time).modules, f);
    SameName(p.modules, f, pos);
  }

  lemma AddedOf(p: Profile, name: string, f: string)
    requires Sane(p)
    ensures var q := p.(modules := Added(p.modules, name));
      && Sane(q) && Grown(p.modules, q.modules) && TimeOf(q, f) == TimeOf(p, f) && CallsOf(q, f) == CallsOf(p, f)
      && IndexOf(p.modules, name) < |q.modules| && q.modules[IndexOf(p.modules, name)].name == name
  {
    var more := Added(p.modules, name);
    assert Distinct(more);
    SameIndex(p.modules, more, f);
    if IndexOf(p.modules, f) == |p.modules| && IndexOf(more, f) < |more| {
      assert more[IndexOf(more, f)] == Mod(name, 0, 0);
    }
  }

  /** What the calls did to the profile: to the frames, and to the entry of `f`. */
  ghost predicate Did(p: Profile, q: Profile, inside: int, f: string, time: int, calls: int) {
    && Grown(p.modules, q.modules)
    && |q.stack| == |p.stack| >= 1 && TopAfter(p.stack, q.stack, inside)
    && Wrap(TimeOf(q, f)) == Wrap(TimeOf(p, f) + time)
    && Wrap(CallsOf(q, f)) == Wrap(CallsOf(p, f) + calls)
  }

  /** The frames are the same, with `inside` more for the children of the top one. */
  ghost predicate TopAfter(a: seq<Frame>, b: seq<Frame>, inside: int)
    requires |a| == |b| >= 1
  {
    var last := |a| - 1;
    && b[..last] == a[..last] && b[last].pos == a[last].pos && b[last].time == a[last].time
    && Wrap(b[last].children) == Wrap(a[last].children + inside)
  }

  lemma DidBoth(p: Profile, q: Profile, r: Profile, inside: int, inside': int, f: string, time: int, time': int, calls: int, calls': int)
    requires Did(p, q, inside, f, time, calls) && Did(q, r, inside', f, time', calls')
    ensures Did(p, r, inside + inside', f, time + time', calls + calls')
  {
    hide Wrap, TimeOf, CallsOf;
    var last := |p.stack| - 1;
    Chained(p.stack[last].children, q.stack[last].children, r.stack[last].children, inside, inside');
    Chained(TimeOf(p, f), TimeOf(q, f), TimeOf(r, f), time, time');
    Chained(CallsOf(p, f), CallsOf(q, f), CallsOf(r, f), calls, calls');
  }

  lemma Chained(a: int, b: int, c: int, x: int, y: int)
    requires Wrap(b) == Wrap(a + x) && Wrap(c) == Wrap(b + y)
    ensures Wrap(c) == Wrap(a + x + y)
  {
    WrapAdd(b, y);
    WrapAdd(a + x, y);
  }

  lemma {:induction false} RunBoth(p: Profile, a: seq<Event>, b: seq<Event>)
    requires Sane(p) && Run(p, a + b).Some?
    ensures Run(p, a).Some? && Run(p, a + b) == Run(Run(p, a).value, b)
    decreases |a|
  {
    hide Step, Sane;
    if a == [] {
      assert a + b == b;
    } else {
      assert (a + b)[1..] == a[1..] + b;
      RunBoth(Step(p, a[0]).value, a[1..], b);
    }
  }

  lemma RunOne(p: Profile, e: Event)
    requires Sane(p)
    ensures Run(p, [e]) == Step(p, e)
  {
    hide Step, Sane;
    assert [e][1..] == [];
  }

  /** An entry: a new frame, nothing noted yet. */
  lemma Entered(p: Profile, name: string, enter: nat, f: string)
    requires Sane(p) && Step(p, Enter(name, enter)).Some?
    ensures var b, pos := Step(p, Enter(name, enter)).value, IndexOf(p.modules, name);
      && Grown(p.modules, b.modules) && b.stack == p.stack + [Frame(pos, enter, 0)]
      && pos < |b.modules| && b.modules[pos].name == name
      && TimeOf(b, f) == TimeOf(p, f) && CallsOf(b, f) == CallsOf(p, f)
  {
    AddedOf(p, name, f);
  }

  /** An exit of the function on top. */
  lemma Exited(d: Profile, name: string, leave: nat)
    requires Sane(d) && |d.stack| > 1 && d.modules[d.stack[|d.stack| - 1].pos].name == name
    ensures Step(d, Exit(name, leave)) == Some(Popped(d, leave))
  {
    SameName(d.modules, name, d.stack[|d.stack| - 1].pos);
  }

  lemma PoppedOf(d: Profile, name: string, leave: nat, f: string)
    requires Sane(d) && |d.stack| > 1 && d.modules[d.stack[|d.stack| - 1].pos].name == name
    ensures var n, q := |d.stack|, Popped(d, leave);
      var top := d.stack[n - 1];
      && Grown(d.modules, q.modules)
      && q.stack == d.stack[..n - 1][n - 2 := d.stack[n - 2].(children := Wrap(d.stack[n - 2].children + leave - top.time))]
      && Wrap(TimeOf(q, f)) == Wrap(TimeOf(d, f) + if name == f then leave - top.time - top.children else 0)
      && Wrap(CallsOf(q, f)) == Wrap(CallsOf(d, f) + if name == f then 1 else 0)
  {
    hide TimeOf, CallsOf;
    var n := |d.stack|;
    var top, below := d.stack[n - 1], d.stack[n - 2];
    var popped := d.(stack := d.stack[..n - 2] + [below.(children := Wrap(below.children + leave - top.time))]);
    ChargedOf(popped, top.pos, leave - top.time - top.children, f);
    SameTable(d, popped, f);
  }

  lemma SameTable(a: Profile, b: Profile, f: string)
    requires a.modules == b.modules
    ensures TimeOf(a, f) == TimeOf(b, f) && CallsOf(a, f) == CallsOf(b, f)
  {
  }

  /** A call as a whole: entry, what is called inside, exit. */
  lemma Returned(p: Profile, d: Profile, name: string, enter: nat, leave: nat, inside: int, f: string, time: int, calls: int)
    requires Sane(p) && Sane(d) && Step(p, Enter(name, enter)).Some?
    requires Did(Step(p, Enter(name, enter)).value, d, inside, f, time, calls)
    ensures Step(d, Exit(name, leave)).Some?
    ensures Did(p, Step(d, Exit(name, leave)).value, leave - enter, f,
                (if name == f then leave - enter - inside else 0) + time, (if name == f then 1 else 0) + calls)
  {
    hide Wrap, TimeOf, CallsOf, Step, IndexOf, Popped, TopAfter;
    Entered(p, name, enter, f);
    var b := Step(p, Enter(name, enter)).value;
    CalledTop(p.stack, b.stack, d.stack, inside);
    Exited(d, name, leave);
    PoppedOf(d, name, leave, f);
    var n, q := |d.stack|, Popped(d, leave);
    var top := d.stack[n - 1];
    ReturnedTop(p.stack, d.stack, q.stack, leave - enter);
    if name == f {
      WrapLess(leave - enter, top.children, inside);
      Chained(TimeOf(p, f), TimeOf(d, f), TimeOf(q, f), time, leave - enter - top.children);
      WrapAgain(TimeOf(p, f) + time, leave - enter - top.children, leave - enter - inside);
    } else {
      Chained(TimeOf(p, f), TimeOf(d, f), TimeOf(q, f), time, 0);
    }
    Chained(CallsOf(p, f), CallsOf(d, f), CallsOf(q, f), calls, if name == f then 1 else 0);
  }

  lemma CalledTop(p: seq<Frame>, b: seq<Frame>, d: seq<Frame>, inside: int)
    requires |b| == |d| == |p| + 1 >= 2 && b[..|p|] == p && b[|p|].children == 0 && TopAfter(b, d, inside)
    ensures d[..|p|] == p && d[|p|].pos == b[|p|].pos && d[|p|].time == b[|p|].time && Wrap(d[|p|].children) == Wrap(inside)
  {
  }

  lemma ReturnedTop(p: seq<Frame>, d: seq<Frame>, q: seq<Frame>, inside: int)
    requires |d| == |p| + 1 >= 2 && d[..|p|] == p && |q| == |p|
    requires q == p[|p| - 1 := p[|p| - 1].(children := Wrap(p[|p| - 1].children + inside))]
    ensures TopAfter(p, q, inside)
  {
    WrapAdd(p[|p| - 1].children + inside, 0);
  }

  lemma WrapLess(a: int, b: int, c: int)
    requires Wrap(b) == Wrap(c)
    ensures Wrap(a - b) == Wrap(a - c)
  {
  }

  lemma WrapAgain(a: int, b: int, c: int)
    requires Wrap(b) == Wrap(c)
    ensures Wrap(a + b) == Wrap(a + c)
  {
    WrapAdd(a, b);
    WrapAdd(a, c);
  }

  /** Every time and every count in the table is right. */
  lemma {:induction false} Nested(p: Profile, c: Forest, f: string)
    requires Sane(p) && Run(p, Trace(c)).Some?
    ensures Did(p, Run(p, Trace(c)).value, Inside(c), f, SelfTime(c, f), Count(c, f))
    decreases c
  {
    hide Wrap, TimeOf, CallsOf, Step, Did, Sane;
    match c
    case NoCalls => NothingDid(p, f);
    case Call(name, enter, body, leave, next) =>
      var entry, inner, exit := [Enter(name, enter)], Trace(body), [Exit(name, leave)];
      RunBoth(p, entry + inner + exit, Trace(next));
      RunBoth(p, entry + inner, exit);
      RunBoth(p, entry, inner);
      RunOne(p, Enter(name, enter));
      var b := Run(p, entry).value;
      Nested(b, body, f);
      var d := Run(b, inner).value;
      RunOne(d, Exit(name, leave));
      Returned(p, d, name, enter, leave, Inside(body), f, SelfTime(body, f), Count(body, f));
      var q := Run(d, exit).value;
      Nested(q, next, f);
      DidBoth(p, q, Run(q, Trace(next)).value, leave - enter, Inside(next), f,
              (if name == f then leave - enter - Inside(body) else 0) + SelfTime(body, f), SelfTime(next, f),
              (if name == f then 1 else 0) + Count(body, f), Count(next, f));
  }

  lemma NothingDid(p: Profile, f: string)
    requires Sane(p)
    ensures Did(p, p, 0, f, 0, 0)
  {
  }

  /** The report on a program whose calls are `c`: for every function the calls made and the
      time spent in it but not in what it called, and as the total the time of the outermost
      calls. */
  lemma NestedReport(c: Forest, now: nat, f: string)
    requires Run(Start(), Trace(c)).Some?
    ensures var q := Drained(Run(Start(), Trace(c)).value, now);
      && Wrap(TimeOf(q, f)) == Wrap(SelfTime(c, f)) && Wrap(CallsOf(q, f)) == Wrap(Count(c, f))
      && q.totTime == Wrap(Inside(c)) && q == Run(Start(), Trace(c)).value
  {
    hide TimeOf, CallsOf, Wrap;
    var p := Start();
    var q := Run(p, Trace(c)).value;
    Nested(p, c, f);
    StartOf(f);
    StartAccounted();
    RunAccounted(p, Trace(c));
    SumOfOne(q.stack);
    assert q.stack[0].time == 0;
  }

  lemma StartOf(f: string)
    ensures TimeOf(Start(), f) == 0 && CallsOf(Start(), f) == 0
  {
  }

  lemma SumOfOne(stack: seq<Frame>)
    requires |stack| == 1
    ensures SumChildren(stack) == stack[0].children
  {
    assert stack[..0] == [];
  }
}
