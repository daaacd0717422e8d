/**
 What dbug/dbug_analyze.c reports, said by the clock: the time from one record of the trace to the
 next belongs to the innermost function that is open, or to nobody, and what belonged to nobody
 goes to the next function that is left without having been entered.
 */
module ProfileClock {
  import opened Prelude
  import opened ProfileSpec
  import opened ProfileAccounts
  import opened ProfileNested

  /** The functions open, the innermost last; the time that belongs to nobody yet; the time read last. */
  datatype Clock = Clock(open: seq<string>, idle: int, last: nat)

  const MIDNIGHT := Clock([], 0, 0)

  /** What is still open after an exit of `name`: it and all that was entered after it are left. */
  function Closed(open: seq<string>, name: string): seq<string> {
    if open == [] then []
    else if open[|open| - 1] == name then open[..|open| - 1]
    else Closed(open[..|open| - 1], name)
  }

  function Tick(c: Clock, e: Event): Clock {
    match e
    case Enter(name, time) => Clock(c.open + [name], Waited(c, time), time)
    case Exit(name, time) => if name in c.open then Clock(Closed(c.open, name), Waited(c, time), time) else Clock([], 0, time)
    case Use(_) => c
  }

  /** The time that belongs to nobody at `time`. */
  function Waited(c: Clock, time: nat): int {
    if c.open == [] then c.idle + time - c.last else c.idle
  }

  /** What `f` gets up to and with one record. */
  function SpentAt(c: Clock, e: Event, f: string): int {
    match e
    case Use(_) => 0
    case Enter(_, time) => Running(c, time, f)
    case Exit(name, time) => Running(c, time, f) + if name == f && name !in c.open then Waited(c, time) else 0
  }

  function Running(c: Clock, time: nat, f: string): int {
    if c.open != [] && c.open[|c.open| - 1] == f then time - c.last else 0
  }

  function Spent(c: Clock, trace: seq<Event>, f: string): int
    decreases |trace|
  {
    if trace == [] then 0 else SpentAt(c, trace[0], f) + Spent(Tick(c, trace[0]), trace[1..], f)
  }

  /** How often `f` is called: its entries, and its exits without an entry. */
  function Called(c: Clock, trace: seq<Event>, f: string): nat
    decreases |trace|
  {
    if trace == [] then 0 else CalledAt(c, trace[0], f) + Called(Tick(c, trace[0]), trace[1..], f)
  }

  function CalledAt(c: Clock, e: Event, f: string): nat {
    if e.name == f && (e.Enter? || (e.Exit? && e.name !in c.open)) then 1 else 0
  }

  function After(c: Clock, trace: seq<Event>): Clock
    decreases |trace|
  {
    if trace == [] then c else After(Tick(c, trace[0]), trace[1..])
  }

  // ---------------------------------------------------------------- the stack and the clock

  /** The time noted nowhere yet of the open calls of `f`, if the top one runs until `until`. */
  function Pending(modules: seq<Mod>, stack: seq<Frame>, until: int, f: string): int {
    if |stack| <= 1 then 0
    else
      var n := |stack| - 1;
      (if NameAt(modules, stack[n].pos) == f then until - stack[n].time - stack[n].children else 0)
      + Pending(modules, stack[..n], stack[n].time, f)
  }

  function NameAt(modules: seq<Mod>, pos: nat): string {
    if pos < |modules| then modules[pos].name else ""
  }

  /** The open calls of `f`. */
  function OpenCalls(open: seq<string>, f: string): nat {
    if open == [] then 0 else OpenCalls(open[..|open| - 1], f) + if open[|open| - 1] == f then 1 else 0
  }

  /** The time at the bottom of the stack that belongs to nobody. */
  function IdleOf(stack: seq<Frame>, until: int): int
    requires stack != []
  {
    var n := |stack| - 1;
    if n == 0 then until - stack[0].time - stack[0].children else IdleOf(stack[..n], stack[n].time)
  }

  ghost predicate Follows(p: Profile, c: Clock) {
    && |p.stack| == |c.open| + 1
    && (forall k | 0 <= k < |c.open| :: NameAt(p.modules, p.stack[k + 1].pos) == c.open[k])
    && Wrap(IdleOf(p.stack, c.last)) == Wrap(c.idle)
  }

  /** All that is noted for `f`, in the table and on the stack. */
  function TimeWith(p: Profile, last: nat, f: string): int {
    TimeOf(p, f) + Pending(p.modules, p.stack, last, f)
  }

  function CallsWith(p: Profile, c: Clock, f: string): int {
    CallsOf(p, f) + OpenCalls(c.open, f)
  }

  /** From `p` to `q`, `f` got so much time and so many calls. */
  ghost predicate Got(p: Profile, c: Clock, q: Profile, c': Clock, f: string, time: int, calls: int) {
    && Wrap(TimeWith(q, c'.last, f)) == Wrap(TimeWith(p, c.last, f) + time)
    && Wrap(CallsWith(q, c', f)) == Wrap(CallsWith(p, c, f) + calls)
  }

  lemma GotBoth(p: Profile, c: Clock, q: Profile, c': Clock, r: Profile, c'': Clock, f: string, time: int, time': int, calls: int, calls': int)
    requires Got(p, c, q, c', f, time, calls) && Got(q, c', r, c'', f, time', calls')
    ensures Got(p, c, r, c'', f, time + time', calls + calls')
  {
    hide Wrap, TimeWith, CallsWith;
    Chained(TimeWith(p, c.last, f), TimeWith(q, c'.last, f), TimeWith(r, c''.last, f), time, time');
    Chained(CallsWith(p, c, f), CallsWith(q, c', f), CallsWith(r, c'', f), calls, calls');
  }

  /** The clock runs on. */
  function RunsOn(c: Clock, time: nat): Clock {
    Clock(c.open, Waited(c, time), time)
  }

  lemma GotLater(p: Profile, c: Clock, time: nat, f: string)
    requires Follows(p, c)
    ensures Follows(p, RunsOn(c, time)) && Got(p, c, p, RunsOn(c, time), f, Running(c, time, f), 0)
  {
    if c.open == [] {
      WrapAdd(IdleOf(p.stack, c.last), time - c.last);
      WrapAdd(c.idle, time - c.last);
    }
  }

  lemma {:induction false} PendingGrown(a: seq<Mod>, b: seq<Mod>, stack: seq<Frame>, until: int, f: string)
    requires Grown(a, b) && forall k | 0 < k < |stack| :: stack[k].pos < |a|
    ensures Pending(a, stack, until, f) == Pending(b, stack, until, f)
  {
    if |stack| > 1 {
      PendingGrown(a, b, stack[..|stack| - 1], stack[|stack| - 1].time, f);
    }
  }

  lemma AddedFollows(p: Profile, c: Clock, name: string, q: Profile, pos: nat, f: string)
    requires Sane(p) && Follows(p, c) && q == p.(modules := Added(p.modules, name)) && pos == IndexOf(p.modules, name)
    ensures Sane(q) && Follows(q, c) && Got(p, c, q, c, f, 0, 0) && pos < |q.modules| && q.modules[pos].name == name
  {
    AddedOf(p, name, f);
    hide Wrap, TimeOf, CallsOf, Pending, IdleOf, Added, IndexOf, OpenCalls, Follows, Got;
    FollowsGrown(p, q, c, f);
  }

  /** Only names were added. */
  lemma FollowsGrown(p: Profile, q: Profile, c: Clock, f: string)
    requires Sane(p) && Follows(p, c) && q == p.(modules := q.modules) && Grown(p.modules, q.modules)
    requires TimeOf(q, f) == TimeOf(p, f) && CallsOf(q, f) == CallsOf(p, f)
    ensures Follows(q, c) && Got(p, c, q, c, f, 0, 0)
  {
    PendingGrown(p.modules, q.modules, p.stack, c.last, f);
    hide Wrap, TimeOf, CallsOf, Pending, IdleOf, OpenCalls;
  }

  lemma EnterGot(q: Profile, c: Clock, pos: nat, name: string, time: nat, f: string)
    requires Sane(q) && Follows(q, c) && c.last == time && pos < |q.modules| && q.modules[pos].name == name
    ensures var r := q.(stack := q.stack + [Frame(pos, time, 0)]); var c' := Clock(c.open + [name], c.idle, time);
      Follows(r, c') && Got(q, c, r, c', f, 0, if name == f then 1 else 0)
  {
    var stack, open := q.stack + [Frame(pos, time, 0)], c.open + [name];
    assert stack[..|q.stack|] == q.stack && open[..|c.open|] == c.open;
    SameTable(q, q.(stack := stack), f);
  }

  /** The frame below the top one gets the time of the call that ends. */
  lemma PoppedPending(modules: seq<Mod>, stack: seq<Frame>, now: int, f: string, below: Frame)
    requires |stack| >= 2
    requires var n := |stack|; below == stack[n - 2].(children := Wrap(stack[n - 2].children + now - stack[n - 1].time))
    ensures var n := |stack|; var top, rest := stack[n - 1], stack[..n - 1][n - 2 := below];
      && Wrap(IdleOf(rest, now)) == Wrap(IdleOf(stack, now))
      && Wrap(Pending(modules, stack, now, f)) ==
         Wrap(Pending(modules, rest, now, f) + if NameAt(modules, top.pos) == f then now - top.time - top.children else 0)
  {
    var n := |stack|;
    var top, was, rest := stack[n - 1], stack[n - 2], stack[..n - 1][n - 2 := below];
    assert rest[..n - 2] == stack[..n - 1][..n - 2] && rest[n - 2] == below;
    var mine := if NameAt(modules, top.pos) == f then now - top.time - top.children else 0;
    WrapLess(now - was.time, below.children, was.children + now - top.time);
    if n == 2 {
      assert rest == [below];
    } else {
      var others := Pending(modules, stack[..n - 1][..n - 2], was.time, f);
      if NameAt(modules, was.pos) == f {
        WrapAgain(mine + others, now - was.time - below.children, top.time - was.time - was.children);
      }
    }
  }

  /** The top call ends at `now`. */
  lemma PoppedGot(p: Profile, c: Clock, q: Profile, c': Clock, f: string)
    requires Sane(p) && Follows(p, c) && c.open != []
    requires q == Popped(p, c.last) && c' == Clock(c.open[..|c.open| - 1], c.idle, c.last)
    ensures Sane(q) && Follows(q, c') && Got(p, c, q, c', f, 0, 0) && SameNames(p.modules, q.modules)
  {
    PoppedFollows(p, c, q, c');
    hide *;
    PoppedTable(p, c, q, f);
    PoppedRest(p, c, q, f);
    PoppedSums(p, c, q, c', f, Mine(p, c, f));
  }

  lemma PoppedTable(p: Profile, c: Clock, q: Profile, f: string)
    requires Sane(p) && |p.stack| >= 2 && c.open != [] && NameAt(p.modules, p.stack[|p.stack| - 1].pos) == c.open[|c.open| - 1]
    requires p.stack[|p.stack| - 1].pos < |p.modules| && q == Popped(p, c.last)
    ensures Grown(p.modules, q.modules)
    ensures Wrap(TimeOf(q, f)) == Wrap(TimeOf(p, f) + Mine(p, c, f))
    ensures Wrap(CallsOf(q, f)) == Wrap(CallsOf(p, f) + if c.open[|c.open| - 1] == f then 1 else 0)
  {
    PoppedOf(p, c.open[|c.open| - 1], c.last, f);
    hide Wrap, TimeOf, CallsOf, Popped, Grown, Sane;
  }

  /** What the top call of `p` gets in the table. */
  function Mine(p: Profile, c: Clock, f: string): int
    requires |p.stack| >= 2 && c.open != []
  {
    var top := p.stack[|p.stack| - 1];
    if c.open[|c.open| - 1] == f then c.last - top.time - top.children else 0
  }

  lemma PoppedRest(p: Profile, c: Clock, q: Profile, f: string)
    requires Sane(p) && |p.stack| >= 2 && c.open != [] && NameAt(p.modules, p.stack[|p.stack| - 1].pos) == c.open[|c.open| - 1]
    requires q == Popped(p, c.last) && Grown(p.modules, q.modules)
    ensures Wrap(Pending(p.modules, p.stack, c.last, f)) == Wrap(Pending(q.modules, q.stack, c.last, f) + Mine(p, c, f))
  {
    var n := |p.stack|;
    var below := p.stack[n - 2].(children := Wrap(p.stack[n - 2].children + c.last - p.stack[n - 1].time));
    assert q.stack == p.stack[..n - 1][n - 2 := below];
    assert forall k | 0 < k < |q.stack| :: q.stack[k].pos < |p.modules|;
    hide Wrap, Pending, IdleOf, Popped, Sane, Grown;
    PoppedPending(p.modules, p.stack, c.last, f, below);
    PendingGrown(p.modules, q.modules, q.stack, c.last, f);
  }

  lemma PoppedFollows(p: Profile, c: Clock, q: Profile, c': Clock)
    requires Sane(p) && Follows(p, c) && c.open != []
    requires q == Popped(p, c.last) && c' == Clock(c.open[..|c.open| - 1], c.idle, c.last)
    ensures Sane(q) && Follows(q, c') && SameNames(p.modules, q.modules)
    ensures forall k | 0 < k < |q.stack| :: q.stack[k].pos < |p.modules|
    ensures |p.stack| >= 2 && p.stack[|p.stack| - 1].pos < |p.modules|
    ensures NameAt(p.modules, p.stack[|p.stack| - 1].pos) == c.open[|c.open| - 1]
  {
    var n := |p.stack|;
    var below := p.stack[n - 2].(children := Wrap(p.stack[n - 2].children + c.last - p.stack[n - 1].time));
    PoppedPending(p.modules, p.stack, c.last, "", below);
    hide Wrap, Pending, IdleOf;
    assert q.stack == p.stack[..n - 1][n - 2 := below];
    assert p.stack[|c.open|].pos < |p.modules|;
  }

  lemma PoppedSums(p: Profile, c: Clock, q: Profile, c': Clock, f: string, mine: int)
    requires c.open != [] && c' == Clock(c.open[..|c.open| - 1], c.idle, c.last)
    requires Wrap(TimeOf(q, f)) == Wrap(TimeOf(p, f) + mine)
    requires Wrap(Pending(p.modules, p.stack, c.last, f)) == Wrap(Pending(q.modules, q.stack, c.last, f) + mine)
    requires Wrap(CallsOf(q, f)) == Wrap(CallsOf(p, f) + if c.open[|c.open| - 1] == f then 1 else 0)
    ensures Got(p, c, q, c', f, 0, 0)
  {
    hide TimeOf, CallsOf, Pending, Wrap;
    var before, after := Pending(p.modules, p.stack, c.last, f), Pending(q.modules, q.stack, c.last, f);
    WrapAgain(TimeOf(p, f), before, after + mine);
    SameAndMore(TimeOf(q, f), TimeOf(p, f) + mine, after);
    SameAndMore(CallsOf(q, f), CallsOf(p, f) + (if c.open[|c.open| - 1] == f then 1 else 0), OpenCalls(c'.open, f));
  }

  /** An exit without an entry, when nothing is open: what belonged to nobody. */
  lemma OrphanGot(p: Profile, c: Clock, pos: nat, name: string, q: Profile, c': Clock, f: string)
    requires Sane(p) && Follows(p, c) && c.open == [] && pos < |p.modules| && p.modules[pos].name == name
    requires q == Orphan(p, pos, c.last) && c' == Clock([], 0, c.last)
    ensures Follows(q, c') && Got(p, c, q, c', f, if name == f then c.idle else 0, if name == f then 1 else 0)
  {
    var bottom := p.stack[0];
    var time := c.last - bottom.time - bottom.children;
    var reset := p.(stack := [bottom.(time := c.last, children := 0)]);
    assert |q.stack| == 1 && Follows(q, c');
    assert Wrap(time) == Wrap(c.idle);
    ChargedOf(reset, pos, time, f);
    SameTable(p, reset, f);
    NothingOpen(p, c, f);
    NothingOpen(q, c', f);
    hide TimeOf, CallsOf, Sane, Wrap, Follows, TimeWith, CallsWith, Orphan, Grown;
    if name == f {
      WrapAgain(TimeOf(p, f), time, c.idle);
      WrapAdd(TimeOf(p, f) + time, 0);
      WrapAdd(CallsOf(p, f) + 1, 0);
    }
  }

  lemma {:induction false} LeftGot(p: Profile, c: Clock, pos: nat, name: string, f: string)
    requires Sane(p) && Follows(p, c) && pos < |p.modules| && p.modules[pos].name == name
    ensures var q, c' := Left(p, pos, c.last), if name in c.open then Clock(Closed(c.open, name), c.idle, c.last) else Clock([], 0, c.last);
      && Follows(q, c')
      && Got(p, c, q, c', f, if name == f && name !in c.open then c.idle else 0, if name == f && name !in c.open then 1 else 0)
    decreases |p.stack|
  {
    hide Got, Wrap, TimeOf, CallsOf, Popped, Orphan;
    if |p.stack| == 1 {
      OrphanGot(p, c, pos, name, Orphan(p, pos, c.last), Clock([], 0, c.last), f);
    } else {
      var n, c' := |c.open| - 1, Clock(c.open[..|c.open| - 1], c.idle, c.last);
      var q := Popped(p, c.last);
      PoppedGot(p, c, q, c', f);
      LeftOnce(p, pos, c.last);
      assert c.open[n] == name <==> p.stack[n + 1].pos == pos;
      assert c.open == c'.open + [c.open[n]];
      if c.open[n] != name {
        LeftGot(q, c', pos, name, f);
        var time, calls := if name == f && name !in c.open then c.idle else 0, if name == f && name !in c.open then 1 else 0;
        GotBoth(p, c, q, c', Left(q, pos, c.last),
                if name in c.open then Clock(Closed(c.open, name), c.idle, c.last) else Clock([], 0, c.last), f, 0, time, 0, calls);
      }
    }
  }

  /** One record. */
  lemma StepGot(p: Profile, c: Clock, e: Event, f: string)
    requires Sane(p) && Follows(p, c) && Step(p, e).Some?
    ensures var q, c' := Step(p, e).value, Tick(c, e);
      Follows(q, c') && Got(p, c, q, c', f, SpentAt(c, e, f), CalledAt(c, e, f))
  {
    hide Got, Wrap, Left, Follows, Closed;
    var q, pos := p.(modules := Added(p.modules, e.name)), IndexOf(p.modules, e.name);
    AddedFollows(p, c, e.name, q, pos, f);
    if !e.Use? {
      var d := RunsOn(c, e.time);
      GotLater(q, c, e.time, f);
      GotBoth(p, c, q, c, q, d, f, 0, Running(c, e.time, f), 0, 0);
      if e.Enter? {
        EnterGot(q, d, pos, e.name, e.time, f);
      } else {
        LeftGot(q, d, pos, e.name, f);
      }
      GotBoth(p, c, q, d, Step(p, e).value, Tick(c, e), f, Running(c, e.time, f), SpentAt(c, e, f) - Running(c, e.time, f), 0, CalledAt(c, e, f));
    }
  }

  /** A whole trace. */
  lemma {:induction false} RunGot(p: Profile, c: Clock, trace: seq<Event>, f: string)
    requires Sane(p) && Follows(p, c) && Run(p, trace).Some?
    ensures var q, c' := Run(p, trace).value, After(c, trace);
      Follows(q, c') && Got(p, c, q, c', f, Spent(c, trace, f), Called(c, trace, f))
    decreases |trace|
  {
    hide Wrap, Step, Follows, TimeWith, CallsWith, Tick;
    if trace != [] {
      var q, d := Step(p, trace[0]).value, Tick(c, trace[0]);
      StepGot(p, c, trace[0], f);
      RunGot(q, d, trace[1..], f);
      GotBoth(p, c, q, d, Run(p, trace).value, After(c, trace), f,
              SpentAt(c, trace[0], f), Spent(d, trace[1..], f), CalledAt(c, trace[0], f), Called(d, trace[1..], f));
    }
  }

  lemma {:induction false} DrainedGot(p: Profile, c: Clock, f: string)
    requires Sane(p) && Follows(p, c)
    ensures var q, c' := Drained(p, c.last), Clock([], c.idle, c.last); Follows(q, c') && Got(p, c, q, c', f, 0, 0)
    decreases |p.stack|
  {
    hide Got, Wrap, TimeOf, CallsOf, Popped;
    if |p.stack| > 1 {
      var q, d := Popped(p, c.last), Clock(c.open[..|c.open| - 1], c.idle, c.last);
      PoppedGot(p, c, q, d, f);
      DrainedGot(q, d, f);
      GotBoth(p, c, q, d, Drained(q, c.last), Clock([], c.idle, c.last), f, 0, 0, 0, 0);
    } else {
      NothingGot(p, c, f);
    }
  }

  lemma NothingGot(p: Profile, c: Clock, f: string)
    ensures Got(p, c, p, c, f, 0, 0)
  {
  }

  lemma {:induction false} LastOfClock(c: Clock, trace: seq<Event>)
    ensures After(c, trace).last == LastTime(trace, c.last)
    decreases |trace|
  {
    if trace != [] {
      LastOfClock(Tick(c, trace[0]), trace[1..]);
    }
  }

  /** Main theorem: at the end of any trace the table has, for every function, the time that the
      clock gives it and the number of its calls, open calls being left at the last time read. */
  lemma ReportIsClock(trace: seq<Event>, f: string)
    requires Run(Start(), trace).Some?
    ensures var q := Drained(Run(Start(), trace).value, LastTime(trace, 0));
      Wrap(TimeOf(q, f)) == Wrap(Spent(MIDNIGHT, trace, f)) && Wrap(CallsOf(q, f)) == Wrap(Called(MIDNIGHT, trace, f))
  {
    StartFollows(f);
    hide Wrap, Run, TimeOf, CallsOf, Spent, Called, Drained, Follows, TimeWith, CallsWith;
    var q, c := RunDrained(Start(), MIDNIGHT, trace, f);
    NothingOpen(Start(), MIDNIGHT, f);
    NothingOpen(q, c, f);
  }

  lemma RunDrained(p: Profile, c: Clock, trace: seq<Event>, f: string) returns (q: Profile, d: Clock)
    requires Sane(p) && Follows(p, c) && Run(p, trace).Some?
    ensures q == Drained(Run(p, trace).value, LastTime(trace, c.last)) && |q.stack| == 1 && d.open == []
    ensures Got(p, c, q, d, f, Spent(c, trace, f), Called(c, trace, f))
  {
    hide Wrap, Run, Spent, Called, Drained, Follows, Got;
    var r, e := Run(p, trace).value, After(c, trace);
    RunGot(p, c, trace, f);
    LastOfClock(c, trace);
    DrainedGot(r, e, f);
    q, d := Drained(r, e.last), Clock([], e.idle, e.last);
    GotBoth(p, c, r, e, q, d, f, Spent(c, trace, f), 0, Called(c, trace, f), 0);
  }

  lemma StartFollows(f: string)
    ensures Sane(Start()) && Follows(Start(), MIDNIGHT) && TimeOf(Start(), f) == 0 && CallsOf(Start(), f) == 0
  {
    StartOf(f);
  }

  lemma NothingOpen(p: Profile, c: Clock, f: string)
    requires |p.stack| == 1 && c.open == []
    ensures TimeWith(p, c.last, f) == TimeOf(p, f) && CallsWith(p, c, f) == CallsOf(p, f)
  {
  }

  /** The time read last is that of the last entry or exit of the trace. */
  lemma {:induction false} LastTimeIs(trace: seq<Event>, now: nat, k: nat)
    requires k < |trace| && !trace[k].Use? && forall j | k < j < |trace| :: trace[j].Use?
    ensures LastTime(trace, now) == trace[k].time
    decreases |trace|
  {
    if k > 0 {
      LastTimeIs(trace[1..], TimeIn(trace[0], now), k - 1);
    } else {
      OnlyUses(trace[1..], trace[0].time);
    }
  }

  lemma {:induction false} OnlyUses(trace: seq<Event>, now: nat)
    requires forall j | 0 <= j < |trace| :: trace[j].Use?
    ensures LastTime(trace, now) == now
    decreases |trace|
  {
    if trace != [] {
      OnlyUses(trace[1..], now);
    }
  }

  // ---------------------------------------------------------------- exits without an entry

  lemma {:induction false} LeftOrphan(p: Profile, pos: nat, now: nat)
    requires Sane(p) && pos < |p.modules| && !OnStack(p, pos)
    ensures var r := Drained(p, now); |r.modules| == |p.modules| && Left(p, pos, now) == Orphan(r, pos, now)
    decreases |p.stack|
  {
    if |p.stack| > 1 {
      PoppedCalls(p, pos, now);
      LeftOnce(p, pos, now);
      hide Popped;
      assert p.stack[|p.stack| - 1].pos != pos;
      LeftOrphan(Popped(p, now), pos, now);
    }
  }

  /** An exit without an entry, at `now`, when nothing is open any more: all time up to `now` is
      accounted for then, and what was not before is that of the function left. */
  lemma OrphanTotal(p: Profile, pos: nat, name: string, now: nat, q: Profile)
    requires Sane(p) && Accounted(p) && |p.stack| == 1 && pos < |p.modules| && p.modules[pos].name == name && q == Orphan(p, pos, now)
    ensures q.totTime == Wrap(now) && q.stack == [Frame(p.stack[0].pos, now, 0)]
    ensures Wrap(TimeOf(q, name)) == Wrap(TimeOf(p, name) + now - p.totTime)
  {
    var bottom := p.stack[0];
    SumOfOne(p.stack);
    var time := now - bottom.time - bottom.children;
    var reset := p.(stack := [bottom.(time := now, children := 0)]);
    ChargedOf(reset, pos, time, name);
    SameTable(p, reset, name);
    assert p.totTime == Wrap(bottom.time + bottom.children) && q.totTime == Wrap(p.totTime + time);
    OrphanSums(bottom.time + bottom.children, p.totTime, now, TimeOf(p, name), TimeOf(q, name));
  }

  lemma OrphanSums(before: int, total: nat, now: nat, was: nat, becomes: nat)
    requires total == Wrap(before) && becomes == Wrap(was + now - before)
    ensures Wrap(total + (now - before)) == Wrap(now) && Wrap(becomes) == Wrap(was + now - total)
  {
    WrapAdd(before, now - before);
    WrapLess(was + now, total, before);
    WrapAdd(was + now - before, 0);
  }

  /** The same for the record: all that is open is left first. */
  lemma OrphanRecord(p: Profile, name: string, now: nat, added: Profile, q: Profile)
    requires Sane(p) && Accounted(p) && IsOrphan(p, Exit(name, now)) && Step(p, Exit(name, now)) == Some(q)
    requires added == p.(modules := Added(p.modules, name))
    ensures q.totTime == Wrap(now) && |q.stack| == 1 && q.stack[0].time == now && q.stack[0].children == 0
    ensures Sane(added) && var r := Drained(added, now); Wrap(TimeOf(q, name)) == Wrap(TimeOf(r, name) + now - r.totTime)
  {
    var pos := IndexOf(p.modules, name);
    StepExit(p, name, now, added, pos, q);
    AddedAccounted(p, name);
    OrphanMeans(p, added, pos, Exit(name, now));
    hide *;
    OrphanLeft(added, pos, name, now, q);
  }

  lemma StepExit(p: Profile, name: string, now: nat, added: Profile, pos: nat, q: Profile)
    requires Sane(p) && Step(p, Exit(name, now)) == Some(q)
    requires added == p.(modules := Added(p.modules, name)) && pos == IndexOf(p.modules, name)
    ensures pos < |added.modules| && added.modules[pos].name == name && Sane(added) && q == Left(added, pos, now)
  {
    AddedOf(p, name, name);
  }

  lemma OrphanLeft(p: Profile, pos: nat, name: string, now: nat, q: Profile)
    requires Sane(p) && Accounted(p) && pos < |p.modules| && p.modules[pos].name == name && !OnStack(p, pos) && q == Left(p, pos, now)
    ensures q.totTime == Wrap(now) && |q.stack| == 1 && q.stack[0].time == now && q.stack[0].children == 0
    ensures var r := Drained(p, now); Wrap(TimeOf(q, name)) == Wrap(TimeOf(r, name) + now - r.totTime)
  {
    LeftOrphan(p, pos, now);
    DrainedAccounted(p, now);
    DrainedNames(p, now);
    hide Accounted, Sane, TimeOf, Wrap, Left, Drained;
    OrphanTotal(Drained(p, now), pos, name, now, q);
  }

  lemma {:induction false} DrainedNames(p: Profile, now: nat)
    requires Sane(p)
    ensures SameNames(p.modules, Drained(p, now).modules)
    decreases |p.stack|
  {
    if |p.stack| > 1 {
      DrainedNames(Popped(p, now), now);
    }
  }

  /** The total at the end is all time but what belongs to nobody. */
  lemma TotalIsClock(trace: seq<Event>)
    requires Run(Start(), trace).Some?
    ensures var c := After(MIDNIGHT, trace);
      c.last == LastTime(trace, 0) && Drained(Run(Start(), trace).value, c.last).totTime == Wrap(c.last - c.idle)
  {
    StartFollows("");
    StartAccounted();
    assert MIDNIGHT.last == 0;
    hide *;
    TotalFrom(Start(), MIDNIGHT, trace);
  }

  lemma TotalFrom(p: Profile, c: Clock, trace: seq<Event>)
    requires Sane(p) && Follows(p, c) && Accounted(p) && Run(p, trace).Some?
    ensures var d := After(c, trace); d.last == LastTime(trace, c.last) && Drained(Run(p, trace).value, d.last).totTime == Wrap(d.last - d.idle)
  {
    hide *;
    RunGot(p, c, trace, "");
    RunAccounted(p, trace);
    LastOfClock(c, trace);
    DrainedTotal(Run(p, trace).value, After(c, trace));
  }

  lemma DrainedTotal(p: Profile, c: Clock)
    requires Sane(p) && Follows(p, c) && Accounted(p)
    ensures Drained(p, c.last).totTime == Wrap(c.last - c.idle)
  {
    hide Accounted, Follows, Got, Wrap;
    DrainedGot(p, c, "");
    DrainedAccounted(p, c.last);
    TotalAtBottom(Drained(p, c.last), Clock([], c.idle, c.last));
  }

  lemma TotalAtBottom(p: Profile, c: Clock)
    requires |p.stack| == 1 && Accounted(p) && Follows(p, c)
    ensures p.totTime == Wrap(c.last - c.idle)
  {
    SumOfOne(p.stack);
    WrapLess(c.last, IdleOf(p.stack, c.last), c.idle);
  }

  // ---------------------------------------------------------------- matched calls by the clock

  lemma {:induction false} SpentBoth(c: Clock, a: seq<Event>, b: seq<Event>, f: string)
    ensures After(c, a + b) == After(After(c, a), b)
    ensures Spent(c, a + b, f) == Spent(c, a, f) + Spent(After(c, a), b, f)
    ensures Called(c, a + b, f) == Called(c, a, f) + Called(After(c, a), b, f)
    decreases |a|
  {
    if a == [] {
      assert a + b == b;
    } else {
      assert (a + b)[1..] == a[1..] + b;
      SpentBoth(Tick(c, a[0]), a[1..], b, f);
    }
  }

  lemma SpentOne(c: Clock, e: Event, f: string)
    ensures After(c, [e]) == Tick(c, e) && Spent(c, [e], f) == SpentAt(c, e, f) && Called(c, [e], f) == CalledAt(c, e, f)
  {
    assert [e][1..] == [];
  }

  /** Matched calls leave open what was open; what is not theirs belongs to the caller, or to nobody. */
  ghost predicate Passed(c: Clock, d: Clock, inside: int, f: string, spent: int, self: int) {
    && d.open == c.open && d.idle == c.idle + (if c.open == [] then d.last - c.last - inside else 0)
    && spent == self + if c.open != [] && c.open[|c.open| - 1] == f then d.last - c.last - inside else 0
  }

  lemma {:induction false} ForestClock(c: Clock, calls: Forest, f: string)
    ensures Passed(c, After(c, Trace(calls)), Inside(calls), f, Spent(c, Trace(calls), f), SelfTime(calls, f))
    ensures Called(c, Trace(calls), f) == Count(calls, f)
    decreases calls
  {
    match calls
    case NoCalls =>
    case Call(name, enter, body, leave, next) =>
      var entry, inner, exit := [Enter(name, enter)], Trace(body), [Exit(name, leave)];
      hide After, Spent, Called, Passed, Closed;
      SpentBoth(c, entry + inner + exit, Trace(next), f);
      SpentBoth(c, entry + inner, exit, f);
      SpentBoth(c, entry, inner, f);
      SpentOne(c, Enter(name, enter), f);
      var b := Tick(c, Enter(name, enter));
      ForestClock(b, body, f);
      var d := After(b, inner);
      SpentOne(d, Exit(name, leave), f);
      Returns(c, b, d, name, enter, leave, Inside(body), f, Spent(b, inner, f), SelfTime(body, f));
      var q := Tick(d, Exit(name, leave));
      ForestClock(q, next, f);
      PassedBoth(c, q, After(q, Trace(next)), leave - enter, Inside(next), f,
                 SpentAt(c, Enter(name, enter), f) + Spent(b, inner, f) + SpentAt(d, Exit(name, leave), f), Spent(q, Trace(next), f),
                 (if name == f then leave - enter - Inside(body) else 0) + SelfTime(body, f), SelfTime(next, f));
  }

  lemma Returns(c: Clock, b: Clock, d: Clock, name: string, enter: nat, leave: nat, inside: int, f: string, spent: int, self: int)
    requires b == Tick(c, Enter(name, enter)) && Passed(b, d, inside, f, spent, self)
    ensures Passed(c, Tick(d, Exit(name, leave)), leave - enter, f,
                   SpentAt(c, Enter(name, enter), f) + spent + SpentAt(d, Exit(name, leave), f),
                   (if name == f then leave - enter - inside else 0) + self)
    ensures CalledAt(c, Enter(name, enter), f) == (if name == f then 1 else 0) && CalledAt(d, Exit(name, leave), f) == 0
  {
    assert d.open == c.open + [name] && d.open[..|c.open|] == c.open;
    assert d.open[|c.open|] in d.open;
  }

  lemma PassedBoth(c: Clock, d: Clock, e: Clock, inside: int, inside': int, f: string, spent: int, spent': int, self: int, self': int)
    requires Passed(c, d, inside, f, spent, self) && Passed(d, e, inside', f, spent', self')
    ensures Passed(c, e, inside + inside', f, spent + spent', self + self')
  {
  }

  // ---------------------------------------------------------------- forests and exits without an entry

  /** Matched calls, and between them exits of functions that were not entered. */
  datatype Session = Calls(calls: Forest) | Stray(before: Forest, name: string, leave: nat, rest: Session)

  function SessionTrace(s: Session): seq<Event> {
    match s
    case Calls(calls) => Trace(calls)
    case Stray(before, name, leave, rest) => Trace(before) + [Exit(name, leave)] + SessionTrace(rest)
  }

  /** A stray exit gets the time since the last one (or since 0), less the calls between them. */
  function SessionTime(s: Session, since: nat, f: string): int {
    match s
    case Calls(calls) => SelfTime(calls, f)
    case Stray(before, name, leave, rest) =>
      SelfTime(before, f) + (if name == f then leave - since - Inside(before) else 0) + SessionTime(rest, leave, f)
  }

  function SessionCalls(s: Session, f: string): nat {
    match s
    case Calls(calls) => Count(calls, f)
    case Stray(before, name, _, rest) => Count(before, f) + (if name == f then 1 else 0) + SessionCalls(rest, f)
  }

  /** All time up to the last stray exit, and what the calls after it took. */
  function SessionTotal(s: Session, since: nat): int {
    match s
    case Calls(calls) => since + Inside(calls)
    case Stray(_, _, leave, rest) => SessionTotal(rest, leave)
  }

  lemma {:induction false} SessionClock(c: Clock, s: Session, f: string)
    requires c.open == [] && c.idle == 0
    ensures Spent(c, SessionTrace(s), f) == SessionTime(s, c.last, f) && Called(c, SessionTrace(s), f) == SessionCalls(s, f)
    ensures var d := After(c, SessionTrace(s)); d.open == [] && d.last - d.idle == SessionTotal(s, c.last)
    decreases s
  {
    match s
    case Calls(calls) => ForestClock(c, calls, f);
    case Stray(before, name, leave, rest) =>
      var calls, exit := Trace(before), [Exit(name, leave)];
      SpentBoth(c, calls + exit, SessionTrace(rest), f);
      SpentBoth(c, calls, exit, f);
      ForestClock(c, before, f);
      var d := After(c, calls);
      SpentOne(d, Exit(name, leave), f);
      SessionClock(Tick(d, Exit(name, leave)), rest, f);
  }

  /** The report on such a program. */
  lemma SessionReport(s: Session, f: string)
    requires Run(Start(), SessionTrace(s)).Some?
    ensures var q := Drained(Run(Start(), SessionTrace(s)).value, LastTime(SessionTrace(s), 0));
      && Wrap(TimeOf(q, f)) == Wrap(SessionTime(s, 0, f)) && Wrap(CallsOf(q, f)) == Wrap(SessionCalls(s, f))
      && q.totTime == Wrap(SessionTotal(s, 0))
  {
    hide Run, Drained, TimeOf, CallsOf, Wrap, SessionTrace, Spent, Called, After, LastTime;
    SessionClock(MIDNIGHT, s, f);
    ReportIsClock(SessionTrace(s), f);
    TotalIsClock(SessionTrace(s));
  }

  // ---------------------------------------------------------------- which traces are read to their end

  /** Never more than `limit` functions are open. */
  predicate OpenWithin(c: Clock, trace: seq<Event>, limit: nat)
    decreases |trace|
  {
    |c.open| <= limit && (trace == [] || OpenWithin(Tick(c, trace[0]), trace[1..], limit))
  }

  function NamesIn(trace: seq<Event>): set<string> {
    set e | e in trace :: e.name
  }

  function NameSet(modules: seq<Mod>): set<string> {
    set m | m in modules :: m.name
  }

  lemma {:induction false} NameCount(modules: seq<Mod>)
    requires Distinct(modules)
    ensures |NameSet(modules)| == |modules|
    decreases |modules|
  {
    if modules != [] {
      var n := |modules| - 1;
      NameCount(modules[..n]);
      assert modules == modules[..n] + [modules[n]];
      assert NameSet(modules) == NameSet(modules[..n]) + {modules[n].name};
      assert modules[n].name !in NameSet(modules[..n]);
    }
  }

  lemma NameKnown(modules: seq<Mod>, name: string)
    ensures IndexOf(modules, name) < |modules| <==> name in NameSet(modules)
    ensures NameSet(Added(modules, name)) == NameSet(modules) + {name}
  {
    var i := IndexOf(modules, name);
    if i < |modules| {
      assert modules[i] in modules;
    } else {
      forall m | m in modules ensures m.name != name {
        var j :| 0 <= j < |modules| && modules[j] == m;
      }
      assert forall m :: m in modules + [Mod(name, 0, 0)] <==> m in modules || m == Mod(name, 0, 0);
      assert Mod(name, 0, 0) in modules + [Mod(name, 0, 0)];
    }
  }

  lemma SameNameSet(a: seq<Mod>, b: seq<Mod>)
    requires SameNames(a, b)
    ensures NameSet(a) == NameSet(b)
  {
    forall m | m in a ensures m.name in NameSet(b) {
      var j :| 0 <= j < |a| && a[j] == m;
      assert b[j] in b;
    }
    forall m | m in b ensures m.name in NameSet(a) {
      var j :| 0 <= j < |b| && b[j] == m;
      assert a[j] in a;
    }
  }

  /** One record is refused when it opens one function too many, or brings one name too many. */
  lemma StepAccepts(p: Profile, c: Clock, e: Event)
    requires Sane(p) && Follows(p, c) && |c.open| <= 100 && |p.modules| <= 10000
    ensures Step(p, e).Some? <==> |Tick(c, e).open| <= 100 && |NameSet(p.modules) + {e.name}| <= 10000
    ensures Step(p, e).Some? ==> var q := Step(p, e).value; NameSet(q.modules) == NameSet(p.modules) + {e.name} && |q.modules| <= 10000
  {
    TooManyNames(p, e.name);
    ClosedFewer(c.open, e.name);
    hide Wrap, NameSet, Closed, Left, Sane, Distinct, IndexOf, TooMany, IdleOf, NameAt, Added;
    if Step(p, e).Some? {
      StepNames(p, e);
      SameNameSet(Added(p.modules, e.name), Step(p, e).value.modules);
    }
  }

  lemma TooManyNames(p: Profile, name: string)
    requires Sane(p) && |p.modules| <= 10000
    ensures TooMany(p.modules, name) <==> |NameSet(p.modules) + {name}| > 10000
    ensures NameSet(Added(p.modules, name)) == NameSet(p.modules) + {name}
    ensures !TooMany(p.modules, name) ==> |Added(p.modules, name)| <= 10000
  {
    NameKnown(p.modules, name);
    NameCount(p.modules);
    AddedSane(p, name);
    NameCount(Added(p.modules, name));
    hide NameSet, Sane, Distinct;
  }

  lemma AddedSane(p: Profile, name: string)
    requires Sane(p)
    ensures Distinct(p.modules) && Distinct(Added(p.modules, name))
  {
  }

  lemma StepNames(p: Profile, e: Event)
    requires Sane(p) && Step(p, e).Some?
    ensures SameNames(Added(p.modules, e.name), Step(p, e).value.modules)
  {
  }

  lemma {:induction false} ClosedFewer(open: seq<string>, name: string)
    ensures |Closed(open, name)| <= |open|
  {
    if open != [] {
      ClosedFewer(open[..|open| - 1], name);
    }
  }

  lemma {:induction false} RunAccepts(p: Profile, c: Clock, trace: seq<Event>)
    requires Sane(p) && Follows(p, c) && |c.open| <= 100 && |p.modules| <= 10000
    ensures Run(p, trace).Some? <==> OpenWithin(c, trace, 100) && |NameSet(p.modules) + NamesIn(trace)| <= 10000
    ensures Run(p, trace).Some? ==> NameSet(Run(p, trace).value.modules) == NameSet(p.modules) + NamesIn(trace)
    decreases |trace|
  {
    NameCount(p.modules);
    hide Step, Follows, NameSet, Sane, Tick;
    if trace == [] {
      assert NameSet(p.modules) + NamesIn(trace) == NameSet(p.modules);
    } else {
      var e, rest := trace[0], trace[1..];
      StepAccepts(p, c, e);
      NamesSplit(trace);
      var known, all := NameSet(p.modules) + {e.name}, NameSet(p.modules) + NamesIn(trace);
      assert all == known + NamesIn(rest);
      Subset(known, all);
      if Step(p, e).Some? {
        StepGot(p, c, e, "");
        RunAccepts(Step(p, e).value, Tick(c, e), rest);
      }
    }
  }

  lemma NamesSplit(trace: seq<Event>)
    requires trace != []
    ensures NamesIn(trace) == {trace[0].name} + NamesIn(trace[1..])
  {
    assert trace == [trace[0]] + trace[1..];
  }

  lemma Subset(a: set<string>, b: set<string>)
    requires a <= b
    ensures |a| <= |b|
  {
    assert b == a + (b - a);
  }

  /** A trace is read to its end if and only if never more than 100 functions are open and there
      are no more than 10000 names; these names are in the table then. */
  lemma ReadToTheEnd(trace: seq<Event>)
    ensures Run(Start(), trace).Some? <==> OpenWithin(MIDNIGHT, trace, 100) && |NamesIn(trace)| <= 10000
    ensures Run(Start(), trace).Some? ==> NameSet(Run(Start(), trace).value.modules) == NamesIn(trace)
  {
    StartFollows("");
    hide Run, Follows, OpenWithin;
    RunAccepts(Start(), MIDNIGHT, trace);
    assert NameSet(Start().modules) + NamesIn(trace) == NamesIn(trace);
  }
}
