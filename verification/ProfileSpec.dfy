/** What dbug/dbug_analyze.c accounts: the profile as a value, event by event. */
module ProfileSpec {
  import opened Prelude

  const STACKSIZ: nat := 100
  const MAXPROCS: nat := 10000

  const UINT: nat := 0x1_0000_0000

  /** The size of an `unsigned long`: 32 or 64 bits. */
  type LongSize = n: nat | n == UINT || n == UINT * UINT witness UINT

  const ULONG: LongSize

  /** Arithmetic on `unsigned long`. */
  function Wrap(x: int): nat {
    x % ULONG
  }

  /** struct stack_t. */
  datatype Frame = Frame(pos: nat, time: nat, children: nat)

  /** struct module_t, without the stack use. */
  datatype Mod = Mod(name: string, time: nat, calls: nat)

  /** `stack[0]` is the dummy at the bottom; the last frame is the top. */
  datatype Profile = Profile(modules: seq<Mod>, stack: seq<Frame>, totTime: nat, totCalls: nat)

  /** Records of the trace; `Use` is about the stack a function needs. */
  datatype Event = Enter(name: string, time: nat) | Exit(name: string, time: nat) | Use(name: string)

  ghost predicate Sane(p: Profile) {
    && |p.stack| >= 1
    && (forall k | 0 < k < |p.stack| :: p.stack[k].pos < |p.modules|)
    && (forall i, j | 0 <= i < j < |p.modules| :: p.modules[i].name != p.modules[j].name)
  }

  // ---------------------------------------------------------------- the symbol table

  /** The index of a name, or the number of names. */
  function IndexOf(modules: seq<Mod>, name: string): (i: nat)
    ensures i <= |modules| && (i < |modules| ==> modules[i].name == name)
    ensures forall j | 0 <= j < i :: modules[j].name != name
  {
    if modules == [] then 0
    else if modules[0].name == name then 0
    else
      assert forall j | 0 < j < |modules| :: modules[j] == modules[1..][j - 1];
      1 + IndexOf(modules[1..], name)
  }

  /** add. */
  function Added(modules: seq<Mod>, name: string): seq<Mod> {
    if IndexOf(modules, name) < |modules| then modules else modules + [Mod(name, 0, 0)]
  }

  predicate TooMany(modules: seq<Mod>, name: string) {
    IndexOf(modules, name) == |modules| >= MAXPROCS
  }

  // ---------------------------------------------------------------- one event

  ghost predicate SameNames(a: seq<Mod>, b: seq<Mod>) {
    |a| == |b| && forall i | 0 <= i < |a| :: b[i].name == a[i].name
  }

  function Charge(m: Mod, time: int): Mod {
    m.(time := Wrap(m.time + time), calls := Wrap(m.calls + 1))
  }

  /** `time` more for function `pos`. */
  function Charged(p: Profile, pos: nat, time: int): Profile
    requires pos < |p.modules|
  {
    p.(modules := p.modules[pos := Charge(p.modules[pos], time)], totTime := Wrap(p.totTime + time), totCalls := Wrap(p.totCalls + 1))
  }

  /** The function on top is left at `now`. */
  function Popped(p: Profile, now: nat): Profile
    requires |p.stack| >= 2 && p.stack[|p.stack| - 1].pos < |p.modules|
  {
    var n := |p.stack|;
    var top, below := p.stack[n - 1], p.stack[n - 2];
    Charged(p.(stack := p.stack[..n - 2] + [below.(children := Wrap(below.children + now - top.time))]),
            top.pos, now - top.time - top.children)
  }

  /** An exit without an entry: everything since the last such exit belongs to it. */
  function Orphan(p: Profile, pos: nat, now: nat): Profile
    requires |p.stack| == 1 && pos < |p.modules|
  {
    var bottom := p.stack[0];
    Charged(p.(stack := [bottom.(time := now, children := 0)]), pos, now - bottom.time - bottom.children)
  }

  /** Leaves functions down to the innermost `pos`. */
  function Left(p: Profile, pos: nat, now: nat): (q: Profile)
    requires Sane(p) && pos < |p.modules|
    ensures Sane(q) && SameNames(p.modules, q.modules) && |q.stack| <= |p.stack|
    decreases |p.stack|
  {
    if |p.stack| == 1 then Orphan(p, pos, now)
    else if p.stack[|p.stack| - 1].pos == pos then Popped(p, now)
    else Left(Popped(p, now), pos, now)
  }

  /** One record of the trace; None when the program gives up. */
  function Step(p: Profile, e: Event): (q: Option<Profile>)
    requires Sane(p)
    ensures q.Some? ==> Sane(q.value)
  {
    if TooMany(p.modules, e.name) then None
    else
      var q, pos := p.(modules := Added(p.modules, e.name)), IndexOf(p.modules, e.name);
      match e
      case Enter(_, time) =>
        if |p.stack| > STACKSIZ then None else Some(q.(stack := q.stack + [Frame(pos, time, 0)]))
      case Exit(_, time) => Some(Left(q, pos, time))
      case Use(_) => Some(q)
  }

  /** A whole trace. */
  function Run(p: Profile, trace: seq<Event>): (q: Option<Profile>)
    requires Sane(p)
    ensures q.Some? ==> Sane(q.value)
    decreases |trace|
  {
    if trace == [] then Some(p)
    else
      var q := Step(p, trace[0]);
      if q.None? then None else Run(q.value, trace[1..])
  }

  /** The variable fn_time: the last time read. */
  function TimeIn(e: Event, now: nat): nat {
    match e
    case Enter(_, time) => time
    case Exit(_, time) => time
    case Use(_) => now
  }

  function LastTime(trace: seq<Event>, now: nat): nat {
    if trace == [] then now else LastTime(trace[1..], TimeIn(trace[0], now))
  }

  /** The end of the file: all functions are left at the last time seen. */
  function Drained(p: Profile, now: nat): (q: Profile)
    requires Sane(p)
    ensures Sane(q) && |q.stack| == 1
    decreases |p.stack|
  {
    if |p.stack| == 1 then p else Drained(Popped(p, now), now)
  }

  function Start(): (p: Profile)
    ensures Sane(p)
  {
    Profile([], [Frame(0, 0, 0)], 0, 0)
  }

  // ---------------------------------------------------------------- the accounts

  function SumChildren(stack: seq<Frame>): nat {
    if stack == [] then 0 else SumChildren(stack[..|stack| - 1]) + stack[|stack| - 1].children
  }

  function SumTimes(modules: seq<Mod>): nat {
    if modules == [] then 0 else SumTimes(modules[..|modules| - 1]) + modules[|modules| - 1].time
  }

  function SumCalls(modules: seq<Mod>): nat {
    if modules == [] then 0 else SumCalls(modules[..|modules| - 1]) + modules[|modules| - 1].calls
  }

  /** All time is accounted for, on the stack and in the table. */
  ghost predicate Accounted(p: Profile) {
    && |p.stack| >= 1
    && p.totTime == Wrap(p.stack[0].time + SumChildren(p.stack))
    && p.totTime == Wrap(SumTimes(p.modules))
    && p.totCalls == Wrap(SumCalls(p.modules))
  }

  lemma WrapFirst(a: int, b: int)
    ensures Wrap(Wrap(a) + b) == Wrap(a + b)
  {
    var q, s := a / ULONG, Wrap(a) + b;
    var q' := s / ULONG;
    assert a + b == (q + q') * ULONG + s % ULONG;
    Divided(a + b, ULONG, q + q', s % ULONG);
  }

  lemma WrapAdd(a: int, b: int)
    ensures Wrap(Wrap(a) + b) == Wrap(a + b) && Wrap(a + Wrap(b)) == Wrap(a + b)
  {
    WrapFirst(a, b);
    WrapFirst(b, a);
  }

  lemma {:induction false} SumsUpdated(modules: seq<Mod>, i: nat, m: Mod)
    requires i < |modules|
    ensures SumTimes(modules[i := m]) == SumTimes(modules) - modules[i].time + m.time
    ensures SumCalls(modules[i := m]) == SumCalls(modules) - modules[i].calls + m.calls
  {
    var n := |modules| - 1;
    if i < n {
      SumsUpdated(modules[..n], i, m);
      assert modules[i := m][..n] == modules[..n][i := m];
    } else {
      assert modules[i := m][..n] == modules[..n];
    }
  }

  lemma ChargedSums(p: Profile, pos: nat, time: int)
    requires pos < |p.modules|
    requires p.totTime == Wrap(SumTimes(p.modules)) && p.totCalls == Wrap(SumCalls(p.modules))
    ensures var q := Charged(p, pos, time);
      q.totTime == Wrap(SumTimes(q.modules)) && q.totCalls == Wrap(SumCalls(q.modules)) && q.totTime == Wrap(p.totTime + time)
  {
    hide Wrap, SumTimes, SumCalls;
    var m := p.modules[pos];
    SumsUpdated(p.modules, pos, Charge(m, time));
    OneMore(SumTimes(p.modules) - m.time, m.time, time);
    OneMore(SumCalls(p.modules) - m.calls, m.calls, 1);
  }

  lemma OneMore(rest: int, old': int, more: int)
    ensures Wrap(Wrap(rest + old') + more) == Wrap(rest + Wrap(old' + more))
    ensures Wrap(Wrap(rest + old') + more) == Wrap(rest + old' + more)
  {
    hide Wrap;
    WrapAdd(rest + old', more);
    WrapAdd(rest, old' + more);
  }
}
