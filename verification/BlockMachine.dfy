/**
 The block stack and the line counter of client/mysqltest.c as a state machine over the
 cached lines, and the proof that it means what the nested blocks mean.
 */
module BlockMachine {
  import opened Prelude
  import opened BlockScript

  /** BLOCK_STACK_DEPTH. */
  const DEPTH: nat := 32

  datatype BlockCmd = CmdNone | CmdIf | CmdWhile

  /** struct st_block: where to continue, whether the block is executed, what it is. */
  datatype StBlock = StBlock(line: nat, ok: bool, cmd: BlockCmd)

  /** The state of the main loop, or how the program ended: with the end of the file, by
      `exit`, or with an error message. */
  datatype Machine<+S> = At(line: nat, blocks: seq<StBlock>, cur: nat, s: S) | Finished(s: S) | Exited(s: S) | Died

  ghost predicate Sane<S>(c: Machine<S>) {
    c.At? ==> c.cur < |c.blocks|
  }

  /** The start: the outermost block is always executed. */
  ghost function Start<S>(s: S): Machine<S> {
    At(0, seq(DEPTH, k => StBlock(0, k == 0, CmdNone)), 0, s)
  }

  // ---------------------------------------------------------------- one round of the main loop

  function AfterEffect<S>(c: Machine<S>, e: Effect<S>): Machine<S>
    requires c.At?
  {
    match e
    case GoesOn(s) => c.(line := c.line + 1, s := s)
    case Exits(s) => Exited(s)
    case Dies => Died
  }

  /** do_block. */
  function DoBlock<C, S>(c: Machine<S>, m: Meaning<C, S>, isWhile: bool, test: C): Machine<S>
    requires c.At? && c.cur < |c.blocks|
  {
    if c.cur == |c.blocks| - 1 then Died
    else
      var blocks := c.blocks[c.cur := c.blocks[c.cur].(line := c.line)];
      var cmd := if isWhile then CmdWhile else CmdIf;
      if !c.blocks[c.cur].ok then At(c.line + 1, blocks[c.cur + 1 := blocks[c.cur + 1].(cmd := cmd, ok := false)], c.cur + 1, c.s)
      else
        match m.eval(test, c.s)
        case None => Died
        case Some((s, ok)) => At(c.line + 1, blocks[c.cur + 1 := blocks[c.cur + 1].(cmd := cmd, ok := ok)], c.cur + 1, s)
  }

  /** do_done. */
  function DoDone<S>(c: Machine<S>): Machine<S>
    requires c.At? && c.cur < |c.blocks|
  {
    if c.cur == 0 then Died
    else if c.blocks[c.cur].ok && c.blocks[c.cur].cmd == CmdWhile then c.(cur := c.cur - 1, line := c.blocks[c.cur - 1].line)
    else c.(cur := c.cur - 1, line := c.line + 1)
  }

  function Step<C, S>(code: seq<Line<C>>, m: Meaning<C, S>, c: Machine<S>): Machine<S>
    requires c.At? ==> c.cur < |c.blocks|
  {
    if !c.At? then c
    else if c.line >= |code| then if c.cur == 0 then Finished(c.s) else Died
    else
      match code[c.line]
      case Plain(cmd) => if c.blocks[c.cur].ok then AfterEffect(c, m.exec(cmd, c.s)) else c.(line := c.line + 1)
      case Open(isWhile, test) => DoBlock(c, m, isWhile, test)
      case End => DoDone(c)
  }

  function Steps<C, S>(code: seq<Line<C>>, m: Meaning<C, S>, c: Machine<S>, n: nat): Machine<S>
    requires c.At? ==> c.cur < |c.blocks|
    decreases n
  {
    if n == 0 then c else Steps(code, m, Step(code, m, c), n - 1)
  }

  lemma {:induction false} StepsSane<C, S>(code: seq<Line<C>>, m: Meaning<C, S>, c: Machine<S>, n: nat)
    requires Sane(c)
    ensures Sane(Steps(code, m, c, n))
    decreases n
  {
    if n > 0 {
      StepsSane(code, m, Step(code, m, c), n - 1);
    }
  }

  lemma {:induction false} StepsAdd<C, S>(code: seq<Line<C>>, m: Meaning<C, S>, c: Machine<S>, n: nat, k: nat)
    requires Sane(c)
    ensures Sane(Steps(code, m, c, n))
    ensures Steps(code, m, c, n + k) == Steps(code, m, Steps(code, m, c, n), k)
    decreases n
  {
    if n > 0 {
      StepsAdd(code, m, Step(code, m, c), n - 1, k);
    }
  }

  lemma {:induction false} EndIsEnd<C, S>(code: seq<Line<C>>, m: Meaning<C, S>, c: Machine<S>, n: nat)
    requires !c.At?
    ensures Steps(code, m, c, n) == c
  {
    if n > 0 {
      EndIsEnd(code, m, c, n - 1);
    }
  }

  // ---------------------------------------------------------------- running a structured script

  /** The enclosing blocks are untouched, but for the line noted in the innermost of them. */
  ghost predicate SameBlocks(a: seq<StBlock>, b: seq<StBlock>, cur: nat) {
    && |a| == |b| && cur < |a|
    && (forall k | 0 <= k < cur :: b[k] == a[k])
    && b[cur].ok == a[cur].ok && b[cur].cmd == a[cur].cmd
  }

  /** From `c` on the script had the effect `e`; `d` is where the machine is now. */
  ghost predicate Arrived<S>(c: Machine<S>, d: Machine<S>, line: nat, e: Effect<S>)
    requires c.At?
  {
    match e
    case GoesOn(s) => d.At? && d.line == line && d.cur == c.cur && |d.blocks| == |c.blocks| && SameBlocks(c.blocks, d.blocks, c.cur) && d.s == s
    case Exits(s) => d == Exited(s)
    case Dies => d == Died
  }

  /** The machine gets from `c` to `d`. */
  ghost predicate Leads<C, S>(code: seq<Line<C>>, m: Meaning<C, S>, c: Machine<S>, d: Machine<S>)
    requires Sane(c)
  {
    exists n: nat :: Steps(code, m, c, n) == d
  }

  lemma LeadsStep<C, S>(code: seq<Line<C>>, m: Meaning<C, S>, c: Machine<S>)
    requires Sane(c)
    ensures Leads(code, m, c, Step(code, m, c))
  {
    assert Steps(code, m, c, 1) == Step(code, m, c);
  }

  lemma LeadsOn<C, S>(code: seq<Line<C>>, m: Meaning<C, S>, c: Machine<S>, d: Machine<S>, e: Machine<S>)
    requires Sane(c) && Sane(d) && Leads(code, m, c, d) && Leads(code, m, d, e)
    ensures Leads(code, m, c, e)
  {
    var n: nat :| Steps(code, m, c, n) == d;
    var k: nat :| Steps(code, m, d, k) == e;
    StepsAdd(code, m, c, n, k);
    assert Steps(code, m, c, n + k) == e;
  }

  lemma ArrivedOn<S>(c: Machine<S>, d: Machine<S>, e: Machine<S>, line: nat, effect: Effect<S>)
    requires Sane(c) && c.At? && d.At? && d.cur == c.cur && SameBlocks(c.blocks, d.blocks, c.cur)
    requires Arrived(d, e, line, effect)
    ensures Arrived(c, e, line, effect)
  {
  }

  /** What the machine has when it arrives, and what it is when it does not. */
  lemma ArrivedMeans<S>(c: Machine<S>, d: Machine<S>, line: nat, effect: Effect<S>)
    requires c.At? && Arrived(c, d, line, effect)
    ensures d.At? <==> effect.GoesOn?
    ensures d.At? ==> d.line == line && d.cur == c.cur && |d.blocks| == |c.blocks| && SameBlocks(c.blocks, d.blocks, c.cur) && d.s == effect.s
  {
  }

  lemma EndedAnywhere<S>(c: Machine<S>, b: Machine<S>, d: Machine<S>, line: nat, line': nat, effect: Effect<S>)
    requires c.At? && b.At? && !d.At? && Arrived(b, d, line, effect)
    ensures Arrived(c, d, line', effect)
  {
  }

  /** `b` follows the line that opens block `p`. */
  ghost predicate InBlock<C, S>(c: Machine<S>, b: Machine<S>, p: Script<C>)
    requires c.At? && p.Block?
  {
    && b.At? && Sane(b) && b.cur == c.cur + 1 && b.line == c.line + 1 && |b.blocks| == |c.blocks|
    && SameBlocks(c.blocks, b.blocks, c.cur) && b.blocks[c.cur].line == c.line
    && b.blocks[b.cur].cmd == (if p.isWhile then CmdWhile else CmdIf)
  }

  lemma Stays<C, S>(code: seq<Line<C>>, m: Meaning<C, S>, c: Machine<S>)
    requires c.At? && Sane(c)
    ensures Leads(code, m, c, c) && SameBlocks(c.blocks, c.blocks, c.cur)
  {
    assert Steps(code, m, c, 0) == c;
  }

  lemma InBlockMeans<C, S>(c: Machine<S>, b: Machine<S>, p: Script<C>)
    requires c.At? && p.Block? && InBlock(c, b, p)
    ensures b.At? && Sane(b) && b.cur == c.cur + 1 && b.line == c.line + 1 && |b.blocks| == |c.blocks|
  {
  }

  /** The line that opens a block. */
  lemma Opened<C, S>(code: seq<Line<C>>, m: Meaning<C, S>, c: Machine<S>, p: Script<C>) returns (b: Machine<S>)
    requires c.At? && Sane(c) && p.Block? && c.line < |code| && code[c.line] == Open(p.isWhile, p.test)
    ensures Sane(b) && Leads(code, m, c, b) && b == DoBlock(c, m, p.isWhile, p.test)
    ensures if c.cur + 1 < |c.blocks| && (c.blocks[c.cur].ok ==> m.eval(p.test, c.s).Some?) then InBlock(c, b, p) else b == Died
    ensures b.At? ==> if c.blocks[c.cur].ok then m.eval(p.test, c.s) == Some((b.s, b.blocks[b.cur].ok)) else b.s == c.s && !b.blocks[b.cur].ok
  {
    b := Step(code, m, c);
    LeadsStep(code, m, c);
  }

  /** The line that closes it, when what came before left the enclosing blocks alone. */
  lemma Closed<C, S>(code: seq<Line<C>>, m: Meaning<C, S>, c: Machine<S>, b: Machine<S>, d: Machine<S>, p: Script<C>) returns (e: Machine<S>)
    requires c.At? && Sane(c) && p.Block? && InBlock(c, b, p)
    requires d.At? && Sane(d) && d.cur == b.cur && SameBlocks(b.blocks, d.blocks, b.cur)
    requires d.line < |code| && code[d.line] == End
    ensures e.At? && Sane(e) && Leads(code, m, d, e) && e.s == d.s && e.cur == c.cur && |e.blocks| == |c.blocks| && SameBlocks(c.blocks, e.blocks, c.cur)
    ensures e.line == if b.blocks[b.cur].ok && p.isWhile then c.line else d.line + 1
  {
    e := Step(code, m, d);
    LeadsStep(code, m, d);
  }

  lemma BlockStands<C>(code: seq<Line<C>>, i: nat, p: Script<C>)
    requires StandsAt(code, i, p) && p.Block?
    ensures var j := i + 1 + Size(p.body);
      && i < j < |code| && code[i] == Open(p.isWhile, p.test) && StandsAt(code, i + 1, p.body)
      && code[j] == End && StandsAt(code, j + 1, p.next) && i + Size(p) == j + 1 + Size(p.next)
  {
  }

  /** From `c` the machine went through the body of block `p`, where it started as `b`, and
      stands at the closing line. */
  ghost predicate AtEnd<C, S>(code: seq<Line<C>>, m: Meaning<C, S>, c: Machine<S>, b: Machine<S>, d: Machine<S>, p: Script<C>) {
    && c.At? && Sane(c) && p.Block? && StandsAt(code, c.line, p) && InBlock(c, b, p)
    && d.At? && Sane(d) && Leads(code, m, c, d)
    && d.line == c.line + 1 + Size(p.body) && d.cur == b.cur && SameBlocks(b.blocks, d.blocks, b.cur)
  }

  /** After the body, which had the effect `e`: at the closing line, or the end of the program. */
  lemma BodyDone<C, S>(code: seq<Line<C>>, m: Meaning<C, S>, c: Machine<S>, b: Machine<S>, d: Machine<S>, p: Script<C>, e: Effect<S>)
    requires c.At? && Sane(c) && p.Block? && StandsAt(code, c.line, p) && InBlock(c, b, p) && Leads(code, m, c, b)
    requires b.At? && Sane(b) && Sane(d) && Leads(code, m, b, d) && Arrived(b, d, b.line + Size(p.body), e)
    ensures Leads(code, m, c, d) && (d.At? <==> e.GoesOn?)
    ensures if d.At? then AtEnd(code, m, c, b, d, p) && d.s == e.s else Arrived(c, d, c.line + Size(p), e)
  {
    InBlockMeans(c, b, p);
    hide Leads, SameBlocks, StandsAt, Size, InBlock, Arrived;
    LeadsOn(code, m, c, b, d);
    ArrivedMeans(b, d, b.line + Size(p.body), e);
    if !d.At? {
      EndedAnywhere(c, b, d, b.line + Size(p.body), c.line + Size(p), e);
    }
  }

  /** Over the closing line, to the block again or to what comes after it. */
  lemma Leaves<C, S>(code: seq<Line<C>>, m: Meaning<C, S>, c: Machine<S>, b: Machine<S>, d: Machine<S>, p: Script<C>) returns (e: Machine<S>)
    requires AtEnd(code, m, c, b, d, p)
    ensures c.At? && Sane(c) && b.At? && b.cur < |b.blocks| && p.Block? && d.At?
    ensures e.At? && Sane(e) && Leads(code, m, c, e) && e.s == d.s && e.cur == c.cur && |e.blocks| == |c.blocks| && SameBlocks(c.blocks, e.blocks, c.cur)
    ensures e.blocks[e.cur].ok == c.blocks[c.cur].ok
    ensures var q := if b.blocks[b.cur].ok && p.isWhile then p else p.next; StandsAt(code, e.line, q) && e.line + Size(q) == c.line + Size(p)
  {
    BlockStands(code, c.line, p);
    InBlockMeans(c, b, p);
    hide Leads, StandsAt, Size, InBlock;
    e := Closed(code, m, c, b, d, p);
    LeadsOn(code, m, c, d, e);
  }

  /** A script in a block that is not executed: nothing of it runs, the state stays. */
  lemma {:induction false} Skips<C, S>(code: seq<Line<C>>, m: Meaning<C, S>, c: Machine<S>, p: Script<C>) returns (d: Machine<S>)
    requires c.At? && Sane(c) && !c.blocks[c.cur].ok && StandsAt(code, c.line, p)
    ensures Sane(d) && Leads(code, m, c, d)
    ensures Arrived(c, d, c.line + Size(p), if Depth(p) < |c.blocks| - c.cur then GoesOn(c.s) else Dies)
    decreases p, 1
  {
    hide Leads, SameBlocks, StandsAt, Step;
    match p
    case Empty =>
      d := c;
      Stays(code, m, c);
    case Command(_, _) => d := SkipsCommand(code, m, c, p);
    case Block(_, _, _, _) => d := SkipsBlock(code, m, c, p);
  }

  lemma PlainStep<C, S>(code: seq<Line<C>>, m: Meaning<C, S>, c: Machine<S>, p: Script<C>)
    requires c.At? && Sane(c) && p.Command? && StandsAt(code, c.line, p)
    ensures Step(code, m, c) == if c.blocks[c.cur].ok then AfterEffect(c, m.exec(p.cmd, c.s)) else c.(line := c.line + 1)
    ensures StandsAt(code, c.line + 1, p.next) && Size(p) == 1 + Size(p.next)
  {
  }

  lemma {:induction false} SkipsCommand<C, S>(code: seq<Line<C>>, m: Meaning<C, S>, c: Machine<S>, p: Script<C>) returns (d: Machine<S>)
    requires c.At? && Sane(c) && !c.blocks[c.cur].ok && p.Command? && StandsAt(code, c.line, p)
    ensures Sane(d) && Leads(code, m, c, d)
    ensures Arrived(c, d, c.line + Size(p), if Depth(p) < |c.blocks| - c.cur then GoesOn(c.s) else Dies)
    decreases p, 0, 0
  {
    PlainStep(code, m, c, p);
    hide Leads, SameBlocks, Step, StandsAt, Size, Arrived;
    var b := c.(line := c.line + 1);
    LeadsStep(code, m, c);
    Stays(code, m, c);
    d := Skips(code, m, b, p.next);
    LeadsOn(code, m, c, b, d);
    ArrivedOn(c, b, d, c.line + Size(p), if Depth(p) < |c.blocks| - c.cur then GoesOn(c.s) else Dies);
  }

  lemma {:induction false} SkipsBlock<C, S>(code: seq<Line<C>>, m: Meaning<C, S>, c: Machine<S>, p: Script<C>) returns (d: Machine<S>)
    requires c.At? && Sane(c) && !c.blocks[c.cur].ok && p.Block? && StandsAt(code, c.line, p)
    ensures Sane(d) && Leads(code, m, c, d)
    ensures Arrived(c, d, c.line + Size(p), if Depth(p) < |c.blocks| - c.cur then GoesOn(c.s) else Dies)
    decreases p, 0, 1
  {
    BlockStands(code, c.line, p);
    hide Leads, SameBlocks, StandsAt, Size, Step, DoBlock, InBlock;
    var b := Opened(code, m, c, p);
    d := b;
    if b.At? {
      InBlockMeans(c, b, p);
      hide Arrived, AtEnd, Sane;
      d := Skips(code, m, b, p.body);
      BodyDone(code, m, c, b, d, p, if Depth(p.body) < |b.blocks| - b.cur then GoesOn(c.s) else Dies);
      if d.At? {
        d := SkipsRest(code, m, c, b, d, p);
      }
    }
  }

  /** From the end of the block on. */
  lemma {:induction false} SkipsRest<C, S>(code: seq<Line<C>>, m: Meaning<C, S>, c: Machine<S>, b: Machine<S>, d: Machine<S>, p: Script<C>) returns (f: Machine<S>)
    requires AtEnd(code, m, c, b, d, p) && !b.blocks[b.cur].ok && !c.blocks[c.cur].ok && d.s == c.s
    ensures Sane(f) && Leads(code, m, c, f)
    ensures Arrived(c, f, c.line + Size(p), if Depth(p.next) < |c.blocks| - c.cur then GoesOn(c.s) else Dies)
    decreases p, 0, 0
  {
    var e := Leaves(code, m, c, b, d, p);
    hide Leads, SameBlocks, StandsAt, Size, Step, InBlock, Arrived, AtEnd, Run;
    f := Skips(code, m, e, p.next);
    LeadsOn(code, m, c, e, f);
    ArrivedOn(c, e, f, c.line + Size(p), if Depth(p.next) < |c.blocks| - c.cur then GoesOn(c.s) else Dies);
  }

  /** A script in a block that is executed: the machine arrives where its structured meaning
      says, with the enclosing blocks as they were. */
  lemma {:induction false} Simulates<C, S>(code: seq<Line<C>>, m: Meaning<C, S>, c: Machine<S>, p: Script<C>, fuel: nat) returns (d: Machine<S>)
    requires c.At? && Sane(c) && c.blocks[c.cur].ok && StandsAt(code, c.line, p)
    requires Run(p, m, c.s, fuel, |c.blocks| - 1 - c.cur).Some?
    ensures Sane(d) && Leads(code, m, c, d)
    ensures Arrived(c, d, c.line + Size(p), Run(p, m, c.s, fuel, |c.blocks| - 1 - c.cur).value)
    decreases fuel, p, 3
  {
    hide Leads, SameBlocks, StandsAt;
    match p
    case Empty =>
      d := c;
      Stays(code, m, c);
    case Command(_, _) => d := SimulatesCommand(code, m, c, p, fuel);
    case Block(_, _, _, _) => d := SimulatesBlock(code, m, c, p, fuel);
  }

  lemma {:induction false} SimulatesCommand<C, S>(code: seq<Line<C>>, m: Meaning<C, S>, c: Machine<S>, p: Script<C>, fuel: nat) returns (d: Machine<S>)
    requires c.At? && Sane(c) && c.blocks[c.cur].ok && p.Command? && StandsAt(code, c.line, p)
    requires Run(p, m, c.s, fuel, |c.blocks| - 1 - c.cur).Some?
    ensures Sane(d) && Leads(code, m, c, d)
    ensures Arrived(c, d, c.line + Size(p), Run(p, m, c.s, fuel, |c.blocks| - 1 - c.cur).value)
    decreases fuel, p, 2
  {
    var e, room: nat := m.exec(p.cmd, c.s), |c.blocks| - 1 - c.cur;
    PlainStep(code, m, c, p);
    assert Run(p, m, c.s, fuel, room) == if e.GoesOn? then Run(p.next, m, e.s, fuel, room) else Some(e);
    hide Leads, SameBlocks, Step, StandsAt, Size, Run;
    Stays(code, m, c);
    LeadsStep(code, m, c);
    d := AfterEffect(c, e);
    if d.At? {
      hide Arrived;
      var b := d;
      d := Simulates(code, m, b, p.next, fuel);
      LeadsOn(code, m, c, b, d);
      ArrivedOn(c, b, d, c.line + Size(p), Run(p.next, m, e.s, fuel, room).value);
    }
  }

  lemma {:induction false} SimulatesBlock<C, S>(code: seq<Line<C>>, m: Meaning<C, S>, c: Machine<S>, p: Script<C>, fuel: nat) returns (d: Machine<S>)
    requires c.At? && Sane(c) && c.blocks[c.cur].ok && p.Block? && StandsAt(code, c.line, p)
    requires Run(p, m, c.s, fuel, |c.blocks| - 1 - c.cur).Some?
    ensures Sane(d) && Leads(code, m, c, d)
    ensures Arrived(c, d, c.line + Size(p), Run(p, m, c.s, fuel, |c.blocks| - 1 - c.cur).value)
    decreases fuel, p, 2
  {
    BlockStands(code, c.line, p);
    hide Leads, SameBlocks, StandsAt, Step, DoBlock, Size;
    d := Opened(code, m, c, p);
    if d.At? && d.blocks[d.cur].ok {
      d := SimulatesTaken(code, m, c, d, p, fuel);
    } else if d.At? {
      d := SimulatesSkipped(code, m, c, d, p, fuel);
    }
  }

  lemma {:induction false} SimulatesSkipped<C, S>(code: seq<Line<C>>, m: Meaning<C, S>, c: Machine<S>, b: Machine<S>, p: Script<C>, fuel: nat) returns (d: Machine<S>)
    requires c.At? && Sane(c) && c.blocks[c.cur].ok && p.Block? && StandsAt(code, c.line, p)
    requires Run(p, m, c.s, fuel, |c.blocks| - 1 - c.cur).Some?
    requires InBlock(c, b, p) && Leads(code, m, c, b) && !b.blocks[b.cur].ok && m.eval(p.test, c.s) == Some((b.s, false))
    ensures Sane(d) && Leads(code, m, c, d)
    ensures Arrived(c, d, c.line + Size(p), Run(p, m, c.s, fuel, |c.blocks| - 1 - c.cur).value)
    decreases fuel, p, 1
  {
    BlockStands(code, c.line, p);
    InBlockMeans(c, b, p);
    RunSkipped(p, m, c.s, fuel, |c.blocks| - 1 - c.cur, b.s);
    hide Leads, SameBlocks, StandsAt, Size, Step, InBlock, Arrived, AtEnd, Run, Sane;
    d := Skips(code, m, b, p.body);
    BodyDone(code, m, c, b, d, p, if Depth(p.body) < |b.blocks| - b.cur then GoesOn(b.s) else Dies);
    if d.At? {
      d := SimulatesRest(code, m, c, b, d, p, p.next, fuel);
    }
  }

  lemma RunSkipped<C, S>(p: Script<C>, m: Meaning<C, S>, s: S, fuel: nat, room: nat, t: S)
    requires p.Block? && room > 0 && m.eval(p.test, s) == Some((t, false))
    ensures Run(p, m, s, fuel, room) == if Depth(p.body) < room then Run(p.next, m, t, fuel, room) else Some(Dies)
  {
  }

  lemma RunTaken<C, S>(p: Script<C>, m: Meaning<C, S>, s: S, fuel: nat, room: nat, t: S)
    requires p.Block? && room > 0 && m.eval(p.test, s) == Some((t, true)) && Run(p, m, s, fuel, room).Some?
    ensures fuel > 0 && Run(p.body, m, t, fuel - 1, room - 1).Some?
    ensures var r := Run(p.body, m, t, fuel - 1, room - 1);
      Run(p, m, s, fuel, room) == if r.value.GoesOn? then Run(if p.isWhile then p else p.next, m, r.value.s, fuel - 1, room) else r
  {
  }

  /** From the end of a block on with `q`: the block again, or what comes after it. */
  lemma {:induction false} SimulatesRest<C, S>(code: seq<Line<C>>, m: Meaning<C, S>, c: Machine<S>, b: Machine<S>, d: Machine<S>, p: Script<C>, q: Script<C>, fuel: nat) returns (f: Machine<S>)
    requires AtEnd(code, m, c, b, d, p) && c.blocks[c.cur].ok
    requires q == if b.blocks[b.cur].ok && p.isWhile then p else p.next
    requires Run(q, m, d.s, fuel, |c.blocks| - 1 - c.cur).Some?
    ensures Sane(f) && Leads(code, m, c, f)
    ensures Arrived(c, f, c.line + Size(p), Run(q, m, d.s, fuel, |c.blocks| - 1 - c.cur).value)
    decreases fuel, q, 4
  {
    var e := Leaves(code, m, c, b, d, p);
    hide Leads, SameBlocks, StandsAt, Size, Step, InBlock, Arrived, AtEnd, Run;
    f := Simulates(code, m, e, q, fuel);
    LeadsOn(code, m, c, e, f);
    ArrivedOn(c, e, f, c.line + Size(p), Run(q, m, d.s, fuel, |c.blocks| - 1 - c.cur).value);
  }

  lemma {:induction false} SimulatesTaken<C, S>(code: seq<Line<C>>, m: Meaning<C, S>, c: Machine<S>, b: Machine<S>, p: Script<C>, fuel: nat) returns (d: Machine<S>)
    requires c.At? && Sane(c) && c.blocks[c.cur].ok && p.Block? && StandsAt(code, c.line, p)
    requires Run(p, m, c.s, fuel, |c.blocks| - 1 - c.cur).Some?
    requires InBlock(c, b, p) && Leads(code, m, c, b) && b.blocks[b.cur].ok && m.eval(p.test, c.s) == Some((b.s, true))
    ensures Sane(d) && Leads(code, m, c, d)
    ensures Arrived(c, d, c.line + Size(p), Run(p, m, c.s, fuel, |c.blocks| - 1 - c.cur).value)
    decreases fuel, p, 1
  {
    BlockStands(code, c.line, p);
    InBlockMeans(c, b, p);
    RunTaken(p, m, c.s, fuel, |c.blocks| - 1 - c.cur, b.s);
    hide Leads, SameBlocks, StandsAt, Size, Step, InBlock, Arrived, AtEnd, Run, Sane;
    d := Simulates(code, m, b, p.body, fuel - 1);
    BodyDone(code, m, c, b, d, p, Run(p.body, m, b.s, fuel - 1, |c.blocks| - 2 - c.cur).value);
    if d.At? {
      d := SimulatesRest(code, m, c, b, d, p, if p.isWhile then p else p.next, fuel - 1);
    }
  }
}
