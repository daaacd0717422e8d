/** What the block machine of client/mysqltest.c computes, for every file of lines. */
module BlockTheorem {
  import opened Prelude
  import opened BlockScript
  import opened BlockMachine

  /** The machine can go on for `fuel` rounds at least. */
  ghost predicate LongRun<C, S>(code: seq<Line<C>>, m: Meaning<C, S>, c: Machine<S>, fuel: nat)
    requires Sane(c)
  {
    exists n: nat :: n >= fuel && Steps(code, m, c, n).At?
  }

  lemma LongRunLater<C, S>(code: seq<Line<C>>, m: Meaning<C, S>, c: Machine<S>, d: Machine<S>, fuel: nat)
    requires Sane(c) && Sane(d) && Leads(code, m, c, d) && LongRun(code, m, d, fuel)
    ensures LongRun(code, m, c, fuel)
  {
    var n: nat :| Steps(code, m, c, n) == d;
    var k: nat :| k >= fuel && Steps(code, m, d, k).At?;
    StepsAdd(code, m, c, n, k);
    assert Steps(code, m, c, n + k).At?;
  }

  lemma LongRunStep<C, S>(code: seq<Line<C>>, m: Meaning<C, S>, c: Machine<S>, fuel: nat)
    requires Sane(c) && Sane(Step(code, m, c)) && fuel > 0 && LongRun(code, m, Step(code, m, c), fuel - 1)
    ensures LongRun(code, m, c, fuel)
  {
    var n: nat :| n >= fuel - 1 && Steps(code, m, Step(code, m, c), n).At?;
    assert Steps(code, m, c, n + 1).At?;
  }

  /** A script whose structured meaning needs more than `fuel` blocks keeps the machine busy
      for as many rounds. */
  lemma {:induction false} Diverges<C, S>(code: seq<Line<C>>, m: Meaning<C, S>, c: Machine<S>, p: Script<C>, fuel: nat)
    requires c.At? && Sane(c) && c.blocks[c.cur].ok && StandsAt(code, c.line, p)
    requires Run(p, m, c.s, fuel, |c.blocks| - 1 - c.cur).None?
    ensures LongRun(code, m, c, fuel)
    decreases fuel, p, 1
  {
    hide Leads, SameBlocks, LongRun, Steps;
    match p
    case Command(cmd, next) =>
      var d := Step(code, m, c);
      LeadsStep(code, m, c);
      Diverges(code, m, d, next, fuel);
      LongRunLater(code, m, c, d, fuel);
    case Block(_, _, body, next) =>
      var b := Opened(code, m, c, p);
      if !b.blocks[b.cur].ok {
        var d := Skips(code, m, b, body);
        LeadsOn(code, m, c, b, d);
        var e := Closed(code, m, c, b, d, p);
        LeadsOn(code, m, c, d, e);
        Diverges(code, m, e, next, fuel);
        LongRunLater(code, m, c, e, fuel);
      } else if fuel == 0 {
        NoRun(code, m, c);
      } else {
        DivergesTaken(code, m, c, b, p, fuel);
      }
  }

  lemma NoRun<C, S>(code: seq<Line<C>>, m: Meaning<C, S>, c: Machine<S>)
    requires c.At? && Sane(c)
    ensures LongRun(code, m, c, 0)
  {
    assert Steps(code, m, c, 0).At?;
  }

  lemma {:induction false} DivergesTaken<C, S>(code: seq<Line<C>>, m: Meaning<C, S>, c: Machine<S>, b: Machine<S>, p: Script<C>, fuel: nat)
    requires c.At? && Sane(c) && c.blocks[c.cur].ok && p.Block? && StandsAt(code, c.line, p) && fuel > 0
    requires Run(p, m, c.s, fuel, |c.blocks| - 1 - c.cur).None?
    requires InBlock(c, b, p) && b == Step(code, m, c) && b.blocks[b.cur].ok && m.eval(p.test, c.s) == Some((b.s, true))
    ensures LongRun(code, m, c, fuel)
    decreases fuel, p, 0
  {
    hide Leads, SameBlocks, LongRun, Steps, Step;
    var r := Run(p.body, m, b.s, fuel - 1, |c.blocks| - 2 - c.cur);
    if r.None? {
      Diverges(code, m, b, p.body, fuel - 1);
    } else {
      var d := Simulates(code, m, b, p.body, fuel - 1);
      var e := Closed(code, m, c, b, d, p);
      LeadsOn(code, m, b, d, e);
      Diverges(code, m, e, if p.isWhile then p else p.next, fuel - 1);
      LongRunLater(code, m, b, e, fuel - 1);
    }
    LongRunStep(code, m, c, fuel);
  }

  // ---------------------------------------------------------------- structured files

  /** How the whole program ends when the script as a whole has the effect `e`. */
  function Ending<S>(e: Effect<S>): Machine<S> {
    match e
    case GoesOn(s) => Finished(s)
    case Exits(s) => Exited(s)
    case Dies => Died
  }

  /** Within `fuel` blocks the structured meaning comes to the effect `e`. */
  predicate Means<C, S(==)>(p: Script<C>, m: Meaning<C, S>, s: S, fuel: nat, e: Effect<S>) {
    Run(p, m, s, fuel, DEPTH - 1) == Some(e)
  }

  lemma EndsAlike<C, S>(code: seq<Line<C>>, m: Meaning<C, S>, c: Machine<S>, d: Machine<S>, e: Machine<S>)
    requires Sane(c) && !d.At? && !e.At? && Leads(code, m, c, d) && Leads(code, m, c, e)
    ensures d == e
  {
    var n: nat :| Steps(code, m, c, n) == d;
    var k: nat :| Steps(code, m, c, k) == e;
    StepsAdd(code, m, c, n, k);
    StepsAdd(code, m, c, k, n);
    EndIsEnd(code, m, d, k);
    EndIsEnd(code, m, e, n);
  }

  lemma NoLongRun<C, S>(code: seq<Line<C>>, m: Meaning<C, S>, c: Machine<S>, n: nat)
    requires Sane(c) && !Steps(code, m, c, n).At?
    ensures !LongRun(code, m, c, n)
  {
    forall k: nat | k >= n ensures !Steps(code, m, c, k).At? {
      StepsAdd(code, m, c, n, k - n);
      EndIsEnd(code, m, Steps(code, m, c, n), k - n);
    }
  }

  /** A terminating structured meaning is what the machine computes ... */
  lemma MachineFollows<C, S>(code: seq<Line<C>>, m: Meaning<C, S>, s: S, p: Script<C>, fuel: nat)
    requires code == Lines(p) && Run(p, m, s, fuel, DEPTH - 1).Some?
    ensures Leads(code, m, Start(s), Ending(Run(p, m, s, fuel, DEPTH - 1).value))
  {
    hide Leads, Run;
    var c := Start(s);
    WholeFile(code, p);
    var d := Simulates(code, m, c, p, fuel);
    if d.At? {
      LeadsStep(code, m, d);
      LeadsOn(code, m, c, d, Step(code, m, d));
    }
  }

  lemma WholeFile<C>(code: seq<Line<C>>, p: Script<C>)
    requires code == Lines(p)
    ensures StandsAt(code, 0, p) && Size(p) == |code|
  {
    Standing(code, 0, p);
  }

  /** ... and if the machine ends, the structured meaning terminates, in the same way. */
  lemma MachineLeads<C, S>(code: seq<Line<C>>, m: Meaning<C, S>, s: S, p: Script<C>, d: Machine<S>) returns (fuel: nat)
    requires code == Lines(p) && Leads(code, m, Start(s), d) && !d.At?
    ensures Run(p, m, s, fuel, DEPTH - 1).Some? && d == Ending(Run(p, m, s, fuel, DEPTH - 1).value)
  {
    var c := Start(s);
    fuel :| Steps(code, m, c, fuel) == d;
    WholeFile(code, p);
    if Run(p, m, s, fuel, DEPTH - 1).None? {
      Diverges(code, m, c, p, fuel);
      NoLongRun(code, m, c, fuel);
    } else {
      MachineFollows(code, m, s, p, fuel);
      EndsAlike(code, m, c, d, Ending(Run(p, m, s, fuel, DEPTH - 1).value));
    }
  }

  /** The flat machine and the nested blocks have the same meaning. */
  lemma MachineIsStructured<C, S>(m: Meaning<C, S>, s: S, p: Script<C>, e: Effect<S>)
    ensures Leads(Lines(p), m, Start(s), Ending(e)) <==> exists fuel: nat :: Means(p, m, s, fuel, e)
  {
    if Leads(Lines(p), m, Start(s), Ending(e)) {
      var fuel := MachineLeads(Lines(p), m, s, p, Ending(e));
      assert Means(p, m, s, fuel, e);
    }
    if fuel: nat :| Means(p, m, s, fuel, e) {
      MachineFollows(Lines(p), m, s, p, fuel);
    }
  }

  // ---------------------------------------------------------------- how deep blocks may be nested

  predicate MeansWith<C, S(==)>(p: Script<C>, m: Meaning<C, S>, s: S, fuel: nat, room: nat, e: Effect<S>) {
    Run(p, m, s, fuel, room) == Some(e)
  }

  /** A script nested at most 31 deep means what it means with any more room. */
  lemma NestedUpTo31<C, S>(m: Meaning<C, S>, s: S, p: Script<C>, e: Effect<S>, room: nat)
    requires Depth(p) <= 31 <= room
    ensures Leads(Lines(p), m, Start(s), Ending(e)) <==> exists fuel: nat :: MeansWith(p, m, s, fuel, room, e)
  {
    forall fuel: nat ensures MeansWith(p, m, s, fuel, room, e) <==> Means(p, m, s, fuel, e) {
      EnoughRoom(p, m, s, fuel, room, 31);
    }
    MachineIsStructured(m, s, p, e);
  }

  /** `n` blocks, one in the other. */
  function Nest<C>(n: nat, test: C): Script<C> {
    if n == 0 then Empty else Block(false, test, Nest(n - 1, test), Empty)
  }

  ghost predicate Succeeds<C, S(!new)>(m: Meaning<C, S>, test: C) {
    forall s :: m.eval(test, s).Some? && m.eval(test, s).value.1
  }

  lemma {:induction false} NestRuns<C, S(!new)>(m: Meaning<C, S>, s: S, n: nat, test: C, room: nat)
    requires Succeeds(m, test)
    ensures Run(Nest(n, test), m, s, n, room).Some?
    ensures Run(Nest(n, test), m, s, n, room).value.Dies? <==> n > room
    decreases n
  {
    if n > 0 && room > 0 {
      NestRuns(m, m.eval(test, s).value.0, n - 1, test, room - 1);
      NestEnds(m, m.eval(test, s).value.0, n - 1, test, room - 1);
    }
  }

  lemma {:induction false} NestEnds<C, S>(m: Meaning<C, S>, s: S, n: nat, test: C, room: nat)
    ensures Run(Nest(n, test), m, s, n, room).Some? ==> !Run(Nest(n, test), m, s, n, room).value.Exits?
    decreases n
  {
    if n > 0 && room > 0 && m.eval(test, s).Some? && m.eval(test, s).value.1 {
      NestEnds(m, m.eval(test, s).value.0, n - 1, test, room - 1);
    }
  }

  /** Blocks whose tests succeed: 31 in one another come to the end of the file, 32 are too deep. */
  lemma NestedTooDeeply<C, S(!new)>(m: Meaning<C, S>, s: S, test: C)
    requires Succeeds(m, test)
    ensures Leads(Lines(Nest(32, test)), m, Start(s), Died)
    ensures exists s' :: Leads(Lines(Nest(31, test)), m, Start(s), Finished(s'))
  {
    hide Leads, Nest;
    NestRuns(m, s, 32, test, 31);
    MachineFollows(Lines(Nest(32, test)), m, s, Nest(32, test), 32);
    NestRuns(m, s, 31, test, 31);
    NestEnds(m, s, 31, test, 31);
    MachineFollows(Lines(Nest(31, test)), m, s, Nest(31, test), 31);
    assert Leads(Lines(Nest(31, test)), m, Start(s), Finished(Run(Nest(31, test), m, s, 31, 31).value.s));
  }

  // ---------------------------------------------------------------- any file

  /** Blocks opened and not closed before line `j`. */
  function Height<C>(code: seq<Line<C>>, j: nat): int
    requires j <= |code|
  {
    if j == 0 then 0
    else Height(code, j - 1) + match code[j - 1] { case Plain(_) => 0 case Open(_, _) => 1 case End => -1 }
  }

  ghost predicate NoStray<C>(code: seq<Line<C>>, i: nat)
    requires i <= |code|
  {
    forall j: nat | j <= i :: Height(code, j) >= 0
  }

  /** Where block `k` of the stack says that its header is. */
  ghost predicate HeaderAt<C>(code: seq<Line<C>>, k: nat, line: nat) {
    line <= |code| && Height(code, line) == k && NoStray(code, line)
  }

  ghost predicate Balanced<C, S>(code: seq<Line<C>>, c: Machine<S>) {
    c.At? ==> c.cur < |c.blocks| && HeaderAt(code, c.cur, c.line) && forall k: nat | k < c.cur :: HeaderAt(code, k, c.blocks[k].line)
  }

  lemma NoStrayNext<C>(code: seq<Line<C>>, i: nat)
    requires i < |code| && NoStray(code, i) && Height(code, i + 1) >= 0
    ensures NoStray(code, i + 1)
  {
  }

  lemma StepBalanced<C, S>(code: seq<Line<C>>, m: Meaning<C, S>, c: Machine<S>)
    requires Balanced(code, c)
    ensures Balanced(code, Step(code, m, c))
    ensures Step(code, m, c).Finished? && c.At? ==> Height(code, |code|) == 0 && NoStray(code, |code|)
  {
    hide NoStray;
    if c.At? && c.line < |code| && Step(code, m, c).At? {
      if Height(code, c.line + 1) >= 0 {
        NoStrayNext(code, c.line);
      }
    }
  }

  lemma {:induction false} StepsBalanced<C, S>(code: seq<Line<C>>, m: Meaning<C, S>, c: Machine<S>, n: nat)
    requires Balanced(code, c)
    ensures Steps(code, m, c, n).Finished? && c.At? ==> Height(code, |code|) == 0 && NoStray(code, |code|)
    decreases n
  {
    hide NoStray;
    if n > 0 {
      StepBalanced(code, m, c);
      StepsBalanced(code, m, Step(code, m, c), n - 1);
      if !Step(code, m, c).At? {
        EndIsEnd(code, m, Step(code, m, c), n - 1);
      }
    }
  }

  lemma {:induction false} ParseHeight<C>(code: seq<Line<C>>, i: nat)
    requires i <= |code|
    ensures match Parse(code, i)
      case Unclosed => Height(code, |code|) > Height(code, i)
      case Parsed(_, next) => Height(code, next) == Height(code, i)
    decreases |code| - i
  {
    if i < |code| && !code[i].End? {
      ParseHeight(code, i + 1);
      if code[i].Open? && Parse(code, i + 1).Parsed? && Parse(code, i + 1).next < |code| {
        ParseHeight(code, Parse(code, i + 1).next + 1);
      }
    }
  }

  /** The machine only comes to the end of a file whose blocks are properly closed. */
  lemma FinishedIsStructured<C, S>(code: seq<Line<C>>, m: Meaning<C, S>, s: S, d: Machine<S>)
    requires Leads(code, m, Start(s), d) && d.Finished?
    ensures Structure(code).Some?
  {
    var n: nat :| Steps(code, m, Start(s), n) == d;
    StepsBalanced(code, m, Start(s), n);
    ParseHeight(code, 0);
    var r := Parse(code, 0);
    if r.Parsed? && r.next < |code| {
      assert Height(code, r.next + 1) < 0;
    }
  }

  /** Any file: it runs to its end with state `s'` if and only if it is a structured script
      whose meaning is `s'`. */
  lemma FinishesIff<C, S>(code: seq<Line<C>>, m: Meaning<C, S>, s: S, s': S)
    ensures Leads(code, m, Start(s), Finished(s')) <==>
            exists p, fuel: nat :: code == Lines(p) && Means(p, m, s, fuel, GoesOn(s'))
  {
    if Leads(code, m, Start(s), Finished(s')) {
      FinishedIsStructured(code, m, s, Finished(s'));
      var p := Structure(code).value;
      StructureMeans(code, p);
      assert Ending(GoesOn(s')) == Finished(s');
      var fuel := MachineLeads(code, m, s, p, Finished(s'));
      assert Means(p, m, s, fuel, GoesOn(s'));
    }
    if p, fuel: nat :| code == Lines(p) && Means(p, m, s, fuel, GoesOn(s')) {
      MachineFollows(code, m, s, p, fuel);
    }
  }
}
