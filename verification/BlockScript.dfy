/**
 Scripts of client/mysqltest.c, twice: as the nested `if` and `while` blocks their author
 means, and as the flat list of lines that the program works on.  What a command or a test
 does is arbitrary: both are functions of an arbitrary state.
 */
module BlockScript {
  import opened Prelude

  /** A line of the script: a command, the header of a block, or the end of one. */
  datatype Line<C> = Plain(cmd: C) | Open(isWhile: bool, test: C) | End

  /** What a command or the test of a block does: the program goes on, comes to its regular
      end with `exit`, or dies with an error message. */
  datatype Effect<S> = GoesOn(s: S) | Exits(s: S) | Dies

  datatype Meaning<!C, !S> = Meaning(exec: (C, S) -> Effect<S>, eval: (C, S) -> Option<(S, bool)>)

  /** A structured script. */
  datatype Script<C> = Empty | Command(cmd: C, next: Script<C>) | Block(isWhile: bool, test: C, body: Script<C>, next: Script<C>)

  /** How deep the blocks are nested. */
  function Depth<C>(p: Script<C>): nat {
    match p
    case Empty => 0
    case Command(_, next) => Depth(next)
    case Block(_, _, body, next) => if 1 + Depth(body) > Depth(next) then 1 + Depth(body) else Depth(next)
  }

  function Lines<C>(p: Script<C>): seq<Line<C>> {
    match p
    case Empty => []
    case Command(cmd, next) => [Plain(cmd)] + Lines(next)
    case Block(isWhile, test, body, next) => [Open(isWhile, test)] + Lines(body) + [End] + Lines(next)
  }

  /** The structured meaning; None when more than `fuel` blocks are entered.  `room` is how
      deep blocks may still be nested: even a block that is skipped needs room. */
  function Run<C, S>(p: Script<C>, m: Meaning<C, S>, s: S, fuel: nat, room: nat): Option<Effect<S>>
    decreases fuel, p
  {
    match p
    case Empty => Some(GoesOn(s))
    case Command(cmd, next) =>
      var e := m.exec(cmd, s);
      if e.GoesOn? then Run(next, m, e.s, fuel, room) else Some(e)
    case Block(isWhile, test, body, next) =>
      if room == 0 then Some(Dies)
      else
        var t := m.eval(test, s);
        if t.None? then Some(Dies)
        else if !t.value.1 then if Depth(body) < room then Run(next, m, t.value.0, fuel, room) else Some(Dies)
        else if fuel == 0 then None
        else
          var r := Run(body, m, t.value.0, fuel - 1, room - 1);
          if r.None? || !r.value.GoesOn? then r
          else if isWhile then Run(p, m, r.value.s, fuel - 1, room)
          else Run(next, m, r.value.s, fuel - 1, room)
  }

  /** More fuel changes nothing. */
  lemma {:induction false} MoreFuel<C, S>(p: Script<C>, m: Meaning<C, S>, s: S, fuel: nat, more: nat, room: nat)
    requires fuel <= more && Run(p, m, s, fuel, room).Some?
    ensures Run(p, m, s, more, room) == Run(p, m, s, fuel, room)
    decreases fuel, p
  {
    match p
    case Empty =>
    case Command(cmd, next) =>
      if m.exec(cmd, s).GoesOn? {
        MoreFuel(next, m, m.exec(cmd, s).s, fuel, more, room);
      }
    case Block(isWhile, test, body, next) =>
      var t := m.eval(test, s);
      if room > 0 && t.Some? {
        if t.value.1 {
          MoreFuel(body, m, t.value.0, fuel - 1, more - 1, room - 1);
          var r := Run(body, m, t.value.0, fuel - 1, room - 1);
          if r.value.GoesOn? {
            MoreFuel(if isWhile then p else next, m, r.value.s, fuel - 1, more - 1, room);
          }
        } else if Depth(body) < room {
          MoreFuel(next, m, t.value.0, fuel, more, room);
        }
      }
  }

  /** A script that is not nested too deeply does not notice the limit. */
  lemma {:induction false} EnoughRoom<C, S>(p: Script<C>, m: Meaning<C, S>, s: S, fuel: nat, room: nat, more: nat)
    requires Depth(p) <= room && Depth(p) <= more
    ensures Run(p, m, s, fuel, room) == Run(p, m, s, fuel, more)
    decreases fuel, p
  {
    match p
    case Empty =>
    case Command(cmd, next) =>
      if m.exec(cmd, s).GoesOn? {
        EnoughRoom(next, m, m.exec(cmd, s).s, fuel, room, more);
      }
    case Block(isWhile, test, body, next) =>
      var t := m.eval(test, s);
      if t.Some? {
        if !t.value.1 {
          EnoughRoom(next, m, t.value.0, fuel, room, more);
        } else if fuel > 0 {
          EnoughRoom(body, m, t.value.0, fuel - 1, room - 1, more - 1);
          var r := Run(body, m, t.value.0, fuel - 1, room - 1);
          if r.Some? && r.value.GoesOn? {
            EnoughRoom(if isWhile then p else next, m, r.value.s, fuel - 1, room, more);
          }
        }
      }
  }

  // ---------------------------------------------------------------- from lines back to blocks

  /** The script between line `i` and the `}` that closes it (or the end of the file). */
  datatype Parsed<C> = Parsed(script: Script<C>, next: nat) | Unclosed

  function Parse<C>(code: seq<Line<C>>, i: nat): (r: Parsed<C>)
    requires i <= |code|
    ensures r.Parsed? ==> i <= r.next <= |code| && (r.next < |code| ==> code[r.next].End?)
    decreases |code| - i
  {
    if i == |code| then Parsed(Empty, i)
    else match code[i]
      case End => Parsed(Empty, i)
      case Plain(cmd) =>
        (match Parse(code, i + 1)
         case Unclosed => Unclosed
         case Parsed(p, next) => Parsed(Command(cmd, p), next))
      case Open(isWhile, test) =>
        match Parse(code, i + 1)
        case Unclosed => Unclosed
        case Parsed(body, j) =>
          if j == |code| then Unclosed
          else match Parse(code, j + 1)
            case Unclosed => Unclosed
            case Parsed(p, next) => Parsed(Block(isWhile, test, body, p), next)
  }

  /** The structured script of a whole file, if its blocks are closed and no `}` is stray. */
  function Structure<C>(code: seq<Line<C>>): Option<Script<C>> {
    match Parse(code, 0)
    case Unclosed => None
    case Parsed(p, next) => if next == |code| then Some(p) else None
  }

  function Size<C>(p: Script<C>): (n: nat)
    ensures n == |Lines(p)|
  {
    match p
    case Empty => 0
    case Command(_, next) => 1 + Size(next)
    case Block(_, _, body, next) => 2 + Size(body) + Size(next)
  }

  /** Script `p` stands in the file at line `i`. */
  ghost predicate StandsAt<C>(code: seq<Line<C>>, i: nat, p: Script<C>)
    decreases p
  {
    match p
    case Empty => i <= |code|
    case Command(cmd, next) => i < |code| && code[i] == Plain(cmd) && StandsAt(code, i + 1, next)
    case Block(isWhile, test, body, next) =>
      var j := i + 1 + Size(body);
      && j < |code| && code[i] == Open(isWhile, test) && StandsAt(code, i + 1, body)
      && code[j] == End && StandsAt(code, j + 1, next)
  }

  /** The lines from `i` on are `part`. */
  ghost predicate Has<T>(s: seq<T>, i: nat, part: seq<T>) {
    i + |part| <= |s| && s[i..i + |part|] == part
  }

  lemma HasBoth<T>(s: seq<T>, i: nat, a: seq<T>, b: seq<T>)
    ensures Has(s, i, a + b) <==> Has(s, i, a) && Has(s, i + |a|, b)
  {
    if i + |a + b| <= |s| {
      var w := s[i..i + |a + b|];
      assert w[..|a|] == s[i..i + |a|] && w[|a|..] == s[i + |a|..i + |a| + |b|] && w == w[..|a|] + w[|a|..];
      assert (a + b)[..|a|] == a && (a + b)[|a|..] == b;
    }
  }

  lemma HasNothing<T>(s: seq<T>, i: nat)
    ensures Has(s, i, []) <==> i <= |s|
  {
  }

  lemma HasOne<T>(s: seq<T>, i: nat, x: T)
    ensures Has(s, i, [x]) <==> i < |s| && s[i] == x
  {
    assert i < |s| ==> s[i..i + 1] == [s[i]];
  }

  lemma {:induction false} Standing<C>(code: seq<Line<C>>, i: nat, p: Script<C>)
    ensures StandsAt(code, i, p) <==> Has(code, i, Lines(p))
    decreases p
  {
    hide Has;
    match p
    case Empty =>
      HasNothing(code, i);
    case Command(cmd, next) =>
      HasBoth(code, i, [Plain(cmd)], Lines(next));
      HasOne(code, i, Plain(cmd));
      Standing(code, i + 1, next);
    case Block(isWhile, test, body, next) =>
      var open, j: nat := [Open(isWhile, test)], i + 1 + Size(body);
      HasBoth(code, i, open + Lines(body) + [End], Lines(next));
      HasBoth(code, i, open + Lines(body), [End]);
      HasBoth(code, i, open, Lines(body));
      HasOne(code, i, Open(isWhile, test));
      HasOne(code, j, End);
      Standing(code, i + 1, body);
      Standing(code, j + 1, next);
  }

  lemma {:induction false} ParsedStandsAt<C>(code: seq<Line<C>>, i: nat)
    requires i <= |code|
    ensures match Parse(code, i) case Unclosed => true case Parsed(p, next) => StandsAt(code, i, p) && next == i + Size(p)
    decreases |code| - i
  {
    hide Lines;
    if i < |code| && !code[i].End? {
      ParsedStandsAt(code, i + 1);
      if code[i].Open? && Parse(code, i).Parsed? {
        ParsedStandsAt(code, Parse(code, i + 1).next + 1);
      }
    }
  }

  /** Parsing undoes writing down: nothing else has the same lines. */
  lemma {:induction false} ParseLines<C>(code: seq<Line<C>>, i: nat, p: Script<C>)
    requires i <= |code| && StandsAt(code, i, p)
    requires i + Size(p) < |code| ==> code[i + Size(p)].End?
    ensures Parse(code, i) == Parsed(p, i + Size(p))
    decreases p
  {
    hide Lines;
    match p
    case Empty =>
    case Command(_, next) =>
      assert i + Size(p) == i + 1 + Size(next);
      hide Size, StandsAt;
      ParseLines(code, i + 1, next);
    case Block(isWhile, test, body, next) =>
      var j: nat := i + 1 + Size(body);
      assert i + Size(p) == j + 1 + Size(next);
      hide Size, Parse;
      ParseLines(code, i + 1, body);
      ParseLines(code, j + 1, next);
      ParseBlock(code, i, j, isWhile, test, body, next, j + 1 + Size(next));
  }

  lemma {:induction false} ParseBlock<C>(code: seq<Line<C>>, i: nat, j: nat, isWhile: bool, test: C, body: Script<C>, next: Script<C>, end: nat)
    requires i < j < |code| && code[i] == Open(isWhile, test)
    requires Parse(code, i + 1) == Parsed(body, j) && Parse(code, j + 1) == Parsed(next, end)
    ensures Parse(code, i) == Parsed(Block(isWhile, test, body, next), end)
  {
  }

  lemma StructureMeans<C>(code: seq<Line<C>>, p: Script<C>)
    ensures Structure(code) == Some(p) <==> code == Lines(p)
  {
    Standing(code, 0, p);
    ParsedStandsAt(code, 0);
    if code == Lines(p) {
      ParseLines(code, 0, p);
    }
    assert code[0..|code|] == code;
  }
}
