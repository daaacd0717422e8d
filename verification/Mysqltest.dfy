/** The main loop of client/mysqltest.c with its block stack and its cache of lines. */
module Mysqltest {
  import opened Prelude
  import opened BlockScript
  import opened BlockMachine
  import opened BlockTheorem

  /** `Aborted` is abort_flag; `Dead` is what die() leaves behind. */
  datatype Status = Running | AtEnd | Aborted | Dead

  class Interpreter<C, S> {
    const meaning: Meaning<C, S>
    const input: seq<Line<C>>
    var qLines: seq<Line<C>>
    var currentLine: nat
    const blockStack: array<StBlock>
    var curBlock: nat
    var state: S
    var status: Status

    /** The lines of enclosing blocks are in the cache. */
    ghost predicate Valid()
      reads this, blockStack
    {
      && blockStack.Length == DEPTH && curBlock < DEPTH
      && |qLines| <= |input| && qLines == input[..|qLines|] && currentLine <= |qLines|
      && forall k | 0 <= k < curBlock :: blockStack[k].line <= |qLines|
    }

    ghost function View(): Machine<S>
      reads this, blockStack
    {
      match status
      case Running => At(currentLine, blockStack[..], curBlock, state)
      case AtEnd => Finished(state)
      case Aborted => Exited(state)
      case Dead => Died
    }

    constructor (meaning: Meaning<C, S>, input: seq<Line<C>>, state: S)
      ensures Valid() && View() == Start(state) && this.meaning == meaning && this.input == input && fresh(blockStack)
    {
      this.meaning, this.input, this.state := meaning, input, state;
      qLines, currentLine, curBlock, status := [], 0, 0, Running;
      blockStack := new StBlock[DEPTH](k => StBlock(0, k == 0, CmdNone));
      new;
      assert blockStack[..] == seq(DEPTH, k => StBlock(0, k == 0, CmdNone));
    }

    /** read_query: a cached line, or the next one of the file; None at the end of the file,
        which comes too early inside a block. */
    method ReadQuery() returns (q: Option<Line<C>>)
      requires Valid() && status == Running
      modifies this`qLines, this`status
      ensures Valid()
      ensures q.Some? ==> status == Running && currentLine < |qLines| && q == Some(input[currentLine])
      ensures q.None? ==> currentLine == |input| && status == if curBlock == 0 then AtEnd else Dead
    {
      if currentLine < |qLines| {
        return Some(qLines[currentLine]);
      }
      if |qLines| == |input| {
        status := if curBlock != 0 then Dead else AtEnd;
        return None;
      }
      var line := input[|qLines|];
      qLines := qLines + [line];
      return Some(line);
    }

    method OpenBlock(isWhile: bool, test: C)
      requires Valid() && status == Running && currentLine < |qLines|
      modifies this`currentLine, this`curBlock, this`state, this`status, blockStack
      ensures Valid()
      ensures View() == DoBlock(old(View()), meaning, isWhile, test)
    {
      if curBlock == blockStack.Length - 1 {
        status := Dead;
        return;
      }
      blockStack[curBlock] := blockStack[curBlock].(line := currentLine);
      currentLine := currentLine + 1;
      var cmd := if isWhile then CmdWhile else CmdIf;
      if !blockStack[curBlock].ok {
        curBlock := curBlock + 1;
        blockStack[curBlock] := blockStack[curBlock].(cmd := cmd, ok := false);
        return;
      }
      var v := meaning.eval(test, state);
      if v.None? {
        status := Dead;
        return;
      }
      state := v.value.0;
      curBlock := curBlock + 1;
      blockStack[curBlock] := blockStack[curBlock].(cmd := cmd, ok := v.value.1);
    }

    method CloseBlock()
      requires Valid() && status == Running && currentLine < |qLines|
      modifies this`currentLine, this`curBlock, this`status
      ensures Valid()
      ensures View() == DoDone(old(View()))
    {
      if curBlock == 0 {
        status := Dead;
        return;
      }
      if blockStack[curBlock].ok && blockStack[curBlock].cmd == CmdWhile {
        curBlock := curBlock - 1;
        currentLine := blockStack[curBlock].line;
      } else {
        curBlock := curBlock - 1;
        currentLine := currentLine + 1;
      }
    }

    /** One round of the main loop. */
    method Round()
      requires Valid() && status == Running
      modifies this, blockStack
      ensures Valid()
      ensures View() == Step(input, meaning, old(View()))
    {
      var q := ReadQuery();
      if q.None? {
        return;
      }
      match q.value {
        case Plain(cmd) =>
          if blockStack[curBlock].ok {
            var effect := meaning.exec(cmd, state);
            match effect {
              case GoesOn(s) => state := s;
              case Exits(s) =>
                state := s;
                status := Aborted;
              case Dies => status := Dead;
            }
          }
          currentLine := currentLine + 1;
        case Open(isWhile, test) => OpenBlock(isWhile, test);
        case End => CloseBlock();
      }
    }

    /** The main loop, watched for a number of rounds: each is a step of the machine. */
    method Rounds(rounds: nat)
      requires Valid()
      modifies this, blockStack
      ensures Valid()
      ensures View() == Steps(input, meaning, old(View()), rounds)
    {
      var left: nat := rounds;
      while left > 0 && status == Running
        invariant Valid() && left <= rounds
        invariant Steps(input, meaning, View(), left) == Steps(input, meaning, old(View()), rounds)
      {
        Round();
        left := left - 1;
      }
      if status != Running {
        EndIsEnd(input, meaning, View(), left);
      }
    }

    /** The main loop, when the machine comes to an end. */
    method MainLoop(ghost end: Machine<S>)
      requires Valid() && Leads(input, meaning, View(), end) && !end.At?
      modifies this, blockStack
      ensures Valid() && View() == end
    {
      ghost var left: nat :| Steps(input, meaning, View(), left) == end;
      while status == Running
        invariant Valid() && Steps(input, meaning, View(), left) == end
        decreases left
      {
        Round();
        left := left - 1;
      }
      EndIsEnd(input, meaning, View(), left);
    }
  }

  /** The whole program on a script whose nested blocks come to the effect `e`. */
  method Mysqltest<C, S>(meaning: Meaning<C, S>, input: seq<Line<C>>, state: S, ghost p: Script<C>, ghost fuel: nat, ghost e: Effect<S>)
    returns (t: Interpreter<C, S>)
    requires input == Lines(p) && Means(p, meaning, state, fuel, e)
    ensures t.View() == Ending(e)
  {
    t := new Interpreter(meaning, input, state);
    MachineFollows(input, meaning, state, p, fuel);
    t.MainLoop(Ending(e));
  }
}
