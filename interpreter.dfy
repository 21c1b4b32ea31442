/** The interpreter object: its fields are updated in place by `reset`,
    `setInstructions`, `addInstructions`, `processNextInstruction` and `runBF`, each
    proved against the value-level semantics of module Semantics. */
module FudgeRunner {
  import opened Int32
  import opened Brackets
  import opened Semantics

  /** Copy the characters of a string one by one into a fresh list. */
  method StrToArrayList(strIn: string) returns (chars: seq<char>)
    ensures chars == strIn
  {
    chars := [];
    for i := 0 to |strIn|
      invariant chars == strIn[..i]
    {
      chars := chars + [strIn[i]];
    }
  }

  class Interpreter {
    /** Where `,` reads from; the k-th read receives `inputPort(k)`. */
    const inputPort: InputPort
    /** How many codes `,` has read so far. */
    var consumed: nat
    /** Everything `.` has printed so far. */
    var output: seq<Code>

    var cellPtr: int
    var codePtr: int
    var instructions: seq<char>
    var cells: seq<int32>
    /** The loop-return stack, its top at the end. */
    var leftLoopCells: seq<int>

    /** The fields as a value of the semantics. */
    ghost function State(): Machine
      reads this
    {
      Machine(cellPtr, codePtr, instructions, cells, leftLoopCells, consumed, output)
    }

    constructor (inputPort: InputPort)
      ensures this.inputPort == inputPort
      ensures State() == Cleared(INITIAL)
    {
      this.inputPort := inputPort;
      consumed, output := 0, [];
      new;
      Reset();
    }

    /** Replace the program; nothing else changes. */
    method SetInstructions(instructions: string)
      modifies this`instructions
      ensures this.instructions == instructions
    {
      this.instructions := StrToArrayList(instructions);
    }

    /** Append source to the program; nothing else changes, so a later resumed run
        continues with the tape and the loop stack as they are. */
    method AddInstructions(instructionsIn: string)
      modifies this`instructions
      ensures instructions == old(instructions) + instructionsIn
      ensures old(Synced(State())) ==> Synced(State())
    {
      var splitInstructions := StrToArrayList(instructionsIn);
      for i := 0 to |splitInstructions|
        invariant instructions == old(instructions) + splitInstructions[..i]
      {
        instructions := instructions + [splitInstructions[i]];
      }
      assert splitInstructions[..|splitInstructions|] == splitInstructions;
      if Synced(old(State())) {
        AppendKeepsSynced(old(State()), instructionsIn);
      }
    }

    /** Clear pointers, tape, loop stack and program. */
    method Reset()
      modifies this`cellPtr, this`codePtr, this`cells, this`leftLoopCells, this`instructions
      ensures cellPtr == 0 && codePtr == 0 && cells == [0]
      ensures leftLoopCells == [] && instructions == []
      ensures State() == Cleared(old(State()))
    {
      cellPtr := 0;
      codePtr := 0;
      cells := [0];
      leftLoopCells := [];
      instructions := [];
    }

    /** Dispatch the symbol at `codePtr`. It does not advance `codePtr`; `runBF`
        does. Returns false only for `<` when `cellPtr` is 0 or below, leaving it
        negative. */
    method ProcessNextInstruction() returns (ok: bool)
      requires StepPre(State())
      modifies this
      ensures (ok, State()) == Step(old(State()), inputPort)
    {
      ghost var m := State();
      var instruction := instructions[codePtr];

      if !IsCommand(instruction) {
        assert Step(m, inputPort) == (true, State());
        return true;
      }

      // With `cellPtr < |cells|`, padding the tape adds nothing.
      ghost var tape := cells;
      PadTape();
      assert cells == cells[..|tape|] == tape;
      assert State() == m;

      if instruction == '+' {
        cells := cells[cellPtr := Inc(cells[cellPtr])];
        assert Step(m, inputPort) == (true, State());
        return true;
      }
      if instruction == '-' {
        cells := cells[cellPtr := Dec(cells[cellPtr])];
        assert Step(m, inputPort) == (true, State());
        return true;
      }

      if instruction == '>' {
        cellPtr := cellPtr + 1;
        if cellPtr >= |cells| {
          cells := cells + [0];
        }
        assert Step(m, inputPort) == (true, State());
        return true;
      }
      if instruction == '<' {
        cellPtr := cellPtr - 1;
        if cellPtr < 0 {
          assert Step(m, inputPort) == (false, State());
          return false;
        }
        assert Step(m, inputPort) == (true, State());
        return true;
      }

      if instruction == '.' {
        var cellInt := cells[cellPtr];
        output := output + [CharOf(cellInt)];
        assert Step(m, inputPort) == (true, State());
        return true;
      }
      if instruction == ',' {
        cells := cells[cellPtr := inputPort(consumed) as int32];
        consumed := consumed + 1;
        assert Step(m, inputPort) == (true, State());
        return true;
      }

      if instruction == '[' {
        if cells[cellPtr] != 0 {
          leftLoopCells := leftLoopCells + [codePtr];
          assert Step(m, inputPort) == (true, State());
        } else {
          SkipToMatchingClose();
          assert State() == m.(codePtr := codePtr);
          assert Step(m, inputPort) == (true, State());
        }
        return true;
      }

      // Only `]` is left among the eight symbols.
      assert instruction == ']';
      codePtr := leftLoopCells[|leftLoopCells| - 1] - 1;
      leftLoopCells := leftLoopCells[..|leftLoopCells| - 1];
      assert Step(m, inputPort) == (true, State());
      return true;
    }

    /** The guard against index errors before a dispatch: append zero cells while
        the tape is shorter than `cellPtr`. */
    method PadTape()
      modifies this`cells
      ensures |cells| == if cellPtr > |old(cells)| then cellPtr else |old(cells)|
      ensures cells[..|old(cells)|] == old(cells)
      ensures forall k :: |old(cells)| <= k < |cells| ==> cells[k] == 0
    {
      while |cells| < cellPtr
        invariant |old(cells)| <= |cells| <= if cellPtr > |old(cells)| then cellPtr else |old(cells)|
        invariant cells[..|old(cells)|] == old(cells)
        invariant forall k :: |old(cells)| <= k < |cells| ==> cells[k] == 0
        decreases cellPtr - |cells|
      {
        cells := cells + [0];
      }
    }

    /** The walk of `[` on a zero cell: move `codePtr` forward to the matching `]`.
        bracketCount is the opens minus closes seen since the `[`, and the match is
        the `]` met while it is 0. */
    method SkipToMatchingClose()
      requires 0 <= codePtr < |instructions| && instructions[codePtr] == '['
      requires FirstDip(instructions[codePtr + 1..]).Some?
      modifies this`codePtr
      ensures codePtr == old(codePtr) + 1 + FirstDip(instructions[old(codePtr) + 1..]).value
      ensures instructions[codePtr] == ']'
    {
      ghost var start := codePtr;
      ghost var after := instructions[start + 1..];
      ghost var d := FirstDip(after).value;
      var bracketCount := 0;
      while true
        invariant start <= codePtr <= start + d
        invariant bracketCount == Depth(after[..codePtr - start])
        decreases start + d - codePtr
      {
        WalkStep(after, d, codePtr - start, bracketCount);
        codePtr := codePtr + 1;
        if instructions[codePtr] == '[' {
          bracketCount := bracketCount + 1;
        } else if instructions[codePtr] == ']' {
          if bracketCount == 0 {
            break;
          }
          bracketCount := bracketCount - 1;
        }
      }
      DipIsClose(after, d);
    }

    /** Validate the whole program, reset if `doReset` (or if validation failed),
        then dispatch from `codePtr` until it runs past the program, an instruction
        fails (the interpreter is then reset), or `fuel` dispatches have been made. */
    method RunBF(doReset: bool, fuel: nat) returns (outcome: Outcome)
      requires doReset || !Balanced(instructions) || (TapeOk(State()) && Synced(State()))
      modifies this
      ensures (outcome, State()) == Run(old(State()), inputPort, doReset, fuel)
    {
      var check := BracketsAreMatched(instructions);
      if !check.Matched? {
        Reset();
        return Rejected(check);
      }

      if doReset {
        Reset();
      }

      outcome := DispatchLoop(fuel);
    }

    /** The `while (codePtr < instructions.size())` loop of `runBF`: dispatch, then
        advance `codePtr`; on a failed dispatch reset and stop. */
    method DispatchLoop(fuel: nat) returns (outcome: Outcome)
      requires TapeOk(State()) && Synced(State()) && Balanced(instructions)
      modifies this
      ensures (outcome, State()) == Exec(old(State()), inputPort, fuel)
    {
      ghost var target := Exec(State(), inputPort, fuel);
      var steps: nat := 0;
      while codePtr < |instructions|
        invariant steps <= fuel
        invariant TapeOk(State()) && Synced(State()) && Balanced(instructions)
        invariant Exec(State(), inputPort, fuel - steps) == target
        decreases fuel - steps
      {
        if steps == fuel {
          return OutOfFuel;
        }
        ghost var before := State();
        ExecOneStep(before, inputPort, fuel - steps);
        var at := codePtr;
        var ok := ProcessNextInstruction();
        if !ok {
          Reset();
          return Aborted(at);
        }
        codePtr := codePtr + 1;
        ghost var after := State();
        assert after == Advance(Step(before, inputPort).1);
        // Spelled out from `ExecOneStep`: stating them here keeps the solver's
        // search for the loop invariant short.
        assert TapeOk(after) && Synced(after) && Balanced(instructions);
        assert Exec(after, inputPort, fuel - steps - 1) == Exec(before, inputPort, fuel - steps);
        steps := steps + 1;
        assert Exec(State(), inputPort, fuel - steps) == target;
      }
      assert instructions[..codePtr] == instructions;
      return Finished;
    }

    /** The `runBF()` overload: always resets first, so nothing is dispatched and
        no fuel is needed. */
    method RunDefault() returns (outcome: Outcome)
      modifies this
      ensures State() == Cleared(old(State()))
      ensures outcome == if Balanced(old(instructions)) then Finished else Rejected(Check(old(instructions)))
    {
      outcome := RunBF(true, 0);
    }
  }
}
