/** Small end-to-end runs of the semantics: the behaviour a user of the interpreter
    sees for a handful of fixed programs. */
module Scenarios {
  import opened Int32
  import opened Brackets
  import opened Semantics
  import opened FudgeRunner

  /** A fresh interpreter holding `program`. */
  function Loaded(program: string): (m: Machine)
    ensures TapeOk(m) && Synced(m)
  {
    assert program[..0] == [];
    INITIAL.(instructions := program)
  }

  lemma ValidatorExamples()
    ensures Check("[") == UnmatchedOpen
    ensures Check("]") == UnmatchedClose(0)
    ensures Check("]+[") == UnmatchedClose(0)
    ensures Check("+[-]") == Matched
  {
    assert "["[..1] == "[";
    assert DipsAt("]", 0) by {
      assert "]"[..1] == "]";
    }
    FirstDipIs("]", 0);
    assert DipsAt("]+[", 0) by {
      assert "]+["[..1] == "]";
    }
    FirstDipIs("]+[", 0);
    LoopProgramBalanced();
  }

  /** `+[-]` is balanced: its prefix counts are 0, 0, 1, 1, 0. */
  lemma LoopProgramBalanced()
    ensures Balanced("+[-]")
  {
    var s := "+[-]";
    assert Depth("+") == 0 by { assert "+"[..0] == []; }
    assert Depth("+[") == 1 by { assert "+["[..1] == "+"; }
    assert Depth("+[-") == 1 by { assert "+[-"[..2] == "+["; }
    assert Depth(s) == 0 by { assert s[..3] == "+[-"; }
    forall k | 0 <= k <= 4
      ensures Depth(s[..k]) >= 0
    {
      if k == 0 {
        assert s[..k] == [];
      } else if k == 1 {
        assert s[..k] == "+";
      } else if k == 2 {
        assert s[..k] == "+[";
      } else if k == 3 {
        assert s[..k] == "+[-";
      } else {
        assert s[..k] == s;
      }
    }
  }

  /** The three dispatches of `++.`, each followed by the increment. */
  lemma PrintTwoTrace(input: InputPort)
    ensures var m0 := Loaded("++.");
      StepPre(m0) && Advance(Step(m0, input).1) == m0.(codePtr := 1, cells := [1]) &&
      StepPre(m0.(codePtr := 1, cells := [1])) &&
      Advance(Step(m0.(codePtr := 1, cells := [1]), input).1) == m0.(codePtr := 2, cells := [2]) &&
      StepPre(m0.(codePtr := 2, cells := [2])) &&
      Advance(Step(m0.(codePtr := 2, cells := [2]), input).1) ==
        m0.(codePtr := 3, cells := [2], output := [2])
  {
  }

  /** `++.` prints the code 2. */
  lemma PrintTwo(input: InputPort)
    ensures Run(Loaded("++."), input, false, 3) ==
      (Finished, Loaded("++.").(codePtr := 3, cells := [2], output := [2]))
  {
    var s := "++.";
    NoBracketsBalanced(s);
    PrintTwoTrace(input);
    var m0 := Loaded(s);
    ExecOneStep(m0, input, 3);
    ExecOneStep(m0.(codePtr := 1, cells := [1]), input, 2);
    ExecOneStep(m0.(codePtr := 2, cells := [2]), input, 1);
  }

  /** The first three dispatches of `+[-]`: the cell becomes 1, the loop is
      entered, and the cell drops back to 0. */
  lemma LoopOnceEnter(input: InputPort)
    ensures var m0 := Loaded("+[-]");
      StepPre(m0) && Advance(Step(m0, input).1) == m0.(codePtr := 1, cells := [1]) &&
      StepPre(m0.(codePtr := 1, cells := [1])) &&
      Advance(Step(m0.(codePtr := 1, cells := [1]), input).1) ==
        m0.(codePtr := 2, cells := [1], loopStack := [1]) &&
      StepPre(m0.(codePtr := 2, cells := [1], loopStack := [1])) &&
      Advance(Step(m0.(codePtr := 2, cells := [1], loopStack := [1]), input).1) ==
        m0.(codePtr := 3, cells := [0], loopStack := [1])
  {
  }

  /** The last two dispatches of `+[-]`: `]` returns to the `[`, which now sees a
      zero cell and skips past the `]`. */
  lemma LoopOnceLeave(input: InputPort)
    ensures var m0 := Loaded("+[-]");
      StepPre(m0.(codePtr := 3, cells := [0], loopStack := [1])) &&
      Advance(Step(m0.(codePtr := 3, cells := [0], loopStack := [1]), input).1) ==
        m0.(codePtr := 1, cells := [0]) &&
      StepPre(m0.(codePtr := 1, cells := [0])) &&
      Advance(Step(m0.(codePtr := 1, cells := [0]), input).1) ==
        m0.(codePtr := 4, cells := [0])
  {
    var t := "+[-]"[2..];
    assert t == "-]";
    assert t[..1] == "-" && t[..2] == t;
    assert DipsAt(t, 1);
    FirstDipIs(t, 1);
  }

  /** `+[-]` runs its loop body once: five dispatches, ending past the program with
      the cell back at 0 and the loop stack empty. */
  lemma LoopOnce(input: InputPort)
    ensures Run(Loaded("+[-]"), input, false, 5) ==
      (Finished, Loaded("+[-]").(codePtr := 4, cells := [0]))
  {
    var m0 := Loaded("+[-]");
    LoopProgramBalanced();
    LoopOnceEnter(input);
    LoopOnceLeave(input);
    ExecOneStep(m0, input, 5);
    ExecOneStep(m0.(codePtr := 1, cells := [1]), input, 4);
    ExecOneStep(m0.(codePtr := 2, cells := [1], loopStack := [1]), input, 3);
    ExecOneStep(m0.(codePtr := 3, cells := [0], loopStack := [1]), input, 2);
    ExecOneStep(m0.(codePtr := 1, cells := [0]), input, 1);
  }

  /** Resume mode, first run: `+` on a fresh tape leaves the cell at 1 and the code
      pointer at the end of the program. */
  lemma ResumeFirstRun(input: InputPort)
    ensures Run(Loaded("+"), input, false, 1) ==
      (Finished, Loaded("+").(codePtr := 1, cells := [1]))
  {
    NoBracketsBalanced("+");
    var m0 := Loaded("+");
    assert Advance(Step(m0, input).1) == m0.(codePtr := 1, cells := [1]);
    ExecOneStep(m0, input, 1);
  }

  /** Resume mode keeps the tape: after a second `+` is appended, resuming
      dispatches only the new instruction and the cell ends at 2. */
  lemma ResumeKeepsTape(input: InputPort)
    ensures Run(Loaded("++").(codePtr := 1, cells := [1]), input, false, 1) ==
      (Finished, Loaded("++").(codePtr := 2, cells := [2]))
  {
    NoBracketsBalanced("++");
    var n1 := Loaded("++").(codePtr := 1, cells := [1]);
    assert "++"[..1] == "+";
    assert Synced(n1);
    assert Advance(Step(n1, input).1) == n1.(codePtr := 2, cells := [2]);
    ExecOneStep(n1, input, 1);
  }

  /** The program after the second `addInstructions("+")`, stated on its own so
      that the session's proof does not have to rebuild the sequence. */
  lemma AppendPlus()
    ensures "+" + "+" == "++"
  {
  }

  /** The same session driven through the interpreter object: a fresh interpreter,
      `addInstructions("+")`, `runBF(false)`, `addInstructions("+")`, `runBF(false)`. */
  method ResumeSession(input: InputPort) returns (cells: seq<int32>, output: seq<Code>)
    ensures cells == [2] && output == []
  {
    var interpreter := new Interpreter(input);
    interpreter.AddInstructions("+");
    assert interpreter.State() == Loaded("+");
    ResumeFirstRun(input);
    var outcome := interpreter.RunBF(false, 1);
    assert interpreter.State() == Loaded("+").(codePtr := 1, cells := [1]);
    interpreter.AddInstructions("+");
    AppendPlus();
    assert interpreter.instructions == "++";
    assert interpreter.cellPtr == 0 && interpreter.codePtr == 1 && interpreter.cells == [1];
    assert interpreter.leftLoopCells == [] && interpreter.consumed == 0 && interpreter.output == [];
    assert interpreter.State() == Loaded("++").(codePtr := 1, cells := [1]);
    ResumeKeepsTape(input);
    outcome := interpreter.RunBF(false, 1);
    assert interpreter.State() == Loaded("++").(codePtr := 2, cells := [2]);
    cells, output := interpreter.cells, interpreter.output;
  }

  /** `runBF(false)` on `+`, then `setInstructions("]")` and `runBF(false)` again:
      the stale code pointer does not fit the new program, but the validator
      rejects `]` before anything runs, and the interpreter is reset. */
  lemma ResumeUnbalancedRejects(input: InputPort)
    ensures var m := Loaded("+").(codePtr := 1, cells := [1]).(instructions := "]");
      !Synced(m) && Run(m, input, false, 1) == (Rejected(UnmatchedClose(0)), INITIAL)
  {
  }

  /** `<` at cell 0 aborts at instruction 0 and wipes the interpreter. */
  lemma UnderflowResets(input: InputPort)
    ensures Run(Loaded("<"), input, false, 1) == (Aborted(0), INITIAL)
  {
    NoBracketsBalanced("<");
  }

  /** `,.` echoes the first input code. */
  lemma EchoInput(input: InputPort)
    ensures Run(Loaded(",."), input, false, 2).1.output == [input(0)]
  {
    NoBracketsBalanced(",.");
    CharOfCode(input(0));
  }
}
