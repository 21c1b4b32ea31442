# FudgeRunner interpreter, modelled in Dafny

FudgeRunner runs Brainfuck-style ("Brainfudge") programs. Its `Interpreter` class
holds a program as a list of characters. It also holds a growable tape of Java `int`
cells, a cell pointer, a code pointer and a stack of loop-return positions. The eight
symbols `+ - > < . , [ ]` are instructions, and every other character is a comment.
`runBF` first checks that the brackets of the program balance. It then optionally
resets and dispatches instructions one at a time until the code pointer runs past the
end of the program. A `<` that moves off the left end of the tape aborts the run and
resets the interpreter.

The project is organised in five modules:

- `Int32` (`int32.dfy`) covers Java `int` arithmetic with 32-bit wrap-around and the
  `(char)` conversion that `.` applies before printing.
- `Brackets` (`brackets.dfy`) defines the running bracket count (`Depth`) and
  "balanced". It also defines the first point where the count dips below zero
  (`FirstDip`). Two parts of the interpreter use that point:
  - the validator reports an unmatched `]` there;
  - the skip performed by `[` on a zero cell stops at it, on the matching `]`.

  This module also holds the validator `BracketsAreMatched`, proved equal to its
  specification `Check`.
- `Semantics` (`semantics.dfy`) represents the interpreter state as a value
  (`Machine`). It defines one dispatch (`Step`), the run loop (`Exec`) and a whole
  `runBF` call (`Run`). Three invariants are proved about them:
  - the tape bound (`TapeOk`);
  - the loop-stack bookkeeping (`Synced`): the stack holds, in increasing order, one
    `[` position before the code pointer per level of nesting there;
  - every `[` on the stack is still open at the code pointer (`StackOpen`): no `]`
    passed since has closed it. With it, the `[` that a `]` pops and jumps back to
    is the very `[` that this `]` closes (`CloseReturnsToMatch`).
- `FudgeRunner` (`interpreter.dfy`) is the `Interpreter` class. Its fields are
  updated in place, and each method is proved against the functions of `Semantics`.
- `Scenarios` (`scenarios.dfy`) works through concrete programs: validator verdicts,
  printing, echoing input, one pass through a loop, resuming a session after
  `addInstructions`, and the underflow abort.

Input and output are explicit:

- `,` reads from an input port. The port is a function from the read count to a UTF-16
  code unit (0..65535), and the interpreter keeps the count of codes consumed so far.
- `.` appends to an output sequence of code units.

The model follows the code on these points:

- `processNextInstruction` does not advance the code pointer, although its Javadoc
  says it does; `runBF` does.
- `runBF` validates before it resets.
- `reset()` also empties the program, though its Javadoc presents it as preparing
  for execution. As a result, `runBF(true)`, the mode the command-line front end
  always uses, never dispatches an instruction. This is proved as
  `DefaultRunExecutesNothing`.
- A program run a second time after a reset leaves the tape at `[0]`, because the
  program itself has been cleared.

## Model

| member | source | states |
|---|---|---|
| Int32.Inc | src/com/trevinj/fudgerunner/Interpreter.java:132-135 | `+` adds one modulo 2^32: exactly one more below `MAX`, and `MAX` wraps to `MIN` |
| Int32.Dec | src/com/trevinj/fudgerunner/Interpreter.java:136-139 | `-` subtracts one modulo 2^32: exactly one less above `MIN`, and `MIN` wraps to `MAX` |
| Int32.IncDecInverse | src/com/trevinj/fudgerunner/Interpreter.java:132-139 | `+` and `-` undo each other on every cell value, wrap-around included |
| Int32.CharOf | src/com/trevinj/fudgerunner/Interpreter.java:163-165 | the printed code is the cell value reduced modulo 2^16 (the low 16 bits), in 0..65535 |
| Int32.CharOfCode | src/com/trevinj/fudgerunner/Interpreter.java:170 | a code stored by `,` is printed back unchanged by `.` |
| Brackets.FirstDip | src/com/trevinj/fudgerunner/Interpreter.java:243 | the result is the position where the count first goes negative, and there is none exactly when no prefix closes more than it opens |
| Brackets.Check | src/com/trevinj/fudgerunner/Interpreter.java:234-254 | matched if and only if every prefix count is non-negative and the total is zero; otherwise the first `]` that makes the count negative, or an unclosed `[` |
| Brackets.BracketsAreMatched | src/com/trevinj/fudgerunner/Interpreter.java:234-254 | the one-pass counting loop returns exactly the verdict of `Check` |
| Brackets.DepthConcat | src/com/trevinj/fudgerunner/Interpreter.java:237-247 | the count over a concatenation is the sum of the counts |
| Brackets.NoBracketsBalanced | src/com/trevinj/fudgerunner/Interpreter.java:237-247 | text with no brackets has count 0 on every prefix and is balanced |
| Brackets.FirstDipIs | src/com/trevinj/fudgerunner/Interpreter.java:243-246 | any position where the count first goes negative is the one the scan reports |
| Brackets.DipIsClose | src/com/trevinj/fudgerunner/Interpreter.java:188-190 | the count can first go negative only on a `]` that takes it from 0 to -1 |
| Brackets.MatchExists | src/com/trevinj/fudgerunner/Interpreter.java:180-194 | in a balanced program every `[` has a matching `]` after it, so the skip loop cannot run off the end |
| Brackets.SkipDepth | src/com/trevinj/fudgerunner/Interpreter.java:180-194 | the matching `]` lies inside the program, and the count just after it equals the count just before the `[` |
| Brackets.SkipInside | src/com/trevinj/fudgerunner/Interpreter.java:184-194 | strictly inside a skipped loop the count stays above its value before the `[` |
| Brackets.MatchOfOpen | src/com/trevinj/fudgerunner/Interpreter.java:198-203 | a `[` whose count stays above its level up to a `]` that brings it back is matched by that `]`: the skip from that `[` stops there |
| Brackets.WalkStep | src/com/trevinj/fudgerunner/Interpreter.java:183-193 | during the skip the count stays non-negative and reaches -1 exactly at the matching `]` |
| Semantics.IsCommand | src/com/trevinj/fudgerunner/Interpreter.java:116-121 | the allowed-instruction test: one of the eight symbols, everything else a comment (related to the Java string by `IsCommandAllowed`) |
| Semantics.IsCommandAllowed | src/com/trevinj/fudgerunner/Interpreter.java:116-121 | a symbol is an instruction if and only if it occurs in `"[]<>,.+-"` |
| Semantics.Cleared | src/com/trevinj/fudgerunner/Interpreter.java:100-107 | the reset state satisfies the tape bound, the loop-stack bookkeeping and balance, and keeps input and output |
| Semantics.ClearedIdempotent | src/com/trevinj/fudgerunner/Interpreter.java:100-107 | resetting twice is the same as resetting once |
| Semantics.Advance | src/com/trevinj/fudgerunner/Interpreter.java:84 | the `codePtr++` after a successful dispatch: only the code pointer changes, by one (its effect is stated by `StepOpenFields`, `StepCloseFields` and `StepPlainFields`) |
| Semantics.Step | src/com/trevinj/fudgerunner/Interpreter.java:114-208 | a dispatch fails if and only if the instruction is `<` with the cell pointer at 0 or below; it never changes the program; output and input consumed only grow (the effect of each instruction is stated by the lemmas below) |
| Semantics.InertSymbol | src/com/trevinj/fudgerunner/Interpreter.java:119-121 | a comment character succeeds and changes nothing |
| Semantics.ArithmeticTouchesOneCell | src/com/trevinj/fudgerunner/Interpreter.java:131-139 | `+`/`-` change only the current cell, by +1/-1 modulo 2^32, and no other field |
| Semantics.MoveRight | src/com/trevinj/fudgerunner/Interpreter.java:142-148 | `>` always succeeds, moves the cell pointer right by one, keeps every existing cell, adds only zero cells and leaves the pointer on the tape; nothing else changes |
| Semantics.MoveLeft | src/com/trevinj/fudgerunner/Interpreter.java:149-156 | `<` moves the cell pointer left by one and changes nothing else; it succeeds if and only if the new pointer is not negative |
| Semantics.PrintAppendsCell | src/com/trevinj/fudgerunner/Interpreter.java:159-167 | `.` appends exactly one code, congruent to the current cell modulo 2^16, to the output; nothing else changes |
| Semantics.ReadStoresInput | src/com/trevinj/fudgerunner/Interpreter.java:168-172 | `,` sets the current cell to the next input code, keeps every other cell and the tape length, and counts one more code consumed; nothing else changes |
| Semantics.TapeGrowth | src/com/trevinj/fudgerunner/Interpreter.java:141-148 | the tape never shrinks, and it grows only on `>`, by one zero cell |
| Semantics.StepKeepsPointerBound | src/com/trevinj/fudgerunner/Interpreter.java:142-156 | the cell pointer never runs past the end of the tape, whether the dispatch succeeds or not |
| Semantics.StepKeepsTape | src/com/trevinj/fudgerunner/Interpreter.java:142-156 | after a successful dispatch the cell pointer still addresses a cell |
| Semantics.SyncedSteppable | src/com/trevinj/fudgerunner/Interpreter.java:175-203 | in a balanced program with consistent bookkeeping, `]` always finds a non-empty stack and `[` on a zero cell always finds its match |
| Semantics.StepOpenFields | src/com/trevinj/fudgerunner/Interpreter.java:175-197 | `[` on a nonzero cell pushes its own position; on a zero cell the code pointer ends just after the matching `]`; the tape, the cell pointer, input consumed and output are unchanged |
| Semantics.StepCloseFields | src/com/trevinj/fudgerunner/Interpreter.java:198-203 | `]` pops the top entry and, after the increment, the code pointer is back on that `[`; the tape, the cell pointer, input consumed and output are unchanged |
| Semantics.CloseReturnsToMatch | src/com/trevinj/fudgerunner/Interpreter.java:198-203 | after `]` and the increment the code pointer is on the `[` this `]` closes: the scan from just after that `[` dips exactly at this `]` |
| Semantics.PopIsMatch | src/com/trevinj/fudgerunner/Interpreter.java:198-203 | the top of a consistent, open stack is the `[` matched by the `]` at the code pointer |
| Semantics.StepPlainFields | src/com/trevinj/fudgerunner/Interpreter.java:131-172 | the six other instructions and comments leave the loop stack alone and move on by one |
| Semantics.SyncedPush | src/com/trevinj/fudgerunner/Interpreter.java:176-177 | pushing the position of a `[` keeps the stack increasing, made of `[` positions, and one entry per open bracket |
| Semantics.SyncedSkip | src/com/trevinj/fudgerunner/Interpreter.java:179-194 | skipping to just after the matching `]` keeps the bookkeeping with the stack unchanged |
| Semantics.SyncedPop | src/com/trevinj/fudgerunner/Interpreter.java:198-203 | returning to the popped `[` keeps the bookkeeping |
| Semantics.SyncedPlain | src/com/trevinj/fudgerunner/Interpreter.java:131-172 | moving past a non-bracket keeps the bookkeeping |
| Semantics.SkipKeepsSynced | src/com/trevinj/fudgerunner/Interpreter.java:179-194 | the bookkeeping survives a skipped loop |
| Semantics.PushKeepsSynced | src/com/trevinj/fudgerunner/Interpreter.java:176-177 | the bookkeeping survives entering a loop |
| Semantics.CloseKeepsSynced | src/com/trevinj/fudgerunner/Interpreter.java:198-203 | the bookkeeping survives jumping back to a loop head |
| Semantics.PlainKeepsSynced | src/com/trevinj/fudgerunner/Interpreter.java:131-172 | the bookkeeping survives every other symbol |
| Semantics.StepKeepsSynced | src/com/trevinj/fudgerunner/Interpreter.java:79-85 | every dispatch followed by the increment keeps the loop-stack bookkeeping |
| Semantics.OpenPush | src/com/trevinj/fudgerunner/Interpreter.java:176-177 | a pushed `[` is open just after it, and the entries below stay open |
| Semantics.OpenSkip | src/com/trevinj/fudgerunner/Interpreter.java:179-194 | skipping a loop body and its `]` closes none of the stacked `[` |
| Semantics.OpenPop | src/com/trevinj/fudgerunner/Interpreter.java:198-203 | after returning to the popped `[`, the entries below it are still open there |
| Semantics.OpenPlain | src/com/trevinj/fudgerunner/Interpreter.java:131-172 | a non-bracket closes none of the stacked `[` |
| Semantics.StepKeepsOpen | src/com/trevinj/fudgerunner/Interpreter.java:79-85 | every dispatch followed by the increment keeps every stacked `[` open |
| Semantics.Exec | src/com/trevinj/fudgerunner/Interpreter.java:79-85 | the run loop: it stops past the end of the program; a failed dispatch ends it with `Aborted` at that instruction and a reset; a successful one is followed by the increment and the loop goes on (its properties are the `Exec…` lemmas below) |
| Semantics.ExecOutcomes | src/com/trevinj/fudgerunner/Interpreter.java:79-85 | the loop ends past the program with an empty stack, out of fuel, or aborted in a reset state; it never reports a bracket error; the invariants hold at the end |
| Semantics.ExecGrowth | src/com/trevinj/fudgerunner/Interpreter.java:79-85 | unless it aborts, the loop leaves the program untouched, does not shrink the tape and consumes input only forward |
| Semantics.ExecOutputGrows | src/com/trevinj/fudgerunner/Interpreter.java:79-85 | unless it aborts, everything printed before is a prefix of what is printed after |
| Semantics.ExecKeepsOpen | src/com/trevinj/fudgerunner/Interpreter.java:79-85 | at the end of the loop every stacked `[` is still open |
| Semantics.ExecAbortEmptiesStack | src/com/trevinj/fudgerunner/Interpreter.java:79-85 | when the loop aborts, the loop stack is empty, because the abort resets the interpreter |
| Semantics.ExecUnfold | src/com/trevinj/fudgerunner/Interpreter.java:79-85 | a turn of the loop that does not abort continues from a state satisfying the invariants, open stack included, with the same program and only grown tape and output |
| Semantics.ExecOneStep | src/com/trevinj/fudgerunner/Interpreter.java:79-85 | one turn of the loop: a failed dispatch ends it with a reset, and a successful one continues from the advanced state |
| Semantics.Run | src/com/trevinj/fudgerunner/Interpreter.java:67-87 | an unbalanced program resets and runs nothing, whatever state a resumed run starts from; with `doReset` the result is the reset state; otherwise the run ends past the program, out of fuel, or reset; a resumed run that does not abort keeps the program, does not shrink the tape, and only extends input consumed and output |
| Semantics.AppendKeepsSynced | src/com/trevinj/fudgerunner/Interpreter.java:89-94 | appending source keeps the loop-stack bookkeeping, so a resumed run after `addInstructions` is well-formed |
| Semantics.AppendKeepsOpen | src/com/trevinj/fudgerunner/Interpreter.java:89-94 | appending source leaves every stacked `[` open |
| Semantics.RunKeepsOpen | src/com/trevinj/fudgerunner/Interpreter.java:67-87 | a `runBF` call, resumed or not, ends with every stacked `[` open |
| Semantics.DefaultRunExecutesNothing | src/com/trevinj/fudgerunner/Main.java:92-94 | `runBF(true)` reports the validator's verdict and leaves exactly the reset state; nothing is printed |
| FudgeRunner.StrToArrayList | src/com/trevinj/fudgerunner/Interpreter.java:222-228 | the list holds the characters of the string, in order |
| FudgeRunner.Interpreter.constructor | src/com/trevinj/fudgerunner/Interpreter.java:45-47 | a new interpreter is in the reset state |
| FudgeRunner.Interpreter.SetInstructions | src/com/trevinj/fudgerunner/Interpreter.java:53-55 | the program becomes the string, and no other field changes |
| FudgeRunner.Interpreter.AddInstructions | src/com/trevinj/fudgerunner/Interpreter.java:89-94 | the program becomes the old program followed by the string; no other field changes; the bookkeeping is kept |
| FudgeRunner.Interpreter.Reset | src/com/trevinj/fudgerunner/Interpreter.java:100-107 | pointers 0, tape `[0]`, empty stack and program; equal to `Cleared` of the old state |
| FudgeRunner.Interpreter.ProcessNextInstruction | src/com/trevinj/fudgerunner/Interpreter.java:114-208 | the flag and the new fields are exactly `Step` of the old state |
| FudgeRunner.Interpreter.PadTape | src/com/trevinj/fudgerunner/Interpreter.java:123-126 | the tape is extended with zero cells up to `cellPtr`, and existing cells are kept |
| FudgeRunner.Interpreter.SkipToMatchingClose | src/com/trevinj/fudgerunner/Interpreter.java:180-194 | the code pointer stops on the `]` that matches the `[` by nesting, the first dip of the text after it |
| FudgeRunner.Interpreter.RunBF | src/com/trevinj/fudgerunner/Interpreter.java:67-87 | the outcome and the new fields are exactly `Run` of the old state |
| FudgeRunner.Interpreter.DispatchLoop | src/com/trevinj/fudgerunner/Interpreter.java:79-85 | the outcome and the new fields are exactly `Exec` of the old state |
| FudgeRunner.Interpreter.RunDefault | src/com/trevinj/fudgerunner/Interpreter.java:60-62 | the interpreter ends in the reset state, reporting `Finished` for a balanced program and the validator's verdict otherwise |
| Scenarios.ValidatorExamples | src/com/trevinj/fudgerunner/Interpreter.java:234-254 | `[` is an unclosed open, `]` and `]+[` fail at position 0, and `+[-]` is matched |
| Scenarios.PrintTwo | src/com/trevinj/fudgerunner/Interpreter.java:132-165 | `++.` leaves cell 2 and prints the code 2 |
| Scenarios.LoopProgramBalanced | src/com/trevinj/fudgerunner/Interpreter.java:234-254 | `+[-]` passes the bracket check |
| Scenarios.LoopOnce | src/com/trevinj/fudgerunner/Interpreter.java:175-203 | `+[-]` enters the loop, clears the cell, jumps back, skips to the end and finishes with tape `[0]` and an empty stack in five turns |
| Scenarios.ResumeFirstRun | src/com/trevinj/fudgerunner/Interpreter.java:67-87 | `runBF(false)` on `+` finishes with cell 1 and the code pointer past the program |
| Scenarios.ResumeKeepsTape | src/com/trevinj/fudgerunner/Interpreter.java:67-87 | resuming with `+` appended runs only the new instruction, on the kept tape: cell 2 |
| Scenarios.ResumeSession | src/com/trevinj/fudgerunner/Interpreter.java:67-94 | a class-level session: load `+`, run without reset, append `+`, run again; the tape ends as `[2]` and nothing is printed |
| Scenarios.ResumeUnbalancedRejects | src/com/trevinj/fudgerunner/Interpreter.java:53-71 | after a run of `+`, `setInstructions("]")` leaves a code pointer that does not fit the program, and a resumed `runBF(false)` reports the unmatched `]` at 0 and resets |
| Scenarios.UnderflowResets | src/com/trevinj/fudgerunner/Interpreter.java:149-154 | `<` aborts at instruction 0 and leaves the fresh interpreter state |
| Scenarios.EchoInput | src/com/trevinj/fudgerunner/Interpreter.java:168-172 | `,.` prints back the first input code |

## Left out

- `Main.java` is not modelled: the argument switch, help text, REPL loop and file reading. The
  one property of its callers worth stating, that they always use `runBF()` and so
  never dispatch, is `DefaultRunExecutesNothing`.
- `show()` and every `System.out.println` error message are not modelled. Failures are results
  instead: `BracketCheck` carries the offending position, and `Outcome.Aborted`
  carries the failing instruction.
- `Scanner` tokenisation for `,` is not modelled: skipping whitespace, taking the first character
  of a token, and blocking on the console. Input is a total function from the read
  count to a code unit, so the input never runs out.
- Termination of `runBF` is not modelled. Programs such as `+[]` loop forever. The run loop takes
  a step budget (`fuel`), and `OutOfFuel` is an outcome the Java code does not have.
- 32-bit overflow of `cellPtr` and `codePtr` is not modelled: these are unbounded integers, which
  would matter only beyond 2^31 cells or instructions. The cell values do wrap at 32 bits.
- Java exceptions become preconditions: `pop()` on an empty stack and `get` past the end
  of the program or the tape.
- FudgeRunner.Interpreter.ProcessNextInstruction: requires `StepPre`. The Java code throws
  when any of these fails:
  - the code pointer is inside the program;
  - `+ - . , [` have a cell pointer that is not negative;
  - `]` has a non-empty stack;
  - `[` on a zero cell has a matching `]`.

  `StepPre` also asks, for every real instruction, that the cell pointer is below the
  tape length. There the Java code pads the tape up to `cellPtr` (Interpreter.java:124-126)
  and does not throw for `> < ]`. Such states are not reachable: the pointer starts at
  0 on a one-cell tape, and `StepKeepsPointerBound` shows no dispatch moves it past the
  end. So the model's padding loop never adds a cell.
- Programs are sequences of Dafny `char`, which are Unicode scalar values, while Java
  stores UTF-16 code units. A character outside the Basic Multilingual Plane is one
  element here and two in Java. Such characters can only be comments. A position
  reported after one (`UnmatchedClose`, `Aborted`) is therefore smaller here by one
  for each of them. Programs holding unpaired surrogates cannot be written.
- Semantics.Run: with `doReset` false and a balanced program, it requires the tape
  bound and the loop-stack bookkeeping to hold. They hold after the constructor,
  `reset`, `addInstructions` and every `runBF`. A direct `setInstructions` or
  `processNextInstruction` between runs can break them. An unbalanced program is
  covered from any state, since the validator rejects it first. For a balanced one
  the model does not describe these Java runs:
  - a code pointer past the end of the new program: the loop is never entered, and
    the Java call returns with nothing changed;
  - a negative cell pointer, left by a direct `<` at cell 0: the next `+ - . , [`
    throws;
  - a loop stack that does not fit the program: `]` may pop an empty stack and
    throw, or jump back to a position that holds no `[`.
- FudgeRunner.Interpreter.RunBF: has the same precondition as `Semantics.Run`, for
  the same reason; the states listed on the line above are not modelled.
- `PadTape`, `SkipToMatchingClose` and `DispatchLoop` are the loops of
  `processNextInstruction` and `runBF`, written as separate methods of the class.
- The final fall-through of `processNextInstruction` ("unexpected result") is not
  modelled as a case: after the eight instruction checks it cannot be reached, and the
  model proves that.
