/** The interpreter's whole state as a value, and what one dispatch, the run loop
    and a complete `runBF` call do to it. The class in module FudgeRunner is proved
    against these functions. */
module Semantics {
  import opened Int32
  import opened Brackets

  /** The eight symbols the interpreter reacts to; every other symbol is a comment. */
  const ALLOWED_INSTRUCTIONS: string := "[]<>,.+-"

  predicate IsCommand(c: char)
  {
    c == '[' || c == ']' || c == '<' || c == '>' || c == ',' || c == '.' || c == '+' || c == '-'
  }

  /** `IsCommand` is membership in the string of allowed instructions. */
  lemma IsCommandAllowed(c: char)
    ensures IsCommand(c) <==> c in ALLOWED_INSTRUCTIONS
  {
  }

  /** The instructions that read or write the current cell. */
  predicate IsReading(c: char)
  {
    c == '+' || c == '-' || c == '.' || c == ',' || c == '['
  }

  /** Host input: the code delivered by the k-th read request (k counted from 0). */
  type InputPort = nat -> Code

  /** The interpreter's fields, plus how much input it has consumed and what it has
      printed. `loopStack` is the loop-return stack, its top at the end. */
  datatype Machine = Machine(
    cellPtr: int,
    codePtr: int,
    instructions: seq<char>,
    cells: seq<int32>,
    loopStack: seq<int>,
    consumed: nat,
    output: seq<Code>)

  /** The state a fresh interpreter starts in. */
  const INITIAL: Machine := Machine(0, 0, [], [0], [], 0, [])

  /** The tape bound: the cell pointer addresses an existing cell. */
  predicate TapeOk(m: Machine)
  {
    0 <= m.cellPtr < |m.cells|
  }

  /** The bracket at `p` is still open at `pc`: from just after it up to `pc` the
      count stays above its value before `p`, so no `]` in between closes it. */
  predicate OpenAt(s: seq<char>, p: int, pc: int)
  {
    forall j :: 0 <= p < j <= pc && j <= |s| ==> Above(s, p, j)
  }

  /** The count after the first `j` symbols is above the count before `p`. */
  predicate Above(s: seq<char>, p: int, j: int)
    requires 0 <= p <= j <= |s|
  {
    Depth(s[..j]) > Depth(s[..p])
  }

  /** The loop stack agrees with the program up to the code pointer: it holds, in
      increasing order, one `[` before `codePtr` per level of nesting there, the
      k-th entry sitting at nesting depth k. */
  predicate SyncedAt(s: seq<char>, codePtr: int, loopStack: seq<int>)
  {
    0 <= codePtr <= |s| &&
    |loopStack| == Depth(s[..codePtr]) &&
    (forall k :: 0 <= k < |loopStack| ==>
      0 <= loopStack[k] < codePtr && s[loopStack[k]] == '[' && Depth(s[..loopStack[k]]) == k) &&
    (forall a, b :: 0 <= a < b < |loopStack| ==> loopStack[a] < loopStack[b])
  }

  predicate Synced(m: Machine)
  {
    SyncedAt(m.instructions, m.codePtr, m.loopStack)
  }

  /** Every `[` on the loop stack is still open at the code pointer: none of them
      has been closed by a `]` already passed. */
  predicate OpenStackAt(s: seq<char>, codePtr: int, loopStack: seq<int>)
  {
    forall k :: 0 <= k < |loopStack| ==> OpenAt(s, loopStack[k], codePtr)
  }

  predicate StackOpen(m: Machine)
  {
    OpenStackAt(m.instructions, m.codePtr, m.loopStack)
  }

  /** What `reset()` leaves: pointers at 0, one zero cell, empty stack and program.
      Host input and output are not part of the interpreter and stay as they were. */
  function Cleared(m: Machine): (r: Machine)
    ensures TapeOk(r) && Synced(r) && Balanced(r.instructions)
    ensures r.consumed == m.consumed && r.output == m.output
  {
    m.(cellPtr := 0, codePtr := 0, cells := [0], loopStack := [], instructions := [])
  }

  /** Resetting twice is the same as resetting once. */
  lemma ClearedIdempotent(m: Machine)
    ensures Cleared(Cleared(m)) == Cleared(m)
  {
  }

  /** The increment `runBF` applies after every successful dispatch: the code
      pointer moves on by one and nothing else changes. */
  function Advance(m: Machine): (r: Machine)
  {
    m.(codePtr := m.codePtr + 1)
  }

  /** What one dispatch needs in order not to throw: a symbol at the code pointer,
      an addressable cell for the five instructions that read or write the current
      cell, a non-empty stack for `]`, and a matching `]` for a `[` whose cell is
      zero. Every real instruction also needs `cellPtr < |cells|`, which holds in
      every state the interpreter can reach (see `StepKeepsPointerBound`); with it
      the tape-padding loop adds nothing. */
  predicate StepPre(m: Machine)
  {
    0 <= m.codePtr < |m.instructions| &&
    (IsCommand(m.instructions[m.codePtr]) ==> m.cellPtr < |m.cells|) &&
    (IsReading(m.instructions[m.codePtr]) ==> 0 <= m.cellPtr) &&
    (m.instructions[m.codePtr] == ']' ==> m.loopStack != []) &&
    (m.instructions[m.codePtr] == '[' && m.cells[m.cellPtr] == 0 ==>
      FirstDip(m.instructions[m.codePtr + 1..]).Some?)
  }

  /** One call of `processNextInstruction`: the success flag and the new state.
      The code pointer is not advanced here; `[` on a zero cell leaves it on the
      matching `]`, and `]` sets it one before the `[` it returns to. */
  function Step(m: Machine, input: InputPort): (r: (bool, Machine))
    requires StepPre(m)
    ensures !r.0 <==> m.instructions[m.codePtr] == '<' && m.cellPtr <= 0
    ensures r.1.instructions == m.instructions
    ensures m.output <= r.1.output && m.consumed <= r.1.consumed
  {
    var c := m.instructions[m.codePtr];
    if !IsCommand(c) then (true, m)
    else if c == '+' then (true, m.(cells := m.cells[m.cellPtr := Inc(m.cells[m.cellPtr])]))
    else if c == '-' then (true, m.(cells := m.cells[m.cellPtr := Dec(m.cells[m.cellPtr])]))
    else if c == '>' then
      var p := m.cellPtr + 1;
      (true, m.(cellPtr := p, cells := if p >= |m.cells| then m.cells + [0] else m.cells))
    else if c == '<' then (m.cellPtr - 1 >= 0, m.(cellPtr := m.cellPtr - 1))
    else if c == '.' then (true, m.(output := m.output + [CharOf(m.cells[m.cellPtr])]))
    else if c == ',' then
      (true, m.(cells := m.cells[m.cellPtr := input(m.consumed) as int32], consumed := m.consumed + 1))
    else if c == '[' then
      if m.cells[m.cellPtr] != 0 then (true, m.(loopStack := m.loopStack + [m.codePtr]))
      else (true, m.(codePtr := m.codePtr + 1 + FirstDip(m.instructions[m.codePtr + 1..]).value))
    else
      assert c == ']';
      var top := m.loopStack[|m.loopStack| - 1];
      (true, m.(codePtr := top - 1, loopStack := m.loopStack[..|m.loopStack| - 1]))
  }

  /** A symbol outside the eight is a comment: it succeeds and changes nothing. */
  lemma InertSymbol(m: Machine, input: InputPort)
    requires StepPre(m) && !IsCommand(m.instructions[m.codePtr])
    ensures Step(m, input) == (true, m)
  {
  }

  /** `+` and `-` change the current cell by one (modulo 2^32) and nothing else. */
  lemma ArithmeticTouchesOneCell(m: Machine, input: InputPort)
    requires StepPre(m) && m.instructions[m.codePtr] in "+-"
    ensures var m1 := Step(m, input).1;
      m1 == m.(cells := m1.cells) && |m1.cells| == |m.cells| &&
      (forall k :: 0 <= k < |m.cells| && k != m.cellPtr ==> m1.cells[k] == m.cells[k]) &&
      (m1.cells[m.cellPtr] as int - m.cells[m.cellPtr] as int -
        (if m.instructions[m.codePtr] == '+' then 1 else -1)) % MODULUS == 0
  {
  }

  /** `.` appends one code, the current cell reduced modulo 2^16, and changes
      nothing else. */
  lemma PrintAppendsCell(m: Machine, input: InputPort)
    requires StepPre(m) && m.instructions[m.codePtr] == '.'
    ensures var m1 := Step(m, input).1;
      m1 == m.(output := m1.output) && |m1.output| == |m.output| + 1 &&
      m1.output[..|m.output|] == m.output &&
      (m1.output[|m.output|] - m.cells[m.cellPtr] as int) % 0x1_0000 == 0
  {
  }

  /** `,` stores the next input code in the current cell and consumes it; nothing
      else changes. */
  lemma ReadStoresInput(m: Machine, input: InputPort)
    requires StepPre(m) && m.instructions[m.codePtr] == ','
    ensures var m1 := Step(m, input).1;
      m1 == m.(cells := m1.cells, consumed := m.consumed + 1) && |m1.cells| == |m.cells| &&
      (forall k :: 0 <= k < |m.cells| && k != m.cellPtr ==> m1.cells[k] == m.cells[k]) &&
      m1.cells[m.cellPtr] as int == input(m.consumed)
  {
  }

  /** `>` moves the cell pointer right by one, keeping every existing cell and
      adding zero cells only so that the pointer stays on the tape. */
  lemma MoveRight(m: Machine, input: InputPort)
    requires StepPre(m) && m.instructions[m.codePtr] == '>'
    ensures Step(m, input).0
    ensures var m1 := Step(m, input).1;
      m1 == m.(cellPtr := m.cellPtr + 1, cells := m1.cells) && m.cells <= m1.cells &&
      m1.cellPtr < |m1.cells| &&
      (forall k :: |m.cells| <= k < |m1.cells| ==> m1.cells[k] == 0)
  {
  }

  /** `<` moves the cell pointer left by one and changes nothing else; it fails
      exactly when that leaves the tape. */
  lemma MoveLeft(m: Machine, input: InputPort)
    requires StepPre(m) && m.instructions[m.codePtr] == '<'
    ensures Step(m, input).1 == m.(cellPtr := m.cellPtr - 1)
    ensures Step(m, input).0 <==> 0 <= Step(m, input).1.cellPtr
  {
  }

  /** The tape never shrinks, and grows only by one zero cell on `>`. */
  lemma TapeGrowth(m: Machine, input: InputPort)
    requires StepPre(m)
    ensures var m1 := Step(m, input).1;
      |m.cells| <= |m1.cells| <= |m.cells| + 1 &&
      (|m1.cells| > |m.cells| ==>
        m.instructions[m.codePtr] == '>' && m1.cells == m.cells + [0])
  {
  }

  /** A well-formed state can always be stepped without an exception. */
  lemma SyncedSteppable(m: Machine)
    requires TapeOk(m) && Synced(m) && Balanced(m.instructions)
    requires m.codePtr < |m.instructions|
    ensures StepPre(m)
  {
    var s, i := m.instructions, m.codePtr;
    if s[i] == ']' {
      DepthStep(s, i);
      assert Depth(s[..i + 1]) >= 0;
    } else if s[i] == '[' {
      MatchExists(s, i);
    }
  }

  /** A symbol that is not a bracket: the pointer moves on, the stack stays. */
  lemma SyncedPlain(s: seq<char>, pc: int, stack: seq<int>)
    requires SyncedAt(s, pc, stack) && pc < |s| && Delta(s[pc]) == 0
    ensures SyncedAt(s, pc + 1, stack)
  {
    DepthStep(s, pc);
  }

  /** `[` on a nonzero cell: its own position goes on the stack. */
  lemma SyncedPush(s: seq<char>, pc: int, stack: seq<int>)
    requires SyncedAt(s, pc, stack) && pc < |s| && s[pc] == '['
    ensures SyncedAt(s, pc + 1, stack + [pc])
  {
    DepthStep(s, pc);
    var stack' := stack + [pc];
    assert forall k :: 0 <= k < |stack| ==> stack'[k] == stack[k];
  }

  /** `[` on a zero cell: the pointer continues after the matching `]`. */
  lemma SyncedSkip(s: seq<char>, pc: int, stack: seq<int>, d: nat)
    requires SyncedAt(s, pc, stack) && pc < |s| && s[pc] == '[' && DipsAt(s[pc + 1..], d)
    ensures SyncedAt(s, pc + d + 2, stack)
  {
    SkipDepth(s, pc, d);
  }

  /** `]`: the pointer returns to the `[` on top of the stack, which is popped. */
  lemma SyncedPop(s: seq<char>, pc: int, stack: seq<int>)
    requires SyncedAt(s, pc, stack) && pc < |s| && s[pc] == ']' && stack != []
    ensures SyncedAt(s, stack[|stack| - 1], stack[..|stack| - 1])
  {
    var top := |stack| - 1;
    var stack' := stack[..top];
    assert forall k :: 0 <= k < top ==> stack'[k] == stack[k];
  }

  /** A symbol that is not a bracket leaves every stacked `[` open. */
  lemma OpenPlain(s: seq<char>, pc: int, stack: seq<int>)
    requires SyncedAt(s, pc, stack) && OpenStackAt(s, pc, stack) && pc < |s| && Delta(s[pc]) == 0
    ensures OpenStackAt(s, pc + 1, stack)
  {
    DepthStep(s, pc);
  }

  /** `[` on a nonzero cell: the new entry is open just after it, the others stay open. */
  lemma OpenPush(s: seq<char>, pc: int, stack: seq<int>)
    requires SyncedAt(s, pc, stack) && OpenStackAt(s, pc, stack) && pc < |s| && s[pc] == '['
    ensures OpenStackAt(s, pc + 1, stack + [pc])
  {
    DepthStep(s, pc);
    var stack' := stack + [pc];
    assert forall k :: 0 <= k < |stack| ==> stack'[k] == stack[k];
  }

  /** `[` on a zero cell: the skipped loop body and its `]` close no stacked `[`. */
  lemma OpenSkip(s: seq<char>, pc: int, stack: seq<int>, d: nat)
    requires SyncedAt(s, pc, stack) && OpenStackAt(s, pc, stack)
    requires pc < |s| && s[pc] == '[' && DipsAt(s[pc + 1..], d)
    ensures OpenStackAt(s, pc + d + 2, stack)
  {
    SkipDepth(s, pc, d);
    SkipInside(s, pc, d);
  }

  /** `]`: the entries left below the popped one were open further on, so they are
      open back at the popped position. */
  lemma OpenPop(s: seq<char>, pc: int, stack: seq<int>)
    requires SyncedAt(s, pc, stack) && OpenStackAt(s, pc, stack) && pc < |s| && s[pc] == ']' && stack != []
    ensures OpenStackAt(s, stack[|stack| - 1], stack[..|stack| - 1])
  {
    var top := |stack| - 1;
    var stack' := stack[..top];
    assert forall k :: 0 <= k < top ==> stack'[k] == stack[k];
  }

  /** The entry `]` pops is the `[` it closes: the scan from just after that `[`
      dips exactly at this `]`. */
  lemma PopIsMatch(s: seq<char>, pc: int, stack: seq<int>)
    requires SyncedAt(s, pc, stack) && OpenStackAt(s, pc, stack) && pc < |s| && s[pc] == ']' && stack != []
    ensures var p := stack[|stack| - 1];
      0 <= p < pc && s[p] == '[' && FirstDip(s[p + 1..]) == Some(pc - p - 1)
  {
    var p := stack[|stack| - 1];
    DepthStep(s, pc);
    forall j | p < j <= pc
      ensures Depth(s[..j]) > Depth(s[..p])
    {
      assert Above(s, p, j);
    }
    MatchOfOpen(s, p, pc);
  }

  /** Where a dispatch and the increment leave the code pointer and the loop stack,
      for a `[`; nothing else changes. */
  lemma StepOpenFields(m: Machine, input: InputPort)
    requires StepPre(m) && m.instructions[m.codePtr] == '['
    ensures var m1 := Step(m, input).1;
      m1 == m.(codePtr := m1.codePtr, loopStack := m1.loopStack)
    ensures var n := Advance(Step(m, input).1);
      n.instructions == m.instructions &&
      if m.cells[m.cellPtr] == 0 then
        n.codePtr == m.codePtr + FirstDip(m.instructions[m.codePtr + 1..]).value + 2 &&
        n.loopStack == m.loopStack
      else
        n.codePtr == m.codePtr + 1 && n.loopStack == m.loopStack + [m.codePtr]
  {
  }

  /** The same for a `]`. */
  lemma StepCloseFields(m: Machine, input: InputPort)
    requires StepPre(m) && m.instructions[m.codePtr] == ']'
    ensures var m1 := Step(m, input).1;
      m1 == m.(codePtr := m1.codePtr, loopStack := m1.loopStack)
    ensures var n := Advance(Step(m, input).1);
      n.instructions == m.instructions &&
      n.codePtr == m.loopStack[|m.loopStack| - 1] &&
      n.loopStack == m.loopStack[..|m.loopStack| - 1]
  {
  }

  /** After `]` and the increment, the code pointer is on the `[` that this `]`
      closes: the skip from that `[` would land on this very `]`. */
  lemma CloseReturnsToMatch(m: Machine, input: InputPort)
    requires Synced(m) && StackOpen(m) && StepPre(m) && m.instructions[m.codePtr] == ']'
    ensures var p := Advance(Step(m, input).1).codePtr;
      0 <= p < m.codePtr && m.instructions[p] == '[' &&
      FirstDip(m.instructions[p + 1..]) == Some(m.codePtr - p - 1)
  {
    StepCloseFields(m, input);
    PopIsMatch(m.instructions, m.codePtr, m.loopStack);
  }

  /** The same for any other symbol. */
  lemma StepPlainFields(m: Machine, input: InputPort)
    requires StepPre(m) && m.instructions[m.codePtr] != '[' && m.instructions[m.codePtr] != ']'
    ensures var n := Advance(Step(m, input).1);
      n.instructions == m.instructions && n.codePtr == m.codePtr + 1 && n.loopStack == m.loopStack
  {
  }

  /** `[` on a zero cell, then the increment: the pointer lands just after the matching `]`. */
  lemma SkipKeepsSynced(m: Machine)
    requires Synced(m) && 0 <= m.codePtr < |m.instructions| && m.instructions[m.codePtr] == '['
    requires FirstDip(m.instructions[m.codePtr + 1..]).Some?
    ensures Synced(m.(codePtr := m.codePtr + FirstDip(m.instructions[m.codePtr + 1..]).value + 2))
  {
    SyncedSkip(m.instructions, m.codePtr, m.loopStack, FirstDip(m.instructions[m.codePtr + 1..]).value);
  }

  /** `[` on a nonzero cell, then the increment. */
  lemma PushKeepsSynced(m: Machine, input: InputPort)
    requires Synced(m) && StepPre(m) && m.instructions[m.codePtr] == '[' && m.cells[m.cellPtr] != 0
    ensures Synced(Advance(Step(m, input).1))
  {
    StepOpenFields(m, input);
    SyncedPush(m.instructions, m.codePtr, m.loopStack);
  }

  /** `]`, then the increment: the pointer lands back on the `[` it popped. */
  lemma CloseKeepsSynced(m: Machine, input: InputPort)
    requires Synced(m) && StepPre(m) && m.instructions[m.codePtr] == ']'
    ensures Synced(Advance(Step(m, input).1))
  {
    StepCloseFields(m, input);
    SyncedPop(m.instructions, m.codePtr, m.loopStack);
  }

  /** Any other symbol, then the increment. */
  lemma PlainKeepsSynced(m: Machine, input: InputPort)
    requires Synced(m) && StepPre(m)
    requires m.instructions[m.codePtr] != '[' && m.instructions[m.codePtr] != ']'
    ensures Synced(Advance(Step(m, input).1))
  {
    StepPlainFields(m, input);
    SyncedPlain(m.instructions, m.codePtr, m.loopStack);
  }

  /** A dispatch followed by the increment keeps the loop-stack bookkeeping. */
  lemma StepKeepsSynced(m: Machine, input: InputPort)
    requires Synced(m) && StepPre(m)
    ensures Synced(Advance(Step(m, input).1))
  {
    var c := m.instructions[m.codePtr];
    if c == '[' && m.cells[m.cellPtr] == 0 {
      StepOpenFields(m, input);
      SkipKeepsSynced(m);
    } else if c == '[' {
      PushKeepsSynced(m, input);
    } else if c == ']' {
      CloseKeepsSynced(m, input);
    } else {
      PlainKeepsSynced(m, input);
    }
  }

  /** A dispatch followed by the increment keeps every stacked `[` open. */
  lemma StepKeepsOpen(m: Machine, input: InputPort)
    requires Synced(m) && StackOpen(m) && StepPre(m)
    ensures StackOpen(Advance(Step(m, input).1))
  {
    var s, pc, stack, c := m.instructions, m.codePtr, m.loopStack, m.instructions[m.codePtr];
    if c == '[' && m.cells[m.cellPtr] == 0 {
      StepOpenFields(m, input);
      OpenSkip(s, pc, stack, FirstDip(s[pc + 1..]).value);
    } else if c == '[' {
      StepOpenFields(m, input);
      OpenPush(s, pc, stack);
    } else if c == ']' {
      StepCloseFields(m, input);
      OpenPop(s, pc, stack);
    } else {
      StepPlainFields(m, input);
      OpenPlain(s, pc, stack);
    }
  }

  /** The cell pointer never runs past the tape: `>` appends a cell whenever it
      reaches the end, and nothing else moves the pointer right or shrinks the tape.
      A failed `<` may leave the pointer negative, but never beyond the end. */
  lemma StepKeepsPointerBound(m: Machine, input: InputPort)
    requires StepPre(m) && m.cellPtr < |m.cells|
    ensures Step(m, input).1.cellPtr < |Step(m, input).1.cells|
  {
  }

  /** A successful dispatch keeps the cell pointer on the tape. */
  lemma StepKeepsTape(m: Machine, input: InputPort)
    requires TapeOk(m) && StepPre(m) && Step(m, input).0
    ensures TapeOk(Step(m, input).1)
  {
  }

  /** How a run ends. */
  datatype Outcome =
    | Finished                   // the code pointer ran past the program
    | Aborted(at: int)           // `<` at cell 0, at this instruction; the state was reset
    | Rejected(check: BracketCheck)  // the balance check failed; the state was reset
    | OutOfFuel                  // the step budget ran out (a model artefact)

  /** The `while (codePtr < instructions.size())` loop of `runBF`, for at most
      `fuel` dispatches. */
  function Exec(m: Machine, input: InputPort, fuel: nat): (r: (Outcome, Machine))
    requires TapeOk(m) && Synced(m) && Balanced(m.instructions)
    decreases fuel
  {
    if m.codePtr >= |m.instructions| then (Finished, m)
    else if fuel == 0 then (OutOfFuel, m)
    else
      SyncedSteppable(m);
      var (ok, m1) := Step(m, input);
      if !ok then (Aborted(m.codePtr), Cleared(m1))
      else
        StepKeepsTape(m, input);
        StepKeepsSynced(m, input);
        Exec(Advance(m1), input, fuel - 1)
  }

  /** How the run loop can end: past the end of the program with an empty loop
      stack, out of fuel, or aborted with the interpreter wiped. The tape bound and
      the loop-stack bookkeeping hold throughout. */
  lemma {:induction false} ExecOutcomes(m: Machine, input: InputPort, fuel: nat)
    requires TapeOk(m) && Synced(m) && Balanced(m.instructions)
    ensures var r := Exec(m, input, fuel);
      TapeOk(r.1) && Synced(r.1) && !r.0.Rejected? &&
      (r.0.Finished? ==> r.1.codePtr == |r.1.instructions| && r.1.loopStack == []) &&
      (r.0.Aborted? ==> r.1 == Cleared(r.1))
    decreases fuel
  {
    if m.codePtr >= |m.instructions| {
      assert m.instructions[..m.codePtr] == m.instructions;
    } else if fuel > 0 {
      ExecOneStep(m, input, fuel);
      var m1 := Step(m, input).1;
      if Step(m, input).0 {
        ExecOutcomes(Advance(m1), input, fuel - 1);
      } else {
        ClearedIdempotent(m1);
      }
    }
  }

  /** Unless the run loop aborted, the program is untouched, the tape has not
      shrunk, and input consumed and output printed have only grown. */
  lemma {:induction false} ExecGrowth(m: Machine, input: InputPort, fuel: nat)
    requires TapeOk(m) && Synced(m) && Balanced(m.instructions)
    ensures var r := Exec(m, input, fuel);
      !r.0.Aborted? ==>
        r.1.instructions == m.instructions && |m.cells| <= |r.1.cells| &&
        m.consumed <= r.1.consumed
    decreases fuel
  {
    if m.codePtr < |m.instructions| && fuel > 0 {
      var next := ExecUnfold(m, input, fuel);
      if !Exec(m, input, fuel).0.Aborted? {
        ExecGrowth(next, input, fuel - 1);
      }
    }
  }

  /** Unless the run loop aborted, what was printed before is a prefix of what
      has been printed after. */
  lemma {:induction false} ExecOutputGrows(m: Machine, input: InputPort, fuel: nat)
    requires TapeOk(m) && Synced(m) && Balanced(m.instructions)
    ensures var r := Exec(m, input, fuel);
      !r.0.Aborted? ==> m.output <= r.1.output
    decreases fuel
  {
    if m.codePtr < |m.instructions| && fuel > 0 {
      var next := ExecUnfold(m, input, fuel);
      if !Exec(m, input, fuel).0.Aborted? {
        ExecOutputGrows(next, input, fuel - 1);
      }
    }
  }

  /** The run loop keeps every stacked `[` open. */
  lemma {:induction false} ExecKeepsOpen(m: Machine, input: InputPort, fuel: nat)
    requires TapeOk(m) && Synced(m) && Balanced(m.instructions) && StackOpen(m)
    ensures StackOpen(Exec(m, input, fuel).1)
    decreases fuel
  {
    if m.codePtr < |m.instructions| && fuel > 0 {
      ExecOutcomes(m, input, fuel);
      var r := Exec(m, input, fuel);
      if r.0.Aborted? {
        assert r.1.loopStack == Cleared(r.1).loopStack == [];
      } else {
        var next := ExecUnfold(m, input, fuel);
        ExecKeepsOpen(next, input, fuel - 1);
      }
    }
  }

  /** An aborted run loop leaves nothing on the loop stack: the abort resets the
      interpreter. */
  lemma ExecAbortEmptiesStack(m: Machine, input: InputPort, fuel: nat)
    requires TapeOk(m) && Synced(m) && Balanced(m.instructions)
    ensures Exec(m, input, fuel).0.Aborted? ==> Exec(m, input, fuel).1.loopStack == []
  {
    ExecOutcomes(m, input, fuel);
  }

  /** One turn of the run loop: it aborts here with the interpreter wiped, or the
      loop goes on from a state that satisfies the invariants. */
  lemma ExecUnfold(m: Machine, input: InputPort, fuel: nat) returns (next: Machine)
    requires TapeOk(m) && Synced(m) && Balanced(m.instructions)
    requires m.codePtr < |m.instructions| && fuel > 0
    ensures TapeOk(next) && Synced(next) && Balanced(next.instructions)
    ensures !Exec(m, input, fuel).0.Aborted? ==> Exec(m, input, fuel) == Exec(next, input, fuel - 1)
    ensures next.instructions == m.instructions && |m.cells| <= |next.cells|
    ensures m.output <= next.output && m.consumed <= next.consumed
    ensures StackOpen(m) ==> StackOpen(next)
  {
    ExecOneStep(m, input, fuel);
    if StackOpen(m) && Step(m, input).0 {
      StepKeepsOpen(m, input);
    }
    TapeGrowth(m, input);
    next := if Step(m, input).0 then Advance(Step(m, input).1) else m;
  }

  /** One turn of the run loop, as the loop itself takes it. */
  lemma ExecOneStep(m: Machine, input: InputPort, fuel: nat)
    requires TapeOk(m) && Synced(m) && Balanced(m.instructions)
    requires m.codePtr < |m.instructions| && fuel > 0
    ensures StepPre(m)
    ensures !Step(m, input).0 ==>
      Exec(m, input, fuel) == (Aborted(m.codePtr), Cleared(Step(m, input).1))
    ensures Step(m, input).0 ==>
      TapeOk(Step(m, input).1) && Synced(Advance(Step(m, input).1)) &&
      Exec(m, input, fuel) == Exec(Advance(Step(m, input).1), input, fuel - 1)
  {
    SyncedSteppable(m);
    if Step(m, input).0 {
      StepKeepsTape(m, input);
      StepKeepsSynced(m, input);
    }
  }

  /** `runBF(doReset)`: validate, reset if asked to, then run the loop. */
  function Run(m: Machine, input: InputPort, doReset: bool, fuel: nat): (r: (Outcome, Machine))
    requires doReset || !Balanced(m.instructions) || (TapeOk(m) && Synced(m))
    ensures TapeOk(r.1) && Synced(r.1)
    ensures !Balanced(m.instructions) ==> r == (Rejected(Check(m.instructions)), Cleared(m))
    ensures doReset ==> r.1 == Cleared(m)
    ensures r.0.Finished? ==> r.1.codePtr == |r.1.instructions| && r.1.loopStack == []
    ensures r.0.Finished? || r.0.OutOfFuel? || r.1 == Cleared(r.1)
    ensures !doReset && Balanced(m.instructions) && !r.0.Aborted? ==>
      r.1.instructions == m.instructions && |m.cells| <= |r.1.cells| &&
      m.consumed <= r.1.consumed && m.output <= r.1.output
  {
    var check := Check(m.instructions);
    if !check.Matched? then (Rejected(check), Cleared(m))
    else
      var start := if doReset then Cleared(m) else m;
      ExecOutcomes(start, input, fuel);
      ExecGrowth(start, input, fuel);
      ExecOutputGrows(start, input, fuel);
      Exec(start, input, fuel)
  }

  /** Appending source keeps the loop-stack bookkeeping valid, which is what makes
      resuming after `addInstructions` sound. */
  lemma AppendKeepsSynced(m: Machine, more: seq<char>)
    requires Synced(m)
    ensures Synced(m.(instructions := m.instructions + more))
  {
    var s := m.instructions;
    var s' := s + more;
    assert s'[..m.codePtr] == s[..m.codePtr];
    forall k | 0 <= k < |m.loopStack|
      ensures s'[m.loopStack[k]] == '[' && Depth(s'[..m.loopStack[k]]) == Depth(s[..m.loopStack[k]])
    {
      assert s'[..m.loopStack[k]] == s[..m.loopStack[k]];
    }
  }

  /** Appending source leaves every stacked `[` open: nothing before the code
      pointer changes. */
  lemma AppendKeepsOpen(m: Machine, more: seq<char>)
    requires Synced(m) && StackOpen(m)
    ensures StackOpen(m.(instructions := m.instructions + more))
  {
    var s, pc, stack := m.instructions, m.codePtr, m.loopStack;
    var s' := s + more;
    forall k, j | 0 <= k < |stack| && stack[k] < j <= pc
      ensures Above(s', stack[k], j)
    {
      assert Above(s, stack[k], j);
      assert s'[..j] == s[..j] && s'[..stack[k]] == s[..stack[k]];
    }
  }

  /** A run, resumed or not, leaves every stacked `[` open at the code pointer. */
  lemma RunKeepsOpen(m: Machine, input: InputPort, doReset: bool, fuel: nat)
    requires doReset || !Balanced(m.instructions) || (TapeOk(m) && Synced(m) && StackOpen(m))
    ensures StackOpen(Run(m, input, doReset, fuel).1)
  {
    if Balanced(m.instructions) {
      var start := if doReset then Cleared(m) else m;
      ExecKeepsOpen(start, input, fuel);
    }
  }

  /** `runBF(true)`, the only mode the command-line front end uses, validates and
      then clears everything, program included, so it never dispatches an
      instruction and never prints. */
  lemma DefaultRunExecutesNothing(m: Machine, input: InputPort, fuel: nat)
    ensures Run(m, input, true, fuel).1 == Cleared(m)
    ensures Run(m, input, true, fuel).1.output == m.output
    ensures Run(m, input, true, fuel).0 ==
      if Balanced(m.instructions) then Finished else Rejected(Check(m.instructions))
  {
  }
}
