/**
 lre_exec_backtrack as the loop it is: program counter and character index in local variables, an
 evaluation stack of exactly the size the compiler computed, a capture array that is overwritten in
 place, and a growing stack of saved states.
 */
module RegexExec {
  import opened Wrappers
  import opened RegexSyntax
  import opened RegexBytecode
  import opened RegexVm
  import opened RegexAtoms
  import opened RegexSim
  import opened RegexSimple
  import opened RegexCorrect
  import opened RegexProgram
  import opened RegexStack
  import opened RegexSafety

  /** The search of a range table, as a loop over its bounds. */
  method RangeMatch(t: seq<nat>, wide: bool, n: nat, c: nat) returns (found: bool)
    requires 1 <= n && |t| == 2 * n
    ensures found == InTable(t, wide, n, c)
  {
    var idxMin := 0;
    var low := t[0];
    if c < low { return false; }
    var idxMax := n - 1;
    var high := t[2 * idxMax + 1];
    if !wide && 0xffff <= c && high == 0xffff { return true; }
    if high < c { return false; }
    while idxMin <= idxMax
      invariant 0 <= idxMin <= idxMax + 1 <= n
      invariant Search(t, c, idxMin, idxMax) == Search(t, c, 0, n - 1)
      decreases idxMax - idxMin
    {
      var idx := (idxMin + idxMax) / 2;
      low, high := t[2 * idx], t[2 * idx + 1];
      if c < low {
        // the table starts at or below `c`, so the unsigned upper bound cannot wrap around
        idxMax := idx - 1;
      } else if high < c {
        idxMin := idx + 1;
      } else {
        return true;
      }
    }
    return false;
  }

  class ReExecContext {
    const m: Machine
    const capture: array<Option<nat>>
    const stack: array<nat>
    var stateStack: seq<ExecState>

    constructor (m: Machine, capture: array<Option<nat>>, stack: array<nat>)
      ensures this.m == m && this.capture == capture && this.stack == stack && stateStack == []
    {
      this.m, this.capture, this.stack := m, capture, stack;
      stateStack := [];
    }

    ghost predicate Valid()
      reads this, capture, stack
    {
      && Sound(m) && capture.Length == 2
      && ComputeStackSize(m.code, RE_HEADER_LEN, 0, 0) == Size(stack.Length)
    }

    ghost function Here(pc: int, cptr: nat, stackLen: nat): Config
      reads this, capture, stack
      requires stackLen <= stack.Length
    {
      Running(Frame(pc, cptr, capture[..], stack[..stackLen], stateStack))
    }

    method PushState(stackLen: nat, pc: int, cptr: nat, kind: StateKind, count: nat)
      requires stackLen <= stack.Length
      modifies this`stateStack
      ensures stateStack == old(stateStack) + [ExecState(kind, count, cptr, pc, capture[..], stack[..stackLen])]
    {
      stateStack := stateStack + [ExecState(kind, count, cptr, pc, capture[..], stack[..stackLen])];
    }

    /** Copy the saved captures back. */
    method RestoreCapture(rs: ExecState)
      requires |rs.capture| == capture.Length
      modifies capture
      ensures capture[..] == rs.capture
    {
      for i := 0 to capture.Length
        invariant capture[..i] == rs.capture[..i]
      {
        capture[i] := rs.capture[i];
      }
    }

    /** Copy the saved evaluation stack back. */
    method RestoreStack(rs: ExecState) returns (stackLen: nat)
      requires |rs.stack| <= stack.Length
      modifies stack
      ensures stackLen == |rs.stack| && stack[..stackLen] == rs.stack
    {
      stackLen := |rs.stack|;
      for i := 0 to stackLen
        invariant stack[..i] == rs.stack[..i]
      {
        stack[i] := rs.stack[i];
      }
    }

    ghost function After(ret: bool): Config
      reads this, capture
    {
      if ret then Matched(capture[..], stateStack) else Failing(stateStack)
    }

    /** The `recurse` loop: drop saved states until one of them goes on, or none is left. */
    method Recurse(matched: bool, ghost fuel: nat, ghost out: Outcome)
      returns (ret: bool, resumed: bool, pc: int, cptr: nat, stackLen: nat, ghost left: nat)
      requires Valid() && capture as object != stack as object
      requires Inv(m, After(matched)) && Eval(m, After(matched), fuel) == Some(out)
      modifies this`stateStack, capture, stack
      ensures !resumed ==> out == if ret then Some(capture[..]) else None
      ensures resumed ==> stackLen <= stack.Length && Inv(m, Here(pc, cptr, stackLen))
      ensures resumed ==> left < fuel && Eval(m, Here(pc, cptr, stackLen), left) == Some(out)
    {
      hide Inv, Step, Sound, ComputeStackSize, StateOk;
      ret, resumed, pc, cptr, stackLen, left := matched, false, 0, 0, 0, fuel;
      while true
        invariant Valid() && Inv(m, After(ret)) && Eval(m, After(ret), left) == Some(out) && left <= fuel
        decreases left
      {
        ghost var s := After(ret);
        if |stateStack| == 0 {
          EmptyUnwind(m, s, left, out);
          return;
        }
        var rs := stateStack[|stateStack| - 1];
        var rest := stateStack[..|stateStack| - 1];
        TopFits(m, s, rs, stack.Length);
        EvalNext(m, s, left, out);
        UnwindIs(m, s, capture[..], ret, rs, rest);
        left := left - 1;
        if rs.kind == SplitState {
          if !ret {
            RestoreCapture(rs);
            pc, cptr := rs.pc, rs.cptr;
            stackLen := RestoreStack(rs);
            stateStack := rest;
            resumed := true;
            return;
          }
        } else if rs.kind == GreedyState {
          if !ret {
            RestoreCapture(rs);
            stackLen := RestoreStack(rs);
            pc, cptr := rs.pc, rs.cptr;
            // go backward by the length of the atom
            var charCount := GetU32(m.code, pc + 12);
            cptr := cptr - charCount;
            pc := pc + 16 + Signed(GetU32(m.code, pc));
            stateStack := rest + [rs.(cptr := cptr, count := rs.count - 1)];
            if rs.count - 1 == 0 {
              stateStack := rest;
            }
            resumed := true;
            return;
          }
        } else {
          ret := (rs.kind == LookaheadState && ret) || (rs.kind == NegativeLookaheadState && !ret);
          if ret {
            // a positive lookahead keeps the captures
            if rs.kind != LookaheadState {
              RestoreCapture(rs);
            }
            pc, cptr := rs.pc, rs.cptr;
            stackLen := RestoreStack(rs);
            stateStack := rest;
            resumed := true;
            return;
          }
        }
        stateStack := rest;
      }
    }

    /** The opcodes that only read the subject. */
    method ExecBasicOp(pc: nat, cptr: nat) returns (b: Basic)
      requires pc < |m.code| && InstrSize(m.code, pc) != 0 && cptr <= |m.subject.chars|
      ensures b == ExecBasic(m, pc, cptr)
    {
      hide InTable, Table, GetU16, GetU32;
      var op, chars := m.code[pc], m.subject.chars;
      var next := pc + InstrSize(m.code, pc);
      if IsCharOp(op) {
        if (op == OP_RANGE || op == OP_RANGE32) && GetU16(m.code, pc + 1) == 0 { return NotBasic; }
        if |chars| <= cptr { return Reject; }
        var c := chars[cptr];
        var ok := true;
        if op == OP_CHAR {
          ok := GetU16(m.code, pc + 1) == c;
        } else if op == OP_CHAR32 {
          ok := GetU32(m.code, pc + 1) == c;
        } else if op == OP_DOT {
          ok := !IsLineTerminator(c);
        } else if op != OP_ANY {
          var n := GetU16(m.code, pc + 1);
          ok := RangeMatch(Table(m.code, pc + 3, op == OP_RANGE32, n), op == OP_RANGE32, n, c);
        }
        return Bool(ok, next, cptr + 1);
      } else if op == OP_LINE_START {
        if cptr == 0 { return Go(next, cptr); }
        if !m.subject.multiLine { return Reject; }
        return Bool(IsLineTerminator(chars[cptr - 1]), next, cptr);
      } else if op == OP_LINE_END {
        if cptr == |chars| { return Go(next, cptr); }
        if !m.subject.multiLine { return Reject; }
        return Bool(IsLineTerminator(chars[cptr]), next, cptr);
      } else if op == OP_WORD_BOUNDARY || op == OP_NOT_WORD_BOUNDARY {
        var v1 := cptr != 0 && IsWordChar(chars[cptr - 1]);
        var v2 := cptr < |chars| && IsWordChar(chars[cptr]);
        return Bool((v1 != v2) == (op == OP_WORD_BOUNDARY), next, cptr);
      } else if op == OP_PREV {
        if cptr == 0 { return Reject; }
        return Go(next, cptr - 1);
      }
      return NotBasic;
    }

    /** lre_exec_backtrack with `no_recurse` set: run straight-line code up to its `match`. */
    method ExecStraight(pc0: nat, cptr0: nat) returns (ret: bool, end: nat)
      requires cptr0 <= |m.subject.chars| && RunSimple(m, pc0, cptr0) != Stuck
      ensures RunSimple(m, pc0, cptr0) == if ret then Advanced(end) else Refused
    {
      hide ExecBasic;
      var pc: nat, cptr: nat := pc0, cptr0;
      while true
        invariant cptr <= |m.subject.chars| && RunSimple(m, pc, cptr) == RunSimple(m, pc0, cptr0)
        decreases |m.code| - pc
      {
        var op := m.code[pc];
        if op == OP_MATCH { return true, cptr; }
        SimpleStep(m, pc, cptr);
        var b := ExecBasicOp(pc, cptr);
        match b
        case Go(pc', cptr') => pc, cptr := pc', cptr';
        case Reject => return false, 0;
        case NotBasic => assert false;
      }
    }

    /** The loop of `simple_greedy_quant`: match the atom again and again. */
    method SimpleGreedyQuant(pc: nat, start: nat) returns (q: nat, cptr: nat)
      requires pc + 17 <= |m.code| && GreedyOk(m, pc) && start <= |m.subject.chars|
      ensures GreedyRun(m, pc + 17, start, GetU32(m.code, pc + 9), 0) == Some((q, cptr))
    {
      hide RunSimple, Atom, Ends, GetU32;
      ghost var r :| LoopsOver(m, pc, r);
      var max := GetU32(m.code, pc + 9);
      q, cptr := 0, start;
      ghost var n := GetU32(m.code, pc + 13);
      AtomPositive(m, r, pc + 17, n);
      while true
        invariant cptr <= |m.subject.chars|
        invariant GreedyRun(m, pc + 17, cptr, max, q) == GreedyRun(m, pc + 17, start, max, 0)
        decreases |m.subject.chars| - cptr
      {
        AtomRun(m, r, pc + 17, n, cptr);
        var more, next := ExecStraight(pc + 17, cptr);
        if !more { return; }
        var before := cptr;
        cptr := next;
        q := q + 1;
        if max <= q && max != INT32_MAX { return; }
        assert before < cptr;
      }
    }

    /** `simple_greedy_quant`: run the loop, then go on after it or fail. */
    method GreedyOp(pc0: nat, cptr0: nat, stackLen0: nat, ghost fuel: nat, ghost out: Outcome)
      returns (ret: bool, resumed: bool, pc: int, cptr: nat, stackLen: nat, ghost left: nat)
      requires Valid() && capture as object != stack as object && stackLen0 <= stack.Length
      requires Inv(m, Here(pc0, cptr0, stackLen0)) && pc0 + 17 <= |m.code| && m.code[pc0] == OP_SIMPLE_GREEDY_QUANT
      requires GreedyOk(m, pc0) && cptr0 <= |m.subject.chars| && InstrSize(m.code, pc0) == 17
      requires var s := ExecOp(m, Here(pc0, cptr0, stackLen0).frame); Inv(m, s) && Eval(m, s, fuel) == Some(out)
      modifies this`stateStack, capture, stack
      ensures !resumed ==> out == if ret then Some(capture[..]) else None
      ensures resumed ==> stackLen <= stack.Length && Inv(m, Here(pc, cptr, stackLen))
      ensures resumed ==> left <= fuel && Eval(m, Here(pc, cptr, stackLen), left) == Some(out)
    {
      hide Inv, Sound, ComputeStackSize, ExecOp, Ok, GetU32, GreedyRun, InstrSize, GreedyOk, Eval, StateOk;
      ghost var f := Here(pc0, cptr0, stackLen0).frame;
      var nextPos := Signed(GetU32(m.code, pc0 + 1));
      var quantMin := GetU32(m.code, pc0 + 5);
      var q;
      ret, resumed, pc, stackLen, left := false, true, pc0 + 17 + nextPos, stackLen0, fuel;
      q, cptr := SimpleGreedyQuant(pc0, cptr0);
      GreedyStep(m, f, q, cptr);
      if q < quantMin {
        ret, resumed, pc, cptr, stackLen, left := Recurse(false, left, out);
        return;
      }
      if quantMin < q {
        // the shorter matches are tried when this one fails
        PushState(stackLen, pc0 + 1, cptr, GreedyState, q - quantMin);
      }
    }

    /** The interpreter loop: 1 if there is a match, with the captures it set. */
    method LreExecBacktrack(pc0: nat, cptr0: nat, ghost fuel: nat, ghost out: Outcome) returns (ret: bool)
      requires Valid() && capture as object != stack as object
      requires Inv(m, Here(pc0, cptr0, 0)) && Eval(m, Here(pc0, cptr0, 0), fuel) == Some(out)
      modifies this`stateStack, capture, stack
      ensures out == if ret then Some(capture[..]) else None
    {
      hide Inv, Sound, ComputeStackSize, ExecOp, Ok, GetU32, ExecBasic;
      var pc: int, cptr: nat, stackLen: nat := pc0, cptr0, 0;
      ghost var left := fuel;
      while true
        invariant Valid() && stackLen <= stack.Length
        invariant Inv(m, Here(pc, cptr, stackLen)) && Eval(m, Here(pc, cptr, stackLen), left) == Some(out)
        decreases left
      {
        var resumed;
        ghost var f := Here(pc, cptr, stackLen).frame;
        FrameFacts(m, f);
        EvalNext(m, Running(f), left, out);
        left := left - 1;
        var op := m.code[pc];
        var next := pc + InstrSize(m.code, pc);
        var b := ExecBasicOp(pc, cptr);
        if b.Go? {
          BasicStep(m, f);
          pc, cptr := b.pc, b.cptr;
        } else if b.Reject? {
          BasicStep(m, f);
          ret, resumed, pc, cptr, stackLen, left := Recurse(false, left, out);
          if !resumed { return; }
        } else if op == OP_MATCH {
          MatchStep(m, f);
          ret, resumed, pc, cptr, stackLen, left := Recurse(true, left, out);
          if !resumed { return; }
        } else {
          ControlStep(m, f, op, next);
          StackFits(m, f, op, stack.Length);
          if op == OP_SPLIT_GOTO_FIRST || op == OP_SPLIT_NEXT_FIRST {
            var val := Signed(GetU32(m.code, pc + 1));
            var pc1 := if op == OP_SPLIT_NEXT_FIRST then next + val else next;
            PushState(stackLen, pc1, cptr, SplitState, 0);
            pc := if op == OP_SPLIT_NEXT_FIRST then next else next + val;
          } else if op == OP_LOOKAHEAD || op == OP_NEGATIVE_LOOKAHEAD {
            var val := Signed(GetU32(m.code, pc + 1));
            PushState(stackLen, next + val, cptr, if op == OP_LOOKAHEAD then LookaheadState else NegativeLookaheadState, 0);
            pc := next;
          } else if op == OP_GOTO {
            pc := next + Signed(GetU32(m.code, pc + 1));
          } else if op == OP_SAVE_START || op == OP_SAVE_END {
            var val := m.code[pc + 1] as int;
            capture[2 * val + (op - OP_SAVE_START) as int] := Some(cptr);
            assert capture[..] == f.capture[(op - OP_SAVE_START) as int := Some(cptr)];
            pc := next;
          } else if op == OP_PUSH_I32 {
            stack[stackLen] := GetU32(m.code, pc + 1);
            stackLen := stackLen + 1;
            assert stack[..stackLen] == f.stack + [GetU32(m.code, pc + 1)];
            pc := next;
          } else if op == OP_PUSH_CHAR_POS {
            stack[stackLen] := cptr;
            stackLen := stackLen + 1;
            assert stack[..stackLen] == f.stack + [cptr];
            pc := next;
          } else if op == OP_DROP {
            stackLen := stackLen - 1;
            assert stack[..stackLen] == f.stack[..stackLen];
            pc := next;
          } else if op == OP_LOOP {
            var val := Signed(GetU32(m.code, pc + 1));
            stack[stackLen - 1] := Decrement(stack[stackLen - 1]);
            assert stack[..stackLen] == f.stack[stackLen - 1 := Decrement(f.stack[stackLen - 1])];
            pc := if stack[stackLen - 1] != 0 then next + val else next;
          } else if op == OP_BNE_CHAR_POS {
            var val := Signed(GetU32(m.code, pc + 1));
            stackLen := stackLen - 1;
            assert stack[..stackLen] == f.stack[..stackLen] && stack[stackLen] == f.stack[stackLen];
            pc := if stack[stackLen] != cptr then next + val else next;
          } else {
            ret, resumed, pc, cptr, stackLen, left := GreedyOp(pc, cptr, stackLen, left, out);
            if !resumed { return; }
          }
        }
      }
    }
  }

  /** The depth that a reached configuration can have. */
  lemma RunningFits(m: Machine, f: Frame, max: nat)
    requires Inv(m, Running(f)) && ComputeStackSize(m.code, RE_HEADER_LEN, 0, 0) == Size(max)
    ensures |f.stack| <= max
  {
    hide DepthAt, ComputeStackSize;
    InvWithin(m, Running(f), max);
  }

  lemma StackFits(m: Machine, f: Frame, op: byte, max: nat)
    requires 0 <= f.pc < |m.code| && op == m.code[f.pc] && f.cptr <= |m.subject.chars|
    requires InstrSize(m.code, f.pc) != 0 && ExecBasic(m, f.pc, f.cptr).NotBasic?
    requires Inv(m, ExecOp(m, f)) && InstrOk(m, f.pc, |f.stack|)
    requires ComputeStackSize(m.code, RE_HEADER_LEN, 0, 0) == Size(max)
    ensures op == OP_PUSH_I32 || op == OP_PUSH_CHAR_POS ==> |f.stack| < max
    ensures op == OP_DROP || op == OP_LOOP || op == OP_BNE_CHAR_POS ==> 0 < |f.stack|
    ensures op == OP_SAVE_START || op == OP_SAVE_END ==> m.code[f.pc + 1] == 0
  {
    hide DepthAt, ComputeStackSize, Inv, GetU32, GreedyRun, ExecBasic;
    if op == OP_PUSH_I32 || op == OP_PUSH_CHAR_POS {
      RunningFits(m, ExecOp(m, f).frame, max);
    }
  }

  lemma GreedyStep(m: Machine, f: Frame, q: nat, e: nat)
    requires 0 <= f.pc && f.pc + 17 <= |m.code| && InstrSize(m.code, f.pc) == 17 && f.cptr <= |m.subject.chars|
    requires m.code[f.pc] == OP_SIMPLE_GREEDY_QUANT
    requires GreedyRun(m, f.pc + 17, f.cptr, GetU32(m.code, f.pc + 9), 0) == Some((q, e))
    ensures ExecOp(m, f) ==
      var min := GetU32(m.code, f.pc + 5);
      var f' := f.(pc := f.pc + 17 + Signed(GetU32(m.code, f.pc + 1)), cptr := e);
      if q < min then Failing(f.states)
      else if min < q then
        Running(f'.(states := f.states + [ExecState(GreedyState, q - min, e, f.pc + 1, f.capture, f.stack)]))
      else Running(f')
  {
    hide GetU32, GreedyRun;
  }

  /** The control opcodes, one by one. */
  lemma ControlStep(m: Machine, f: Frame, op: byte, next: nat)
    requires 0 <= f.pc < |m.code| && InstrSize(m.code, f.pc) != 0 && f.cptr <= |m.subject.chars| && |f.capture| == 2
    requires op == m.code[f.pc] && next == f.pc + InstrSize(m.code, f.pc)
    requires ExecBasic(m, f.pc, f.cptr).NotBasic? && InstrOk(m, f.pc, |f.stack|) && op != OP_MATCH
    ensures op in {OP_GOTO, OP_SPLIT_GOTO_FIRST, OP_SPLIT_NEXT_FIRST, OP_LOOKAHEAD, OP_NEGATIVE_LOOKAHEAD, OP_LOOP, OP_BNE_CHAR_POS, OP_PUSH_I32}
      ==> f.pc + 5 <= |m.code|
    ensures op in {OP_SAVE_START, OP_SAVE_END} ==> f.pc + 2 <= |m.code|
    ensures op !in {OP_GOTO, OP_SPLIT_GOTO_FIRST, OP_SPLIT_NEXT_FIRST, OP_LOOKAHEAD, OP_NEGATIVE_LOOKAHEAD, OP_LOOP, OP_BNE_CHAR_POS,
                    OP_PUSH_I32, OP_SAVE_START, OP_SAVE_END, OP_PUSH_CHAR_POS, OP_DROP}
      ==> op == OP_SIMPLE_GREEDY_QUANT && InstrSize(m.code, f.pc) == 17 && GreedyOk(m, f.pc)
    ensures op == OP_GOTO ==> ExecOp(m, f) == Running(f.(pc := Target(m.code, f.pc)))
    ensures op == OP_SPLIT_NEXT_FIRST ==> ExecOp(m, f) == Running(Push(f, SplitState, Target(m.code, f.pc)).(pc := next))
    ensures op == OP_SPLIT_GOTO_FIRST ==> ExecOp(m, f) == Running(Push(f, SplitState, next).(pc := Target(m.code, f.pc)))
    ensures op == OP_LOOKAHEAD ==> ExecOp(m, f) == Running(Push(f, LookaheadState, Target(m.code, f.pc)).(pc := next))
    ensures op == OP_NEGATIVE_LOOKAHEAD ==> ExecOp(m, f) == Running(Push(f, NegativeLookaheadState, Target(m.code, f.pc)).(pc := next))
    ensures op == OP_SAVE_START && m.code[f.pc + 1] == 0 ==> ExecOp(m, f) == Running(f.(pc := next, capture := f.capture[0 := Some(f.cptr)]))
    ensures op == OP_SAVE_END && m.code[f.pc + 1] == 0 ==> ExecOp(m, f) == Running(f.(pc := next, capture := f.capture[1 := Some(f.cptr)]))
    ensures op == OP_PUSH_I32 ==> ExecOp(m, f) == Running(f.(pc := next, stack := f.stack + [GetU32(m.code, f.pc + 1)]))
    ensures op == OP_PUSH_CHAR_POS ==> ExecOp(m, f) == Running(f.(pc := next, stack := f.stack + [f.cptr]))
    ensures op == OP_DROP && f.stack != [] ==> ExecOp(m, f) == Running(f.(pc := next, stack := f.stack[..|f.stack| - 1]))
    ensures op == OP_LOOP && f.stack != [] ==>
      var top := |f.stack| - 1;
      var v := Decrement(f.stack[top]);
      ExecOp(m, f) == Running(f.(pc := if v != 0 then Target(m.code, f.pc) else next, stack := f.stack[top := v]))
    ensures op == OP_BNE_CHAR_POS && f.stack != [] ==>
      var top := |f.stack| - 1;
      ExecOp(m, f) == Running(f.(pc := if f.stack[top] != f.cptr then Target(m.code, f.pc) else next, stack := f.stack[..top]))
  {
    hide GetU32, GreedyRun, ExecBasic, Ok;
    BasicTotal(m, f.pc, f.cptr);
  }

  /** What is known before an opcode is executed. */
  lemma FrameFacts(m: Machine, f: Frame)
    requires Sound(m) && Inv(m, Running(f))
    ensures 0 <= f.pc < |m.code| && InstrSize(m.code, f.pc) != 0 && f.cptr <= |m.subject.chars| && |f.capture| == 2
    ensures InstrOk(m, f.pc, |f.stack|) && Step(m, Running(f)) == ExecOp(m, f)
  {
    hide InstrOk, ExecOp;
    BoundaryFlows(m, f.pc, |f.stack|);
    InstrFits(m, f.pc, |f.stack|);
  }

  lemma InstrFits(m: Machine, q: nat, d: nat)
    requires InstrOk(m, q, d)
    ensures q < |m.code| && InstrSize(m.code, q) != 0
  {
  }

  lemma BasicStep(m: Machine, f: Frame)
    requires 0 <= f.pc < |m.code| && InstrSize(m.code, f.pc) != 0 && f.cptr <= |m.subject.chars|
    requires !ExecBasic(m, f.pc, f.cptr).NotBasic?
    ensures ExecOp(m, f) ==
      var b := ExecBasic(m, f.pc, f.cptr);
      if b.Go? then Running(f.(pc := b.pc, cptr := b.cptr)) else Failing(f.states)
  {
    hide ExecBasic, GetU32, GreedyRun;
  }

  lemma MatchStep(m: Machine, f: Frame)
    requires 0 <= f.pc < |m.code| && InstrSize(m.code, f.pc) != 0 && f.cptr <= |m.subject.chars|
    requires ExecBasic(m, f.pc, f.cptr).NotBasic? && m.code[f.pc] == OP_MATCH
    ensures ExecOp(m, f) == Matched(f.capture, f.states)
  {
    hide ExecBasic, GetU32, GreedyRun;
  }

  lemma SimpleStep(m: Machine, pc: nat, cptr: nat)
    requires cptr <= |m.subject.chars| && RunSimple(m, pc, cptr) != Stuck && pc < |m.code| && m.code[pc] != OP_MATCH
    ensures InstrSize(m.code, pc) != 0 && !ExecBasic(m, pc, cptr).NotBasic?
  {
  }

  lemma EmptyUnwind(m: Machine, s: Config, fuel: nat, out: Outcome)
    requires Eval(m, s, fuel) == Some(out) && (s == Failing([]) || (s.Matched? && s.states == []))
    ensures out == if s.Matched? then Some(s.capture) else None
  {
    assert Step(m, s).Stopped?;
    assert Eval(m, Step(m, s), fuel - 1) == Some(out);
  }

  lemma EvalNext(m: Machine, s: Config, fuel: nat, out: Outcome)
    requires Sound(m) && Inv(m, s) && Eval(m, s, fuel) == Some(out) && !s.Stopped?
    ensures 0 < fuel && Eval(m, Step(m, s), fuel - 1) == Some(out) && Inv(m, Step(m, s))
  {
    hide Inv, Step;
    StepKeeps(m, s);
  }

  /** What the top saved state does. */
  lemma UnwindIs(m: Machine, s: Config, capture: Captures, ret: bool, rs: ExecState, rest: seq<ExecState>)
    requires s == if ret then Matched(capture, rest + [rs]) else Failing(rest + [rs])
    ensures Step(m, s) ==
      if rs.kind == SplitState || rs.kind == GreedyState then
        (if ret then Matched(capture, rest)
         else if rs.kind == GreedyState then GiveBack(m, rs, rest)
         else Running(Frame(rs.pc, rs.cptr, rs.capture, rs.stack, rest)))
      else if rs.kind == LookaheadState then
        (if ret then Running(Frame(rs.pc, rs.cptr, capture, rs.stack, rest)) else Failing(rest))
      else
        (if ret then Failing(rest) else Running(Frame(rs.pc, rs.cptr, rs.capture, rs.stack, rest)))
  {
    assert (rest + [rs])[|rest|] == rs && (rest + [rs])[..|rest|] == rest;
  }

  lemma TopFits(m: Machine, s: Config, rs: ExecState, max: nat)
    requires Sound(m) && Inv(m, s) && (s.Matched? || s.Failing?) && s.states != [] && rs == s.states[|s.states| - 1]
    requires ComputeStackSize(m.code, RE_HEADER_LEN, 0, 0) == Size(max)
    ensures |rs.stack| <= max && |rs.capture| == 2
    ensures rs.kind == GreedyState ==>
      && 0 <= rs.pc && rs.pc + 16 <= |m.code| && GetU32(m.code, rs.pc + 12) <= rs.cptr && 0 < rs.count
  {
    assert StateOk(m, rs);
    SavedFits(m, rs, max);
    if rs.kind == GreedyState {
      BoundaryFlows(m, rs.pc - 1, |rs.stack|);
      MulMonotone(GetU32(m.code, rs.pc + 12), 1, rs.count);
    }
  }

  lemma SavedFits(m: Machine, rs: ExecState, max: nat)
    requires Sound(m) && StateOk(m, rs) && ComputeStackSize(m.code, RE_HEADER_LEN, 0, 0) == Size(max)
    ensures |rs.stack| <= max && |rs.capture| == 2
  {
    if rs.kind == GreedyState {
      PassCoversDepths(m.code, RE_HEADER_LEN, 0, 0, rs.pc - 1);
    } else {
      PassCoversDepths(m.code, RE_HEADER_LEN, 0, 0, rs.pc);
    }
  }

  /**
   lre_exec: returns whether there is a match at or after `cindex`, and then `capture` holds the
   leftmost one, with the end that has the highest priority.  The header says how '^' and '$' match.
   RegexProgram.ProgramEnds says that nothing is returned for a search that goes round.
   */
  method LreExec(capture: array<Option<nat>>, bcBuf: seq<byte>, cbuf: seq<nat>, cindex: nat, ghost r: Regex, ghost sticky: bool)
    returns (ret: bool)
    requires Parsed(r) && Compiled(bcBuf, r, sticky) && capture.Length == 2
    requires CodeUnits(SubjectOf(bcBuf, cbuf)) && cindex <= |cbuf|
    requires !FindMatch(SubjectOf(bcBuf, cbuf), r, sticky, cindex).Circles?
    modifies capture
    ensures ret <==> FirstMatch(SubjectOf(bcBuf, cbuf), r, sticky, cindex).Some?
    ensures ret ==>
      capture[..] == (var f := FirstMatch(SubjectOf(bcBuf, cbuf), r, sticky, cindex); [Some(f.value.0), Some(f.value.1)])
  {
    hide FirstMatch, FindMatch, ComputeStackSize, Code, Sound, Inv;
    var subject := SubjectOf(bcBuf, cbuf);
    var m := Machine(bcBuf, subject);
    ghost var out := Result(FirstMatch(subject, r, sticky, cindex));
    for i := 0 to capture.Length
      invariant forall k :: 0 <= k < i ==> capture[k] == None
    {
      capture[i] := None;
    }
    var stackBuf := new nat[bcBuf[2] as int];
    var s := new ReExecContext(m, capture, stackBuf);
    StartIsFine(m, r, sticky, cindex);
    ghost var fuel: nat :| Eval(m, Start(cindex), fuel) == Some(out);
    assert capture[..] == [None, None];
    assert s.Here(RE_HEADER_LEN, cindex, 0) == Start(cindex);
    ret := s.LreExecBacktrack(RE_HEADER_LEN, cindex, fuel, out);
  }

  /** What lre_compile produces: the program of `r`, with the size of its evaluation stack in the header. */
  ghost predicate Compiled(code: seq<byte>, r: Regex, sticky: bool)
    requires Parsed(r)
  {
    && RE_HEADER_LEN < |code| < TWO31 && code == Program(r, sticky, code[0], code[2])
    && ComputeStackSize(code, RE_HEADER_LEN, 0, 0) == Size(code[2] as int)
  }

  /** The subject string, with the flag in the header. */
  function SubjectOf(code: seq<byte>, cbuf: seq<nat>): Subject
    requires RE_HEADER_LEN < |code|
  {
    Subject(cbuf, IsSet(code[0], LRE_FLAG_MULTILINE))
  }

  lemma StartIsFine(m: Machine, r: Regex, sticky: bool, i: nat)
    requires Parsed(r) && CodeUnits(m.subject) && i <= |m.subject.chars| && Compiled(m.code, r, sticky)
    requires !FindMatch(m.subject, r, sticky, i).Circles?
    ensures Sound(m) && Inv(m, Start(i))
    ensures Evals(m, Start(i), Result(FirstMatch(m.subject, r, sticky, i)))
  {
    ProgramIsSound(r, sticky, m.code[0], m.code[2], m.subject);
    ProgramFindsFirstMatch(r, sticky, m.code[0], m.code[2], m.subject, i);
  }
}
