/**
 What every step of every run keeps: the interpreter is at an instruction boundary, its evaluation
 stack has the depth that the compiler computed for that boundary, and it never gets stuck.
 */
module RegexSafety {
  import opened Wrappers
  import opened RegexSyntax
  import opened RegexBytecode
  import opened RegexVm
  import opened RegexAtoms
  import opened RegexSimple
  import opened RegexProgram
  import opened RegexStack

  ghost predicate StateOk(m: Machine, rs: ExecState) {
    && rs.cptr <= |m.subject.chars| && |rs.capture| == 2
    && if rs.kind == GreedyState then GreedyStateOk(m, rs)
       else Ok(m.code, rs.pc, |rs.stack|)
  }

  /** A saved counted loop can still give back `count` iterations. */
  ghost predicate GreedyStateOk(m: Machine, rs: ExecState) {
    && 1 <= rs.pc && Ok(m.code, rs.pc - 1, |rs.stack|) && m.code[rs.pc - 1] == OP_SIMPLE_GREEDY_QUANT
    && InstrSize(m.code, rs.pc - 1) == 17
    && 0 < rs.count && GetU32(m.code, rs.pc + 12) * rs.count <= rs.cptr
  }

  ghost predicate StatesOk(m: Machine, states: seq<ExecState>) {
    forall k :: 0 <= k < |states| ==> StateOk(m, states[k])
  }

  ghost predicate FrameOk(m: Machine, f: Frame) {
    Ok(m.code, f.pc, |f.stack|) && f.cptr <= |m.subject.chars| && |f.capture| == 2 && StatesOk(m, f.states)
  }

  /** What holds of every configuration that a run reaches. */
  ghost predicate Inv(m: Machine, s: Config) {
    match s
    case Running(f) => FrameOk(m, f)
    case Matched(capture, states) => |capture| == 2 && StatesOk(m, states)
    case Failing(states) => StatesOk(m, states)
    case Stopped(_) => true
    case Aborted => false
  }

  /** A machine whose program has passed the compiler. */
  ghost predicate Sound(m: Machine) {
    FlowIn(m, RE_HEADER_LEN, |m.code|) && |m.code| < TWO31 && CodeUnits(m.subject)
  }

  lemma {:induction false} NotBefore(code: seq<byte>, p: nat, d: nat, q: nat)
    requires DepthAt(code, p, d, q).Some?
    ensures p <= q
    decreases |code| - p
  {
  }

  lemma BoundaryFlows(m: Machine, q: int, d: int)
    requires Sound(m) && Ok(m.code, q, d)
    ensures 0 <= q && 0 <= d && InstrOk(m, q, d)
  {
    NotBefore(m.code, RE_HEADER_LEN, 0, q);
  }

  lemma BasicTotal(m: Machine, q: nat, i: nat)
    requires q < |m.code| && InstrSize(m.code, q) != 0 && i <= |m.subject.chars|
    requires IsBasicOp(m.code[q]) ==> (m.code[q] == OP_RANGE || m.code[q] == OP_RANGE32 ==> GetU16(m.code, q + 1) != 0)
    ensures IsBasicOp(m.code[q]) <==> !ExecBasic(m, q, i).NotBasic?
    ensures ExecBasic(m, q, i).Go? ==> ExecBasic(m, q, i).pc == q + InstrSize(m.code, q)
  {
    hide InTable, Table, GetU16, GetU32;
  }

  lemma PushedOk(m: Machine, states: seq<ExecState>, rs: ExecState)
    requires StatesOk(m, states) && StateOk(m, rs)
    ensures StatesOk(m, states + [rs])
  {
  }

  /** One opcode. */
  lemma OpKeeps(m: Machine, f: Frame)
    requires Sound(m) && FrameOk(m, f)
    ensures Inv(m, ExecOp(m, f))
  {
    hide Ok, ExecBasic, GetU32, GetU16, InstrSize, StateOk, StatesOk, GreedyRun;
    BoundaryFlows(m, f.pc, |f.stack|);
    BoundaryInside(m, f.pc, |f.stack|);
    BasicTotal(m, f.pc, f.cptr);
    var op := m.code[f.pc];
    if op == OP_SPLIT_GOTO_FIRST || op == OP_SPLIT_NEXT_FIRST || op == OP_LOOKAHEAD || op == OP_NEGATIVE_LOOKAHEAD {
      BranchKeeps(m, f);
    } else if op == OP_SIMPLE_GREEDY_QUANT {
      GreedyKeeps(m, f);
    } else if op == OP_DROP || op == OP_BNE_CHAR_POS {
      BoundaryInside(m, f.pc + InstrSize(m.code, f.pc), |f.stack| - 1);
    }
  }

  lemma BoundaryInside(m: Machine, q: int, d: int)
    requires Ok(m.code, q, d)
    ensures 0 <= q < |m.code| && 0 <= d
  {
  }

  lemma BranchKeeps(m: Machine, f: Frame)
    requires Sound(m) && FrameOk(m, f) && 0 <= f.pc < |m.code| && InstrOk(m, f.pc, |f.stack|)
    requires m.code[f.pc] in {OP_SPLIT_GOTO_FIRST, OP_SPLIT_NEXT_FIRST, OP_LOOKAHEAD, OP_NEGATIVE_LOOKAHEAD}
    ensures Inv(m, ExecOp(m, f))
  {
    hide Ok, ExecBasic, GetU32, GetU16, InstrSize, StatesOk, GreedyRun;
    BasicTotal(m, f.pc, f.cptr);
    var next, target := f.pc + InstrSize(m.code, f.pc), Target(m.code, f.pc);
    forall kind, pc | kind != GreedyState && Ok(m.code, pc, |f.stack|)
      ensures StatesOk(m, f.states + [ExecState(kind, 0, f.cptr, pc, f.capture, f.stack)])
    {
      PushedOk(m, f.states, ExecState(kind, 0, f.cptr, pc, f.capture, f.stack));
    }
  }

  lemma GreedyKeeps(m: Machine, f: Frame)
    requires Sound(m) && FrameOk(m, f) && 0 <= f.pc < |m.code| && InstrOk(m, f.pc, |f.stack|)
    requires m.code[f.pc] == OP_SIMPLE_GREEDY_QUANT
    ensures Inv(m, ExecOp(m, f))
  {
    hide Ok, ExecBasic, GetU32, GetU16, StatesOk, GreedyRun, Atom, Iterate, Visited;
    BasicTotal(m, f.pc, f.cptr);
    var n, min, max := GetU32(m.code, f.pc + 13), GetU32(m.code, f.pc + 5), GetU32(m.code, f.pc + 9);
    var r :| LoopsOver(m, f.pc, r);
    GreedyEnds(m, r, f.pc + 17, n, f.cptr, min, max, 0);
    var Some((q, e)) := GreedyRun(m, f.pc + 17, f.cptr, max, 0);
    if min < q {
      MulMonotone(n, q - min, q);
      var rs := ExecState(GreedyState, q - min, e, f.pc + 1, f.capture, f.stack);
      assert StateOk(m, rs);
      PushedOk(m, f.states, rs);
    }
  }

  /** Going back to a saved state. */
  lemma UnwindKeeps(m: Machine, s: Config)
    requires Sound(m) && Inv(m, s) && (s.Failing? || s.Matched?)
    ensures Inv(m, Step(m, s))
  {
    hide Ok, GetU32;
    if s.states != [] {
      var rs, rest := s.states[|s.states| - 1], s.states[..|s.states| - 1];
      assert StateOk(m, rs);
      assert StatesOk(m, rest);
      if s.Failing? && rs.kind == GreedyState {
        GiveBackKeeps(m, rs, rest);
      }
    }
  }

  lemma GiveBackKeeps(m: Machine, rs: ExecState, rest: seq<ExecState>)
    requires Sound(m) && StateOk(m, rs) && rs.kind == GreedyState && StatesOk(m, rest)
    ensures Inv(m, GiveBack(m, rs, rest))
  {
    hide Ok, GetU32;
    var q := rs.pc - 1;
    BoundaryFlows(m, q, |rs.stack|);
    var n := GetU32(m.code, rs.pc + 12);
    MulMonotone(n, 1, rs.count);
    assert n * (rs.count - 1) == n * rs.count - n;
    if rs.count != 1 {
      PushedOk(m, rest, rs.(cptr := rs.cptr - n, count := rs.count - 1));
    }
  }

  lemma StepKeeps(m: Machine, s: Config)
    requires Sound(m) && Inv(m, s)
    ensures Inv(m, Step(m, s))
  {
    hide Ok, ExecOp, GiveBack, StatesOk;
    match s
    case Running(f) =>
      BoundaryInside(m, f.pc, |f.stack|);
      OpKeeps(m, f);
    case Matched(_, _) => UnwindKeeps(m, s);
    case Failing(_) => UnwindKeeps(m, s);
    case Stopped(_) =>
    case Aborted =>
  }

  function Steps(m: Machine, s: Config, n: nat): Config
    decreases n
  {
    if n == 0 then s else Steps(m, Step(m, s), n - 1)
  }

  lemma {:induction false} RunKeeps(m: Machine, s: Config, n: nat)
    requires Sound(m) && Inv(m, s)
    ensures Inv(m, Steps(m, s, n))
    decreases n
  {
    hide Inv, Step;
    if n != 0 {
      StepKeeps(m, s);
      RunKeeps(m, Step(m, s), n - 1);
    }
  }

  /** The depth of the evaluation stack of a configuration, saved states included. */
  ghost predicate StacksWithin(s: Config, max: nat) {
    match s
    case Running(f) => |f.stack| <= max && forall k :: 0 <= k < |f.states| ==> |f.states[k].stack| <= max
    case Matched(_, states) => forall k :: 0 <= k < |states| ==> |states[k].stack| <= max
    case Failing(states) => forall k :: 0 <= k < |states| ==> |states[k].stack| <= max
    case _ => true
  }

  lemma InvWithin(m: Machine, s: Config, max: nat)
    requires Inv(m, s) && ComputeStackSize(m.code, RE_HEADER_LEN, 0, 0) == Size(max)
    ensures StacksWithin(s, max)
  {
    hide DepthAt, ComputeStackSize;
    forall q: int, d: nat | Ok(m.code, q, d) ensures d <= max {
      PassCoversDepths(m.code, RE_HEADER_LEN, 0, 0, q);
    }
  }

  // ---------------------------------------------------------------- compiled programs are sound

  lemma SaveFlow(m: Machine, p: nat, op: byte)
    requires op == OP_SAVE_START || op == OP_SAVE_END
    requires At(m.code, p, [op, 0]) && Ok(m.code, p, 0) && p + 2 < |m.code|
    ensures Framed(m, p, 0, p + 2)
  {
    var w := m.code[p..p + 2];
    assert m.code[p] == w[0] && m.code[p + 1] == w[1];
    hide DepthAt;
    NextOk(m.code, p, 0);
    FlowOne(m, p, 0);
  }

  lemma PatternFlow(m: Machine, r: Regex, p: nat)
    requires Parsed(r) && PatternAt(m, r, p) && p + 5 + |Code(r, false)| == |m.code| < TWO31
    requires Ok(m.code, p, 0) && CodeUnits(m.subject)
    ensures FlowIn(m, p, |m.code|) && Ok(m.code, |m.code| - 1, 0)
  {
    hide Code, Ok, FlowIn, InstrSize;
    var x := Code(r, false);
    var q := p + 2 + |x|;
    AtSplit(m.code, p, [OP_SAVE_START, 0] + x + [OP_SAVE_END, 0], [OP_MATCH]);
    AtSplit(m.code, p, [OP_SAVE_START, 0] + x, [OP_SAVE_END, 0]);
    AtSplit(m.code, p, [OP_SAVE_START, 0], x);
    SaveFlow(m, p, OP_SAVE_START);
    FragmentFlow(m, r, false, p + 2, 0);
    SaveFlow(m, q, OP_SAVE_END);
    ByteOp(m, q + 2, OP_MATCH);
    FlowOne(m, q + 2, 0);
    FlowJoin(m, q, q + 2, q + 3);
    FlowJoin(m, p + 2, q, q + 3);
    FlowJoin(m, p, p + 2, q + 3);
  }

  lemma SearchFlow(m: Machine, p: nat)
    requires At(m.code, p, SEARCH_LOOP) && Ok(m.code, p, 0) && p + 11 < |m.code| < TWO31 && CodeUnits(m.subject)
    ensures Framed(m, p, 0, p + 11)
  {
    hide Op32, Ok, FlowIn, InstrSize, Target, GetU32;
    AtSplit(m.code, p, Op32(OP_SPLIT_GOTO_FIRST, 6) + [OP_ANY], Op32(OP_GOTO, -11));
    AtSplit(m.code, p, Op32(OP_SPLIT_GOTO_FIRST, 6), [OP_ANY]);
    JumpOp(m, p, OP_SPLIT_GOTO_FIRST, 6);
    NextOk(m.code, p, 0);
    ByteOp(m, p + 5, OP_ANY);
    NextOk(m.code, p + 5, 0);
    JumpOp(m, p + 6, OP_GOTO, -11);
    NextOk(m.code, p + 6, 0);
    FlowOne(m, p, 0);
    FlowOne(m, p + 5, 0);
    FlowOne(m, p + 6, 0);
    FlowJoin(m, p + 5, p + 6, p + 11);
    FlowJoin(m, p, p + 5, p + 11);
  }

  lemma ProgramIsSound(r: Regex, sticky: bool, flags: byte, stackSize: byte, s: Subject)
    requires Parsed(r) && |Program(r, sticky, flags, stackSize)| < TWO31 && CodeUnits(s)
    ensures var m := Machine(Program(r, sticky, flags, stackSize), s);
      Sound(m) && Ok(m.code, RE_HEADER_LEN, 0) && Ok(m.code, |m.code| - 1, 0)
  {
    hide Code, DepthAt, FlowIn, SEARCH_LOOP;
    var m := Machine(Program(r, sticky, flags, stackSize), s);
    ProgramLayout(r, sticky, flags, stackSize);
    StartOk(m.code);
    SearchLoopLength();
    if sticky {
      PatternFlow(m, r, RE_HEADER_LEN);
    } else {
      SearchFlow(m, RE_HEADER_LEN);
      PatternFlow(m, r, RE_HEADER_LEN + 11);
      FlowJoin(m, RE_HEADER_LEN, RE_HEADER_LEN + 11, |m.code|);
    }
  }

  lemma SearchLoopLength()
    ensures |SEARCH_LOOP| == 11
  {
  }

  lemma StartOk(code: seq<byte>)
    requires RE_HEADER_LEN < |code|
    ensures Ok(code, RE_HEADER_LEN, 0)
  {
  }

  lemma {:induction false} PassSucceeds(code: seq<byte>, p: nat, d: nat, max: nat, q: nat)
    requires DepthAt(code, p, d, q) == Some(0) && q + 1 == |code| && code[q] == OP_MATCH
    ensures ComputeStackSize(code, p, d, max) != AssertionFails
    decreases |code| - p
  {
    if p == q {
      assert InstrSize(code, q) == 1;
    } else {
      var d' := d + Effect(code[p]);
      PassSucceeds(code, p + InstrSize(code, p), d', if d' > max then d' else max, q);
    }
  }

  /**
   Safety over whole runs, for every pattern the parser accepts and every subject: no configuration
   that lre_exec reaches is stuck, each is at an instruction boundary, and no evaluation stack,
   saved ones included, is deeper than the size that lre_compile stores in the header.
   */
  lemma RunsAreSafe(r: Regex, sticky: bool, flags: byte, stackSize: byte, s: Subject, start: nat, n: nat)
    requires Parsed(r) && |Program(r, sticky, flags, stackSize)| < TWO31 && CodeUnits(s) && start <= |s.chars|
    ensures var m := Machine(Program(r, sticky, flags, stackSize), s);
      var reached := Steps(m, Start(start), n);
      var pass := ComputeStackSize(m.code, RE_HEADER_LEN, 0, 0);
      && !reached.Aborted?
      && (reached.Running? ==> Ok(m.code, reached.frame.pc, |reached.frame.stack|))
      && pass != AssertionFails
      && (pass.Size? ==> StacksWithin(reached, pass.n) && pass.n <= STACK_SIZE_MAX)
  {
    hide Code, DepthAt, ComputeStackSize, Sound, Step, Body, Header;
    var m := Machine(Program(r, sticky, flags, stackSize), s);
    ProgramIsSound(r, sticky, flags, stackSize, s);
    assert StatesOk(m, []);
    RunKeeps(m, Start(start), n);
    LastIsMatch(r, sticky, flags, stackSize);
    PassSucceeds(m.code, RE_HEADER_LEN, 0, 0, |m.code| - 1);
    var pass := ComputeStackSize(m.code, RE_HEADER_LEN, 0, 0);
    if pass.Size? {
      InvWithin(m, Steps(m, Start(start), n), pass.n);
      PassBounded(m.code, RE_HEADER_LEN, 0, 0);
    }
  }

  lemma LastIsMatch(r: Regex, sticky: bool, flags: byte, stackSize: byte)
    requires Parsed(r)
    ensures var prog := Program(r, sticky, flags, stackSize); prog[|prog| - 1] == OP_MATCH
  {
  }
}
