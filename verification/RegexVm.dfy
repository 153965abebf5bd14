/**
 The backtracking interpreter lre_exec_backtrack as a transition system.  A configuration is either
 about to execute the opcode at `pc`, or unwinding the stack of saved states after a match or a
 failure.
 */
module RegexVm {
  import opened Wrappers
  import opened RegexSyntax
  import opened RegexBytecode

  datatype Machine = Machine(code: seq<byte>, subject: Subject)

  type Captures = seq<Option<nat>>

  datatype StateKind = SplitState | LookaheadState | NegativeLookaheadState | GreedyState

  /** REExecState: what push_state saves. */
  datatype ExecState = ExecState(kind: StateKind, count: nat, cptr: nat, pc: int, capture: Captures, stack: seq<nat>)

  /** The local variables of the interpreter, and the saved states. */
  datatype Frame = Frame(pc: int, cptr: nat, capture: Captures, stack: seq<nat>, states: seq<ExecState>)

  datatype Config =
    | Running(frame: Frame)
    | Matched(capture: Captures, states: seq<ExecState>)
    | Failing(states: seq<ExecState>)
    | Stopped(result: Option<Captures>)
    | Aborted

  /** The effect of an opcode that neither jumps nor touches a stack. */
  datatype Basic = Go(pc: nat, cptr: nat) | Reject | NotBasic

  function Bool(b: bool, pc: nat, cptr: nat): Basic {
    if b then Go(pc, cptr) else Reject
  }

  /** Where number `j` of a range table starts: 2 or 4 bytes each. */
  function Slot(tab: nat, wide: bool, j: nat): nat {
    tab + if wide then 4 * j else 2 * j
  }

  function TableValue(code: seq<byte>, tab: nat, wide: bool, j: nat): nat
    requires Slot(tab, wide, j + 1) <= |code|
  {
    if wide then GetU32(code, Slot(tab, wide, j)) else GetU16(code, Slot(tab, wide, j))
  }

  /** The `n` intervals of a range table: low and high bounds in turn, both inclusive. */
  function Table(code: seq<byte>, tab: nat, wide: bool, n: nat): (t: seq<nat>)
    requires Slot(tab, wide, 2 * n) <= |code|
    ensures |t| == 2 * n
  {
    seq(2 * n, j requires 0 <= j < 2 * n => TableValue(code, tab, wide, j))
  }

  /** The binary search of REOP_range and REOP_range32 over the intervals lo..hi. */
  function Search(t: seq<nat>, c: nat, lo: int, hi: int): bool
    requires 0 <= lo && -1 <= hi && 2 * (hi + 1) <= |t|
    decreases hi - lo + 1
  {
    if hi < lo then false
    else
      var idx := (lo + hi) / 2;
      if c < t[2 * idx] then Search(t, c, lo, idx - 1)
      else if t[2 * idx + 1] < c then Search(t, c, idx + 1, hi)
      else true
  }

  predicate InTable(t: seq<nat>, wide: bool, n: nat, c: nat)
    requires 1 <= n && 2 * n <= |t|
  {
    var high := t[2 * n - 1];
    if c < t[0] then false
    else if !wide && 0xffff <= c && high == 0xffff then true
    else if high < c then false
    else Search(t, c, 0, n - 1)
  }

  function ExecBasic(m: Machine, pc: nat, cptr: nat): (b: Basic)
    requires cptr <= |m.subject.chars|
    ensures b.Go? ==> pc < b.pc <= |m.code| && b.cptr <= |m.subject.chars|
  {
    var chars := m.subject.chars;
    var size := InstrSize(m.code, pc);
    if size == 0 then NotBasic
    else
      var op := m.code[pc];
      var next := pc + size;
      if IsCharOp(op) then
        if (op == OP_RANGE || op == OP_RANGE32) && GetU16(m.code, pc + 1) == 0 then NotBasic
        else if |chars| <= cptr then Reject
        else
          var c := chars[cptr];
          if op == OP_CHAR then Bool(GetU16(m.code, pc + 1) == c, next, cptr + 1)
          else if op == OP_CHAR32 then Bool(GetU32(m.code, pc + 1) == c, next, cptr + 1)
          else if op == OP_DOT then Bool(!IsLineTerminator(c), next, cptr + 1)
          else if op == OP_ANY then Go(next, cptr + 1)
          else
            var n := GetU16(m.code, pc + 1);
            Bool(InTable(Table(m.code, pc + 3, op == OP_RANGE32, n), op == OP_RANGE32, n, c), next, cptr + 1)
      else if op == OP_LINE_START then Bool(Holds(m.subject, LineStart, cptr), next, cptr)
      else if op == OP_LINE_END then Bool(Holds(m.subject, LineEnd, cptr), next, cptr)
      else if op == OP_WORD_BOUNDARY then Bool(WordAt(m.subject, cptr - 1) != WordAt(m.subject, cptr), next, cptr)
      else if op == OP_NOT_WORD_BOUNDARY then Bool(WordAt(m.subject, cptr - 1) == WordAt(m.subject, cptr), next, cptr)
      else if op == OP_PREV then if cptr == 0 then Reject else Go(next, cptr - 1)
      else NotBasic
  }

  datatype Simple = Advanced(cptr: nat) | Refused | Stuck

  /** The nested call with `no_recurse` set: straight-line code up to `match`. */
  function RunSimple(m: Machine, pc: nat, cptr: nat): (r: Simple)
    requires cptr <= |m.subject.chars|
    ensures r.Advanced? ==> r.cptr <= |m.subject.chars|
    decreases |m.code| - pc
  {
    if |m.code| <= pc then Stuck
    else if m.code[pc] == OP_MATCH then Advanced(cptr)
    else
      match ExecBasic(m, pc, cptr)
      case Go(pc', cptr') => RunSimple(m, pc', cptr')
      case Reject => Refused
      case NotBasic => Stuck
  }

  /**
   The loop of REOP_simple_greedy_quant: how often the atom matched, and where that ends.  None
   when the loop would not end.
   */
  function GreedyRun(m: Machine, pc: nat, cptr: nat, max: nat, q: nat): (r: Option<(nat, nat)>)
    requires cptr <= |m.subject.chars|
    ensures r.Some? ==> r.value.1 <= |m.subject.chars| && q <= r.value.0
    decreases |m.subject.chars| - cptr
  {
    match RunSimple(m, pc, cptr)
    case Stuck => None
    case Refused => Some((q, cptr))
    case Advanced(cptr') =>
      if max <= q + 1 && max != INT32_MAX then Some((q + 1, cptr'))
      else if cptr' <= cptr then None
      else GreedyRun(m, pc, cptr', max, q + 1)
  }

  function Decrement(v: nat): nat {
    if v == 0 then UINT32_MAX else v - 1
  }

  function Push(s: Frame, kind: StateKind, pc: int): Frame {
    s.(states := s.states + [ExecState(kind, 0, s.cptr, pc, s.capture, s.stack)])
  }

  function ExecOp(m: Machine, s: Frame): Config
    requires 0 <= s.pc && s.cptr <= |m.subject.chars|
  {
    var size := InstrSize(m.code, s.pc);
    if size == 0 then Aborted
    else
      var op := m.code[s.pc];
      var next := s.pc + size;
      var target := if OpSize(op) < 5 then next else next + Signed(GetU32(m.code, s.pc + 1));
      match ExecBasic(m, s.pc, s.cptr)
      case Go(pc', cptr') => Running(s.(pc := pc', cptr := cptr'))
      case Reject => Failing(s.states)
      case NotBasic =>
        if op == OP_MATCH then Matched(s.capture, s.states)
        else if op == OP_GOTO then Running(s.(pc := target))
        else if op == OP_SPLIT_NEXT_FIRST then
          Running(Push(s, SplitState, target).(pc := next))
        else if op == OP_SPLIT_GOTO_FIRST then
          Running(Push(s, SplitState, next).(pc := target))
        else if op == OP_LOOKAHEAD then
          Running(Push(s, LookaheadState, target).(pc := next))
        else if op == OP_NEGATIVE_LOOKAHEAD then
          Running(Push(s, NegativeLookaheadState, target).(pc := next))
        else if op == OP_SAVE_START || op == OP_SAVE_END then
          var k := 2 * (m.code[s.pc + 1] as int) + (if op == OP_SAVE_START then 0 else 1);
          if k < |s.capture| then Running(s.(pc := next, capture := s.capture[k := Some(s.cptr)])) else Aborted
        else if op == OP_PUSH_I32 then Running(s.(pc := next, stack := s.stack + [GetU32(m.code, s.pc + 1)]))
        else if op == OP_PUSH_CHAR_POS then Running(s.(pc := next, stack := s.stack + [s.cptr]))
        else if op == OP_DROP then
          if s.stack == [] then Aborted else Running(s.(pc := next, stack := s.stack[..|s.stack| - 1]))
        else if op == OP_LOOP then
          if s.stack == [] then Aborted
          else
            var top := |s.stack| - 1;
            var v := Decrement(s.stack[top]);
            Running(s.(pc := if v != 0 then target else next, stack := s.stack[top := v]))
        else if op == OP_BNE_CHAR_POS then
          if s.stack == [] then Aborted
          else
            var top := |s.stack| - 1;
            Running(s.(pc := if s.stack[top] != s.cptr then target else next, stack := s.stack[..top]))
        else if op == OP_SIMPLE_GREEDY_QUANT then
          var min := GetU32(m.code, s.pc + 5);
          match GreedyRun(m, next, s.cptr, GetU32(m.code, s.pc + 9), 0)
          case None => Aborted
          case Some((q, cptr')) =>
            var s' := s.(pc := target, cptr := cptr');
            if q < min then Failing(s.states)
            else if min < q then
              Running(s'.(states := s.states + [ExecState(GreedyState, q - min, cptr', s.pc + 1, s.capture, s.stack)]))
            else Running(s')
        else Aborted
  }

  /** Resume at a saved state. */
  function Resume(rs: ExecState, capture: Captures, states: seq<ExecState>): Config {
    Running(Frame(rs.pc, rs.cptr, capture, rs.stack, states))
  }

  /** A saved greedy loop gives back one iteration of its atom. */
  function GiveBack(m: Machine, rs: ExecState, states: seq<ExecState>): Config {
    if rs.pc < 0 || |m.code| < rs.pc + 16 then Aborted
    else
      var step := GetU32(m.code, rs.pc + 12);
      if rs.cptr < step || rs.count == 0 then Aborted
      else
        var cptr := rs.cptr - step;
        Running(Frame(rs.pc + 16 + Signed(GetU32(m.code, rs.pc)), cptr, rs.capture, rs.stack,
                      if rs.count == 1 then states else states + [rs.(cptr := cptr, count := rs.count - 1)]))
  }

  function Step(m: Machine, s: Config): Config {
    match s
    case Running(f) =>
      if f.pc < 0 || |m.subject.chars| < f.cptr then Aborted else ExecOp(m, f)
    case Failing(states) =>
      if states == [] then Stopped(None)
      else
        var rs, rest := states[|states| - 1], states[..|states| - 1];
        (match rs.kind
         case SplitState => Resume(rs, rs.capture, rest)
         case GreedyState => GiveBack(m, rs, rest)
         case LookaheadState => Failing(rest)
         case NegativeLookaheadState => Resume(rs, rs.capture, rest))
    case Matched(capture, states) =>
      if states == [] then Stopped(Some(capture))
      else
        var rs, rest := states[|states| - 1], states[..|states| - 1];
        (match rs.kind
         case SplitState => Matched(capture, rest)
         case GreedyState => Matched(capture, rest)
         case LookaheadState => Resume(rs, capture, rest)
         case NegativeLookaheadState => Failing(rest))
    case Stopped(_) => s
    case Aborted => s
  }

  /** The result of a run of at most `fuel` steps. */
  function Eval(m: Machine, s: Config, fuel: nat): Option<Option<Captures>>
    decreases fuel
  {
    if s.Stopped? then Some(s.result)
    else if fuel == 0 then None
    else Eval(m, Step(m, s), fuel - 1)
  }

  /** The run from `s` ends, with result `o`. */
  ghost predicate Evals(m: Machine, s: Config, o: Option<Captures>) {
    exists fuel: nat :: Eval(m, s, fuel) == Some(o)
  }

  lemma EvalsStep(m: Machine, s: Config, o: Option<Captures>)
    requires Evals(m, Step(m, s), o)
    ensures Evals(m, s, o)
  {
    var fuel: nat :| Eval(m, Step(m, s), fuel) == Some(o);
    if s.Stopped? {
      assert Step(m, s) == s;
    } else {
      assert Eval(m, s, fuel + 1) == Some(o);
    }
  }

  lemma {:induction false} EvalUnique(m: Machine, s: Config, f: nat, g: nat)
    requires Eval(m, s, f).Some? && Eval(m, s, g).Some?
    ensures Eval(m, s, f) == Eval(m, s, g)
    decreases f
  {
    if !s.Stopped? {
      EvalUnique(m, Step(m, s), f - 1, g - 1);
    }
  }
}
