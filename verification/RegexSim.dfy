/**
 Running code and failing: the relation by which the emitted code is proved correct, and how each
 control opcode acts on it.
 */
module RegexSim {
  import opened Wrappers
  import opened RegexSyntax
  import opened RegexBytecode
  import opened RegexVm

  type Outcome = Option<Captures>

  /** What becomes of a run: it is over, with an outcome, or it is not over after `n` steps. */
  datatype Fate = Over(result: Outcome) | Late(n: nat)

  ghost predicate Comes(m: Machine, s: Config, f: Fate) {
    match f
    case Over(o) => Evals(m, s, o)
    case Late(n) => Eval(m, s, n).None?
  }

  lemma {:induction false} MoreFuel(m: Machine, s: Config, n: nat)
    requires Eval(m, s, n).Some?
    ensures Eval(m, s, n + 1) == Eval(m, s, n)
    decreases n
  {
    if !s.Stopped? { MoreFuel(m, Step(m, s), n - 1); }
  }

  lemma ComesStep(m: Machine, s: Config, f: Fate)
    requires Comes(m, Step(m, s), f)
    ensures Comes(m, s, f)
  {
    match f
    case Over(o) => EvalsStep(m, s, o);
    case Late(n) =>
      if s.Stopped? {
        assert Step(m, s) == s;
      } else if 0 < n && Eval(m, Step(m, s), n - 1).Some? {
        MoreFuel(m, Step(m, s), n - 1);
      }
  }

  /** A step that is made counts. */
  lemma LateStep(m: Machine, s: Config, n: nat)
    requires Eval(m, Step(m, s), n).None? && !s.Stopped?
    ensures Eval(m, s, n + 1).None?
  {
  }

  /** What stays fixed while a fragment runs: the saved states `base` below it belong to others. */
  datatype Ctx = Ctx(m: Machine, cap: Captures, stk: seq<nat>, base: seq<ExecState>)

  predicate IsChoice(rs: ExecState) {
    rs.kind == SplitState || rs.kind == GreedyState
  }

  /** `states` is `base` with choice points of the current fragment on top. */
  ghost predicate Above(states: seq<ExecState>, base: seq<ExecState>) {
    base <= states && forall k :: |base| <= k < |states| ==> IsChoice(states[k])
  }

  function Conf(c: Ctx, pc: int, i: nat, states: seq<ExecState>): Config {
    Running(Frame(pc, i, c.cap, c.stk, states))
  }

  /**
   From `pc` at index `i`, whatever choice points are saved: the run ends with the outcome in `k`,
   or, if there is none, it goes on as a failure at `pc` would.
   */
  ghost predicate Runs(c: Ctx, pc: int, i: nat, k: Option<Fate>) {
    forall states | Above(states, c.base) :: RunsOn(c, pc, i, k, states)
  }

  ghost predicate RunsOn(c: Ctx, pc: int, i: nat, k: Option<Fate>, states: seq<ExecState>) {
    Leads(c.m, Conf(c, pc, i, states), k, states)
  }

  ghost predicate Leads(m: Machine, s: Config, k: Option<Fate>, states: seq<ExecState>) {
    if k.Some? then Comes(m, s, k.value)
    else forall o :: Comes(m, Failing(states), o) ==> Comes(m, s, o)
  }

  ghost predicate RunAll(c: Ctx, pc: int, js: seq<nat>, k: seq<Option<Fate>>) {
    forall j :: j in js ==> j < |k| && Runs(c, pc, j, k[j])
  }

  lemma LeadsStep(m: Machine, s: Config, k: Option<Fate>, states: seq<ExecState>)
    requires Leads(m, Step(m, s), k, states)
    ensures Leads(m, s, k, states)
  {
    if k.Some? {
      ComesStep(m, s, k.value);
    } else {
      forall o | Comes(m, Failing(states), o) ensures Comes(m, s, o) {
        ComesStep(m, s, o);
      }
    }
  }

  /** A failure above `mid` goes on below it. */
  lemma LeadsThen(m: Machine, s: Config, k1: Option<Fate>, mid: seq<ExecState>, k2: Option<Fate>, states: seq<ExecState>)
    requires Leads(m, s, k1, mid)
    requires k1.Some? || Leads(m, Failing(mid), k2, states)
    ensures Leads(m, s, if k1.Some? then k1 else k2, states)
  {
  }

  lemma FailLeads(m: Machine, states: seq<ExecState>)
    ensures Leads(m, Failing(states), None, states)
  {
  }

  /** An opcode that moves to another program point and leaves everything else alone. */
  lemma RunsStep(c: Ctx, pc: int, i: nat, pc': int, i': nat, k: Option<Fate>)
    requires Runs(c, pc', i', k)
    requires forall states :: Step(c.m, Conf(c, pc, i, states)) == Conf(c, pc', i', states)
    ensures Runs(c, pc, i, k)
  {
    forall states | Above(states, c.base) ensures RunsOn(c, pc, i, k, states) {
      assert RunsOn(c, pc', i', k, states);
      LeadsStep(c.m, Conf(c, pc, i, states), k, states);
    }
  }

  lemma RejectRuns(c: Ctx, pc: int, i: nat)
    requires forall states :: Step(c.m, Conf(c, pc, i, states)) == Failing(states)
    ensures Runs(c, pc, i, None)
  {
    forall states | Above(states, c.base) ensures RunsOn(c, pc, i, None, states) {
      FailLeads(c.m, states);
      LeadsStep(c.m, Conf(c, pc, i, states), None, states);
    }
  }

  lemma BasicRuns(c: Ctx, pc: nat, i: nat, k: Option<Fate>)
    requires i <= |c.m.subject.chars|
    requires pc < |c.m.code| && InstrSize(c.m.code, pc) != 0
    requires var b := ExecBasic(c.m, pc, i);
      if b.Go? then Runs(c, b.pc, b.cptr, k) else b.Reject? && k.None?
    ensures Runs(c, pc, i, k)
  {
    var b := ExecBasic(c.m, pc, i);
    if b.Go? {
      RunsStep(c, pc, i, b.pc, b.cptr, k);
    } else {
      RejectRuns(c, pc, i);
    }
  }

  lemma GotoRuns(c: Ctx, pc: nat, i: nat, off: int, k: Option<Fate>)
    requires i <= |c.m.subject.chars| && -TWO31 <= off < TWO31
    requires At(c.m.code, pc, Op32(OP_GOTO, off))
    requires Runs(c, pc + 5 + off, i, k)
    ensures Runs(c, pc, i, k)
  {
    AtOp32(c.m.code, pc, OP_GOTO, off);
    RunsStep(c, pc, i, pc + 5 + off, i, k);
  }

  /** A split tries one branch and, if that comes to nothing, the other. */
  lemma SplitRuns(c: Ctx, pc: nat, i: nat, next: bool, off: int, k1: Option<Fate>, k2: Option<Fate>)
    requires i <= |c.m.subject.chars| && -TWO31 <= off < TWO31
    requires At(c.m.code, pc, Op32(SplitOp(next), off))
    requires Runs(c, if next then pc + 5 else pc + 5 + off, i, k1)
    requires k1.Some? || Runs(c, if next then pc + 5 + off else pc + 5, i, k2)
    ensures Runs(c, pc, i, if k1.Some? then k1 else k2)
  {
    AtOp32(c.m.code, pc, SplitOp(next), off);
    var here, there := if next then pc + 5 else pc + 5 + off, if next then pc + 5 + off else pc + 5;
    var k := if k1.Some? then k1 else k2;
    forall states | Above(states, c.base) ensures RunsOn(c, pc, i, k, states) {
      var rs := ExecState(SplitState, 0, i, there, c.cap, c.stk);
      var pushed := states + [rs];
      assert Step(c.m, Conf(c, pc, i, states)) == Conf(c, here, i, pushed);
      assert Above(pushed, c.base);
      assert RunsOn(c, here, i, k1, pushed);
      if k1.None? {
        assert RunsOn(c, there, i, k2, states);
        assert pushed[|pushed| - 1] == rs && pushed[..|pushed| - 1] == states;
        assert Step(c.m, Failing(pushed)) == Conf(c, there, i, states);
        LeadsStep(c.m, Failing(pushed), k2, states);
      }
      LeadsThen(c.m, Conf(c, here, i, pushed), k1, pushed, k2, states);
      LeadsStep(c.m, Conf(c, pc, i, states), k, states);
    }
  }

  lemma PushRuns(c: Ctx, pc: nat, i: nat, v: nat, k: Option<Fate>)
    requires i <= |c.m.subject.chars| && v < TWO32
    requires At(c.m.code, pc, Op32(OP_PUSH_I32, v))
    requires Runs(c.(stk := c.stk + [v]), pc + 5, i, k)
    ensures Runs(c, pc, i, k)
  {
    AtOp32(c.m.code, pc, OP_PUSH_I32, v);
    ChangeStack(c, pc, i, c.stk + [v], pc + 5, k);
  }

  lemma PushCharPosRuns(c: Ctx, pc: nat, i: nat, k: Option<Fate>)
    requires i <= |c.m.subject.chars|
    requires At(c.m.code, pc, [OP_PUSH_CHAR_POS])
    requires Runs(c.(stk := c.stk + [i]), pc + 1, i, k)
    ensures Runs(c, pc, i, k)
  {
    AtOp(c.m.code, pc, OP_PUSH_CHAR_POS);
    ChangeStack(c, pc, i, c.stk + [i], pc + 1, k);
  }

  lemma ChangeStack(c: Ctx, pc: int, i: nat, stk: seq<nat>, pc': int, k: Option<Fate>)
    requires Runs(c.(stk := stk), pc', i, k)
    requires forall states :: Step(c.m, Conf(c, pc, i, states)) == Conf(c.(stk := stk), pc', i, states)
    ensures Runs(c, pc, i, k)
  {
    var c' := c.(stk := stk);
    forall states | Above(states, c.base) ensures RunsOn(c, pc, i, k, states) {
      assert RunsOn(c', pc', i, k, states);
      LeadsStep(c.m, Conf(c, pc, i, states), k, states);
    }
  }

  lemma DropRuns(c: Ctx, pc: nat, i: nat, v: nat, k: Option<Fate>)
    requires i <= |c.m.subject.chars|
    requires At(c.m.code, pc, [OP_DROP])
    requires Runs(c, pc + 1, i, k)
    ensures Runs(c.(stk := c.stk + [v]), pc, i, k)
  {
    AtOp(c.m.code, pc, OP_DROP);
    assert (c.stk + [v])[..|c.stk|] == c.stk;
    assert c == c.(stk := c.stk + [v]).(stk := c.stk);
    ChangeStack(c.(stk := c.stk + [v]), pc, i, c.stk, pc + 1, k);
  }

  /** The counter on top of the stack is `v`; `loop` jumps back while it is not used up. */
  lemma LoopRuns(c: Ctx, pc: nat, i: nat, v: nat, off: int, k: Option<Fate>)
    requires i <= |c.m.subject.chars| && 0 < v && -TWO31 <= off < TWO31
    requires At(c.m.code, pc, Op32(OP_LOOP, off))
    requires Runs(c.(stk := c.stk + [v - 1]), if v == 1 then pc + 5 else pc + 5 + off, i, k)
    ensures Runs(c.(stk := c.stk + [v]), pc, i, k)
  {
    AtOp32(c.m.code, pc, OP_LOOP, off);
    var c' := c.(stk := c.stk + [v]);
    assert c'.stk[|c.stk| := v - 1] == c.stk + [v - 1];
    assert c.(stk := c.stk + [v - 1]) == c'.(stk := c.stk + [v - 1]);
    ChangeStack(c', pc, i, c.stk + [v - 1], if v == 1 then pc + 5 else pc + 5 + off, k);
  }

  lemma BneCharPosRuns(c: Ctx, pc: nat, i: nat, from: nat, off: int, k: Option<Fate>)
    requires i <= |c.m.subject.chars| && i != from && -TWO31 <= off < TWO31
    requires At(c.m.code, pc, Op32(OP_BNE_CHAR_POS, off))
    requires Runs(c, pc + 5 + off, i, k)
    ensures Runs(c.(stk := c.stk + [from]), pc, i, k)
  {
    AtOp32(c.m.code, pc, OP_BNE_CHAR_POS, off);
    var c' := c.(stk := c.stk + [from]);
    assert c'.stk[..|c.stk|] == c.stk;
    assert c == c'.(stk := c.stk);
    ChangeStack(c', pc, i, c.stk, pc + 5 + off, k);
  }
}
