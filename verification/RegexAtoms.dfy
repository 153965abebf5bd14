/**
 The opcodes for single characters and for assertions, in both directions.
 */
module RegexAtoms {
  import opened Wrappers
  import opened RegexSyntax
  import opened RegexBytecode
  import opened RegexVm
  import opened RegexClass
  import opened RegexSim

  ghost predicate Ready(c: Ctx) {
    && |c.m.code| < TWO31
    && forall k :: 0 <= k < |c.m.subject.chars| ==> c.m.subject.chars[k] < UINT32_MAX
  }

  ghost predicate Cont(c: Ctx, k: seq<Option<Fate>>) {
    Ready(c) && |k| == |c.m.subject.chars| + 1
  }

  lemma SingleEnd(k: seq<Option<Fate>>, j: nat)
    requires j < |k|
    ensures First(k, [j]) == k[j] && j in [j]
  {
  }

  predicate IsOne(r: Regex) { r.Char? || r.Dot? || r.Any? || r.Class? }

  function ForwardCode(r: Regex): seq<byte>
    requires Parsed(r) && IsOne(r)
  {
    match r
    case Char(ch) => if ch <= 0xffff then Op16(OP_CHAR, ch) else Op32(OP_CHAR32, ch)
    case Dot => [OP_DOT]
    case Any => [OP_ANY]
    case Class(pts) => ClassCode(pts)
    case _ => []
  }

  /** What a character opcode does. */
  lemma OneAccepts(m: Machine, pc: nat, r: Regex, i: nat)
    requires Parsed(r) && IsOne(r) && At(m.code, pc, ForwardCode(r))
    requires i <= |m.subject.chars| && forall k :: 0 <= k < |m.subject.chars| ==> m.subject.chars[k] < UINT32_MAX
    ensures 1 <= |ForwardCode(r)| && pc + |ForwardCode(r)| <= |m.code| && InstrSize(m.code, pc) == |ForwardCode(r)|
    ensures IsCharOp(m.code[pc])
    ensures ExecBasic(m, pc, i)
         == if i < |m.subject.chars| then Bool(MatchesOne(r, m.subject.chars[i]), pc + |ForwardCode(r)|, i + 1) else Reject
  {
    match r
    case Char(ch) =>
      if ch <= 0xffff { AtOp16(m.code, pc, OP_CHAR, ch); } else { AtOp32(m.code, pc, OP_CHAR32, ch); }
    case Dot => AtOp(m.code, pc, OP_DOT);
    case Any => AtOp(m.code, pc, OP_ANY);
    case Class(pts) => ClassAccepts(m, pc, pts, i);
    case _ =>
  }

  lemma ForwardRuns(c: Ctx, r: Regex, p: nat, i: nat, k: seq<Option<Fate>>)
    requires Cont(c, k) && i < |k| && Parsed(r) && IsOne(r)
    requires At(c.m.code, p, ForwardCode(r))
    requires RunAll(c, p + |ForwardCode(r)|, EndsOne(c.m.subject, r, false, i), k)
    ensures Runs(c, p, i, First(k, EndsOne(c.m.subject, r, false, i)))
  {
    hide ExecBasic, InstrSize, ForwardCode, MatchesOne;
    OneAccepts(c.m, p, r, i);
    var chars := c.m.subject.chars;
    if i < |chars| && MatchesOne(r, chars[i]) {
      SingleEnd(k, i + 1);
      BasicRuns(c, p, i, k[i + 1]);
    } else {
      BasicRuns(c, p, i, None);
    }
  }

  lemma BackwardRuns(c: Ctx, r: Regex, p: nat, i: nat, k: seq<Option<Fate>>)
    requires Cont(c, k) && i < |k| && Parsed(r) && IsOne(r)
    requires At(c.m.code, p, [OP_PREV] + ForwardCode(r) + [OP_PREV])
    requires RunAll(c, p + |ForwardCode(r)| + 2, EndsOne(c.m.subject, r, true, i), k)
    ensures Runs(c, p, i, First(k, EndsOne(c.m.subject, r, true, i)))
  {
    hide ExecBasic, InstrSize, ForwardCode, MatchesOne, Runs;
    var x := ForwardCode(r);
    var chars := c.m.subject.chars;
    AtSplit(c.m.code, p, [OP_PREV] + x, [OP_PREV]);
    AtSplit(c.m.code, p, [OP_PREV], x);
    PrevOp(c.m, p, i);
    if 0 < i {
      OneAccepts(c.m, p + 1, r, i - 1);
      if MatchesOne(r, chars[i - 1]) {
        SingleEnd(k, i - 1);
        PrevOp(c.m, p + 1 + |x|, i);
        BasicRuns(c, p + 1 + |x|, i, k[i - 1]);
        BasicRuns(c, p + 1, i - 1, k[i - 1]);
        BasicRuns(c, p, i, k[i - 1]);
      } else {
        BasicRuns(c, p + 1, i - 1, None);
        BasicRuns(c, p, i, None);
      }
    } else {
      BasicRuns(c, p, i, None);
    }
  }

  lemma PrevOp(m: Machine, pc: nat, i: nat)
    requires At(m.code, pc, [OP_PREV]) && i <= |m.subject.chars|
    ensures pc < |m.code| && InstrSize(m.code, pc) == 1 && m.code[pc] == OP_PREV
    ensures ExecBasic(m, pc, i) == if i == 0 then Reject else Go(pc + 1, i - 1)
  {
    AtOp(m.code, pc, OP_PREV);
  }

  predicate IsAssertion(r: Regex) { r.LineStart? || r.LineEnd? || r.WordBoundary? }

  lemma AssertionOp(m: Machine, pc: nat, r: Regex, back: bool, i: nat)
    requires IsAssertion(r) && At(m.code, pc, Code(r, back)) && i <= |m.subject.chars|
    ensures |Code(r, back)| == 1 && pc < |m.code| && InstrSize(m.code, pc) == 1 && IsAssertOp(m.code[pc])
    ensures ExecBasic(m, pc, i) == Bool(Holds(m.subject, r, i), pc + 1, i)
  {
    AtOp(m.code, pc, Code(r, back)[0]);
  }

  lemma AssertionRuns(c: Ctx, r: Regex, back: bool, p: nat, i: nat, k: seq<Option<Fate>>)
    requires Cont(c, k) && i < |k| && IsAssertion(r)
    requires At(c.m.code, p, Code(r, back))
    requires RunAll(c, p + 1, Ends(c.m.subject, r, back, i), k)
    ensures Runs(c, p, i, First(k, Ends(c.m.subject, r, back, i)))
  {
    hide ExecBasic, InstrSize;
    AssertionOp(c.m, p, r, back, i);
    var js := Ends(c.m.subject, r, back, i);
    if js != [] { SingleEnd(k, js[0]); }
    BasicRuns(c, p, i, First(k, js));
  }
}
