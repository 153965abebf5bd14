/**
 The one linear pass of compute_stack_size bounds the evaluation stack of every run: each
 instruction boundary has one depth, every jump goes to a boundary, and a run is never anywhere
 else or at another depth.
 */
module RegexStack {
  import opened Wrappers
  import opened RegexSyntax
  import opened RegexBytecode
  import opened RegexVm
  import opened RegexAtoms
  import RegexClass
  import RegexSim
  import opened RegexSimple
  import opened RegexGreedy
  import opened RegexCorrect
  import opened RegexProgram

  function Effect(op: byte): int {
    if op == OP_PUSH_I32 || op == OP_PUSH_CHAR_POS then 1
    else if op == OP_DROP || op == OP_BNE_CHAR_POS then -1
    else 0
  }

  /** The depth that the linear pass has at `q` when it has depth `d` at `p`. */
  function DepthAt(code: seq<byte>, p: nat, d: nat, q: nat): Option<nat>
    decreases |code| - p
  {
    if p == q then Some(d)
    else if q < p || |code| <= p || InstrSize(code, p) == 0 || d + Effect(code[p]) < 0 then None
    else DepthAt(code, p + InstrSize(code, p), d + Effect(code[p]), q)
  }

  datatype StackSize = Size(n: nat) | TooDeep | AssertionFails

  /** compute_stack_size, from `p` on. */
  function ComputeStackSize(code: seq<byte>, p: nat, d: nat, max: nat): StackSize
    decreases |code| - p
  {
    if |code| <= p then Size(max)
    else if InstrSize(code, p) == 0 || d + Effect(code[p]) < 0 then AssertionFails
    else
      var d' := d + Effect(code[p]);
      var max' := if d' > max then d' else max;
      if d' > max && d' > STACK_SIZE_MAX then TooDeep
      else ComputeStackSize(code, p + InstrSize(code, p), d', max')
  }

  lemma {:induction false} PassCoversDepths(code: seq<byte>, p: nat, d: nat, max: nat, q: nat)
    requires d <= max && DepthAt(code, p, d, q).Some? && ComputeStackSize(code, p, d, max).Size?
    ensures max <= ComputeStackSize(code, p, d, max).n
    ensures DepthAt(code, p, d, q).value <= ComputeStackSize(code, p, d, max).n
    decreases |code| - p
  {
    if p < |code| {
      var d' := d + Effect(code[p]);
      var max' := if d' > max then d' else max;
      if p == q {
        PassGrows(code, p, d, max);
      } else {
        PassCoversDepths(code, p + InstrSize(code, p), d', max', q);
      }
    }
  }

  lemma {:induction false} PassGrows(code: seq<byte>, p: nat, d: nat, max: nat)
    requires ComputeStackSize(code, p, d, max).Size?
    ensures max <= ComputeStackSize(code, p, d, max).n
    decreases |code| - p
  {
    if p < |code| {
      var d' := d + Effect(code[p]);
      PassGrows(code, p + InstrSize(code, p), d', if d' > max then d' else max);
    }
  }

  lemma {:induction false} PassBounded(code: seq<byte>, p: nat, d: nat, max: nat)
    requires ComputeStackSize(code, p, d, max).Size? && max <= STACK_SIZE_MAX
    ensures ComputeStackSize(code, p, d, max).n <= STACK_SIZE_MAX
    decreases |code| - p
  {
    if p < |code| {
      var d' := d + Effect(code[p]);
      PassBounded(code, p + InstrSize(code, p), d', if d' > max then d' else max);
    }
  }

  /** `q` is an instruction boundary of the program, at depth `d`. */
  ghost predicate Ok(code: seq<byte>, q: int, d: int) {
    0 <= q < |code| && 0 <= d && DepthAt(code, RE_HEADER_LEN, 0, q) == Some(d)
  }

  lemma {:induction false} DepthFrom(code: seq<byte>, p: nat, d: nat, q: nat, e: nat, q': nat)
    requires DepthAt(code, p, d, q) == Some(e) && q <= q'
    ensures DepthAt(code, p, d, q') == DepthAt(code, q, e, q')
    decreases |code| - p
  {
    if p != q {
      DepthFrom(code, p + InstrSize(code, p), d + Effect(code[p]), q, e, q');
    }
  }

  lemma NextOk(code: seq<byte>, p: nat, d: nat)
    requires Ok(code, p, d) && InstrSize(code, p) != 0 && 0 <= d + Effect(code[p]) && p + InstrSize(code, p) < |code|
    ensures Ok(code, p + InstrSize(code, p), d + Effect(code[p]))
  {
    DepthFrom(code, RE_HEADER_LEN, 0, p, d, p + InstrSize(code, p));
  }

  lemma NothingInside(code: seq<byte>, p: nat, d: nat, q: nat, e: nat)
    requires Ok(code, p, d) && InstrSize(code, p) != 0 && p < q < p + InstrSize(code, p)
    ensures !Ok(code, q, e)
  {
    DepthFrom(code, RE_HEADER_LEN, 0, p, d, q);
  }

  predicate IsBasicOp(op: byte) {
    IsCharOp(op) || IsAssertOp(op) || op == OP_PREV
  }

  function Target(code: seq<byte>, q: nat): int
    requires q + 5 <= |code|
  {
    q + InstrSize(code, q) + Signed(GetU32(code, q + 1))
  }

  /** The instruction at `q` can be executed at depth `d`, and only leads to boundaries. */
  ghost predicate InstrOk(m: Machine, q: nat, d: nat) {
    q < |m.code| && InstrSize(m.code, q) != 0 &&
    var op := m.code[q];
    var next := q + InstrSize(m.code, q);
    if IsBasicOp(op) then (op == OP_RANGE || op == OP_RANGE32 ==> GetU16(m.code, q + 1) != 0) && Ok(m.code, next, d)
    else if op == OP_MATCH then true
    else if op == OP_GOTO then Ok(m.code, Target(m.code, q), d)
    else if op == OP_SPLIT_GOTO_FIRST || op == OP_SPLIT_NEXT_FIRST || op == OP_LOOKAHEAD || op == OP_NEGATIVE_LOOKAHEAD then
      Ok(m.code, next, d) && Ok(m.code, Target(m.code, q), d)
    else if op == OP_SAVE_START || op == OP_SAVE_END then m.code[q + 1] == 0 && Ok(m.code, next, d)
    else if op == OP_PUSH_I32 || op == OP_PUSH_CHAR_POS then Ok(m.code, next, d + 1)
    else if op == OP_DROP then Ok(m.code, next, d - 1)
    else if op == OP_LOOP then 0 < d && Ok(m.code, next, d) && Ok(m.code, Target(m.code, q), d)
    else if op == OP_BNE_CHAR_POS then Ok(m.code, next, d - 1) && Ok(m.code, Target(m.code, q), d - 1)
    else op == OP_SIMPLE_GREEDY_QUANT && Ok(m.code, Target(m.code, q), d) && GreedyOk(m, q)
  }

  /** The counted loop at `q` goes over straight-line code, and its bounds are in order. */
  ghost predicate GreedyOk(m: Machine, q: nat)
    requires q + 17 <= |m.code|
  {
    && GetU32(m.code, q + 5) <= GetU32(m.code, q + 9) <= INT32_MAX && 0 < GetU32(m.code, q + 9)
    && exists r :: LoopsOver(m, q, r)
  }

  ghost predicate LoopsOver(m: Machine, q: nat, r: Regex)
    requires q + 17 <= |m.code|
  {
    Atom(m, r, q + 17, GetU32(m.code, q + 13))
  }

  ghost predicate FlowIn(m: Machine, lo: nat, hi: nat) {
    forall q: nat, d: nat :: lo <= q < hi && Ok(m.code, q, d) ==> InstrOk(m, q, d)
  }

  lemma FlowOne(m: Machine, p: nat, d: nat)
    requires Ok(m.code, p, d) && InstrOk(m, p, d)
    ensures FlowIn(m, p, p + InstrSize(m.code, p))
  {
    forall q: nat, e: nat | p <= q < p + InstrSize(m.code, p) && Ok(m.code, q, e) ensures InstrOk(m, q, e) {
      if p < q { NothingInside(m.code, p, d, q, e); }
    }
  }

  lemma FlowJoin(m: Machine, lo: nat, mid: nat, hi: nat)
    requires FlowIn(m, lo, mid) && FlowIn(m, mid, hi)
    ensures FlowIn(m, lo, hi)
  {
  }

  /** A fragment at `p`, entered at depth `d`, is left at the same depth and stays in itself. */
  ghost predicate Framed(m: Machine, p: nat, d: nat, hi: nat) {
    FlowIn(m, p, hi) && Ok(m.code, hi, d)
  }

  ghost predicate Fits(m: Machine, p: nat, d: nat, hi: nat) {
    && Ok(m.code, p, d) && hi < |m.code| < TWO31
    && CodeUnits(m.subject)
  }

  lemma JumpOp(m: Machine, p: nat, op: byte, off: int)
    requires At(m.code, p, Op32(op, off)) && OpSize(op) == 5 && -TWO31 <= off < TWO31
    ensures p + 5 <= |m.code| && m.code[p] == op && InstrSize(m.code, p) == 5 && Target(m.code, p) == p + 5 + off
  {
    AtOp32(m.code, p, op, off);
  }

  lemma PushOp(m: Machine, p: nat, v: nat)
    requires At(m.code, p, Op32(OP_PUSH_I32, v)) && v < TWO32
    ensures p + 5 <= |m.code| && m.code[p] == OP_PUSH_I32 && InstrSize(m.code, p) == 5
  {
    AtOp32(m.code, p, OP_PUSH_I32, v);
  }

  lemma ByteOp(m: Machine, p: nat, op: byte)
    requires At(m.code, p, [op]) && OpSize(op) == 1
    ensures p < |m.code| && m.code[p] == op && InstrSize(m.code, p) == 1
  {
    AtOp(m.code, p, op);
  }

  lemma JumpNext(m: Machine, p: nat, op: byte, off: int, d: nat)
    requires At(m.code, p, Op32(op, off)) && OpSize(op) == 5 && -TWO31 <= off < TWO31
    requires Ok(m.code, p, d) && 0 <= d + Effect(op) && p + 5 < |m.code|
    ensures Ok(m.code, p + 5, d + Effect(op))
  {
    hide At, Op32, Ok, InstrSize, Target;
    JumpOp(m, p, op, off);
    NextOk(m.code, p, d);
  }

  /** A jump whose targets are boundaries at the right depth. */
  lemma JumpFlow(m: Machine, p: nat, op: byte, off: int, d: nat)
    requires At(m.code, p, Op32(op, off)) && -TWO31 <= off < TWO31
    requires op in [OP_GOTO, OP_SPLIT_GOTO_FIRST, OP_SPLIT_NEXT_FIRST, OP_LOOKAHEAD, OP_NEGATIVE_LOOKAHEAD, OP_LOOP, OP_BNE_CHAR_POS]
    requires Ok(m.code, p, d) && 0 <= d + Effect(op) && (op == OP_LOOP ==> 0 < d)
    requires Ok(m.code, p + 5 + off, d + Effect(op)) && (op != OP_GOTO ==> Ok(m.code, p + 5, d + Effect(op)))
    ensures FlowIn(m, p, p + 5)
  {
    hide At, Op32, Ok, InstrSize, Target, FlowIn;
    JumpOp(m, p, op, off);
    FlowOne(m, p, d);
  }

  lemma StarFlow(m: Machine, r: Regex, back: bool, greedy: bool, check: bool, p: nat, d: nat)
    requires Parsed(r) && At(m.code, p, StarCode(Code(r, back), greedy, check))
    requires Fits(m, p, d, p + |StarCode(Code(r, back), greedy, check)|)
    ensures Framed(m, p, d, p + |StarCode(Code(r, back), greedy, check)|)
    decreases r, 2
  {
    hide At, Op32, Code, Ok, FlowIn, InstrSize, Target, GetU32, StarCode;
    var x := Code(r, back);
    StarLayout(m.code, p, x, greedy, check);
    if check {
      var q := p + 6 + |x|;
      JumpNext(m, p, SplitOp(greedy), |x| + 6, d);
      ByteOp(m, p + 5, OP_PUSH_CHAR_POS);
      NextOk(m.code, p + 5, d);
      FlowOne(m, p + 5, d);
      FragmentFlow(m, r, back, p + 6, d + 1);
      JumpNext(m, q, OP_BNE_CHAR_POS, -(|x| + 11), d + 1);
      JumpFlow(m, q, OP_BNE_CHAR_POS, -(|x| + 11), d + 1);
      JumpFlow(m, p, SplitOp(greedy), |x| + 6, d);
      FlowJoin(m, p + 6, q, q + 5);
      FlowJoin(m, p + 5, p + 6, q + 5);
      FlowJoin(m, p, p + 5, q + 5);
    } else {
      var q := p + 5 + |x|;
      JumpNext(m, p, SplitOp(greedy), |x| + 5, d);
      FragmentFlow(m, r, back, p + 5, d);
      JumpNext(m, q, OP_GOTO, -(|x| + 10), d);
      JumpFlow(m, q, OP_GOTO, -(|x| + 10), d);
      JumpFlow(m, p, SplitOp(greedy), |x| + 5, d);
      FlowJoin(m, p + 5, q, q + 5);
      FlowJoin(m, p, p + 5, q + 5);
    }
  }

  lemma UpToFlow(m: Machine, r: Regex, back: bool, greedy: bool, n: nat, p: nat, d: nat)
    requires Parsed(r) && At(m.code, p, UpToCode(Code(r, back), n, greedy)) && n < TWO32
    requires Fits(m, p, d, p + |UpToCode(Code(r, back), n, greedy)|)
    ensures Framed(m, p, d, p + |UpToCode(Code(r, back), n, greedy)|)
    decreases r, 2
  {
    hide At, Op32, Code, Ok, FlowIn, InstrSize, Target, GetU32;
    var x := Code(r, back);
    UpToStart(m.code, p, x, n, greedy);
    UpToLayout(m.code, p + 5, x, greedy);
    var q := p + 10 + |x|;
    PushOp(m, p, n);
    NextOk(m.code, p, d);
    FlowOne(m, p, d);
    JumpNext(m, p + 5, SplitOp(greedy), |x| + 5, d + 1);
    FragmentFlow(m, r, back, p + 10, d + 1);
    JumpNext(m, q, OP_LOOP, -(|x| + 10), d + 1);
    JumpFlow(m, q, OP_LOOP, -(|x| + 10), d + 1);
    JumpFlow(m, p + 5, SplitOp(greedy), |x| + 5, d + 1);
    ByteOp(m, q + 5, OP_DROP);
    NextOk(m.code, q + 5, d + 1);
    FlowOne(m, q + 5, d + 1);
    FlowJoin(m, q, q + 5, q + 6);
    FlowJoin(m, p + 10, q, q + 6);
    FlowJoin(m, p + 5, p + 10, q + 6);
    FlowJoin(m, p, p + 5, q + 6);
  }

  lemma ExactlyFlow(m: Machine, r: Regex, back: bool, n: nat, p: nat, d: nat)
    requires Parsed(r) && At(m.code, p, ExactlyCode(Code(r, back), n)) && n < TWO32
    requires Fits(m, p, d, p + |ExactlyCode(Code(r, back), n)|)
    ensures Framed(m, p, d, p + |ExactlyCode(Code(r, back), n)|)
    decreases r, 2
  {
    hide At, Op32, Code, Ok, FlowIn, InstrSize, Target, GetU32;
    var x := Code(r, back);
    ExactlyStart(m.code, p, x, n);
    ExactlyLayout(m.code, p + 5, x);
    var q := p + 5 + |x|;
    PushOp(m, p, n);
    NextOk(m.code, p, d);
    FragmentFlow(m, r, back, p + 5, d + 1);
    JumpOp(m, q, OP_LOOP, -(|x| + 5));
    NextOk(m.code, q, d + 1);
    ByteOp(m, q + 5, OP_DROP);
    NextOk(m.code, q + 5, d + 1);
    FlowOne(m, p, d);
    FlowOne(m, q, d + 1);
    FlowOne(m, q + 5, d + 1);
    FlowJoin(m, q, q + 5, q + 6);
    FlowJoin(m, p + 5, q, q + 6);
    FlowJoin(m, p, p + 5, q + 6);
  }

  lemma PlusFlow(m: Machine, r: Regex, back: bool, greedy: bool, p: nat, d: nat)
    requires Parsed(r) && At(m.code, p, PlusCode(Code(r, back), greedy))
    requires Fits(m, p, d, p + |PlusCode(Code(r, back), greedy)|)
    ensures Framed(m, p, d, p + |PlusCode(Code(r, back), greedy)|)
    decreases r, 2
  {
    hide At, Op32, Code, Ok, FlowIn, InstrSize, Target, GetU32;
    var x := Code(r, back);
    var q := p + |x|;
    PlusLayout(m.code, p, x, greedy);
    FragmentFlow(m, r, back, p, d);
    JumpOp(m, q, SplitOp(!greedy), -(|x| + 5));
    NextOk(m.code, q, d);
    FlowOne(m, q, d);
    FlowJoin(m, p, q, q + 5);
  }

  lemma OptionFlow(m: Machine, r: Regex, back: bool, greedy: bool, p: nat, d: nat)
    requires Parsed(r) && At(m.code, p, Op32(SplitOp(greedy), |Code(r, back)|) + Code(r, back))
    requires Fits(m, p, d, p + 5 + |Code(r, back)|)
    ensures Framed(m, p, d, p + 5 + |Code(r, back)|)
    decreases r, 2
  {
    hide Op32, Code, Ok, FlowIn, InstrSize;
    var x := Code(r, back);
    AtSplit(m.code, p, Op32(SplitOp(greedy), |x|), x);
    JumpOp(m, p, SplitOp(greedy), |x|);
    NextOk(m.code, p, d);
    FragmentFlow(m, r, back, p + 5, d);
    FlowOne(m, p, d);
    FlowJoin(m, p, p + 5, p + 5 + |x|);
  }

  lemma SimpleGreedyOpIs(code: seq<byte>, p: nat, x: seq<byte>, min: nat, max: nat, n: nat)
    requires At(code, p, SimpleGreedyCode(x, min, max, n))
    requires min < TWO31 && max < TWO31 && n < TWO32 && |code| < TWO31
    ensures p + |x| + 18 <= |code| && code[p] == OP_SIMPLE_GREEDY_QUANT && InstrSize(code, p) == 17
    ensures Target(code, p) == p + |x| + 18
    ensures GetU32(code, p + 5) == min && GetU32(code, p + 9) == max && GetU32(code, p + 13) == n
    ensures At(code, p + 17, x + [OP_MATCH]) && At(code, p + 17, x) && At(code, p + 17 + |x|, [OP_MATCH])
  {
    hide U32, GetU32;
    var head := SimpleGreedyOp(|x|, min, max, n);
    assert SimpleGreedyCode(x, min, max, n) == head + (x + [OP_MATCH]);
    AtSplit(code, p, head, x + [OP_MATCH]);
    AtSplit(code, p + 17, x, [OP_MATCH]);
    SimpleGreedyFields(code, p, |x|, min, max, n);
  }

  lemma SimpleGreedyFlow(m: Machine, r: Regex, min: nat, max: nat, p: nat, d: nat)
    requires Parsed(r) && min <= max <= INT32_MAX && 0 < max && 0 < SimpleCount(Code(r, false), 0, 0)
    requires At(m.code, p, SimpleGreedyCode(Code(r, false), min, max, SimpleCount(Code(r, false), 0, 0)))
    requires Fits(m, p, d, p + 18 + |Code(r, false)|)
    ensures Framed(m, p, d, p + 18 + |Code(r, false)|)
    decreases r, 2
  {
    hide At, Op32, Code, Ok, FlowIn, InstrSize, SimpleCount, SimpleGreedyCode, GetU32;
    var x := Code(r, false);
    var n: nat := SimpleCount(x, 0, 0);
    SimpleCountBounded(x, 0, 0);
    SimpleGreedyLength(m.code, p, x, min, max, n);
    SimpleGreedyOpIs(m.code, p, x, min, max, n);
    NextOk(m.code, p, d);
    FragmentFlow(m, r, false, p + 17, d);
    var q := p + 17 + |x|;
    ByteOp(m, q, OP_MATCH);
    NextOk(m.code, q, d);
    AtomIs(m, r, p + 17, n);
    assert LoopsOver(m, p, r);
    FlowOne(m, p, d);
    FlowOne(m, q, d);
    FlowJoin(m, p + 17, q, q + 1);
    FlowJoin(m, p, p + 17, q + 1);
  }

  lemma ChoiceFlow(m: Machine, a: Regex, b: Regex, back: bool, p: nat, d: nat)
    requires Parsed(a) && Parsed(b) && At(m.code, p, ChoiceCode(Code(a, back), Code(b, back)))
    requires Fits(m, p, d, p + |ChoiceCode(Code(a, back), Code(b, back))|)
    ensures Framed(m, p, d, p + |ChoiceCode(Code(a, back), Code(b, back))|)
    decreases Choice(a, b), 0
  {
    hide At, Op32, Code, Ok, FlowIn, InstrSize, Target, GetU32;
    var ca, cb := Code(a, back), Code(b, back);
    ChoiceLayout(m.code, p, ca, cb);
    var q := p + 5 + |ca|;
    var hi := q + 5 + |cb|;
    JumpOp(m, p, OP_SPLIT_NEXT_FIRST, |ca| + 5);
    NextOk(m.code, p, d);
    FragmentFlow(m, a, back, p + 5, d);
    JumpOp(m, q, OP_GOTO, |cb|);
    NextOk(m.code, q, d);
    FragmentFlow(m, b, back, q + 5, d);
    FlowOne(m, p, d);
    FlowOne(m, q, d);
    FlowJoin(m, q, q + 5, hi);
    FlowJoin(m, p + 5, q, hi);
    FlowJoin(m, p, p + 5, hi);
  }

  lemma LookFlow(m: Machine, r: Regex, negated: bool, behind: bool, p: nat, d: nat)
    requires Parsed(r) && At(m.code, p, LookCode(negated, Code(r, behind)))
    requires Fits(m, p, d, p + |LookCode(negated, Code(r, behind))|)
    ensures Framed(m, p, d, p + |LookCode(negated, Code(r, behind))|)
    decreases r, 2
  {
    hide At, Op32, Code, Ok, FlowIn, InstrSize, Target, GetU32;
    var x := Code(r, behind);
    var op := if negated then OP_NEGATIVE_LOOKAHEAD else OP_LOOKAHEAD;
    AtSplit(m.code, p, Op32(op, |x| + 1) + x, [OP_MATCH]);
    AtSplit(m.code, p, Op32(op, |x| + 1), x);
    var q := p + 5 + |x|;
    JumpNext(m, p, op, |x| + 1, d);
    FragmentFlow(m, r, behind, p + 5, d);
    ByteOp(m, q, OP_MATCH);
    NextOk(m.code, q, d);
    FlowOne(m, q, d);
    JumpFlow(m, p, op, |x| + 1, d);
    FlowJoin(m, p + 5, q, q + 1);
    FlowJoin(m, p, p + 5, q + 1);
  }

  lemma ConcatFlow(m: Machine, x: Regex, y: Regex, r: Regex, back: bool, p: nat, d: nat)
    requires Parsed(x) && Parsed(y) && r == if back then Concat(y, x) else Concat(x, y)
    requires At(m.code, p, Code(x, back) + Code(y, back)) && Fits(m, p, d, p + |Code(x, back)| + |Code(y, back)|)
    ensures Framed(m, p, d, p + |Code(x, back)| + |Code(y, back)|)
    decreases r, 0
  {
    hide At, Code, Ok, FlowIn;
    var cx, cy := Code(x, back), Code(y, back);
    AtSplit(m.code, p, cx, cy);
    FragmentFlow(m, x, back, p, d);
    FragmentFlow(m, y, back, p + |cx|, d);
    FlowJoin(m, p, p + |cx|, p + |cx| + |cy|);
  }

  /** The range opcodes have a table with at least one interval. */
  lemma OneOp(m: Machine, p: nat, r: Regex)
    requires Parsed(r) && IsOne(r) && At(m.code, p, ForwardCode(r)) && CodeUnits(m.subject)
    ensures p + |ForwardCode(r)| <= |m.code| && InstrSize(m.code, p) == |ForwardCode(r)| > 0 && IsCharOp(m.code[p])
    ensures m.code[p] == OP_RANGE || m.code[p] == OP_RANGE32 ==> GetU16(m.code, p + 1) != 0
  {
    OneAccepts(m, p, r, 0);
    match r
    case Class(pts) =>
      if pts == [] { AtOp32(m.code, p, OP_CHAR32, UINT32_MAX) by { assert -1 % TWO32 == UINT32_MAX; assert Op32(OP_CHAR32, -1) == Op32(OP_CHAR32, UINT32_MAX); } }
      else { RegexClass.ClassInstr(m.code, p, pts); }
    case Char(ch) => if ch <= 0xffff { AtOp16(m.code, p, OP_CHAR, ch); } else { AtOp32(m.code, p, OP_CHAR32, ch); }
    case Dot => AtOp(m.code, p, OP_DOT);
    case Any => AtOp(m.code, p, OP_ANY);
    case _ =>
  }

  lemma OneFlow(m: Machine, r: Regex, back: bool, p: nat, d: nat)
    requires Parsed(r) && IsOne(r) && At(m.code, p, Code(r, back)) && Fits(m, p, d, p + |Code(r, back)|)
    ensures Framed(m, p, d, p + |Code(r, back)|)
  {
    hide Ok, FlowIn, InstrSize, ClassCode, ForwardCode, InstrOk, Code, Effect, At;
    CodeOfOne(r, back);
    if back {
      BackwardFlow(m, r, p, d);
    } else {
      ForwardFlow(m, r, p, d);
    }
  }

  lemma ForwardFlow(m: Machine, r: Regex, p: nat, d: nat)
    requires Parsed(r) && IsOne(r) && At(m.code, p, ForwardCode(r)) && Fits(m, p, d, p + |ForwardCode(r)|)
    ensures Framed(m, p, d, p + |ForwardCode(r)|)
  {
    hide FlowIn, InstrSize, ClassCode, ForwardCode, At, DepthAt;
    OneOp(m, p, r);
    NextOk(m.code, p, d);
    FlowOne(m, p, d);
  }

  lemma PrevFlow(m: Machine, p: nat, d: nat)
    requires At(m.code, p, [OP_PREV]) && Fits(m, p, d, p + 1)
    ensures Framed(m, p, d, p + 1)
  {
    hide FlowIn, At, DepthAt;
    ByteOp(m, p, OP_PREV);
    NextOk(m.code, p, d);
    FlowOne(m, p, d);
  }

  lemma BackwardFlow(m: Machine, r: Regex, p: nat, d: nat)
    requires Parsed(r) && IsOne(r) && At(m.code, p, OneCode(ForwardCode(r), true)) && Fits(m, p, d, p + |ForwardCode(r)| + 2)
    ensures Framed(m, p, d, p + |ForwardCode(r)| + 2)
  {
    hide FlowIn, InstrSize, ClassCode, ForwardCode, At, DepthAt;
    var x := ForwardCode(r);
    AtSplit(m.code, p, [OP_PREV] + x, [OP_PREV]);
    AtSplit(m.code, p, [OP_PREV], x);
    var q := p + 1 + |x|;
    PrevFlow(m, p, d);
    ForwardFlow(m, r, p + 1, d);
    PrevFlow(m, q, d);
    FlowJoin(m, p + 1, q, q + 1);
    FlowJoin(m, p, p + 1, q + 1);
  }

  lemma CodeOfOne(r: Regex, back: bool)
    requires Parsed(r) && IsOne(r)
    ensures Code(r, back) == OneCode(ForwardCode(r), back)
  {
  }

  lemma AssertionFlow(m: Machine, r: Regex, back: bool, p: nat, d: nat)
    requires IsAssertion(r) && At(m.code, p, Code(r, back)) && Fits(m, p, d, p + |Code(r, back)|)
    ensures Framed(m, p, d, p + |Code(r, back)|)
  {
    hide Ok, FlowIn, InstrSize;
    AssertionOp(m, p, r, back, 0);
    NextOk(m.code, p, d);
    FlowOne(m, p, d);
  }

  lemma RepeatFlow(m: Machine, r: Regex, back: bool, min: nat, max: nat, greedy: bool, p: nat, d: nat)
    requires Parsed(r) && min <= max <= INT32_MAX && At(m.code, p, RepeatCode(Code(r, back), min, max, greedy))
    requires Fits(m, p, d, p + |RepeatCode(Code(r, back), min, max, greedy)|)
    ensures Framed(m, p, d, p + |RepeatCode(Code(r, back), min, max, greedy)|)
    decreases r, 4
  {
    hide Code, Ok, FlowIn, SimpleCount, ChecksAdvance, At, HeadCode, TailCode, Op32;
    var x := Code(r, back);
    if greedy && 0 < max && 0 < SimpleCount(x, 0, 0) {
      if back { SimpleIsForward(r); }
      SimpleGreedyFlow(m, r, min, max, p, d);
    } else if min == 0 && max == 1 {
      OptionFlow(m, r, back, greedy, p, d);
    } else if min == 1 && max == INT32_MAX && !(greedy && !ChecksAdvance(x)) {
      PlusFlow(m, r, back, greedy, p, d);
    } else {
      RepeatShape(x, min, max, greedy);
      HeadTailFlow(m, r, back, min, TailMax(min, max), greedy, greedy && !ChecksAdvance(x), p, d);
    }
  }

  lemma HeadTailFlow(m: Machine, r: Regex, back: bool, min: nat, max: nat, greedy: bool, check: bool, p: nat, d: nat)
    requires Parsed(r) && min <= INT32_MAX && max <= INT32_MAX
    requires At(m.code, p, HeadCode(Code(r, back), min) + TailCode(Code(r, back), max, greedy, check))
    requires Fits(m, p, d, p + |HeadCode(Code(r, back), min) + TailCode(Code(r, back), max, greedy, check)|)
    ensures Framed(m, p, d, p + |HeadCode(Code(r, back), min) + TailCode(Code(r, back), max, greedy, check)|)
    decreases r, 3
  {
    hide Code, Ok, FlowIn, Op32, ExactlyCode, StarCode, UpToCode;
    var x := Code(r, back);
    var head, tail := HeadCode(x, min), TailCode(x, max, greedy, check);
    AtSplit(m.code, p, head, tail);
    EmptyFlow(m, p);
    if min == 1 {
      FragmentFlow(m, r, back, p, d);
    } else if min != 0 {
      ExactlyFlow(m, r, back, min, p, d);
    }
    EmptyFlow(m, p + |head|);
    if max == INT32_MAX {
      StarFlow(m, r, back, greedy, check, p + |head|, d);
    } else if 0 < max {
      UpToFlow(m, r, back, greedy, max, p + |head|, d);
    }
    FlowJoin(m, p, p + |head|, p + |head| + |tail|);
  }

  lemma EmptyFlow(m: Machine, p: nat)
    ensures FlowIn(m, p, p)
  {
  }

  /** Every jump of the code of `r` leads to an instruction boundary, at the depth it has there. */
  lemma {:induction false} FragmentFlow(m: Machine, r: Regex, back: bool, p: nat, d: nat)
    requires Parsed(r) && At(m.code, p, Code(r, back))
    requires Fits(m, p, d, p + |Code(r, back)|)
    ensures Framed(m, p, d, p + |Code(r, back)|)
    decreases r, 1
  {
    hide Ok, FlowIn, ChoiceCode, LookCode, RepeatCode, ClassCode, OneCode, Op16, Op32, At;
    match r
    case Empty => EmptyFlow(m, p);
    case Concat(a, b) =>
      if back { ConcatFlow(m, b, a, r, back, p, d); } else { ConcatFlow(m, a, b, r, back, p, d); }
    case Choice(a, b) => ChoiceFlow(m, a, b, back, p, d);
    case Look(negated, behind, body) => LookFlow(m, body, negated, behind, p, d);
    case Repeat(body, min, max, greedy) => RepeatFlow(m, body, back, min, max, greedy, p, d);
    case LineStart => AssertionFlow(m, r, back, p, d);
    case LineEnd => AssertionFlow(m, r, back, p, d);
    case WordBoundary(_) => AssertionFlow(m, r, back, p, d);
    case _ => OneFlow(m, r, back, p, d);
  }
}
