/**
 The size of the evaluation stack that compute_stack_size finds, read off the regular expression:
 one entry for each loop around a term that counts its iterations or remembers where one began.
 */
module RegexDepth {
  import opened RegexSyntax
  import opened RegexBytecode
  import opened RegexVm
  import opened RegexAtoms
  import opened RegexGreedy
  import opened RegexCorrect
  import opened RegexProgram
  import opened RegexStack

  function Larger(a: nat, b: nat): nat {
    if a < b then b else a
  }

  /** A quantifier that is compiled to a loop with an entry on the evaluation stack. */
  predicate NeedsEntry(body: Regex, back: bool, min: nat, max: nat, greedy: bool)
    requires Parsed(body)
  {
    && !(greedy && 0 < SimpleCount(Code(body, back), 0, 0))
    && (1 < min || (if max == INT32_MAX then greedy && !ChecksAdvance(Code(body, back)) else min < max && 1 < max))
  }

  /** The largest number of such loops around one place. */
  function Peak(r: Regex, back: bool): (n: nat)
    requires Parsed(r)
  {
    match r
    case Concat(a, b) => Larger(Peak(a, back), Peak(b, back))
    case Choice(a, b) => Larger(Peak(a, back), Peak(b, back))
    case Look(_, behind, body) => Peak(body, behind)
    case Repeat(body, min, max, greedy) =>
      if max == 0 then 0
      else Peak(body, back) + if NeedsEntry(body, back, min, max, greedy) then 1 else 0
    case _ => 0
  }

  /** The pass gets from `p` at depth `d` to `q` at depth `e`, and `n` is the largest depth it sees. */
  ghost predicate Passes(code: seq<byte>, p: nat, d: nat, q: nat, e: nat, n: nat) {
    && d <= n && e <= n
    && forall max: nat | d <= max <= STACK_SIZE_MAX ::
      ComputeStackSize(code, p, d, max)
      == if STACK_SIZE_MAX < n then TooDeep else ComputeStackSize(code, q, e, Larger(max, n))
  }

  lemma PassStays(code: seq<byte>, p: nat, d: nat)
    ensures Passes(code, p, d, p, d, d)
  {
  }

  lemma PassOne(code: seq<byte>, p: nat, d: nat)
    requires InstrSize(code, p) != 0 && 0 <= d + Effect(code[p])
    ensures Passes(code, p, d, p + InstrSize(code, p), d + Effect(code[p]), Larger(d, d + Effect(code[p])))
  {
    hide InstrSize;
  }

  lemma PassJoin(code: seq<byte>, p: nat, d: nat, q: nat, e: nat, n: nat, q': nat, e': nat, n': nat)
    requires Passes(code, p, d, q, e, n) && Passes(code, q, e, q', e', n')
    ensures Passes(code, p, d, q', e', Larger(n, n'))
  {
    hide ComputeStackSize;
  }

  lemma PassOp32(code: seq<byte>, p: nat, op: byte, v: int, d: nat)
    requires At(code, p, Op32(op, v)) && OpSize(op) == 5 && 0 <= d + Effect(op)
    ensures Passes(code, p, d, p + 5, d + Effect(op), Larger(d, d + Effect(op)))
  {
    hide U32;
    AtSplit(code, p, [op], U32(v));
    AtOp(code, p, op);
    PassOne(code, p, d);
  }

  lemma PassOp(code: seq<byte>, p: nat, op: byte, d: nat)
    requires At(code, p, [op]) && OpSize(op) == 1 && 0 <= d + Effect(op)
    ensures Passes(code, p, d, p + 1, d + Effect(op), Larger(d, d + Effect(op)))
  {
    AtOp(code, p, op);
    PassOne(code, p, d);
  }

  /** A fragment at `p` leaves the depth as it was, and goes `n` above it. */
  ghost predicate Lifts(code: seq<byte>, p: nat, d: nat, q: nat, n: nat) {
    Passes(code, p, d, q, d, d + n)
  }

  lemma StarPeak(code: seq<byte>, r: Regex, back: bool, greedy: bool, check: bool, p: nat, d: nat)
    requires Parsed(r) && At(code, p, StarCode(Code(r, back), greedy, check))
    ensures Lifts(code, p, d, p + |StarCode(Code(r, back), greedy, check)|, Peak(r, back) + if check then 1 else 0)
    decreases r, 2
  {
    hide At, Op32, Code, Passes, Peak;
    var x, n := Code(r, back), Peak(r, back);
    StarLayout(code, p, x, greedy, check);
    PassOp32(code, p, SplitOp(greedy), if check then |x| + 6 else |x| + 5, d);
    if check {
      PassOp(code, p + 5, OP_PUSH_CHAR_POS, d);
      CodePeak(code, r, back, p + 6, d + 1);
      PassOp32(code, p + 6 + |x|, OP_BNE_CHAR_POS, -(|x| + 11), d + 1);
      PassJoin(code, p, d, p + 5, d, d, p + 6, d + 1, d + 1);
      PassJoin(code, p, d, p + 6, d + 1, d + 1, p + 6 + |x|, d + 1, d + 1 + n);
      PassJoin(code, p, d, p + 6 + |x|, d + 1, d + 1 + n, p + 11 + |x|, d, d + 1);
    } else {
      CodePeak(code, r, back, p + 5, d);
      PassOp32(code, p + 5 + |x|, OP_GOTO, -(|x| + 10), d);
      PassJoin(code, p, d, p + 5, d, d, p + 5 + |x|, d, d + n);
      PassJoin(code, p, d, p + 5 + |x|, d, d + n, p + 10 + |x|, d, d);
    }
  }

  lemma UpToPeak(code: seq<byte>, r: Regex, back: bool, greedy: bool, count: nat, p: nat, d: nat)
    requires Parsed(r) && At(code, p, UpToCode(Code(r, back), count, greedy))
    ensures Lifts(code, p, d, p + |UpToCode(Code(r, back), count, greedy)|, Peak(r, back) + 1)
    decreases r, 2
  {
    hide At, Op32, Code, Passes, Peak;
    var x, n := Code(r, back), Peak(r, back);
    UpToStart(code, p, x, count, greedy);
    UpToLayout(code, p + 5, x, greedy);
    PassOp32(code, p, OP_PUSH_I32, count, d);
    PassOp32(code, p + 5, SplitOp(greedy), |x| + 5, d + 1);
    CodePeak(code, r, back, p + 10, d + 1);
    PassOp32(code, p + 10 + |x|, OP_LOOP, -(|x| + 10), d + 1);
    PassOp(code, p + 15 + |x|, OP_DROP, d + 1);
    PassJoin(code, p, d, p + 5, d + 1, d + 1, p + 10, d + 1, d + 1);
    PassJoin(code, p, d, p + 10, d + 1, d + 1, p + 10 + |x|, d + 1, d + 1 + n);
    PassJoin(code, p, d, p + 10 + |x|, d + 1, d + 1 + n, p + 15 + |x|, d + 1, d + 1);
    PassJoin(code, p, d, p + 15 + |x|, d + 1, d + 1 + n, p + 16 + |x|, d, d + 1);
  }

  lemma ExactlyPeak(code: seq<byte>, r: Regex, back: bool, count: nat, p: nat, d: nat)
    requires Parsed(r) && At(code, p, ExactlyCode(Code(r, back), count))
    ensures Lifts(code, p, d, p + |ExactlyCode(Code(r, back), count)|, Peak(r, back) + 1)
    decreases r, 2
  {
    hide At, Op32, Code, Passes, Peak;
    var x, n := Code(r, back), Peak(r, back);
    ExactlyStart(code, p, x, count);
    ExactlyLayout(code, p + 5, x);
    PassOp32(code, p, OP_PUSH_I32, count, d);
    CodePeak(code, r, back, p + 5, d + 1);
    PassOp32(code, p + 5 + |x|, OP_LOOP, -(|x| + 5), d + 1);
    PassOp(code, p + 10 + |x|, OP_DROP, d + 1);
    PassJoin(code, p, d, p + 5, d + 1, d + 1, p + 5 + |x|, d + 1, d + 1 + n);
    PassJoin(code, p, d, p + 5 + |x|, d + 1, d + 1 + n, p + 10 + |x|, d + 1, d + 1);
    PassJoin(code, p, d, p + 10 + |x|, d + 1, d + 1 + n, p + 11 + |x|, d, d + 1);
  }

  lemma PlusPeak(code: seq<byte>, r: Regex, back: bool, greedy: bool, p: nat, d: nat)
    requires Parsed(r) && At(code, p, PlusCode(Code(r, back), greedy))
    ensures Lifts(code, p, d, p + |PlusCode(Code(r, back), greedy)|, Peak(r, back))
    decreases r, 2
  {
    hide At, Op32, Code, Passes, Peak;
    var x, n := Code(r, back), Peak(r, back);
    PlusLayout(code, p, x, greedy);
    CodePeak(code, r, back, p, d);
    PassOp32(code, p + |x|, SplitOp(!greedy), -(|x| + 5), d);
    PassJoin(code, p, d, p + |x|, d, d + n, p + |x| + 5, d, d);
  }

  lemma OptionPeak(code: seq<byte>, r: Regex, back: bool, greedy: bool, p: nat, d: nat)
    requires Parsed(r) && At(code, p, Op32(SplitOp(greedy), |Code(r, back)|) + Code(r, back))
    ensures Lifts(code, p, d, p + 5 + |Code(r, back)|, Peak(r, back))
    decreases r, 2
  {
    hide At, Op32, Code, Passes, Peak;
    var x := Code(r, back);
    AtSplit(code, p, Op32(SplitOp(greedy), |x|), x);
    PassOp32(code, p, SplitOp(greedy), |x|, d);
    CodePeak(code, r, back, p + 5, d);
    PassJoin(code, p, d, p + 5, d, d, p + 5 + |x|, d, d + Peak(r, back));
  }

  lemma SimplePeak(code: seq<byte>, r: Regex, back: bool, min: nat, max: nat, count: nat, p: nat, d: nat)
    requires Parsed(r) && At(code, p, SimpleGreedyCode(Code(r, back), min, max, count))
    ensures Lifts(code, p, d, p + 18 + |Code(r, back)|, Peak(r, back))
    decreases r, 2
  {
    hide At, Op32, U32, Code, Passes, Peak;
    var x, n := Code(r, back), Peak(r, back);
    SimpleParts(code, p, x, min, max, count);
    PassOne(code, p, d);
    CodePeak(code, r, back, p + 17, d);
    PassOp(code, p + 17 + |x|, OP_MATCH, d);
    PassJoin(code, p, d, p + 17, d, d, p + 17 + |x|, d, d + n);
    PassJoin(code, p, d, p + 17 + |x|, d, d + n, p + 18 + |x|, d, d);
  }

  lemma SimpleParts(code: seq<byte>, p: nat, x: seq<byte>, min: nat, max: nat, count: nat)
    requires At(code, p, SimpleGreedyCode(x, min, max, count))
    ensures p + 17 <= |code| && code[p] == OP_SIMPLE_GREEDY_QUANT && InstrSize(code, p) == 17
    ensures At(code, p + 17, x) && At(code, p + 17 + |x|, [OP_MATCH])
  {
    hide U32;
    var head := SimpleGreedyOp(|x|, min, max, count);
    var fields := U32(|x| + 1) + U32(min) + U32(max) + U32(count);
    AtSplit(code, p, head + x, [OP_MATCH]);
    AtSplit(code, p, head, x);
    assert head == [OP_SIMPLE_GREEDY_QUANT] + fields;
    AtSplit(code, p, [OP_SIMPLE_GREEDY_QUANT], fields);
    AtOp(code, p, OP_SIMPLE_GREEDY_QUANT);
  }

  lemma HeadTailPeak(code: seq<byte>, r: Regex, back: bool, min: nat, max: nat, greedy: bool, check: bool, p: nat, d: nat)
    requires Parsed(r) && At(code, p, HeadCode(Code(r, back), min) + TailCode(Code(r, back), max, greedy, check))
    ensures
      var n := Peak(r, back);
      var head := if min == 0 then 0 else if min == 1 then n else n + 1;
      var tail := if max == INT32_MAX then (if check then n + 1 else n) else if 0 < max then n + 1 else 0;
      Lifts(code, p, d, p + |HeadCode(Code(r, back), min)| + |TailCode(Code(r, back), max, greedy, check)|, Larger(head, tail))
    decreases r, 3
  {
    hide At, Op32, Code, Passes, Peak, ExactlyCode, StarCode, UpToCode;
    var x, n := Code(r, back), Peak(r, back);
    var head, tail := HeadCode(x, min), TailCode(x, max, greedy, check);
    var mid := p + |head|;
    AtSplit(code, p, head, tail);
    PassStays(code, p, d);
    if min == 1 {
      CodePeak(code, r, back, p, d);
    } else if min != 0 {
      ExactlyPeak(code, r, back, min, p, d);
    }
    PassStays(code, mid, d);
    if max == INT32_MAX {
      StarPeak(code, r, back, greedy, check, mid, d);
    } else if 0 < max {
      UpToPeak(code, r, back, greedy, max, mid, d);
    }
    PassJoin(code, p, d, mid, d, d + if min == 0 then 0 else if min == 1 then n else n + 1, mid + |tail|, d,
      d + if max == INT32_MAX then (if check then n + 1 else n) else if 0 < max then n + 1 else 0);
  }

  lemma RepeatPeak(code: seq<byte>, r: Regex, back: bool, min: nat, max: nat, greedy: bool, p: nat, d: nat)
    requires Parsed(r) && min <= max <= INT32_MAX && At(code, p, RepeatCode(Code(r, back), min, max, greedy))
    ensures Lifts(code, p, d, p + |RepeatCode(Code(r, back), min, max, greedy)|, Peak(Repeat(r, min, max, greedy), back))
    decreases r, 4
  {
    hide At, Op32, U32, Code, Passes, SimpleCount, ChecksAdvance, ExactlyCode, StarCode, UpToCode, HeadCode, TailCode;
    var x, n := Code(r, back), Peak(r, back);
    if greedy && 0 < max && 0 < SimpleCount(x, 0, 0) {
      SimplePeak(code, r, back, min, max, SimpleCount(x, 0, 0), p, d);
    } else if min == 0 && max == 1 {
      OptionPeak(code, r, back, greedy, p, d);
    } else if min == 1 && max == INT32_MAX && !(greedy && !ChecksAdvance(x)) {
      PlusPeak(code, r, back, greedy, p, d);
    } else {
      RepeatShape(x, min, max, greedy);
      HeadTailPeak(code, r, back, min, TailMax(min, max), greedy, greedy && !ChecksAdvance(x), p, d);
    }
  }

  lemma OnePeak(code: seq<byte>, r: Regex, back: bool, p: nat, d: nat)
    requires Parsed(r) && IsOne(r) && At(code, p, Code(r, back))
    ensures Lifts(code, p, d, p + |Code(r, back)|, 0)
  {
    hide At, Passes, ForwardCode, InstrSize, ClassCode, Op16, Op32;
    var x := ForwardCode(r);
    var m := Machine(code, Subject([], false));
    CodeOfOne(r, back);
    if back {
      AtSplit(code, p, [OP_PREV] + x, [OP_PREV]);
      AtSplit(code, p, [OP_PREV], x);
      OneAccepts(m, p + 1, r, 0);
      var q := p + 1 + |x|;
      PassOp(code, p, OP_PREV, d);
      PassOne(code, p + 1, d);
      PassOp(code, q, OP_PREV, d);
      PassJoin(code, p, d, p + 1, d, d, q, d, d);
      PassJoin(code, p, d, q, d, d, q + 1, d, d);
    } else {
      OneAccepts(m, p, r, 0);
      PassOne(code, p, d);
    }
  }

  /** The pass over the code of `r` goes as deep as its loops are nested. */
  lemma {:induction false} CodePeak(code: seq<byte>, r: Regex, back: bool, p: nat, d: nat)
    requires Parsed(r) && At(code, p, Code(r, back))
    ensures Lifts(code, p, d, p + |Code(r, back)|, Peak(r, back))
    decreases r, 1
  {
    hide Passes, ChoiceCode, LookCode, RepeatCode, ClassCode, OneCode, Op16, Op32, At, NeedsEntry;
    match r
    case Empty => PassStays(code, p, d);
    case Concat(a, b) =>
      if back { ConcatPeak(code, b, a, r, back, p, d); } else { ConcatPeak(code, a, b, r, back, p, d); }
    case Choice(a, b) => ChoicePeak(code, a, b, back, p, d);
    case Look(negated, behind, body) => LookPeak(code, body, negated, behind, p, d);
    case Repeat(body, min, max, greedy) => RepeatPeak(code, body, back, min, max, greedy, p, d);
    case LineStart => AssertionPeak(code, r, back, p, d);
    case LineEnd => AssertionPeak(code, r, back, p, d);
    case WordBoundary(_) => AssertionPeak(code, r, back, p, d);
    case _ => OnePeak(code, r, back, p, d);
  }

  lemma AssertionPeak(code: seq<byte>, r: Regex, back: bool, p: nat, d: nat)
    requires IsAssertion(r) && At(code, p, Code(r, back))
    ensures Lifts(code, p, d, p + |Code(r, back)|, 0)
  {
    hide Passes, InstrSize;
    AssertionOp(Machine(code, Subject([], false)), p, r, back, 0);
    PassOne(code, p, d);
  }

  lemma ConcatPeak(code: seq<byte>, x: Regex, y: Regex, r: Regex, back: bool, p: nat, d: nat)
    requires Parsed(x) && Parsed(y) && r == if back then Concat(y, x) else Concat(x, y)
    requires At(code, p, Code(x, back) + Code(y, back))
    ensures Lifts(code, p, d, p + |Code(x, back)| + |Code(y, back)|, Larger(Peak(x, back), Peak(y, back)))
    decreases r, 0
  {
    hide Code, Passes, Peak;
    var cx, cy := Code(x, back), Code(y, back);
    AtSplit(code, p, cx, cy);
    CodePeak(code, x, back, p, d);
    CodePeak(code, y, back, p + |cx|, d);
    PassJoin(code, p, d, p + |cx|, d, d + Peak(x, back), p + |cx| + |cy|, d, d + Peak(y, back));
  }

  lemma ChoicePeak(code: seq<byte>, a: Regex, b: Regex, back: bool, p: nat, d: nat)
    requires Parsed(a) && Parsed(b) && At(code, p, ChoiceCode(Code(a, back), Code(b, back)))
    ensures Lifts(code, p, d, p + |ChoiceCode(Code(a, back), Code(b, back))|, Larger(Peak(a, back), Peak(b, back)))
    decreases Choice(a, b), 0
  {
    hide At, Op32, Code, Passes, Peak;
    var ca, cb, na, nb := Code(a, back), Code(b, back), Peak(a, back), Peak(b, back);
    ChoiceLayout(code, p, ca, cb);
    var q := p + 5 + |ca|;
    PassOp32(code, p, OP_SPLIT_NEXT_FIRST, |ca| + 5, d);
    CodePeak(code, a, back, p + 5, d);
    PassOp32(code, q, OP_GOTO, |cb|, d);
    CodePeak(code, b, back, q + 5, d);
    PassJoin(code, p, d, p + 5, d, d, q, d, d + na);
    PassJoin(code, p, d, q, d, d + na, q + 5, d, d);
    PassJoin(code, p, d, q + 5, d, d + na, q + 5 + |cb|, d, d + nb);
  }

  lemma LookPeak(code: seq<byte>, r: Regex, negated: bool, behind: bool, p: nat, d: nat)
    requires Parsed(r) && At(code, p, LookCode(negated, Code(r, behind)))
    ensures Lifts(code, p, d, p + |LookCode(negated, Code(r, behind))|, Peak(r, behind))
    decreases r, 2
  {
    hide At, Op32, Code, Passes, Peak;
    var x, n := Code(r, behind), Peak(r, behind);
    var op := if negated then OP_NEGATIVE_LOOKAHEAD else OP_LOOKAHEAD;
    AtSplit(code, p, Op32(op, |x| + 1) + x, [OP_MATCH]);
    AtSplit(code, p, Op32(op, |x| + 1), x);
    PassOp32(code, p, op, |x| + 1, d);
    CodePeak(code, r, behind, p + 5, d);
    PassOp(code, p + 5 + |x|, OP_MATCH, d);
    PassJoin(code, p, d, p + 5, d, d, p + 5 + |x|, d, d + n);
    PassJoin(code, p, d, p + 5 + |x|, d, d + n, p + 6 + |x|, d, d);
  }

  lemma SavePass(code: seq<byte>, p: nat, op: byte)
    requires At(code, p, [op, 0]) && (op == OP_SAVE_START || op == OP_SAVE_END)
    ensures Passes(code, p, 0, p + 2, 0, 0)
  {
    assert [op, 0] == [op] + [0];
    AtSplit(code, p, [op], [0]);
    AtOp(code, p, op);
    PassOne(code, p, 0);
  }

  lemma SearchPass(code: seq<byte>, p: nat)
    requires At(code, p, SEARCH_LOOP)
    ensures |SEARCH_LOOP| == 11 && Passes(code, p, 0, p + 11, 0, 0)
  {
    hide Op32, At, Passes;
    var split, jump := Op32(OP_SPLIT_GOTO_FIRST, 6), Op32(OP_GOTO, -11);
    AtSplit(code, p, split + [OP_ANY], jump);
    AtSplit(code, p, split, [OP_ANY]);
    PassOp32(code, p, OP_SPLIT_GOTO_FIRST, 6, 0);
    PassOp(code, p + 5, OP_ANY, 0);
    PassOp32(code, p + 6, OP_GOTO, -11, 0);
    PassJoin(code, p, 0, p + 5, 0, 0, p + 6, 0, 0);
    PassJoin(code, p, 0, p + 6, 0, 0, p + 11, 0, 0);
  }

  /**
   compute_stack_size on a whole program never meets a malformed instruction: it fails exactly for
   patterns whose loops are nested too deep, and otherwise returns their depth.
   */
  lemma ProgramPeak(code: seq<byte>, r: Regex, sticky: bool)
    requires Parsed(r) && RE_HEADER_LEN <= |code| && code[RE_HEADER_LEN..] == Body(r, sticky)
    ensures ComputeStackSize(code, RE_HEADER_LEN, 0, 0)
         == if STACK_SIZE_MAX < Peak(r, false) then TooDeep else Size(Peak(r, false))
  {
    hide Code, Passes, Peak, SEARCH_LOOP, At;
    var x, n := Code(r, false), Peak(r, false);
    var start, body := RE_HEADER_LEN, [OP_SAVE_START, 0] + x + [OP_SAVE_END, 0] + [OP_MATCH];
    var search := if sticky then [] else SEARCH_LOOP;
    assert Body(r, sticky) == search + body;
    BodyIsAt(code, Body(r, sticky));
    AtSplit(code, start, search, body);
    var p := start + |search|;
    PassStays(code, p, 0);
    if !sticky { SearchPass(code, start); }
    AtSplit(code, p, [OP_SAVE_START, 0] + x + [OP_SAVE_END, 0], [OP_MATCH]);
    AtSplit(code, p, [OP_SAVE_START, 0] + x, [OP_SAVE_END, 0]);
    AtSplit(code, p, [OP_SAVE_START, 0], x);
    var q := p + 2 + |x|;
    SavePass(code, p, OP_SAVE_START);
    CodePeak(code, r, false, p + 2, 0);
    SavePass(code, q, OP_SAVE_END);
    PassOp(code, q + 2, OP_MATCH, 0);
    PassJoin(code, start, 0, p, 0, 0, p + 2, 0, 0);
    PassJoin(code, start, 0, p + 2, 0, 0, q, 0, n);
    PassJoin(code, start, 0, q, 0, n, q + 2, 0, 0);
    PassJoin(code, start, 0, q + 2, 0, n, q + 3, 0, 0);
    PassEnds(code, start, n, q + 3);
  }

  lemma BodyIsAt(code: seq<byte>, body: seq<byte>)
    requires RE_HEADER_LEN <= |code| && code[RE_HEADER_LEN..] == body
    ensures At(code, RE_HEADER_LEN, body)
  {
  }

  lemma PassEnds(code: seq<byte>, p: nat, n: nat, q: nat)
    requires Passes(code, p, 0, q, 0, n) && |code| <= q
    ensures ComputeStackSize(code, p, 0, 0) == if STACK_SIZE_MAX < n then TooDeep else Size(n)
  {
  }
}
