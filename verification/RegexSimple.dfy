/**
 The shortcut for greedy quantifiers over straight-line atoms: one saved state with a counter
 instead of one saved state per iteration finds the same ends in the same order.
 */
module RegexSimple {
  import opened Wrappers
  import opened RegexSyntax
  import opened RegexBytecode
  import RegexClass
  import opened RegexVm
  import opened RegexSim
  import opened RegexAtoms

  /** Reading instructions one after the other from `p` ends exactly at the end of the code. */
  ghost predicate Aligned(code: seq<byte>, p: nat)
    decreases |code| - p
  {
    p == |code| || (p < |code| && InstrSize(code, p) != 0 && Aligned(code, p + InstrSize(code, p)))
  }

  lemma InstrInPrefix(a: seq<byte>, b: seq<byte>, p: nat)
    requires p < |a| && InstrSize(a, p) != 0
    ensures InstrSize(a + b, p) == InstrSize(a, p) && (a + b)[p] == a[p]
  {
    assert forall k :: 0 <= k < |a| ==> (a + b)[k] == a[k];
  }

  lemma InstrInSuffix(a: seq<byte>, b: seq<byte>, p: nat)
    requires p < |b|
    ensures InstrSize(a + b, |a| + p) == InstrSize(b, p) && (a + b)[|a| + p] == b[p]
  {
    assert forall k :: 0 <= k < |b| ==> (a + b)[|a| + k] == b[k];
    if p + 3 <= |b| { assert GetU16(a + b, |a| + p + 1) == GetU16(b, p + 1); }
  }

  lemma {:induction false} AlignedSuffix(a: seq<byte>, b: seq<byte>, p: nat)
    requires Aligned(b, p)
    ensures Aligned(a + b, |a| + p)
    decreases |b| - p
  {
    if p != |b| {
      InstrInSuffix(a, b, p);
      AlignedSuffix(a, b, p + InstrSize(b, p));
      assert |a| + (p + InstrSize(b, p)) == |a| + p + InstrSize(b, p);
    }
  }

  lemma {:induction false} AlignedFrom(a: seq<byte>, b: seq<byte>, p: nat)
    requires Aligned(a, p) && Aligned(b, 0)
    ensures Aligned(a + b, p)
    decreases |a| - p
  {
    if p == |a| {
      AlignedSuffix(a, b, 0);
    } else {
      InstrInPrefix(a, b, p);
      AlignedFrom(a, b, p + InstrSize(a, p));
    }
  }

  lemma AlignedConcat(a: seq<byte>, b: seq<byte>)
    requires Aligned(a, 0) && Aligned(b, 0)
    ensures Aligned(a + b, 0)
  {
    AlignedFrom(a, b, 0);
  }

  lemma AlignedOne(a: seq<byte>)
    requires a != [] && InstrSize(a, 0) == |a|
    ensures Aligned(a, 0)
  {
    assert Aligned(a, |a|);
  }

  lemma {:induction false} SimpleCountSuffix(a: seq<byte>, b: seq<byte>, p: nat, count: nat)
    requires Aligned(b, p)
    ensures SimpleCount(a + b, |a| + p, count) == SimpleCount(b, p, count)
    decreases |b| - p
  {
    if p < |b| {
      InstrInSuffix(a, b, p);
      var n := InstrSize(b, p);
      assert |a| + (p + n) == |a| + p + n;
      SimpleCountSuffix(a, b, p + n, count);
      SimpleCountSuffix(a, b, p + n, count + 1);
    }
  }

  lemma {:induction false} SimpleCountConcat(a: seq<byte>, b: seq<byte>, p: nat, count: nat)
    requires Aligned(a, p) && Aligned(b, 0)
    ensures SimpleCount(a + b, p, count)
         == if SimpleCount(a, p, count) < 0 then -1 else SimpleCount(b, 0, SimpleCount(a, p, count))
    decreases |a| - p
  {
    if p == |a| {
      SimpleCountSuffix(a, b, 0, count);
    } else {
      InstrInPrefix(a, b, p);
      var n := InstrSize(a, p);
      SimpleCountConcat(a, b, p + n, count);
      SimpleCountConcat(a, b, p + n, count + 1);
    }
  }

  lemma {:induction false} SimpleCountAdds(b: seq<byte>, p: nat, count: nat)
    ensures SimpleCount(b, p, 0) < 0 ==> SimpleCount(b, p, count) == -1
    ensures 0 <= SimpleCount(b, p, 0) ==> SimpleCount(b, p, count) == count + SimpleCount(b, p, 0)
    decreases |b| - p
  {
    if p < |b| && InstrSize(b, p) != 0 {
      SimpleCountAdds(b, p + InstrSize(b, p), count);
      SimpleCountAdds(b, p + InstrSize(b, p), count + 1);
      SimpleCountAdds(b, p + InstrSize(b, p), 1);
    }
  }

  // ---------------------------------------------------------------- every emitted fragment is aligned

  lemma AlignedOp32(op: byte, v: int)
    requires OpSize(op) == 5
    ensures Aligned(Op32(op, v), 0)
  {
    AlignedOne(Op32(op, v));
  }

  lemma AlignedOp(op: byte)
    requires OpSize(op) == 1
    ensures Aligned([op], 0)
  {
    AlignedOne([op]);
  }

  lemma AlignedEmpty()
    ensures Aligned([], 0)
  {
  }

  lemma AlignedClass(pts: seq<nat>)
    requires ValidPoints(pts)
    ensures Aligned(ClassCode(pts), 0)
  {
    var code := ClassCode(pts);
    if pts == [] {
      AlignedOp32(OP_CHAR32, -1);
    } else {
      assert code[..] == code;
      RegexClass.ClassInstr(code, 0, pts);
      AlignedOne(code);
    }
  }

  lemma AlignedStar(x: seq<byte>, greedy: bool, check: bool)
    requires Aligned(x, 0)
    ensures Aligned(StarCode(x, greedy, check), 0)
  {
    hide Op32, InstrSize, Aligned, OpSize;
    if check {
      var a, b := Op32(SplitOp(greedy), |x| + 6), Op32(OP_BNE_CHAR_POS, -(|x| + 11));
      AlignedSplitOp(greedy, |x| + 6);
      AlignedBytes();
      AlignedConcat(a, [OP_PUSH_CHAR_POS]);
      AlignedConcat(a + [OP_PUSH_CHAR_POS], x);
      AlignedJump(OP_BNE_CHAR_POS, -(|x| + 11));
      AlignedConcat(a + [OP_PUSH_CHAR_POS] + x, b);
    } else {
      var a, b := Op32(SplitOp(greedy), |x| + 5), Op32(OP_GOTO, -(|x| + 10));
      AlignedSplitOp(greedy, |x| + 5);
      AlignedConcat(a, x);
      AlignedJump(OP_GOTO, -(|x| + 10));
      AlignedConcat(a + x, b);
    }
  }

  lemma AlignedSplitOp(next: bool, v: int)
    ensures Aligned(Op32(SplitOp(next), v), 0)
  {
    AlignedOp32(SplitOp(next), v);
  }

  lemma AlignedJump(op: byte, v: int)
    requires op in {OP_GOTO, OP_SPLIT_NEXT_FIRST, OP_SPLIT_GOTO_FIRST, OP_LOOP, OP_PUSH_I32, OP_BNE_CHAR_POS,
                    OP_LOOKAHEAD, OP_NEGATIVE_LOOKAHEAD}
    ensures Aligned(Op32(op, v), 0)
  {
    AlignedOp32(op, v);
  }

  lemma AlignedBytes()
    ensures Aligned([OP_PUSH_CHAR_POS], 0) && Aligned([OP_DROP], 0) && Aligned([OP_MATCH], 0) && Aligned([OP_PREV], 0)
  {
    AlignedOp(OP_PUSH_CHAR_POS);
    AlignedOp(OP_DROP);
    AlignedOp(OP_MATCH);
    AlignedOp(OP_PREV);
  }

  lemma AlignedUpTo(x: seq<byte>, count: nat, greedy: bool)
    requires Aligned(x, 0)
    ensures Aligned(UpToCode(x, count, greedy), 0)
  {
    hide Op32, InstrSize, Aligned, OpSize;
    var a, b := Op32(OP_PUSH_I32, count), Op32(SplitOp(greedy), |x| + 5);
    var c := Op32(OP_LOOP, -(|x| + 10));
    AlignedJump(OP_PUSH_I32, count);
    AlignedSplitOp(greedy, |x| + 5);
    AlignedJump(OP_LOOP, -(|x| + 10));
    AlignedBytes();
    AlignedConcat(a, b);
    AlignedConcat(a + b, x);
    AlignedConcat(a + b + x, c);
    AlignedConcat(a + b + x + c, [OP_DROP]);
  }

  lemma AlignedExactly(x: seq<byte>, count: nat)
    requires Aligned(x, 0)
    ensures Aligned(ExactlyCode(x, count), 0)
  {
    hide Op32, InstrSize, Aligned, OpSize;
    var a, c := Op32(OP_PUSH_I32, count), Op32(OP_LOOP, -(|x| + 5));
    AlignedJump(OP_PUSH_I32, count);
    AlignedJump(OP_LOOP, -(|x| + 5));
    AlignedBytes();
    AlignedConcat(a, x);
    AlignedConcat(a + x, c);
    AlignedConcat(a + x + c, [OP_DROP]);
  }

  lemma AlignedSimpleGreedy(x: seq<byte>, min: nat, max: nat, count: nat)
    requires Aligned(x, 0)
    ensures Aligned(SimpleGreedyCode(x, min, max, count), 0)
  {
    var a := SimpleGreedyOp(|x|, min, max, count);
    AlignedOne(a);
    AlignedBytes();
    hide InstrSize, Aligned, OpSize;
    AlignedConcat(a, x);
    AlignedConcat(a + x, [OP_MATCH]);
  }

  lemma AlignedRepeat(x: seq<byte>, min: nat, max: nat, greedy: bool)
    requires Aligned(x, 0) && min <= max
    ensures Aligned(RepeatCode(x, min, max, greedy), 0)
  {
    hide Op32, InstrSize, Aligned, OpSize, StarCode, UpToCode, ExactlyCode, SimpleGreedyCode, SimpleCount, ChecksAdvance;
    var check := greedy && !ChecksAdvance(x);
    AlignedEmpty();
    AlignedSimpleGreedy(x, min, max, if SimpleCount(x, 0, 0) < 0 then 0 else SimpleCount(x, 0, 0));
    AlignedStar(x, greedy, check);
    AlignedSplitOp(greedy, |x|);
    AlignedConcat(Op32(SplitOp(greedy), |x|), x);
    AlignedUpTo(x, max, greedy);
    AlignedUpTo(x, max - min, greedy);
    AlignedSplitOp(!greedy, -(|x| + 5));
    AlignedConcat(x, Op32(SplitOp(!greedy), -(|x| + 5)));
    AlignedExactly(x, min);
    var head := if min == 1 then x else ExactlyCode(x, min);
    var tail := if max == INT32_MAX then StarCode(x, greedy, check)
                else if min < max then UpToCode(x, max - min, greedy) else [];
    AlignedConcat(head, tail);
  }

  lemma AlignedBackward(x: seq<byte>, back: bool)
    requires Aligned(x, 0)
    ensures Aligned(OneCode(x, back), 0)
  {
    AlignedBytes();
    hide Aligned;
    AlignedConcat([OP_PREV], x);
    AlignedConcat([OP_PREV] + x, [OP_PREV]);
  }

  /** Instruction boundaries survive every insertion, copy and reversal of the compiler. */
  lemma {:induction false} AlignedCode(r: Regex, back: bool)
    requires Parsed(r)
    ensures Aligned(Code(r, back), 0)
  {
    match r
    case Empty =>
    case Char(c) =>
      var x := if c <= 0xffff then Op16(OP_CHAR, c) else Op32(OP_CHAR32, c);
      AlignedOne(x);
      AlignedBackward(x, back);
    case Dot => AlignedOp(OP_DOT); AlignedBackward([OP_DOT], back);
    case Any => AlignedOp(OP_ANY); AlignedBackward([OP_ANY], back);
    case Class(pts) => AlignedClass(pts); AlignedBackward(ClassCode(pts), back);
    case LineStart => AlignedOp(OP_LINE_START);
    case LineEnd => AlignedOp(OP_LINE_END);
    case WordBoundary(inverted) => AlignedOp(if inverted then OP_NOT_WORD_BOUNDARY else OP_WORD_BOUNDARY);
    case Concat(a, b) =>
      AlignedCode(a, back);
      AlignedCode(b, back);
      AlignedConcat(Code(a, back), Code(b, back));
      AlignedConcat(Code(b, back), Code(a, back));
    case Choice(a, b) =>
      AlignedCode(a, back);
      AlignedCode(b, back);
      AlignedChoice(Code(a, back), Code(b, back));
    case Look(negated, behind, body) =>
      AlignedCode(body, behind);
      AlignedLook(negated, Code(body, behind));
    case Repeat(body, min, max, greedy) =>
      AlignedCode(body, back);
      AlignedRepeat(Code(body, back), min, max, greedy);
  }

  lemma AlignedChoice(a: seq<byte>, b: seq<byte>)
    requires Aligned(a, 0) && Aligned(b, 0)
    ensures Aligned(ChoiceCode(a, b), 0)
  {
    hide Op32, InstrSize, Aligned, OpSize;
    var s, g := Op32(OP_SPLIT_NEXT_FIRST, |a| + 5), Op32(OP_GOTO, |b|);
    AlignedJump(OP_SPLIT_NEXT_FIRST, |a| + 5);
    AlignedJump(OP_GOTO, |b|);
    AlignedConcat(s, a);
    AlignedConcat(s + a, g);
    AlignedConcat(s + a + g, b);
  }

  lemma AlignedLook(negated: bool, x: seq<byte>)
    requires Aligned(x, 0)
    ensures Aligned(LookCode(negated, x), 0)
  {
    hide Op32, InstrSize, Aligned, OpSize;
    var s := Op32(if negated then OP_NEGATIVE_LOOKAHEAD else OP_LOOKAHEAD, |x| + 1);
    AlignedJump(if negated then OP_NEGATIVE_LOOKAHEAD else OP_LOOKAHEAD, |x| + 1);
    AlignedBytes();
    AlignedConcat(s, x);
    AlignedConcat(s + x, [OP_MATCH]);
  }

  // ---------------------------------------------------------------- what straight-line code does

  lemma NotSimple(code: seq<byte>)
    requires code != [] && !IsCharOp(code[0]) && !IsAssertOp(code[0])
    ensures SimpleCount(code, 0, 0) == -1
  {
  }

  lemma NotSimpleConcat(a: seq<byte>, b: seq<byte>)
    requires Aligned(a, 0) && Aligned(b, 0)
    requires SimpleCount(a, 0, 0) < 0 || SimpleCount(b, 0, 0) < 0
    ensures SimpleCount(a + b, 0, 0) == -1
  {
    SimpleCountConcat(a, b, 0, 0);
    if 0 <= SimpleCount(a, 0, 0) { SimpleCountAdds(b, 0, SimpleCount(a, 0, 0)); }
  }

  /** Only `x{1}` is emitted without any control opcode, and `x{0}` without any code. */
  lemma SimpleRepeat(x: seq<byte>, min: nat, max: nat, greedy: bool)
    requires Aligned(x, 0) && min <= max
    requires 0 <= SimpleCount(RepeatCode(x, min, max, greedy), 0, 0)
    ensures max == 0 || (min == 1 && max == 1 && RepeatCode(x, min, max, greedy) == x)
  {
    hide SimpleCount, ScanAdvance, InstrSize, Aligned, U32;
    var code := RepeatCode(x, min, max, greedy);
    var check := greedy && !ChecksAdvance(x);
    if greedy && 0 < max && 0 < SimpleCount(x, 0, 0) {
      NotSimple(code);
    } else if min == 0 {
      if 0 < max { NotSimple(code); }
    } else if min == 1 && max == INT32_MAX && !check {
      var b := Op32(SplitOp(!greedy), -(|x| + 5));
      AlignedSplitOp(!greedy, -(|x| + 5));
      NotSimple(b);
      NotSimpleConcat(x, b);
    } else if min == 1 && 1 < max {
      var b := if max == INT32_MAX then StarCode(x, greedy, check) else UpToCode(x, max - 1, greedy);
      if max == INT32_MAX { AlignedStar(x, greedy, check); } else { AlignedUpTo(x, max - 1, greedy); }
      NotSimple(b);
      NotSimpleConcat(x, b);
    } else if min == 1 {
      assert x + [] == x;
    } else {
      NotSimple(code);
    }
  }

  /** Straight-line code between `p` and `q` fails at `i`, or moves on by `n` characters. */
  ghost predicate Straight(m: Machine, js: seq<nat>, p: nat, i: nat, q: nat, n: int)
    requires i <= |m.subject.chars|
  {
    if js == [] then RunSimple(m, p, i) == Refused
    else 0 <= n && js == [i + n] && i + n <= |m.subject.chars| && RunSimple(m, p, i) == RunSimple(m, q, i + n)
  }

  lemma StraightEnd(m: Machine, js: seq<nat>, p: nat, i: nat, q: nat, n: int)
    requires i <= |m.subject.chars| && Straight(m, js, p, i, q, n) && js != []
    ensures 0 <= n && i + n <= |m.subject.chars| && js == [i + n]
  {
  }

  lemma StraightThen(m: Machine, x: Regex, y: Regex, back: bool, p: nat, i: nat, q: nat, n: int, q': nat, n': int)
    requires i <= |m.subject.chars|
    requires Straight(m, Ends(m.subject, x, back, i), p, i, q, n)
    requires var js := Ends(m.subject, x, back, i);
      js == [] || Straight(m, Ends(m.subject, y, back, i + n), q, i + n, q', n')
    ensures Straight(m, EndsEach(m.subject, y, back, i, Ends(m.subject, x, back, i)), p, i, q', n + n')
  {
    var js := Ends(m.subject, x, back, i);
    if js != [] {
      assert Toward(m.subject, back, i, js[0]) by { assert js[0] in js; }
      assert EndsEach(m.subject, y, back, i, js[1..]) == [];
    }
  }

  lemma {:induction false} SimpleRun(m: Machine, r: Regex, back: bool, p: nat, i: nat)
    requires Parsed(r) && At(m.code, p, Code(r, back)) && 0 <= SimpleCount(Code(r, back), 0, 0)
    requires i <= |m.subject.chars| && forall k :: 0 <= k < |m.subject.chars| ==> m.subject.chars[k] < UINT32_MAX
    ensures Straight(m, Ends(m.subject, r, back, i), p, i, p + |Code(r, back)|, SimpleCount(Code(r, back), 0, 0))
    decreases r
  {
    hide ExecBasic, InstrSize, SimpleCount, RepeatCode, ClassCode, MatchesOne, Straight, RunSimple, Ends, Code;
    var s := m.subject;
    match r
    case Empty => SimpleEmpty(m, r, back, p, i);
    case Char(_) => SimpleOne(m, r, back, p, i);
    case Dot => SimpleOne(m, r, back, p, i);
    case Any => SimpleOne(m, r, back, p, i);
    case Class(_) => SimpleOne(m, r, back, p, i);
    case LineStart => SimpleAssertion(m, r, back, p, i);
    case LineEnd => SimpleAssertion(m, r, back, p, i);
    case WordBoundary(_) => SimpleAssertion(m, r, back, p, i);
    case Concat(a, b) =>
      var x, y := if back then b else a, if back then a else b;
      SimpleParts(r, x, y, back);
      AtSplit(m.code, p, Code(x, back), Code(y, back));
      SimpleRun(m, x, back, p, i);
      if Ends(s, x, back, i) != [] {
        var n := SimpleCount(Code(x, back), 0, 0);
        StraightEnd(m, Ends(s, x, back, i), p, i, p + |Code(x, back)|, n);
        SimpleRun(m, y, back, p + |Code(x, back)|, i + n);
      }
      SimpleConcat(m, r, x, y, back, p, i);
    case Choice(_, _) => NotSimpleBranch(r, back);
    case Look(_, _, _) => NotSimpleBranch(r, back);
    case Repeat(body, min, max, greedy) =>
      SimpleRepeatBody(r, back);
      if max != 0 { SimpleRun(m, body, back, p, i); }
      SimpleRepeatRun(m, r, back, p, i);
  }

  lemma SimpleRepeatBody(r: Regex, back: bool)
    requires r.Repeat? && Parsed(r) && 0 <= SimpleCount(Code(r, back), 0, 0)
    ensures r.max == 0 ==> r.min == 0 && Code(r, back) == []
    ensures r.max != 0 ==> r.min == 1 && r.max == 1 && Code(r, back) == Code(r.body, back)
  {
    hide SimpleCount;
    AlignedCode(r.body, back);
    SimpleRepeat(Code(r.body, back), r.min, r.max, r.greedy);
    if r.max == 0 { NoIterations(Code(r.body, back), r.greedy); }
  }

  lemma SimpleRepeatRun(m: Machine, r: Regex, back: bool, p: nat, i: nat)
    requires r.Repeat? && Parsed(r) && 0 <= SimpleCount(Code(r, back), 0, 0) && i <= |m.subject.chars|
    requires r.max != 0 ==>
      Straight(m, Ends(m.subject, r.body, back, i), p, i, p + |Code(r.body, back)|, SimpleCount(Code(r.body, back), 0, 0))
    ensures Straight(m, Ends(m.subject, r, back, i), p, i, p + |Code(r, back)|, SimpleCount(Code(r, back), 0, 0))
  {
    hide SimpleCount, Straight, Code;
    SimpleRepeatBody(r, back);
    if r.max == 0 {
      EmptyCount();
      Stays(m, r, back, p, i);
    } else {
      OneIteration(m.subject, r.body, r.greedy, back, i, Ends(m.subject, r.body, back, i));
    }
  }

  /** Backward atoms hold `prev`, so the shortcut is for the forward direction only. */
  lemma {:induction false} SimpleIsForward(r: Regex)
    requires Parsed(r)
    ensures SimpleCount(Code(r, true), 0, 0) <= 0
    decreases r
  {
    hide SimpleCount, Code, ClassCode, RepeatCode, InstrSize;
    if 0 <= SimpleCount(Code(r, true), 0, 0) {
      match r
      case Concat(a, b) =>
        SimpleParts(r, b, a, true);
        SimpleIsForward(a);
        SimpleIsForward(b);
      case Choice(_, _) => NotSimpleBranch(r, true);
      case Look(_, _, _) => NotSimpleBranch(r, true);
      case Repeat(body, min, max, _) =>
        SimpleRepeatBody(r, true);
        EmptyCount();
        SimpleIsForward(body);
      case _ => LeafIsForward(r);
    }
  }

  lemma LeafIsForward(r: Regex)
    requires Parsed(r) && (r.Empty? || IsOne(r) || IsAssertion(r))
    ensures SimpleCount(Code(r, true), 0, 0) <= 0
  {
    if IsOne(r) {
      hide ClassCode;
      assert Code(r, true) == OneCode(ForwardCode(r), true);
      NotSimple(Code(r, true));
    }
  }

  lemma NotSimpleBranch(r: Regex, back: bool)
    requires Parsed(r) && (r.Choice? || r.Look?)
    ensures SimpleCount(Code(r, back), 0, 0) == -1
  {
    NotSimple(Code(r, back));
  }

  lemma SimpleEmpty(m: Machine, r: Regex, back: bool, p: nat, i: nat)
    requires r.Empty? && i <= |m.subject.chars|
    ensures SimpleCount(Code(r, back), 0, 0) == 0
    ensures Straight(m, Ends(m.subject, r, back, i), p, i, p + |Code(r, back)|, 0)
  {
    EmptyCount();
    Stays(m, r, back, p, i);
  }

  lemma SimpleParts(r: Regex, x: Regex, y: Regex, back: bool)
    requires Parsed(r) && r.Concat? && x == (if back then r.second else r.first) && y == (if back then r.first else r.second)
    requires 0 <= SimpleCount(Code(r, back), 0, 0)
    ensures 0 <= SimpleCount(Code(x, back), 0, 0) && 0 <= SimpleCount(Code(y, back), 0, 0)
    ensures SimpleCount(Code(r, back), 0, 0) == SimpleCount(Code(x, back), 0, 0) + SimpleCount(Code(y, back), 0, 0)
    ensures Code(r, back) == Code(x, back) + Code(y, back)
  {
    hide SimpleCount;
    var cx, cy := Code(x, back), Code(y, back);
    AlignedCode(x, back);
    AlignedCode(y, back);
    SimpleCountConcat(cx, cy, 0, 0);
    SimpleCountAdds(cy, 0, if SimpleCount(cx, 0, 0) < 0 then 0 else SimpleCount(cx, 0, 0));
  }

  lemma SimpleConcat(m: Machine, r: Regex, x: Regex, y: Regex, back: bool, p: nat, i: nat)
    requires Parsed(r) && r.Concat? && x == (if back then r.second else r.first) && y == (if back then r.first else r.second)
    requires 0 <= SimpleCount(Code(r, back), 0, 0) && i <= |m.subject.chars|
    requires Straight(m, Ends(m.subject, x, back, i), p, i, p + |Code(x, back)|, SimpleCount(Code(x, back), 0, 0))
    requires Ends(m.subject, x, back, i) == [] ||
      var n := SimpleCount(Code(x, back), 0, 0);
      && 0 <= n && i + n <= |m.subject.chars|
      && Straight(m, Ends(m.subject, y, back, i + n), p + |Code(x, back)|, i + n, p + |Code(x, back)| + |Code(y, back)|, SimpleCount(Code(y, back), 0, 0))
    ensures Straight(m, Ends(m.subject, r, back, i), p, i, p + |Code(r, back)|, SimpleCount(Code(r, back), 0, 0))
  {
    hide SimpleCount, Straight;
    SimpleParts(r, x, y, back);
    var cx, cy := Code(x, back), Code(y, back);
    StraightThen(m, x, y, back, p, i, p + |cx|, SimpleCount(cx, 0, 0), p + |cx| + |cy|, SimpleCount(cy, 0, 0));
  }

  lemma Stays(m: Machine, r: Regex, back: bool, p: nat, i: nat)
    requires i <= |m.subject.chars| && Ends(m.subject, r, back, i) == [i]
    ensures Straight(m, Ends(m.subject, r, back, i), p, i, p, 0)
  {
  }

  lemma SimpleAssertion(m: Machine, r: Regex, back: bool, p: nat, i: nat)
    requires IsAssertion(r) && At(m.code, p, Code(r, back)) && i <= |m.subject.chars|
    ensures SimpleCount(Code(r, back), 0, 0) == 0
    ensures Straight(m, Ends(m.subject, r, back, i), p, i, p + |Code(r, back)|, 0)
  {
    hide ExecBasic;
    AssertionOp(m, p, r, back, i);
  }

  lemma EmptyCount()
    ensures SimpleCount([], 0, 0) == 0
  {
  }

  lemma NoIterations(x: seq<byte>, greedy: bool)
    ensures RepeatCode(x, 0, 0, greedy) == []
  {
  }

  lemma {:induction false} OneIteration(s: Subject, r: Regex, greedy: bool, back: bool, i: nat, js: seq<nat>)
    requires i <= |s.chars| && forall j :: j in js ==> Toward(s, back, i, j)
    ensures IterateEach(s, r, 1, Some(1), greedy, back, i, js) == js
  {
    if js != [] {
      assert Toward(s, back, i, js[0]);
      assert Iterate(s, r, 0, Some(0), greedy, back, js[0]) == [js[0]];
      OneIteration(s, r, greedy, back, i, js[1..]);
    }
  }

  lemma SimpleOne(m: Machine, r: Regex, back: bool, p: nat, i: nat)
    requires Parsed(r) && IsOne(r) && At(m.code, p, Code(r, back)) && 0 <= SimpleCount(Code(r, back), 0, 0)
    requires i <= |m.subject.chars| && forall k :: 0 <= k < |m.subject.chars| ==> m.subject.chars[k] < UINT32_MAX
    ensures !back && SimpleCount(Code(r, back), 0, 0) == 1
    ensures Straight(m, Ends(m.subject, r, back, i), p, i, p + |Code(r, back)|, 1)
  {
    hide ExecBasic, ClassCode, MatchesOne;
    var x := ForwardCode(r);
    assert Code(r, back) == OneCode(x, back);
    if back {
      NotSimple(Code(r, back));
    } else {
      OneAccepts(m, p, r, i);
      OneCount(m, r, p);
    }
  }

  lemma OneCount(m: Machine, r: Regex, p: nat)
    requires Parsed(r) && IsOne(r) && At(m.code, p, ForwardCode(r))
    ensures SimpleCount(ForwardCode(r), 0, 0) == 1
  {
    hide ExecBasic, ClassCode, MatchesOne;
    var x := ForwardCode(r);
    assert x[..] == x;
    OneAccepts(Machine(x, Subject([], false)), 0, r, 0);
    assert InstrSize(x, 0) == |x|;
  }

  // ---------------------------------------------------------------- the greedy loop and its way back

  /** `e`, `e - n`, ..., `c` steps down. */
  ghost function Down(e: nat, n: nat, c: nat): seq<nat>
    requires n * c <= e
  {
    if c == 0 then [e] else
      assert n * (c - 1) == n * c - n;
      [e] + Down(e - n, n, c - 1)
  }

  lemma DownHead(e: nat, n: nat, c: nat)
    requires n * c <= e
    ensures Down(e, n, c) != [] && Down(e, n, c)[0] == e
    ensures c == 0 ==> Down(e, n, c)[1..] == []
    ensures 0 < c ==> n * (c - 1) <= e - n && Down(e, n, c)[1..] == Down(e - n, n, c - 1)
  {
    if 0 < c { assert n * (c - 1) == n * c - n; }
  }

  lemma {:induction false} DownSnoc(e: nat, n: nat, c: nat)
    requires n * (c + 1) <= e
    ensures n * c <= e && Down(e, n, c + 1) == Down(e, n, c) + [e - n * (c + 1)]
  {
    assert n * (c + 1) == n * c + n;
    if c != 0 {
      assert n * (c - 1) == n * c - n;
      DownSnoc(e - n, n, c - 1);
      assert e - n - n * (c - 1 + 1) == e - n * (c + 1);
    } else {
      assert Down(e - n, n, 0) == [e - n];
    }
  }

  /** The atom at `p` is straight-line code for `r` that takes `n` characters. */
  ghost predicate Atom(m: Machine, r: Regex, p: nat, n: nat) {
    && 0 < n && Parsed(r) && SimpleCount(Code(r, false), 0, 0) == n
    && At(m.code, p, Code(r, false) + [OP_MATCH])
    && forall k :: 0 <= k < |m.subject.chars| ==> m.subject.chars[k] < UINT32_MAX
  }

  lemma AtomRun(m: Machine, r: Regex, p: nat, n: nat, i: nat)
    requires Atom(m, r, p, n) && i <= |m.subject.chars|
    ensures var js := Ends(m.subject, r, false, i);
      if js == [] then RunSimple(m, p, i) == Refused
      else js == [i + n] && i + n <= |m.subject.chars| && RunSimple(m, p, i) == Advanced(i + n)
  {
    hide Ends, SimpleCount, Code, ExecBasic;
    var x := Code(r, false);
    AtSplit(m.code, p, x, [OP_MATCH]);
    SimpleRun(m, r, false, p, i);
    AtOp(m.code, p + |x|, OP_MATCH);
  }

  function Max(a: nat, b: nat): nat { if a < b then b else a }

  function Minus(a: nat, b: nat): nat { if a < b then 0 else a - b }

  /** The ends after `q` iterations or more, when the loop made `total` and stands at `e`. */
  ghost function Visited(min: nat, q: nat, total: nat, e: nat, n: nat): seq<nat>
    requires q <= total && n * (total - q) <= e
  {
    if total < min then [] else
      MulMonotone(n, total - Max(min, q), total - q);
      Down(e, n, total - Max(min, q))
  }

  lemma VisitedBelow(min: nat, q: nat, total: nat, e: nat, n: nat, i: nat)
    requires q < total && i <= e && n * (total - q) == e - i
    ensures n * (total - (q + 1)) <= e
    ensures Visited(min, q, total, e, n)
         == Visited(min, q + 1, total, e, n) + (if min <= q then [i] else [])
  {
    var c := total - (q + 1);
    assert n * (c + 1) == n * c + n;
    if min <= q {
      DownSnoc(e, n, c);
    }
  }

  /** The ends that the loop visits, last first, are the ends that the standard tries. */
  lemma {:induction false} GreedyEnds(m: Machine, r: Regex, p: nat, n: nat, i: nat, min: nat, max: nat, q: nat)
    requires Atom(m, r, p, n) && i <= |m.subject.chars|
    requires min <= max && (max == INT32_MAX || q < max)
    ensures var g := GreedyRun(m, p, i, max, q);
      && g.Some? && i <= g.value.1
      && n * (g.value.0 - q) == g.value.1 - i
      && Iterate(m.subject, r, Minus(min, q), Rest(Bound(max), q), true, false, i)
         == Visited(min, q, g.value.0, g.value.1, n)
    decreases |m.subject.chars| - i
  {
    hide RunSimple, Ends, Visited, Atom;
    AtomRun(m, r, p, n, i);
    AtomPositive(m, r, p, n);
    var s := m.subject;
    var min', max' := Minus(min, q), Rest(Bound(max), q);
    var js := Ends(s, r, false, i);
    if js == [] {
      NoneVisited(min, q, i, n);
      assert IterateEach(s, r, min', max', true, false, i, []) == [];
    } else {
      var j := i + n;
      OneEach(s, r, min', max', i, j);
      if max <= q + 1 && max != INT32_MAX {
        NoneVisited(min, q + 1, j, n);
        VisitedBelow(min, q, q + 1, j, n, i);
      } else {
        GreedyEnds(m, r, p, n, j, min, max, q + 1);
        var g := GreedyRun(m, p, j, max, q + 1);
        assert n * (g.value.0 - q) == n * (g.value.0 - (q + 1)) + n;
        VisitedBelow(min, q, g.value.0, g.value.1, n, i);
      }
    }
  }

  lemma AtomPositive(m: Machine, r: Regex, p: nat, n: nat)
    requires Atom(m, r, p, n)
    ensures 0 < n
  {
  }

  lemma NoneVisited(min: nat, q: nat, i: nat, n: nat)
    ensures n * (q - q) == 0 && Visited(min, q, q, i, n) == if q < min then [] else [i]
  {
  }

  lemma OneEach(s: Subject, r: Regex, min: nat, max: Option<nat>, i: nat, j: nat)
    requires i < j <= |s.chars| && max != Some(0)
    ensures IterateEach(s, r, min, max, true, false, i, [j]) == Iterate(s, r, Pred(min), Lower(max), true, false, j)
  {
    hide Iterate;
    assert [j][1..] == [];
    assert IterateEach(s, r, min, max, true, false, i, []) == [];
  }

  lemma MulMonotone(n: nat, a: nat, b: nat)
    requires a <= b
    ensures n * a <= n * b
  {
  }
}
