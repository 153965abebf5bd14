/**
 re_check_advance is right: when it says that the code of an atom always advances, every match of the
 atom moves.
 */
module RegexAdvance {
  import opened RegexSyntax
  import opened RegexBytecode
  import opened RegexVm
  import RegexClass
  import opened RegexSim
  import opened RegexAtoms
  import opened RegexSimple

  lemma {:induction false} ScanDecided(code: seq<byte>, p: nat, seen: Advance)
    requires seen != Unknown
    ensures ScanAdvance(code, p, seen) == seen
    decreases |code| - p
  {
    if p < |code| && InstrSize(code, p) != 0 {
      ScanDecided(code, p + InstrSize(code, p), seen);
    }
  }

  lemma {:induction false} ScanSuffix(a: seq<byte>, b: seq<byte>, p: nat)
    requires Aligned(b, p)
    ensures ScanAdvance(a + b, |a| + p, Unknown) == ScanAdvance(b, p, Unknown)
    decreases |b| - p
  {
    if p < |b| {
      InstrInSuffix(a, b, p);
      var n := InstrSize(b, p);
      assert |a| + (p + n) == |a| + p + n;
      ScanSuffix(a, b, p + n);
      ScanDecided(a + b, |a| + p + n, Advances);
      ScanDecided(a + b, |a| + p + n, MayStay);
      ScanDecided(b, p + n, Advances);
      ScanDecided(b, p + n, MayStay);
    }
  }

  /** The first part decides, or else the second. */
  lemma {:induction false} ScanConcat(a: seq<byte>, b: seq<byte>, p: nat)
    requires Aligned(a, p) && Aligned(b, 0)
    ensures ScanAdvance(a + b, p, Unknown)
         == if ScanAdvance(a, p, Unknown) == Unknown then ScanAdvance(b, 0, Unknown) else ScanAdvance(a, p, Unknown)
    decreases |a| - p
  {
    if p == |a| {
      ScanSuffix(a, b, 0);
    } else {
      InstrInPrefix(a, b, p);
      var n := InstrSize(a, p);
      ScanConcat(a, b, p + n);
      ScanDecided(a + b, p + n, Advances);
      ScanDecided(a + b, p + n, MayStay);
      ScanDecided(a, p + n, Advances);
      ScanDecided(a, p + n, MayStay);
    }
  }

  /** Code that starts with a branch may stay. */
  lemma BranchFirst(code: seq<byte>)
    requires code != [] && InstrSize(code, 0) != 0 && !IsCharOp(code[0]) && !HasNoEffect(code[0])
    ensures ScanAdvance(code, 0, Unknown) == MayStay
  {
    ScanDecided(code, InstrSize(code, 0), MayStay);
  }

  lemma SplitScan(greedy: bool, v: int, rest: seq<byte>)
    requires Aligned(rest, 0)
    ensures Aligned(Op32(SplitOp(greedy), v), 0)
    ensures ScanAdvance(Op32(SplitOp(greedy), v) + rest, 0, Unknown) == MayStay
  {
    hide Aligned;
    AlignedSplitOp(greedy, v);
    var a := Op32(SplitOp(greedy), v);
    BranchFirst(a);
    ScanConcat(a, rest, 0);
  }

  lemma JumpScan(op: byte, v: int)
    requires op == OP_LOOP || op == OP_PUSH_I32
    ensures Aligned(Op32(op, v), 0)
    ensures ScanAdvance(Op32(op, v), 0, Unknown) == if op == OP_LOOP then MayStay else Unknown
  {
    AlignedOp32(op, v);
    var a := Op32(op, v);
    if op == OP_LOOP { BranchFirst(a); }
  }

  lemma UpToScan(x: seq<byte>, count: nat, greedy: bool)
    requires Aligned(x, 0)
    ensures Aligned(UpToCode(x, count, greedy), 0) && ScanAdvance(UpToCode(x, count, greedy), 0, Unknown) == MayStay
  {
    hide Op32, InstrSize, Aligned, OpSize, ScanAdvance;
    AlignedUpTo(x, count, greedy);
    var a, b, d := Op32(OP_PUSH_I32, count), Op32(SplitOp(greedy), |x| + 5), Op32(OP_LOOP, -(|x| + 10));
    JumpScan(OP_PUSH_I32, count);
    JumpScan(OP_LOOP, -(|x| + 10));
    AlignedBytes();
    AlignedConcat(x, d);
    AlignedConcat(x + d, [OP_DROP]);
    SplitScan(greedy, |x| + 5, x + d + [OP_DROP]);
    AlignedConcat(b, x + d + [OP_DROP]);
    ScanConcat(a, b + (x + d + [OP_DROP]), 0);
    assert UpToCode(x, count, greedy) == a + (b + (x + d + [OP_DROP]));
  }

  lemma StarScan(x: seq<byte>, greedy: bool, check: bool)
    requires Aligned(x, 0)
    ensures Aligned(StarCode(x, greedy, check), 0) && ScanAdvance(StarCode(x, greedy, check), 0, Unknown) == MayStay
  {
    hide Aligned;
    AlignedStar(x, greedy, check);
    BranchFirst(StarCode(x, greedy, check));
  }

  /** A repeated atom whose code always advances has a body that does, at least once. */
  lemma RepeatScan(x: seq<byte>, min: nat, max: nat, greedy: bool)
    requires Aligned(x, 0) && min <= max && ScanAdvance(RepeatCode(x, min, max, greedy), 0, Unknown) == Advances
    ensures 0 < min && 0 < max && ScanAdvance(x, 0, Unknown) == Advances
  {
    hide SimpleCount, ScanAdvance, Aligned, U32, StarCode, UpToCode, SimpleGreedyCode, ExactlyCode, PlusCode;
    var check := greedy && !ChecksAdvance(x);
    EmptyScan();
    if greedy && 0 < max && 0 < SimpleCount(x, 0, 0) {
      SimpleGreedyScan(x, min, max, SimpleCount(x, 0, 0));
    } else if min == 0 {
      if max == 0 {
      } else if max == 1 {
        SplitScan(greedy, |x|, x);
      } else if max == INT32_MAX {
        StarScan(x, greedy, check);
      } else {
        UpToScan(x, max, greedy);
      }
    } else if min == 1 && max == INT32_MAX && !check {
      PlusScan(x, greedy);
    } else {
      TailScan(x, min, max, greedy, check);
    }
  }

  lemma EmptyScan()
    ensures ScanAdvance([], 0, Unknown) == Unknown && Aligned([], 0)
  {
  }

  lemma SimpleGreedyScan(x: seq<byte>, min: nat, max: nat, n: nat)
    requires Aligned(x, 0)
    ensures ScanAdvance(SimpleGreedyCode(x, min, max, n), 0, Unknown) == MayStay
  {
    hide Aligned;
    AlignedSimpleGreedy(x, min, max, n);
    BranchFirst(SimpleGreedyCode(x, min, max, n));
  }

  lemma PlusScan(x: seq<byte>, greedy: bool)
    requires Aligned(x, 0)
    ensures ScanAdvance(PlusCode(x, greedy), 0, Unknown) == Advances ==> ScanAdvance(x, 0, Unknown) == Advances
  {
    hide ScanAdvance, Aligned, Op32;
    EmptyScan();
    SplitScan(!greedy, -(|x| + 5), []);
    var b := Op32(SplitOp(!greedy), -(|x| + 5));
    assert b + [] == b;
    ScanConcat(x, b, 0);
  }

  lemma TailScan(x: seq<byte>, min: nat, max: nat, greedy: bool, check: bool)
    requires Aligned(x, 0) && 0 < min <= max
    ensures var head := if min == 1 then x else ExactlyCode(x, min);
      var tail := if max == INT32_MAX then StarCode(x, greedy, check) else if min < max then UpToCode(x, max - min, greedy) else [];
      ScanAdvance(head + tail, 0, Unknown) == Advances ==> ScanAdvance(x, 0, Unknown) == Advances
  {
    hide ScanAdvance, Aligned, StarCode, UpToCode, ExactlyCode;
    var head := if min == 1 then x else ExactlyCode(x, min);
    var tail := if max == INT32_MAX then StarCode(x, greedy, check) else if min < max then UpToCode(x, max - min, greedy) else [];
    EmptyScan();
    StarScan(x, greedy, check);
    if min < max { UpToScan(x, max - min, greedy); }
    ExactlyScan(x, min);
    ScanConcat(head, tail, 0);
  }

  lemma ExactlyScan(x: seq<byte>, count: nat)
    requires Aligned(x, 0)
    ensures Aligned(ExactlyCode(x, count), 0)
    ensures ScanAdvance(ExactlyCode(x, count), 0, Unknown) == if ScanAdvance(x, 0, Unknown) == Unknown then MayStay else ScanAdvance(x, 0, Unknown)
  {
    hide Op32, InstrSize, Aligned, OpSize, ScanAdvance;
    AlignedExactly(x, count);
    var a, d := Op32(OP_PUSH_I32, count), Op32(OP_LOOP, -(|x| + 5));
    JumpScan(OP_PUSH_I32, count);
    JumpScan(OP_LOOP, -(|x| + 5));
    AlignedBytes();
    AlignedConcat(d, [OP_DROP]);
    ScanConcat(d, [OP_DROP], 0);
    AlignedConcat(x, d + [OP_DROP]);
    ScanConcat(x, d + [OP_DROP], 0);
    ScanConcat(a, x + (d + [OP_DROP]), 0);
    assert ExactlyCode(x, count) == a + (x + (d + [OP_DROP]));
  }

  /** re_check_advance never claims too much. */
  lemma {:induction false} AdvanceMoves(r: Regex, back: bool)
    requires Parsed(r) && ChecksAdvance(Code(r, back))
    ensures Moves(r)
    decreases r
  {
    hide ScanAdvance, Aligned, RepeatCode, ChoiceCode, LookCode, ClassCode;
    match r
    case Empty => EmptyScan();
    case LineStart => AssertionScan(OP_LINE_START);
    case LineEnd => AssertionScan(OP_LINE_END);
    case WordBoundary(inverted) => AssertionScan(if inverted then OP_NOT_WORD_BOUNDARY else OP_WORD_BOUNDARY);
    case Concat(a, b) =>
      var x, y := if back then b else a, if back then a else b;
      AlignedCode(x, back);
      AlignedCode(y, back);
      ScanConcat(Code(x, back), Code(y, back), 0);
      if ScanAdvance(Code(x, back), 0, Unknown) == Unknown { AdvanceMoves(y, back); } else { AdvanceMoves(x, back); }
    case Choice(a, b) => ChoiceScan(Code(a, back), Code(b, back));
    case Look(negated, behind, body) => LookScan(negated, Code(body, behind));
    case Repeat(body, min, max, greedy) =>
      AlignedCode(body, back);
      RepeatScan(Code(body, back), min, max, greedy);
      AdvanceMoves(body, back);
    case _ =>
  }

  /** Whether a character comes first, behind assertions at most. */
  predicate CharFirst(r: Regex, back: bool) {
    match r
    case Char(_) => true
    case Dot => true
    case Any => true
    case Class(_) => true
    case Concat(a, b) => var (x, y) := if back then (b, a) else (a, b); CharFirst(x, back) || (IsAssertion(x) && CharFirst(y, back))
    case _ => false
  }

  /** The scan finds out that such an expression advances, so its loops have no check. */
  lemma {:induction false} AdvanceFound(r: Regex, back: bool)
    requires Parsed(r) && CharFirst(r, back)
    ensures ChecksAdvance(Code(r, back))
  {
    hide ScanAdvance, Aligned, InstrSize, ClassCode;
    match r
    case Char(c) =>
      LetterIsChar(c);
      CharScan(if c <= 0xffff then Op16(OP_CHAR, c) else Op32(OP_CHAR32, c), back);
    case Dot =>
      DotIsChar();
      CharScan([OP_DOT], back);
    case Any =>
      DotIsChar();
      CharScan([OP_ANY], back);
    case Class(pts) =>
      ClassIsChar(pts);
      CharScan(ClassCode(pts), back);
    case Concat(a, b) =>
      var x, y := if back then b else a, if back then a else b;
      AlignedCode(x, back);
      AlignedCode(y, back);
      ScanConcat(Code(x, back), Code(y, back), 0);
      if CharFirst(x, back) {
        AdvanceFound(x, back);
      } else {
        AdvanceFound(y, back);
        match x {
          case LineStart => AssertionScan(OP_LINE_START);
          case LineEnd => AssertionScan(OP_LINE_END);
          case WordBoundary(inverted) => AssertionScan(if inverted then OP_NOT_WORD_BOUNDARY else OP_WORD_BOUNDARY);
        }
      }
  }

  /** One instruction that takes a character. */
  ghost predicate IsCharInstr(x: seq<byte>) {
    x != [] && InstrSize(x, 0) == |x| && IsCharOp(x[0])
  }

  lemma LetterIsChar(c: nat)
    ensures IsCharInstr(if c <= 0xffff then Op16(OP_CHAR, c) else Op32(OP_CHAR32, c))
  {
  }

  lemma DotIsChar()
    ensures IsCharInstr([OP_DOT]) && IsCharInstr([OP_ANY])
  {
  }

  lemma ClassIsChar(pts: seq<nat>)
    requires ValidPoints(pts)
    ensures IsCharInstr(ClassCode(pts))
  {
    var code := ClassCode(pts);
    if pts != [] {
      assert code[..] == code;
      RegexClass.ClassInstr(code, 0, pts);
    }
  }

  lemma CharScan(x: seq<byte>, back: bool)
    requires IsCharInstr(x)
    ensures ScanAdvance(OneCode(x, back), 0, Unknown) == Advances
  {
    hide OneCode;
    ScanDecided(x, |x|, Advances);
    assert ScanAdvance(x, 0, Unknown) == Advances;
    BackwardScan(x, back);
  }

  lemma BackwardScan(x: seq<byte>, back: bool)
    requires IsCharInstr(x) && ScanAdvance(x, 0, Unknown) == Advances
    ensures ScanAdvance(OneCode(x, back), 0, Unknown) == Advances
  {
    AlignedOne(x);
    AlignedBytes();
    AssertionScan(OP_PREV);
    hide Aligned, ScanAdvance;
    AlignedConcat([OP_PREV], x);
    ScanConcat([OP_PREV], x, 0);
    ScanConcat([OP_PREV] + x, [OP_PREV], 0);
  }

  lemma AssertionScan(op: byte)
    requires HasNoEffect(op) && OpSize(op) == 1
    ensures ScanAdvance([op], 0, Unknown) == Unknown
  {
    AlignedOp(op);
  }

  lemma ChoiceScan(x: seq<byte>, y: seq<byte>)
    ensures ScanAdvance(ChoiceCode(x, y), 0, Unknown) == MayStay
  {
    hide U32;
    BranchFirst(ChoiceCode(x, y));
  }

  lemma LookScan(negated: bool, x: seq<byte>)
    ensures ScanAdvance(LookCode(negated, x), 0, Unknown) == MayStay
  {
    hide U32;
    BranchFirst(LookCode(negated, x));
  }
}
