/**
 The bytecode of libregexp-opcode.h as bytes: opcodes and their sizes, little-endian operands, the
 two linear scans that the compiler makes over code it has already emitted, and the code emitted
 for each regular expression.
 */
module RegexBytecode {
  import opened RegexSyntax

  type byte = x: int | 0 <= x < 256

  const OP_CHAR: byte := 1
  const OP_CHAR32: byte := 2
  const OP_DOT: byte := 3
  const OP_ANY: byte := 4
  const OP_LINE_START: byte := 5
  const OP_LINE_END: byte := 6
  const OP_GOTO: byte := 7
  const OP_SPLIT_GOTO_FIRST: byte := 8
  const OP_SPLIT_NEXT_FIRST: byte := 9
  const OP_MATCH: byte := 10
  const OP_SAVE_START: byte := 11
  const OP_SAVE_END: byte := 12
  const OP_SAVE_RESET: byte := 13
  const OP_LOOP: byte := 14
  const OP_PUSH_I32: byte := 15
  const OP_DROP: byte := 16
  const OP_WORD_BOUNDARY: byte := 17
  const OP_NOT_WORD_BOUNDARY: byte := 18
  const OP_BACK_REFERENCE: byte := 19
  const OP_BACKWARD_BACK_REFERENCE: byte := 20
  const OP_RANGE: byte := 21
  const OP_RANGE32: byte := 22
  const OP_LOOKAHEAD: byte := 23
  const OP_NEGATIVE_LOOKAHEAD: byte := 24
  const OP_PUSH_CHAR_POS: byte := 25
  const OP_BNE_CHAR_POS: byte := 26
  const OP_PREV: byte := 27
  const OP_SIMPLE_GREEDY_QUANT: byte := 28

  const RE_HEADER_LEN: nat := 7
  const STACK_SIZE_MAX: nat := 255

  const TWO31: int := 0x8000_0000
  const TWO32: int := 0x1_0000_0000
  const UINT32_MAX: nat := 0xffff_ffff

  /** The fixed part of an instruction; `range` and `range32` are followed by their table. */
  function OpSize(op: byte): (n: nat)
    ensures 1 <= n <= 17
  {
    if op == OP_CHAR || op == OP_RANGE || op == OP_RANGE32 || op == OP_SAVE_RESET then 3
    else if op == OP_CHAR32 || op == OP_GOTO || op == OP_SPLIT_GOTO_FIRST || op == OP_SPLIT_NEXT_FIRST
      || op == OP_LOOP || op == OP_PUSH_I32 || op == OP_LOOKAHEAD || op == OP_NEGATIVE_LOOKAHEAD
      || op == OP_BNE_CHAR_POS then 5
    else if op == OP_SAVE_START || op == OP_SAVE_END || op == OP_BACK_REFERENCE
      || op == OP_BACKWARD_BACK_REFERENCE then 2
    else if op == OP_SIMPLE_GREEDY_QUANT then 17
    else 1
  }

  function U16(v: int): (b: seq<byte>)
    ensures |b| == 2
  {
    [v % 256, v / 256 % 256]
  }

  function U32(v: int): (b: seq<byte>)
    ensures |b| == 4
  {
    var u0 := v % TWO32;
    var u1 := u0 / 256;
    var u2 := u1 / 256;
    [u0 % 256, u1 % 256, u2 % 256, u2 / 256 % 256]
  }

  function GetU16(code: seq<byte>, p: nat): (v: nat)
    requires p + 2 <= |code|
    ensures v < 0x1_0000
  {
    (code[p] as int) + 256 * (code[p + 1] as int)
  }

  function GetU32(code: seq<byte>, p: nat): (v: nat)
    requires p + 4 <= |code|
    ensures v < TWO32
  {
    (code[p] as int) + 256 * (code[p + 1] as int) + 65536 * (code[p + 2] as int) + 16777216 * (code[p + 3] as int)
  }

  /** The C conversion of a 32-bit unsigned value to `int`. */
  function Signed(v: nat): int {
    if v < TWO31 then v else v - TWO32
  }

  /** `frag` stands in `code` at offset `p`. */
  ghost predicate At(code: seq<byte>, p: nat, frag: seq<byte>) {
    p + |frag| <= |code| && code[p..p + |frag|] == frag
  }

  lemma AtSplit(code: seq<byte>, p: nat, a: seq<byte>, b: seq<byte>)
    requires At(code, p, a + b)
    ensures At(code, p, a) && At(code, p + |a|, b)
  {
    assert code[p..p + |a|] == code[p..p + |a + b|][..|a|] == a;
    assert code[p + |a|..p + |a| + |b|] == code[p..p + |a + b|][|a|..] == b;
  }

  lemma U16RoundTrip(code: seq<byte>, p: nat, v: nat)
    requires At(code, p, U16(v)) && v < 0x1_0000
    ensures GetU16(code, p) == v
  {
    assert code[p] == code[p..p + 2][0] && code[p + 1] == code[p..p + 2][1];
  }

  lemma U32RoundTrip(code: seq<byte>, p: nat, v: int)
    requires At(code, p, U32(v)) && 0 <= v < TWO32
    ensures GetU32(code, p) == v
  {
    var w := code[p..p + 4];
    assert code[p] == w[0] && code[p + 1] == w[1] && code[p + 2] == w[2] && code[p + 3] == w[3];
    assert v % TWO32 == v;
    var u3 := v / 256 / 256 / 256;
    assert u3 % 256 == u3;
  }

  lemma I32RoundTrip(code: seq<byte>, p: nat, v: int)
    requires At(code, p, U32(v)) && -TWO31 <= v < TWO31
    ensures Signed(GetU32(code, p)) == v
  {
    hide U32, GetU32;
    SameU32(v);
    U32RoundTrip(code, p, v % TWO32);
  }

  lemma SameU32(v: int)
    requires -TWO31 <= v < TWO31
    ensures U32(v % TWO32) == U32(v) && v % TWO32 == if v < 0 then v + TWO32 else v
  {
    assert v % TWO32 % TWO32 == v % TWO32;
  }

  function Op16(op: byte, v: int): (b: seq<byte>)
    ensures |b| == 3
  { [op] + U16(v) }

  function Op32(op: byte, v: int): (b: seq<byte>)
    ensures |b| == 5
  { [op] + U32(v) }

  lemma AtOp32(code: seq<byte>, p: nat, op: byte, v: int)
    requires At(code, p, Op32(op, v)) && -TWO31 <= v < TWO32
    ensures p + 5 <= |code| && code[p] == op
    ensures v < TWO31 ==> Signed(GetU32(code, p + 1)) == v
    ensures 0 <= v ==> GetU32(code, p + 1) == v
  {
    AtSplit(code, p, [op], U32(v));
    assert code[p] == code[p..p + 1][0];
    if v < TWO31 { I32RoundTrip(code, p + 1, v); }
    if 0 <= v { U32RoundTrip(code, p + 1, v); }
  }

  lemma AtOp16(code: seq<byte>, p: nat, op: byte, v: nat)
    requires At(code, p, Op16(op, v)) && v < 0x1_0000
    ensures p + 3 <= |code| && code[p] == op && GetU16(code, p + 1) == v
  {
    AtSplit(code, p, [op], U16(v));
    assert code[p] == code[p..p + 1][0];
    U16RoundTrip(code, p + 1, v);
  }

  lemma AtOp(code: seq<byte>, p: nat, op: byte)
    requires At(code, p, [op])
    ensures p + 1 <= |code| && code[p] == op
  {
    assert code[p] == code[p..p + 1][0];
  }

  /** The whole length of the instruction at `p`, or 0 when it runs past the end. */
  function InstrSize(code: seq<byte>, p: nat): (n: nat)
    ensures n != 0 ==> p + n <= |code| && OpSize(code[p]) <= n
  {
    if |code| <= p then 0
    else
      var op := code[p];
      if |code| < p + OpSize(op) then 0
      else
        var n := if op == OP_RANGE then 3 + 4 * GetU16(code, p + 1)
                 else if op == OP_RANGE32 then 3 + 8 * GetU16(code, p + 1)
                 else OpSize(op);
        if |code| < p + n then 0 else n
  }

  predicate IsCharOp(op: byte) {
    op == OP_CHAR || op == OP_CHAR32 || op == OP_DOT || op == OP_ANY || op == OP_RANGE || op == OP_RANGE32
  }

  predicate IsAssertOp(op: byte) {
    op == OP_LINE_START || op == OP_LINE_END || op == OP_WORD_BOUNDARY || op == OP_NOT_WORD_BOUNDARY
  }

  /** re_is_simple_quantifier: the number of characters of a straight-line atom, or -1. */
  function SimpleCount(code: seq<byte>, p: nat, count: nat): int
    decreases |code| - p
  {
    if |code| <= p then count
    else
      var n := InstrSize(code, p);
      if n == 0 then -1
      else if IsCharOp(code[p]) then SimpleCount(code, p + n, count + 1)
      else if IsAssertOp(code[p]) then SimpleCount(code, p + n, count)
      else -1
  }

  datatype Advance = Unknown | MayStay | Advances

  predicate HasNoEffect(op: byte) {
    op == OP_LINE_START || op == OP_LINE_END || op == OP_PUSH_I32 || op == OP_PUSH_CHAR_POS || op == OP_DROP
    || op == OP_WORD_BOUNDARY || op == OP_NOT_WORD_BOUNDARY || op == OP_PREV
    || op == OP_SAVE_START || op == OP_SAVE_END || op == OP_SAVE_RESET
    || op == OP_BACK_REFERENCE || op == OP_BACKWARD_BACK_REFERENCE
  }

  /** re_check_advance, for code without back references: the first telling opcode decides. */
  function ScanAdvance(code: seq<byte>, p: nat, seen: Advance): Advance
    decreases |code| - p
  {
    if |code| <= p then seen
    else
      var n := InstrSize(code, p);
      if n == 0 then seen
      else if IsCharOp(code[p]) then ScanAdvance(code, p + n, if seen == Unknown then Advances else seen)
      else if HasNoEffect(code[p]) then ScanAdvance(code, p + n, seen)
      else ScanAdvance(code, p + n, if seen == Unknown then MayStay else seen)
  }

  predicate ChecksAdvance(code: seq<byte>) {
    ScanAdvance(code, 0, Unknown) == Advances
  }

  /** re_emit_range */
  function RangeTable(pts: seq<nat>, wide: bool): (b: seq<byte>)
    requires |pts| % 2 == 0
    ensures |b| == if wide then 4 * |pts| else 2 * |pts|
    decreases |pts|
  {
    if pts == [] then []
    else if wide then U32(pts[0]) + U32(pts[1] as int - 1) + RangeTable(pts[2..], wide)
    else U16(pts[0]) + U16(if pts[1] == UINT32_MAX then 0xffff else pts[1] as int - 1) + RangeTable(pts[2..], wide)
  }

  predicate ValidPoints(pts: seq<nat>) {
    |pts| % 2 == 0 && |pts| / 2 < 65535
    && (forall k :: 0 <= k < |pts| ==> pts[k] <= UINT32_MAX)
    && (forall k, l :: 0 <= k < l < |pts| ==> pts[k] < pts[l])
  }

  predicate NeedsWide(pts: seq<nat>)
    requires |pts| % 2 == 0 && pts != []
  {
    var high := pts[|pts| - 1];
    (if high == UINT32_MAX then pts[|pts| - 2] else high) > 0xffff
  }

  function ClassCode(pts: seq<nat>): seq<byte>
    requires |pts| % 2 == 0
  {
    if pts == [] then Op32(OP_CHAR32, -1)
    else if NeedsWide(pts) then Op16(OP_RANGE32, |pts| / 2) + RangeTable(pts, true)
    else Op16(OP_RANGE, |pts| / 2) + RangeTable(pts, false)
  }

  /** What the parser guarantees of the tree of a pattern it accepts. */
  predicate Parsed(r: Regex) {
    match r
    case Char(c) => c < TWO32
    case Class(pts) => ValidPoints(pts)
    case Concat(a, b) => Parsed(a) && Parsed(b)
    case Choice(a, b) => Parsed(a) && Parsed(b)
    case Look(_, _, body) => Parsed(body)
    case Repeat(body, min, max, _) => Parsed(body) && min <= max <= INT32_MAX
    case _ => true
  }

  /** An opcode that consumes one character, wrapped for the backward direction. */
  function OneCode(code: seq<byte>, back: bool): seq<byte> {
    if back then [OP_PREV] + code + [OP_PREV] else code
  }

  /** The code emitted for a term, an alternative or a disjunction. */
  function Code(r: Regex, back: bool): seq<byte>
    requires Parsed(r)
  {
    match r
    case Empty => []
    case Char(c) => OneCode(if c <= 0xffff then Op16(OP_CHAR, c) else Op32(OP_CHAR32, c), back)
    case Dot => OneCode([OP_DOT], back)
    case Any => OneCode([OP_ANY], back)
    case Class(pts) => OneCode(ClassCode(pts), back)
    case LineStart => [OP_LINE_START]
    case LineEnd => [OP_LINE_END]
    case WordBoundary(inverted) => [if inverted then OP_NOT_WORD_BOUNDARY else OP_WORD_BOUNDARY]
    case Concat(a, b) => if back then Code(b, back) + Code(a, back) else Code(a, back) + Code(b, back)
    case Choice(a, b) => ChoiceCode(Code(a, back), Code(b, back))
    case Look(negated, behind, body) => LookCode(negated, Code(body, behind))
    case Repeat(body, min, max, greedy) => RepeatCode(Code(body, back), min, max, greedy)
  }

  function ChoiceCode(a: seq<byte>, b: seq<byte>): seq<byte> {
    Op32(OP_SPLIT_NEXT_FIRST, |a| + 5) + a + Op32(OP_GOTO, |b|) + b
  }

  function LookCode(negated: bool, body: seq<byte>): seq<byte> {
    Op32(if negated then OP_NEGATIVE_LOOKAHEAD else OP_LOOKAHEAD, |body| + 1) + body + [OP_MATCH]
  }

  function SplitOp(greedy: bool): byte {
    if greedy then OP_SPLIT_NEXT_FIRST else OP_SPLIT_GOTO_FIRST
  }

  /** `x*` and `x*?`, with the check that stops an iteration which did not move. */
  function StarCode(x: seq<byte>, greedy: bool, check: bool): seq<byte> {
    if check then
      Op32(SplitOp(greedy), |x| + 6) + [OP_PUSH_CHAR_POS] + x + Op32(OP_BNE_CHAR_POS, -(|x| + 11))
    else
      Op32(SplitOp(greedy), |x| + 5) + x + Op32(OP_GOTO, -(|x| + 10))
  }

  function UpToCode(x: seq<byte>, count: nat, greedy: bool): seq<byte> {
    Op32(OP_PUSH_I32, count) + Op32(SplitOp(greedy), |x| + 5) + x + Op32(OP_LOOP, -(|x| + 10)) + [OP_DROP]
  }

  function ExactlyCode(x: seq<byte>, count: nat): seq<byte> {
    Op32(OP_PUSH_I32, count) + x + Op32(OP_LOOP, -(|x| + 5)) + [OP_DROP]
  }

  function PlusCode(x: seq<byte>, greedy: bool): seq<byte> {
    x + Op32(SplitOp(!greedy), -(|x| + 5))
  }

  function SimpleGreedyOp(len: nat, min: nat, max: nat, count: nat): (b: seq<byte>)
    ensures |b| == 17
  {
    [OP_SIMPLE_GREEDY_QUANT] + U32(len + 1) + U32(min) + U32(max) + U32(count)
  }

  function SimpleGreedyCode(x: seq<byte>, min: nat, max: nat, count: nat): seq<byte> {
    SimpleGreedyOp(|x|, min, max, count) + x + [OP_MATCH]
  }

  /** The quantifier shapes of re_parse_term. */
  function RepeatCode(x: seq<byte>, min: nat, max: nat, greedy: bool): seq<byte>
    requires min <= max
  {
    if greedy && 0 < max && 0 < SimpleCount(x, 0, 0) then
      SimpleGreedyCode(x, min, max, SimpleCount(x, 0, 0))
    else
      var check := greedy && !ChecksAdvance(x);
      if min == 0 then
        if max == 0 then []
        else if max == 1 then Op32(SplitOp(greedy), |x|) + x
        else if max == INT32_MAX then StarCode(x, greedy, check)
        else UpToCode(x, max, greedy)
      else if min == 1 && max == INT32_MAX && !check then PlusCode(x, greedy)
      else
        (if min == 1 then x else ExactlyCode(x, min)) +
        (if max == INT32_MAX then StarCode(x, greedy, check)
         else if min < max then UpToCode(x, max - min, greedy)
         else [])
  }
}
