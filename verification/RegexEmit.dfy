/**
 The one-pass emission of libregexp.c: code is appended to a buffer, and quantifiers, alternatives
 and the backward direction insert into it, copy parts of it and reverse parts of it in place.
 */
module RegexEmit {
  import opened Wrappers
  import opened RegexSyntax
  import opened RegexBytecode
  import opened RegexStack

  /** re_is_simple_quantifier */
  method ReIsSimpleQuantifier(code: seq<byte>) returns (count: int)
    ensures count == SimpleCount(code, 0, 0)
  {
    var pos: nat := 0;
    count := 0;
    while pos < |code|
      invariant 0 <= count && SimpleCount(code, pos, count) == SimpleCount(code, 0, 0)
      decreases |code| - pos
    {
      var len := InstrSize(code, pos);
      if len == 0 { return -1; }
      if IsCharOp(code[pos]) {
        count := count + 1;
      } else if !IsAssertOp(code[pos]) {
        return -1;
      }
      pos := pos + len;
    }
  }

  /** re_check_advance: whether the opcodes always move the character pointer. */
  method ReCheckAdvance(code: seq<byte>) returns (advances: bool)
    ensures advances == ChecksAdvance(code)
  {
    var pos: nat := 0;
    var ret := Unknown;
    while pos < |code| && InstrSize(code, pos) != 0
      invariant ScanAdvance(code, pos, ret) == ScanAdvance(code, 0, Unknown)
      decreases |code| - pos
    {
      if ret == Unknown {
        if IsCharOp(code[pos]) {
          ret := Advances;
        } else if !HasNoEffect(code[pos]) {
          ret := MayStay;
        }
      }
      pos := pos + InstrSize(code, pos);
    }
    return ret == Advances;
  }

  /** compute_stack_size, as a loop over the instructions after the header. */
  method StackSizeOf(code: seq<byte>) returns (size: StackSize)
    ensures size == ComputeStackSize(code, RE_HEADER_LEN, 0, 0)
  {
    var pos: nat, stackSize: nat, stackSizeMax: nat := RE_HEADER_LEN, 0, 0;
    while pos < |code|
      invariant stackSize <= stackSizeMax
      invariant ComputeStackSize(code, pos, stackSize, stackSizeMax) == ComputeStackSize(code, RE_HEADER_LEN, 0, 0)
      decreases |code| - pos
    {
      var len := InstrSize(code, pos);
      if len == 0 { return AssertionFails; }
      var opcode := code[pos];
      if opcode == OP_PUSH_I32 || opcode == OP_PUSH_CHAR_POS {
        stackSize := stackSize + 1;
        if stackSize > stackSizeMax {
          if stackSize > STACK_SIZE_MAX { return TooDeep; }
          stackSizeMax := stackSize;
        }
      } else if opcode == OP_DROP || opcode == OP_BNE_CHAR_POS {
        if stackSize == 0 { return AssertionFails; }
        stackSize := stackSize - 1;
      }
      pos := pos + len;
    }
    return Size(stackSizeMax);
  }

  class CodeBuffer {
    var byteCode: seq<byte>

    constructor ()
      ensures byteCode == []
    {
      byteCode := [];
    }

    method EmitOp(op: byte)
      modifies this
      ensures byteCode == old(byteCode) + [op]
    {
      byteCode := byteCode + [op];
    }

    /** `pos` is where the operand stands, to be filled in later. */
    method EmitOp32(op: byte, val: int) returns (pos: nat)
      modifies this
      ensures byteCode == old(byteCode) + Op32(op, val) && pos == |old(byteCode)| + 1
    {
      byteCode := byteCode + [op];
      pos := |byteCode|;
      byteCode := byteCode + U32(val);
    }

    /** A jump to offset `target` of the buffer. */
    method EmitGoto(op: byte, target: int)
      modifies this
      ensures byteCode == old(byteCode) + Op32(op, target - (|old(byteCode)| + 5))
    {
      byteCode := byteCode + [op];
      var pos := |byteCode|;
      byteCode := byteCode + U32(target - (pos + 4));
    }

    /** Make room for `len` bytes at `pos`; what stood there is left in the gap. */
    method Insert(pos: nat, len: nat, ghost pre: seq<byte>, ghost x: seq<byte>) returns (ghost gap: seq<byte>)
      requires byteCode == pre + x && pos == |pre|
      modifies this
      ensures |gap| == len && byteCode == pre + gap + x
    {
      var buf := byteCode;
      var room := seq(len, i requires 0 <= i < len => if pos + i < |buf| then buf[pos + i] else 0);
      gap := room;
      byteCode := buf[..pos] + room + buf[pos..];
    }

    /** Overwrite one byte of a gap. */
    method PutOp(pos: nat, op: byte, ghost a: seq<byte>, ghost gap: seq<byte>, ghost b: seq<byte>)
      requires byteCode == a + gap + b && pos == |a| && 1 <= |gap|
      modifies this
      ensures byteCode == a + [op] + gap[1..] + b
    {
      byteCode := byteCode[pos := op];
    }

    /** Overwrite four bytes of a gap. */
    method PutU32(pos: nat, val: int, ghost a: seq<byte>, ghost gap: seq<byte>, ghost b: seq<byte>)
      requires byteCode == a + gap + b && pos == |a| && 4 <= |gap|
      modifies this
      ensures byteCode == a + U32(val) + gap[4..] + b
    {
      hide U32;
      byteCode := byteCode[..pos] + U32(val) + byteCode[pos + 4..];
    }

    /** Append a copy of a part of the buffer. */
    method PutSelf(offset: nat, len: nat)
      requires offset + len <= |byteCode|
      modifies this
      ensures byteCode == old(byteCode) + old(byteCode)[offset..offset + len]
    {
      byteCode := byteCode + byteCode[offset..offset + len];
    }

    /** Insert a five-byte instruction at `pos`. */
    method InsertOp32(pos: nat, op: byte, val: int, ghost pre: seq<byte>, ghost x: seq<byte>)
      requires byteCode == pre + x && pos == |pre|
      modifies this
      ensures byteCode == pre + (Op32(op, val) + x)
    {
      hide U32;
      ghost var gap := Insert(pos, 5, pre, x);
      PutOp(pos, op, pre, gap, x);
      PutU32(pos + 1, val, pre + [op], gap[1..], x);
      assert gap[1..][4..] == [];
      assert pre + [op] + U32(val) + [] + x == pre + (Op32(op, val) + x);
    }

    /** The quantifier part of re_parse_term: the atom starts at `start`. */
    method EmitQuantifier(start: nat, min: nat, max: nat, greedy: bool, ghost pre: seq<byte>, ghost x: seq<byte>)
      requires byteCode == pre + x && start == |pre| && min <= max <= INT32_MAX
      modifies this
      ensures byteCode == pre + RepeatCode(x, min, max, greedy)
    {
      hide SimpleCount, ChecksAdvance, U32, Op32, StarCode, UpToCode, ExactlyCode, SimpleGreedyCode;
      var lastAtomStart := start;
      assert byteCode[start..] == x;
      var addZeroAdvanceCheck := false;
      if greedy {
        if 0 < max {
          // a straight-line atom gets an opcode of its own
          var count := ReIsSimpleQuantifier(byteCode[start..]);
          if 0 < count {
            EmitSimpleGreedy(start, min, max, count, pre, x);
            return;
          }
        }
        var advances := ReCheckAdvance(byteCode[start..]);
        addZeroAdvanceCheck := !advances;
      }
      var len := |byteCode| - lastAtomStart;
      if min == 0 {
        if max == 0 {
          byteCode := byteCode[..lastAtomStart];
        } else if max == 1 {
          InsertOp32(lastAtomStart, SplitOp(greedy), len, pre, x);
        } else if max == INT32_MAX {
          EmitStar(lastAtomStart, greedy, addZeroAdvanceCheck, pre, x);
        } else {
          EmitUpTo(lastAtomStart, max, greedy, pre, x);
        }
      } else if min == 1 && max == INT32_MAX && !addZeroAdvanceCheck {
        EmitGoto(SplitOp(!greedy), lastAtomStart);
        assert byteCode == pre + PlusCode(x, greedy);
      } else {
        EmitRequired(lastAtomStart, min, max, greedy, addZeroAdvanceCheck, pre, x);
      }
    }

    /** The required iterations first, then a copy of the atom for the optional ones. */
    method EmitRequired(start: nat, min: nat, max: nat, greedy: bool, check: bool, ghost pre: seq<byte>, ghost x: seq<byte>)
      requires byteCode == pre + x && start == |pre| && 0 < min <= max <= INT32_MAX
      modifies this
      ensures byteCode == pre + ((if min == 1 then x else ExactlyCode(x, min)) +
        (if max == INT32_MAX then StarCode(x, greedy, check) else if min < max then UpToCode(x, max - min, greedy) else []))
    {
      hide U32, Op32, StarCode, UpToCode, ExactlyCode;
      var len := |byteCode| - start;
      var lastAtomStart := start;
      ghost var head := x;
      if min != 1 {
        EmitExactly(lastAtomStart, min, pre, x);
        head := ExactlyCode(x, min);
        lastAtomStart := lastAtomStart + 5;
      }
      AtomInside(pre, x, min, lastAtomStart);
      if max == INT32_MAX {
        EmitStarCopy(lastAtomStart, len, greedy, check, pre + head, x);
        assert byteCode == pre + (head + StarCode(x, greedy, check));
      } else if max > min {
        EmitUpToCopy(lastAtomStart, len, max - min, greedy, pre + head, x);
        assert byteCode == pre + (head + UpToCode(x, max - min, greedy));
      } else {
        assert byteCode == pre + (head + []);
      }
    }

    method EmitSimpleGreedy(start: nat, min: nat, max: nat, count: nat, ghost pre: seq<byte>, ghost x: seq<byte>)
      requires byteCode == pre + x && start == |pre|
      modifies this
      ensures byteCode == pre + SimpleGreedyCode(x, min, max, count)
    {
      hide U32;
      EmitOp(OP_MATCH);
      ghost var rest := x + [OP_MATCH];
      assert byteCode == pre + rest;
      ghost var gap := Insert(start, 17, pre, rest);
      var pos := start;
      PutOp(pos, OP_SIMPLE_GREEDY_QUANT, pre, gap, rest);
      ghost var a := pre + [OP_SIMPLE_GREEDY_QUANT];
      pos := pos + 1;
      PutU32(pos, |byteCode| - start - 17, a, gap[1..], rest);
      a := a + U32(|x| + 1);
      pos := pos + 4;
      PutU32(pos, min, a, gap[1..][4..], rest);
      a := a + U32(min);
      pos := pos + 4;
      PutU32(pos, max, a, gap[1..][4..][4..], rest);
      a := a + U32(max);
      pos := pos + 4;
      PutU32(pos, count, a, gap[1..][4..][4..][4..], rest);
      assert gap[1..][4..][4..][4..][4..] == [];
      assert byteCode == a + U32(count) + rest;
      assert a + U32(count) + rest == pre + SimpleGreedyCode(x, min, max, count);
    }

    method EmitStar(start: nat, greedy: bool, check: bool, ghost pre: seq<byte>, ghost x: seq<byte>)
      requires byteCode == pre + x && start == |pre|
      modifies this
      ensures byteCode == pre + StarCode(x, greedy, check)
    {
      hide U32;
      var len := |byteCode| - start;
      var op := SplitOp(greedy);
      if check {
        ghost var gap := Insert(start, 6, pre, x);
        PutOp(start, op, pre, gap, x);
        PutU32(start + 1, len + 6, pre + [op], gap[1..], x);
        PutOp(start + 5, OP_PUSH_CHAR_POS, pre + [op] + U32(len + 6), gap[1..][4..], x);
        assert gap[1..][4..][1..] == [];
        EmitGoto(OP_BNE_CHAR_POS, start);
        assert byteCode == pre + StarCode(x, greedy, check);
      } else {
        InsertOp32(start, op, len + 5, pre, x);
        EmitGoto(OP_GOTO, start);
        assert byteCode == pre + StarCode(x, greedy, check);
      }
    }

    method EmitUpTo(start: nat, max: nat, greedy: bool, ghost pre: seq<byte>, ghost x: seq<byte>)
      requires byteCode == pre + x && start == |pre|
      modifies this
      ensures byteCode == pre + UpToCode(x, max, greedy)
    {
      hide U32;
      var len := |byteCode| - start;
      var op := SplitOp(greedy);
      ghost var gap := Insert(start, 10, pre, x);
      PutOp(start, OP_PUSH_I32, pre, gap, x);
      ghost var a := pre + [OP_PUSH_I32];
      PutU32(start + 1, max, a, gap[1..], x);
      a := a + U32(max);
      PutOp(start + 5, op, a, gap[1..][4..], x);
      a := a + [op];
      PutU32(start + 6, len + 5, a, gap[1..][4..][1..], x);
      assert gap[1..][4..][1..][4..] == [];
      EmitGoto(OP_LOOP, start + 5);
      EmitOp(OP_DROP);
      assert byteCode == pre + UpToCode(x, max, greedy);
    }

    method EmitExactly(start: nat, min: nat, ghost pre: seq<byte>, ghost x: seq<byte>)
      requires byteCode == pre + x && start == |pre|
      modifies this
      ensures byteCode == pre + ExactlyCode(x, min)
    {
      hide U32;
      InsertOp32(start, OP_PUSH_I32, min, pre, x);
      EmitGoto(OP_LOOP, start + 5);
      EmitOp(OP_DROP);
      assert byteCode == pre + ExactlyCode(x, min);
    }

    /** `x*` after the required iterations, with a copy of the atom at `atom`. */
    method EmitStarCopy(atom: nat, len: nat, greedy: bool, check: bool, ghost pre: seq<byte>, ghost x: seq<byte>)
      requires byteCode == pre && atom + len <= |pre| && pre[atom..atom + len] == x
      modifies this
      ensures byteCode == pre + StarCode(x, greedy, check)
    {
      hide U32;
      var pos := |byteCode|;
      var dummy := EmitOp32(SplitOp(greedy), len + 5 + if check then 1 else 0);
      if check {
        EmitOp(OP_PUSH_CHAR_POS);
      }
      assert byteCode[atom..atom + len] == x;
      PutSelf(atom, len);
      EmitGoto(if check then OP_BNE_CHAR_POS else OP_GOTO, pos);
      assert byteCode == pre + StarCode(x, greedy, check);
    }

    /** `x{0,count}` after the required iterations, with a copy of the atom at `atom`. */
    method EmitUpToCopy(atom: nat, len: nat, count: nat, greedy: bool, ghost pre: seq<byte>, ghost x: seq<byte>)
      requires byteCode == pre && atom + len <= |pre| && pre[atom..atom + len] == x
      modifies this
      ensures byteCode == pre + UpToCode(x, count, greedy)
    {
      hide U32;
      var dummy := EmitOp32(OP_PUSH_I32, count);
      var pos := |byteCode|;
      dummy := EmitOp32(SplitOp(greedy), len + 5);
      assert byteCode[atom..atom + len] == x;
      PutSelf(atom, len);
      EmitGoto(OP_LOOP, pos);
      EmitOp(OP_DROP);
      assert byteCode == pre + UpToCode(x, count, greedy);
    }
  }

  /** Where the atom is, after the code for the required iterations is in place. */
  lemma AtomInside(pre: seq<byte>, x: seq<byte>, min: nat, atom: nat)
    requires 0 < min && atom == if min == 1 then |pre| else |pre| + 5
    ensures var code := pre + (if min == 1 then x else ExactlyCode(x, min));
      atom + |x| <= |code| && code[atom..atom + |x|] == x
  {
    hide Op32;
    if min != 1 {
      var code := pre + ExactlyCode(x, min);
      assert code == (pre + Op32(OP_PUSH_I32, min)) + x + (Op32(OP_LOOP, -(|x| + 5)) + [OP_DROP]);
    }
  }
}
