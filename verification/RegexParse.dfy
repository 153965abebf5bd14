/**
 The recursive-descent parser of libregexp.c, which emits code as it reads, and lre_compile.  Each
 method reads what RegexReader says is there, and emits the code of its meaning.
 */
module RegexParse {
  import opened Wrappers
  import opened RegexSyntax
  import opened RegexBytecode
  import opened CharRanges
  import opened RegexGrammar
  import opened RegexReader
  import opened RegexStack
  import opened RegexDepth
  import opened RegexEmit
  import opened RegexProgram
  import RegexExec

  class ReParseState {
    const buf: seq<nat>
    const dotAll: bool
    const code: CodeBuffer
    var bufPtr: nat

    constructor (buf: seq<nat>, dotAll: bool)
      ensures this.buf == buf && this.dotAll == dotAll && bufPtr == 0 && fresh(code) && code.byteCode == []
    {
      this.buf, this.dotAll, bufPtr := buf, dotAll, 0;
      code := new CodeBuffer();
    }

    /** The pattern is followed by a zero. */
    function Peek(p: nat): nat {
      if p < |buf| then buf[p] else 0
    }

    predicate LooksAt(p: nat, c: char) {
      Peek(p) == c as int
    }

    /** What is left of the pattern at `p`. */
    function From(p: nat): seq<nat>
      requires p <= |buf|
    {
      buf[p..]
    }

    lemma FromFrom(p: nat, k: nat)
      requires p + k <= |buf|
      ensures From(p)[k..] == From(p + k) && From(p)[..k] == buf[p..p + k]
    {
    }

    lemma Looks(p: nat, c: char)
      requires p <= |buf| && c != '\0'
      ensures StartsWith(From(p), c) <==> LooksAt(p, c)
      ensures LooksAt(p, c) ==> p < |buf| && From(p)[1..] == From(p + 1)
    {
    }

    // ---------------------------------------------------------------- repetition counts

    /** parse_digits with overflow allowed. */
    method ParseDigits(p0: nat) returns (p: nat, v: nat)
      requires p0 <= |buf|
      ensures p0 <= p <= |buf| && Run(From(p0)) == p - p0 && v == Value(From(p0)[..p - p0])
      ensures From(p0)[p - p0..] == From(p) && (p0 < p <==> IsDigit(Peek(p0)))
    {
      p, v := p0, 0;
      while IsDigit(Peek(p))
        invariant p0 <= p <= |buf|
        invariant (forall k :: p0 <= k < p ==> IsDigit(buf[k])) && v == Value(buf[p0..p])
        decreases |buf| - p
      {
        assert buf[p0..p + 1][..p - p0] == buf[p0..p];
        v := v * 10 + (Peek(p) - '0' as int);
        if v >= INT32_MAX {
          v := INT32_MAX;
        }
        p := p + 1;
      }
      RunAt(From(p0), p - p0);
      FromFrom(p0, p - p0);
    }

    /** A repetition count as it was read at `p0`: its bounds, and where it ends. */
    ghost predicate CountIs(r: CountRead, p0: nat, ok: bool, found: bool, p: nat, min: nat, max: nat) {
      && ok == !r.BadCount?
      && (ok ==> found == r.Counted? && p <= |buf|)
      && (r.NoCount? ==> p == p0)
      && (r.Counted? && p <= |buf| ==> From(p) == r.rest && ValidCount(r.q) && Bounds(r.q) == (min, max))
    }

    /** How many times: the part of a quantifier before the '?' of a lazy one. */
    method ParseRange(p0: nat) returns (ok: bool, found: bool, p: nat, min: nat, max: nat)
      requires p0 <= |buf|
      ensures CountIs(CountAt(From(p0)), p0, ok, found, p, min, max)
    {
      hide Value, IsDigit, From, LooksAt, StartsWith, BracesAt;
      ok, found, p, min, max := true, true, p0, 0, 0;
      Looks(p0, '*');
      Looks(p0, '+');
      Looks(p0, '?');
      Looks(p0, '{');
      if LooksAt(p0, '*') {
        p, max := p0 + 1, INT32_MAX;
      } else if LooksAt(p0, '+') {
        p, min, max := p0 + 1, 1, INT32_MAX;
      } else if LooksAt(p0, '?') {
        p, max := p0 + 1, 1;
      } else if LooksAt(p0, '{') {
        ok, found, p, min, max := ParseCount(p0);
      } else {
        found := false;
      }
    }

    /** `{n}`, `{n,}` and `{n,m}`; anything else that starts so is read as characters. */
    method ParseCount(p0: nat) returns (ok: bool, found: bool, p: nat, min: nat, max: nat)
      requires p0 < |buf| && LooksAt(p0, '{')
      ensures CountIs(BracesAt(From(p0 + 1)), p0, ok, found, p, min, max)
    {
      hide Value, IsDigit, From, LooksAt, StartsWith, Run, MaxAt;
      ok, found, p, min, max := true, false, p0, 0, 0;
      if !IsDigit(Peek(p0 + 1)) {
        NoDigits(p0 + 1);
        return;
      }
      p, min := ParseDigits(p0 + 1);
      ghost var n := From(p0 + 1)[..p - (p0 + 1)];
      FromMore(p0 + 1, p);
      Looks(p, ',');
      if LooksAt(p, ',') {
        ok, found, p, max := ParseMax(p0, p + 1, min, n);
        return;
      }
      Looks(p, '}');
      if !LooksAt(p, '}') { return true, false, p0, 0, 0; }
      found, p, max := true, p + 1, min;
    }

    /** The part after the ',' at `p1 - 1`. */
    method ParseMax(p0: nat, p1: nat, min: nat, ghost n: seq<nat>) returns (ok: bool, found: bool, p: nat, max: nat)
      requires p0 < p1 <= |buf| && Digits(n) && min == Value(n)
      ensures CountIs(MaxAt(n, From(p1)), p0, ok, found, p, min, max)
    {
      hide Value, IsDigit, From, LooksAt, StartsWith, Run;
      ok, found, p, max := true, false, p1, INT32_MAX;
      if IsDigit(Peek(p1)) {
        p, max := ParseDigits(p1);
        if max < min { return false, true, p, max; }
      } else {
        NoDigits(p1);
      }
      FromMore(p1, p);
      Looks(p, '}');
      if !LooksAt(p, '}') { return true, false, p0, 0; }
      found, p := true, p + 1;
    }

    lemma NoDigits(p: nat)
      requires p <= |buf| && !IsDigit(Peek(p))
      ensures Run(From(p)) == 0
    {
    }

    lemma FromMore(p0: nat, p: nat)
      requires p0 <= p <= |buf|
      ensures From(p0)[p - p0..] == From(p)
      ensures p < |buf| ==> From(p0)[p - p0 + 1..] == From(p + 1)
    {
    }

    /** The quantifier after an atom, if there is one. */
    method ParseQuantifier(p0: nat) returns (ok: bool, found: bool, p: nat, min: nat, max: nat, greedy: bool)
      requires p0 <= |buf|
      ensures var r := CountAt(From(p0));
        && ok == !r.BadCount?
        && (ok ==> found == r.Counted? && p <= |buf|)
        && (r.Counted? && p <= |buf| ==>
              && ValidCount(r.q) && Bounds(r.q) == (min, max)
              && greedy == !StartsWith(r.rest, '?') && From(p) == if greedy then r.rest else r.rest[1..])
    {
      hide CountAt, Bounds, ValidCount, From, LooksAt, StartsWith;
      greedy := true;
      ok, found, p, min, max := ParseRange(p0);
      if !ok || !found { return; }
      Looks(p, '?');
      if LooksAt(p, '?') {
        p := p + 1;
        greedy := false;
      }
    }

    /** Whether the '{' at `p0` starts something like a repetition count. */
    method LooksLikeCount(p0: nat) returns (closed: bool)
      requires p0 < |buf|
      ensures closed == OpensCount(From(p0 + 1))
    {
      hide Value, IsDigit, From, LooksAt, StartsWith, Run;
      if !IsDigit(Peek(p0 + 1)) {
        NoDigits(p0 + 1);
        return false;
      }
      var p, v := ParseDigits(p0 + 1);
      Looks(p, ',');
      if LooksAt(p, ',') {
        p := p + 1;
        ghost var comma := p;
        if IsDigit(Peek(p)) {
          p, v := ParseDigits(p);
        } else {
          NoDigits(p);
          FromMore(p, p);
        }
      }
      Looks(p, '}');
      return LooksAt(p, '}');
    }

    // ---------------------------------------------------------------- classes

    /** get_class_atom, without escapes. */
    method GetClassAtom(p0: nat) returns (ok: bool, p: nat, c: nat)
      requires p0 <= |buf|
      ensures ok == (p0 < |buf| && ClassChar(buf[p0]))
      ensures ok ==> p == p0 + 1 && c == buf[p0]
    {
      p, c := p0, Peek(p0);
      if LooksAt(p, '\\') || |buf| <= p || 0xffff < c { return false, p, c; }
      return true, p + 1, c;
    }

    /** One member of a class: a character, or two with a '-' between them. */
    method ParseClassItem(p0: nat) returns (ok: bool, p: nat, it: Item)
      requires p0 <= |buf|
      ensures ok == ItemAt(From(p0)).Some?
      ensures ok ==> p0 < p <= |buf| && ItemAt(From(p0)) == Some((it, From(p)))
    {
      var c1;
      it := One(0);
      ok, p, c1 := GetClassAtom(p0);
      if !ok { return; }
      FromFrom(p0, 1);
      if p < |buf| { FromFrom(p0 + 1, 1); }
      if p < |buf| && LooksAt(p, '-') && !LooksAt(p + 1, ']') {
        var c2;
        ok, p, c2 := GetClassAtom(p + 1);
        if !ok { return; }
        if c2 < c1 { return false, p, it; }
        it := Span(c1, c2);
        FromFrom(p0, 3);
      } else {
        it := One(c1);
      }
    }

    /** re_parse_char_class, from '[' to ']', up to the boundary list that is emitted. */
    method ReParseCharClass(p0: nat) returns (ok: bool, p: nat, points: seq<nat>, ghost t: Tree)
      requires p0 < |buf| && LooksAt(p0, '[')
      ensures StartsWith(From(p0), '[') && ok == ClassAt(From(p0)).Some?
      ensures ok ==> p <= |buf| && ClassAt(From(p0)) == Some((t, From(p))) && WellFormed(t) && t.TClass?
      ensures ok ==> points == ClassPoints(t.inverted, t.items)
    {
      hide Inside, ItemHas, ItemText, ItemsHave, Canonical, Weak, ItemsText, ClassPoints, ItemAt, ItemsFrom, ValidItem;
      hide ClassHas, Covers, StartsWith, From, LooksAt;
      var cr := new CharRange();
      p := p0 + 1;
      var invert := false;
      Looks(p0, '[');
      Looks(p, '^');
      if LooksAt(p, '^') {
        p := p + 1;
        invert := true;
        FromFrom(p0, 2);
      }
      ghost var items: seq<Item> := [];
      ghost var start := p;
      points, t := [], TEmpty;
      NothingCovered();
      Looks(p, ']');
      while !LooksAt(p, ']')
        invariant start <= p <= |buf| && fresh(cr) && LooksAt(p, ']') == StartsWith(From(p), ']')
        invariant Covers(cr.points, items) && ValidItems(items) && ItemsFrom(items, From(p)) == ItemsFrom([], From(start))
        decreases |buf| - p
      {
        var it;
        ghost var pts := cr.points;
        ItemsStep(items, From(p));
        ghost var before := From(p);
        ok, p, it := ParseClassItem(p);
        if !ok { return; }
        ItemSound(before);
        CoversWeak(cr.points, items);
        ItemBounds(it);
        match it {
          case One(c1) => cr.UnionInterval(c1, c1);
          case Span(c1, c2) => cr.UnionInterval(c1, c2);
        }
        CoversMore(pts, cr.points, items, it);
        items := items + [it];
        Looks(p, ']');
      }
      CoversWeak(cr.points, items);
      ghost var pts := cr.points;
      if invert {
        cr.Invert();
      }
      points := cr.points;
      ClassIs(pts, points, items, invert);
      ItemsEnd(items, From(p));
      // re_emit_range rejects longer lists, which do not occur
      ok := |points| / 2 < 65535;
      t := TClass(invert, items);
      Looks(p, ']');
      p := p + 1;
    }

    /** re_emit_range */
    method ReEmitRange(points: seq<nat>)
      requires ValidPoints(points)
      modifies code
      ensures code.byteCode == old(code.byteCode) + ClassCode(points)
    {
      hide U16, U32, RangeTable, Pair, NeedsWide, TableFrom;
      ghost var pre := code.byteCode;
      if points == [] {
        var pos := code.EmitOp32(OP_CHAR32, -1);
      } else {
        var wide := NeedsWide(points);
        ghost var head := Op16(if wide then OP_RANGE32 else OP_RANGE, |points| / 2);
        code.byteCode := code.byteCode + Op16(if wide then OP_RANGE32 else OP_RANGE, |points| / 2);
        var i := 0;
        ghost var done: seq<byte> := [];
        TableEnds(points, wide);
        while i < |points|
          invariant 0 <= i <= |points| && i % 2 == 0
          invariant code.byteCode == pre + head + done && done + TableFrom(points, i, wide) == RangeTable(points, wide)
        {
          TableHead(points, i, wide);
          EmitPair(points, i, wide);
          Joins(done, Pair(points, i, wide), TableFrom(points, i + 2, wide));
          Joins(pre + head, done, Pair(points, i, wide));
          done := done + Pair(points, i, wide);
          i := i + 2;
        }
        Joins(pre, head, done);
      }
    }

    static lemma Joins(a: seq<byte>, b: seq<byte>, c: seq<byte>)
      ensures a + b + c == a + (b + c)
    {
    }

    method EmitPair(points: seq<nat>, i: nat, wide: bool)
      requires i + 1 < |points|
      modifies code
      ensures code.byteCode == old(code.byteCode) + Pair(points, i, wide)
    {
      hide U16, U32;
      if wide {
        code.byteCode := code.byteCode + U32(points[i]) + U32(points[i + 1] as int - 1);
      } else {
        var high: int := points[i + 1] as int - 1;
        if high == UINT32_MAX - 1 { high := 0xffff; }
        code.byteCode := code.byteCode + U16(points[i]) + U16(high);
      }
    }

    /** The two entries of an interval. */
    static function Pair(points: seq<nat>, i: nat, wide: bool): seq<byte>
      requires i + 1 < |points|
    {
      if wide then U32(points[i]) + U32(points[i + 1] as int - 1)
      else U16(points[i]) + U16(if points[i + 1] == UINT32_MAX then 0xffff else points[i + 1] as int - 1)
    }

    /** The table from interval boundary `i` on. */
    static function TableFrom(points: seq<nat>, i: nat, wide: bool): seq<byte>
      requires i <= |points| && (|points| - i) % 2 == 0
    {
      RangeTable(points[i..], wide)
    }

    static lemma TableHead(points: seq<nat>, i: nat, wide: bool)
      requires i + 1 < |points| && (|points| - i) % 2 == 0
      ensures TableFrom(points, i, wide) == Pair(points, i, wide) + TableFrom(points, i + 2, wide)
    {
      hide U16, U32;
      assert points[i..][2..] == points[i + 2..];
    }

    static lemma TableEnds(points: seq<nat>, wide: bool)
      requires |points| % 2 == 0
      ensures TableFrom(points, 0, wide) == RangeTable(points, wide) && TableFrom(points, |points|, wide) == []
    {
      assert points[0..] == points;
    }

    /** The atoms of re_parse_term that take one character. */
    method EmitOne(back: bool, ghost r: Regex, op: byte, c: nat, points: seq<nat>)
      requires Parsed(r)
      requires match r
        case Dot => op == OP_DOT
        case Any => op == OP_ANY
        case Char(d) => d == c && op == OP_CHAR
        case Class(pts) => pts == points && op == OP_RANGE
        case _ => false
      modifies code
      ensures code.byteCode == old(code.byteCode) + Code(r, back)
    {
      hide U16, U32, ClassCode;
      ghost var pre := code.byteCode;
      if back { code.EmitOp(OP_PREV); }
      if op == OP_CHAR {
        if c <= 0xffff {
          code.byteCode := code.byteCode + Op16(OP_CHAR, c);
        } else {
          var pos := code.EmitOp32(OP_CHAR32, c);
        }
      } else if op == OP_RANGE {
        ReEmitRange(points);
      } else {
        code.EmitOp(op);
      }
      if back { code.EmitOp(OP_PREV); }
    }

    // ---------------------------------------------------------------- terms

    /** What a successful parse has read and emitted, and that others fail. */
    twostate predicate Took(r: Option<(Tree, seq<nat>)>, ok: bool, t: Tree, back: bool)
      reads this, code
    {
      && ok == r.Some?
      && (ok ==>
        && bufPtr <= |buf| && r == Some((t, From(bufPtr))) && WellFormed(t)
        && code.byteCode == old(code.byteCode) + Code(Meaning(t, dotAll), back))
    }

    /** A disjunction and its ')': the common part of groups and lookarounds. */
    method ReParseEnclosed(back: bool) returns (ok: bool, ghost t: Tree)
      requires bufPtr <= |buf|
      modifies this`bufPtr, code
      ensures Took(EnclosedAt(old(From(bufPtr))), ok, t, back) && (ok ==> IsDisjunction(t))
      decreases |buf| - bufPtr, 6
    {
      hide Code, StartsWith, LooksAt, From;
      ghost var s := From(bufPtr);
      ok, t := ReParseDisjunction(back);
      if !ok { return; }
      DisjunctionSound(s);
      Looks(bufPtr, ')');
      if !LooksAt(bufPtr, ')') { ok := false; return; }
      bufPtr := bufPtr + 1;
    }

    /** The groups and lookarounds of re_parse_term: `bufPtr` is at the '('. */
    method ReParseGroup(back: bool) returns (ok: bool, ghost t: Tree)
      requires bufPtr < |buf| && LooksAt(bufPtr, '(')
      modifies this`bufPtr, code
      ensures Took(GroupAt(old(From(bufPtr))), ok, t, back)
      ensures ok ==> t.TGroup? || t.TLook?
      decreases |buf| - bufPtr, 1
    {
      hide Code, Op32, U32;
      var p := bufPtr;
      ok, t := false, TEmpty;
      if |buf| < p + 4 || !LooksAt(p + 1, '?') { return; }
      if LooksAt(p + 2, ':') {
        FromFrom(p, 3);
        bufPtr := p + 3;
        ok, t := ReParseEnclosed(back);
        if ok { t := TGroup(t); }
      } else {
        ok, t := ReParseLook(back);
      }
    }

    /** The lookarounds. */
    method ReParseLook(back: bool) returns (ok: bool, ghost t: Tree)
      requires bufPtr + 4 <= |buf| && LooksAt(bufPtr, '(') && LooksAt(bufPtr + 1, '?') && !LooksAt(bufPtr + 2, ':')
      modifies this`bufPtr, code
      ensures Took(GroupAt(old(From(bufPtr))), ok, t, back) && (ok ==> t.TLook?)
      decreases |buf| - bufPtr, 0
    {
      hide Code, U32, Op32, EnclosedAt;
      var p := bufPtr;
      ok, t := false, TEmpty;
      var behind := LooksAt(p + 2, '<');
      var q := if behind then p + 3 else p + 2;
      if !LooksAt(q, '=') && !LooksAt(q, '!') { return; }
      var isNeg := LooksAt(q, '!');
      ghost var pre := code.byteCode;
      var op := if isNeg then OP_NEGATIVE_LOOKAHEAD else OP_LOOKAHEAD;
      var pos := code.EmitOp32(op, 0);
      bufPtr := q + 1;
      FromFrom(p, q + 1 - p);
      ok, t := ReParseEnclosed(behind);
      if !ok { return; }
      code.EmitOp(OP_MATCH);
      // a successful lookaround continues after its own match
      PatchJump(pre, op, pos, Code(Meaning(t, dotAll), behind) + [OP_MATCH]);
      LookCodeIs(isNeg, behind, t, back);
      assert code.byteCode == pre + LookCode(isNeg, Code(Meaning(t, dotAll), behind));
      t := TLook(isNeg, behind, t);
    }

    lemma LookCodeIs(negated: bool, behind: bool, body: Tree, back: bool)
      requires WellFormed(body) && IsDisjunction(body)
      ensures WellFormed(TLook(negated, behind, body))
      ensures Code(Meaning(TLook(negated, behind, body), dotAll), back) == LookCode(negated, Code(Meaning(body, dotAll), behind))
    {
      hide LookCode;
    }

    /** Patch the operand at `pos` to jump to the end of the buffer. */
    method PatchJump(ghost pre: seq<byte>, ghost op: byte, pos: nat, ghost x: seq<byte>)
      requires pos == |pre| + 1 && code.byteCode == pre + Op32(op, 0) + x
      modifies code
      ensures code.byteCode == pre + (Op32(op, |x|) + x)
    {
      hide U32;
      assert code.byteCode == pre + [op] + U32(0) + x;
      code.PutU32(pos, |code.byteCode| - (pos + 4), pre + [op], U32(0), x);
      assert U32(0)[4..] == [];
    }

    /** The character at `bufPtr` as an atom. */
    method TakeChar(back: bool) returns (ghost t: Tree)
      requires bufPtr < |buf| && !Special(buf[bufPtr]) && buf[bufPtr] <= 0xffff
      modifies this`bufPtr, code
      ensures Took(Some((TChar(old(From(bufPtr))[0]), old(From(bufPtr))[1..])), true, t, back)
    {
      hide Code;
      t := TChar(buf[bufPtr]);
      EmitOne(back, Char(buf[bufPtr]), OP_CHAR, buf[bufPtr], []);
      FromFrom(bufPtr, 1);
      bufPtr := bufPtr + 1;
    }

    method TakeDot(back: bool) returns (ghost t: Tree)
      requires bufPtr < |buf|
      modifies this`bufPtr, code
      ensures Took(Some((TDot, old(From(bufPtr))[1..])), true, t, back)
    {
      hide Code;
      t := TDot;
      EmitOne(back, Meaning(t, dotAll), if dotAll then OP_ANY else OP_DOT, 0, []);
      FromFrom(bufPtr, 1);
      bufPtr := bufPtr + 1;
    }

    /** An assertion whose text has `len` characters. */
    method TakeAssertion(back: bool, len: nat, op: byte, ghost t: Tree)
      requires t.TLineStart? || t.TLineEnd? || t.TWordBoundary?
      requires bufPtr + len <= |buf|
      requires op == match t
        case TLineStart => OP_LINE_START
        case TLineEnd => OP_LINE_END
        case _ => if t.TWordBoundary? && t.inverted then OP_NOT_WORD_BOUNDARY else OP_WORD_BOUNDARY
      modifies this`bufPtr, code
      ensures Took(Some((t, old(From(bufPtr))[len..])), true, t, back)
    {
      hide Code;
      code.EmitOp(op);
      AssertionCode(t, back);
      FromFrom(bufPtr, len);
      bufPtr := bufPtr + len;
    }

    /** A class as an atom. */
    method TakeClass(back: bool) returns (ok: bool, ghost t: Tree)
      requires bufPtr < |buf| && LooksAt(bufPtr, '[')
      modifies this`bufPtr, code
      ensures StartsWith(old(From(bufPtr)), '[') && Took(ClassAt(old(From(bufPtr))), ok, t, back)
    {
      hide Code, ClassPoints, ClassAt;
      var p, points;
      ok, p, points, t := ReParseCharClass(bufPtr);
      if !ok { return; }
      bufPtr := p;
      EmitOne(back, Meaning(t, dotAll), OP_RANGE, 0, points);
    }

    /** An atom or an assertion: re_parse_term up to the quantifier. */
    method ReParseAtom(back: bool) returns (ok: bool, quantifiable: bool, ghost t: Tree)
      requires bufPtr < |buf|
      modifies this`bufPtr, code
      ensures Took(AtomAt(old(From(bufPtr))), ok, t, back)
      ensures ok ==> quantifiable == IsAtom(t)
      decreases |buf| - bufPtr, 2
    {
      hide Code, Meaning, ClassAt, GroupAt, OpensCount;
      var p, c := bufPtr, buf[bufPtr];
      ghost var s := From(p);
      AtomSound(s);
      ok, quantifiable, t := true, true, TEmpty;
      if LooksAt(p, '^') {
        quantifiable, t := false, TLineStart;
        TakeAssertion(back, 1, OP_LINE_START, t);
      } else if LooksAt(p, '$') {
        quantifiable, t := false, TLineEnd;
        TakeAssertion(back, 1, OP_LINE_END, t);
      } else if LooksAt(p, '.') {
        t := TakeDot(back);
      } else if LooksAt(p, '{') {
        // there is nothing to repeat
        var closed := LooksLikeCount(p);
        if closed {
          ok := false;
        } else {
          t := TakeChar(back);
        }
      } else if LooksAt(p, '*') || LooksAt(p, '+') || LooksAt(p, '?') {
        ok := false;
      } else if LooksAt(p, '(') {
        ok, t := ReParseGroup(back);
        GroupSound(s);
        // a lookbehind cannot be repeated
        quantifiable := !(LooksAt(p + 1, '?') && LooksAt(p + 2, '<'));
      } else if LooksAt(p, '\\') {
        if LooksAt(p + 1, 'b') || LooksAt(p + 1, 'B') {
          var inverted := !LooksAt(p + 1, 'b');
          quantifiable, t := false, TWordBoundary(inverted);
          TakeAssertion(back, 2, if inverted then OP_NOT_WORD_BOUNDARY else OP_WORD_BOUNDARY, t);
        } else {
          ok := false;
        }
      } else if LooksAt(p, '[') {
        ok, t := TakeClass(back);
      } else if 0xffff < c || LooksAt(p, ')') || LooksAt(p, '|') {
        ok := false;
      } else {
        t := TakeChar(back);
      }
    }

    lemma AssertionCode(t: Tree, back: bool)
      requires t.TLineStart? || t.TLineEnd? || t.TWordBoundary?
      ensures WellFormed(t)
      ensures Code(Meaning(t, dotAll), back) ==
        [match t case TLineStart => OP_LINE_START case TLineEnd => OP_LINE_END
         case _ => if t.TWordBoundary? && t.inverted then OP_NOT_WORD_BOUNDARY else OP_WORD_BOUNDARY]
    {
    }

    method ReParseTerm(back: bool) returns (ok: bool, ghost t: Tree)
      requires bufPtr < |buf|
      modifies this`bufPtr, code
      ensures Took(TermAt(old(From(bufPtr))), ok, t, back) && (ok ==> IsTerm(t))
      decreases |buf| - bufPtr, 3
    {
      hide Code, RepeatCode, Bounds, CountAt, AtomAt, StartsWith;
      ghost var pre, s := code.byteCode, From(bufPtr);
      var quantifiable;
      var lastAtomStart := |code.byteCode|;
      AtomSound(s);
      ok, quantifiable, t := ReParseAtom(back);
      if !ok || !quantifiable { return; }
      var found, p, min, max, greedy;
      ghost var q, atom := CountAt(From(bufPtr)), t;
      ok, found, p, min, max, greedy := ParseQuantifier(bufPtr);
      if !ok || !found { return; }
      t := TRepeat(atom, q.q, greedy);
      bufPtr := p;
      code.EmitQuantifier(lastAtomStart, min, max, greedy, pre, Code(Meaning(atom, dotAll), back));
      RepeatCodeIs(t, back, min, max);
    }

    lemma RepeatCodeIs(t: Tree, back: bool, min: nat, max: nat)
      requires t.TRepeat? && WellFormed(t) && Bounds(t.count) == (min, max) && min <= max
      ensures Code(Meaning(t, dotAll), back) == RepeatCode(Code(Meaning(t.atom, dotAll), back), min, max, t.greedy)
    {
      hide RepeatCode;
    }

    // ---------------------------------------------------------------- alternatives and disjunctions

    method ReParseAlternative(back: bool) returns (ok: bool, ghost t: Tree)
      requires bufPtr <= |buf|
      modifies this`bufPtr, code
      ensures Took(AlternativeFrom(TEmpty, old(From(bufPtr))), ok, t, back) && (ok ==> IsAlternative(t))
      decreases |buf| - bufPtr, 4
    {
      hide Code, IsTerm, TermAt, Meaning, WellFormed, From, StartsWith, LooksAt, AtEnd;
      ghost var pre := code.byteCode;
      var start := |code.byteCode|;
      ok, t := true, TEmpty;
      EmptyTree(back);
      EndIs(bufPtr);
      while bufPtr < |buf| && !LooksAt(bufPtr, '|') && !LooksAt(bufPtr, ')')
        invariant old(bufPtr) <= bufPtr <= |buf| && WellFormed(t) && IsAlternative(t)
        invariant AlternativeFrom(t, From(bufPtr)) == AlternativeFrom(TEmpty, old(From(bufPtr)))
        invariant code.byteCode == pre + Code(Meaning(t, dotAll), back)
        invariant AtEnd(From(bufPtr)) <==> bufPtr == |buf| || LooksAt(bufPtr, '|') || LooksAt(bufPtr, ')')
        decreases |buf| - bufPtr
      {
        ghost var front, from := t, bufPtr;
        ghost var x := Code(Meaning(t, dotAll), back);
        var termStart := |code.byteCode|;
        ok, t := ReParseTerm(back);
        if !ok { return; }
        ghost var y := Code(Meaning(t, dotAll), back);
        if back {
          // a backward matcher takes the terms from the last to the first
          ReverseTerms(start, termStart, pre, x, y);
        }
        ThenIs(front, t, back);
        t := TThen(front, t);
        EndIs(bufPtr);
        Left(from);
        Left(bufPtr);
      }
    }

    lemma EndIs(p: nat)
      requires p <= |buf|
      ensures AtEnd(From(p)) <==> p == |buf| || LooksAt(p, '|') || LooksAt(p, ')')
    {
    }

    lemma Left(p: nat)
      requires p <= |buf|
      ensures |From(p)| == |buf| - p
    {
    }

    /** Move the last term before the ones from `start` on. */
    method ReverseTerms(start: nat, termStart: nat, ghost pre: seq<byte>, ghost x: seq<byte>, ghost y: seq<byte>)
      requires code.byteCode == pre + x + y && start == |pre| && termStart == |pre| + |x|
      modifies code
      ensures code.byteCode == pre + y + x
    {
      var buf := code.byteCode;
      var end := |buf|;
      var termSize := end - termStart;
      // the terms move up, and the copy of the last one that this leaves at the end moves down
      var moved := buf[..start] + buf[start..start + termSize] + buf[start..end];
      MovedUp(pre, buf[start..start + termSize], x, y);
      assert buf[..start] == pre && buf[start..end] == x + y;
      code.byteCode := moved[..start] + moved[end..end + termSize] + moved[start + termSize..end];
    }

    lemma MovedUp(pre: seq<byte>, gap: seq<byte>, x: seq<byte>, y: seq<byte>)
      requires |gap| == |y|
      ensures var moved := pre + gap + (x + y);
        && |moved| == |pre| + |x| + 2 * |y| && moved[..|pre|] == pre
        && moved[|pre| + |y|..|pre| + |x| + |y|] == x
        && moved[|pre| + |x| + |y|..|pre| + |x| + 2 * |y|] == y
    {
    }

    lemma EmptyTree(back: bool)
      ensures WellFormed(TEmpty) && Code(Meaning(TEmpty, dotAll), back) == []
    {
    }

    lemma ThenIs(a: Tree, b: Tree, back: bool)
      requires WellFormed(a) && WellFormed(b) && IsAlternative(a) && IsTerm(b)
      ensures WellFormed(TThen(a, b))
      ensures var x, y := Code(Meaning(a, dotAll), back), Code(Meaning(b, dotAll), back);
        Code(Meaning(TThen(a, b), dotAll), back) == if back then y + x else x + y
    {
    }

    method ReParseDisjunction(back: bool) returns (ok: bool, ghost t: Tree)
      requires bufPtr <= |buf|
      modifies this`bufPtr, code
      ensures Took(DisjunctionAt(old(From(bufPtr))), ok, t, back)
      decreases |buf| - bufPtr, 5
    {
      hide Code, Op32, Meaning, AlternativeFrom, StartsWith, LooksAt;
      ghost var from, pre := bufPtr, code.byteCode;
      var start := |code.byteCode|;
      ok, t := ReParseAlternative(back);
      if !ok { return; }
      Looks(bufPtr, '|');
      while LooksAt(bufPtr, '|')
        invariant from <= bufPtr <= |buf| && WellFormed(t) && IsDisjunction(t)
        invariant DisjunctionFrom(t, From(bufPtr)) == DisjunctionAt(From(from))
        invariant LooksAt(bufPtr, '|') == StartsWith(From(bufPtr), '|')
        invariant code.byteCode == pre + Code(Meaning(t, dotAll), back)
        decreases |buf| - bufPtr
      {
        ghost var front := t;
        Looks(bufPtr, '|');
        ok, t := ReParseNext(back, start, pre, front);
        if !ok { return; }
        OrIs(front, t, back, pre);
        t := TOr(front, t);
        Looks(bufPtr, '|');
      }
    }

    /** One more alternative, after the code of `front`. */
    method ReParseNext(back: bool, start: nat, ghost pre: seq<byte>, ghost front: Tree) returns (ok: bool, ghost t: Tree)
      requires bufPtr < |buf| && WellFormed(front)
      requires code.byteCode == pre + Code(Meaning(front, dotAll), back) && start == |pre|
      modifies this`bufPtr, code
      ensures ok == AlternativeFrom(TEmpty, From(old(bufPtr) + 1)).Some?
      ensures ok ==>
        && old(bufPtr) < bufPtr <= |buf| && AlternativeFrom(TEmpty, From(old(bufPtr) + 1)) == Some((t, From(bufPtr)))
        && WellFormed(t) && IsAlternative(t)
      ensures ok ==>
        var x, y := Code(Meaning(front, dotAll), back), Code(Meaning(t, dotAll), back);
        code.byteCode == pre + (Op32(OP_SPLIT_NEXT_FIRST, |x| + 5) + x) + (Op32(OP_GOTO, |y|) + y)
      decreases |buf| - bufPtr, 0
    {
      hide Code, Op32, Meaning, AlternativeFrom;
      ghost var x := Code(Meaning(front, dotAll), back);
      bufPtr := bufPtr + 1;
      var len := |code.byteCode| - start;
      code.InsertOp32(start, OP_SPLIT_NEXT_FIRST, len + 5, pre, x);
      var pos := code.EmitOp32(OP_GOTO, 0);
      ghost var head := pre + (Op32(OP_SPLIT_NEXT_FIRST, len + 5) + x);
      ok, t := ReParseAlternative(back);
      if !ok { return; }
      // the goto after the alternatives before this one skips it
      PatchJump(head, OP_GOTO, pos, Code(Meaning(t, dotAll), back));
    }

    lemma OrIs(a: Tree, b: Tree, back: bool, pre: seq<byte>)
      requires WellFormed(a) && WellFormed(b) && IsDisjunction(a) && IsAlternative(b)
      ensures WellFormed(TOr(a, b))
      ensures var x, y := Code(Meaning(a, dotAll), back), Code(Meaning(b, dotAll), back);
        pre + Code(Meaning(TOr(a, b), dotAll), back)
        == pre + (Op32(OP_SPLIT_NEXT_FIRST, |x| + 5) + x) + (Op32(OP_GOTO, |y|) + y)
    {
      hide Op32, IsTerm, ChoiceCode, Chars;
      assert WellFormed(TOr(a, b));
      var x, y := Code(Meaning(a, dotAll), back), Code(Meaning(b, dotAll), back);
      assert Meaning(TOr(a, b), dotAll) == Choice(Meaning(a, dotAll), Meaning(b, dotAll));
      assert Code(Meaning(TOr(a, b), dotAll), back) == ChoiceCode(x, y);
      ChoiceParts(pre, x, y);
    }

    lemma ChoiceParts(pre: seq<byte>, x: seq<byte>, y: seq<byte>)
      ensures pre + ChoiceCode(x, y) == pre + (Op32(OP_SPLIT_NEXT_FIRST, |x| + 5) + x) + (Op32(OP_GOTO, |y|) + y)
    {
      hide Op32;
    }

  }

  // ---------------------------------------------------------------- classes

  lemma RunAt(s: seq<nat>, n: nat)
    requires n <= |s| && (forall k :: 0 <= k < n ==> IsDigit(s[k])) && (n == |s| || !IsDigit(s[n]))
    ensures Run(s) == n
  {
  }

  lemma ItemsStep(read: seq<Item>, s: seq<nat>)
    requires !StartsWith(s, ']')
    ensures ItemAt(s).None? ==> ItemsFrom(read, s).None?
    ensures ItemAt(s).Some? ==> ItemsFrom(read, s) == ItemsFrom(read + [ItemAt(s).value.0], ItemAt(s).value.1)
  {
  }

  lemma ItemsEnd(read: seq<Item>, s: seq<nat>)
    requires StartsWith(s, ']')
    ensures ItemsFrom(read, s) == Some((read, s[1..]))
  {
  }

  lemma ItemBounds(it: Item)
    requires ValidItem(it)
    ensures if it.One? then it.c <= 0xffff else it.c1 <= it.c2 <= 0xffff
  {
  }

  /** The list built so far has the members read so far. */
  ghost predicate Covers(points: seq<nat>, items: seq<Item>) {
    Canonical(points) && forall c: nat :: Inside(points, c) <==> ItemsHave(items, c)
  }

  lemma CoversWeak(points: seq<nat>, items: seq<Item>)
    requires Covers(points, items)
    ensures Weak(points) && Canonical(points)
  {
  }

  lemma NothingCovered()
    ensures Covers([], [])
  {
  }

  lemma CoversMore(pts: seq<nat>, pts': seq<nat>, items: seq<Item>, it: Item)
    requires Covers(pts, items) && Canonical(pts')
    requires forall c: nat :: Inside(pts', c) == (Inside(pts, c) || if it.One? then it.c <= c <= it.c else it.c1 <= c <= it.c2)
    ensures Covers(pts', items + [it])
  {
    hide Inside, ItemsHave;
    HasMore(items, it);
  }

  lemma HasMore(items: seq<Item>, it: Item)
    ensures forall c: nat :: ItemsHave(items + [it], c) <==> ItemsHave(items, c) || ItemHas(it, c)
  {
    forall c: nat ensures ItemsHave(items + [it], c) <==> ItemsHave(items, c) || ItemHas(it, c) {
      var all := items + [it];
      if k :| 0 <= k < |items| && ItemHas(items[k], c) { assert all[k] == items[k]; }
      if ItemHas(it, c) { assert all[|items|] == it; }
    }
  }

  /** The list that is emitted is the list of the class. */
  lemma ClassIs(pts: seq<nat>, points: seq<nat>, items: seq<Item>, inverted: bool)
    requires Covers(pts, items) && Canonical(points) && ValidItems(items)
    requires if inverted then forall c: nat :: c < UINT32_MAX ==> Inside(points, c) == !Inside(pts, c) else points == pts
    ensures points == ClassPoints(inverted, items)
  {
    hide Inside, ItemsHave, Canonical, ClassPoints, ValidItems;
    forall c: nat | c < UINT32_MAX ensures Inside(points, c) <==> Inside(ClassPoints(inverted, items), c) {
      ClassPointsMean(inverted, items, c);
    }
    CanonicalIsUnique(points, ClassPoints(inverted, items));
  }

  // ---------------------------------------------------------------- lre_compile

  /** The pass over the code does not look at the header. */
  lemma {:induction false} HeaderIgnored(a: seq<byte>, b: seq<byte>, p: nat, d: nat, max: nat)
    requires |a| == |b| && RE_HEADER_LEN <= p && forall k :: RE_HEADER_LEN <= k < |a| ==> a[k] == b[k]
    ensures ComputeStackSize(a, p, d, max) == ComputeStackSize(b, p, d, max)
    decreases |a| - p
  {
    if p < |a| {
      assert InstrSize(a, p) == InstrSize(b, p) && a[p] == b[p];
      var d' := d + Effect(a[p]);
      if InstrSize(a, p) != 0 && 0 <= d' {
        HeaderIgnored(a, b, p + InstrSize(a, p), d', if d' > max then d' else max);
      }
    }
  }

  /** Filling in the header gives the program. */
  lemma HeaderFilled(buf: seq<byte>, r: Regex, flags: byte, sticky: bool, n: byte)
    requires Parsed(r) && |buf| < TWO31
    requires buf == [flags, 0, 0] + U32(0) + Body(r, sticky) && ComputeStackSize(buf, RE_HEADER_LEN, 0, 0) == Size(n as int)
    ensures RegexExec.Compiled([flags, 1, n] + U32(|buf| - RE_HEADER_LEN) + buf[RE_HEADER_LEN..], r, sticky)
  {
    hide U32, ComputeStackSize, Code;
    var code := [flags, 1, n] + U32(|buf| - RE_HEADER_LEN) + buf[RE_HEADER_LEN..];
    assert buf[RE_HEADER_LEN..] == Body(r, sticky);
    HeaderIgnored(buf, code, RE_HEADER_LEN, 0, 0);
  }

  /** `t` is what the pattern is read as: SameTextSameTree says that there is only one. */
  predicate Spells(t: Tree, pattern: seq<nat>) {
    Grammatical(t) && Text(t) == pattern
  }

  /** The quantifiers are not nested too deep for the evaluation stack. */
  predicate Shallow(t: Tree, flags: byte)
    requires WellFormed(t)
  {
    Peak(Meaning(t, IsSet(flags, LRE_FLAG_DOTALL)), false) <= 255
  }

  /** The jumps of the program fit in their operands. */
  predicate Short(t: Tree, flags: byte)
    requires WellFormed(t)
  {
    RE_HEADER_LEN + |Body(Meaning(t, IsSet(flags, LRE_FLAG_DOTALL)), IsSet(flags, LRE_FLAG_STICKY))| < TWO31
  }

  /** `code` is the compiled form of `t`. */
  ghost predicate TreeCompiled(code: seq<byte>, t: Tree, flags: byte)
    requires WellFormed(t)
  {
    && RegexExec.Compiled(code, Meaning(t, IsSet(flags, LRE_FLAG_DOTALL)), IsSet(flags, LRE_FLAG_STICKY))
    && code[0] == flags
  }

  /**
   lre_compile: succeeds exactly for the patterns of the grammar whose quantifiers are not nested
   too deep; the result is then the program of what the pattern means, with the depth of its
   evaluation stack in the header.
   */
  method LreCompile(pattern: seq<nat>, flags: byte) returns (code: Option<seq<byte>>)
    requires !IsSet(flags, LRE_FLAG_IGNORECASE) && !IsSet(flags, LRE_FLAG_UTF16)
    ensures code.Some? <==> exists t :: Spells(t, pattern) && Shallow(t, flags)
    ensures code.Some? ==> forall t | Spells(t, pattern) && Short(t, flags) :: TreeCompiled(code.value, t, flags)
  {
    hide Code, Text, U32, Op32, ComputeStackSize, Grammatical, RegexExec.Compiled, Peak, DisjunctionAt, Meaning, Body;
    var sticky := IsSet(flags, LRE_FLAG_STICKY);
    var s := new ReParseState(pattern, IsSet(flags, LRE_FLAG_DOTALL));
    s.code.byteCode := [flags, 0, 0] + U32(0);
    if !sticky {
      // skip characters until the pattern matches
      var pos := s.code.EmitOp32(OP_SPLIT_GOTO_FIRST, 1 + 5);
      s.code.EmitOp(OP_ANY);
      pos := s.code.EmitOp32(OP_GOTO, -(5 + 1 + 5));
    }
    s.code.byteCode := s.code.byteCode + [OP_SAVE_START, 0];
    ghost var head := s.code.byteCode;
    assert s.From(0) == pattern;
    ReadTree(pattern);
    var ok;
    ghost var t;
    ok, t := s.ReParseDisjunction(false);
    if !ok { return None; }
    s.code.byteCode := s.code.byteCode + [OP_SAVE_END, 0];
    s.code.EmitOp(OP_MATCH);
    if s.bufPtr != |pattern| { return None; }
    assert Read(pattern) == Some(t);
    ghost var r := Meaning(t, s.dotAll);
    var buf := s.code.byteCode;
    BodyIs(buf, flags, r, sticky);
    ProgramPeak(buf, r, sticky);
    var size := StackSizeOf(buf);
    if !size.Size? { return None; }
    var n: byte := size.n;
    // the header: captures, stack size and length of the code
    code := Some([buf[0], 1, n] + U32(|buf| - RE_HEADER_LEN) + buf[RE_HEADER_LEN..]);
    assert Spells(t, pattern) && Shallow(t, flags);
    if |buf| < TWO31 {
      HeaderFilled(buf, r, flags, sticky, n);
    }
  }

  lemma BodyIs(buf: seq<byte>, flags: byte, r: Regex, sticky: bool)
    requires Parsed(r)
    requires buf == [flags, 0, 0] + U32(0) + (if sticky then [] else Op32(OP_SPLIT_GOTO_FIRST, 6) + [OP_ANY] + Op32(OP_GOTO, -11))
      + [OP_SAVE_START, 0] + Code(r, false) + [OP_SAVE_END, 0] + [OP_MATCH]
    ensures buf == [flags, 0, 0] + U32(0) + Body(r, sticky) && buf[0] == flags
  {
    hide Code, U32, Op32;
  }

  /** Any tree of the pattern is the one that is read. */
  lemma ReadTree(pattern: seq<nat>)
    ensures forall t :: Spells(t, pattern) <==> Read(pattern) == Some(t)
  {
    forall t ensures Spells(t, pattern) <==> Read(pattern) == Some(t) {
      PatternIsRead(pattern, t);
    }
  }
}
