/**
 The emitted code finds what RegexSyntax.Ends says: running the code of a regular expression and then
 a continuation gives the continuation's result for the first end that the continuation accepts.
 */
module RegexCorrect {
  import opened Wrappers
  import opened RegexSyntax
  import opened RegexBytecode
  import opened RegexVm
  import opened RegexSim
  import opened RegexAtoms
  import opened RegexGreedy
  import RegexSimple
  import opened RegexRounds
  import RegexAdvance

  /**
   The body of a reluctant loop without upper bound has to move: such a loop has no check for an
   iteration that matches nothing, and would not end.
   */
  predicate Loops(r: Regex) {
    match r
    case Concat(a, b) => Loops(a) && Loops(b)
    case Choice(a, b) => Loops(a) && Loops(b)
    case Look(_, _, body) => Loops(body)
    case Repeat(body, min, max, greedy) => max == 0 || (Loops(body) && (max == INT32_MAX && !greedy ==> Moves(body)))
    case _ => true
  }

  /** bne_char_pos after an iteration that did not move. */
  lemma BneStays(c: Ctx, pc: nat, i: nat, off: int, k: Option<Fate>)
    requires i <= |c.m.subject.chars| && -TWO31 <= off < TWO31
    requires At(c.m.code, pc, Op32(OP_BNE_CHAR_POS, off))
    requires Runs(c, pc + 5, i, k)
    ensures Runs(c.(stk := c.stk + [i]), pc, i, k)
  {
    AtOp32(c.m.code, pc, OP_BNE_CHAR_POS, off);
    var c' := c.(stk := c.stk + [i]);
    assert c'.stk[..|c.stk|] == c.stk;
    assert c == c'.(stk := c.stk);
    ChangeStack(c', pc, i, c.stk, pc + 5, k);
  }

  lemma {:induction false} StarRuns(c: Ctx, r: Regex, back: bool, greedy: bool, check: bool, p: nat, i: nat, k: seq<Option<Fate>>)
    requires Cont(c, k) && i < |k| && Parsed(r) && Loops(r) && (check || Moves(r))
    requires At(c.m.code, p, StarCode(Code(r, back), greedy, check))
    requires RunAll(c, p + |StarCode(Code(r, back), greedy, check)|, Iterate(c.m.subject, r, 0, None, greedy, back, i), k)
    ensures Runs(c, p, i, First(k, Iterate(c.m.subject, r, 0, None, greedy, back, i)))
    decreases r, 2, Room(c.m.subject, back, i)
  {
    hide Code, Iterate, Ends, Runs, At, First, Op32, Moves, Again;
    var s := c.m.subject;
    var x := Code(r, back);
    var end := p + |StarCode(x, greedy, check)|;
    var kk := Again(s, r, 0, None, greedy, back, i, k);
    var js := Ends(s, r, back, i);
    OptionalRound(c, end, r, None, greedy, back, i, k);
    StarLayout(c.m.code, p, x, greedy, check);
    if !check { MovesSound(s, r, back, i); }
    var start := if check then p + 6 else p + 5;
    var c' := if check then c.(stk := c.stk + [i]) else c;
    forall j | j in js ensures j < |kk| && Runs(c', start + |x|, j, kk[j]) {
      assert Toward(s, back, i, j);
      AgainAt(s, r, None, greedy, back, i, k, j);
      if j == i {
        BneStays(c, start + |x|, i, -(|x| + 11), kk[j]);
      } else {
        StarRuns(c, r, back, greedy, check, p, j, k);
        if check {
          BneCharPosRuns(c, start + |x|, j, i, -(|x| + 11), kk[j]);
        } else {
          GotoRuns(c, start + |x|, j, -(|x| + 10), kk[j]);
        }
      }
    }
    CodeRuns(c', r, back, start, i, kk);
    if check { PushCharPosRuns(c, p + 5, i, First(kk, js)); }
    var off := if check then |x| + 6 else |x| + 5;
    if greedy {
      SplitRuns(c, p, i, true, off, First(kk, js), k[i]);
    } else {
      SplitRuns(c, p, i, false, off, k[i], First(kk, js));
    }
  }

  lemma StarLayout(code: seq<byte>, p: nat, x: seq<byte>, greedy: bool, check: bool)
    requires At(code, p, StarCode(x, greedy, check))
    ensures p + |x| + 10 <= |code| && |StarCode(x, greedy, check)| == |x| + if check then 11 else 10
    ensures check ==>
      && At(code, p, Op32(SplitOp(greedy), |x| + 6)) && At(code, p + 5, [OP_PUSH_CHAR_POS])
      && At(code, p + 6, x) && At(code, p + 6 + |x|, Op32(OP_BNE_CHAR_POS, -(|x| + 11)))
    ensures !check ==>
      && At(code, p, Op32(SplitOp(greedy), |x| + 5))
      && At(code, p + 5, x) && At(code, p + 5 + |x|, Op32(OP_GOTO, -(|x| + 10)))
  {
    hide Op32, At;
    StarEnds(code, p, x, greedy, check);
    if check {
      var a, b := Op32(SplitOp(greedy), |x| + 6), Op32(OP_BNE_CHAR_POS, -(|x| + 11));
      AtSplit(code, p, a + [OP_PUSH_CHAR_POS] + x, b);
      AtSplit(code, p, a + [OP_PUSH_CHAR_POS], x);
      AtSplit(code, p, a, [OP_PUSH_CHAR_POS]);
    } else {
      var a, b := Op32(SplitOp(greedy), |x| + 5), Op32(OP_GOTO, -(|x| + 10));
      AtSplit(code, p, a + x, b);
      AtSplit(code, p, a, x);
    }
  }

  lemma StarEnds(code: seq<byte>, p: nat, x: seq<byte>, greedy: bool, check: bool)
    requires At(code, p, StarCode(x, greedy, check))
    ensures p + |x| + 10 <= |code| && |StarCode(x, greedy, check)| == |x| + if check then 11 else 10
  {
  }

  /** The counted loop of `x{0,count}`, at its split, with `n` iterations left. */
  lemma {:induction false} UpToRuns(c: Ctx, r: Regex, back: bool, greedy: bool, p: nat, n: nat, i: nat, k: seq<Option<Fate>>)
    requires Cont(c, k) && i < |k| && Parsed(r) && Loops(r) && 0 < n
    requires At(c.m.code, p, UpToTail(Code(r, back), greedy))
    requires RunAll(c, p + |UpToTail(Code(r, back), greedy)|, Iterate(c.m.subject, r, 0, Some(n), greedy, back, i), k)
    ensures Runs(c.(stk := c.stk + [n]), p, i, First(k, Iterate(c.m.subject, r, 0, Some(n), greedy, back, i)))
    decreases r, 2, n
  {
    hide Code, Iterate, Ends, Runs, At, First, Op32, Moves, Again;
    var s := c.m.subject;
    var x := Code(r, back);
    var end := p + |x| + 11;
    var kk := Again(s, r, 0, Some(n), greedy, back, i, k);
    var js := Ends(s, r, back, i);
    OptionalRound(c, end, r, Some(n), greedy, back, i, k);
    UpToLayout(c.m.code, p, x, greedy);
    var c' := c.(stk := c.stk + [n]);
    forall j | j in js ensures j < |kk| && Runs(c', p + 5 + |x|, j, kk[j]) {
      AgainAt(s, r, Some(n), greedy, back, i, k, j);
      if n == 1 {
        NoRoundAt(s, r, greedy, back, k, j);
        EndHere(c, end, s, r, greedy, back, j, k);
        DropRuns(c, p + 10 + |x|, j, 0, kk[j]);
      } else {
        UpToRuns(c, r, back, greedy, p, n - 1, j, k);
      }
      LoopRuns(c, p + 5 + |x|, j, n, -(|x| + 10), kk[j]);
    }
    CodeRuns(c', r, back, p + 5, i, kk);
    DropRuns(c, p + 10 + |x|, i, n, k[i]);
    if greedy {
      SplitRuns(c', p, i, true, |x| + 5, First(kk, js), k[i]);
    } else {
      SplitRuns(c', p, i, false, |x| + 5, k[i], First(kk, js));
    }
  }

  lemma EndHere(c: Ctx, pc: int, s: Subject, r: Regex, greedy: bool, back: bool, j: nat, k: seq<Option<Fate>>)
    requires j <= |s.chars| && RunAll(c, pc, Iterate(s, r, 0, Some(0), greedy, back, j), k)
    ensures j < |k| && Runs(c, pc, j, k[j])
  {
    assert j in [j];
  }

  function UpToTail(x: seq<byte>, greedy: bool): seq<byte> {
    Op32(SplitOp(greedy), |x| + 5) + x + Op32(OP_LOOP, -(|x| + 10)) + [OP_DROP]
  }

  lemma UpToLayout(code: seq<byte>, p: nat, x: seq<byte>, greedy: bool)
    requires At(code, p, UpToTail(x, greedy))
    ensures p + |x| + 11 <= |code| && |UpToTail(x, greedy)| == |x| + 11
    ensures At(code, p, Op32(SplitOp(greedy), |x| + 5)) && At(code, p + 5, x)
    ensures At(code, p + 5 + |x|, Op32(OP_LOOP, -(|x| + 10))) && At(code, p + 10 + |x|, [OP_DROP])
  {
    hide Op32;
    var a, b := Op32(SplitOp(greedy), |x| + 5), Op32(OP_LOOP, -(|x| + 10));
    AtSplit(code, p, a + x + b, [OP_DROP]);
    AtSplit(code, p, a + x, b);
    AtSplit(code, p, a, x);
  }

  lemma UpToStart(code: seq<byte>, p: nat, x: seq<byte>, count: nat, greedy: bool)
    requires At(code, p, UpToCode(x, count, greedy))
    ensures At(code, p, Op32(OP_PUSH_I32, count)) && At(code, p + 5, UpToTail(x, greedy))
    ensures |UpToCode(x, count, greedy)| == |x| + 16 && |UpToTail(x, greedy)| == |x| + 11
  {
    hide Op32;
    assert UpToCode(x, count, greedy) == Op32(OP_PUSH_I32, count) + UpToTail(x, greedy);
    AtSplit(code, p, Op32(OP_PUSH_I32, count), UpToTail(x, greedy));
  }

  /** The counted loop of `x{n}`, at the start of its body, with `n` iterations to make. */
  lemma {:induction false} ExactlyRuns(c: Ctx, r: Regex, back: bool, greedy: bool, p: nat, n: nat, i: nat, k: seq<Option<Fate>>)
    requires Cont(c, k) && i < |k| && Parsed(r) && Loops(r) && 0 < n
    requires At(c.m.code, p, ExactlyTail(Code(r, back)))
    requires RunAll(c, p + |ExactlyTail(Code(r, back))|, Iterate(c.m.subject, r, n, Some(n), greedy, back, i), k)
    ensures Runs(c.(stk := c.stk + [n]), p, i, First(k, Iterate(c.m.subject, r, n, Some(n), greedy, back, i)))
    decreases r, 2, n
  {
    hide Code, Iterate, Ends, Runs, At, First, Op32;
    var s := c.m.subject;
    var x := Code(r, back);
    var end := p + |x| + 6;
    var kk := ThenIterate(s, r, n - 1, Some(n - 1), greedy, back, k);
    var js := Ends(s, r, back, i);
    ExactlyLayout(c.m.code, p, x);
    RequiredRound(c, end, r, n, Some(n), greedy, back, i, k);
    var c' := c.(stk := c.stk + [n]);
    forall j | j in js ensures j < |kk| && Runs(c', p + |x|, j, kk[j]) {
      if n == 1 {
        NoRound(s, r, greedy, back, k);
        EndHere(c, end, s, r, greedy, back, j, k);
        DropRuns(c, p + 5 + |x|, j, 0, kk[j]);
      } else {
        ExactlyRuns(c, r, back, greedy, p, n - 1, j, k);
      }
      LoopRuns(c, p + |x|, j, n, -(|x| + 5), kk[j]);
    }
    CodeRuns(c', r, back, p, i, kk);
  }

  function ExactlyTail(x: seq<byte>): seq<byte> {
    x + Op32(OP_LOOP, -(|x| + 5)) + [OP_DROP]
  }

  lemma ExactlyLayout(code: seq<byte>, p: nat, x: seq<byte>)
    requires At(code, p, ExactlyTail(x))
    ensures p + |x| + 6 <= |code| && |ExactlyTail(x)| == |x| + 6
    ensures At(code, p, x) && At(code, p + |x|, Op32(OP_LOOP, -(|x| + 5))) && At(code, p + |x| + 5, [OP_DROP])
  {
    hide Op32;
    AtSplit(code, p, x + Op32(OP_LOOP, -(|x| + 5)), [OP_DROP]);
    AtSplit(code, p, x, Op32(OP_LOOP, -(|x| + 5)));
  }

  lemma ExactlyStart(code: seq<byte>, p: nat, x: seq<byte>, count: nat)
    requires At(code, p, ExactlyCode(x, count))
    ensures At(code, p, Op32(OP_PUSH_I32, count)) && At(code, p + 5, ExactlyTail(x))
    ensures |ExactlyCode(x, count)| == |x| + 11 && |ExactlyTail(x)| == |x| + 6
  {
    hide Op32;
    assert ExactlyCode(x, count) == Op32(OP_PUSH_I32, count) + ExactlyTail(x);
    AtSplit(code, p, Op32(OP_PUSH_I32, count), ExactlyTail(x));
  }

  /** The split at the end of `x+`: an iteration has just ended at `i`. */
  lemma {:induction false} PlusRuns(c: Ctx, r: Regex, back: bool, greedy: bool, p: nat, i: nat, k: seq<Option<Fate>>)
    requires Cont(c, k) && i < |k| && Parsed(r) && Loops(r) && Moves(r)
    requires At(c.m.code, p, PlusCode(Code(r, back), greedy))
    requires RunAll(c, p + |PlusCode(Code(r, back), greedy)|, Iterate(c.m.subject, r, 0, None, greedy, back, i), k)
    ensures Runs(c, p + |Code(r, back)|, i, First(k, Iterate(c.m.subject, r, 0, None, greedy, back, i)))
    decreases r, 2, Room(c.m.subject, back, i)
  {
    hide Code, Iterate, Ends, Runs, At, First, Op32, Moves, Again;
    var s := c.m.subject;
    var x := Code(r, back);
    var kk := Again(s, r, 0, None, greedy, back, i, k);
    var js := Ends(s, r, back, i);
    PlusLayout(c.m.code, p, x, greedy);
    OptionalRound(c, p + |x| + 5, r, None, greedy, back, i, k);
    MovesSound(s, r, back, i);
    forall j | j in js ensures j < |kk| && Runs(c, p + |x|, j, kk[j]) {
      assert Toward(s, back, i, j);
      AgainAt(s, r, None, greedy, back, i, k, j);
      PlusRuns(c, r, back, greedy, p, j, k);
    }
    CodeRuns(c, r, back, p, i, kk);
    if greedy {
      SplitRuns(c, p + |x|, i, false, -(|x| + 5), First(kk, js), k[i]);
    } else {
      SplitRuns(c, p + |x|, i, true, -(|x| + 5), k[i], First(kk, js));
    }
  }

  lemma PlusLayout(code: seq<byte>, p: nat, x: seq<byte>, greedy: bool)
    requires At(code, p, PlusCode(x, greedy))
    ensures p + |x| + 5 <= |code| && |PlusCode(x, greedy)| == |x| + 5
    ensures At(code, p, x) && At(code, p + |x|, Op32(SplitOp(!greedy), -(|x| + 5)))
  {
    hide Op32;
    AtSplit(code, p, x, Op32(SplitOp(!greedy), -(|x| + 5)));
  }

  lemma OptionRuns(c: Ctx, r: Regex, back: bool, greedy: bool, p: nat, i: nat, k: seq<Option<Fate>>)
    requires Cont(c, k) && i < |k| && Parsed(r) && Loops(r)
    requires At(c.m.code, p, Op32(SplitOp(greedy), |Code(r, back)|) + Code(r, back))
    requires RunAll(c, p + 5 + |Code(r, back)|, Iterate(c.m.subject, r, 0, Some(1), greedy, back, i), k)
    ensures Runs(c, p, i, First(k, Iterate(c.m.subject, r, 0, Some(1), greedy, back, i)))
    decreases r, 2, 0
  {
    hide Code, Iterate, Ends, Runs, First, Op32, Again;
    var s := c.m.subject;
    var x := Code(r, back);
    var js := Ends(s, r, back, i);
    var end := p + 5 + |x|;
    AtSplit(c.m.code, p, Op32(SplitOp(greedy), |x|), x);
    OptionalRound(c, end, r, Some(1), greedy, back, i, k);
    var kk := Again(s, r, 0, Some(1), greedy, back, i, k);
    forall j | j in js ensures j < |kk| && Runs(c, end, j, kk[j]) {
      assert Toward(s, back, i, j);
      AgainAt(s, r, Some(1), greedy, back, i, k, j);
      NoRoundAt(s, r, greedy, back, k, j);
      EndHere(c, end, s, r, greedy, back, j, k);
    }
    CodeRuns(c, r, back, p + 5, i, kk);
    if greedy {
      SplitRuns(c, p, i, true, |x|, First(kk, js), k[i]);
    } else {
      SplitRuns(c, p, i, false, |x|, k[i], First(kk, js));
    }
  }

  /** The optional part of a quantifier, at any index where the required part can end. */
  lemma TailRuns(c: Ctx, r: Regex, back: bool, greedy: bool, check: bool, max: nat, p: nat, i: nat, k: seq<Option<Fate>>)
    requires Cont(c, k) && i < |k| && Parsed(r) && Loops(r) && max <= INT32_MAX && (max == INT32_MAX ==> check || Moves(r))
    requires At(c.m.code, p, TailCode(Code(r, back), max, greedy, check))
    requires RunAll(c, p + |TailCode(Code(r, back), max, greedy, check)|, Iterate(c.m.subject, r, 0, Bound(max), greedy, back, i), k)
    ensures Runs(c, p, i, First(k, Iterate(c.m.subject, r, 0, Bound(max), greedy, back, i)))
    decreases r, 3, 0
  {
    hide Code, Ends, Runs, At, Op32, Moves, UpToCode, StarCode;
    var x := Code(r, back);
    if max == INT32_MAX {
      StarRuns(c, r, back, greedy, check, p, i, k);
    } else if 0 < max {
      UpToStart(c.m.code, p, x, max, greedy);
      UpToRuns(c, r, back, greedy, p + 5, max, i, k);
      PushRuns(c, p, i, max, First(k, Iterate(c.m.subject, r, 0, Bound(max), greedy, back, i)));
    } else {
      EndHere(c, p, c.m.subject, r, greedy, back, i, k);
      assert First(k, [i]) == k[i];
    }
  }

  function TailCode(x: seq<byte>, max: nat, greedy: bool, check: bool): seq<byte> {
    if max == INT32_MAX then StarCode(x, greedy, check)
    else if 0 < max then UpToCode(x, max, greedy)
    else []
  }

  function HeadCode(x: seq<byte>, min: nat): seq<byte> {
    if min == 0 then [] else if min == 1 then x else ExactlyCode(x, min)
  }

  /** The required part of a quantifier. */
  lemma HeadRuns(c: Ctx, r: Regex, back: bool, greedy: bool, min: nat, p: nat, i: nat, k: seq<Option<Fate>>)
    requires Cont(c, k) && i < |k| && Parsed(r) && Loops(r) && min <= INT32_MAX
    requires At(c.m.code, p, HeadCode(Code(r, back), min))
    requires RunAll(c, p + |HeadCode(Code(r, back), min)|, Iterate(c.m.subject, r, min, Some(min), greedy, back, i), k)
    ensures Runs(c, p, i, First(k, Iterate(c.m.subject, r, min, Some(min), greedy, back, i)))
    decreases r, 3, 0
  {
    hide Code, Ends, Runs, At, Op32, Moves, ExactlyCode;
    var s := c.m.subject;
    var x := Code(r, back);
    if min == 0 {
      EndHere(c, p, s, r, greedy, back, i, k);
      assert First(k, [i]) == k[i];
    } else if min == 1 {
      hide Iterate;
      RequiredRound(c, p + |x|, r, 1, Some(1), greedy, back, i, k);
      NoRound(s, r, greedy, back, k);
      forall j | j in Ends(s, r, back, i) ensures j < |k| && Runs(c, p + |x|, j, k[j]) {
        EndHere(c, p + |x|, s, r, greedy, back, j, k);
      }
      CodeRuns(c, r, back, p, i, k);
    } else {
      ExactlyStart(c.m.code, p, x, min);
      ExactlyRuns(c, r, back, greedy, p + 5, min, i, k);
      PushRuns(c, p, i, min, First(k, Iterate(s, r, min, Some(min), greedy, back, i)));
    }
  }

  lemma PlusAllRuns(c: Ctx, r: Regex, back: bool, greedy: bool, p: nat, i: nat, k: seq<Option<Fate>>)
    requires Cont(c, k) && i < |k| && Parsed(r) && Loops(r) && Moves(r)
    requires At(c.m.code, p, PlusCode(Code(r, back), greedy))
    requires RunAll(c, p + |PlusCode(Code(r, back), greedy)|, Iterate(c.m.subject, r, 1, None, greedy, back, i), k)
    ensures Runs(c, p, i, First(k, Iterate(c.m.subject, r, 1, None, greedy, back, i)))
    decreases r, 3, 0
  {
    hide Code, Iterate, Ends, Runs, At, First, Op32, Moves;
    var s := c.m.subject;
    var x := Code(r, back);
    var kk := ThenIterate(s, r, 0, None, greedy, back, k);
    PlusLayout(c.m.code, p, x, greedy);
    RequiredRound(c, p + |x| + 5, r, 1, None, greedy, back, i, k);
    forall j | j in Ends(s, r, back, i) ensures j < |kk| && Runs(c, p + |x|, j, kk[j]) {
      PlusRuns(c, r, back, greedy, p, j, k);
    }
    CodeRuns(c, r, back, p, i, kk);
  }

  function TailMax(min: nat, max: nat): nat
    requires min <= max
  {
    if max == INT32_MAX then max else max - min
  }

  /** Required iterations, then optional ones. */
  lemma HeadTailRuns(c: Ctx, r: Regex, back: bool, greedy: bool, check: bool, min: nat, max: nat, p: nat, i: nat, k: seq<Option<Fate>>)
    requires Cont(c, k) && i < |k| && Parsed(r) && Loops(r) && min <= max <= INT32_MAX && (max == INT32_MAX ==> check || Moves(r))
    requires At(c.m.code, p, HeadCode(Code(r, back), min) + TailCode(Code(r, back), TailMax(min, max), greedy, check))
    requires RunAll(c, p + |HeadCode(Code(r, back), min)| + |TailCode(Code(r, back), TailMax(min, max), greedy, check)|,
                    Iterate(c.m.subject, r, min, Bound(max), greedy, back, i), k)
    ensures Runs(c, p, i, First(k, Iterate(c.m.subject, r, min, Bound(max), greedy, back, i)))
    decreases r, 4, 0
  {
    hide Code, Iterate, Ends, Runs, First, Op32, Moves, HeadCode, TailCode;
    var s := c.m.subject;
    var head, tail := HeadCode(Code(r, back), min), TailCode(Code(r, back), TailMax(min, max), greedy, check);
    var end := p + |head| + |tail|;
    var rest := ThenIterate(s, r, 0, Bound(TailMax(min, max)), greedy, back, k);
    AtSplit(c.m.code, p, head, tail);
    IterateSplit(s, r, min, Bound(max), greedy, back, i, k);
    var js := Iterate(s, r, min, Some(min), greedy, back, i);
    forall j | j in js ensures j < |rest| && Runs(c, p + |head|, j, rest[j]) {
      assert Toward(s, back, i, j);
      var ks := Iterate(s, r, 0, Bound(TailMax(min, max)), greedy, back, j);
      forall e | e in ks ensures e in Iterate(s, r, min, Bound(max), greedy, back, i) {
        IterateSplitHas(s, r, min, Bound(max), greedy, back, i, j, e);
      }
      RunSome(c, end, Iterate(s, r, min, Bound(max), greedy, back, i), ks, k);
      TailRuns(c, r, back, greedy, check, TailMax(min, max), p + |head|, j, k);
    }
    HeadRuns(c, r, back, greedy, min, p, i, rest);
  }

  lemma RepeatShape(x: seq<byte>, min: nat, max: nat, greedy: bool)
    requires min <= max <= INT32_MAX
    requires !(greedy && 0 < max && 0 < SimpleCount(x, 0, 0))
    requires !(min == 0 && max == 1) && !(min == 1 && max == INT32_MAX && !(greedy && !ChecksAdvance(x)))
    ensures RepeatCode(x, min, max, greedy)
         == HeadCode(x, min) + TailCode(x, TailMax(min, max), greedy, greedy && !ChecksAdvance(x))
  {
    hide SimpleCount, ChecksAdvance, ExactlyCode, StarCode, UpToCode;
  }

  lemma RepeatRuns(c: Ctx, r: Regex, back: bool, min: nat, max: nat, greedy: bool, p: nat, i: nat, k: seq<Option<Fate>>)
    requires Cont(c, k) && i < |k| && Parsed(r) && Loops(r) && min <= max <= INT32_MAX && (max == INT32_MAX && !greedy ==> Moves(r))
    requires At(c.m.code, p, RepeatCode(Code(r, back), min, max, greedy))
    requires RunAll(c, p + |RepeatCode(Code(r, back), min, max, greedy)|,
                    Iterate(c.m.subject, r, min, Bound(max), greedy, back, i), k)
    ensures Runs(c, p, i, First(k, Iterate(c.m.subject, r, min, Bound(max), greedy, back, i)))
    decreases r, 5, 0
  {
    hide Code, Iterate, Runs, First, Op32, Moves, SimpleCount, ChecksAdvance, At, HeadCode, TailCode;
    var x := Code(r, back);
    if greedy && 0 < max && 0 < SimpleCount(x, 0, 0) {
      if back { RegexSimple.SimpleIsForward(r); }
      SimpleGreedyRuns(c, p, r, min, max, i, k);
    } else if min == 0 && max == 1 {
      OptionRuns(c, r, back, greedy, p, i, k);
    } else if min == 1 && max == INT32_MAX && !(greedy && !ChecksAdvance(x)) {
      if greedy { RegexAdvance.AdvanceMoves(r, back); }
      PlusAllRuns(c, r, back, greedy, p, i, k);
    } else {
      if greedy && ChecksAdvance(x) { RegexAdvance.AdvanceMoves(r, back); }
      RepeatShape(x, min, max, greedy);
      HeadTailRuns(c, r, back, greedy, greedy && !ChecksAdvance(x), min, max, p, i, k);
    }
  }

  lemma ChoiceRuns(c: Ctx, a: Regex, b: Regex, back: bool, p: nat, i: nat, k: seq<Option<Fate>>)
    requires Cont(c, k) && i < |k| && Parsed(a) && Loops(a) && Parsed(b) && Loops(b)
    requires At(c.m.code, p, ChoiceCode(Code(a, back), Code(b, back)))
    requires RunAll(c, p + |ChoiceCode(Code(a, back), Code(b, back))|, Ends(c.m.subject, a, back, i) + Ends(c.m.subject, b, back, i), k)
    ensures Runs(c, p, i, First(k, Ends(c.m.subject, a, back, i) + Ends(c.m.subject, b, back, i)))
    decreases Choice(a, b), 0, 0
  {
    hide Code, Ends, Runs, First, Op32, At, ChoiceCode, RunAll;
    var s := c.m.subject;
    var ca, cb := Code(a, back), Code(b, back);
    var ea, eb := Ends(s, a, back, i), Ends(s, b, back, i);
    var end := p + |ca| + 10 + |cb|;
    ChoiceLayout(c.m.code, p, ca, cb);
    FirstAppend(k, ea, eb);
    RunBoth(c, end, ea, eb, k);
    CodeRuns(c, b, back, p + |ca| + 10, i, k);
    ChoiceJump(c, p + 5 + |ca|, ea, |cb|, k);
    CodeRuns(c, a, back, p + 5, i, k);
    SplitRuns(c, p, i, true, |ca| + 5, First(k, ea), First(k, eb));
  }

  lemma RunBoth(c: Ctx, pc: int, js: seq<nat>, ks: seq<nat>, k: seq<Option<Fate>>)
    requires RunAll(c, pc, js + ks, k)
    ensures RunAll(c, pc, js, k) && RunAll(c, pc, ks, k)
  {
    hide Runs;
    assert forall j :: j in js || j in ks ==> j in js + ks;
  }

  /** The jump over the second alternative. */
  lemma ChoiceJump(c: Ctx, p: nat, js: seq<nat>, off: nat, k: seq<Option<Fate>>)
    requires Cont(c, k) && At(c.m.code, p, Op32(OP_GOTO, off)) && off < TWO31 && RunAll(c, p + 5 + off, js, k)
    ensures RunAll(c, p, js, k)
  {
    hide Runs, Op32, At;
    forall j | j in js ensures j < |k| && Runs(c, p, j, k[j]) {
      GotoRuns(c, p, j, off, k[j]);
    }
  }

  lemma ChoiceLayout(code: seq<byte>, p: nat, a: seq<byte>, b: seq<byte>)
    requires At(code, p, ChoiceCode(a, b))
    ensures p + |a| + |b| + 10 <= |code| && |ChoiceCode(a, b)| == |a| + |b| + 10
    ensures At(code, p, Op32(OP_SPLIT_NEXT_FIRST, |a| + 5)) && At(code, p + 5, a)
    ensures At(code, p + 5 + |a|, Op32(OP_GOTO, |b|)) && At(code, p + |a| + 10, b)
  {
    hide Op32;
    var s, g := Op32(OP_SPLIT_NEXT_FIRST, |a| + 5), Op32(OP_GOTO, |b|);
    AtSplit(code, p, s + a + g, b);
    AtSplit(code, p, s + a, g);
    AtSplit(code, p, s, a);
  }

  lemma ConcatRuns(c: Ctx, x: Regex, y: Regex, r: Regex, back: bool, p: nat, i: nat, k: seq<Option<Fate>>)
    requires Cont(c, k) && i < |k| && Parsed(x) && Loops(x) && Parsed(y) && Loops(y)
    requires r == if back then Concat(y, x) else Concat(x, y)
    requires At(c.m.code, p, Code(x, back) + Code(y, back))
    requires RunAll(c, p + |Code(x, back)| + |Code(y, back)|, EndsEach(c.m.subject, y, back, i, Ends(c.m.subject, x, back, i)), k)
    ensures Runs(c, p, i, First(k, EndsEach(c.m.subject, y, back, i, Ends(c.m.subject, x, back, i))))
    decreases r, 0, 0
  {
    hide Code, Ends, EndsEach, Runs, First;
    var s := c.m.subject;
    var cx, cy := Code(x, back), Code(y, back);
    var js := Ends(s, x, back, i);
    var kk := Then(s, y, back, k);
    AtSplit(c.m.code, p, cx, cy);
    FirstEach(s, y, back, i, js, k);
    forall j | j in js ensures j < |kk| && Runs(c, p + |cx|, j, kk[j]) {
      assert Toward(s, back, i, j);
      forall e | e in Ends(s, y, back, j) ensures e in EndsEach(s, y, back, i, js) {
        EachHas(s, y, back, i, js, j, e);
      }
      RunSome(c, p + |cx| + |cy|, EndsEach(s, y, back, i, js), Ends(s, y, back, j), k);
      CodeRuns(c, y, back, p + |cx|, j, k);
    }
    CodeRuns(c, x, back, p, i, kk);
  }

  // ---------------------------------------------------------------- lookaround

  function LookEntry(c: Ctx, negated: bool, end: nat, i: nat): ExecState {
    ExecState(if negated then NegativeLookaheadState else LookaheadState, 0, i, end, c.cap, c.stk)
  }

  /** A match inside the assertion drops its choice points and settles the assertion. */
  lemma {:induction false} MatchUnwinds(c: Ctx, negated: bool, end: nat, i: nat, states: seq<ExecState>, above: seq<ExecState>, o: Fate)
    requires Above(above, states + [LookEntry(c, negated, end, i)])
    requires Comes(c.m, if negated then Failing(states) else Conf(c, end, i, states), o)
    ensures Comes(c.m, Matched(c.cap, above), o)
    decreases |above|
  {
    var pushed := states + [LookEntry(c, negated, end, i)];
    if |above| == |pushed| {
      assert above == pushed && above[..|above| - 1] == states;
    } else {
      assert IsChoice(above[|above| - 1]);
      MatchUnwinds(c, negated, end, i, states, above[..|above| - 1], o);
    }
    ComesStep(c.m, Matched(c.cap, above), o);
  }

  lemma MatchRuns(c: Ctx, negated: bool, p: nat, end: nat, i: nat, j: nat, states: seq<ExecState>, o: Fate)
    requires At(c.m.code, p, [OP_MATCH]) && j <= |c.m.subject.chars|
    requires Comes(c.m, if negated then Failing(states) else Conf(c, end, i, states), o)
    ensures Runs(c.(base := states + [LookEntry(c, negated, end, i)]), p, j, Some(o))
  {
    hide Comes, GetU32;
    var c' := c.(base := states + [LookEntry(c, negated, end, i)]);
    AtOp(c.m.code, p, OP_MATCH);
    forall above | Above(above, c'.base) ensures RunsOn(c', p, j, Some(o), above) {
      MatchUnwinds(c, negated, end, i, states, above, o);
      assert Step(c.m, Conf(c', p, j, above)) == Matched(c.cap, above);
      ComesStep(c.m, Conf(c', p, j, above), o);
    }
  }

  /** The body of an assertion, from its start: what follows a match, and what follows a failure. */
  lemma LookBody(c: Ctx, negated: bool, behind: bool, r: Regex, p: nat, end: nat, i: nat, states: seq<ExecState>, o: Fate)
    requires Ready(c) && i <= |c.m.subject.chars| && Parsed(r) && Loops(r)
    requires At(c.m.code, p, Code(r, behind)) && At(c.m.code, p + |Code(r, behind)|, [OP_MATCH])
    requires var found := Ends(c.m.subject, r, behind, i) != [];
      Comes(c.m, if found == negated then Failing(states) else Conf(c, end, i, states), o)
    ensures Comes(c.m, Conf(c, p, i, states + [LookEntry(c, negated, end, i)]), o)
    decreases r, 2, 0
  {
    hide Comes, Code, Ends, At, Step;
    var c' := c.(base := states + [LookEntry(c, negated, end, i)]);
    var k := seq(|c.m.subject.chars| + 1, _ => Some(o));
    var js := Ends(c.m.subject, r, behind, i);
    if js != [] {
      forall j | j in js ensures j < |k| && Runs(c', p + |Code(r, behind)|, j, k[j]) {
        assert Toward(c.m.subject, behind, i, j);
        MatchRuns(c, negated, p + |Code(r, behind)|, end, i, j, states, o);
      }
    }
    CodeRuns(c', r, behind, p, i, k);
    assert Above(c'.base, c'.base);
    assert RunsOn(c', p, i, First(k, js), c'.base);
    assert Conf(c', p, i, c'.base) == Conf(c, p, i, c'.base);
    if js == [] {
      MissUnwinds(c, negated, end, i, states, o);
    } else {
      assert js[0] in js;
    }
  }

  lemma MissUnwinds(c: Ctx, negated: bool, end: nat, i: nat, states: seq<ExecState>, o: Fate)
    requires Comes(c.m, if negated then Conf(c, end, i, states) else Failing(states), o)
    ensures Comes(c.m, Failing(states + [LookEntry(c, negated, end, i)]), o)
  {
    hide Comes;
    var pushed := states + [LookEntry(c, negated, end, i)];
    assert pushed[..|pushed| - 1] == states;
    ComesStep(c.m, Failing(pushed), o);
  }

  lemma LookRuns(c: Ctx, negated: bool, behind: bool, r: Regex, p: nat, i: nat, k: Option<Fate>)
    requires Ready(c) && i <= |c.m.subject.chars| && Parsed(r) && Loops(r)
    requires At(c.m.code, p, LookCode(negated, Code(r, behind)))
    requires (Ends(c.m.subject, r, behind, i) == []) == negated ==> Runs(c, p + |Code(r, behind)| + 6, i, k)
    ensures Runs(c, p, i, if (Ends(c.m.subject, r, behind, i) == []) == negated then k else None)
    decreases r, 3, 0
  {
    hide Comes, Code, Ends, Op32, Step, LookCode;
    var x := Code(r, behind);
    var op := if negated then OP_NEGATIVE_LOOKAHEAD else OP_LOOKAHEAD;
    LookLayout(c.m.code, p, x, negated);
    var holds := (Ends(c.m.subject, r, behind, i) == []) == negated;
    forall states | Above(states, c.base) ensures RunsOn(c, p, i, if holds then k else None, states) {
      if holds { assert RunsOn(c, p + |x| + 6, i, k, states); }
      LookOn(c, negated, behind, r, p, i, k, states);
    }
  }

  lemma LookLayout(code: seq<byte>, p: nat, x: seq<byte>, negated: bool)
    requires At(code, p, LookCode(negated, x))
    ensures p + |x| + 6 <= |code| && At(code, p + 5, x) && At(code, p + 5 + |x|, [OP_MATCH])
    ensures At(code, p, Op32(if negated then OP_NEGATIVE_LOOKAHEAD else OP_LOOKAHEAD, |x| + 1))
  {
    hide Op32;
    var op := if negated then OP_NEGATIVE_LOOKAHEAD else OP_LOOKAHEAD;
    AtSplit(code, p, Op32(op, |x| + 1) + x, [OP_MATCH]);
    AtSplit(code, p, Op32(op, |x| + 1), x);
  }

  lemma LookOn(c: Ctx, negated: bool, behind: bool, r: Regex, p: nat, i: nat, k: Option<Fate>, states: seq<ExecState>)
    requires Ready(c) && i <= |c.m.subject.chars| && Parsed(r) && Loops(r) && Above(states, c.base)
    requires var x := Code(r, behind);
      && p + |x| + 6 <= |c.m.code| && At(c.m.code, p + 5, x) && At(c.m.code, p + 5 + |x|, [OP_MATCH])
      && At(c.m.code, p, Op32(if negated then OP_NEGATIVE_LOOKAHEAD else OP_LOOKAHEAD, |x| + 1))
    requires (Ends(c.m.subject, r, behind, i) == []) == negated ==> RunsOn(c, p + |Code(r, behind)| + 6, i, k, states)
    ensures RunsOn(c, p, i, if (Ends(c.m.subject, r, behind, i) == []) == negated then k else None, states)
    decreases r, 2, 1
  {
    hide Comes, Code, Ends, Op32;
    var x := Code(r, behind);
    var end := p + |x| + 6;
    AtOp32(c.m.code, p, if negated then OP_NEGATIVE_LOOKAHEAD else OP_LOOKAHEAD, |x| + 1);
    var holds := (Ends(c.m.subject, r, behind, i) == []) == negated;
    var k' := if holds then k else None;
    LookStep(c, negated, p, |x| + 1, i, states);
    var next := if holds then Conf(c, end, i, states) else Failing(states);
    if k'.Some? {
      LookBody(c, negated, behind, r, p + 5, end, i, states, k'.value);
      ComesStep(c.m, Conf(c, p, i, states), k'.value);
    } else {
      forall o | Comes(c.m, Failing(states), o) ensures Comes(c.m, Conf(c, p, i, states), o) {
        assert Comes(c.m, next, o);
        LookBody(c, negated, behind, r, p + 5, end, i, states, o);
        ComesStep(c.m, Conf(c, p, i, states), o);
      }
    }
  }

  lemma LookStep(c: Ctx, negated: bool, p: nat, off: nat, i: nat, states: seq<ExecState>)
    requires i <= |c.m.subject.chars| && p + 5 <= |c.m.code|
    requires c.m.code[p] == (if negated then OP_NEGATIVE_LOOKAHEAD else OP_LOOKAHEAD) && Signed(GetU32(c.m.code, p + 1)) == off
    ensures Step(c.m, Conf(c, p, i, states)) == Conf(c, p + 5, i, states + [LookEntry(c, negated, p + 5 + off, i)])
  {
    hide GetU32;
  }

  /**
   The main result about the emitted code.  If at every index where `r` can end the code after it
   runs to the outcome in `k`, then the code of `r` runs to the outcome at the first of these
   indices that has one, and fails when there is none.
   */
  lemma {:induction false} CodeRuns(c: Ctx, r: Regex, back: bool, p: nat, i: nat, k: seq<Option<Fate>>)
    requires Cont(c, k) && i < |k| && Parsed(r) && Loops(r)
    requires At(c.m.code, p, Code(r, back))
    requires RunAll(c, p + |Code(r, back)|, Ends(c.m.subject, r, back, i), k)
    ensures Runs(c, p, i, First(k, Ends(c.m.subject, r, back, i)))
    decreases r, 1, 0
  {
    hide Runs, At, ChoiceCode, LookCode, RepeatCode, OneCode, ClassCode, Op16, Op32, Iterate, EndsEach, EndsOne;
    match r
    case Empty =>
      SingleEnd(k, i);
    case LineStart => AssertionRuns(c, r, back, p, i, k);
    case LineEnd => AssertionRuns(c, r, back, p, i, k);
    case WordBoundary(_) => AssertionRuns(c, r, back, p, i, k);
    case Concat(a, b) =>
      if back {
        ConcatRuns(c, b, a, r, back, p, i, k);
      } else {
        ConcatRuns(c, a, b, r, back, p, i, k);
      }
    case Choice(a, b) => ChoiceRuns(c, a, b, back, p, i, k);
    case Look(negated, behind, body) =>
      LookLength(negated, Code(body, behind));
      SingleEnd(k, i);
      LookRuns(c, negated, behind, body, p, i, k[i]);
    case Repeat(body, min, max, greedy) =>
      if max == 0 {
        NoneRuns(c, body, back, greedy, p, i, k);
      } else {
        RepeatRuns(c, body, back, min, max, greedy, p, i, k);
      }
    case _ => OneRuns(c, r, back, p, i, k);
  }

  /** No code is left of a loop that may not iterate. */
  lemma NoneRuns(c: Ctx, r: Regex, back: bool, greedy: bool, p: nat, i: nat, k: seq<Option<Fate>>)
    requires Cont(c, k) && i < |k| && Parsed(r)
    requires RunAll(c, p + |Code(Repeat(r, 0, 0, greedy), back)|, Ends(c.m.subject, Repeat(r, 0, 0, greedy), back, i), k)
    ensures Runs(c, p, i, First(k, Ends(c.m.subject, Repeat(r, 0, 0, greedy), back, i)))
  {
    hide Runs;
    RegexSimple.NoIterations(Code(r, back), greedy);
    EndHere(c, p, c.m.subject, r, greedy, back, i, k);
    SingleEnd(k, i);
  }

  lemma LookLength(negated: bool, x: seq<byte>)
    ensures |LookCode(negated, x)| == |x| + 6
  {
  }

  lemma OneRuns(c: Ctx, r: Regex, back: bool, p: nat, i: nat, k: seq<Option<Fate>>)
    requires Cont(c, k) && i < |k| && Parsed(r) && IsOne(r)
    requires At(c.m.code, p, Code(r, back))
    requires RunAll(c, p + |Code(r, back)|, Ends(c.m.subject, r, back, i), k)
    ensures Runs(c, p, i, First(k, Ends(c.m.subject, r, back, i)))
  {
    hide Runs, At, ClassCode, EndsOne;
    assert Code(r, back) == OneCode(ForwardCode(r), back);
    if back { BackwardRuns(c, r, p, i, k); } else { ForwardRuns(c, r, p, i, k); }
  }
}
