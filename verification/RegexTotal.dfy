/**
 The emitted code of every accepted pattern does what RegexSearch says: it runs to the result of the
 search, or for ever when the search goes round in a circle.
 */
module RegexTotal {
  import opened Wrappers
  import opened RegexSyntax
  import opened RegexBytecode
  import opened RegexVm
  import opened RegexSim
  import opened RegexAtoms
  import opened RegexGreedy
  import RegexSimple
  import opened RegexCorrect
  import opened RegexSearch

  /** Wherever the search can come to from `i`, the code at `pc` runs to what `k` says. */
  ghost predicate Going(c: Ctx, pc: int, back: bool, i: nat, k: seq<Search<Fate>>, n: nat) {
    && |k| == |c.m.subject.chars| + 1 && i < |k|
    && forall j: nat :: Toward(c.m.subject, back, i, j) ==> Runs(c, pc, j, AsFate(k[j], n))
  }

  lemma GoingFrom(c: Ctx, pc: int, back: bool, i: nat, j: nat, k: seq<Search<Fate>>, n: nat)
    requires Going(c, pc, back, i, k, n) && Toward(c.m.subject, back, i, j)
    ensures Going(c, pc, back, j, k, n)
  {
    hide Runs;
  }

  lemma GoingHere(c: Ctx, pc: int, back: bool, i: nat, k: seq<Search<Fate>>, n: nat)
    requires Going(c, pc, back, i, k, n)
    ensures Runs(c, pc, i, AsFate(k[i], n))
  {
    hide Runs;
    assert Toward(c.m.subject, back, i, i);
  }

  lemma FewerSteps(c: Ctx, pc: int, i: nat, n: nat)
    requires 0 < n && Runs(c, pc, i, Some(Late(n)))
    ensures Runs(c, pc, i, Some(Late(n - 1)))
  {
    forall states | Above(states, c.base) ensures RunsOn(c, pc, i, Some(Late(n - 1)), states) {
      assert RunsOn(c, pc, i, Some(Late(n)), states);
      if Eval(c.m, Conf(c, pc, i, states), n - 1).Some? { MoreFuel(c.m, Conf(c, pc, i, states), n - 1); }
    }
  }

  lemma GoingLess(c: Ctx, pc: int, back: bool, i: nat, k: seq<Search<Fate>>, n: nat)
    requires 0 < n && Going(c, pc, back, i, k, n)
    ensures Going(c, pc, back, i, k, n - 1)
  {
    hide Runs;
    forall j: nat | Toward(c.m.subject, back, i, j) ensures Runs(c, pc, j, AsFate(k[j], n - 1)) {
      if k[j].Circles? { FewerSteps(c, pc, j, n); }
    }
  }

  /** A running configuration is not over. */
  lemma NotOver(c: Ctx, pc: int, i: nat)
    ensures Runs(c, pc, i, Some(Late(0)))
  {
    forall states | Above(states, c.base) ensures RunsOn(c, pc, i, Some(Late(0)), states) {
      assert Eval(c.m, Conf(c, pc, i, states), 0).None?;
    }
  }

  /** A split that comes to a late run is later by a step. */
  lemma SplitLate(c: Ctx, pc: nat, i: nat, next: bool, off: int, n: nat)
    requires i <= |c.m.subject.chars| && -TWO31 <= off < TWO31
    requires At(c.m.code, pc, Op32(SplitOp(next), off))
    requires var here, there := if next then pc + 5 else pc + 5 + off, if next then pc + 5 + off else pc + 5;
      Runs(c, here, i, Some(Late(n))) || (Runs(c, here, i, None) && Runs(c, there, i, Some(Late(n))))
    ensures Runs(c, pc, i, Some(Late(n + 1)))
  {
    AtOp32(c.m.code, pc, SplitOp(next), off);
    var here, there := if next then pc + 5 else pc + 5 + off, if next then pc + 5 + off else pc + 5;
    forall states | Above(states, c.base) ensures RunsOn(c, pc, i, Some(Late(n + 1)), states) {
      var rs := ExecState(SplitState, 0, i, there, c.cap, c.stk);
      var pushed := states + [rs];
      assert Step(c.m, Conf(c, pc, i, states)) == Conf(c, here, i, pushed);
      assert Above(pushed, c.base);
      if Runs(c, here, i, Some(Late(n))) {
        assert RunsOn(c, here, i, Some(Late(n)), pushed);
      } else {
        assert RunsOn(c, here, i, None, pushed);
        assert RunsOn(c, there, i, Some(Late(n)), states);
        assert pushed[|pushed| - 1] == rs && pushed[..|pushed| - 1] == states;
        assert Step(c.m, Failing(pushed)) == Conf(c, there, i, states);
        ComesStep(c.m, Failing(pushed), Late(n));
      }
      assert Comes(c.m, Conf(c, here, i, pushed), Late(n));
      LateStep(c.m, Conf(c, pc, i, states), n);
    }
  }

  // ------------------------------------------------------------------- loops

  /** A continuation with what is known `n` steps before: the loop itself at `i`, or nothing yet. */
  ghost function Again0(kk: seq<Search<Fate>>, i: nat, whole: Search<Fate>, n: nat): (kk': seq<Search<Fate>>)
    requires i < |kk|
    ensures |kk'| == |kk|
  {
    kk[i := if n == 0 then Circles else whole]
  }

  /** Either the circle is met, or it does not matter what is known of it. */
  lemma Unguarded(s: Subject, r: Regex, greedy: bool, back: bool, i: nat, k: seq<Search<Fate>>, n: nat)
    requires Parsed(r) && |k| == |s.chars| + 1 && i < |k| && !Guarded(r, back, greedy)
    ensures var kk := Onward(s, r, 0, None, greedy, back, i, k);
      var q, whole := Find(s, r, back, i, kk), FindLoop(s, r, 0, None, greedy, back, i, k);
      var q' := Find(s, r, back, i, Again0(kk, i, whole, n));
      && whole == (if greedy then q.Or(k[i]) else k[i].Or(q))
      && (q == q' || (!greedy && !k[i].Fails?))
  {
    hide Find, Guarded;
    var kk := Onward(s, r, 0, None, greedy, back, i, k);
    var q, whole := Find(s, r, back, i, kk), FindLoop(s, r, 0, None, greedy, back, i, k);
    var kk' := Again0(kk, i, whole, n);
    assert Toward(s, back, i, i) && kk[i] == Circles;
    FindBelow(s, r, back, i, kk, kk');
    if q.Circles? && whole.Circles? { assert kk' == kk; }
  }

  lemma StarFind(c: Ctx, r: Regex, back: bool, greedy: bool, p: nat, i: nat, k: seq<Search<Fate>>, n: nat)
    requires Ready(c) && Parsed(r) && At(c.m.code, p, StarCode(Code(r, back), greedy, Guarded(r, back, greedy)))
    requires Going(c, p + |StarCode(Code(r, back), greedy, Guarded(r, back, greedy))|, back, i, k, n)
    ensures Runs(c, p, i, AsFate(FindLoop(c.m.subject, r, 0, None, greedy, back, i, k), n))
    decreases r, 2, n, Room(c.m.subject, back, i), 1
  {
    hide Code, Find, FindLoop, Runs, At, StarCode, ChecksAdvance, Going;
    if Guarded(r, back, greedy) {
      GuardedFind(c, r, back, p, i, k, n);
    } else {
      OpenFind(c, r, back, greedy, p, i, k, n);
    }
  }

  lemma GuardedFind(c: Ctx, r: Regex, back: bool, p: nat, i: nat, k: seq<Search<Fate>>, n: nat)
    requires Ready(c) && Parsed(r) && Guarded(r, back, true) && At(c.m.code, p, StarCode(Code(r, back), true, true))
    requires Going(c, p + |StarCode(Code(r, back), true, true)|, back, i, k, n)
    ensures Runs(c, p, i, AsFate(FindLoop(c.m.subject, r, 0, None, true, back, i, k), n))
    decreases r, 2, n, Room(c.m.subject, back, i), 0
  {
    hide Code, Find, Runs, At, Op32, Guarded, StarCode;
    var s, x := c.m.subject, Code(r, back);
    var kk := Onward(s, r, 0, None, true, back, i, k);
    StarLayout(c.m.code, p, x, true, true);
    var end := p + |x| + 11;
    var c' := c.(stk := c.stk + [i]);
    GoingHere(c, end, back, i, k, n);
    forall j: nat | Toward(s, back, i, j) ensures Runs(c', p + 6 + |x|, j, AsFate(kk[j], n)) {
      if j == i {
        BneStays(c, p + 6 + |x|, i, -(|x| + 11), AsFate(kk[j], n));
      } else {
        GoingFrom(c, end, back, i, j, k, n);
        GuardedFind(c, r, back, p, j, k, n);
        BneCharPosRuns(c, p + 6 + |x|, j, i, -(|x| + 11), AsFate(kk[j], n));
      }
    }
    FindRuns(c', r, back, p + 6, i, kk, n);
    var q := Find(s, r, back, i, kk);
    PushCharPosRuns(c, p + 5, i, AsFate(q, n));
    SplitRuns(c, p, i, true, |x| + 6, AsFate(q, n), AsFate(k[i], n));
  }

  lemma OpenFind(c: Ctx, r: Regex, back: bool, greedy: bool, p: nat, i: nat, k: seq<Search<Fate>>, n: nat)
    requires Ready(c) && Parsed(r) && !Guarded(r, back, greedy) && At(c.m.code, p, StarCode(Code(r, back), greedy, false))
    requires Going(c, p + |StarCode(Code(r, back), greedy, false)|, back, i, k, n)
    ensures Runs(c, p, i, AsFate(FindLoop(c.m.subject, r, 0, None, greedy, back, i, k), n))
    decreases r, 2, n, Room(c.m.subject, back, i), 0
  {
    hide Code, Find, Runs, At, Op32, Guarded, StarCode, FindLoop;
    var s, x := c.m.subject, Code(r, back);
    var kk, whole := Onward(s, r, 0, None, greedy, back, i, k), FindLoop(s, r, 0, None, greedy, back, i, k);
    var kk', n' := Again0(kk, i, whole, n), if n == 0 then 0 else n - 1;
    StarLayout(c.m.code, p, x, greedy, false);
    var end := p + |x| + 10;
    if 0 < n { GoingLess(c, end, back, i, k, n); }
    forall j: nat | Toward(s, back, i, j) ensures Runs(c, p + 5 + |x|, j, AsFate(kk'[j], n')) {
      if j != i {
        GoingFrom(c, end, back, i, j, k, n');
        OpenFind(c, r, back, greedy, p, j, k, n');
        GotoRuns(c, p + 5 + |x|, j, -(|x| + 10), AsFate(kk'[j], n'));
      } else if n == 0 {
        NotOver(c, p + 5 + |x|, i);
      } else {
        OpenFind(c, r, back, greedy, p, i, k, n');
        GotoRuns(c, p + 5 + |x|, i, -(|x| + 10), AsFate(kk'[i], n'));
      }
    }
    FindRuns(c, r, back, p + 5, i, kk', n');
    GoingHere(c, end, back, i, k, n);
    Unguarded(s, r, greedy, back, i, k, n);
    var q := Find(s, r, back, i, kk);
    LoopFate(c, p, p + 5, end, i, greedy, |x| + 5, q, Find(s, r, back, i, kk'), k[i], n);
  }

  /** The split of a loop without a check. */
  lemma LoopFate(c: Ctx, pc: nat, body: nat, end: nat, i: nat, greedy: bool, off: int, q: Search<Fate>, q': Search<Fate>, k: Search<Fate>, n: nat)
    requires i <= |c.m.subject.chars| && -TWO31 <= off < TWO31
    requires (At(c.m.code, pc, Op32(SplitOp(greedy), off)) && body == pc + 5 && end == pc + 5 + off)
      || (At(c.m.code, pc, Op32(SplitOp(!greedy), off)) && end == pc + 5 && body == pc + 5 + off)
    requires Runs(c, end, i, AsFate(k, n)) && Runs(c, body, i, AsFate(q', if n == 0 then 0 else n - 1))
    requires q == q' || (!greedy && !k.Fails?)
    ensures Runs(c, pc, i, AsFate(if greedy then q.Or(k) else k.Or(q), n))
  {
    hide Runs, At, Op32;
    var next := At(c.m.code, pc, Op32(SplitOp(greedy), off)) && body == pc + 5 && end == pc + 5 + off;
    var first := if next then greedy else !greedy;
    if !greedy && !k.Fails? {
      SplitRuns(c, pc, i, first, off, AsFate(k, n), None);
    } else if q.Circles? {
      if n == 0 { NotOver(c, pc, i); } else { SplitLate(c, pc, i, first, off, n - 1); }
    } else if greedy {
      SplitRuns(c, pc, i, first, off, AsFate(q, n), AsFate(k, n));
    } else {
      SplitRuns(c, pc, i, first, off, AsFate(k, n), AsFate(q, n));
    }
  }

  /** The split at the end of `x+`. */
  lemma PlusFind(c: Ctx, r: Regex, back: bool, greedy: bool, p: nat, i: nat, k: seq<Search<Fate>>, n: nat)
    requires Ready(c) && Parsed(r) && !Guarded(r, back, greedy) && At(c.m.code, p, PlusCode(Code(r, back), greedy))
    requires Going(c, p + |PlusCode(Code(r, back), greedy)|, back, i, k, n)
    ensures Runs(c, p + |Code(r, back)|, i, AsFate(FindLoop(c.m.subject, r, 0, None, greedy, back, i, k), n))
    decreases r, 2, n, Room(c.m.subject, back, i), 0
  {
    hide Code, Find, Runs, At, Op32, Guarded, PlusCode, FindLoop;
    var s, x := c.m.subject, Code(r, back);
    var kk, whole := Onward(s, r, 0, None, greedy, back, i, k), FindLoop(s, r, 0, None, greedy, back, i, k);
    var kk', n' := Again0(kk, i, whole, n), if n == 0 then 0 else n - 1;
    PlusLayout(c.m.code, p, x, greedy);
    var end := p + |x| + 5;
    if 0 < n { GoingLess(c, end, back, i, k, n); }
    forall j: nat | Toward(s, back, i, j) ensures Runs(c, p + |x|, j, AsFate(kk'[j], n')) {
      if j != i {
        GoingFrom(c, end, back, i, j, k, n');
        PlusFind(c, r, back, greedy, p, j, k, n');
      } else if n == 0 {
        NotOver(c, p + |x|, i);
      } else {
        PlusFind(c, r, back, greedy, p, i, k, n');
      }
    }
    FindRuns(c, r, back, p, i, kk', n');
    GoingHere(c, end, back, i, k, n);
    Unguarded(s, r, greedy, back, i, k, n);
    LoopFate(c, p + |x|, p, end, i, greedy, -(|x| + 5), Find(s, r, back, i, kk), Find(s, r, back, i, kk'), k[i], n);
  }

  lemma PlusAllFind(c: Ctx, r: Regex, back: bool, greedy: bool, p: nat, i: nat, k: seq<Search<Fate>>, n: nat)
    requires Ready(c) && Parsed(r) && !Guarded(r, back, greedy) && At(c.m.code, p, PlusCode(Code(r, back), greedy))
    requires Going(c, p + |PlusCode(Code(r, back), greedy)|, back, i, k, n)
    ensures Runs(c, p, i, AsFate(FindLoop(c.m.subject, r, 1, None, greedy, back, i, k), n))
    decreases r, 3
  {
    hide Code, Find, Runs, At, Op32, Guarded, PlusCode;
    var s, x := c.m.subject, Code(r, back);
    var kk := Onward(s, r, 1, None, greedy, back, i, k);
    PlusLayout(c.m.code, p, x, greedy);
    forall j: nat | Toward(s, back, i, j) ensures Runs(c, p + |x|, j, AsFate(kk[j], n)) {
      GoingFrom(c, p + |x| + 5, back, i, j, k, n);
      PlusFind(c, r, back, greedy, p, j, k, n);
    }
    FindRuns(c, r, back, p, i, kk, n);
  }

  lemma LoopDone(s: Subject, r: Regex, min: nat, greedy: bool, back: bool, j: nat, k: seq<Search<Fate>>)
    requires Parsed(r) && |k| == |s.chars| + 1 && j < |k|
    ensures FindLoop(s, r, min, Some(0), greedy, back, j, k) == k[j]
  {
  }

  lemma UpToFind(c: Ctx, r: Regex, back: bool, greedy: bool, p: nat, count: nat, i: nat, k: seq<Search<Fate>>, n: nat)
    requires Ready(c) && Parsed(r) && 0 < count && At(c.m.code, p, UpToTail(Code(r, back), greedy))
    requires Going(c, p + |UpToTail(Code(r, back), greedy)|, back, i, k, n)
    ensures Runs(c.(stk := c.stk + [count]), p, i, AsFate(FindLoop(c.m.subject, r, 0, Some(count), greedy, back, i, k), n))
    decreases r, 2, count
  {
    hide Code, Find, Runs, At, Op32, UpToTail;
    var s, x := c.m.subject, Code(r, back);
    var kk := Onward(s, r, 0, Some(count), greedy, back, i, k);
    UpToLayout(c.m.code, p, x, greedy);
    var end := p + |x| + 11;
    var c' := c.(stk := c.stk + [count]);
    forall j: nat | Toward(s, back, i, j) ensures Runs(c', p + 5 + |x|, j, AsFate(kk[j], n)) {
      GoingFrom(c, end, back, i, j, k, n);
      if count == 1 {
        GoingHere(c, end, back, j, k, n);
        LoopDone(s, r, 0, greedy, back, j, k);
        DropRuns(c, p + 10 + |x|, j, 0, AsFate(kk[j], n));
      } else {
        UpToFind(c, r, back, greedy, p, count - 1, j, k, n);
      }
      LoopRuns(c, p + 5 + |x|, j, count, -(|x| + 10), AsFate(kk[j], n));
    }
    FindRuns(c', r, back, p + 5, i, kk, n);
    GoingHere(c, end, back, i, k, n);
    DropRuns(c, p + 10 + |x|, i, count, AsFate(k[i], n));
    EitherWay(c', p, i, greedy, |x| + 5, Find(s, r, back, i, kk), k[i], n);
  }

  /** A split into the body of an optional iteration and the code after it. */
  lemma EitherWay(c: Ctx, p: nat, i: nat, greedy: bool, off: nat, q: Search<Fate>, k: Search<Fate>, n: nat)
    requires i <= |c.m.subject.chars| && off < TWO31 && At(c.m.code, p, Op32(SplitOp(greedy), off))
    requires Runs(c, p + 5, i, AsFate(q, n)) && Runs(c, p + 5 + off, i, AsFate(k, n))
    ensures Runs(c, p, i, AsFate(if greedy then q.Or(k) else k.Or(q), n))
  {
    hide Runs, At, Op32;
    if greedy {
      SplitRuns(c, p, i, true, off, AsFate(q, n), AsFate(k, n));
    } else {
      SplitRuns(c, p, i, false, off, AsFate(k, n), AsFate(q, n));
    }
  }

  lemma ExactlyFind(c: Ctx, r: Regex, back: bool, greedy: bool, p: nat, count: nat, i: nat, k: seq<Search<Fate>>, n: nat)
    requires Ready(c) && Parsed(r) && 0 < count && At(c.m.code, p, ExactlyTail(Code(r, back)))
    requires Going(c, p + |ExactlyTail(Code(r, back))|, back, i, k, n)
    ensures Runs(c.(stk := c.stk + [count]), p, i, AsFate(FindLoop(c.m.subject, r, count, Some(count), greedy, back, i, k), n))
    decreases r, 2, count
  {
    hide Code, Find, Runs, At, Op32, ExactlyTail;
    var s, x := c.m.subject, Code(r, back);
    var kk := Onward(s, r, count, Some(count), greedy, back, i, k);
    ExactlyLayout(c.m.code, p, x);
    var end := p + |x| + 6;
    var c' := c.(stk := c.stk + [count]);
    forall j: nat | Toward(s, back, i, j) ensures Runs(c', p + |x|, j, AsFate(kk[j], n)) {
      GoingFrom(c, end, back, i, j, k, n);
      if count == 1 {
        GoingHere(c, end, back, j, k, n);
        LoopDone(s, r, 0, greedy, back, j, k);
        DropRuns(c, p + 5 + |x|, j, 0, AsFate(kk[j], n));
      } else {
        ExactlyFind(c, r, back, greedy, p, count - 1, j, k, n);
      }
      LoopRuns(c, p + |x|, j, count, -(|x| + 5), AsFate(kk[j], n));
    }
    FindRuns(c', r, back, p, i, kk, n);
  }

  lemma OptionFind(c: Ctx, r: Regex, back: bool, greedy: bool, p: nat, i: nat, k: seq<Search<Fate>>, n: nat)
    requires Ready(c) && Parsed(r) && At(c.m.code, p, Op32(SplitOp(greedy), |Code(r, back)|) + Code(r, back))
    requires Going(c, p + 5 + |Code(r, back)|, back, i, k, n)
    ensures Runs(c, p, i, AsFate(FindLoop(c.m.subject, r, 0, Some(1), greedy, back, i, k), n))
    decreases r, 2, 0
  {
    hide Code, Find, Runs, Op32;
    var s, x := c.m.subject, Code(r, back);
    var kk := Onward(s, r, 0, Some(1), greedy, back, i, k);
    var end := p + 5 + |x|;
    AtSplit(c.m.code, p, Op32(SplitOp(greedy), |x|), x);
    forall j: nat | Toward(s, back, i, j) ensures Runs(c, end, j, AsFate(kk[j], n)) {
      LoopDone(s, r, 0, greedy, back, j, k);
    }
    FindRuns(c, r, back, p + 5, i, kk, n);
    GoingHere(c, end, back, i, k, n);
    EitherWay(c, p, i, greedy, |x|, Find(s, r, back, i, kk), k[i], n);
  }

  lemma TailFind(c: Ctx, r: Regex, back: bool, greedy: bool, max: nat, p: nat, i: nat, k: seq<Search<Fate>>, n: nat)
    requires Ready(c) && Parsed(r) && max <= INT32_MAX
    requires At(c.m.code, p, TailCode(Code(r, back), max, greedy, Guarded(r, back, greedy)))
    requires Going(c, p + |TailCode(Code(r, back), max, greedy, Guarded(r, back, greedy))|, back, i, k, n)
    ensures Runs(c, p, i, AsFate(FindLoop(c.m.subject, r, 0, Bound(max), greedy, back, i, k), n))
    decreases r, 3
  {
    hide Code, Find, Runs, At, Op32, UpToCode, StarCode, Guarded;
    if max == INT32_MAX {
      StarFind(c, r, back, greedy, p, i, k, n);
    } else if 0 < max {
      UpToStart(c.m.code, p, Code(r, back), max, greedy);
      UpToFind(c, r, back, greedy, p + 5, max, i, k, n);
      PushRuns(c, p, i, max, AsFate(FindLoop(c.m.subject, r, 0, Bound(max), greedy, back, i, k), n));
    } else {
      GoingHere(c, p, back, i, k, n);
    }
  }

  lemma HeadFind(c: Ctx, r: Regex, back: bool, greedy: bool, min: nat, p: nat, i: nat, k: seq<Search<Fate>>, n: nat)
    requires Ready(c) && Parsed(r) && min <= INT32_MAX && At(c.m.code, p, HeadCode(Code(r, back), min))
    requires Going(c, p + |HeadCode(Code(r, back), min)|, back, i, k, n)
    ensures Runs(c, p, i, AsFate(FindLoop(c.m.subject, r, min, Some(min), greedy, back, i, k), n))
    decreases r, 3
  {
    hide Code, Find, Runs, At, Op32, ExactlyCode, Guarded;
    var s, x := c.m.subject, Code(r, back);
    if min == 0 {
      GoingHere(c, p, back, i, k, n);
    } else if min == 1 {
      var kk := Onward(s, r, 1, Some(1), greedy, back, i, k);
      forall j: nat | Toward(s, back, i, j) ensures Runs(c, p + |x|, j, AsFate(kk[j], n)) {
        LoopDone(s, r, 0, greedy, back, j, k);
      }
      FindRuns(c, r, back, p, i, kk, n);
    } else {
      ExactlyStart(c.m.code, p, x, min);
      ExactlyFind(c, r, back, greedy, p + 5, min, i, k, n);
      PushRuns(c, p, i, min, AsFate(FindLoop(s, r, min, Some(min), greedy, back, i, k), n));
    }
  }

  lemma HeadTailFind(c: Ctx, r: Regex, back: bool, greedy: bool, min: nat, max: nat, p: nat, i: nat, k: seq<Search<Fate>>, n: nat)
    requires Ready(c) && Parsed(r) && min <= max <= INT32_MAX
    requires At(c.m.code, p, HeadCode(Code(r, back), min) + TailCode(Code(r, back), TailMax(min, max), greedy, Guarded(r, back, greedy)))
    requires Going(c, p + |HeadCode(Code(r, back), min)| + |TailCode(Code(r, back), TailMax(min, max), greedy, Guarded(r, back, greedy))|,
                   back, i, k, n)
    ensures Runs(c, p, i, AsFate(FindLoop(c.m.subject, r, min, Bound(max), greedy, back, i, k), n))
    decreases r, 4
  {
    hide Code, Find, Runs, Op32, Guarded, HeadCode, TailCode, FindLoop;
    var s := c.m.subject;
    var head, tail := HeadCode(Code(r, back), min), TailCode(Code(r, back), TailMax(min, max), greedy, Guarded(r, back, greedy));
    var rest := EachLoop(s, r, Bound(TailMax(min, max)), greedy, back, k);
    AtSplit(c.m.code, p, head, tail);
    LoopSplit(s, r, min, Bound(max), greedy, back, i, k);
    forall j: nat | Toward(s, back, i, j) ensures Runs(c, p + |head|, j, AsFate(rest[j], n)) {
      GoingFrom(c, p + |head| + |tail|, back, i, j, k, n);
      TailFind(c, r, back, greedy, TailMax(min, max), p + |head|, j, k, n);
    }
    HeadFind(c, r, back, greedy, min, p, i, rest, n);
  }

  lemma RepeatFind(c: Ctx, r: Regex, back: bool, min: nat, max: nat, greedy: bool, p: nat, i: nat, k: seq<Search<Fate>>, n: nat)
    requires Ready(c) && Parsed(r) && min <= max <= INT32_MAX && At(c.m.code, p, RepeatCode(Code(r, back), min, max, greedy))
    requires !(greedy && 0 < SimpleCount(Code(r, back), 0, 0))
    requires Going(c, p + |RepeatCode(Code(r, back), min, max, greedy)|, back, i, k, n)
    ensures Runs(c, p, i, AsFate(FindLoop(c.m.subject, r, min, Bound(max), greedy, back, i, k), n))
    decreases r, 5
  {
    hide Code, Find, Runs, Op32, SimpleCount, ChecksAdvance, At, HeadCode, TailCode, FindLoop;
    var x := Code(r, back);
    if min == 0 && max == 1 {
      OptionFind(c, r, back, greedy, p, i, k, n);
    } else if min == 1 && max == INT32_MAX && !(greedy && !ChecksAdvance(x)) {
      PlusAllFind(c, r, back, greedy, p, i, k, n);
    } else {
      RepeatShape(x, min, max, greedy);
      HeadTailFind(c, r, back, greedy, min, max, p, i, k, n);
    }
  }

  // ----------------------------------------------------- sequences and alternatives

  lemma ConcatFind(c: Ctx, x: Regex, y: Regex, r: Regex, back: bool, p: nat, i: nat, k: seq<Search<Fate>>, n: nat)
    requires Ready(c) && Parsed(x) && Parsed(y) && r == if back then Concat(y, x) else Concat(x, y)
    requires At(c.m.code, p, Code(x, back) + Code(y, back))
    requires Going(c, p + |Code(x, back)| + |Code(y, back)|, back, i, k, n)
    ensures Runs(c, p, i, AsFate(Find(c.m.subject, x, back, i, Each(c.m.subject, y, back, k)), n))
    decreases r, 0
  {
    hide Code, Find, Runs;
    var s := c.m.subject;
    var cx, cy := Code(x, back), Code(y, back);
    var kk := Each(s, y, back, k);
    AtSplit(c.m.code, p, cx, cy);
    forall j: nat | Toward(s, back, i, j) ensures Runs(c, p + |cx|, j, AsFate(kk[j], n)) {
      GoingFrom(c, p + |cx| + |cy|, back, i, j, k, n);
      FindRuns(c, y, back, p + |cx|, j, k, n);
    }
    FindRuns(c, x, back, p, i, kk, n);
  }

  lemma ChoiceFind(c: Ctx, a: Regex, b: Regex, back: bool, p: nat, i: nat, k: seq<Search<Fate>>, n: nat)
    requires Ready(c) && Parsed(a) && Parsed(b) && At(c.m.code, p, ChoiceCode(Code(a, back), Code(b, back)))
    requires Going(c, p + |ChoiceCode(Code(a, back), Code(b, back))|, back, i, k, n)
    ensures Runs(c, p, i, AsFate(Find(c.m.subject, a, back, i, k).Or(Find(c.m.subject, b, back, i, k)), n))
    decreases Choice(a, b), 0
  {
    hide Code, Find, Runs, Op32, At, ChoiceCode;
    var s := c.m.subject;
    var ca, cb := Code(a, back), Code(b, back);
    ChoiceLayout(c.m.code, p, ca, cb);
    var end := p + |ca| + 10 + |cb|;
    FindRuns(c, b, back, p + |ca| + 10, i, k, n);
    forall j: nat | Toward(s, back, i, j) ensures Runs(c, p + 5 + |ca|, j, AsFate(k[j], n)) {
      GotoRuns(c, p + 5 + |ca|, j, |cb|, AsFate(k[j], n));
    }
    FindRuns(c, a, back, p + 5, i, k, n);
    SplitRuns(c, p, i, true, |ca| + 5, AsFate(Find(s, a, back, i, k), n), AsFate(Find(s, b, back, i, k), n));
  }

  // ---------------------------------------------------------------- lookaround

  /** The body of an assertion, from its start: what follows a match, and what follows a failure. */
  lemma LookInside(c: Ctx, negated: bool, behind: bool, r: Regex, p: nat, end: nat, i: nat, states: seq<ExecState>, o: Fate, n: nat)
    requires Ready(c) && i <= |c.m.subject.chars| && Parsed(r)
    requires At(c.m.code, p, Code(r, behind)) && At(c.m.code, p + |Code(r, behind)|, [OP_MATCH])
    requires var t := Find(c.m.subject, r, behind, i, Anything(|c.m.subject.chars| + 1));
      if t.Circles? then o == Late(n)
      else Comes(c.m, if t.Accepts? == negated then Failing(states) else Conf(c, end, i, states), o)
    ensures Comes(c.m, Conf(c, p, i, states + [LookEntry(c, negated, end, i)]), o)
    decreases r, 2, 0
  {
    hide Comes, Code, Find, At, Step;
    var c' := c.(base := states + [LookEntry(c, negated, end, i)]);
    var t := Find(c.m.subject, r, behind, i, Anything(|c.m.subject.chars| + 1));
    // after a match that the search does not come to, nothing need be known
    var f := if t.Accepts? then o else Late(0);
    var k := seq(|c.m.subject.chars| + 1, _ => Accepts(f));
    forall j: nat | Toward(c.m.subject, behind, i, j) ensures Runs(c', p + |Code(r, behind)|, j, AsFate(k[j], n)) {
      if !t.Accepts? { EarlyComes(c, end, i, states, negated); }
      MatchRuns(c, negated, p + |Code(r, behind)|, end, i, j, states, f);
    }
    FindRuns(c', r, behind, p, i, k, n);
    FindMapped(c.m.subject, r, behind, i, Anything(|k|), k, _ => f);
    assert Above(c'.base, c'.base);
    assert RunsOn(c', p, i, AsFate(Find(c.m.subject, r, behind, i, k), n), c'.base);
    assert Conf(c', p, i, c'.base) == Conf(c, p, i, c'.base);
    if t.Fails? { MissUnwinds(c, negated, end, i, states, o); }
  }

  lemma EarlyComes(c: Ctx, end: nat, i: nat, states: seq<ExecState>, negated: bool)
    ensures Comes(c.m, if negated then Failing(states) else Conf(c, end, i, states), Late(0))
  {
  }

  lemma LookFind(c: Ctx, negated: bool, behind: bool, r: Regex, p: nat, i: nat, k: Search<Fate>, n: nat)
    requires Ready(c) && i <= |c.m.subject.chars| && Parsed(r) && At(c.m.code, p, LookCode(negated, Code(r, behind)))
    requires Runs(c, p + |Code(r, behind)| + 6, i, AsFate(k, n))
    ensures var t := Find(c.m.subject, r, behind, i, Anything(|c.m.subject.chars| + 1));
      Runs(c, p, i, AsFate(if t.Circles? then Circles else if t.Accepts? != negated then k else Fails, n))
    decreases r, 3
  {
    hide Comes, Code, Find, Op32, Step, LookCode, At;
    var x := Code(r, behind);
    LookLayout(c.m.code, p, x, negated);
    var t := Find(c.m.subject, r, behind, i, Anything(|c.m.subject.chars| + 1));
    var q := if t.Circles? then Circles else if t.Accepts? != negated then k else Fails;
    forall states | Above(states, c.base) ensures RunsOn(c, p, i, AsFate(q, n), states) {
      assert RunsOn(c, p + |x| + 6, i, AsFate(k, n), states);
      LookOnward(c, negated, behind, r, p, i, k, states, n);
    }
  }

  lemma LookOnward(c: Ctx, negated: bool, behind: bool, r: Regex, p: nat, i: nat, k: Search<Fate>, states: seq<ExecState>, n: nat)
    requires Ready(c) && i <= |c.m.subject.chars| && Parsed(r) && Above(states, c.base)
    requires var x := Code(r, behind);
      && p + |x| + 6 <= |c.m.code| && At(c.m.code, p + 5, x) && At(c.m.code, p + 5 + |x|, [OP_MATCH])
      && At(c.m.code, p, Op32(if negated then OP_NEGATIVE_LOOKAHEAD else OP_LOOKAHEAD, |x| + 1))
    requires RunsOn(c, p + |Code(r, behind)| + 6, i, AsFate(k, n), states)
    ensures var t := Find(c.m.subject, r, behind, i, Anything(|c.m.subject.chars| + 1));
      RunsOn(c, p, i, AsFate(if t.Circles? then Circles else if t.Accepts? != negated then k else Fails, n), states)
    decreases r, 2, 1
  {
    hide Comes, Code, Find, Op32;
    var x := Code(r, behind);
    var end := p + |x| + 6;
    AtOp32(c.m.code, p, if negated then OP_NEGATIVE_LOOKAHEAD else OP_LOOKAHEAD, |x| + 1);
    var t := Find(c.m.subject, r, behind, i, Anything(|c.m.subject.chars| + 1));
    var holds := t.Accepts? != negated;
    LookStep(c, negated, p, |x| + 1, i, states);
    if t.Circles? {
      LookInside(c, negated, behind, r, p + 5, end, i, states, Late(n), n);
      ComesStep(c.m, Conf(c, p, i, states), Late(n));
    } else if holds && !k.Fails? {
      LookInside(c, negated, behind, r, p + 5, end, i, states, AsFate(k, n).value, n);
      ComesStep(c.m, Conf(c, p, i, states), AsFate(k, n).value);
    } else {
      forall o | Comes(c.m, Failing(states), o) ensures Comes(c.m, Conf(c, p, i, states), o) {
        assert Comes(c.m, if holds then Conf(c, end, i, states) else Failing(states), o);
        LookInside(c, negated, behind, r, p + 5, end, i, states, o, n);
        ComesStep(c.m, Conf(c, p, i, states), o);
      }
    }
  }

  // ---------------------------------------------------------------- all together

  ghost function Fates(k: seq<Search<Fate>>, n: nat): (kk: seq<Option<Fate>>)
    ensures |kk| == |k|
  {
    seq(|k|, j requires 0 <= j < |k| => AsFate(k[j], n))
  }

  lemma {:induction false} PickIsFirst(k: seq<Search<Fate>>, js: seq<nat>, n: nat)
    ensures First(Fates(k, n), js) == AsFate(Pick(k, js), n)
  {
    if js != [] { PickIsFirst(k, js[1..], n); }
  }

  /** Where all loops end, CodeRuns says what happens. */
  lemma LoopsFind(c: Ctx, r: Regex, back: bool, p: nat, i: nat, k: seq<Search<Fate>>, n: nat)
    requires Ready(c) && Parsed(r) && Loops(r) && At(c.m.code, p, Code(r, back)) && Going(c, p + |Code(r, back)|, back, i, k, n)
    ensures Runs(c, p, i, AsFate(Pick(k, Ends(c.m.subject, r, back, i)), n))
  {
    hide Code, Runs, Ends, At;
    var js, kk := Ends(c.m.subject, r, back, i), Fates(k, n);
    forall j | j in js ensures j < |kk| && Runs(c, p + |Code(r, back)|, j, kk[j]) {
      assert Toward(c.m.subject, back, i, j);
    }
    CodeRuns(c, r, back, p, i, kk);
    PickIsFirst(k, js, n);
  }

  /**
   The code of any accepted expression, followed by code that runs to what `k` says, runs to what
   the search finds; in a circle, it is not over after any number of steps.
   */
  lemma {:induction false} FindRuns(c: Ctx, r: Regex, back: bool, p: nat, i: nat, k: seq<Search<Fate>>, n: nat)
    requires Ready(c) && Parsed(r) && At(c.m.code, p, Code(r, back)) && Going(c, p + |Code(r, back)|, back, i, k, n)
    ensures Runs(c, p, i, AsFate(Find(c.m.subject, r, back, i, k), n))
    decreases r, 1
  {
    hide Runs, At, ChoiceCode, LookCode, RepeatCode, OneCode, ClassCode, Op16, Op32, FindLoop, Ends;
    if Loops(r) {
      LoopsFind(c, r, back, p, i, k, n);
    } else {
      match r
      case Concat(a, b) =>
        if back {
          ConcatFind(c, b, a, r, back, p, i, k, n);
        } else {
          ConcatFind(c, a, b, r, back, p, i, k, n);
        }
      case Choice(a, b) => ChoiceFind(c, a, b, back, p, i, k, n);
      case Look(negated, behind, body) =>
        LookLength(negated, Code(body, behind));
        GoingHere(c, p + |Code(body, behind)| + 6, back, i, k, n);
        LookFind(c, negated, behind, body, p, i, k[i], n);
      case Repeat(body, min, max, greedy) =>
        if greedy { NotSimpleLoop(r, back); }
        RepeatFind(c, body, back, min, max, greedy, p, i, k, n);
      case _ =>
    }
  }

  /** A straight-line body has no loops, so a greedy loop over it is among those that end. */
  lemma NotSimpleLoop(r: Regex, back: bool)
    requires Parsed(r) && r.Repeat? && !Loops(r) && r.greedy
    ensures SimpleCount(Code(r.body, back), 0, 0) <= 0
  {
    if 0 < SimpleCount(Code(r.body, back), 0, 0) { SimpleLoops(r.body, back); }
  }

  lemma {:induction false} SimpleLoops(r: Regex, back: bool)
    requires Parsed(r) && 0 <= SimpleCount(Code(r, back), 0, 0)
    ensures Loops(r)
    decreases r
  {
    hide SimpleCount, Code;
    match r
    case Concat(a, b) =>
      RegexSimple.SimpleParts(r, if back then b else a, if back then a else b, back);
      SimpleLoops(a, back);
      SimpleLoops(b, back);
    case Choice(_, _) => RegexSimple.NotSimpleBranch(r, back);
    case Look(_, _, _) => RegexSimple.NotSimpleBranch(r, back);
    case Repeat(body, _, max, _) =>
      RegexSimple.SimpleRepeatBody(r, back);
      if max != 0 { SimpleLoops(body, back); }
    case _ =>
  }
}
