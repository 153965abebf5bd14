/**
 Running `simple_greedy_quant`: the counted state it saves gives back one iteration per failure.
 */
module RegexGreedy {
  import opened Wrappers
  import opened RegexSyntax
  import opened RegexBytecode
  import opened RegexVm
  import opened RegexSim
  import opened RegexAtoms
  import opened RegexSimple

  lemma SimpleGreedyStep(c: Ctx, p: nat, x: seq<byte>, min: nat, max: nat, n: nat, i: nat, states: seq<ExecState>)
    requires min <= max < TWO31 && n < TWO32 && |c.m.code| < TWO31
    requires At(c.m.code, p, SimpleGreedyCode(x, min, max, n))
    requires i <= |c.m.subject.chars|
    ensures p + |x| + 18 <= |c.m.code|
    ensures GetU32(c.m.code, p + 13) == n && Signed(GetU32(c.m.code, p + 1)) == |x| + 1
    ensures At(c.m.code, p + 17, x + [OP_MATCH])
    ensures Step(c.m, Conf(c, p, i, states)) ==
         match GreedyRun(c.m, p + 17, i, max, 0)
         case None => Aborted
         case Some((q, e)) =>
           if q < min then Failing(states)
           else if min < q then Conf(c, p + |x| + 18, e, states + [ExecState(GreedyState, q - min, e, p + 1, c.cap, c.stk)])
           else Conf(c, p + |x| + 18, e, states)
  {
    hide GreedyRun, U32, GetU32;
    var head := SimpleGreedyOp(|x|, min, max, n);
    assert SimpleGreedyCode(x, min, max, n) == head + (x + [OP_MATCH]);
    AtSplit(c.m.code, p, head, x + [OP_MATCH]);
    SimpleGreedyFields(c.m.code, p, |x|, min, max, n);
  }

  lemma SimpleGreedyFields(code: seq<byte>, p: nat, len: nat, min: nat, max: nat, n: nat)
    requires At(code, p, SimpleGreedyOp(len, min, max, n))
    requires min < TWO31 && max < TWO31 && n < TWO32 && len + 1 < TWO31
    ensures p + 17 <= |code| && code[p] == OP_SIMPLE_GREEDY_QUANT
    ensures Signed(GetU32(code, p + 1)) == len + 1
    ensures GetU32(code, p + 5) == min && GetU32(code, p + 9) == max && GetU32(code, p + 13) == n
  {
    hide U32;
    var a := [OP_SIMPLE_GREEDY_QUANT];
    AtSplit(code, p, a + U32(len + 1) + U32(min) + U32(max), U32(n));
    AtSplit(code, p, a + U32(len + 1) + U32(min), U32(max));
    AtSplit(code, p, a + U32(len + 1), U32(min));
    AtSplit(code, p, a, U32(len + 1));
    AtOp(code, p, OP_SIMPLE_GREEDY_QUANT);
    I32RoundTrip(code, p + 1, len + 1);
    U32RoundTrip(code, p + 5, min);
    U32RoundTrip(code, p + 9, max);
    U32RoundTrip(code, p + 13, n);
  }

  /** Failing into a saved greedy loop tries the shorter ends, one after the other. */
  lemma {:induction false} GiveBackRuns(c: Ctx, p: nat, end: nat, n: nat, e: nat, count: nat, k: seq<Option<Fate>>, states: seq<ExecState>)
    requires 0 < count && 0 < n && n * count <= e < |k| && Above(states, c.base)
    requires p + 17 <= |c.m.code| && GetU32(c.m.code, p + 13) == n && p + 17 + Signed(GetU32(c.m.code, p + 1)) == end
    requires n * (count - 1) <= e - n && RunAll(c, end, Down(e - n, n, count - 1), k)
    ensures Leads(c.m, Failing(states + [ExecState(GreedyState, count, e, p + 1, c.cap, c.stk)]), First(k, Down(e - n, n, count - 1)), states)
    decreases count
  {
    hide Leads, Down, GetU32, Step;
    var rs := ExecState(GreedyState, count, e, p + 1, c.cap, c.stk);
    var pushed := states + [rs];
    var mid := if count == 1 then states else states + [rs.(cptr := e - n, count := count - 1)];
    var js := Down(e - n, n, count - 1);
    MulMonotone(n, 1, count);
    GiveBackStep(c, p, end, n, e, count, states);
    DownHead(e - n, n, count - 1);
    assert js[0] in js;
    assert RunsOn(c, end, e - n, k[e - n], mid);
    if count == 1 {
      FailLeads(c.m, states);
    } else {
      assert forall j :: j in js[1..] ==> j in js;
      GiveBackRuns(c, p, end, n, e - n, count - 1, k, states);
    }
    LeadsThen(c.m, Conf(c, end, e - n, mid), k[e - n], mid, First(k, js[1..]), states);
    LeadsStep(c.m, Failing(pushed), First(k, js), states);
  }

  lemma GiveBackStep(c: Ctx, p: nat, end: nat, n: nat, e: nat, count: nat, states: seq<ExecState>)
    requires 0 < count && n <= e
    requires p + 17 <= |c.m.code| && GetU32(c.m.code, p + 13) == n && p + 17 + Signed(GetU32(c.m.code, p + 1)) == end
    ensures var rs := ExecState(GreedyState, count, e, p + 1, c.cap, c.stk);
      Step(c.m, Failing(states + [rs]))
      == Conf(c, end, e - n, if count == 1 then states else states + [rs.(cptr := e - n, count := count - 1)])
  {
    hide GetU32;
    var rs := ExecState(GreedyState, count, e, p + 1, c.cap, c.stk);
    var pushed := states + [rs];
    assert pushed[|pushed| - 1] == rs && pushed[..|pushed| - 1] == states;
  }

  lemma SimpleGreedyRuns(c: Ctx, p: nat, r: Regex, min: nat, max: nat, i: nat, k: seq<Option<Fate>>)
    requires Cont(c, k) && i < |k| && Parsed(r) && min <= max <= INT32_MAX && 0 < max
    requires 0 < SimpleCount(Code(r, false), 0, 0)
    requires At(c.m.code, p, SimpleGreedyCode(Code(r, false), min, max, SimpleCount(Code(r, false), 0, 0)))
    requires RunAll(c, p + |Code(r, false)| + 18, Iterate(c.m.subject, r, min, Bound(max), true, false, i), k)
    ensures Runs(c, p, i, First(k, Iterate(c.m.subject, r, min, Bound(max), true, false, i)))
  {
    hide SimpleCount, Code, GreedyRun, Down, Iterate, Step, Leads, Visited, GetU32, Atom, SimpleGreedyCode, At;
    var x := Code(r, false);
    var n: nat := SimpleCount(x, 0, 0);
    SimpleCountBounded(x, 0, 0);
    SimpleGreedyLength(c.m.code, p, x, min, max, n);
    SimpleGreedyStep(c, p, x, min, max, n, i, []);
    AtomIs(c.m, r, p + 17, n);
    GreedyEnds(c.m, r, p + 17, n, i, min, max, 0);
    var Some((q, e)) := GreedyRun(c.m, p + 17, i, max, 0);
    var js := Iterate(c.m.subject, r, min, Bound(max), true, false, i);
    assert js == Visited(min, 0, q, e, n) by {
      assert Minus(min, 0) == min && Rest(Bound(max), 0) == Bound(max);
    }
    forall states | Above(states, c.base) ensures RunsOn(c, p, i, First(k, js), states) {
      SimpleGreedyStep(c, p, x, min, max, n, i, states);
      VisitedAll(min, q, e, n);
      if q < min {
        FailLeads(c.m, states);
      } else {
        SimpleGreedyResume(c, p, p + |x| + 18, n, q, min, e, i, js, k, states);
      }
      LeadsStep(c.m, Conf(c, p, i, states), First(k, js), states);
    }
  }

  lemma SimpleGreedyLength(code: seq<byte>, p: nat, x: seq<byte>, min: nat, max: nat, n: nat)
    requires At(code, p, SimpleGreedyCode(x, min, max, n))
    ensures p + |x| + 18 <= |code|
  {
  }

  lemma AtomIs(m: Machine, r: Regex, p: nat, n: nat)
    requires 0 < n && Parsed(r) && SimpleCount(Code(r, false), 0, 0) == n
    requires At(m.code, p, Code(r, false) + [OP_MATCH])
    requires forall k :: 0 <= k < |m.subject.chars| ==> m.subject.chars[k] < UINT32_MAX
    ensures Atom(m, r, p, n)
  {
  }

  lemma VisitedAll(min: nat, q: nat, e: nat, n: nat)
    requires n * q <= e
    ensures q < min ==> Visited(min, 0, q, e, n) == []
    ensures min <= q ==> n * (q - min) <= e && Visited(min, 0, q, e, n) == Down(e, n, q - min)
  {
    if min <= q { MulMonotone(n, q - min, q); }
  }

  lemma {:induction false} SimpleCountBounded(x: seq<byte>, p: nat, count: nat)
    requires p <= |x|
    ensures SimpleCount(x, p, count) <= count + |x| - p
    decreases |x| - p
  {
    if p < |x| && InstrSize(x, p) != 0 {
      SimpleCountBounded(x, p + InstrSize(x, p), count);
      SimpleCountBounded(x, p + InstrSize(x, p), count + 1);
    }
  }

  lemma SimpleGreedyResume(c: Ctx, p: nat, end: nat, n: nat, q: nat, min: nat, e: nat, i: nat, js: seq<nat>, k: seq<Option<Fate>>, states: seq<ExecState>)
    requires 0 < n && min <= q && Above(states, c.base) && e < |k| && n * q <= e
    requires p + 17 <= |c.m.code| && GetU32(c.m.code, p + 13) == n && p + 17 + Signed(GetU32(c.m.code, p + 1)) == end
    requires n * (q - min) <= e && js == Down(e, n, q - min) && RunAll(c, end, js, k)
    ensures Leads(c.m, Conf(c, end, e, if min < q then states + [ExecState(GreedyState, q - min, e, p + 1, c.cap, c.stk)] else states),
                  First(k, js), states)
  {
    hide Down, GetU32, Leads;
    DownHead(e, n, q - min);
    assert js[0] in js;
    if min == q {
      assert RunsOn(c, end, e, k[e], states);
      FailLeads(c.m, states);
      LeadsThen(c.m, Conf(c, end, e, states), k[e], states, None, states);
    } else {
      var mid := states + [ExecState(GreedyState, q - min, e, p + 1, c.cap, c.stk)];
      assert RunsOn(c, end, e, k[e], mid);
      assert n * (q - min) == n * (q - min - 1) + n;
      assert forall j :: j in js[1..] ==> j in js;
      GiveBackRuns(c, p, end, n, e, q - min, k, states);
      LeadsThen(c.m, Conf(c, end, e, mid), k[e], mid, First(k, js[1..]), states);
    }
  }
}
