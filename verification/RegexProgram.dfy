/**
 A whole compiled program: header, the loop over start positions, capture group 0 and the pattern.
 Running it finds the leftmost match that the specification prefers, and ends unless the search goes
 round in a circle.
 */
module RegexProgram {
  import opened Wrappers
  import opened RegexSyntax
  import opened RegexBytecode
  import opened RegexVm
  import opened RegexSim
  import opened RegexAtoms
  import opened RegexCorrect
  import opened RegexSearch
  import opened RegexTotal

  const LRE_FLAG_IGNORECASE := 2
  const LRE_FLAG_MULTILINE := 4
  const LRE_FLAG_DOTALL := 8
  const LRE_FLAG_UTF16 := 16
  const LRE_FLAG_STICKY := 32

  predicate IsSet(flags: byte, flag: nat)
    requires 0 < flag
  {
    (flags as int / flag) % 2 == 1
  }

  function Header(flags: byte, stackSize: byte, len: nat): (h: seq<byte>)
    ensures |h| == RE_HEADER_LEN
  {
    [flags, 1, stackSize] + U32(len)
  }

  /** Try here first, else skip one character and try again. */
  const SEARCH_LOOP: seq<byte> := Op32(OP_SPLIT_GOTO_FIRST, 6) + [OP_ANY] + Op32(OP_GOTO, -11)

  /** What lre_compile emits after the header. */
  function Body(r: Regex, sticky: bool): seq<byte>
    requires Parsed(r)
  {
    (if sticky then [] else SEARCH_LOOP) + [OP_SAVE_START, 0] + Code(r, false) + [OP_SAVE_END, 0] + [OP_MATCH]
  }

  function Program(r: Regex, sticky: bool, flags: byte, stackSize: byte): seq<byte>
    requires Parsed(r)
  {
    Header(flags, stackSize, |Body(r, sticky)|) + Body(r, sticky)
  }

  /** The leftmost start at or after `i`, with the first end that is tried there. */
  ghost function FirstMatch(s: Subject, r: Regex, sticky: bool, i: nat): (f: Option<(nat, nat)>)
    requires i <= |s.chars|
    decreases |s.chars| - i
  {
    var js := Ends(s, r, false, i);
    if js != [] then Some((i, js[0]))
    else if sticky || i == |s.chars| then None
    else FirstMatch(s, r, sticky, i + 1)
  }

  /** The first end at one start, if the search for it comes to an end. */
  ghost function SearchAt(s: Subject, r: Regex, i: nat): Search<nat>
    requires Parsed(r) && i <= |s.chars|
  {
    Find(s, r, false, i, Anything(|s.chars| + 1))
  }

  /** The same for the leftmost start at or after `i`. */
  ghost function FindMatch(s: Subject, r: Regex, sticky: bool, i: nat): Search<(nat, nat)>
    requires Parsed(r) && i <= |s.chars|
    decreases |s.chars| - i
  {
    match SearchAt(s, r, i)
    case Accepts(e) => Accepts((i, e))
    case Circles => Circles
    case Fails => if sticky || i == |s.chars| then Fails else FindMatch(s, r, sticky, i + 1)
  }

  /** A search that does not go round finds the first match. */
  lemma {:induction false} SearchFindsFirst(s: Subject, r: Regex, sticky: bool, i: nat)
    requires Parsed(r) && i <= |s.chars|
    ensures FindMatch(s, r, sticky, i).Circles? || FindMatch(s, r, sticky, i) == Tried(FirstMatch(s, r, sticky, i))
    decreases |s.chars| - i
  {
    hide Find, Ends;
    var all := seq(|s.chars| + 1, j requires 0 <= j => Some(j));
    var js := Ends(s, r, false, i);
    FindAgrees(s, r, false, i, Anything(|s.chars| + 1), all);
    if js != [] {
      assert js[0] in js;
      assert Toward(s, false, i, js[0]);
    }
    if !sticky && i < |s.chars| { SearchFindsFirst(s, r, sticky, i + 1); }
  }

  /** Where Loops holds, no search goes round. */
  lemma {:induction false} LoopsNeverCircle(s: Subject, r: Regex, sticky: bool, i: nat)
    requires Parsed(r) && Loops(r) && i <= |s.chars|
    ensures !FindMatch(s, r, sticky, i).Circles?
    decreases |s.chars| - i
  {
    hide Ends;
    PickNeverCircles(Anything(|s.chars| + 1), Ends(s, r, false, i));
    if !sticky && i < |s.chars| { LoopsNeverCircle(s, r, sticky, i + 1); }
  }

  ghost function Result(f: Option<(nat, nat)>): Outcome {
    if f.Some? then Some([Some(f.value.0), Some(f.value.1)]) else None
  }

  function Start(i: nat): Config {
    Running(Frame(RE_HEADER_LEN, i, [None, None], [], []))
  }

  ghost predicate CodeUnits(s: Subject) {
    forall k :: 0 <= k < |s.chars| ==> s.chars[k] < UINT32_MAX
  }

  lemma {:induction false} FinalMatch(m: Machine, cap: Captures, states: seq<ExecState>)
    requires Above(states, [])
    ensures Comes(m, Matched(cap, states), Over(Some(cap)))
    decreases |states|
  {
    if states == [] {
      assert Eval(m, Stopped(Some(cap)), 0) == Some(Some(cap));
    } else {
      assert IsChoice(states[|states| - 1]);
      FinalMatch(m, cap, states[..|states| - 1]);
    }
    ComesStep(m, Matched(cap, states), Over(Some(cap)));
  }

  /** `save_start 0` and `save_end 0` record the index. */
  lemma SaveRuns(c: Ctx, p: nat, i: nat, op: byte, k: Option<Fate>)
    requires op == OP_SAVE_START || op == OP_SAVE_END
    requires At(c.m.code, p, [op, 0]) && i <= |c.m.subject.chars| && |c.cap| == 2
    requires Runs(c.(cap := c.cap[(if op == OP_SAVE_START then 0 else 1) := Some(i)]), p + 2, i, k)
    ensures Runs(c, p, i, k)
  {
    var c' := c.(cap := c.cap[(if op == OP_SAVE_START then 0 else 1) := Some(i)]);
    var w := c.m.code[p..p + 2];
    assert c.m.code[p] == w[0] && c.m.code[p + 1] == w[1];
    forall states | Above(states, c.base) ensures RunsOn(c, p, i, k, states) {
      assert RunsOn(c', p + 2, i, k, states);
      assert Step(c.m, Conf(c, p, i, states)) == Conf(c', p + 2, i, states);
      LeadsStep(c.m, Conf(c, p, i, states), k, states);
    }
  }

  function Fresh(m: Machine): Ctx { Ctx(m, [None, None], [], []) }

  ghost predicate PatternAt(m: Machine, r: Regex, p: nat)
    requires Parsed(r)
  {
    At(m.code, p, [OP_SAVE_START, 0] + Code(r, false) + [OP_SAVE_END, 0] + [OP_MATCH])
  }

  /** The pattern at one start position. */
  lemma PatternRuns(m: Machine, r: Regex, p: nat, i: nat, n: nat)
    requires Parsed(r) && PatternAt(m, r, p)
    requires i <= |m.subject.chars| && |m.code| < TWO31 && CodeUnits(m.subject)
    ensures Runs(Fresh(m), p, i, AsFate(Mapped(SearchAt(m.subject, r, i), (e: nat) => Over(Some([Some(i), Some(e)]))), n))
  {
    hide Code, Find, Runs;
    var x := Code(r, false);
    AtSplit(m.code, p, [OP_SAVE_START, 0] + x + [OP_SAVE_END, 0], [OP_MATCH]);
    AtSplit(m.code, p, [OP_SAVE_START, 0] + x, [OP_SAVE_END, 0]);
    AtSplit(m.code, p, [OP_SAVE_START, 0], x);
    var c := Ctx(m, [Some(i), None], [], []);
    var end := p + 2 + |x|;
    var f := (e: nat) => Over(Some([Some(i), Some(e)]));
    var k := seq(|m.subject.chars| + 1, j requires 0 <= j => Accepts(f(j)));
    forall j: nat | Toward(m.subject, false, i, j) ensures Runs(c, end, j, AsFate(k[j], n)) {
      EndRuns(m, end, i, j);
    }
    FindRuns(c, r, false, p + 2, i, k, n);
    FindMapped(m.subject, r, false, i, Anything(|k|), k, f);
    assert [None, None][0 := Some(i)] == [Some(i), None];
    SaveRuns(Fresh(m), p, i, OP_SAVE_START, AsFate(Find(m.subject, r, false, i, k), n));
  }

  lemma EndRuns(m: Machine, p: nat, i: nat, j: nat)
    requires At(m.code, p, [OP_SAVE_END, 0]) && At(m.code, p + 2, [OP_MATCH]) && j <= |m.subject.chars|
    ensures Runs(Ctx(m, [Some(i), None], [], []), p, j, Some(Over(Some([Some(i), Some(j)]))))
  {
    var c := Ctx(m, [Some(i), None], [], []);
    var c' := Ctx(m, [Some(i), Some(j)], [], []);
    var o := Over(Some([Some(i), Some(j)]));
    AtOp(m.code, p + 2, OP_MATCH);
    forall states | Above(states, []) ensures RunsOn(c', p + 2, j, Some(o), states) {
      FinalMatch(m, c'.cap, states);
      assert Step(m, Conf(c', p + 2, j, states)) == Matched(c'.cap, states);
      ComesStep(m, Conf(c', p + 2, j, states), o);
    }
    assert c.cap[1 := Some(j)] == c'.cap;
    SaveRuns(c, p, j, OP_SAVE_END, Some(o));
  }

  function AsMatch(q: Search<(nat, nat)>): Search<Fate> {
    match q
    case Fails => Fails
    case Accepts(f) => Accepts(Over(Some([Some(f.0), Some(f.1)])))
    case Circles => Circles
  }

  lemma {:induction false} SearchRuns(m: Machine, r: Regex, p: nat, i: nat, n: nat)
    requires Parsed(r) && At(m.code, p, SEARCH_LOOP) && PatternAt(m, r, p + 11)
    requires i <= |m.subject.chars| && |m.code| < TWO31 && CodeUnits(m.subject)
    ensures Runs(Fresh(m), p, i, AsFate(AsMatch(FindMatch(m.subject, r, false, i)), n))
    decreases |m.subject.chars| - i
  {
    hide Code, SearchAt, Runs, Op32, PatternAt;
    var c := Fresh(m);
    AtSplit(m.code, p, Op32(OP_SPLIT_GOTO_FIRST, 6) + [OP_ANY], Op32(OP_GOTO, -11));
    AtSplit(m.code, p, Op32(OP_SPLIT_GOTO_FIRST, 6), [OP_ANY]);
    PatternRuns(m, r, p + 11, i, n);
    var next := if i < |m.subject.chars| then AsFate(AsMatch(FindMatch(m.subject, r, false, i + 1)), n) else None;
    AnyOp(m, p + 5, i);
    if i < |m.subject.chars| {
      SearchRuns(m, r, p, i + 1, n);
      GotoRuns(c, p + 6, i + 1, -11, next);
    }
    BasicRuns(c, p + 5, i, next);
    SplitRuns(c, p, i, false, 6, AsFate(Mapped(SearchAt(m.subject, r, i), (e: nat) => Over(Some([Some(i), Some(e)]))), n), next);
  }

  lemma AnyOp(m: Machine, p: nat, i: nat)
    requires At(m.code, p, [OP_ANY]) && i <= |m.subject.chars|
    ensures p < |m.code| && InstrSize(m.code, p) == 1
    ensures ExecBasic(m, p, i) == if i < |m.subject.chars| then Go(p + 1, i + 1) else Reject
  {
    AtOp(m.code, p, OP_ANY);
  }

  lemma ProgramRuns(r: Regex, sticky: bool, flags: byte, stackSize: byte, s: Subject, start: nat, n: nat)
    requires Parsed(r) && CodeUnits(s) && start <= |s.chars| && |Program(r, sticky, flags, stackSize)| < TWO31
    ensures Leads(Machine(Program(r, sticky, flags, stackSize), s), Start(start), AsFate(AsMatch(FindMatch(s, r, sticky, start)), n), [])
  {
    hide Code, SearchAt, Op32, SEARCH_LOOP;
    var m := Machine(Program(r, sticky, flags, stackSize), s);
    ProgramLayout(r, sticky, flags, stackSize);
    if sticky {
      PatternRuns(m, r, RE_HEADER_LEN, start, n);
    } else {
      SearchRuns(m, r, RE_HEADER_LEN, start, n);
    }
    assert Above([], []);
    assert RunsOn(Fresh(m), RE_HEADER_LEN, start, AsFate(AsMatch(FindMatch(s, r, sticky, start)), n), []);
  }

  /**
   lre_exec on the output of lre_compile: if the search goes round the run never ends; otherwise its
   result is the leftmost match at or after the start index, with the end that has the highest
   priority, or no match if there is none.
   */
  lemma ProgramFindsFirstMatch(r: Regex, sticky: bool, flags: byte, stackSize: byte, s: Subject, start: nat)
    requires Parsed(r) && CodeUnits(s) && start <= |s.chars| && |Program(r, sticky, flags, stackSize)| < TWO31
    ensures var m := Machine(Program(r, sticky, flags, stackSize), s);
      if FindMatch(s, r, sticky, start).Circles? then forall n: nat :: Eval(m, Start(start), n).None?
      else Evals(m, Start(start), Result(FirstMatch(s, r, sticky, start)))
  {
    hide Evals, FindMatch, FirstMatch, Program;
    var m := Machine(Program(r, sticky, flags, stackSize), s);
    if FindMatch(s, r, sticky, start).Circles? {
      forall n: nat ensures Eval(m, Start(start), n).None? { ProgramRuns(r, sticky, flags, stackSize, s, start, n); }
    } else {
      SearchFindsFirst(s, r, sticky, start);
      ProgramRuns(r, sticky, flags, stackSize, s, start, 0);
      NothingLeft(m);
    }
  }

  lemma NothingLeft(m: Machine)
    ensures Comes(m, Failing([]), Over(None))
  {
    assert Eval(m, Stopped(None), 0) == Some(None);
    EvalsStep(m, Failing([]), None);
  }

  /** The run ends exactly if the search does not go round. */
  lemma ProgramEnds(r: Regex, sticky: bool, flags: byte, stackSize: byte, s: Subject, start: nat)
    requires Parsed(r) && CodeUnits(s) && start <= |s.chars| && |Program(r, sticky, flags, stackSize)| < TWO31
    ensures (exists o :: Evals(Machine(Program(r, sticky, flags, stackSize), s), Start(start), o))
      <==> !FindMatch(s, r, sticky, start).Circles?
  {
    hide FindMatch, FirstMatch, Program;
    ProgramFindsFirstMatch(r, sticky, flags, stackSize, s, start);
  }

  lemma ProgramLayout(r: Regex, sticky: bool, flags: byte, stackSize: byte)
    requires Parsed(r)
    ensures sticky ==> PatternAt(Machine(Program(r, sticky, flags, stackSize), Subject([], false)), r, RE_HEADER_LEN)
    ensures !sticky ==>
      && At(Program(r, sticky, flags, stackSize), RE_HEADER_LEN, SEARCH_LOOP)
      && PatternAt(Machine(Program(r, sticky, flags, stackSize), Subject([], false)), r, RE_HEADER_LEN + 11)
  {
    hide Code, Header, U32;
    var prog := Program(r, sticky, flags, stackSize);
    var head := Header(flags, stackSize, |Body(r, sticky)|);
    var rest := [OP_SAVE_START, 0] + Code(r, false) + [OP_SAVE_END, 0] + [OP_MATCH];
    var loop := if sticky then [] else SEARCH_LOOP;
    assert Body(r, sticky) == loop + rest;
    assert At(prog, 0, head + (loop + rest));
    AtSplit(prog, 0, head, loop + rest);
    AtSplit(prog, RE_HEADER_LEN, loop, rest);
  }

  /** The outcome is unique, so the specification decides what lre_exec returns. */
  lemma OutcomeIsUnique(m: Machine, c: Config, o1: Outcome, o2: Outcome)
    requires Evals(m, c, o1) && Evals(m, c, o2)
    ensures o1 == o2
  {
    var f: nat :| Eval(m, c, f) == Some(o1);
    var g: nat :| Eval(m, c, g) == Some(o2);
    EvalUnique(m, c, f, g);
  }

  /** The bytes of the program for `a*`. */
  lemma StarProgram()
    ensures Parsed(Repeat(Char(0x61), 0, INT32_MAX, true))
    ensures Program(Repeat(Char(0x61), 0, INT32_MAX, true), false, 0, 0) ==
      [0, 1, 0, 37, 0, 0, 0]
      + [8, 6, 0, 0, 0, 4, 7, 0xf5, 0xff, 0xff, 0xff]
      + [11, 0] + ([28, 4, 0, 0, 0, 0, 0, 0, 0, 0xff, 0xff, 0xff, 0x7f, 1, 0, 0, 0] + [1, 0x61, 0] + [10]) + [12, 0] + [10]
  {
    var star := Repeat(Char(0x61), 0, INT32_MAX, true);
    StarBytes();
    SearchBytes();
    hide Code, SEARCH_LOOP;
    assert |Body(star, false)| == 37;
    assert U32(37) == [37, 0, 0, 0];
    assert Header(0, 0, 37) == [0, 1, 0, 37, 0, 0, 0];
  }

  lemma StarBytes()
    ensures Code(Repeat(Char(0x61), 0, INT32_MAX, true), false)
      == [28, 4, 0, 0, 0, 0, 0, 0, 0, 0xff, 0xff, 0xff, 0x7f, 1, 0, 0, 0] + [1, 0x61, 0] + [10]
  {
    var x := [1, 0x61, 0];
    assert Code(Char(0x61), false) == x;
    assert SimpleCount(x, 3, 1) == 1 && SimpleCount(x, 0, 0) == SimpleCount(x, 3, 1);
    assert SimpleGreedyOp(3, 0, INT32_MAX, 1) == [28, 4, 0, 0, 0, 0, 0, 0, 0, 0xff, 0xff, 0xff, 0x7f, 1, 0, 0, 0];
  }

  lemma SearchBytes()
    ensures SEARCH_LOOP == [8, 6, 0, 0, 0, 4, 7, 0xf5, 0xff, 0xff, 0xff]
  {
  }
}
