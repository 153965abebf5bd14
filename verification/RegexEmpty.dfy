/**
 An iteration that matched nothing, in libregexp.c and in section 21.2.2.5.1 of ECMA-262: a pattern on
 which they differ, one on which they agree although its loop can iterate over nothing, and one on
 which the matcher of libregexp.c does not end.
 */
module RegexEmpty {
  import opened Wrappers
  import opened RegexSyntax
  import opened RegexBytecode
  import opened RegexVm
  import opened RegexSim
  import opened RegexCorrect
  import opened RegexSearch
  import opened RegexProgram
  import opened RegexStandard
  import opened RegexAgrees

  const LRE_STICKY: byte := 32

  const LETTER_A: nat := 'a' as int

  /** `(?:|a)*` */
  const RELUCTANT := Repeat(Choice(Empty, Char(LETTER_A)), 0, INT32_MAX, true)

  /** `(?:a?)*` */
  const EAGER := Repeat(Repeat(Char(LETTER_A), 0, 1, true), 0, INT32_MAX, true)

  const JUST_A := Subject([LETTER_A], false)

  lemma OwnEnds()
    ensures Ends(JUST_A, RELUCTANT, false, 0) != [] && Ends(JUST_A, RELUCTANT, false, 0)[0] == 0
  {
    var body, s := Choice(Empty, Char(LETTER_A)), JUST_A;
    assert Ends(s, Char(LETTER_A), false, 0) == [1];
    assert Ends(s, body, false, 0) == [0, 1];
    var rest := IterateEach(s, body, 0, None, true, false, 0, [0, 1][1..]);
    assert IterateEach(s, body, 0, None, true, false, 0, [0, 1]) == [0] + rest;
    assert Iterate(s, body, 0, None, true, false, 0) == [0] + rest + [0];
  }

  lemma StandardEnds()
    ensures StdEnds(JUST_A, RELUCTANT, false, 0) == [1, 0]
  {
    var body, s := Choice(Empty, Char(LETTER_A)), JUST_A;
    assert StdEnds(s, Char(LETTER_A), false, 0) == [1];
    assert StdEnds(s, Char(LETTER_A), false, 1) == [];
    assert StdEnds(s, body, false, 0) == [0, 1];
    assert StdEnds(s, body, false, 1) == [1];
    assert [1][1..] == [];
    assert StdIterateEach(s, body, 0, None, true, false, 1, [1]) == [];
    assert StdIterate(s, body, 0, None, true, false, 1) == [1];
    assert [0, 1][1..] == [1];
    assert StdIterateEach(s, body, 0, None, true, false, 0, [1]) == [1];
    assert StdIterateEach(s, body, 0, None, true, false, 0, [0, 1]) == [1];
    assert StdIterate(s, body, 0, None, true, false, 0) == [1, 0];
  }

  /** Matching `(?:|a)*` against "a": the standard finds "a", the compiled program the empty string. */
  lemma EmptyIterationDiffers()
    ensures Parsed(RELUCTANT) && Loops(RELUCTANT) && !StandardLoops(RELUCTANT)
    ensures StdFirstMatch(JUST_A, RELUCTANT, true, 0) == Some((0, 1))
    ensures Evals(Machine(Program(RELUCTANT, true, LRE_STICKY, 1), JUST_A), Start(0), Result(Some((0, 0))))
  {
    hide Ends, StdEnds, Evals, Code;
    OwnEnds();
    StandardEnds();
    ReluctantShape();
    assert FirstMatch(JUST_A, RELUCTANT, true, 0) == Some((0, 0));
    ReluctantShort();
    ProgramFindsFirstMatch(RELUCTANT, true, LRE_STICKY, 1, JUST_A, 0);
  }

  lemma ReluctantShape()
    ensures Parsed(RELUCTANT) && Loops(RELUCTANT) && !StandardLoops(RELUCTANT)
  {
    var body := Choice(Empty, Char(LETTER_A));
    assert Parsed(Empty) && Parsed(Char(LETTER_A)) && Loops(Empty) && Loops(Char(LETTER_A)) && !Moves(Empty);
    assert Parsed(body);
    assert Loops(body);
    assert !Moves(body);
    assert !Settles(body);
  }

  lemma ReluctantShort()
    ensures Parsed(RELUCTANT) && |Program(RELUCTANT, true, LRE_STICKY, 1)| < TWO31
  {
    hide SimpleCount, ScanAdvance, SimpleGreedyCode;
    var body := Choice(Empty, Char(LETTER_A));
    assert Parsed(Char(LETTER_A)) && Parsed(body);
    assert |Code(Char(LETTER_A), false)| == 3;
    assert |Code(body, false)| == 13;
    RepeatShort(Code(body, false));
  }

  lemma RepeatShort(x: seq<byte>)
    requires |x| == 13
    ensures |RepeatCode(x, 0, INT32_MAX, true)| < 100
  {
    hide SimpleCount, ScanAdvance;
  }

  /** The body of `(?:a?)*` can match nothing, but only as its last choice. */
  lemma EagerIsStandard()
    ensures Parsed(EAGER) && StandardLoops(EAGER) && !Moves(EAGER.body)
  {
    assert Parsed(Char(LETTER_A)) && StandardLoops(Char(LETTER_A)) && Moves(Char(LETTER_A));
    assert Parsed(EAGER.body) && StandardLoops(EAGER.body) && Settles(EAGER.body);
  }

  const LETTER_B: nat := 'b' as int

  const LAZY := Repeat(Choice(Empty, Char(LETTER_A)), 0, INT32_MAX, false)

  /** `(?:|a)*?b` */
  const ENDLESS := Concat(LAZY, Char(LETTER_B))

  const A_THEN_B := Subject([LETTER_A, LETTER_B], false)

  lemma EndlessShape()
    ensures Parsed(ENDLESS) && !Loops(ENDLESS) && Parsed(LAZY) && !Loops(LAZY)
    ensures Parsed(LAZY.body) && Loops(LAZY.body) && Parsed(Char(LETTER_B)) && Loops(Char(LETTER_B))
  {
    assert Parsed(Empty) && Parsed(Char(LETTER_A)) && Loops(Empty) && Loops(Char(LETTER_A)) && !Moves(Empty);
    assert Parsed(LAZY.body) && Loops(LAZY.body) && !Moves(LAZY.body);
  }

  lemma EndlessSearch()
    ensures Parsed(ENDLESS) && SearchAt(A_THEN_B, ENDLESS, 0).Circles?
  {
    EndlessShape();
    var s, any := A_THEN_B, Anything(3);
    var k := Each(s, Char(LETTER_B), false, any);
    assert Ends(s, Char(LETTER_B), false, 0) == [];
    assert k[0] == Find(s, Char(LETTER_B), false, 0, any) == Fails;
    assert Ends(s, Char(LETTER_A), false, 0) == [1];
    assert Ends(s, LAZY.body, false, 0) == [0, 1];
    var kk := Onward(s, LAZY.body, 0, None, false, false, 0, k);
    assert Toward(s, false, 0, 0) && kk[0] == Circles;
    assert Pick(kk, [0, 1]).Circles?;
    assert Find(s, LAZY.body, false, 0, kk).Circles?;
    assert FindLoop(s, LAZY.body, 0, None, false, false, 0, k).Circles?;
    assert Bound(INT32_MAX) == None;
    assert Find(s, LAZY, false, 0, k) == FindLoop(s, LAZY.body, 0, None, false, false, 0, k);
    assert Find(s, ENDLESS, false, 0, any) == Find(s, LAZY, false, 0, k);
  }

  lemma StandardLazy()
    ensures StdEnds(A_THEN_B, LAZY, false, 0) == [0, 1]
  {
    var body, s := LAZY.body, A_THEN_B;
    assert StdEnds(s, Char(LETTER_A), false, 0) == [1] && StdEnds(s, Char(LETTER_A), false, 1) == [];
    assert StdEnds(s, body, false, 0) == [0, 1];
    assert StdEnds(s, body, false, 1) == [1];
    assert [1][1..] == [] && [0, 1][1..] == [1];
    assert StdIterateEach(s, body, 0, None, false, false, 1, [1]) == [];
    assert StdIterate(s, body, 0, None, false, false, 1) == [1];
    assert StdIterateEach(s, body, 0, None, false, false, 0, [1]) == [1];
    assert StdIterateEach(s, body, 0, None, false, false, 0, [0, 1]) == [1];
  }

  lemma StandardEndless()
    ensures StdEnds(A_THEN_B, ENDLESS, false, 0) == [2]
  {
    hide StdIterate;
    var s := A_THEN_B;
    StandardLazy();
    assert [1][1..] == [] && [0, 1][1..] == [1];
    assert StdEnds(s, Char(LETTER_B), false, 0) == [] && StdEnds(s, Char(LETTER_B), false, 1) == [2];
    assert StdEach(s, Char(LETTER_B), false, 0, [1]) == [2];
    assert StdEach(s, Char(LETTER_B), false, 0, [0, 1]) == [2];
  }

  lemma EndlessShort()
    ensures Parsed(ENDLESS) && |Program(ENDLESS, true, LRE_STICKY, 0)| < TWO31
  {
    hide SimpleCount, ScanAdvance;
    EndlessShape();
    assert Parsed(Char(LETTER_A));
    assert |Code(Char(LETTER_A), false)| == 3 && |Code(Char(LETTER_B), false)| == 3;
    assert |Code(LAZY.body, false)| == 13;
    assert |Code(LAZY, false)| == 23;
  }

  /** Matching `(?:|a)*?b` against "ab": the standard finds "ab", the compiled program never ends. */
  lemma NeverEnds(n: nat)
    ensures Parsed(ENDLESS)
    ensures StdFirstMatch(A_THEN_B, ENDLESS, true, 0) == Some((0, 2))
    ensures Eval(Machine(Program(ENDLESS, true, LRE_STICKY, 0), A_THEN_B), Start(0), n).None?
  {
    hide StdEnds, SearchAt, Code, FirstMatch, Program;
    EndlessShape();
    EndlessSearch();
    StandardEndless();
    EndlessShort();
    ProgramFindsFirstMatch(ENDLESS, true, LRE_STICKY, 0, A_THEN_B, 0);
  }
}
