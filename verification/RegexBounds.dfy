/**
 Loops with an upper bound on which libregexp.c and section 21.2.2.5.1 of ECMA-262 differ: a greedy `?`, and a
 reluctant count; and a body for which it depends on the bound whether they do.
 */
module RegexBounds {
  import opened Wrappers
  import opened RegexSyntax
  import opened RegexBytecode
  import opened RegexVm
  import opened RegexSim
  import opened RegexCorrect
  import opened RegexSearch
  import opened RegexProgram
  import opened RegexStandard
  import opened RegexCounted
  import opened RegexAgrees
  import opened RegexEmpty

  // ---------------------------------------------------------------- `(?:|a)?`

  const NOTHING_OR_A := Choice(Empty, Char(LETTER_A))

  /** `(?:|a)?` */
  const OPTIONAL := Repeat(NOTHING_OR_A, 0, 1, true)

  lemma OptionalEnds()
    ensures Ends(JUST_A, OPTIONAL, false, 0) == [0, 1, 0] && StdEnds(JUST_A, OPTIONAL, false, 0) == [1, 0]
  {
    var s, b := JUST_A, NOTHING_OR_A;
    assert Ends(s, Char(LETTER_A), false, 0) == [1] && StdEnds(s, Char(LETTER_A), false, 0) == [1];
    assert Ends(s, b, false, 0) == [0, 1] && StdEnds(s, b, false, 0) == [0, 1];
    NoneLeft(s, b, true, false, 0);
    NoneLeft(s, b, true, false, 1);
    assert [0, 1][1..] == [1] && [1][1..] == [];
    assert IterateEach(s, b, 0, Some(1), true, false, 0, [1]) == [1];
    assert IterateEach(s, b, 0, Some(1), true, false, 0, [0, 1]) == [0, 1];
    assert StdIterateEach(s, b, 0, Some(1), true, false, 0, [1]) == [1];
    assert StdIterateEach(s, b, 0, Some(1), true, false, 0, [0, 1]) == [1];
    assert Iterate(s, b, 0, Some(1), true, false, 0) == [0, 1, 0];
    assert StdIterate(s, b, 0, Some(1), true, false, 0) == [1, 0];
  }

  lemma OptionalShape()
    ensures Parsed(OPTIONAL) && !StandardLoops(OPTIONAL) && |Program(OPTIONAL, true, LRE_STICKY, 1)| < TWO31
  {
    hide SimpleCount, ScanAdvance, SimpleGreedyCode;
    assert Parsed(Empty) && Parsed(Char(LETTER_A)) && !Moves(Empty);
    assert Parsed(NOTHING_OR_A) && !Moves(NOTHING_OR_A) && !Settles(NOTHING_OR_A);
    assert |Code(Char(LETTER_A), false)| == 3;
    assert |Code(NOTHING_OR_A, false)| == 13;
    OptionalShort(Code(NOTHING_OR_A, false));
  }

  lemma OptionalShort(x: seq<byte>)
    requires |x| == 13
    ensures |RepeatCode(x, 0, 1, true)| < 100
  {
    hide SimpleCount, ScanAdvance;
  }

  /** Matching `(?:|a)?` against "a": the standard finds "a", the compiled program the empty string. */
  lemma OptionalDiffers()
    ensures Parsed(OPTIONAL)
    ensures StdFirstMatch(JUST_A, OPTIONAL, true, 0) == Some((0, 1))
    ensures Evals(Machine(Program(OPTIONAL, true, LRE_STICKY, 1), JUST_A), Start(0), Result(Some((0, 0))))
  {
    hide Ends, StdEnds, Evals, Code, FindMatch, Program;
    OptionalEnds();
    OptionalShape();
    assert FirstMatch(JUST_A, OPTIONAL, true, 0) == Some((0, 0));
    ProgramFindsFirstMatch(OPTIONAL, true, LRE_STICKY, 1, JUST_A, 0);
    OptionalIsLoops();
    LoopsNeverCircle(JUST_A, OPTIONAL, true, 0);
  }

  lemma OptionalIsLoops()
    ensures Parsed(OPTIONAL) && Loops(OPTIONAL)
  {
    assert Parsed(Empty) && Parsed(Char(LETTER_A)) && Loops(Empty) && Loops(Char(LETTER_A));
    assert Parsed(NOTHING_OR_A) && Loops(NOTHING_OR_A);
  }

  // ---------------------------------------------------------------- `(?:|ab|a){0,2}?b`

  const AB := Concat(Char(LETTER_A), Char(LETTER_B))

  const NOTHING_AB_A := Choice(Empty, Choice(AB, Char(LETTER_A)))

  const AT_MOST_TWO := Repeat(NOTHING_AB_A, 0, 2, false)

  /** `(?:|ab|a){0,2}?b` */
  const COUNTED := Concat(AT_MOST_TWO, Char(LETTER_B))

  const ABAB := Subject([LETTER_A, LETTER_B, LETTER_A, LETTER_B], false)

  lemma LetterEnds(c: nat, i: nat)
    requires i <= 4
    ensures var js := if i < 4 && ABAB.chars[i] == c then [i + 1] else [];
      Ends(ABAB, Char(c), false, i) == js && StdEnds(ABAB, Char(c), false, i) == js
  {
  }

  /** A sequence of two that each match in one way at most. */
  lemma Sequence(s: Subject, a: Regex, b: Regex, i: nat, js: seq<nat>)
    requires i <= |s.chars| && Ends(s, a, false, i) == StdEnds(s, a, false, i)
    requires if Ends(s, a, false, i) == [] then js == []
      else i < |s.chars| && Ends(s, a, false, i) == [i + 1] && Ends(s, b, false, i + 1) == js == StdEnds(s, b, false, i + 1)
    ensures Ends(s, Concat(a, b), false, i) == js && StdEnds(s, Concat(a, b), false, i) == js
  {
    if Ends(s, a, false, i) != [] {
      var one := [i + 1];
      assert one[0] == i + 1 && one[1..] == [];
      assert EndsEach(s, b, false, i, []) == [] && StdEach(s, b, false, i, []) == [];
      assert Toward(s, false, i, i + 1);
      assert EndsEach(s, b, false, i, one) == js + [] && StdEach(s, b, false, i, one) == js + [];
    }
  }

  /** What the body offers: after "a" the other two choices, otherwise nothing. */
  lemma OfferEnds(i: nat)
    requires i <= 4
    ensures var js := if i == 0 || i == 2 then [i, i + 2, i + 1] else [i];
      Ends(ABAB, NOTHING_AB_A, false, i) == js && StdEnds(ABAB, NOTHING_AB_A, false, i) == js
  {
    var s := ABAB;
    LetterEnds(LETTER_A, i);
    if i == 0 || i == 2 {
      LetterEnds(LETTER_B, i + 1);
      Sequence(s, Char(LETTER_A), Char(LETTER_B), i, [i + 2]);
    } else {
      Sequence(s, Char(LETTER_A), Char(LETTER_B), i, []);
    }
    assert Ends(s, Empty, false, i) == [i] && StdEnds(s, Empty, false, i) == [i];
  }

  lemma OneIteration(i: nat)
    requires i == 0 || i == 2
    ensures Iterate(ABAB, NOTHING_AB_A, 0, Some(1), false, false, i) == [i, i, i + 2, i + 1]
    ensures StdIterate(ABAB, NOTHING_AB_A, 0, Some(1), false, false, i) == [i, i + 2, i + 1]
  {
    hide Ends, StdEnds, Iterate, StdIterate;
    var s, b, js := ABAB, NOTHING_AB_A, [i, i + 2, i + 1];
    OfferEnds(i);
    NoneLeft(s, b, false, false, i);
    NoneLeft(s, b, false, false, i + 1);
    NoneLeft(s, b, false, false, i + 2);
    assert js[1..] == [i + 2, i + 1] && js[1..][1..] == [i + 1] && [i + 1][1..] == [];
    assert IterateEach(s, b, 0, Some(1), false, false, i, [i + 1]) == [i + 1];
    assert IterateEach(s, b, 0, Some(1), false, false, i, js[1..]) == [i + 2, i + 1];
    assert IterateEach(s, b, 0, Some(1), false, false, i, js) == js;
    assert StdIterateEach(s, b, 0, Some(1), false, false, i, [i + 1]) == [i + 1];
    assert StdIterateEach(s, b, 0, Some(1), false, false, i, js[1..]) == [i + 2, i + 1];
    assert StdIterateEach(s, b, 0, Some(1), false, false, i, js) == [i + 2, i + 1];
    Unfolded(s, b, 1, i);
  }

  lemma NoneHere()
    ensures Iterate(ABAB, NOTHING_AB_A, 0, Some(1), false, false, 1) == [1, 1]
    ensures StdIterate(ABAB, NOTHING_AB_A, 0, Some(1), false, false, 1) == [1]
  {
    hide Ends, StdEnds, Iterate, StdIterate;
    var s, b := ABAB, NOTHING_AB_A;
    OfferEnds(1);
    NoneLeft(s, b, false, false, 1);
    assert [1][1..] == [];
    assert IterateEach(s, b, 0, Some(1), false, false, 1, [1]) == [1];
    assert StdIterateEach(s, b, 0, Some(1), false, false, 1, [1]) == [];
    Unfolded(s, b, 1, 1);
  }

  lemma Unfolded(s: Subject, b: Regex, n: nat, i: nat)
    requires 0 < n && i <= |s.chars|
    ensures Iterate(s, b, 0, Some(n), false, false, i) == [i] + IterateEach(s, b, 0, Some(n), false, false, i, Ends(s, b, false, i))
    ensures StdIterate(s, b, 0, Some(n), false, false, i) == [i] + StdIterateEach(s, b, 0, Some(n), false, false, i, StdEnds(s, b, false, i))
  {
  }

  lemma TwoIterations()
    ensures Ends(ABAB, AT_MOST_TWO, false, 0) == [0, 0, 0, 2, 1, 2, 2, 4, 3, 1, 1]
    ensures StdEnds(ABAB, AT_MOST_TWO, false, 0) == [0, 2, 4, 3, 1]
  {
    hide Ends, StdEnds, Iterate, StdIterate;
    LoopOf(ABAB);
    Unfolded(ABAB, NOTHING_AB_A, 2, 0);
    OfferEnds(0);
    OneIteration(0);
    OneIteration(2);
    NoneHere();
    OwnTwice();
    StandardTwice();
  }

  lemma OwnTwice()
    requires Iterate(ABAB, NOTHING_AB_A, 0, Some(1), false, false, 0) == [0, 0, 2, 1]
    requires Iterate(ABAB, NOTHING_AB_A, 0, Some(1), false, false, 2) == [2, 2, 4, 3]
    requires Iterate(ABAB, NOTHING_AB_A, 0, Some(1), false, false, 1) == [1, 1]
    ensures IterateEach(ABAB, NOTHING_AB_A, 0, Some(2), false, false, 0, [0, 2, 1]) == [0, 0, 2, 1, 2, 2, 4, 3, 1, 1]
  {
    hide Ends, Iterate;
    var s, b, js := ABAB, NOTHING_AB_A, [0, 2, 1];
    assert js[1..] == [2, 1] && js[1..][1..] == [1] && [1][1..] == [];
    assert IterateEach(s, b, 0, Some(2), false, false, 0, [1]) == [1, 1];
    assert IterateEach(s, b, 0, Some(2), false, false, 0, js[1..]) == [2, 2, 4, 3] + [1, 1];
    assert IterateEach(s, b, 0, Some(2), false, false, 0, js) == [0, 0, 2, 1] + ([2, 2, 4, 3] + [1, 1]);
  }

  lemma StandardTwice()
    requires StdIterate(ABAB, NOTHING_AB_A, 0, Some(1), false, false, 2) == [2, 4, 3]
    requires StdIterate(ABAB, NOTHING_AB_A, 0, Some(1), false, false, 1) == [1]
    ensures StdIterateEach(ABAB, NOTHING_AB_A, 0, Some(2), false, false, 0, [0, 2, 1]) == [2, 4, 3, 1]
  {
    hide StdEnds, StdIterate;
    var s, b, js := ABAB, NOTHING_AB_A, [0, 2, 1];
    assert js[1..] == [2, 1] && js[1..][1..] == [1] && [1][1..] == [];
    assert StdIterateEach(s, b, 0, Some(2), false, false, 0, [1]) == [1];
    assert StdIterateEach(s, b, 0, Some(2), false, false, 0, js[1..]) == [2, 4, 3] + [1];
    assert StdIterateEach(s, b, 0, Some(2), false, false, 0, js) == [2, 4, 3] + [1];
  }

  lemma LoopOf(s: Subject)
    ensures Ends(s, AT_MOST_TWO, false, 0) == Iterate(s, NOTHING_AB_A, 0, Some(2), false, false, 0)
    ensures StdEnds(s, AT_MOST_TWO, false, 0) == StdIterate(s, NOTHING_AB_A, 0, Some(2), false, false, 0)
  {
    hide Iterate, StdIterate;
  }

  /** The first candidate that is followed by `c`. */
  lemma {:induction false} HeadOfEach(c: nat, js: seq<nat>, x: nat)
    requires x < |js| && (forall z :: 0 <= z < |js| ==> js[z] <= 4) && js[x] < 4 && ABAB.chars[js[x]] == c
    requires forall z :: 0 <= z < x ==> js[z] < 4 ==> ABAB.chars[js[z]] != c
    ensures EndsEach(ABAB, Char(c), false, 0, js) != [] && EndsEach(ABAB, Char(c), false, 0, js)[0] == js[x] + 1
    ensures StdEach(ABAB, Char(c), false, 0, js) != [] && StdEach(ABAB, Char(c), false, 0, js)[0] == js[x] + 1
  {
    LetterEnds(c, js[0]);
    if x != 0 { HeadOfEach(c, js[1..], x - 1); }
  }

  lemma CountedEnds()
    ensures Ends(ABAB, COUNTED, false, 0) != [] && Ends(ABAB, COUNTED, false, 0)[0] == 2
    ensures StdEnds(ABAB, COUNTED, false, 0) != [] && StdEnds(ABAB, COUNTED, false, 0)[0] == 4
  {
    hide EndsEach, StdEach, Iterate, StdIterate;
    TwoIterations();
    HeadOfEach(LETTER_B, Ends(ABAB, AT_MOST_TWO, false, 0), 4);
    HeadOfEach(LETTER_B, StdEnds(ABAB, AT_MOST_TWO, false, 0), 3);
    Concatenated();
  }

  lemma Concatenated()
    ensures Ends(ABAB, COUNTED, false, 0) == EndsEach(ABAB, Char(LETTER_B), false, 0, Ends(ABAB, AT_MOST_TWO, false, 0))
    ensures StdEnds(ABAB, COUNTED, false, 0) == StdEach(ABAB, Char(LETTER_B), false, 0, StdEnds(ABAB, AT_MOST_TWO, false, 0))
  {
    hide EndsEach, StdEach, Iterate, StdIterate;
  }

  lemma CountedShape()
    ensures Parsed(COUNTED) && Loops(COUNTED) && |Program(COUNTED, true, LRE_STICKY, 1)| < TWO31
  {
    hide SimpleCount, ScanAdvance, SimpleGreedyCode;
    assert Parsed(Empty) && Parsed(Char(LETTER_A)) && Parsed(Char(LETTER_B)) && Loops(Empty) && Loops(Char(LETTER_A)) && Loops(Char(LETTER_B));
    assert Parsed(AB) && Loops(AB);
    assert Parsed(Choice(AB, Char(LETTER_A))) && Loops(Choice(AB, Char(LETTER_A)));
    assert Parsed(NOTHING_AB_A) && Loops(NOTHING_AB_A);
    assert |Code(Char(LETTER_A), false)| == 3 && |Code(Char(LETTER_B), false)| == 3;
    assert |Code(AB, false)| == 6;
    assert |Code(Choice(AB, Char(LETTER_A)), false)| == 19;
    assert |Code(NOTHING_AB_A, false)| == 29;
    CountedShort(Code(NOTHING_AB_A, false));
    assert |Code(AT_MOST_TWO, false)| < 100;
  }

  lemma CountedShort(x: seq<byte>)
    requires |x| == 29
    ensures |RepeatCode(x, 0, 2, false)| < 100
  {
    hide SimpleCount, ScanAdvance;
  }

  /** Matching `(?:|ab|a){0,2}?b` against "abab": the standard finds "abab", the compiled program "ab". */
  lemma ReluctantCountDiffers()
    ensures Parsed(COUNTED)
    ensures StdFirstMatch(ABAB, COUNTED, true, 0) == Some((0, 4))
    ensures Evals(Machine(Program(COUNTED, true, LRE_STICKY, 1), ABAB), Start(0), Result(Some((0, 2))))
  {
    hide Ends, StdEnds, Evals, Code, FindMatch, Program;
    CountedEnds();
    CountedShape();
    assert FirstMatch(ABAB, COUNTED, true, 0) == Some((0, 2));
    ProgramFindsFirstMatch(COUNTED, true, LRE_STICKY, 1, ABAB, 0);
    LoopsNeverCircle(ABAB, COUNTED, true, 0);
  }

  // ---------------------------------------------------------------- the bound matters

  const AA := Concat(Char(LETTER_A), Char(LETTER_A))

  /** `a||aa` */
  const A_NOTHING_AA := Choice(Char(LETTER_A), Choice(Empty, AA))

  const TWO_A := Subject([LETTER_A, LETTER_A], false)

  lemma MiddleEnds(i: nat)
    requires i <= 2
    ensures var js := if i == 0 then [1, 0, 2] else if i == 1 then [2, 1] else [2];
      Ends(TWO_A, A_NOTHING_AA, false, i) == js && StdEnds(TWO_A, A_NOTHING_AA, false, i) == js
  {
    var s, a := TWO_A, Char(LETTER_A);
    assert Ends(s, a, false, i) == (if i < 2 then [i + 1] else []) && StdEnds(s, a, false, i) == Ends(s, a, false, i);
    assert Ends(s, Empty, false, i) == [i] && StdEnds(s, Empty, false, i) == [i];
    if i < 2 {
      assert Ends(s, a, false, i + 1) == (if i == 0 then [2] else []) && StdEnds(s, a, false, i + 1) == Ends(s, a, false, i + 1);
    }
    Sequence(s, a, a, i, if i == 0 then [2] else []);
  }

  lemma MiddleAgrees()
    ensures BodyAgrees(TWO_A, A_NOTHING_AA, false)
  {
    hide Ends, StdEnds;
    forall j | 0 <= j <= 2 ensures Same(3, Ends(TWO_A, A_NOTHING_AA, false, j), StdEnds(TWO_A, A_NOTHING_AA, false, j)) {
      MiddleEnds(j);
    }
  }

  /** On "aa" the star over `a||aa` agrees with the standard, the greedy `?` over it does not. */
  lemma BoundMatters()
    ensures LoopAgrees(TWO_A, A_NOTHING_AA, true, false)
    ensures !CountedAgree(TWO_A, A_NOTHING_AA, 1, true, false)
  {
    hide Ends, StdEnds, StdIterate, Iterate, LoopAgrees, CountedAgree, BodyAgrees;
    var s, r := TWO_A, A_NOTHING_AA;
    MiddleAgrees();
    MiddleEnds(0);
    MiddleEnds(1);
    MiddleEnds(2);
    StdReachesEnd();
    forall i | 0 <= i <= 2 ensures NothingNew(s, r, true, false, i) {
      var js := StdEnds(s, r, false, i);
      forall p, q | 0 <= p < q < |js| && js[p] == i && i !in js[..p] && js[q] != i ensures Reached(s, r, true, false, js[..p], js[q]) {
        assert js[..1][0] == 1;
      }
    }
    GreedyLoopAgrees(s, r, false);
    OptionalLoopAgrees(s, r, false);
    var js := StdEnds(s, r, false, 0);
    assert js[1] == 0 && 0 !in js[..1] && js[2] !in js[..1];
    assert !NothingLater(s, r, false, 0);
  }

  lemma StdReachesEnd()
    ensures 2 in StdIterate(TWO_A, A_NOTHING_AA, 0, None, true, false, 1)
  {
    hide StdEnds, StdIterate;
    var s, r := TWO_A, A_NOTHING_AA;
    MiddleEnds(1);
    StdStop(s, r, None, true, false, 2);
    StdIterateEachHas(s, r, 0, None, true, false, 1, [2, 1], 2, 2);
    GreedyUnfolded(s, r, 1);
  }

  lemma GreedyUnfolded(s: Subject, r: Regex, i: nat)
    requires i <= |s.chars|
    ensures StdIterate(s, r, 0, None, true, false, i) == StdIterateEach(s, r, 0, None, true, false, i, StdEnds(s, r, false, i)) + [i]
  {
  }
}
