/**
 A condition on the syntax under which libregexp.c matches as section 21.2.2 of ECMA-262 says: in the loops
 for which it matters, an empty match of the body is the last thing that the body offers.
 */
module RegexAgrees {
  import opened Wrappers
  import opened RegexSyntax
  import opened RegexBytecode
  import opened RegexVm
  import opened RegexSim
  import opened RegexCorrect
  import opened RegexProgram
  import opened RegexStandard
  import opened RegexCounted

  /** The first `i` in the list is at `p`, and everything else is before it. */
  ghost predicate EmptyLast(js: seq<nat>, i: nat, p: nat) {
    p < |js| && js[p] == i && i !in js[..p] && forall e :: e in js ==> e == i || e in js[..p]
  }

  ghost predicate Settled(js: seq<nat>, i: nat) {
    i in js ==> exists p: nat :: EmptyLast(js, i, p)
  }

  // ------------------------------------------------------- lists of candidates

  ghost function Bind(js: seq<nat>, f: nat -> seq<nat>): seq<nat> {
    if js == [] then [] else f(js[0]) + Bind(js[1..], f)
  }

  lemma {:induction false} BindAppend(a: seq<nat>, b: seq<nat>, f: nat -> seq<nat>)
    ensures Bind(a + b, f) == Bind(a, f) + Bind(b, f)
  {
    if a == [] {
      assert a + b == b;
    } else {
      assert (a + b)[1..] == a[1..] + b;
      BindAppend(a[1..], b, f);
    }
  }

  lemma {:induction false} BindFrom(js: seq<nat>, f: nat -> seq<nat>, e: nat) returns (j: nat)
    requires e in Bind(js, f)
    ensures j in js && e in f(j)
  {
    if e in f(js[0]) { j := js[0]; } else { j := BindFrom(js[1..], f, e); }
  }

  lemma {:induction false} BindHas(js: seq<nat>, f: nat -> seq<nat>, j: nat, e: nat)
    requires j in js && e in f(j)
    ensures e in Bind(js, f)
  {
    if js[0] != j { BindHas(js[1..], f, j, e); }
  }

  /** Continuing a settled list with moving candidates, and a settled list at the empty match. */
  lemma BindSettled(s: Subject, back: bool, i: nat, js: seq<nat>, f: nat -> seq<nat>)
    requires i <= |s.chars| && (forall j :: j in js ==> Toward(s, back, i, j))
    requires forall j, e :: j in js && e in f(j) ==> Toward(s, back, j, e)
    requires Settled(js, i) && Settled(f(i), i)
    ensures Settled(Bind(js, f), i)
  {
    if i in Bind(js, f) {
      var j := BindFrom(js, f, i);
      assert Toward(s, back, i, j) && Toward(s, back, j, i);
      var x: nat :| EmptyLast(js, i, x);
      var y: nat :| EmptyLast(f(i), i, y);
      BindLast(s, back, i, js, f, x, y);
    }
  }

  lemma BindLast(s: Subject, back: bool, i: nat, js: seq<nat>, f: nat -> seq<nat>, x: nat, y: nat)
    requires i <= |s.chars| && (forall j :: j in js ==> Toward(s, back, i, j))
    requires forall j, e :: j in js && e in f(j) ==> Toward(s, back, j, e)
    requires EmptyLast(js, i, x) && EmptyLast(f(i), i, y)
    ensures EmptyLast(Bind(js, f), i, |Bind(js[..x], f)| + y)
  {
    var pre, post := js[..x], js[x + 1..];
    var a, b, d := Bind(pre, f), f(i), Bind(post, f);
    assert js == pre + ([i] + post);
    BindAppend(pre, [i] + post, f);
    BindAppend([i], post, f);
    assert [i][1..] == [];
    assert Bind([i], f) == b + Bind([], f) == b;
    assert Bind(js, f) == a + (b + d);
    forall e | e in a ensures e != i {
      var j := BindFrom(pre, f, e);
      assert j in js;
      assert Toward(s, back, i, j) && Toward(s, back, j, e);
    }
    var front := a + b[..y];
    assert Bind(js, f)[..|a| + y] == front;
    forall e | e in Bind(js, f) ensures e == i || e in front {
      if e in d {
        var j := BindFrom(post, f, e);
        assert j in js;
        if j != i { BindHas(pre, f, j, e); }
      }
    }
  }

  lemma {:induction false} EachIsBind(s: Subject, r: Regex, back: bool, i: nat, js: seq<nat>, f: nat -> seq<nat>)
    requires forall j :: j in js ==> Toward(s, back, i, j)
    requires forall j :: 0 <= j <= |s.chars| ==> f(j) == StdEnds(s, r, back, j)
    ensures StdEach(s, r, back, i, js) == Bind(js, f)
  {
    if js != [] {
      assert Toward(s, back, i, js[0]);
      EachIsBind(s, r, back, i, js[1..], f);
    }
  }

  lemma {:induction false} IterateEachIsBind(s: Subject, r: Regex, min: nat, max: Option<nat>, greedy: bool, back: bool, i: nat, js: seq<nat>, f: nat -> seq<nat>)
    requires i <= |s.chars| && 0 < min && (forall j :: j in js ==> Toward(s, back, i, j))
    requires forall j :: 0 <= j <= |s.chars| ==> f(j) == StdIterate(s, r, min - 1, Lower(max), greedy, back, j)
    ensures StdIterateEach(s, r, min, max, greedy, back, i, js) == Bind(js, f)
  {
    if js != [] {
      assert Toward(s, back, i, js[0]);
      IterateEachIsBind(s, r, min, max, greedy, back, i, js[1..], f);
    }
  }

  // ---------------------------------------------------------- the syntax decides

  /** An empty match, if the expression has one, is the last thing it offers. */
  predicate Settles(r: Regex) {
    match r
    case Concat(a, b) => Settles(a) && Settles(b)
    case Choice(a, b) => if Moves(a) then Settles(b) else Moves(r)
    case Repeat(body, min, max, greedy) =>
      Moves(r) || ((greedy || (min == max && max < INT32_MAX)) && (min == 0 || Settles(body)))
    case _ => true
  }

  lemma {:induction false} StdMoves(s: Subject, r: Regex, back: bool, i: nat)
    requires i <= |s.chars| && Moves(r)
    ensures i !in StdEnds(s, r, back, i)
    decreases r, 0
  {
    match r
    case Concat(a, b) =>
      var x, y := if back then b else a, if back then a else b;
      if Moves(x) { StdMoves(s, x, back, i); }
      StdEachMoves(s, y, back, i, StdEnds(s, x, back, i));
    case Choice(a, b) =>
      StdMoves(s, a, back, i);
      StdMoves(s, b, back, i);
    case Repeat(body, min, max, greedy) =>
      StdMoves(s, body, back, i);
      StdIterateEachMoves(s, body, min, Bound(max), greedy, back, i, StdEnds(s, body, back, i));
    case _ => MovesSound(s, r, back, i);
  }

  lemma {:induction false} StdEachMoves(s: Subject, r: Regex, back: bool, i: nat, js: seq<nat>)
    requires i <= |s.chars|
    requires forall j :: j in js ==> Toward(s, back, i, j)
    requires Moves(r) || i !in js
    ensures i !in StdEach(s, r, back, i, js)
    decreases r, 1, |js|
  {
    if js != [] {
      assert Toward(s, back, i, js[0]);
      if js[0] == i { StdMoves(s, r, back, i); }
      StdEachMoves(s, r, back, i, js[1..]);
    }
  }

  lemma {:induction false} StdIterateEachMoves(s: Subject, r: Regex, min: nat, max: Option<nat>, greedy: bool, back: bool, i: nat, js: seq<nat>)
    requires i <= |s.chars|
    requires forall j :: j in js ==> Toward(s, back, i, j) && (j != i || min == 0)
    ensures i !in StdIterateEach(s, r, min, max, greedy, back, i, js)
  {
    if js != [] {
      assert Toward(s, back, i, js[0]);
      StdIterateEachMoves(s, r, min, max, greedy, back, i, js[1..]);
    }
  }

  lemma Alone(i: nat)
    ensures EmptyLast([i], i, 0)
  {
  }

  lemma {:induction false} SettlesSound(s: Subject, r: Regex, back: bool, i: nat)
    requires i <= |s.chars| && (Settles(r) || Moves(r))
    ensures Settled(StdEnds(s, r, back, i), i)
    decreases r, 1, 0
  {
    Alone(i);
    if Moves(r) {
      StdMoves(s, r, back, i);
    } else {
      match r
      case Concat(a, b) =>
        var x, y := if back then b else a, if back then a else b;
        var f := (j: nat) => if j <= |s.chars| then StdEnds(s, y, back, j) else [];
        SettlesSound(s, x, back, i);
        SettlesSound(s, y, back, i);
        EachIsBind(s, y, back, i, StdEnds(s, x, back, i), f);
        BindSettled(s, back, i, StdEnds(s, x, back, i), f);
      case Choice(a, b) =>
        StdMoves(s, a, back, i);
        SettlesSound(s, b, back, i);
        AfterMoving(StdEnds(s, a, back, i), StdEnds(s, b, back, i), i);
      case Repeat(body, min, max, greedy) =>
        IterateSettles(s, body, min, Bound(max), greedy, back, i);
      case _ =>
    }
  }

  lemma AfterMoving(a: seq<nat>, b: seq<nat>, i: nat)
    requires i !in a && Settled(b, i)
    ensures Settled(a + b, i)
  {
    if i in b {
      var p: nat :| EmptyLast(b, i, p);
      assert (a + b)[..|a| + p] == a + b[..p];
      assert EmptyLast(a + b, i, |a| + p);
    }
  }

  lemma {:induction false} IterateSettles(s: Subject, r: Regex, min: nat, max: Option<nat>, greedy: bool, back: bool, i: nat)
    requires i <= |s.chars| && (min == 0 || Settles(r) || Moves(r)) && (greedy || max == Some(min))
    ensures Settled(StdIterate(s, r, min, max, greedy, back, i), i)
    decreases r, 2, min
  {
    hide StdEnds, StdIterateEach, EmptyLast, Settles, Moves;
    Alone(i);
    if max != Some(0) {
      var js := StdEnds(s, r, back, i);
      if min == 0 {
        StdIterateEachMoves(s, r, 0, max, greedy, back, i, js);
        AfterMoving(StdIterateEach(s, r, 0, max, greedy, back, i, js), [i], i);
      } else {
        var f := (j: nat) => if j <= |s.chars| then StdIterate(s, r, min - 1, Lower(max), greedy, back, j) else [];
        SettlesSound(s, r, back, i);
        IterateSettles(s, r, min - 1, Lower(max), greedy, back, i);
        IterateEachIsBind(s, r, min, max, greedy, back, i, js, f);
        BindSettled(s, back, i, js, f);
      }
    }
  }

  /** A settled body offers nothing new after an empty match. */
  lemma SettledNothingNew(s: Subject, r: Regex, greedy: bool, back: bool, i: nat)
    requires i <= |s.chars| && Settled(StdEnds(s, r, back, i), i)
    ensures NothingNew(s, r, greedy, back, i)
  {
    hide StdIterate, StdEnds;
    var js := StdEnds(s, r, back, i);
    forall p, q | 0 <= p < q < |js| && js[p] == i && i !in js[..p] && js[q] != i ensures Reached(s, r, greedy, back, js[..p], js[q]) {
      var x: nat :| EmptyLast(js, i, x);
      assert x == p;
      assert js[q] in js;
      var a :| 0 <= a < p && js[..p][a] == js[q];
      assert Toward(s, back, i, js[q]);
      StdStop(s, r, None, greedy, back, js[q]);
    }
  }

  /** Likewise nothing later than the empty match was not offered before. */
  lemma SettledNothingLater(s: Subject, r: Regex, back: bool, i: nat)
    requires i <= |s.chars| && Settled(StdEnds(s, r, back, i), i)
    ensures NothingLater(s, r, back, i)
  {
    hide StdEnds;
    var js := StdEnds(s, r, back, i);
    forall p, q | 0 <= p < q < |js| && js[p] == i && i !in js[..p] && js[q] != i ensures js[q] in js[..p] {
      var x: nat :| EmptyLast(js, i, x);
      assert x == p;
      assert js[q] in js;
    }
  }

  /** A reluctant loop with at most one optional iteration, or with no bound, needs no condition on its body. */
  predicate NeedsSettled(min: nat, max: Option<nat>, greedy: bool) {
    if greedy then max != Some(min) else max.Some? && min + 1 < max.value
  }

  /** Where the standard and libregexp.c agree, as far as libregexp.c ends. */
  predicate StandardLoops(r: Regex) {
    match r
    case Concat(a, b) => StandardLoops(a) && StandardLoops(b)
    case Choice(a, b) => StandardLoops(a) && StandardLoops(b)
    case Look(_, _, body) => StandardLoops(body)
    case Repeat(body, min, max, greedy) =>
      StandardLoops(body) && (NeedsSettled(min, Bound(max), greedy) ==> Settles(body) || Moves(body))
    case _ => true
  }

  // ------------------------------------------------------------- the agreement

  /** Loops with the same body agree. */
  lemma {:induction false} IterateAgrees(s: Subject, r: Regex, min: nat, max: Option<nat>, greedy: bool, back: bool, i: nat, k: seq<Option<nat>>)
    requires |k| == |s.chars| + 1 && i < |k| && BodyAgrees(s, r, back)
    requires NeedsSettled(min, max, greedy) ==> Settles(r) || Moves(r)
    requires max.Some? ==> min <= max.value
    ensures First(k, Iterate(s, r, min, max, greedy, back, i)) == First(k, StdIterate(s, r, min, max, greedy, back, i))
    decreases min
  {
    hide StdEnds, StdIterate, Ends, Iterate, Settled, Settles, Moves, BodyAgrees;
    if max == Some(0) {
      NoneLeft(s, r, greedy, back, i);
    } else if min == 0 {
      OptionalAgrees(s, r, max, greedy, back, i, k);
    } else {
      var js := StdEnds(s, r, back, i);
      OwnRound(s, r, min, max, greedy, back, i, k);
      StdRound(s, r, min, max, greedy, back, i, k);
      BodyAgreesAt(s, r, back, i);
      var a, own := StdAgain(s, r, min, max, greedy, back, i, k), Again(s, r, min, max, greedy, back, i, k);
      forall j | 0 <= j < |k| ensures own[j] == a[j] {
        IterateAgrees(s, r, min - 1, Lower(max), greedy, back, j, k);
      }
      assert own == a;
    }
  }

  lemma BodyAgreesAt(s: Subject, r: Regex, back: bool, i: nat)
    requires BodyAgrees(s, r, back) && i <= |s.chars|
    ensures Same(|s.chars| + 1, Ends(s, r, back, i), StdEnds(s, r, back, i))
  {
  }

  lemma OptionalAgrees(s: Subject, r: Regex, max: Option<nat>, greedy: bool, back: bool, i: nat, k: seq<Option<nat>>)
    requires |k| == |s.chars| + 1 && i < |k| && BodyAgrees(s, r, back) && max != Some(0)
    requires NeedsSettled(0, max, greedy) ==> Settles(r) || Moves(r)
    ensures First(k, Iterate(s, r, 0, max, greedy, back, i)) == First(k, StdIterate(s, r, 0, max, greedy, back, i))
  {
    hide StdEnds, StdIterate, Ends, Iterate, Settled, Settles, Moves, BodyAgrees, NothingLater, NothingNew;
    if NeedsSettled(0, max, greedy) {
      forall j | 0 <= j <= |s.chars| ensures NothingLater(s, r, back, j) && NothingNew(s, r, greedy, back, j) {
        SettlesSound(s, r, back, j);
        SettledNothingLater(s, r, back, j);
        SettledNothingNew(s, r, greedy, back, j);
      }
      if max.Some? {
        CountedChain(s, r, max.value, greedy, back);
      } else {
        LoopAgreesAt(s, r, back, i, k);
      }
    } else if max.Some? {
      ReluctantOptionalAgrees(s, r, back);
    } else {
      ReluctantAgrees(s, r, back, i, k);
    }
    if max.Some? { assert Same(|s.chars| + 1, Iterate(s, r, 0, max, greedy, back, i), StdIterate(s, r, 0, max, greedy, back, i)); }
  }

  /** For every continuation, libregexp.c and the standard find the same. */
  lemma {:induction false} EndsAgree(s: Subject, r: Regex, back: bool, i: nat, k: seq<Option<nat>>)
    requires |k| == |s.chars| + 1 && i < |k| && Parsed(r) && StandardLoops(r)
    ensures First(k, Ends(s, r, back, i)) == First(k, StdEnds(s, r, back, i))
    decreases r, 0
  {
    match r
    case Concat(a, b) =>
      var x, y := if back then b else a, if back then a else b;
      FirstEach(s, y, back, i, Ends(s, x, back, i), k);
      StdFirstEach(s, y, back, i, StdEnds(s, x, back, i), k);
      forall j | 0 <= j < |k| ensures Then(s, y, back, k)[j] == StdThen(s, y, back, k)[j] { EndsAgree(s, y, back, j, k); }
      assert Then(s, y, back, k) == StdThen(s, y, back, k);
      EndsAgree(s, x, back, i, Then(s, y, back, k));
    case Choice(a, b) =>
      FirstAppend(k, Ends(s, a, back, i), Ends(s, b, back, i));
      FirstAppend(k, StdEnds(s, a, back, i), StdEnds(s, b, back, i));
      EndsAgree(s, a, back, i, k);
      EndsAgree(s, b, back, i, k);
    case Look(negated, behind, body) =>
      EmptyAgrees(s, body, behind, i);
    case Repeat(body, min, max, greedy) =>
      forall j, k': seq<Option<nat>> | 0 <= j <= |s.chars| && |k'| == |s.chars| + 1
        ensures First(k', Ends(s, body, back, j)) == First(k', StdEnds(s, body, back, j))
      {
        EndsAgree(s, body, back, j, k');
      }
      IterateAgrees(s, body, min, Bound(max), greedy, back, i, k);
    case _ =>
  }

  /** Every end is accepted. */
  ghost function Everything(n: nat): (k: seq<Option<nat>>)
    ensures |k| == n
  {
    seq(n, j requires 0 <= j => Some(j))
  }

  lemma EmptyAgrees(s: Subject, r: Regex, back: bool, i: nat)
    requires i <= |s.chars| && Parsed(r) && StandardLoops(r)
    ensures Ends(s, r, back, i) == [] <==> StdEnds(s, r, back, i) == []
    ensures Ends(s, r, back, i) != [] ==> StdEnds(s, r, back, i) != [] && Ends(s, r, back, i)[0] == StdEnds(s, r, back, i)[0]
    decreases r, 1
  {
    hide Ends, StdEnds;
    var k := Everything(|s.chars| + 1);
    EndsAgree(s, r, back, i, k);
    HeadFirst(s, back, i, Ends(s, r, back, i));
    HeadFirst(s, back, i, StdEnds(s, r, back, i));
  }

  lemma HeadFirst(s: Subject, back: bool, i: nat, js: seq<nat>)
    requires i <= |s.chars| && forall j :: j in js ==> Toward(s, back, i, j)
    ensures First(Everything(|s.chars| + 1), js) == if js == [] then None else Some(js[0])
  {
    if js != [] {
      assert js[0] in js;
      assert Toward(s, back, i, js[0]);
    }
  }

  /** The leftmost match of the standard, with its first end. */
  ghost function StdFirstMatch(s: Subject, r: Regex, sticky: bool, i: nat): (f: Option<(nat, nat)>)
    requires i <= |s.chars|
    decreases |s.chars| - i
  {
    var js := StdEnds(s, r, false, i);
    if js != [] then Some((i, js[0]))
    else if sticky || i == |s.chars| then None
    else StdFirstMatch(s, r, sticky, i + 1)
  }

  lemma {:induction false} FirstMatchAgrees(s: Subject, r: Regex, sticky: bool, i: nat)
    requires i <= |s.chars| && Parsed(r) && StandardLoops(r)
    ensures FirstMatch(s, r, sticky, i) == StdFirstMatch(s, r, sticky, i)
    decreases |s.chars| - i
  {
    EmptyAgrees(s, r, false, i);
    if !sticky && i < |s.chars| { FirstMatchAgrees(s, r, sticky, i + 1); }
  }

  /**
   A run of the compiled program that ends finds the match that section 21.2.2 of ECMA-262 prefers, for
   every pattern with this condition on the loops; a run whose search goes round does not end.
   */
  lemma ProgramIsStandard(r: Regex, sticky: bool, flags: byte, stackSize: byte, s: Subject, start: nat)
    requires Parsed(r) && StandardLoops(r) && CodeUnits(s) && start <= |s.chars|
    requires |Program(r, sticky, flags, stackSize)| < TWO31
    ensures var m := Machine(Program(r, sticky, flags, stackSize), s);
      if FindMatch(s, r, sticky, start).Circles? then forall n: nat :: Eval(m, Start(start), n).None?
      else Evals(m, Start(start), Result(StdFirstMatch(s, r, sticky, start)))
  {
    hide Evals, FirstMatch, FindMatch, StdFirstMatch, Program;
    FirstMatchAgrees(s, r, sticky, start);
    ProgramFindsFirstMatch(r, sticky, flags, stackSize, s, start);
  }
}
