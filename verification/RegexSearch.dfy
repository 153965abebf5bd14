/**
 What the matcher finds for every pattern it accepts, also for the ones on which it goes round for ever: a
 reluctant loop without upper bound, whose code has no check for an iteration that matches nothing.
 The search is described with continuations; where it does not go round it finds what
 RegexSyntax.Ends says.
 */
module RegexSearch {
  import opened Wrappers
  import opened RegexSyntax
  import opened RegexBytecode
  import opened RegexVm
  import opened RegexSim
  import opened RegexAtoms
  import opened RegexCorrect

  datatype Search<O> = Fails | Accepts(o: O) | Circles {
    function Or(that: Search<O>): Search<O> {
      if Fails? then that else this
    }
  }

  /** The fate of a run: a circle is late for any number of steps. */
  function AsFate(q: Search<Fate>, n: nat): Option<Fate> {
    match q
    case Fails => None
    case Accepts(f) => Some(f)
    case Circles => Some(Late(n))
  }

  /** The first candidate with a result. */
  ghost function Pick<O>(k: seq<Search<O>>, js: seq<nat>): Search<O> {
    if js == [] then Fails
    else if js[0] < |k| then k[js[0]].Or(Pick(k, js[1..]))
    else Pick(k, js[1..])
  }

  /** The loop is compiled with a check for iterations that match nothing. */
  predicate Guarded(r: Regex, back: bool, greedy: bool)
    requires Parsed(r)
  {
    greedy && !ChecksAdvance(Code(r, back))
  }

  /** Every end is accepted. */
  ghost function Anything(n: nat): (k: seq<Search<nat>>)
    ensures |k| == n
  {
    seq(n, j requires 0 <= j => Accepts(j))
  }

  /** What comes of matching `r` at `i` and then continuing with `k`. */
  ghost function Find<O>(s: Subject, r: Regex, back: bool, i: nat, k: seq<Search<O>>): Search<O>
    requires Parsed(r) && |k| == |s.chars| + 1 && i < |k|
    decreases r, 1, 0, 0, 0, 0
  {
    if Loops(r) then Pick(k, Ends(s, r, back, i))
    else
      match r
      case Concat(a, b) =>
        if back then Find(s, b, back, i, Each(s, a, back, k)) else Find(s, a, back, i, Each(s, b, back, k))
      case Choice(a, b) => Find(s, a, back, i, k).Or(Find(s, b, back, i, k))
      case Look(negated, behind, body) =>
        var t := Find(s, body, behind, i, Anything(|k|));
        if t.Circles? then Circles else if t.Accepts? != negated then k[i] else Fails
      case Repeat(body, min, max, greedy) => FindLoop(s, body, min, Bound(max), greedy, back, i, k)
      case _ => Fails
  }

  /** Matching `r` and then continuing with `k`, as a continuation. */
  ghost function Each<O>(s: Subject, r: Regex, back: bool, k: seq<Search<O>>): (kk: seq<Search<O>>)
    requires Parsed(r) && |k| == |s.chars| + 1
    ensures |kk| == |k|
    decreases r, 2, 0, 0, 0, 0
  {
    seq(|k|, j requires 0 <= j < |k| => Find(s, r, back, j, k))
  }

  ghost function FindLoop<O>(s: Subject, r: Regex, min: nat, max: Option<nat>, greedy: bool, back: bool, i: nat, k: seq<Search<O>>): Search<O>
    requires Parsed(r) && |k| == |s.chars| + 1 && i < |k|
    decreases r, 2, min, Left(max), Room(s, back, i), 1
  {
    if max == Some(0) then k[i]
    else
      var body := Find(s, r, back, i, Onward(s, r, min, max, greedy, back, i, k));
      if 0 < min then body else if greedy then body.Or(k[i]) else k[i].Or(body)
  }

  /** What follows an iteration from `i`: without a check, one that stays where it was repeats itself. */
  ghost function Onward<O>(s: Subject, r: Regex, min: nat, max: Option<nat>, greedy: bool, back: bool, i: nat, k: seq<Search<O>>): (kk: seq<Search<O>>)
    requires Parsed(r) && |k| == |s.chars| + 1 && i < |k| && max != Some(0)
    ensures |kk| == |k|
    decreases r, 2, min, Left(max), Room(s, back, i), 0
  {
    seq(|k|, j requires 0 <= j < |k| =>
      if !Toward(s, back, i, j) then Fails
      else if Idle(min, max, i, j) then (if Guarded(r, back, greedy) then k[i] else Circles)
      else FindLoop(s, r, Pred(min), Lower(max), greedy, back, j, k))
  }

  lemma OnwardAt<O>(s: Subject, r: Regex, min: nat, max: Option<nat>, greedy: bool, back: bool, i: nat, k: seq<Search<O>>, j: nat)
    requires Parsed(r) && |k| == |s.chars| + 1 && i < |k| && max != Some(0) && j < |k|
    ensures !Toward(s, back, i, j) ==> Onward(s, r, min, max, greedy, back, i, k)[j] == Fails
    ensures Toward(s, back, i, j) && Idle(min, max, i, j) ==>
      Onward(s, r, min, max, greedy, back, i, k)[j] == if Guarded(r, back, greedy) then k[i] else Circles
    ensures Toward(s, back, i, j) && !Idle(min, max, i, j) ==>
      Onward(s, r, min, max, greedy, back, i, k)[j] == FindLoop(s, r, Pred(min), Lower(max), greedy, back, j, k)
  {
    hide FindLoop, Guarded;
  }

  // ------------------------------------------------- related continuations

  /** A relation between results that is kept by trying one search after another. */
  ghost predicate Congruence<O(!new), P(!new)>(rel: (Search<O>, Search<P>) -> bool) {
    && rel(Fails, Fails) && rel(Circles, Circles)
    && forall a, a', b, b' :: rel(a, a') && rel(b, b') ==> rel(a.Or(b), a'.Or(b'))
  }

  ghost predicate Related<O(!new), P(!new)>(k: seq<Search<O>>, k': seq<Search<P>>, rel: (Search<O>, Search<P>) -> bool) {
    |k| == |k'| && forall j :: 0 <= j < |k| ==> rel(k[j], k'[j])
  }

  lemma {:induction false} PickRelated<O(!new), P(!new)>(k: seq<Search<O>>, k': seq<Search<P>>, js: seq<nat>, rel: (Search<O>, Search<P>) -> bool)
    requires Congruence(rel) && Related(k, k', rel)
    ensures rel(Pick(k, js), Pick(k', js))
  {
    if js != [] { PickRelated(k, k', js[1..], rel); }
  }

  /** Searches with related continuations have related results. */
  lemma {:induction false} FindRelated<O(!new), P(!new)>(s: Subject, r: Regex, back: bool, i: nat, k: seq<Search<O>>, k': seq<Search<P>>, rel: (Search<O>, Search<P>) -> bool)
    requires Parsed(r) && |k| == |s.chars| + 1 && i < |k| && Congruence(rel) && Related(k, k', rel)
    ensures rel(Find(s, r, back, i, k), Find(s, r, back, i, k'))
    decreases r, 1, 0, 0, 0, 0
  {
    if Loops(r) {
      PickRelated(k, k', Ends(s, r, back, i), rel);
    } else {
      match r
      case Concat(a, b) =>
        var x, y := if back then b else a, if back then a else b;
        var kk, kk' := Each(s, y, back, k), Each(s, y, back, k');
        forall j | 0 <= j < |k| ensures rel(kk[j], kk'[j]) { FindRelated(s, y, back, j, k, k', rel); }
        FindRelated(s, x, back, i, kk, kk', rel);
      case Choice(a, b) =>
        FindRelated(s, a, back, i, k, k', rel);
        FindRelated(s, b, back, i, k, k', rel);
      case Look(_, _, _) =>
      case Repeat(body, min, max, greedy) => LoopRelated(s, body, min, Bound(max), greedy, back, i, k, k', rel);
      case _ =>
    }
  }

  lemma OrRelated<O(!new), P(!new)>(a: Search<O>, a': Search<P>, b: Search<O>, b': Search<P>, rel: (Search<O>, Search<P>) -> bool)
    requires Congruence(rel) && rel(a, a') && rel(b, b')
    ensures rel(a.Or(b), a'.Or(b')) && rel(b.Or(a), b'.Or(a'))
  {
  }

  lemma NoneRelated<O(!new), P(!new)>(rel: (Search<O>, Search<P>) -> bool)
    requires Congruence(rel)
    ensures rel(Fails, Fails) && rel(Circles, Circles)
  {
  }

  lemma {:induction false} LoopRelated<O(!new), P(!new)>(s: Subject, r: Regex, min: nat, max: Option<nat>, greedy: bool, back: bool, i: nat, k: seq<Search<O>>, k': seq<Search<P>>, rel: (Search<O>, Search<P>) -> bool)
    requires Parsed(r) && |k| == |s.chars| + 1 && i < |k| && Congruence(rel) && Related(k, k', rel)
    ensures rel(FindLoop(s, r, min, max, greedy, back, i, k), FindLoop(s, r, min, max, greedy, back, i, k'))
    decreases r, 2, min, Left(max), Room(s, back, i), 1
  {
    hide Find, Congruence, Onward;
    if max != Some(0) {
      var kk, kk' := Onward(s, r, min, max, greedy, back, i, k), Onward(s, r, min, max, greedy, back, i, k');
      OnwardRelated(s, r, min, max, greedy, back, i, k, k', rel);
      FindRelated(s, r, back, i, kk, kk', rel);
      OrRelated(Find(s, r, back, i, kk), Find(s, r, back, i, kk'), k[i], k'[i], rel);
    }
  }

  lemma {:induction false} OnwardRelated<O(!new), P(!new)>(s: Subject, r: Regex, min: nat, max: Option<nat>, greedy: bool, back: bool, i: nat, k: seq<Search<O>>, k': seq<Search<P>>, rel: (Search<O>, Search<P>) -> bool)
    requires Parsed(r) && |k| == |s.chars| + 1 && i < |k| && max != Some(0) && Congruence(rel) && Related(k, k', rel)
    ensures Related(Onward(s, r, min, max, greedy, back, i, k), Onward(s, r, min, max, greedy, back, i, k'), rel)
    decreases r, 2, min, Left(max), Room(s, back, i), 0
  {
    hide FindLoop, Congruence, Guarded, Onward;
    NoneRelated(rel);
    var kk, kk' := Onward(s, r, min, max, greedy, back, i, k), Onward(s, r, min, max, greedy, back, i, k');
    forall j | 0 <= j < |k| ensures rel(kk[j], kk'[j]) {
      OnwardAt(s, r, min, max, greedy, back, i, k, j);
      OnwardAt(s, r, min, max, greedy, back, i, k', j);
      if Toward(s, back, i, j) && !Idle(min, max, i, j) {
        LoopRelated(s, r, Pred(min), Lower(max), greedy, back, j, k, k', rel);
      }
    }
  }

  /** Less is known: a circle where there was a result. */
  ghost predicate Below<O>(a: Search<O>, b: Search<O>) {
    a == b || a.Circles?
  }

  lemma FindBelow(s: Subject, r: Regex, back: bool, i: nat, k: seq<Search<Fate>>, k': seq<Search<Fate>>)
    requires Parsed(r) && |k| == |s.chars| + 1 == |k'| && i < |k| && forall j :: 0 <= j < |k| ==> Below(k[j], k'[j])
    ensures Below(Find(s, r, back, i, k), Find(s, r, back, i, k'))
  {
    hide Find;
    var rel := (a: Search<Fate>, b: Search<Fate>) => Below(a, b);
    FindRelated(s, r, back, i, k, k', rel);
  }

  function Mapped(q: Search<nat>, f: nat -> Fate): Search<Fate> {
    match q
    case Fails => Fails
    case Accepts(o) => Accepts(f(o))
    case Circles => Circles
  }

  predicate IsMapped(a: Search<nat>, b: Search<Fate>, f: nat -> Fate) {
    b == Mapped(a, f)
  }

  lemma FindMapped(s: Subject, r: Regex, back: bool, i: nat, k: seq<Search<nat>>, k': seq<Search<Fate>>, f: nat -> Fate)
    requires Parsed(r) && |k| == |s.chars| + 1 == |k'| && i < |k| && forall j :: 0 <= j < |k| ==> k'[j] == Mapped(k[j], f)
    ensures Find(s, r, back, i, k') == Mapped(Find(s, r, back, i, k), f)
  {
    hide Find;
    var rel := (a: Search<nat>, b: Search<Fate>) => IsMapped(a, b, f);
    FindRelated(s, r, back, i, k, k', rel);
  }

  // ------------------------------------------- required and optional iterations

  ghost function EachLoop<O>(s: Subject, r: Regex, max: Option<nat>, greedy: bool, back: bool, k: seq<Search<O>>): (kk: seq<Search<O>>)
    requires Parsed(r) && |k| == |s.chars| + 1
    ensures |kk| == |k|
  {
    seq(|k|, j requires 0 <= j < |k| => FindLoop(s, r, 0, max, greedy, back, j, k))
  }

  lemma {:induction false} LoopSplit<O>(s: Subject, r: Regex, min: nat, max: Option<nat>, greedy: bool, back: bool, i: nat, k: seq<Search<O>>)
    requires Parsed(r) && |k| == |s.chars| + 1 && i < |k| && (max.Some? ==> min <= max.value)
    ensures FindLoop(s, r, min, max, greedy, back, i, k)
         == FindLoop(s, r, min, Some(min), greedy, back, i, EachLoop(s, r, Rest(max, min), greedy, back, k))
    decreases min
  {
    hide Find, Onward;
    if min != 0 {
      var rest := EachLoop(s, r, Rest(max, min), greedy, back, k);
      var a, b := Onward(s, r, min, max, greedy, back, i, k), Onward(s, r, min, Some(min), greedy, back, i, rest);
      forall j | 0 <= j < |k| ensures a[j] == b[j] {
        OnwardAt(s, r, min, max, greedy, back, i, k, j);
        OnwardAt(s, r, min, Some(min), greedy, back, i, rest, j);
        LoopSplit(s, r, min - 1, Lower(max), greedy, back, j, k);
      }
      assert a == b;
    }
  }

  // ------------------------------------------------- agreement with RegexSyntax

  function Tried<O>(k: Option<O>): Search<O> {
    if k.Some? then Accepts(k.value) else Fails
  }

  /** A search with the result of a list of candidates, unless it goes round. */
  ghost predicate Agrees<O>(q: Search<O>, k: Option<O>) {
    q.Circles? || q == Tried(k)
  }

  ghost predicate AllAgree<O>(q: seq<Search<O>>, k: seq<Option<O>>) {
    |q| == |k| && forall j :: 0 <= j < |q| ==> Agrees(q[j], k[j])
  }

  lemma {:induction false} PickAgrees<O>(q: seq<Search<O>>, k: seq<Option<O>>, js: seq<nat>)
    requires AllAgree(q, k)
    ensures Agrees(Pick(q, js), First(k, js))
  {
    if js != [] { PickAgrees(q, k, js[1..]); }
  }

  /** A search that does not go round finds the first of the ends of `r` that is accepted. */
  lemma {:induction false} FindAgrees<O>(s: Subject, r: Regex, back: bool, i: nat, q: seq<Search<O>>, k: seq<Option<O>>)
    requires Parsed(r) && |k| == |s.chars| + 1 && i < |k| && AllAgree(q, k)
    ensures Agrees(Find(s, r, back, i, q), First(k, Ends(s, r, back, i)))
    decreases r, 1, 0, 0, 0
  {
    if Loops(r) {
      PickAgrees(q, k, Ends(s, r, back, i));
    } else {
      match r
      case Concat(a, b) =>
        var x, y := if back then b else a, if back then a else b;
        FirstEach(s, y, back, i, Ends(s, x, back, i), k);
        var qq, kk := Each(s, y, back, q), Then(s, y, back, k);
        forall j | 0 <= j < |k| ensures Agrees(qq[j], kk[j]) { FindAgrees(s, y, back, j, q, k); }
        FindAgrees(s, x, back, i, qq, kk);
      case Choice(a, b) =>
        FindAgrees(s, a, back, i, q, k);
        FindAgrees(s, b, back, i, q, k);
        FirstAppend(k, Ends(s, a, back, i), Ends(s, b, back, i));
      case Look(negated, behind, body) =>
        var all := seq(|k|, j requires 0 <= j => Some(j));
        FindAgrees(s, body, behind, i, Anything(|k|), all);
        FirstOfAll(s, behind, i, Ends(s, body, behind, i), all);
      case Repeat(body, min, max, greedy) => LoopFinds(s, body, min, Bound(max), greedy, back, i, q, k);
      case _ =>
    }
  }

  lemma FirstOfAll(s: Subject, back: bool, i: nat, js: seq<nat>, all: seq<Option<nat>>)
    requires |all| == |s.chars| + 1 && (forall j :: 0 <= j < |all| ==> all[j].Some?) && forall j :: j in js ==> Toward(s, back, i, j)
    ensures First(all, js).Some? <==> js != []
  {
    if js != [] {
      assert js[0] in js;
      assert Toward(s, back, i, js[0]);
    }
  }

  lemma {:induction false} LoopFinds<O>(s: Subject, r: Regex, min: nat, max: Option<nat>, greedy: bool, back: bool, i: nat, q: seq<Search<O>>, k: seq<Option<O>>)
    requires Parsed(r) && |k| == |s.chars| + 1 && i < |k| && AllAgree(q, k)
    ensures Agrees(FindLoop(s, r, min, max, greedy, back, i, q), First(k, Iterate(s, r, min, max, greedy, back, i)))
    decreases r, 2, min, Left(max), Room(s, back, i)
  {
    hide Find, Ends, Iterate, Onward, Again;
    IterateRequired(s, r, min, max, greedy, back, i);
    if max == Some(0) {
      FirstOne(k, i);
    } else {
      var js := Ends(s, r, back, i);
      var qq, kk := Onward(s, r, min, max, greedy, back, i, q), Again(s, r, min, max, greedy, back, i, k);
      FirstIterateEach(s, r, min, max, greedy, back, i, js, k);
      forall j | 0 <= j < |k| && Toward(s, back, i, j) ensures Agrees(qq[j], kk[j]) {
        OnwardAt(s, r, min, max, greedy, back, i, q, j);
        AgainIs(s, r, min, max, greedy, back, i, k, j);
        if !Idle(min, max, i, j) { LoopFinds(s, r, Pred(min), Lower(max), greedy, back, j, q, k); }
      }
      var kk' := Ahead(s, back, i, kk);
      SameAhead(s, back, i, kk, js);
      forall j | 0 <= j < |k| ensures Agrees(qq[j], kk'[j]) { OnwardAt(s, r, min, max, greedy, back, i, q, j); }
      FindAgrees(s, r, back, i, qq, kk');
      if min == 0 { OptionalIs(s, r, max, greedy, back, i, k); }
    }
  }

  lemma AgainIs<O>(s: Subject, r: Regex, min: nat, max: Option<nat>, greedy: bool, back: bool, i: nat, k: seq<Option<O>>, j: nat)
    requires |k| == |s.chars| + 1 && i < |k| && j < |k|
    ensures Again(s, r, min, max, greedy, back, i, k)[j]
         == if Idle(min, max, i, j) then k[i] else First(k, Iterate(s, r, Pred(min), Lower(max), greedy, back, j))
  {
    hide Iterate;
  }

  /** A continuation without the indices that cannot be reached. */
  ghost function Ahead<O>(s: Subject, back: bool, i: nat, k: seq<Option<O>>): (kk: seq<Option<O>>)
    ensures |kk| == |k|
  {
    seq(|k|, j requires 0 <= j < |k| => if Toward(s, back, i, j) then k[j] else None)
  }

  lemma {:induction false} SameAhead<O>(s: Subject, back: bool, i: nat, k: seq<Option<O>>, js: seq<nat>)
    requires forall j :: j in js ==> Toward(s, back, i, j)
    ensures First(Ahead(s, back, i, k), js) == First(k, js)
  {
    if js != [] {
      assert Toward(s, back, i, js[0]);
      SameAhead(s, back, i, k, js[1..]);
    }
  }

  lemma OptionalIs<O>(s: Subject, r: Regex, max: Option<nat>, greedy: bool, back: bool, i: nat, k: seq<Option<O>>)
    requires |k| == |s.chars| + 1 && i < |k| && max != Some(0)
    ensures var body := First(k, IterateEach(s, r, 0, max, greedy, back, i, Ends(s, r, back, i)));
      First(k, Iterate(s, r, 0, max, greedy, back, i))
      == if greedy then (if body.Some? then body else k[i]) else (if k[i].Some? then k[i] else body)
  {
    hide Ends, IterateEach;
    var again := IterateEach(s, r, 0, max, greedy, back, i, Ends(s, r, back, i));
    FirstAppend(k, again, [i]);
    FirstAppend(k, [i], again);
    FirstOne(k, i);
  }

  // ------------------------------------------------------- when a search goes round

  lemma {:induction false} PickNeverCircles<O>(k: seq<Search<O>>, js: seq<nat>)
    requires forall j :: 0 <= j < |k| ==> !k[j].Circles?
    ensures !Pick(k, js).Circles?
  {
    if js != [] { PickNeverCircles(k, js[1..]); }
  }

  lemma {:induction false} PickCircle<O>(k: seq<Search<O>>, js: seq<nat>) returns (j: nat)
    requires Pick(k, js).Circles?
    ensures j in js && j < |k| && k[j].Circles?
  {
    if js[0] < |k| && k[js[0]].Circles? { j := js[0]; } else { j := PickCircle(k, js[1..]); }
  }

  /** If everything fails or goes round, one candidate that goes round is enough. */
  lemma {:induction false} PickMeetsCircle<O>(k: seq<Search<O>>, js: seq<nat>, j: nat)
    requires (forall e :: 0 <= e < |k| ==> !k[e].Accepts?) && j in js && j < |k| && k[j].Circles?
    ensures Pick(k, js).Circles?
  {
    if js[0] != j { PickMeetsCircle(k, js[1..], j); }
  }

  /** A reluctant loop that goes round has come to where its body can match nothing. */
  lemma {:induction false} CirclesNeedIdle(s: Subject, r: Regex, back: bool, i: nat, k: seq<Search<nat>>)
    requires Parsed(r) && Loops(r) && |k| == |s.chars| + 1 && i < |k| && forall j :: 0 <= j < |k| ==> !k[j].Circles?
    requires FindLoop(s, r, 0, None, false, back, i, k).Circles?
    ensures exists j: nat :: j <= |s.chars| && j in Ends(s, r, back, j)
    decreases Room(s, back, i)
  {
    hide Ends;
    var js, kk := Ends(s, r, back, i), Onward(s, r, 0, None, false, back, i, k);
    var j := PickCircle(kk, js);
    if j != i { CirclesNeedIdle(s, r, back, j, k); }
  }

  lemma {:induction false} NothingAccepted(s: Subject, r: Regex, back: bool, i: nat, k: seq<Search<nat>>)
    requires Parsed(r) && Loops(r) && |k| == |s.chars| + 1 && i < |k| && forall j :: 0 <= j < |k| ==> k[j].Fails?
    ensures !FindLoop(s, r, 0, None, false, back, i, k).Accepts?
    ensures i in Ends(s, r, back, i) ==> FindLoop(s, r, 0, None, false, back, i, k).Circles?
    decreases Room(s, back, i)
  {
    hide Ends;
    var js, kk := Ends(s, r, back, i), Onward(s, r, 0, None, false, back, i, k);
    forall j | 0 <= j < |kk| ensures !kk[j].Accepts? {
      if Toward(s, back, i, j) && j != i { NothingAccepted(s, r, back, j, k); }
    }
    NeverAccepts(kk, js);
    if i in js {
      PickMeetsCircle(kk, js, i);
    }
  }

  lemma {:induction false} NeverAccepts<O>(k: seq<Search<O>>, js: seq<nat>)
    requires forall j :: 0 <= j < |k| ==> !k[j].Accepts?
    ensures !Pick(k, js).Accepts?
  {
    if js != [] { NeverAccepts(k, js[1..]); }
  }

  /**
   A reluctant loop without upper bound, over a body whose own loops end, can go round on a subject,
   for some start and some continuation, exactly if the body can match nothing somewhere in it.
   */
  lemma CanCircle(s: Subject, r: Regex, back: bool)
    requires Parsed(r) && Loops(r)
    ensures (exists i: nat, k :: Continues(s, i, k) && FindLoop(s, r, 0, None, false, back, i, k).Circles?)
      <==> exists j: nat :: j <= |s.chars| && j in Ends(s, r, back, j)
  {
    hide Ends, FindLoop;
    if i: nat, k :| Continues(s, i, k) && FindLoop(s, r, 0, None, false, back, i, k).Circles? {
      CirclesNeedIdle(s, r, back, i, k);
    }
    if j: nat :| j <= |s.chars| && j in Ends(s, r, back, j) {
      var k: seq<Search<nat>> := seq(|s.chars| + 1, _ => Fails);
      NothingAccepted(s, r, back, j, k);
      assert Continues(s, j, k);
    }
  }

  /** A continuation that always comes to an end. */
  ghost predicate Continues(s: Subject, i: nat, k: seq<Search<nat>>) {
    |k| == |s.chars| + 1 && i < |k| && forall j :: 0 <= j < |k| ==> !k[j].Circles?
  }
}
