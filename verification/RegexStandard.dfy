/**
 Section 21.2.2 of ECMA-262, 11th edition, and where the matcher of libregexp.c agrees with it.  The
 standard makes an optional iteration that matched nothing fail, so that the next choice of the body is
 tried; the matcher lets it end the loop.  Loops with an upper bound are in RegexCounted.
 */
module RegexStandard {
  import opened Wrappers
  import opened RegexSyntax
  import opened RegexBytecode
  import opened RegexSim
  import opened RegexCorrect
  import opened RegexProgram

  /** Where a match of `r` that starts at `i` can end, in the order of the standard. */
  ghost function StdEnds(s: Subject, r: Regex, back: bool, i: nat): (js: seq<nat>)
    requires i <= |s.chars|
    ensures forall j :: j in js ==> Toward(s, back, i, j)
    decreases r, 0, 0, 0, 0, 0
  {
    match r
    case Concat(a, b) =>
      if back then StdEach(s, a, back, i, StdEnds(s, b, back, i))
      else StdEach(s, b, back, i, StdEnds(s, a, back, i))
    case Choice(a, b) => StdEnds(s, a, back, i) + StdEnds(s, b, back, i)
    case Look(negated, behind, body) =>
      if (StdEnds(s, body, behind, i) == []) == negated then [i] else []
    case Repeat(body, min, max, greedy) => StdIterate(s, body, min, Bound(max), greedy, back, i)
    case _ => Ends(s, r, back, i)
  }

  ghost function StdEach(s: Subject, r: Regex, back: bool, i: nat, js: seq<nat>): (ks: seq<nat>)
    requires forall j :: j in js ==> Toward(s, back, i, j)
    ensures forall k :: k in ks ==> Toward(s, back, i, k)
    decreases r, 1, 0, 0, 0, |js|
  {
    if js == [] then []
    else
      assert Toward(s, back, i, js[0]);
      StdEnds(s, r, back, js[0]) + StdEach(s, r, back, i, js[1..])
  }

  /** RepeatMatcher (section 21.2.2.5.1): an iteration that is not required must move. */
  ghost function StdIterate(s: Subject, r: Regex, min: nat, max: Option<nat>, greedy: bool, back: bool, i: nat): (js: seq<nat>)
    requires i <= |s.chars|
    ensures forall j :: j in js ==> Toward(s, back, i, j)
    decreases r, 2, min, Room(s, back, i), 1, 0
  {
    if max == Some(0) then [i]
    else
      var again := StdIterateEach(s, r, min, max, greedy, back, i, StdEnds(s, r, back, i));
      if 0 < min then again
      else if greedy then again + [i]
      else [i] + again
  }

  ghost function StdIterateEach(s: Subject, r: Regex, min: nat, max: Option<nat>, greedy: bool, back: bool, i: nat, js: seq<nat>): (ks: seq<nat>)
    requires i <= |s.chars|
    requires forall j :: j in js ==> Toward(s, back, i, j)
    ensures forall k :: k in ks ==> Toward(s, back, i, k)
    decreases r, 2, min, Room(s, back, i), 0, |js|
  {
    if js == [] then []
    else
      assert Toward(s, back, i, js[0]);
      var here :=
        if min == 0 && js[0] == i then []
        else StdIterate(s, r, Pred(min), Lower(max), greedy, back, js[0]);
      here + StdIterateEach(s, r, min, max, greedy, back, i, js[1..])
  }

  /** No continuation can tell the two lists apart. */
  ghost predicate Same(n: nat, js: seq<nat>, ks: seq<nat>) {
    forall k: seq<Option<nat>> :: |k| == n ==> First(k, js) == First(k, ks)
  }

  // --------------------------------------------------- continuations of rounds

  ghost function StdThen(s: Subject, r: Regex, back: bool, k: seq<Option<nat>>): (k': seq<Option<nat>>)
    requires |k| == |s.chars| + 1
    ensures |k'| == |k|
  {
    seq(|k|, i requires 0 <= i < |k| => First(k, StdEnds(s, r, back, i)))
  }

  /** What follows an iteration that started at `i`: an optional one that did not move fails. */
  ghost function StdAgain(s: Subject, r: Regex, min: nat, max: Option<nat>, greedy: bool, back: bool, i: nat, k: seq<Option<nat>>): (k': seq<Option<nat>>)
    requires |k| == |s.chars| + 1
    ensures |k'| == |k|
  {
    seq(|k|, j requires 0 <= j < |k| =>
      if min == 0 && j == i then None else First(k, StdIterate(s, r, Pred(min), Lower(max), greedy, back, j)))
  }

  lemma {:induction false} StdFirstEach(s: Subject, r: Regex, back: bool, i: nat, js: seq<nat>, k: seq<Option<nat>>)
    requires |k| == |s.chars| + 1
    requires forall j :: j in js ==> Toward(s, back, i, j)
    ensures First(k, StdEach(s, r, back, i, js)) == First(StdThen(s, r, back, k), js)
  {
    if js != [] {
      assert Toward(s, back, i, js[0]);
      FirstAppend(k, StdEnds(s, r, back, js[0]), StdEach(s, r, back, i, js[1..]));
      StdFirstEach(s, r, back, i, js[1..], k);
    }
  }

  lemma {:induction false} StdFirstIterateEach(s: Subject, r: Regex, min: nat, max: Option<nat>, greedy: bool, back: bool, i: nat, js: seq<nat>, k: seq<Option<nat>>)
    requires |k| == |s.chars| + 1 && i <= |s.chars|
    requires forall j :: j in js ==> Toward(s, back, i, j)
    ensures First(k, StdIterateEach(s, r, min, max, greedy, back, i, js)) == First(StdAgain(s, r, min, max, greedy, back, i, k), js)
  {
    hide StdIterate, First;
    if js == [] {
      FirstOfNone(k);
      FirstOfNone(StdAgain(s, r, min, max, greedy, back, i, k));
    } else {
      assert Toward(s, back, i, js[0]) && js[0] in js;
      assert forall j :: j in js[1..] ==> j in js;
      FirstHead(StdAgain(s, r, min, max, greedy, back, i, k), js);
      FirstOfNone(k);
      FirstAppend(k, if min == 0 && js[0] == i then [] else StdIterate(s, r, Pred(min), Lower(max), greedy, back, js[0]),
                  StdIterateEach(s, r, min, max, greedy, back, i, js[1..]));
      StdFirstIterateEach(s, r, min, max, greedy, back, i, js[1..], k);
    }
  }

  function Either(k1: Option<nat>, k2: Option<nat>): Option<nat> {
    if k1.Some? then k1 else k2
  }

  /** A loop, in terms of its first iteration. */
  lemma StdRound(s: Subject, r: Regex, min: nat, max: Option<nat>, greedy: bool, back: bool, i: nat, k: seq<Option<nat>>)
    requires |k| == |s.chars| + 1 && i <= |s.chars| && max != Some(0)
    ensures var body := First(StdAgain(s, r, min, max, greedy, back, i, k), StdEnds(s, r, back, i));
      First(k, StdIterate(s, r, min, max, greedy, back, i))
      == if 0 < min then body else if greedy then Either(body, k[i]) else Either(k[i], body)
  {
    hide StdEnds;
    var js := StdEnds(s, r, back, i);
    var again := StdIterateEach(s, r, min, max, greedy, back, i, js);
    StdFirstIterateEach(s, r, min, max, greedy, back, i, js, k);
    FirstAppend(k, again, [i]);
    FirstAppend(k, [i], again);
    FirstOne(k, i);
  }

  lemma OwnRound(s: Subject, r: Regex, min: nat, max: Option<nat>, greedy: bool, back: bool, i: nat, k: seq<Option<nat>>)
    requires |k| == |s.chars| + 1 && i <= |s.chars| && max != Some(0)
    ensures var body := First(Again(s, r, min, max, greedy, back, i, k), Ends(s, r, back, i));
      First(k, Iterate(s, r, min, max, greedy, back, i))
      == if 0 < min then body else if greedy then Either(body, k[i]) else Either(k[i], body)
  {
    hide Ends, Again;
    var js := Ends(s, r, back, i);
    var again := IterateEach(s, r, min, max, greedy, back, i, js);
    FirstIterateEach(s, r, min, max, greedy, back, i, js, k);
    FirstAppend(k, again, [i]);
    FirstAppend(k, [i], again);
    FirstOne(k, i);
  }

  // ------------------------------------------------------------ lists and ends

  /** The first element with a result decides. */
  lemma {:induction false} FirstNone(k: seq<Option<nat>>, js: seq<nat>)
    ensures First(k, js).None? <==> forall j :: j in js && j < |k| ==> k[j].None?
  {
    if js != [] {
      FirstNone(k, js[1..]);
      assert js == [js[0]] + js[1..];
    }
  }

  /** Only the results at the elements matter. */
  lemma {:induction false} FirstCong(k: seq<Option<nat>>, k': seq<Option<nat>>, js: seq<nat>)
    requires |k| == |k'| && forall j :: j in js && j < |k| ==> k[j] == k'[j]
    ensures First(k, js) == First(k', js)
  {
    if js != [] {
      assert js[0] in js;
      FirstCong(k, k', js[1..]);
    }
  }

  lemma {:induction false} StdIterateEachHas(s: Subject, r: Regex, min: nat, max: Option<nat>, greedy: bool, back: bool, i: nat, js: seq<nat>, j: nat, e: nat)
    requires i <= |s.chars|
    requires forall j :: j in js ==> Toward(s, back, i, j)
    requires j in js && j <= |s.chars| && (0 < min || j != i)
    requires e in StdIterate(s, r, Pred(min), Lower(max), greedy, back, j)
    ensures e in StdIterateEach(s, r, min, max, greedy, back, i, js)
  {
    assert Toward(s, back, i, js[0]);
    if js[0] != j {
      StdIterateEachHas(s, r, min, max, greedy, back, i, js[1..], j, e);
    }
  }

  lemma {:induction false} StdIterateEachFrom(s: Subject, r: Regex, min: nat, max: Option<nat>, greedy: bool, back: bool, i: nat, js: seq<nat>, e: nat) returns (j: nat)
    requires i <= |s.chars|
    requires forall j :: j in js ==> Toward(s, back, i, j)
    requires e in StdIterateEach(s, r, min, max, greedy, back, i, js)
    ensures j in js && j <= |s.chars| && (0 < min || j != i) && e in StdIterate(s, r, Pred(min), Lower(max), greedy, back, j)
  {
    assert Toward(s, back, i, js[0]);
    if !(min == 0 && js[0] == i) && e in StdIterate(s, r, Pred(min), Lower(max), greedy, back, js[0]) {
      j := js[0];
    } else {
      j := StdIterateEachFrom(s, r, min, max, greedy, back, i, js[1..], e);
    }
  }

  /** The loop can stop where it stands. */
  lemma StdStop(s: Subject, r: Regex, max: Option<nat>, greedy: bool, back: bool, i: nat)
    requires i <= |s.chars|
    ensures i in StdIterate(s, r, 0, max, greedy, back, i)
  {
    assert i in [i];
  }

  /** Iterations can be continued. */
  lemma {:induction false} StdTransitive(s: Subject, r: Regex, greedy: bool, back: bool, i: nat, j: nat, e: nat)
    requires i <= |s.chars| && j <= |s.chars|
    requires j in StdIterate(s, r, 0, None, greedy, back, i) && e in StdIterate(s, r, 0, None, greedy, back, j)
    ensures e in StdIterate(s, r, 0, None, greedy, back, i)
    decreases Room(s, back, i)
  {
    if j != i {
      var js := StdEnds(s, r, back, i);
      var a := StdIterateEachFrom(s, r, 0, None, greedy, back, i, js, j);
      assert Toward(s, back, i, a);
      StdTransitive(s, r, greedy, back, a, j, e);
      StdIterateEachHas(s, r, 0, None, greedy, back, i, js, a, e);
    }
  }

  /** An iteration that is not the last one allowed can be left out. */
  lemma {:induction false} StdFewer(s: Subject, r: Regex, n: nat, greedy: bool, back: bool, i: nat, e: nat)
    requires i <= |s.chars| && e in StdIterate(s, r, 0, Some(n), greedy, back, i)
    ensures e in StdIterate(s, r, 0, Some(n + 1), greedy, back, i)
    decreases Room(s, back, i)
  {
    if e == i {
      StdStop(s, r, Some(n + 1), greedy, back, i);
    } else {
      var js := StdEnds(s, r, back, i);
      var a := StdIterateEachFrom(s, r, 0, Some(n), greedy, back, i, js, e);
      assert Toward(s, back, i, a);
      StdFewer(s, r, n - 1, greedy, back, a, e);
      StdIterateEachHas(s, r, 0, Some(n + 1), greedy, back, i, js, a, e);
    }
  }

  // ------------------------------------------- the exact condition for a loop

  ghost predicate BodyAgrees(s: Subject, r: Regex, back: bool) {
    forall j :: 0 <= j <= |s.chars| ==> Same(|s.chars| + 1, Ends(s, r, back, j), StdEnds(s, r, back, j))
  }

  /** Whatever the body offers after an empty match, iterating from an earlier offer reaches too. */
  ghost predicate NothingNew(s: Subject, r: Regex, greedy: bool, back: bool, i: nat)
    requires i <= |s.chars|
  {
    var js := StdEnds(s, r, back, i);
    forall p, q :: 0 <= p < q < |js| && js[p] == i && i !in js[..p] && js[q] != i ==> Reached(s, r, greedy, back, js[..p], js[q])
  }

  ghost predicate Reached(s: Subject, r: Regex, greedy: bool, back: bool, js: seq<nat>, e: nat) {
    exists a :: 0 <= a < |js| && js[a] <= |s.chars| && e in StdIterate(s, r, 0, None, greedy, back, js[a])
  }

  ghost predicate LoopAgrees(s: Subject, r: Regex, greedy: bool, back: bool) {
    forall i :: 0 <= i <= |s.chars| ==>
      Same(|s.chars| + 1, Iterate(s, r, 0, None, greedy, back, i), StdIterate(s, r, 0, None, greedy, back, i))
  }

  lemma {:induction false} Index(js: seq<nat>, i: nat) returns (p: nat)
    requires i in js
    ensures p < |js| && js[p] == i && i !in js[..p]
  {
    if js[0] == i {
      p := 0;
    } else {
      p := Index(js[1..], i);
      p := p + 1;
      assert js[..p] == [js[0]] + js[1..][..p - 1];
    }
  }

  /** The list around its first empty match. */
  lemma SplitAtEmpty(js: seq<nat>, i: nat, a: seq<Option<nat>>, k: seq<Option<nat>>)
    requires i in js && i < |k| && |a| == |k| && a[i].None?
    ensures exists p :: 0 <= p < |js| && js[p] == i && i !in js[..p] && AroundEmpty(js, i, p, a, k)
  {
    var p := Index(js, i);
    AroundIs(js, i, p, a, k);
  }

  /** Continuing with `a`, which fails at `i`, or with `k[i]` there. */
  ghost predicate AroundEmpty(js: seq<nat>, i: nat, p: nat, a: seq<Option<nat>>, k: seq<Option<nat>>)
    requires p < |js| && i < |k| && |a| == |k|
  {
    && First(a, js) == Either(First(a, js[..p]), First(a, js[p + 1..]))
    && First(a[i := k[i]], js) == Either(First(a, js[..p]), Either(k[i], First(a, js[p + 1..])))
  }

  lemma AroundIs(js: seq<nat>, i: nat, p: nat, a: seq<Option<nat>>, k: seq<Option<nat>>)
    requires p < |js| && js[p] == i && i !in js[..p] && i < |k| && |a| == |k| && a[i].None?
    ensures AroundEmpty(js, i, p, a, k)
  {
    var pre, post := js[..p], js[p + 1..];
    var a' := a[i := k[i]];
    assert js == pre + ([i] + post);
    FirstAppend(a, pre, [i] + post);
    FirstAppend(a, [i], post);
    FirstOne(a, i);
    FirstAppend(a', pre, [i] + post);
    FirstAppend(a', [i], post);
    FirstOne(a', i);
    FirstCong(a, a', pre);
    if k[i].None? { assert a' == a; }
  }

  /** If nothing new follows an empty match, a round of the two loops gives the same. */
  lemma RoundAgrees(s: Subject, r: Regex, back: bool, i: nat, k: seq<Option<nat>>)
    requires |k| == |s.chars| + 1 && i < |k| && NothingNew(s, r, true, back, i)
    ensures var a, js := StdAgain(s, r, 0, None, true, back, i, k), StdEnds(s, r, back, i);
      Either(First(a[i := k[i]], js), k[i]) == Either(First(a, js), k[i])
  {
    hide StdEnds, StdIterate;
    var a, js := StdAgain(s, r, 0, None, true, back, i, k), StdEnds(s, r, back, i);
    if i !in js {
      FirstCong(a, a[i := k[i]], js);
    } else {
      SplitAtEmpty(js, i, a, k);
      var p :| 0 <= p < |js| && js[p] == i && i !in js[..p] && AroundEmpty(js, i, p, a, k);
      if k[i].Some? && First(a, js[..p]).None? {
        PostFails(s, r, true, back, i, p, k);
      }
    }
  }

  /** When the offers before the empty match fail, those after it do. */
  lemma PostFails(s: Subject, r: Regex, greedy: bool, back: bool, i: nat, p: nat, k: seq<Option<nat>>)
    requires |k| == |s.chars| + 1 && i < |k| && NothingNew(s, r, greedy, back, i)
    requires var js := StdEnds(s, r, back, i); p < |js| && js[p] == i && i !in js[..p]
    requires First(StdAgain(s, r, 0, None, greedy, back, i, k), StdEnds(s, r, back, i)[..p]).None?
    ensures First(StdAgain(s, r, 0, None, greedy, back, i, k), StdEnds(s, r, back, i)[p + 1..]).None?
  {
    hide StdEnds, StdIterate;
    var a, js := StdAgain(s, r, 0, None, greedy, back, i, k), StdEnds(s, r, back, i);
    FirstNone(a, js[..p]);
    FirstNone(a, js[p + 1..]);
    forall j | j in js[p + 1..] && j < |a| ensures a[j].None? {
      if j != i {
        var q :| 0 <= q < |js[p + 1..]| && js[p + 1..][q] == j;
        assert js[p + 1 + q] == j;
        assert Reached(s, r, greedy, back, js[..p], j);
        var e :| 0 <= e < p && js[..p][e] <= |s.chars| && j in StdIterate(s, r, 0, None, greedy, back, js[..p][e]);
        ReachedFails(s, r, greedy, back, js[..p][e], j, k);
        assert js[..p][e] in js[..p];
      }
    }
  }

  lemma ReachedFails(s: Subject, r: Regex, greedy: bool, back: bool, x: nat, j: nat, k: seq<Option<nat>>)
    requires |k| == |s.chars| + 1 && x < |k| && j < |k| && j in StdIterate(s, r, 0, None, greedy, back, x)
    ensures First(k, StdIterate(s, r, 0, None, greedy, back, x)).None? ==> First(k, StdIterate(s, r, 0, None, greedy, back, j)).None?
  {
    hide StdIterate;
    FirstNone(k, StdIterate(s, r, 0, None, greedy, back, x));
    FirstNone(k, StdIterate(s, r, 0, None, greedy, back, j));
    forall e | e in StdIterate(s, r, 0, None, greedy, back, j) ensures e in StdIterate(s, r, 0, None, greedy, back, x) {
      StdTransitive(s, r, greedy, back, x, j, e);
    }
  }

  /** One direction: the loops agree if nothing new ever follows an empty match. */
  lemma {:induction false} LoopAgreesAt(s: Subject, r: Regex, back: bool, i: nat, k: seq<Option<nat>>)
    requires |k| == |s.chars| + 1 && i < |k| && BodyAgrees(s, r, back)
    requires forall j :: 0 <= j < |k| ==> NothingNew(s, r, true, back, j)
    ensures First(k, Iterate(s, r, 0, None, true, back, i)) == First(k, StdIterate(s, r, 0, None, true, back, i))
    decreases Room(s, back, i)
  {
    hide StdEnds, StdIterate, Ends, Iterate, NothingNew;
    var js := StdEnds(s, r, back, i);
    var a, own := StdAgain(s, r, 0, None, true, back, i, k), Again(s, r, 0, None, true, back, i, k);
    OwnRound(s, r, 0, None, true, back, i, k);
    StdRound(s, r, 0, None, true, back, i, k);
    assert Same(|s.chars| + 1, Ends(s, r, back, i), js);
    forall j | j in js && j < |own| ensures own[j] == a[i := k[i]][j] {
      assert Toward(s, back, i, j);
      if j != i { LoopAgreesAt(s, r, back, j, k); }
    }
    FirstCong(own, a[i := k[i]], js);
    RoundAgrees(s, r, back, i, k);
  }

  /** The other direction: something new after an empty match shows the difference. */
  lemma LoopsDiffer(s: Subject, r: Regex, back: bool, i: nat)
    requires i <= |s.chars| && BodyAgrees(s, r, back) && LoopAgrees(s, r, true, back)
    ensures NothingNew(s, r, true, back, i)
  {
    hide StdEnds, StdIterate, Ends, Iterate, Reached;
    var js := StdEnds(s, r, back, i);
    forall p, q | 0 <= p < q < |js| && js[p] == i && i !in js[..p] && js[q] != i ensures Reached(s, r, true, back, js[..p], js[q]) {
      Distinguish(s, r, back, i, p, q);
    }
  }

  /** The continuation that accepts `i` with one result, and the new end with another. */
  ghost function Probe(n: nat, i: nat, e: nat): (k: seq<Option<nat>>)
    ensures |k| == n
  {
    seq(n, j => if j == i then Some(0) else if j == e then Some(1) else None)
  }

  lemma Distinguish(s: Subject, r: Regex, back: bool, i: nat, p: nat, q: nat)
    requires i <= |s.chars| && BodyAgrees(s, r, back) && LoopAgrees(s, r, true, back)
    requires var js := StdEnds(s, r, back, i);
      p < q < |js| && js[p] == i && i !in js[..p] && js[q] != i
    ensures var js := StdEnds(s, r, back, i); Reached(s, r, true, back, js[..p], js[q])
  {
    hide StdEnds, StdIterate, Ends, Iterate, Reached;
    var js := StdEnds(s, r, back, i);
    var e := js[q];
    var k := Probe(|s.chars| + 1, i, e);
    assert e in js;
    assert Toward(s, back, i, e);
    var a, own := StdAgain(s, r, 0, None, true, back, i, k), Again(s, r, 0, None, true, back, i, k);
    OwnRound(s, r, 0, None, true, back, i, k);
    StdRound(s, r, 0, None, true, back, i, k);
    assert Same(|s.chars| + 1, Ends(s, r, back, i), js);
    assert Same(|s.chars| + 1, Iterate(s, r, 0, None, true, back, i), StdIterate(s, r, 0, None, true, back, i));
    OwnIsStd(s, r, back, i, k);
    FirstCong(own, a[i := k[i]], js);
    AroundIs(js, i, p, a, k);
    ProbePost(s, r, back, i, p, q);
    ProbePre(s, r, back, i, p, e);
  }

  lemma OwnIsStd(s: Subject, r: Regex, back: bool, i: nat, k: seq<Option<nat>>)
    requires |k| == |s.chars| + 1 && i < |k| && LoopAgrees(s, r, true, back)
    ensures var a, own := StdAgain(s, r, 0, None, true, back, i, k), Again(s, r, 0, None, true, back, i, k);
      forall j :: 0 <= j < |k| ==> own[j] == a[i := k[i]][j]
  {
    hide StdIterate, Iterate;
    var a, own := StdAgain(s, r, 0, None, true, back, i, k), Again(s, r, 0, None, true, back, i, k);
    forall j | 0 <= j < |k| ensures own[j] == a[i := k[i]][j] {
      assert Same(|s.chars| + 1, Iterate(s, r, 0, None, true, back, j), StdIterate(s, r, 0, None, true, back, j));
    }
  }

  /** Before the empty match nothing is accepted. */
  lemma ProbePre(s: Subject, r: Regex, back: bool, i: nat, p: nat, e: nat)
    requires i <= |s.chars| && e <= |s.chars|
    requires var js := StdEnds(s, r, back, i); p < |js| && i !in js[..p]
    ensures var js := StdEnds(s, r, back, i);
      Reached(s, r, true, back, js[..p], e) || First(StdAgain(s, r, 0, None, true, back, i, Probe(|s.chars| + 1, i, e)), js[..p]).None?
  {
    hide StdEnds, StdIterate;
    var js, k := StdEnds(s, r, back, i), Probe(|s.chars| + 1, i, e);
    var a := StdAgain(s, r, 0, None, true, back, i, k);
    FirstNone(a, js[..p]);
    if Reached(s, r, true, back, js[..p], e) { return; }
    forall j | j in js[..p] && j < |a| ensures a[j].None? {
      assert j in js;
      assert Toward(s, back, i, j);
      var x :| 0 <= x < p && js[..p][x] == j;
      FirstNone(k, StdIterate(s, r, 0, None, true, back, j));
      forall y | y in StdIterate(s, r, 0, None, true, back, j) && y < |k| ensures k[y].None? {
        assert Toward(s, back, j, y);
      }
    }
  }

  /** After it, the first thing accepted is the new end. */
  lemma ProbePost(s: Subject, r: Regex, back: bool, i: nat, p: nat, q: nat)
    requires i <= |s.chars|
    requires var js := StdEnds(s, r, back, i); p < q < |js| && js[q] != i
    ensures var e := StdEnds(s, r, back, i)[q];
      e <= |s.chars| && First(StdAgain(s, r, 0, None, true, back, i, Probe(|s.chars| + 1, i, e)), StdEnds(s, r, back, i)[p + 1..]) == Some(1)
  {
    hide StdEnds, StdIterate;
    var js := StdEnds(s, r, back, i);
    var e := js[q];
    assert e in js;
    assert Toward(s, back, i, e);
    var k := Probe(|s.chars| + 1, i, e);
    var a := StdAgain(s, r, 0, None, true, back, i, k);
    forall j | j in js && j < |a| ensures a[j].None? || a[j] == Some(1) {
      assert Toward(s, back, i, j);
      if j != i { ProbeFirst(s, k, StdIterate(s, r, 0, None, true, back, j), back, i, j, e); }
    }
    StdStop(s, r, None, true, back, e);
    FirstNone(k, StdIterate(s, r, 0, None, true, back, e));
    assert js[p + 1..][q - p - 1] == e;
    FirstNone(a, js[p + 1..]);
    OnlyOnes(a, js[p + 1..]);
  }

  lemma {:induction false} ProbeFirst(s: Subject, k: seq<Option<nat>>, ys: seq<nat>, back: bool, i: nat, j: nat, e: nat)
    requires i <= |s.chars| && k == Probe(|s.chars| + 1, i, e) && j != i && Toward(s, back, i, j)
    requires forall y :: y in ys ==> Toward(s, back, j, y)
    ensures First(k, ys).None? || First(k, ys) == Some(1)
  {
    if ys != [] {
      assert Toward(s, back, j, ys[0]);
      ProbeFirst(s, k, ys[1..], back, i, j, e);
    }
  }

  lemma {:induction false} OnlyOnes(a: seq<Option<nat>>, js: seq<nat>)
    requires forall j :: j in js && j < |a| ==> a[j].None? || a[j] == Some(1)
    ensures First(a, js).None? || First(a, js) == Some(1)
  {
    if js != [] {
      assert js[0] in js;
      OnlyOnes(a, js[1..]);
    }
  }

  /**
   When a greedy loop agrees with the standard on a subject, for every continuation and every start: if
   and only if the body never offers anything new after an empty match.
   */
  lemma GreedyLoopAgrees(s: Subject, r: Regex, back: bool)
    requires BodyAgrees(s, r, back)
    ensures LoopAgrees(s, r, true, back) <==> forall i :: 0 <= i <= |s.chars| ==> NothingNew(s, r, true, back, i)
  {
    hide StdEnds, StdIterate, Ends, Iterate, NothingNew, BodyAgrees;
    if forall i :: 0 <= i <= |s.chars| ==> NothingNew(s, r, true, back, i) {
      forall i, k: seq<Option<nat>> | 0 <= i <= |s.chars| && |k| == |s.chars| + 1
        ensures First(k, Iterate(s, r, 0, None, true, back, i)) == First(k, StdIterate(s, r, 0, None, true, back, i))
      {
        LoopAgreesAt(s, r, back, i, k);
      }
    }
    if LoopAgrees(s, r, true, back) {
      forall i | 0 <= i <= |s.chars| ensures NothingNew(s, r, true, back, i) {
        LoopsDiffer(s, r, back, i);
      }
    }
  }
}
