/**
 Loops with an upper bound, against section 21.2.2.5.1 of ECMA-262: an optional iteration that matches
 nothing counts like any other in libregexp.c, while the standard makes it fail.  For each kind of loop
 the exact condition on the body is given, in terms of what the standard finds.
 */
module RegexCounted {
  import opened Wrappers
  import opened RegexSyntax
  import opened RegexStandard

  /** Loops of at most n iterations find the same, from every start and for every continuation. */
  ghost predicate CountedAgree(s: Subject, r: Regex, n: nat, greedy: bool, back: bool) {
    forall i :: 0 <= i <= |s.chars| ==>
      Same(|s.chars| + 1, Iterate(s, r, 0, Some(n), greedy, back, i), StdIterate(s, r, 0, Some(n), greedy, back, i))
  }

  /** Whatever is offered after an empty match was offered before it. */
  ghost predicate NothingLater(s: Subject, r: Regex, back: bool, i: nat)
    requires i <= |s.chars|
  {
    var js := StdEnds(s, r, back, i);
    forall p, q :: 0 <= p < q < |js| && js[p] == i && i !in js[..p] && js[q] != i ==> js[q] in js[..p]
  }

  /** Whatever n - 1 more iterations reach from a later offer, they reach from an earlier one. */
  ghost predicate NothingNewWithin(s: Subject, r: Regex, n: nat, greedy: bool, back: bool, i: nat)
    requires i <= |s.chars| && 0 < n
  {
    var js := StdEnds(s, r, back, i);
    forall p, q :: 0 <= p < q < |js| && js[p] == i && i !in js[..p] && js[q] != i ==> AllReached(s, r, n - 1, greedy, back, js[..p], js[q])
  }

  ghost predicate AllReached(s: Subject, r: Regex, n: nat, greedy: bool, back: bool, js: seq<nat>, j: nat) {
    j <= |s.chars| ==> forall e :: e in StdIterate(s, r, 0, Some(n), greedy, back, j) ==> ReachedWithin(s, r, n, greedy, back, js, e)
  }

  ghost predicate ReachedWithin(s: Subject, r: Regex, n: nat, greedy: bool, back: bool, js: seq<nat>, e: nat) {
    exists a :: 0 <= a < |js| && js[a] <= |s.chars| && e in StdIterate(s, r, 0, Some(n), greedy, back, js[a])
  }

  lemma NoneLeft(s: Subject, r: Regex, greedy: bool, back: bool, i: nat)
    requires i <= |s.chars|
    ensures Iterate(s, r, 0, Some(0), greedy, back, i) == StdIterate(s, r, 0, Some(0), greedy, back, i) == [i]
  {
  }

  lemma NoIterations(s: Subject, r: Regex, greedy: bool, back: bool)
    ensures CountedAgree(s, r, 0, greedy, back)
  {
    hide Iterate, StdIterate;
    forall i | 0 <= i <= |s.chars| ensures Same(|s.chars| + 1, Iterate(s, r, 0, Some(0), greedy, back, i), StdIterate(s, r, 0, Some(0), greedy, back, i)) {
      NoneLeft(s, r, greedy, back, i);
    }
  }

  lemma LaterWithin(s: Subject, r: Regex, n: nat, greedy: bool, back: bool, i: nat)
    requires i <= |s.chars| && 0 < n && NothingLater(s, r, back, i)
    ensures NothingNewWithin(s, r, n, greedy, back, i)
  {
    hide StdEnds, StdIterate;
    var js := StdEnds(s, r, back, i);
    forall p, q | 0 <= p < q < |js| && js[p] == i && i !in js[..p] && js[q] != i ensures AllReached(s, r, n - 1, greedy, back, js[..p], js[q]) {
      var a :| 0 <= a < p && js[..p][a] == js[q];
      OwnReached(s, r, n - 1, greedy, back, js[..p], a);
    }
  }

  lemma OwnReached(s: Subject, r: Regex, n: nat, greedy: bool, back: bool, js: seq<nat>, a: nat)
    requires a < |js|
    ensures AllReached(s, r, n, greedy, back, js, js[a])
  {
    hide StdIterate;
  }

  lemma ReachedBy(s: Subject, r: Regex, n: nat, greedy: bool, back: bool, js: seq<nat>, j: nat, e: nat) returns (a: nat)
    requires j <= |s.chars| && e in StdIterate(s, r, 0, Some(n), greedy, back, j) && AllReached(s, r, n, greedy, back, js, j)
    ensures a < |js| && js[a] <= |s.chars| && e in StdIterate(s, r, 0, Some(n), greedy, back, js[a])
  {
    hide StdIterate;
    assert ReachedWithin(s, r, n, greedy, back, js, e);
    a :| 0 <= a < |js| && js[a] <= |s.chars| && e in StdIterate(s, r, 0, Some(n), greedy, back, js[a]);
  }

  lemma WithinOne(s: Subject, r: Regex, back: bool, i: nat)
    requires i <= |s.chars| && NothingNewWithin(s, r, 1, true, back, i)
    ensures NothingLater(s, r, back, i)
  {
    hide StdEnds, StdIterate;
    var js := StdEnds(s, r, back, i);
    forall p, q | 0 <= p < q < |js| && js[p] == i && i !in js[..p] && js[q] != i ensures js[q] in js[..p] {
      assert js[q] in js;
      assert Toward(s, back, i, js[q]);
      NoneLeft(s, r, true, back, js[q]);
      var a := ReachedBy(s, r, 0, true, back, js[..p], js[q], js[q]);
      NoneLeft(s, r, true, back, js[..p][a]);
    }
  }

  // ---------------------------------------------------- the condition is enough

  /** One more iteration: the two loops go on from the same list, but for the empty match. */
  lemma Continuations(s: Subject, r: Regex, n: nat, greedy: bool, back: bool, i: nat, k: seq<Option<nat>>)
    requires |k| == |s.chars| + 1 && i < |k| && 0 < n && BodyAgrees(s, r, back) && CountedAgree(s, r, n - 1, greedy, back)
    ensures var a, js := StdAgain(s, r, 0, Some(n), greedy, back, i, k), StdEnds(s, r, back, i);
      var v := First(k, StdIterate(s, r, 0, Some(n - 1), greedy, back, i));
      && First(Again(s, r, 0, Some(n), greedy, back, i, k), Ends(s, r, back, i)) == First(a[i := v], js)
      && a[i].None?
  {
    hide StdEnds, StdIterate, Ends, Iterate;
    var a, own := StdAgain(s, r, 0, Some(n), greedy, back, i, k), Again(s, r, 0, Some(n), greedy, back, i, k);
    var v := First(k, StdIterate(s, r, 0, Some(n - 1), greedy, back, i));
    assert Same(|s.chars| + 1, Ends(s, r, back, i), StdEnds(s, r, back, i));
    forall j | 0 <= j < |k| ensures own[j] == a[i := v][j] {
      assert Same(|s.chars| + 1, Iterate(s, r, 0, Some(n - 1), greedy, back, j), StdIterate(s, r, 0, Some(n - 1), greedy, back, j));
    }
    assert own == a[i := v];
  }

  /** When the offers before the empty match fail, those after it do. */
  lemma LaterFails(s: Subject, r: Regex, n: nat, greedy: bool, back: bool, i: nat, p: nat, k: seq<Option<nat>>)
    requires |k| == |s.chars| + 1 && i < |k| && 0 < n && NothingNewWithin(s, r, n, greedy, back, i)
    requires var js := StdEnds(s, r, back, i); p < |js| && js[p] == i && i !in js[..p]
    requires First(StdAgain(s, r, 0, Some(n), greedy, back, i, k), StdEnds(s, r, back, i)[..p]).None?
    ensures First(StdAgain(s, r, 0, Some(n), greedy, back, i, k), StdEnds(s, r, back, i)[p + 1..]).None?
  {
    hide StdEnds, StdIterate, AllReached;
    var a, js := StdAgain(s, r, 0, Some(n), greedy, back, i, k), StdEnds(s, r, back, i);
    FirstNone(a, js[..p]);
    FirstNone(a, js[p + 1..]);
    forall x | x in js[..p] && x < |k| ensures First(k, StdIterate(s, r, 0, Some(n - 1), greedy, back, x)).None? {
      assert a[x].None?;
    }
    forall j | j in js[p + 1..] && j < |a| ensures a[j].None? {
      if j != i {
        var q :| 0 <= q < |js[p + 1..]| && js[p + 1..][q] == j;
        assert js[p + 1 + q] == j;
        AllFail(s, r, n - 1, greedy, back, js[..p], j, k);
      }
    }
  }

  /** What is reached from failing offers fails. */
  lemma AllFail(s: Subject, r: Regex, n: nat, greedy: bool, back: bool, js: seq<nat>, j: nat, k: seq<Option<nat>>)
    requires |k| == |s.chars| + 1 && j < |k| && AllReached(s, r, n, greedy, back, js, j)
    requires forall x :: x in js && x < |k| ==> First(k, StdIterate(s, r, 0, Some(n), greedy, back, x)).None?
    ensures First(k, StdIterate(s, r, 0, Some(n), greedy, back, j)).None?
  {
    hide StdIterate, AllReached;
    var es := StdIterate(s, r, 0, Some(n), greedy, back, j);
    FirstNone(k, es);
    forall e | e in es && e < |k| ensures k[e].None? {
      var a := ReachedBy(s, r, n, greedy, back, js, j, e);
      assert js[a] in js;
      FirstNone(k, StdIterate(s, r, 0, Some(n), greedy, back, js[a]));
    }
  }

  /** With one iteration less the loop can only stop, if every other candidate fails. */
  lemma ValueAtEmpty(s: Subject, r: Regex, n: nat, greedy: bool, back: bool, i: nat, p: nat, k: seq<Option<nat>>)
    requires |k| == |s.chars| + 1 && i < |k| && 0 < n && NothingNewWithin(s, r, n, greedy, back, i)
    requires var js := StdEnds(s, r, back, i); p < |js| && js[p] == i && i !in js[..p]
    requires First(StdAgain(s, r, 0, Some(n), greedy, back, i, k), StdEnds(s, r, back, i)[..p]).None?
    ensures First(k, StdIterate(s, r, 0, Some(n - 1), greedy, back, i)) == k[i]
  {
    hide StdEnds, StdIterate, NothingNewWithin, StdAgain;
    if n == 1 {
      NoneLeft(s, r, greedy, back, i);
      FirstOne(k, i);
    } else {
      var js, a := StdEnds(s, r, back, i), StdAgain(s, r, 0, Some(n), greedy, back, i, k);
      LaterFails(s, r, n, greedy, back, i, p, k);
      StdRound(s, r, 0, Some(n - 1), greedy, back, i, k);
      FirstNone(a, js[..p]);
      FirstNone(a, js[p + 1..]);
      assert js == js[..p] + [i] + js[p + 1..];
      StillFails(s, r, n, greedy, back, i, k);
    }
  }

  lemma StillFails(s: Subject, r: Regex, n: nat, greedy: bool, back: bool, i: nat, k: seq<Option<nat>>)
    requires |k| == |s.chars| + 1 && i < |k| && 2 <= n
    requires forall j :: j in StdEnds(s, r, back, i) && j < |k| && j != i ==> StdAgain(s, r, 0, Some(n), greedy, back, i, k)[j].None?
    ensures First(StdAgain(s, r, 0, Some(n - 1), greedy, back, i, k), StdEnds(s, r, back, i)).None?
  {
    hide StdEnds, StdIterate;
    var js, a, b := StdEnds(s, r, back, i), StdAgain(s, r, 0, Some(n), greedy, back, i, k), StdAgain(s, r, 0, Some(n - 1), greedy, back, i, k);
    FirstNone(b, js);
    forall j | j in js && j < |b| ensures b[j].None? {
      if j != i {
        assert a[j].None?;
        FewerFails(s, r, n - 2, greedy, back, j, k);
      }
    }
  }

  lemma FewerFails(s: Subject, r: Regex, n: nat, greedy: bool, back: bool, j: nat, k: seq<Option<nat>>)
    requires |k| == |s.chars| + 1 && j < |k|
    ensures First(k, StdIterate(s, r, 0, Some(n + 1), greedy, back, j)).None? ==> First(k, StdIterate(s, r, 0, Some(n), greedy, back, j)).None?
  {
    hide StdIterate;
    FirstNone(k, StdIterate(s, r, 0, Some(n + 1), greedy, back, j));
    FirstNone(k, StdIterate(s, r, 0, Some(n), greedy, back, j));
    forall e | e in StdIterate(s, r, 0, Some(n), greedy, back, j) ensures e in StdIterate(s, r, 0, Some(n + 1), greedy, back, j) {
      StdFewer(s, r, n, greedy, back, j, e);
    }
  }

  /** Going on from the empty match gives nothing that the rest of the round does not give. */
  lemma CountedRound(s: Subject, r: Regex, n: nat, greedy: bool, back: bool, i: nat, k: seq<Option<nat>>)
    requires |k| == |s.chars| + 1 && i < |k| && 0 < n && NothingNewWithin(s, r, n, greedy, back, i)
    ensures var a := StdAgain(s, r, 0, Some(n), greedy, back, i, k);
      var js, v := StdEnds(s, r, back, i), First(k, StdIterate(s, r, 0, Some(n - 1), greedy, back, i));
      if greedy then Either(First(a[i := v], js), k[i]) == Either(First(a, js), k[i])
      else Either(k[i], First(a[i := v], js)) == Either(k[i], First(a, js))
  {
    hide StdEnds, StdIterate;
    var a := StdAgain(s, r, 0, Some(n), greedy, back, i, k);
    var js, v := StdEnds(s, r, back, i), First(k, StdIterate(s, r, 0, Some(n - 1), greedy, back, i));
    if i !in js {
      FirstCong(a, a[i := v], js);
    } else {
      var p := Index(js, i);
      AroundIs(js, i, p, a, k[i := v]);
      if First(a, js[..p]).None? {
        LaterFails(s, r, n, greedy, back, i, p, k);
        ValueAtEmpty(s, r, n, greedy, back, i, p, k);
      }
    }
  }

  lemma CountedStepAgrees(s: Subject, r: Regex, n: nat, greedy: bool, back: bool)
    requires 0 < n && BodyAgrees(s, r, back) && CountedAgree(s, r, n - 1, greedy, back)
    requires forall i :: 0 <= i <= |s.chars| ==> NothingNewWithin(s, r, n, greedy, back, i)
    ensures CountedAgree(s, r, n, greedy, back)
  {
    hide StdEnds, StdIterate, Ends, Iterate, NothingNewWithin, BodyAgrees;
    forall i, k: seq<Option<nat>> | 0 <= i <= |s.chars| && |k| == |s.chars| + 1
      ensures First(k, Iterate(s, r, 0, Some(n), greedy, back, i)) == First(k, StdIterate(s, r, 0, Some(n), greedy, back, i))
    {
      OwnRound(s, r, 0, Some(n), greedy, back, i, k);
      StdRound(s, r, 0, Some(n), greedy, back, i, k);
      Continuations(s, r, n, greedy, back, i, k);
      CountedRound(s, r, n, greedy, back, i, k);
    }
  }

  /** If nothing is offered after an empty match that was not offered before, every counted loop agrees. */
  lemma {:induction false} CountedChain(s: Subject, r: Regex, n: nat, greedy: bool, back: bool)
    requires BodyAgrees(s, r, back) && forall i :: 0 <= i <= |s.chars| ==> NothingLater(s, r, back, i)
    ensures CountedAgree(s, r, n, greedy, back)
  {
    hide BodyAgrees, NothingLater, NothingNewWithin, CountedAgree;
    if n == 0 {
      NoIterations(s, r, greedy, back);
    } else {
      CountedChain(s, r, n - 1, greedy, back);
      forall i | 0 <= i <= |s.chars| ensures NothingNewWithin(s, r, n, greedy, back, i) { LaterWithin(s, r, n, greedy, back, i); }
      CountedStepAgrees(s, r, n, greedy, back);
    }
  }

  // ------------------------------------------------- greedy: it is also necessary

  lemma {:induction false} OwnEachFrom(s: Subject, r: Regex, n: nat, greedy: bool, back: bool, i: nat, js: seq<nat>, e: nat) returns (j: nat)
    requires i <= |s.chars| && 0 < n && (forall j :: j in js ==> Toward(s, back, i, j))
    requires e in IterateEach(s, r, 0, Some(n), greedy, back, i, js)
    ensures j in js && j <= |s.chars| && e in Iterate(s, r, 0, Some(n - 1), greedy, back, j)
  {
    assert Toward(s, back, i, js[0]);
    if e in Iterate(s, r, 0, Some(n - 1), greedy, back, js[0]) {
      j := js[0];
    } else {
      j := OwnEachFrom(s, r, n, greedy, back, i, js[1..], e);
    }
  }

  lemma {:induction false} OwnFewer(s: Subject, r: Regex, n: nat, greedy: bool, back: bool, i: nat, e: nat)
    requires i <= |s.chars| && e in Iterate(s, r, 0, Some(n), greedy, back, i)
    ensures e in Iterate(s, r, 0, Some(n + 1), greedy, back, i)
    decreases n
  {
    if e == i {
      assert i in [i];
    } else {
      var js := Ends(s, r, back, i);
      var a := OwnEachFrom(s, r, n, greedy, back, i, js, e);
      OwnFewer(s, r, n - 1, greedy, back, a, e);
      IterateEachHas(s, r, 0, Some(n + 1), greedy, back, i, js, a, e);
    }
  }

  lemma OwnFewerFails(s: Subject, r: Regex, n: nat, greedy: bool, back: bool, j: nat, k: seq<Option<nat>>)
    requires |k| == |s.chars| + 1 && j < |k|
    ensures First(k, Iterate(s, r, 0, Some(n + 1), greedy, back, j)).None? ==> First(k, Iterate(s, r, 0, Some(n), greedy, back, j)).None?
  {
    hide Iterate;
    FirstNone(k, Iterate(s, r, 0, Some(n + 1), greedy, back, j));
    FirstNone(k, Iterate(s, r, 0, Some(n), greedy, back, j));
    forall e | e in Iterate(s, r, 0, Some(n), greedy, back, j) ensures e in Iterate(s, r, 0, Some(n + 1), greedy, back, j) {
      OwnFewer(s, r, n, greedy, back, j, e);
    }
  }

  /** In libregexp.c the start comes right after what the offers before the empty match lead to. */
  lemma {:induction false} OwnStops(s: Subject, r: Regex, m: nat, back: bool, i: nat, p: nat, k: seq<Option<nat>>)
    requires |k| == |s.chars| + 1 && i < |k| && k[i].Some? && BodyAgrees(s, r, back)
    requires var js := StdEnds(s, r, back, i); p < |js| && js[p] == i
    requires forall j :: j in StdEnds(s, r, back, i)[..p] && j < |k| ==> First(k, Iterate(s, r, 0, Some(m), true, back, j)).None?
    ensures First(k, Iterate(s, r, 0, Some(m), true, back, i)) == k[i]
    decreases m
  {
    hide StdEnds, Ends, Iterate;
    if m == 0 {
      NoneLeft(s, r, true, back, i);
      FirstOne(k, i);
    } else {
      var js, own := StdEnds(s, r, back, i), Again(s, r, 0, Some(m), true, back, i, k);
      OwnRound(s, r, 0, Some(m), true, back, i, k);
      assert Same(|s.chars| + 1, Ends(s, r, back, i), js);
      FirstNone(own, js[..p]);
      forall j | j in js[..p] && j < |k| ensures First(k, Iterate(s, r, 0, Some(m - 1), true, back, j)).None? {
        OwnFewerFails(s, r, m - 1, true, back, j, k);
      }
      OwnStops(s, r, m - 1, back, i, p, k);
      assert js == js[..p] + ([i] + js[p + 1..]);
      FirstAppend(own, js[..p], [i] + js[p + 1..]);
      FirstAppend(own, [i], js[p + 1..]);
      FirstOne(own, i);
    }
  }

  /** Something new from a later offer shows the difference. */
  lemma DistinguishCounted(s: Subject, r: Regex, n: nat, back: bool, i: nat, p: nat, q: nat, e: nat)
    requires i <= |s.chars| && 0 < n && BodyAgrees(s, r, back) && CountedAgree(s, r, n - 1, true, back) && CountedAgree(s, r, n, true, back)
    requires var js := StdEnds(s, r, back, i);
      p < q < |js| && js[p] == i && i !in js[..p] && js[q] != i && js[q] <= |s.chars| && e in StdIterate(s, r, 0, Some(n - 1), true, back, js[q])
    ensures ReachedWithin(s, r, n - 1, true, back, StdEnds(s, r, back, i)[..p], e)
  {
    hide StdEnds, StdIterate, Ends, Iterate, ReachedWithin, BodyAgrees, CountedAgree;
    var js := StdEnds(s, r, back, i);
    if !ReachedWithin(s, r, n - 1, true, back, js[..p], e) {
      assert js[q] in js;
      assert Toward(s, back, i, js[q]) && Toward(s, back, js[q], e);
      var k := Probe(|s.chars| + 1, i, e);
      var a := StdAgain(s, r, 0, Some(n), true, back, i, k);
      OwnRound(s, r, 0, Some(n), true, back, i, k);
      StdRound(s, r, 0, Some(n), true, back, i, k);
      Continuations(s, r, n, true, back, i, k);
      var v := First(k, StdIterate(s, r, 0, Some(n - 1), true, back, i));
      AroundIs(js, i, p, a, k[i := v]);
      ProbeEarlier(s, r, n, back, i, p, e);
      ProbeLater(s, r, n, back, i, p, q, e);
      ProbeStart(s, r, n, back, i, p, k);
      AgreeAt(s, r, n, back, i, k);
    }
  }

  lemma AgreeAt(s: Subject, r: Regex, n: nat, back: bool, i: nat, k: seq<Option<nat>>)
    requires |k| == |s.chars| + 1 && i < |k| && CountedAgree(s, r, n, true, back)
    ensures First(k, Iterate(s, r, 0, Some(n), true, back, i)) == First(k, StdIterate(s, r, 0, Some(n), true, back, i))
  {
    hide Iterate, StdIterate;
    assert Same(|s.chars| + 1, Iterate(s, r, 0, Some(n), true, back, i), StdIterate(s, r, 0, Some(n), true, back, i));
  }

  /** Before the empty match nothing is accepted. */
  lemma ProbeEarlier(s: Subject, r: Regex, n: nat, back: bool, i: nat, p: nat, e: nat)
    requires i <= |s.chars| && 0 < n && p < |StdEnds(s, r, back, i)| && i !in StdEnds(s, r, back, i)[..p]
    requires !ReachedWithin(s, r, n - 1, true, back, StdEnds(s, r, back, i)[..p], e)
    ensures First(StdAgain(s, r, 0, Some(n), true, back, i, Probe(|s.chars| + 1, i, e)), StdEnds(s, r, back, i)[..p]).None?
  {
    hide StdEnds, StdIterate;
    var js, k := StdEnds(s, r, back, i), Probe(|s.chars| + 1, i, e);
    var a := StdAgain(s, r, 0, Some(n), true, back, i, k);
    FirstNone(a, js[..p]);
    forall j | j in js[..p] && j < |a| ensures a[j].None? {
      assert j in js;
      assert Toward(s, back, i, j);
      var x :| 0 <= x < p && js[..p][x] == j;
      var es := StdIterate(s, r, 0, Some(n - 1), true, back, j);
      FirstNone(k, es);
      forall y | y in es && y < |k| ensures k[y].None? {
        assert Toward(s, back, j, y);
      }
    }
  }

  /** After it, the first thing accepted is the new end. */
  lemma ProbeLater(s: Subject, r: Regex, n: nat, back: bool, i: nat, p: nat, q: nat, e: nat)
    requires i <= |s.chars| && 0 < n
    requires var js := StdEnds(s, r, back, i);
      p < q < |js| && js[q] != i && js[q] <= |s.chars| && e in StdIterate(s, r, 0, Some(n - 1), true, back, js[q])
    ensures First(StdAgain(s, r, 0, Some(n), true, back, i, Probe(|s.chars| + 1, i, e)), StdEnds(s, r, back, i)[p + 1..]) == Some(1)
  {
    hide StdEnds, StdIterate;
    var js, k := StdEnds(s, r, back, i), Probe(|s.chars| + 1, i, e);
    var a := StdAgain(s, r, 0, Some(n), true, back, i, k);
    forall j | j in js && j < |a| ensures a[j].None? || a[j] == Some(1) {
      assert Toward(s, back, i, j);
      if j != i { ProbeFirst(s, k, StdIterate(s, r, 0, Some(n - 1), true, back, j), back, i, j, e); }
    }
    assert js[q] in js;
    assert Toward(s, back, i, js[q]) && Toward(s, back, js[q], e);
    FirstNone(k, StdIterate(s, r, 0, Some(n - 1), true, back, js[q]));
    assert js[p + 1..][q - p - 1] == js[q];
    FirstNone(a, js[p + 1..]);
    OnlyOnes(a, js[p + 1..]);
  }

  /** At it, the loop of libregexp.c stops. */
  lemma ProbeStart(s: Subject, r: Regex, n: nat, back: bool, i: nat, p: nat, k: seq<Option<nat>>)
    requires |k| == |s.chars| + 1 && i < |k| && k[i].Some? && 0 < n && BodyAgrees(s, r, back) && CountedAgree(s, r, n - 1, true, back)
    requires var js := StdEnds(s, r, back, i); p < |js| && js[p] == i && i !in js[..p]
    requires First(StdAgain(s, r, 0, Some(n), true, back, i, k), StdEnds(s, r, back, i)[..p]).None?
    ensures First(k, StdIterate(s, r, 0, Some(n - 1), true, back, i)) == k[i]
  {
    hide StdEnds, StdIterate, Iterate, BodyAgrees, CountedAgree;
    var a, js := StdAgain(s, r, 0, Some(n), true, back, i, k), StdEnds(s, r, back, i);
    FirstNone(a, js[..p]);
    forall j | j in js[..p] && j < |k| ensures First(k, Iterate(s, r, 0, Some(n - 1), true, back, j)).None? {
      AgreeAt(s, r, n - 1, back, j, k);
    }
    OwnStops(s, r, n - 1, back, i, p, k);
    AgreeAt(s, r, n - 1, back, i, k);
  }

  /**
   One iteration more: where greedy loops of n - 1 iterations agree, those of n iterations agree if and
   only if nothing new is reached from an offer after an empty match.
   */
  lemma CountedLoopAgrees(s: Subject, r: Regex, n: nat, back: bool)
    requires 0 < n && BodyAgrees(s, r, back) && CountedAgree(s, r, n - 1, true, back)
    ensures CountedAgree(s, r, n, true, back) <==> forall i :: 0 <= i <= |s.chars| ==> NothingNewWithin(s, r, n, true, back, i)
  {
    hide StdEnds, StdIterate, NothingNewWithin, BodyAgrees, CountedAgree;
    if forall i :: 0 <= i <= |s.chars| ==> NothingNewWithin(s, r, n, true, back, i) {
      CountedStepAgrees(s, r, n, true, back);
    }
    if CountedAgree(s, r, n, true, back) {
      forall i | 0 <= i <= |s.chars| ensures NothingNewWithin(s, r, n, true, back, i) {
        CountedStepDiffers(s, r, n, back, i);
      }
    }
  }

  lemma CountedStepDiffers(s: Subject, r: Regex, n: nat, back: bool, i: nat)
    requires i <= |s.chars| && 0 < n && BodyAgrees(s, r, back) && CountedAgree(s, r, n - 1, true, back) && CountedAgree(s, r, n, true, back)
    ensures NothingNewWithin(s, r, n, true, back, i)
  {
    hide StdEnds, StdIterate, BodyAgrees, CountedAgree, ReachedWithin;
    var js := StdEnds(s, r, back, i);
    forall p, q | 0 <= p < q < |js| && js[p] == i && i !in js[..p] && js[q] != i ensures AllReached(s, r, n - 1, true, back, js[..p], js[q]) {
      if js[q] <= |s.chars| {
        var pre, es := js[..p], StdIterate(s, r, 0, Some(n - 1), true, back, js[q]);
        forall e | e in es ensures ReachedWithin(s, r, n - 1, true, back, pre, e) {
          DistinguishCounted(s, r, n, back, i, p, q, e);
        }
      }
    }
  }

  /** The greedy `?`: it agrees if and only if nothing is offered after an empty match that was not offered before. */
  lemma OptionalLoopAgrees(s: Subject, r: Regex, back: bool)
    requires BodyAgrees(s, r, back)
    ensures CountedAgree(s, r, 1, true, back) <==> forall i :: 0 <= i <= |s.chars| ==> NothingLater(s, r, back, i)
  {
    hide BodyAgrees, CountedAgree, NothingLater, NothingNewWithin;
    NoIterations(s, r, true, back);
    CountedLoopAgrees(s, r, 1, back);
    if forall i :: 0 <= i <= |s.chars| ==> NothingLater(s, r, back, i) { CountedChain(s, r, 1, true, back); }
    if forall i :: 0 <= i <= |s.chars| ==> NothingNewWithin(s, r, 1, true, back, i) {
      forall i | 0 <= i <= |s.chars| ensures NothingLater(s, r, back, i) { WithinOne(s, r, back, i); }
    }
  }

  /** The same condition decides whether all greedy loops of at most n iterations agree, for any n >= 1. */
  lemma CountedLoopsAgree(s: Subject, r: Regex, n: nat, back: bool)
    requires 0 < n && BodyAgrees(s, r, back)
    ensures (forall m :: 0 <= m <= n ==> CountedAgree(s, r, m, true, back)) <==> forall i :: 0 <= i <= |s.chars| ==> NothingLater(s, r, back, i)
  {
    hide BodyAgrees, CountedAgree, NothingLater;
    OptionalLoopAgrees(s, r, back);
    if forall i :: 0 <= i <= |s.chars| ==> NothingLater(s, r, back, i) {
      forall m | 0 <= m <= n ensures CountedAgree(s, r, m, true, back) { CountedChain(s, r, m, true, back); }
    }
  }

  // ---------------------------------------------------------------- reluctant loops

  /** A reluctant loop without upper bound always agrees: its start is tried first. */
  lemma {:induction false} ReluctantAgrees(s: Subject, r: Regex, back: bool, i: nat, k: seq<Option<nat>>)
    requires |k| == |s.chars| + 1 && i < |k| && BodyAgrees(s, r, back)
    ensures First(k, Iterate(s, r, 0, None, false, back, i)) == First(k, StdIterate(s, r, 0, None, false, back, i))
    decreases Room(s, back, i)
  {
    hide StdEnds, StdIterate, Ends, Iterate;
    var js := StdEnds(s, r, back, i);
    var a, own := StdAgain(s, r, 0, None, false, back, i, k), Again(s, r, 0, None, false, back, i, k);
    OwnRound(s, r, 0, None, false, back, i, k);
    StdRound(s, r, 0, None, false, back, i, k);
    assert Same(|s.chars| + 1, Ends(s, r, back, i), js);
    if k[i].None? {
      forall j | j in js && j < |own| ensures own[j] == a[j] {
        assert Toward(s, back, i, j);
        if j != i { ReluctantAgrees(s, r, back, j, k); }
      }
      FirstCong(own, a, js);
    }
  }

  /** What is new in `front` stands at the front of what is new in `rest`, in the same order. */
  ghost predicate InOrder(tried: seq<nat>, front: seq<nat>, rest: seq<nat>) {
    forall x :: 0 <= x < |front| && front[x] !in tried && front[x] !in front[..x] ==> NextIs(tried, front, x, rest)
  }

  ghost predicate NextIs(tried: seq<nat>, front: seq<nat>, x: nat, rest: seq<nat>)
    requires x < |front|
  {
    exists y :: 0 <= y < |rest| && rest[y] == front[x] && forall z :: 0 <= z < y ==> rest[z] in tried || rest[z] in front[..x]
  }

  ghost predicate Rejects(k: seq<Option<nat>>, js: seq<nat>) {
    forall j :: j in js && j < |k| ==> k[j].None?
  }

  /** Trying `front` first makes no difference, for continuations that reject what has been tried. */
  ghost predicate NoDifference(n: nat, tried: seq<nat>, front: seq<nat>, rest: seq<nat>) {
    forall k: seq<Option<nat>> :: |k| == n && Rejects(k, tried) ==> Either(First(k, front), First(k, rest)) == First(k, rest)
  }

  lemma {:induction false} FirstAccepted(k: seq<Option<nat>>, js: seq<nat>) returns (x: nat)
    requires First(k, js).Some?
    ensures x < |js| && js[x] < |k| && First(k, js) == k[js[x]] && k[js[x]].Some? && Rejects(k, js[..x])
  {
    if js[0] < |k| && k[js[0]].Some? {
      x := 0;
    } else {
      x := FirstAccepted(k, js[1..]);
      x := x + 1;
      assert js[..x] == [js[0]] + js[1..][..x - 1];
    }
  }

  lemma SkipRejected(k: seq<Option<nat>>, js: seq<nat>, y: nat)
    requires y < |js| && js[y] < |k| && k[js[y]].Some? && Rejects(k, js[..y])
    ensures First(k, js) == k[js[y]]
  {
    assert js == js[..y] + ([js[y]] + js[y + 1..]);
    FirstNone(k, js[..y]);
    FirstAppend(k, js[..y], [js[y]] + js[y + 1..]);
  }

  lemma OrderSuffices(n: nat, tried: seq<nat>, front: seq<nat>, rest: seq<nat>)
    requires InOrder(tried, front, rest)
    ensures NoDifference(n, tried, front, rest)
  {
    forall k: seq<Option<nat>> | |k| == n && Rejects(k, tried) ensures Either(First(k, front), First(k, rest)) == First(k, rest) {
      if First(k, front).Some? {
        var x := FirstAccepted(k, front);
        assert NextIs(tried, front, x, rest);
        var y :| 0 <= y < |rest| && rest[y] == front[x] && forall z :: 0 <= z < y ==> rest[z] in tried || rest[z] in front[..x];
        SkipRejected(k, rest, y);
      }
    }
  }

  lemma OrderNeeded(n: nat, tried: seq<nat>, front: seq<nat>, rest: seq<nat>)
    requires NoDifference(n, tried, front, rest) && forall j :: j in front || j in rest ==> j < n
    ensures InOrder(tried, front, rest)
  {
    forall x | 0 <= x < |front| && front[x] !in tried && front[x] !in front[..x] ensures NextIs(tried, front, x, rest) {
      var e := front[x];
      var k: seq<Option<nat>> := seq(n, j requires 0 <= j => if j == e then Some(0) else if j in tried || j in front[..x] then None else Some(1));
      assert e in front;
      SkipRejected(k, front, x);
      assert First(k, rest) == Some(0);
      var y := FirstAccepted(k, rest);
      assert rest[y] == e;
      forall z | 0 <= z < y ensures rest[z] in tried || rest[z] in front[..x] {
        assert rest[z] == rest[..y][z];
        assert rest[z] in rest && rest[z] in rest[..y];
        assert k[rest[z]].None?;
      }
    }
  }

  /** What the loop of n - 1 iterations adds at the empty match comes in the standard's order anyway. */
  ghost predicate ReluctantKeeps(s: Subject, r: Regex, n: nat, back: bool, i: nat)
    requires i <= |s.chars| && 0 < n
  {
    var js := StdEnds(s, r, back, i);
    forall p :: 0 <= p < |js| && js[p] == i && i !in js[..p] ==>
      InOrder([i] + StdIterateEach(s, r, 0, Some(n), false, back, i, js[..p]), StdIterate(s, r, 0, Some(n - 1), false, back, i),
              StdIterateEach(s, r, 0, Some(n), false, back, i, js[p + 1..]))
  }

  /** The round of a reluctant loop, as lists. */
  lemma ReluctantRound(s: Subject, r: Regex, n: nat, back: bool, i: nat, p: nat, k: seq<Option<nat>>)
    requires |k| == |s.chars| + 1 && i < |k| && 0 < n && BodyAgrees(s, r, back) && CountedAgree(s, r, n - 1, false, back)
    requires var js := StdEnds(s, r, back, i); p < |js| && js[p] == i && i !in js[..p]
    ensures var js := StdEnds(s, r, back, i);
      var tried, front, rest := StdIterateEach(s, r, 0, Some(n), false, back, i, js[..p]), StdIterate(s, r, 0, Some(n - 1), false, back, i),
        StdIterateEach(s, r, 0, Some(n), false, back, i, js[p + 1..]);
      && First(k, Iterate(s, r, 0, Some(n), false, back, i)) == Either(k[i], Either(First(k, tried), Either(First(k, front), First(k, rest))))
      && First(k, StdIterate(s, r, 0, Some(n), false, back, i)) == Either(k[i], Either(First(k, tried), First(k, rest)))
  {
    hide StdEnds, StdIterate, Ends, Iterate, BodyAgrees, CountedAgree;
    var js := StdEnds(s, r, back, i);
    var a := StdAgain(s, r, 0, Some(n), false, back, i, k);
    var v := First(k, StdIterate(s, r, 0, Some(n - 1), false, back, i));
    OwnRound(s, r, 0, Some(n), false, back, i, k);
    StdRound(s, r, 0, Some(n), false, back, i, k);
    Continuations(s, r, n, false, back, i, k);
    AroundIs(js, i, p, a, k[i := v]);
    StdFirstIterateEach(s, r, 0, Some(n), false, back, i, js[..p], k);
    StdFirstIterateEach(s, r, 0, Some(n), false, back, i, js[p + 1..], k);
  }

  lemma RejectsOld(k: seq<Option<nat>>, i: nat, js: seq<nat>)
    requires i < |k|
    ensures Rejects(k, [i] + js) <==> k[i].None? && First(k, js).None?
  {
    FirstNone(k, js);
    assert forall j :: j in [i] + js <==> j == i || j in js;
  }

  lemma ReluctantStepAgrees(s: Subject, r: Regex, n: nat, back: bool)
    requires 0 < n && BodyAgrees(s, r, back) && CountedAgree(s, r, n - 1, false, back)
    requires forall i :: 0 <= i <= |s.chars| ==> ReluctantKeeps(s, r, n, back, i)
    ensures CountedAgree(s, r, n, false, back)
  {
    hide StdEnds, StdIterate, Ends, Iterate, BodyAgrees, StdIterateEach, InOrder;
    forall i, k: seq<Option<nat>> | 0 <= i <= |s.chars| && |k| == |s.chars| + 1
      ensures First(k, Iterate(s, r, 0, Some(n), false, back, i)) == First(k, StdIterate(s, r, 0, Some(n), false, back, i))
    {
      var js := StdEnds(s, r, back, i);
      if i in js {
        var p := Index(js, i);
        assert ReluctantKeeps(s, r, n, back, i);
        ReluctantRound(s, r, n, back, i, p, k);
        var tried := StdIterateEach(s, r, 0, Some(n), false, back, i, js[..p]);
        OrderSuffices(|k|, [i] + tried, StdIterate(s, r, 0, Some(n - 1), false, back, i), StdIterateEach(s, r, 0, Some(n), false, back, i, js[p + 1..]));
        RejectsOld(k, i, tried);
      } else {
        MovingRound(s, r, n, false, back, i, k);
      }
    }
  }

  /** Without an empty match there is nothing to differ about. */
  lemma MovingRound(s: Subject, r: Regex, n: nat, greedy: bool, back: bool, i: nat, k: seq<Option<nat>>)
    requires |k| == |s.chars| + 1 && i < |k| && 0 < n && BodyAgrees(s, r, back) && CountedAgree(s, r, n - 1, greedy, back)
    requires i !in StdEnds(s, r, back, i)
    ensures First(k, Iterate(s, r, 0, Some(n), greedy, back, i)) == First(k, StdIterate(s, r, 0, Some(n), greedy, back, i))
  {
    hide StdEnds, StdIterate, Ends, Iterate, BodyAgrees, CountedAgree;
    var js, a := StdEnds(s, r, back, i), StdAgain(s, r, 0, Some(n), greedy, back, i, k);
    OwnRound(s, r, 0, Some(n), greedy, back, i, k);
    StdRound(s, r, 0, Some(n), greedy, back, i, k);
    Continuations(s, r, n, greedy, back, i, k);
    FirstCong(a, a[i := First(k, StdIterate(s, r, 0, Some(n - 1), greedy, back, i))], js);
  }

  lemma ReluctantStepDiffers(s: Subject, r: Regex, n: nat, back: bool, i: nat)
    requires i <= |s.chars| && 0 < n && BodyAgrees(s, r, back) && CountedAgree(s, r, n - 1, false, back) && CountedAgree(s, r, n, false, back)
    ensures ReluctantKeeps(s, r, n, back, i)
  {
    hide StdEnds, StdIterate, Ends, Iterate, BodyAgrees, StdIterateEach, InOrder;
    var js := StdEnds(s, r, back, i);
    forall p | 0 <= p < |js| && js[p] == i && i !in js[..p]
      ensures InOrder([i] + StdIterateEach(s, r, 0, Some(n), false, back, i, js[..p]), StdIterate(s, r, 0, Some(n - 1), false, back, i),
                      StdIterateEach(s, r, 0, Some(n), false, back, i, js[p + 1..]))
    {
      var tried, front, rest := StdIterateEach(s, r, 0, Some(n), false, back, i, js[..p]), StdIterate(s, r, 0, Some(n - 1), false, back, i),
        StdIterateEach(s, r, 0, Some(n), false, back, i, js[p + 1..]);
      forall k: seq<Option<nat>> | |k| == |s.chars| + 1 && Rejects(k, [i] + tried)
        ensures Either(First(k, front), First(k, rest)) == First(k, rest)
      {
        RejectsOld(k, i, tried);
        ReluctantRound(s, r, n, back, i, p, k);
        assert Same(|s.chars| + 1, Iterate(s, r, 0, Some(n), false, back, i), StdIterate(s, r, 0, Some(n), false, back, i));
      }
      forall j | j in front || j in rest ensures j < |s.chars| + 1 {
        assert Toward(s, back, i, j);
      }
      OrderNeeded(|s.chars| + 1, [i] + tried, front, rest);
    }
  }

  /**
   When all reluctant loops of at most n iterations agree with the standard: if and only if at every level
   what the shorter loop adds at the empty match comes in the standard's order anyway.
   */
  lemma {:induction false} ReluctantLoopsAgree(s: Subject, r: Regex, n: nat, back: bool)
    requires BodyAgrees(s, r, back)
    ensures (forall m :: 0 <= m <= n ==> CountedAgree(s, r, m, false, back))
       <==> forall m, i :: 1 <= m <= n && 0 <= i <= |s.chars| ==> ReluctantKeeps(s, r, m, back, i)
  {
    hide BodyAgrees, CountedAgree, ReluctantKeeps;
    if n == 0 {
      NoIterations(s, r, false, back);
    } else {
      ReluctantLoopsAgree(s, r, n - 1, back);
      if CountedAgree(s, r, n - 1, false, back) {
        if CountedAgree(s, r, n, false, back) {
          forall i | 0 <= i <= |s.chars| ensures ReluctantKeeps(s, r, n, back, i) { ReluctantStepDiffers(s, r, n, back, i); }
        }
        if forall i :: 0 <= i <= |s.chars| ==> ReluctantKeeps(s, r, n, back, i) { ReluctantStepAgrees(s, r, n, back); }
      }
    }
  }

  /** The reluctant `??` always agrees. */
  lemma ReluctantOptionalAgrees(s: Subject, r: Regex, back: bool)
    requires BodyAgrees(s, r, back)
    ensures CountedAgree(s, r, 1, false, back)
  {
    hide BodyAgrees, CountedAgree, StdIterate, StdEnds, StdIterateEach;
    NoIterations(s, r, false, back);
    forall i | 0 <= i <= |s.chars| ensures ReluctantKeeps(s, r, 1, back, i) {
      NoneLeft(s, r, false, back, i);
    }
    ReluctantStepAgrees(s, r, 1, back);
  }
}
