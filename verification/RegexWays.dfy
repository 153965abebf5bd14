/**
 What an expression matches, as a list of ends for every start, and how these lists combine: the laws of
 the operators, for every expression and subject.
 */
module RegexWays {
  import opened Wrappers
  import opened RegexSyntax

  /** For every start, where a match can end, best candidate first. */
  type Ways = seq<seq<nat>>

  /** Every end is a start. */
  ghost predicate Inside(n: nat, js: seq<nat>) {
    forall x :: 0 <= x < |js| ==> js[x] < n
  }

  ghost predicate Proper(ks: Ways) {
    forall i :: 0 <= i < |ks| ==> Inside(|ks|, ks[i])
  }

  ghost function All(s: Subject, r: Regex, back: bool): (ks: Ways)
    ensures |ks| == |s.chars| + 1 && Proper(ks)
  {
    var ks := seq(|s.chars| + 1, i requires 0 <= i <= |s.chars| => Ends(s, r, back, i));
    assert Proper(ks) by {
      forall i | 0 <= i < |ks| ensures Inside(|ks|, ks[i]) { TowardInside(s, back, i, ks[i]); }
    }
    ks
  }

  lemma TowardInside(s: Subject, back: bool, i: nat, js: seq<nat>)
    requires forall j :: j in js ==> Toward(s, back, i, j)
    ensures Inside(|s.chars| + 1, js)
  {
    forall x | 0 <= x < |js| ensures js[x] < |s.chars| + 1 { assert js[x] in js; }
  }

  /** Going on with `ks` from each of `js` in turn. */
  ghost function Each(js: seq<nat>, ks: Ways): (es: seq<nat>)
    requires Inside(|ks|, js)
  {
    if js == [] then [] else
      ks[js[0]] + Each(js[1..], ks)
  }

  lemma {:induction false} EachInside(js: seq<nat>, ks: Ways)
    requires Inside(|ks|, js) && Proper(ks)
    ensures Inside(|ks|, Each(js, ks))
  {
    if js != [] {
      assert js[0] in js;
      EachInside(js[1..], ks);
    }
  }

  /** First `a`, then `b`. */
  ghost function Compose(a: Ways, b: Ways): (c: Ways)
    requires |a| == |b| && Proper(a) && Proper(b)
    ensures |c| == |a| && Proper(c)
  {
    var c := seq(|a|, i requires 0 <= i < |a| => Each(a[i], b));
    assert Proper(c) by {
      forall i | 0 <= i < |c| ensures Inside(|c|, c[i]) { EachInside(a[i], b); }
    }
    c
  }

  /** The empty match, at every start. */
  ghost function Nothing(n: nat): (c: Ways)
    ensures |c| == n && Proper(c)
  {
    seq(n, i requires 0 <= i < n => [i as nat])
  }

  /** `ks`, n times. */
  ghost function Times(ks: Ways, n: nat): (c: Ways)
    requires Proper(ks)
    ensures |c| == |ks| && Proper(c)
  {
    if n == 0 then Nothing(|ks|) else Compose(ks, Times(ks, n - 1))
  }

  /** `ks` or nothing: the first that fits, or, reluctantly, the other one. */
  ghost function Maybe(ks: Ways, greedy: bool): (c: Ways)
    requires Proper(ks)
    ensures |c| == |ks| && Proper(c)
  {
    seq(|ks|, i requires 0 <= i < |ks| => if greedy then ks[i] + [i as nat] else [i as nat] + ks[i])
  }

  /** `ks`, at most n times. */
  ghost function UpTo(ks: Ways, n: nat, greedy: bool): (c: Ways)
    requires Proper(ks)
    ensures |c| == |ks| && Proper(c)
  {
    if n == 0 then Nothing(|ks|) else Maybe(Compose(ks, UpTo(ks, n - 1, greedy)), greedy)
  }

  // ---------------------------------------------------------------- laws of Each

  lemma {:induction false} EachAppend(a: seq<nat>, b: seq<nat>, ks: Ways)
    requires Inside(|ks|, a) && Inside(|ks|, b)
    ensures Inside(|ks|, a + b) && Each(a + b, ks) == Each(a, ks) + Each(b, ks)
  {
    if a == [] {
      assert a + b == b;
    } else {
      var c := a + b;
      assert c[1..] == a[1..] + b && c[0] == a[0];
      EachAppend(a[1..], b, ks);
      Associate(ks[a[0]], Each(a[1..], ks), Each(b, ks));
    }
  }

  lemma Associate(a: seq<nat>, b: seq<nat>, c: seq<nat>)
    ensures a + b + c == a + (b + c)
  {
  }

  /** Composition is associative. */
  lemma {:induction false} EachEach(js: seq<nat>, a: Ways, b: Ways)
    requires |a| == |b| && Proper(a) && Proper(b) && Inside(|a|, js)
    ensures Inside(|b|, Each(js, a)) && Each(Each(js, a), b) == Each(js, Compose(a, b))
  {
    EachInside(js, a);
    if js != [] {
      assert js[0] in js;
      EachInside(js[1..], a);
      EachEach(js[1..], a, b);
      EachAppend(a[js[0]], Each(js[1..], a), b);
    }
  }

  lemma ComposeAssoc(a: Ways, b: Ways, c: Ways)
    requires |a| == |b| == |c| && Proper(a) && Proper(b) && Proper(c)
    ensures Compose(Compose(a, b), c) == Compose(a, Compose(b, c))
  {
    var x, y := Compose(Compose(a, b), c), Compose(a, Compose(b, c));
    forall i | 0 <= i < |a| ensures x[i] == y[i] { EachEach(a[i], b, c); }
  }

  lemma {:induction false} EachNothing(js: seq<nat>, n: nat)
    requires Inside(n, js)
    ensures Each(js, Nothing(n)) == js
  {
    if js != [] {
      assert js[0] in js;
      EachNothing(js[1..], n);
      assert js == [js[0]] + js[1..];
    }
  }

  lemma {:induction false} EachSame(js: seq<nat>, a: Ways, b: Ways)
    requires |a| == |b| && Inside(|a|, js) && forall j :: j in js ==> a[j] == b[j]
    ensures Each(js, a) == Each(js, b)
  {
    if js != [] {
      assert js[0] in js;
      EachSame(js[1..], a, b);
    }
  }

  lemma NothingFirst(ks: Ways)
    requires Proper(ks)
    ensures Compose(Nothing(|ks|), ks) == ks && Compose(ks, Nothing(|ks|)) == ks
  {
    var x, y := Compose(Nothing(|ks|), ks), Compose(ks, Nothing(|ks|));
    forall i | 0 <= i < |ks| ensures x[i] == ks[i] && y[i] == ks[i] {
      assert [i][1..] == [] && Each([i], ks) == ks[i] + Each([], ks);
      EachNothing(ks[i], |ks|);
    }
  }

  // ---------------------------------------------------------------- the operators

  lemma {:induction false} EachIs(s: Subject, r: Regex, back: bool, i: nat, js: seq<nat>)
    requires i <= |s.chars| && forall j :: j in js ==> Toward(s, back, i, j)
    ensures Inside(|s.chars| + 1, js) && EndsEach(s, r, back, i, js) == Each(js, All(s, r, back))
  {
    hide Ends;
    assert forall j :: j in js ==> Toward(s, back, i, j) && j < |s.chars| + 1;
    if js != [] {
      assert js[0] in js;
      EachIs(s, r, back, i, js[1..]);
    }
  }

  /** A sequence; a backward matcher takes the second part first. */
  lemma SequenceWays(s: Subject, a: Regex, b: Regex, back: bool)
    ensures All(s, Concat(a, b), back) ==
      if back then Compose(All(s, b, back), All(s, a, back)) else Compose(All(s, a, back), All(s, b, back))
  {
    hide EndsEach;
    var x, y := if back then b else a, if back then a else b;
    var l, m := All(s, Concat(a, b), back), Compose(All(s, x, back), All(s, y, back));
    forall i | 0 <= i < |l| ensures l[i] == m[i] { EachIs(s, y, back, i, Ends(s, x, back, i)); }
    assert l == m;
  }

  lemma EmptyWays(s: Subject, back: bool)
    ensures All(s, Empty, back) == Nothing(|s.chars| + 1)
  {
  }

  /** One term is its own alternative. */
  lemma OnlyTerm(s: Subject, r: Regex, back: bool)
    ensures All(s, Concat(Empty, r), back) == All(s, r, back)
  {
    hide Ends;
    SequenceWays(s, Empty, r, back);
    EmptyWays(s, back);
    NothingFirst(All(s, r, back));
  }

  lemma TwoTerms(s: Subject, a: Regex, b: Regex, back: bool)
    ensures All(s, Concat(Concat(Empty, a), b), back) ==
      if back then Compose(All(s, b, back), All(s, a, back)) else Compose(All(s, a, back), All(s, b, back))
  {
    hide Ends;
    SequenceWays(s, Concat(Empty, a), b, back);
    OnlyTerm(s, a, back);
  }

  // ---------------------------------------------------------------- loops

  /** What a loop matches. */
  ghost function Loop(s: Subject, r: Regex, min: nat, max: Option<nat>, greedy: bool, back: bool): (ks: Ways)
    ensures |ks| == |s.chars| + 1 && Proper(ks)
  {
    var ks := seq(|s.chars| + 1, i requires 0 <= i <= |s.chars| => Iterate(s, r, min, max, greedy, back, i));
    assert Proper(ks) by {
      forall i | 0 <= i < |ks| ensures Inside(|ks|, ks[i]) { TowardInside(s, back, i, ks[i]); }
    }
    ks
  }

  /** What follows an iteration from `i`: the loop again, or, after an optional one that matched nothing, its end. */
  ghost function Next(s: Subject, r: Regex, min: nat, max: Option<nat>, greedy: bool, back: bool, i: nat): (ks: Ways)
    requires i <= |s.chars|
    ensures |ks| == |s.chars| + 1 && Proper(ks)
  {
    var ks := Loop(s, r, Pred(min), Lower(max), greedy, back);
    if min == 0 && max.None? then ks[i := [i]] else ks
  }

  lemma {:induction false} IterateEachIs(s: Subject, r: Regex, min: nat, max: Option<nat>, greedy: bool, back: bool, i: nat, js: seq<nat>)
    requires i <= |s.chars| && max != Some(0) && forall j :: j in js ==> Toward(s, back, i, j)
    ensures Inside(|s.chars| + 1, js)
    ensures IterateEach(s, r, min, max, greedy, back, i, js) == Each(js, Next(s, r, min, max, greedy, back, i))
  {
    hide Iterate;
    assert forall j :: j in js ==> Toward(s, back, i, j) && j < |s.chars| + 1;
    if js != [] {
      assert js[0] in js;
      IterateEachIs(s, r, min, max, greedy, back, i, js[1..]);
    }
  }

  lemma LoopRound(s: Subject, r: Regex, min: nat, max: Option<nat>, greedy: bool, back: bool, i: nat)
    requires i <= |s.chars| && max != Some(0)
    ensures var body := Each(All(s, r, back)[i], Next(s, r, min, max, greedy, back, i));
      Iterate(s, r, min, max, greedy, back, i) == if 0 < min then body else if greedy then body + [i] else [i] + body
  {
    hide Ends, IterateEach;
    IterateEachIs(s, r, min, max, greedy, back, i, Ends(s, r, back, i));
  }

  /** A loop without upper bound: again and again, until an iteration matches nothing. */
  lemma StarWays(s: Subject, r: Regex, greedy: bool, back: bool)
    ensures var star := Loop(s, r, 0, None, greedy, back);
      forall i :: 0 <= i < |star| ==>
        var body := Each(All(s, r, back)[i], star[i := [i]]);
        Inside(|star|, All(s, r, back)[i]) && star[i] == if greedy then body + [i] else [i] + body
  {
    hide Iterate, Ends;
    var star := Loop(s, r, 0, None, greedy, back);
    forall i | 0 <= i < |star|
      ensures var body := Each(All(s, r, back)[i], star[i := [i]]); star[i] == if greedy then body + [i] else [i] + body
    {
      LoopRound(s, r, 0, None, greedy, back, i);
    }
  }

  /** At most n iterations. */
  lemma {:induction false} UpToWays(s: Subject, r: Regex, n: nat, greedy: bool, back: bool)
    ensures Loop(s, r, 0, Some(n), greedy, back) == UpTo(All(s, r, back), n, greedy)
  {
    hide All, Loop, UpTo, Proper, Compose, Maybe, Nothing;
    if n == 0 {
      NoRounds(s, r, greedy, back);
    } else {
      UpToWays(s, r, n - 1, greedy, back);
      OneOptional(s, r, n, greedy, back);
      UpToNext(All(s, r, back), n, greedy);
    }
  }

  lemma NoRounds(s: Subject, r: Regex, greedy: bool, back: bool)
    ensures Loop(s, r, 0, Some(0), greedy, back) == Nothing(|s.chars| + 1) == UpTo(All(s, r, back), 0, greedy)
  {
    hide Ends;
  }

  lemma UpToNext(ks: Ways, n: nat, greedy: bool)
    requires Proper(ks) && 0 < n
    ensures UpTo(ks, n, greedy) == Maybe(Compose(ks, UpTo(ks, n - 1, greedy)), greedy)
  {
  }

  /** An optional iteration, and then the rest of the loop. */
  lemma OneOptional(s: Subject, r: Regex, n: nat, greedy: bool, back: bool)
    requires 0 < n
    ensures Loop(s, r, 0, Some(n), greedy, back) == Maybe(Compose(All(s, r, back), Loop(s, r, 0, Some(n - 1), greedy, back)), greedy)
  {
    hide Iterate, Ends;
    var l := Loop(s, r, 0, Some(n), greedy, back);
    var m := Maybe(Compose(All(s, r, back), Loop(s, r, 0, Some(n - 1), greedy, back)), greedy);
    forall i | 0 <= i < |l| ensures l[i] == m[i] { LoopRound(s, r, 0, Some(n), greedy, back, i); }
    assert l == m;
  }

  /** At most one iteration. */
  lemma OptionalWays(s: Subject, r: Regex, greedy: bool, back: bool)
    ensures Loop(s, r, 0, Some(1), greedy, back) == Maybe(All(s, r, back), greedy)
  {
    hide All, Loop, Proper, Compose, Maybe, Nothing;
    OneOptional(s, r, 1, greedy, back);
    NoRounds(s, r, greedy, back);
    NothingFirst(All(s, r, back));
  }

  /** Exactly n iterations. */
  lemma ExactWays(s: Subject, r: Regex, n: nat, greedy: bool, back: bool)
    ensures Loop(s, r, n, Some(n), greedy, back) == Times(All(s, r, back), n)
  {
    hide All, Loop, Proper, Compose, Times, Nothing;
    RequiredWays(s, r, n, Some(n), greedy, back);
    NoRounds(s, r, greedy, back);
    NothingFirst(Times(All(s, r, back), n));
  }

  /** A required iteration, and then the rest of the loop. */
  lemma OneRequired(s: Subject, r: Regex, n: nat, max: Option<nat>, greedy: bool, back: bool)
    requires 0 < n && max != Some(0)
    ensures Loop(s, r, n, max, greedy, back) == Compose(All(s, r, back), Loop(s, r, n - 1, Lower(max), greedy, back))
  {
    hide Iterate, Ends;
    var l, m := Loop(s, r, n, max, greedy, back), Compose(All(s, r, back), Loop(s, r, n - 1, Lower(max), greedy, back));
    forall i | 0 <= i < |l| ensures l[i] == m[i] { LoopRound(s, r, n, max, greedy, back, i); }
    assert l == m;
  }

  /** All required iterations, and then the rest of the loop. */
  lemma {:induction false} RequiredWays(s: Subject, r: Regex, n: nat, max: Option<nat>, greedy: bool, back: bool)
    requires max.Some? ==> n <= max.value
    ensures Loop(s, r, n, max, greedy, back) == Compose(Times(All(s, r, back), n), Loop(s, r, 0, Rest(max, n), greedy, back))
  {
    hide Loop, All, Compose, Times, Proper, Nothing;
    var ks, rest := All(s, r, back), Loop(s, r, 0, Rest(max, n), greedy, back);
    if n == 0 {
      NothingFirst(rest);
      NoTimes(ks);
    } else {
      RequiredWays(s, r, n - 1, Lower(max), greedy, back);
      ComposeAssoc(ks, Times(ks, n - 1), rest);
      OneRequired(s, r, n, max, greedy, back);
      TimesNext(ks, n);
    }
  }

  lemma NoTimes(ks: Ways)
    requires Proper(ks)
    ensures Times(ks, 0) == Nothing(|ks|)
  {
  }

  lemma TimesNext(ks: Ways, n: nat)
    requires Proper(ks) && 0 < n
    ensures Times(ks, n) == Compose(ks, Times(ks, n - 1))
  {
  }
}
