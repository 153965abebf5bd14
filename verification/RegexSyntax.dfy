/**
 The regular expressions that the compiler of libregexp.c accepts, without capture groups, back
 references and case folding, and what they match.

 A pattern is matched against a sequence of code units.  `Ends` gives, for a start index, every
 index at which a match can end, in the order in which a backtracking matcher tries them.  It is
 section 21.2.2 of ECMA-262, 11th edition, but for iterations that match nothing, where the
 matcher of libregexp.c has a rule of its own; RegexStandard compares the two.
 */
module RegexSyntax {
  import opened Wrappers

  /** An upper bound of INT32_MAX stands for "no upper bound". */
  const INT32_MAX: nat := 0x7fff_ffff

  datatype Regex =
    | Empty
    | Char(c: nat)
    | Dot
    | Any
    | Class(points: seq<nat>)
    | LineStart
    | LineEnd
    | WordBoundary(inverted: bool)
    | Concat(first: Regex, second: Regex)
    | Choice(first: Regex, second: Regex)
    | Look(negated: bool, behind: bool, body: Regex)
    | Repeat(body: Regex, min: nat, max: nat, greedy: bool)

  /** The subject string, with the one flag that matching depends on. */
  datatype Subject = Subject(chars: seq<nat>, multiLine: bool)

  predicate IsLineTerminator(c: nat) {
    c == 0x0a || c == 0x0d || c == 0x2028 || c == 0x2029
  }

  predicate IsWordChar(c: nat) {
    0x30 <= c <= 0x39 || 0x61 <= c <= 0x7a || 0x41 <= c <= 0x5a || c == 0x5f
  }

  /** Boundary list `pts` denotes the union of the intervals [pts[2k], pts[2k+1]). */
  ghost predicate InPoints(pts: seq<nat>, c: nat) {
    exists k :: 0 <= 2 * k && 2 * k + 1 < |pts| && pts[2 * k] <= c < pts[2 * k + 1]
  }

  ghost predicate MatchesOne(r: Regex, c: nat) {
    match r
    case Char(d) => c == d
    case Dot => !IsLineTerminator(c)
    case Any => true
    case Class(pts) => InPoints(pts, c)
    case _ => false
  }

  predicate WordAt(s: Subject, i: int) {
    0 <= i < |s.chars| && IsWordChar(s.chars[i])
  }

  /** The assertions of section 21.2.2.6. */
  predicate Holds(s: Subject, r: Regex, i: nat)
    requires i <= |s.chars|
  {
    match r
    case LineStart => i == 0 || (s.multiLine && IsLineTerminator(s.chars[i - 1]))
    case LineEnd => i == |s.chars| || (s.multiLine && IsLineTerminator(s.chars[i]))
    case WordBoundary(inverted) => (WordAt(s, i - 1) != WordAt(s, i)) != inverted
    case _ => true
  }

  /** `j` is not on the wrong side of `i` for a matcher that goes forward or backward. */
  predicate Toward(s: Subject, back: bool, i: nat, j: nat) {
    if back then j <= i <= |s.chars| else i <= j <= |s.chars|
  }

  function Room(s: Subject, back: bool, i: nat): nat
    requires i <= |s.chars|
  {
    if back then i else |s.chars| - i
  }

  function Bound(max: nat): Option<nat> {
    if max == INT32_MAX then None else Some(max)
  }

  function Lower(max: Option<nat>): Option<nat> {
    if max.Some? && 0 < max.value then Some(max.value - 1) else max
  }

  function Pred(n: nat): nat {
    if n == 0 then 0 else n - 1
  }

  /** Where a match of `r` that starts at `i` can end, best candidate first. */
  ghost function Ends(s: Subject, r: Regex, back: bool, i: nat): (js: seq<nat>)
    requires i <= |s.chars|
    ensures forall j :: j in js ==> Toward(s, back, i, j)
    decreases r, 0, 0, 0, 0, 0, 0
  {
    match r
    case Empty => [i]
    case Char(_) => EndsOne(s, r, back, i)
    case Dot => EndsOne(s, r, back, i)
    case Any => EndsOne(s, r, back, i)
    case Class(_) => EndsOne(s, r, back, i)
    case LineStart => if Holds(s, r, i) then [i] else []
    case LineEnd => if Holds(s, r, i) then [i] else []
    case WordBoundary(_) => if Holds(s, r, i) then [i] else []
    case Concat(a, b) =>
      if back then EndsEach(s, a, back, i, Ends(s, b, back, i))
      else EndsEach(s, b, back, i, Ends(s, a, back, i))
    case Choice(a, b) => Ends(s, a, back, i) + Ends(s, b, back, i)
    case Look(negated, behind, body) =>
      if (Ends(s, body, behind, i) == []) == negated then [i] else []
    case Repeat(body, min, max, greedy) => Iterate(s, body, min, Bound(max), greedy, back, i)
  }

  ghost function EndsOne(s: Subject, r: Regex, back: bool, i: nat): (js: seq<nat>)
    requires i <= |s.chars|
    ensures forall j :: j in js ==> Toward(s, back, i, j) && j != i
  {
    if back then
      if 0 < i && MatchesOne(r, s.chars[i - 1]) then [i - 1] else []
    else
      if i < |s.chars| && MatchesOne(r, s.chars[i]) then [i + 1] else []
  }

  /** Continue with `r` from each of `js` in turn. */
  ghost function EndsEach(s: Subject, r: Regex, back: bool, i: nat, js: seq<nat>): (ks: seq<nat>)
    requires forall j :: j in js ==> Toward(s, back, i, j)
    ensures forall k :: k in ks ==> Toward(s, back, i, k)
    decreases r, 1, 0, 0, 0, 0, |js|
  {
    if js == [] then []
    else
      assert Toward(s, back, i, js[0]);
      Ends(s, r, back, js[0]) + EndsEach(s, r, back, i, js[1..])
  }

  /** A bound on the iterations still to come, for loops that have one. */
  function Left(max: Option<nat>): nat {
    if max.Some? then max.value else 0
  }

  /**
   The required iterations, then as many optional ones as possible or as few.  An optional iteration
   of a loop without upper bound that does not move leaves the loop; in a counted loop it is an
   iteration like any other.
   */
  ghost function Iterate(s: Subject, r: Regex, min: nat, max: Option<nat>, greedy: bool, back: bool, i: nat): (js: seq<nat>)
    requires i <= |s.chars|
    ensures forall j :: j in js ==> Toward(s, back, i, j)
    decreases r, 2, min, Left(max), Room(s, back, i), 1, 0
  {
    if max == Some(0) then [i]
    else
      var again := IterateEach(s, r, min, max, greedy, back, i, Ends(s, r, back, i));
      if 0 < min then again
      else if greedy then again + [i]
      else [i] + again
  }

  ghost function IterateEach(s: Subject, r: Regex, min: nat, max: Option<nat>, greedy: bool, back: bool, i: nat, js: seq<nat>): (ks: seq<nat>)
    requires i <= |s.chars| && max != Some(0)
    requires forall j :: j in js ==> Toward(s, back, i, j)
    ensures forall k :: k in ks ==> Toward(s, back, i, k)
    decreases r, 2, min, Left(max), Room(s, back, i), 0, |js|
  {
    if js == [] then []
    else
      assert Toward(s, back, i, js[0]);
      var here :=
        if Idle(min, max, i, js[0]) then [i]
        else Iterate(s, r, Pred(min), Lower(max), greedy, back, js[0]);
      here + IterateEach(s, r, min, max, greedy, back, i, js[1..])
  }

  /** An iteration from `i` to `j` that leaves the loop. */
  predicate Idle(min: nat, max: Option<nat>, i: nat, j: nat) {
    min == 0 && max.None? && j == i
  }

  /** What a continuation finds from the first of `js` that it accepts. */
  ghost function First<O>(k: seq<Option<O>>, js: seq<nat>): Option<O>
  {
    if js == [] then None
    else if js[0] < |k| && k[js[0]].Some? then k[js[0]]
    else First(k, js[1..])
  }

  /** Matching `r` and then continuing with `k`, as a continuation of its own. */
  ghost function Then<O>(s: Subject, r: Regex, back: bool, k: seq<Option<O>>): (k': seq<Option<O>>)
    requires |k| == |s.chars| + 1
    ensures |k'| == |k|
  {
    seq(|k|, i requires 0 <= i < |k| => First(k, Ends(s, r, back, i)))
  }

  ghost function ThenIterate<O>(s: Subject, r: Regex, min: nat, max: Option<nat>, greedy: bool, back: bool, k: seq<Option<O>>): (k': seq<Option<O>>)
    requires |k| == |s.chars| + 1
    ensures |k'| == |k|
  {
    seq(|k|, i requires 0 <= i < |k| => First(k, Iterate(s, r, min, max, greedy, back, i)))
  }

  lemma FirstOfNone<O>(k: seq<Option<O>>)
    ensures First(k, []) == None
  {
  }

  lemma FirstHead<O>(k: seq<Option<O>>, js: seq<nat>)
    requires js != [] && js[0] < |k|
    ensures First(k, js) == if k[js[0]].Some? then k[js[0]] else First(k, js[1..])
  {
  }

  lemma {:induction false} FirstAppend<O>(k: seq<Option<O>>, a: seq<nat>, b: seq<nat>)
    ensures First(k, a + b) == if First(k, a).Some? then First(k, a) else First(k, b)
  {
    if a == [] {
      assert a + b == b;
    } else {
      assert (a + b)[1..] == a[1..] + b;
      FirstAppend(k, a[1..], b);
    }
  }

  lemma {:induction false} FirstEach<O>(s: Subject, r: Regex, back: bool, i: nat, js: seq<nat>, k: seq<Option<O>>)
    requires |k| == |s.chars| + 1
    requires forall j :: j in js ==> Toward(s, back, i, j)
    ensures First(k, EndsEach(s, r, back, i, js)) == First(Then(s, r, back, k), js)
  {
    if js != [] {
      assert Toward(s, back, i, js[0]);
      FirstAppend(k, Ends(s, r, back, js[0]), EndsEach(s, r, back, i, js[1..]));
      FirstEach(s, r, back, i, js[1..], k);
    }
  }

  /** What follows an iteration that started at `i`: the loop again, or its end. */
  ghost function Again<O>(s: Subject, r: Regex, min: nat, max: Option<nat>, greedy: bool, back: bool, i: nat, k: seq<Option<O>>): (k': seq<Option<O>>)
    requires |k| == |s.chars| + 1 && i < |k|
    ensures |k'| == |k|
  {
    var kk := ThenIterate(s, r, Pred(min), Lower(max), greedy, back, k);
    if min == 0 && max.None? then kk[i := k[i]] else kk
  }

  lemma {:induction false} FirstIterateEach<O>(s: Subject, r: Regex, min: nat, max: Option<nat>, greedy: bool, back: bool, i: nat, js: seq<nat>, k: seq<Option<O>>)
    requires |k| == |s.chars| + 1 && i <= |s.chars| && max != Some(0)
    requires forall j :: j in js ==> Toward(s, back, i, j)
    ensures First(k, IterateEach(s, r, min, max, greedy, back, i, js)) == First(Again(s, r, min, max, greedy, back, i, k), js)
  {
    hide Iterate, First;
    if js == [] {
      FirstOfNone(k);
      FirstOfNone(Again(s, r, min, max, greedy, back, i, k));
    } else {
      assert Toward(s, back, i, js[0]) && js[0] in js;
      assert forall j :: j in js[1..] ==> j in js;
      FirstHead(Again(s, r, min, max, greedy, back, i, k), js);
      FirstOne(k, i);
      FirstAppend(k, if Idle(min, max, i, js[0]) then [i] else Iterate(s, r, Pred(min), Lower(max), greedy, back, js[0]),
                  IterateEach(s, r, min, max, greedy, back, i, js[1..]));
      FirstIterateEach(s, r, min, max, greedy, back, i, js[1..], k);
    }
  }

  lemma {:induction false} EachHas(s: Subject, r: Regex, back: bool, i: nat, js: seq<nat>, j: nat, k: nat)
    requires forall j :: j in js ==> Toward(s, back, i, j)
    requires j in js && j <= |s.chars| && k in Ends(s, r, back, j)
    ensures k in EndsEach(s, r, back, i, js)
  {
    assert Toward(s, back, i, js[0]);
    if js[0] != j {
      EachHas(s, r, back, i, js[1..], j, k);
    }
  }

  lemma {:induction false} IterateEachHas(s: Subject, r: Regex, min: nat, max: Option<nat>, greedy: bool, back: bool, i: nat, js: seq<nat>, j: nat, k: nat)
    requires i <= |s.chars| && max != Some(0)
    requires forall j :: j in js ==> Toward(s, back, i, j)
    requires j in js && j <= |s.chars| && !Idle(min, max, i, j)
    requires k in Iterate(s, r, Pred(min), Lower(max), greedy, back, j)
    ensures k in IterateEach(s, r, min, max, greedy, back, i, js)
  {
    assert Toward(s, back, i, js[0]);
    if js[0] != j {
      IterateEachHas(s, r, min, max, greedy, back, i, js[1..], j, k);
    }
  }

  function Rest(max: Option<nat>, min: nat): Option<nat> {
    if max.Some? then Some(if max.value < min then 0 else max.value - min) else None
  }

  lemma IterateRequired(s: Subject, r: Regex, min: nat, max: Option<nat>, greedy: bool, back: bool, i: nat)
    requires i <= |s.chars|
    ensures max == Some(0) ==> Iterate(s, r, min, max, greedy, back, i) == [i]
    ensures max != Some(0) && 0 < min ==>
      Iterate(s, r, min, max, greedy, back, i) == IterateEach(s, r, min, max, greedy, back, i, Ends(s, r, back, i))
  {
  }

  lemma FirstOne<O>(k: seq<Option<O>>, i: nat)
    requires i < |k|
    ensures First(k, [i]) == k[i]
  {
  }

  /** Required iterations come first; the optional ones continue from where those end. */
  lemma {:induction false} IterateSplit<O>(s: Subject, r: Regex, min: nat, max: Option<nat>, greedy: bool, back: bool, i: nat, k: seq<Option<O>>)
    requires |k| == |s.chars| + 1 && i <= |s.chars|
    requires max.Some? ==> min <= max.value
    ensures First(k, Iterate(s, r, min, max, greedy, back, i))
         == First(ThenIterate(s, r, 0, Rest(max, min), greedy, back, k), Iterate(s, r, min, Some(min), greedy, back, i))
    decreases min
  {
    hide Ends, First, Iterate, IterateEach;
    var rest := ThenIterate(s, r, 0, Rest(max, min), greedy, back, k);
    IterateRequired(s, r, min, max, greedy, back, i);
    IterateRequired(s, r, min, Some(min), greedy, back, i);
    if min == 0 {
      FirstOne(rest, i);
    } else {
      var js := Ends(s, r, back, i);
      FirstIterateEach(s, r, min, max, greedy, back, i, js, k);
      FirstIterateEach(s, r, min, Some(min), greedy, back, i, js, rest);
      var a := ThenIterate(s, r, min - 1, Lower(max), greedy, back, k);
      var b := ThenIterate(s, r, min - 1, Some(min - 1), greedy, back, rest);
      forall j | 0 <= j < |k| ensures a[j] == b[j] {
        IterateSplit(s, r, min - 1, Lower(max), greedy, back, j, k);
      }
      assert a == b;
    }
  }

  lemma {:induction false} IterateSplitHas(s: Subject, r: Regex, min: nat, max: Option<nat>, greedy: bool, back: bool, i: nat, j: nat, k: nat)
    requires i <= |s.chars|
    requires max.Some? ==> min <= max.value
    requires j in Iterate(s, r, min, Some(min), greedy, back, i)
    requires k in Iterate(s, r, 0, Rest(max, min), greedy, back, j)
    ensures k in Iterate(s, r, min, max, greedy, back, i)
    decreases min, 1, 0
  {
    if 0 < min {
      IterateEachSplitHas(s, r, min, max, greedy, back, i, Ends(s, r, back, i), j, k);
    }
  }

  lemma NoneOfNone(s: Subject, r: Regex, min: nat, max: Option<nat>, greedy: bool, back: bool, i: nat)
    requires i <= |s.chars| && max != Some(0)
    ensures IterateEach(s, r, min, max, greedy, back, i, []) == []
  {
  }

  lemma RequiredEach(s: Subject, r: Regex, min: nat, max: Option<nat>, greedy: bool, back: bool, i: nat, js: seq<nat>)
    requires i <= |s.chars| && 0 < min && max != Some(0) && js != []
    requires forall j :: j in js ==> Toward(s, back, i, j)
    ensures js[0] in js && forall j :: j in js[1..] ==> j in js
    ensures IterateEach(s, r, min, max, greedy, back, i, js)
      == Iterate(s, r, min - 1, Lower(max), greedy, back, js[0]) + IterateEach(s, r, min, max, greedy, back, i, js[1..])
  {
    hide Iterate;
    assert js[0] in js && forall j :: j in js[1..] ==> j in js;
  }

  lemma {:induction false} IterateEachSplitHas(s: Subject, r: Regex, min: nat, max: Option<nat>, greedy: bool, back: bool, i: nat, js: seq<nat>, j: nat, k: nat)
    requires i <= |s.chars| && 0 < min
    requires forall j :: j in js ==> Toward(s, back, i, j)
    requires max.Some? ==> min <= max.value
    requires j in IterateEach(s, r, min, Some(min), greedy, back, i, js)
    requires k in Iterate(s, r, 0, Rest(max, min), greedy, back, j)
    ensures k in IterateEach(s, r, min, max, greedy, back, i, js)
    decreases min, 0, |js|
  {
    hide Iterate, IterateEach;
    NoneOfNone(s, r, min, Some(min), greedy, back, i);
    assert js[0] in js && forall j :: j in js[1..] ==> j in js;
    RequiredEach(s, r, min, Some(min), greedy, back, i, js);
    RequiredEach(s, r, min, max, greedy, back, i, js);
    if j in Iterate(s, r, min - 1, Some(min - 1), greedy, back, js[0]) {
      IterateSplitHas(s, r, min - 1, Lower(max), greedy, back, js[0], j, k);
    } else {
      IterateEachSplitHas(s, r, min, max, greedy, back, i, js[1..], j, k);
    }
  }

  /** Whether every match of `r` moves, judged on the syntax. */
  predicate Moves(r: Regex) {
    match r
    case Char(_) => true
    case Dot => true
    case Any => true
    case Class(_) => true
    case Concat(a, b) => Moves(a) || Moves(b)
    case Choice(a, b) => Moves(a) && Moves(b)
    case Repeat(body, min, max, _) => 0 < min && 0 < max && Moves(body)
    case _ => false
  }

  lemma {:induction false} MovesSound(s: Subject, r: Regex, back: bool, i: nat)
    requires i <= |s.chars|
    requires Moves(r)
    ensures i !in Ends(s, r, back, i)
    decreases r, 0
  {
    match r
    case Concat(a, b) =>
      var x, y := if back then b else a, if back then a else b;
      if Moves(x) { MovesSound(s, x, back, i); }
      EachMoves(s, y, back, i, Ends(s, x, back, i));
    case Choice(a, b) =>
      MovesSound(s, a, back, i);
      MovesSound(s, b, back, i);
    case Repeat(body, min, max, greedy) =>
      MovesSound(s, body, back, i);
      IterateEachMoves(s, body, min, Bound(max), greedy, back, i, Ends(s, body, back, i));
    case _ =>
  }

  lemma {:induction false} EachMoves(s: Subject, r: Regex, back: bool, i: nat, js: seq<nat>)
    requires i <= |s.chars|
    requires forall j :: j in js ==> Toward(s, back, i, j)
    requires Moves(r) || i !in js
    ensures i !in EndsEach(s, r, back, i, js)
    decreases r, 1, |js|
  {
    if js != [] {
      assert Toward(s, back, i, js[0]);
      if js[0] == i { MovesSound(s, r, back, i); }
      EachMoves(s, r, back, i, js[1..]);
    }
  }

  lemma {:induction false} IterateEachMoves(s: Subject, r: Regex, min: nat, max: Option<nat>, greedy: bool, back: bool, i: nat, js: seq<nat>)
    requires i <= |s.chars| && max != Some(0)
    requires forall j :: j in js ==> Toward(s, back, i, j) && j != i
    ensures i !in IterateEach(s, r, min, max, greedy, back, i, js)
  {
    if js != [] {
      assert Toward(s, back, i, js[0]);
      assert forall j :: j in js[1..] ==> j in js;
      IterateEachMoves(s, r, min, max, greedy, back, i, js[1..]);
    }
  }
}
