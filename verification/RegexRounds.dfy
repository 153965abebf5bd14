/**
 One round of an iteration, in terms of continuations.
 */
module RegexRounds {
  import opened Wrappers
  import opened RegexSyntax
  import opened RegexBytecode
  import opened RegexVm
  import opened RegexSim
  import opened RegexAtoms

  function Else(k1: Option<Fate>, k2: Option<Fate>): Option<Fate> {
    if k1.Some? then k1 else k2
  }

  lemma RunSome(c: Ctx, pc: int, js: seq<nat>, ks: seq<nat>, k: seq<Option<Fate>>)
    requires RunAll(c, pc, js, k) && forall j :: j in ks ==> j in js
    ensures RunAll(c, pc, ks, k)
  {
  }

  /** An optional iteration: either leave here, or match the body and go on from where it ends. */
  lemma OptionalRound(c: Ctx, pc: int, r: Regex, max: Option<nat>, greedy: bool, back: bool, i: nat, k: seq<Option<Fate>>)
    requires Cont(c, k) && i < |k| && max != Some(0)
    requires RunAll(c, pc, Iterate(c.m.subject, r, 0, max, greedy, back, i), k)
    ensures var kk := Again(c.m.subject, r, 0, max, greedy, back, i, k);
      var body := First(kk, Ends(c.m.subject, r, back, i));
      First(k, Iterate(c.m.subject, r, 0, max, greedy, back, i)) == if greedy then Else(body, k[i]) else Else(k[i], body)
    ensures Runs(c, pc, i, k[i])
    ensures forall j :: j in Ends(c.m.subject, r, back, i) && !Idle(0, max, i, j) ==>
      j < |k| && (j == i || Room(c.m.subject, back, j) < Room(c.m.subject, back, i))
      && RunAll(c, pc, Iterate(c.m.subject, r, 0, Lower(max), greedy, back, j), k)
  {
    hide Runs;
    var s := c.m.subject;
    var js := Ends(s, r, back, i);
    var again := IterateEach(s, r, 0, max, greedy, back, i, js);
    FirstIterateEach(s, r, 0, max, greedy, back, i, js, k);
    FirstAppend(k, again, [i]);
    FirstAppend(k, [i], again);
    assert First(k, [i]) == k[i];
    assert i in [i];
    forall j | j in js && !Idle(0, max, i, j)
      ensures j < |k| && (j == i || Room(s, back, j) < Room(s, back, i)) && RunAll(c, pc, Iterate(s, r, 0, Lower(max), greedy, back, j), k)
    {
      assert Toward(s, back, i, j);
      forall e | e in Iterate(s, r, 0, Lower(max), greedy, back, j) ensures e in Iterate(s, r, 0, max, greedy, back, i) {
        IterateEachHas(s, r, 0, max, greedy, back, i, js, j, e);
      }
      RunSome(c, pc, Iterate(s, r, 0, max, greedy, back, i), Iterate(s, r, 0, Lower(max), greedy, back, j), k);
    }
  }

  /** Where a round goes on. */
  lemma AgainAt(s: Subject, r: Regex, max: Option<nat>, greedy: bool, back: bool, i: nat, k: seq<Option<Fate>>, j: nat)
    requires |k| == |s.chars| + 1 && i < |k| && j < |k|
    ensures var kk := Again(s, r, 0, max, greedy, back, i, k);
      kk[j] == if Idle(0, max, i, j) then k[i] else First(k, Iterate(s, r, 0, Lower(max), greedy, back, j))
  {
    hide Iterate;
  }

  /** A required iteration. */
  lemma RequiredRound(c: Ctx, pc: int, r: Regex, min: nat, max: Option<nat>, greedy: bool, back: bool, i: nat, k: seq<Option<Fate>>)
    requires Cont(c, k) && i < |k| && 0 < min && (max.Some? ==> min <= max.value)
    requires RunAll(c, pc, Iterate(c.m.subject, r, min, max, greedy, back, i), k)
    ensures First(k, Iterate(c.m.subject, r, min, max, greedy, back, i))
         == First(ThenIterate(c.m.subject, r, min - 1, Lower(max), greedy, back, k), Ends(c.m.subject, r, back, i))
    ensures forall j :: j in Ends(c.m.subject, r, back, i) ==>
      j < |k| && RunAll(c, pc, Iterate(c.m.subject, r, min - 1, Lower(max), greedy, back, j), k)
  {
    hide Runs;
    var s := c.m.subject;
    var js := Ends(s, r, back, i);
    FirstIterateEach(s, r, min, max, greedy, back, i, js, k);
    forall j | j in js ensures j < |k| && RunAll(c, pc, Iterate(s, r, min - 1, Lower(max), greedy, back, j), k) {
      assert Toward(s, back, i, j);
      forall e | e in Iterate(s, r, min - 1, Lower(max), greedy, back, j) ensures e in Iterate(s, r, min, max, greedy, back, i) {
        IterateEachHas(s, r, min, max, greedy, back, i, js, j, e);
      }
      RunSome(c, pc, Iterate(s, r, min, max, greedy, back, i), Iterate(s, r, min - 1, Lower(max), greedy, back, j), k);
    }
  }

  lemma NoRound(s: Subject, r: Regex, greedy: bool, back: bool, k: seq<Option<Fate>>)
    requires |k| == |s.chars| + 1
    ensures ThenIterate(s, r, 0, Some(0), greedy, back, k) == k
  {
    var kk := ThenIterate(s, r, 0, Some(0), greedy, back, k);
    forall i | 0 <= i < |k| ensures kk[i] == k[i] {
      assert First(k, [i]) == k[i];
    }
  }

  lemma NoRoundAt(s: Subject, r: Regex, greedy: bool, back: bool, k: seq<Option<Fate>>, j: nat)
    requires j < |k|
    requires j <= |s.chars|
    ensures First(k, Iterate(s, r, 0, Some(0), greedy, back, j)) == k[j]
  {
    FirstOne(k, j);
  }
}
