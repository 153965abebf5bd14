/**
 Normalization in libunicode.c: the canonical ordering of combining characters, in place, and the
 composition of characters, with the arithmetic of Hangul syllables.  The tables of combining classes
 and of compositions are parameters.
 */
module UnicodeOrder {
  // ------------------------------------------------------------ canonical ordering

  /** The characters of combining class `v`, in order. */
  function Select(cc: int -> nat, s: seq<int>, v: nat): (r: seq<int>)
    ensures |r| <= |s| && forall x :: x in r ==> cc(x) == v
  {
    if s == [] then [] else Select(cc, s[..|s| - 1], v) + if cc(s[|s| - 1]) == v then [s[|s| - 1]] else []
  }

  ghost predicate Sorted(cc: int -> nat, s: seq<int>) {
    forall i, j :: 0 <= i < j < |s| ==> cc(s[i]) <= cc(s[j])
  }

  /** The same characters of each class, in the same order. */
  ghost predicate SameClasses(cc: int -> nat, s: seq<int>, t: seq<int>) {
    |s| == |t| && forall v :: Select(cc, s, v) == Select(cc, t, v)
  }

  predicate NoStarter(cc: int -> nat, s: seq<int>, lo: nat, hi: nat)
    requires lo <= hi <= |s|
  {
    forall i :: lo <= i < hi ==> cc(s[i]) != 0
  }

  /** A stretch of combining characters between starters or ends. */
  ghost predicate Run(cc: int -> nat, s: seq<int>, lo: nat, hi: nat) {
    && lo < hi <= |s| && NoStarter(cc, s, lo, hi)
    && (lo == 0 || cc(s[lo - 1]) == 0) && (hi == |s| || cc(s[hi]) == 0)
  }

  /** A run of `s` is in order in `t`, and stably so. */
  ghost predicate RunOrdered(cc: int -> nat, s: seq<int>, t: seq<int>, lo: nat, hi: nat)
    requires |s| == |t|
  {
    Run(cc, s, lo, hi) ==> Sorted(cc, t[lo..hi]) && SameClasses(cc, s[lo..hi], t[lo..hi])
  }

  /** The canonical ordering of `s` (section 3.11 of the Unicode Standard), up to index `n`. */
  ghost predicate OrderedTo(cc: int -> nat, s: seq<int>, t: seq<int>, n: nat) {
    && |s| == |t|
    && (forall i :: 0 <= i < n && i < |s| && cc(s[i]) == 0 ==> t[i] == s[i])
    && (forall lo: nat, hi: nat :: hi <= n ==> RunOrdered(cc, s, t, lo, hi))
    && (forall i :: n <= i < |s| ==> t[i] == s[i])
  }

  ghost predicate CanonicallyOrdered(cc: int -> nat, s: seq<int>, t: seq<int>) {
    OrderedTo(cc, s, t, |s|)
  }

  lemma SelectSnoc(cc: int -> nat, s: seq<int>, x: int, v: nat)
    ensures Select(cc, s + [x], v) == Select(cc, s, v) + if cc(x) == v then [x] else []
  {
    assert (s + [x])[..|s|] == s;
  }

  lemma {:induction false} SelectAppend(cc: int -> nat, a: seq<int>, b: seq<int>, v: nat)
    ensures Select(cc, a + b, v) == Select(cc, a, v) + Select(cc, b, v)
    decreases |b|
  {
    if b == [] {
      assert a + b == a;
    } else {
      var b', x := b[..|b| - 1], b[|b| - 1];
      assert b == b' + [x] && a + b == (a + b') + [x];
      SelectAppend(cc, a, b', v);
      SelectSnoc(cc, a + b', x, v);
      SelectSnoc(cc, b', x, v);
    }
  }

  lemma {:induction false} SelectNone(cc: int -> nat, s: seq<int>, v: nat)
    requires forall i :: 0 <= i < |s| ==> cc(s[i]) != v
    ensures Select(cc, s, v) == []
  {
    if s != [] { SelectNone(cc, s[..|s| - 1], v); }
  }

  lemma InsertedInOrder(cc: int -> nat, s: seq<int>, k: nat, x: int)
    requires k <= |s| && Sorted(cc, s) && (k == 0 || cc(s[k - 1]) <= cc(x)) && (k == |s| || cc(x) < cc(s[k]))
    ensures Sorted(cc, s[..k] + [x] + s[k..])
  {
    var t := s[..k] + [x] + s[k..];
    forall i, j | 0 <= i < j < |t| ensures cc(t[i]) <= cc(t[j]) {
      var i', j' := if i < k then i else i - 1, if j < k then j else j - 1;
      assert i != k ==> t[i] == s[i'];
      assert j != k ==> t[j] == s[j'];
      assert i < k ==> cc(s[i]) <= cc(s[k - 1]);
      assert k < j ==> cc(s[k]) <= cc(s[j']);
    }
  }

  /** Inserting behind the characters of no higher class keeps the order and is stable. */
  lemma Inserted(cc: int -> nat, s: seq<int>, k: nat, x: int)
    requires k <= |s| && Sorted(cc, s) && (k == 0 || cc(s[k - 1]) <= cc(x)) && (k == |s| || cc(x) < cc(s[k]))
    ensures Sorted(cc, s[..k] + [x] + s[k..]) && SameClasses(cc, s + [x], s[..k] + [x] + s[k..])
  {
    var a, b := s[..k], s[k..];
    InsertedInOrder(cc, s, k, x);
    assert s == a + b;
    forall i | 0 <= i < |b| ensures cc(x) < cc(b[i]) { assert b[i] == s[k + i]; }
    hide Sorted;
    forall v ensures Select(cc, s + [x], v) == Select(cc, a + [x] + b, v) { MovedPast(cc, a, b, x, v); }
  }

  /** A character can move past characters of other classes. */
  lemma MovedPast(cc: int -> nat, a: seq<int>, b: seq<int>, x: int, v: nat)
    requires forall i :: 0 <= i < |b| ==> cc(x) < cc(b[i])
    ensures Select(cc, a + b + [x], v) == Select(cc, a + [x] + b, v)
  {
    hide Select;
    SelectSnoc(cc, a + b, x, v);
    SelectAppend(cc, a, b, v);
    SelectAppend(cc, a + [x], b, v);
    SelectSnoc(cc, a, x, v);
    if cc(x) == v { SelectNone(cc, b, v); }
  }

  lemma SameThen(cc: int -> nat, a: seq<int>, b: seq<int>, c: seq<int>)
    requires SameClasses(cc, a, b) && SameClasses(cc, b, c)
    ensures SameClasses(cc, a, c)
  {
  }

  lemma SameSnoc(cc: int -> nat, a: seq<int>, b: seq<int>, x: int)
    requires SameClasses(cc, a, b)
    ensures SameClasses(cc, a + [x], b + [x])
  {
    forall v ensures Select(cc, a + [x], v) == Select(cc, b + [x], v) {
      SelectSnoc(cc, a, x, v);
      SelectSnoc(cc, b, x, v);
    }
  }

  /** The part of a run that has been sorted, in a buffer that is otherwise as it was. */
  ghost predicate Sorting(cc: int -> nat, s: seq<int>, t: seq<int>, start: nat, j: nat) {
    && start <= j <= |s| == |t|
    && Sorted(cc, t[start..j]) && SameClasses(cc, s[start..j], t[start..j])
    && (forall i :: 0 <= i < |s| && !(start <= i < j) ==> t[i] == s[i])
  }

  /** Move the character at `j` down to its place behind `start`. */
  method InsertChar(cc: int -> nat, buf: array<int>, start: nat, j: nat, ghost s: seq<int>)
    requires j < buf.Length && |s| == buf.Length && Sorting(cc, s, buf[..], start, j)
    modifies buf
    ensures Sorting(cc, s, buf[..], start, j + 1)
  {
    ghost var t := buf[..];
    var ch1 := buf[j];
    var cc1 := cc(ch1);
    var k: int := j - 1;
    while start <= k && cc(buf[k]) > cc1
      invariant start - 1 <= k < j
      invariant forall i :: 0 <= i < buf.Length && !(k + 1 < i <= j) && i != j ==> buf[i] == t[i]
      invariant k + 1 == j ==> buf[j] == t[j]
      invariant forall i :: k + 1 < i <= j ==> buf[i] == t[i - 1] && cc1 < cc(t[i - 1])
    {
      buf[k + 1] := buf[k];
      k := k - 1;
    }
    assert k + 1 < j ==> buf[k + 2] == t[k + 1] && cc1 < cc(t[k + 1]);
    buf[k + 1] := ch1;
    PutInPlace(cc, s, t, buf[..], start, j, k + 1);
  }

  /** The buffer with the character at `j` moved down to `k`. */
  lemma PutInPlace(cc: int -> nat, s: seq<int>, t: seq<int>, u: seq<int>, start: nat, j: nat, k: nat)
    requires Sorting(cc, s, t, start, j) && j < |t| == |u| && start <= k <= j
    requires (k == start || cc(t[k - 1]) <= cc(t[j])) && (k == j || cc(t[j]) < cc(t[k]))
    requires u[k] == t[j] && (forall i :: k < i <= j ==> u[i] == t[i - 1])
    requires forall i :: 0 <= i < |t| && !(k <= i <= j) ==> u[i] == t[i]
    ensures Sorting(cc, s, u, start, j + 1)
  {
    hide Select;
    var x, sorted, at := t[j], t[start..j], k - start;
    Inserted(cc, sorted, at, x);
    SameSlice(t, u, start, j, k);
    assert t[j] == s[j];
    SameSnoc(cc, s[start..j], sorted, x);
    assert s[start..j + 1] == s[start..j] + [x];
    SameThen(cc, s[start..j + 1], sorted + [x], u[start..j + 1]);
  }

  lemma SameSlice(t: seq<int>, u: seq<int>, start: nat, j: nat, k: nat)
    requires j < |t| == |u| && start <= k <= j && u[k] == t[j] && (forall i :: k < i <= j ==> u[i] == t[i - 1])
    requires forall i :: 0 <= i < |t| && !(k <= i <= j) ==> u[i] == t[i]
    ensures u[start..j + 1] == t[start..j][..k - start] + [t[j]] + t[start..j][k - start..]
  {
    var a, b := u[start..j + 1], t[start..j][..k - start] + [t[j]] + t[start..j][k - start..];
    assert |a| == |b|;
    forall i | 0 <= i < |a| ensures a[i] == b[i] {
      assert a[i] == u[start + i];
    }
  }

  /** sort_cc */
  method SortCc(cc: int -> nat, buf: array<int>)
    modifies buf
    ensures CanonicallyOrdered(cc, old(buf[..]), buf[..])
  {
    hide Sorting, OrderedTo, CanonicallyOrdered;
    ghost var s := buf[..];
    var len := buf.Length;
    var i := 0;
    NothingOrdered(cc, s);
    while i < len
      invariant 0 <= i <= len + 1 && OrderedTo(cc, s, buf[..], i)
      invariant i == 0 || i == len + 1 || cc(s[i - 1]) == 0
    {
      ghost var t := buf[..];
      NotYet(cc, s, t, i);
      if cc(buf[i]) != 0 {
        var start := i;
        var j := i + 1;
        StartRun(cc, s, t, start);
        while j < len && cc(buf[j]) != 0
          invariant start < j <= len && Sorting(cc, t, buf[..], start, j) && NoStarter(cc, s, start, j)
          invariant forall k :: j <= k < len ==> buf[k] == s[k]
        {
          InsertChar(cc, buf, start, j, t);
          NotSorted(cc, t, buf[..], start, j + 1);
          j := j + 1;
        }
        RunDone(cc, s, t, buf[..], start, j);
        i := j;
      } else {
        StarterKept(cc, s, t, i);
      }
      i := i + 1;
    }
    AllDone(cc, s, buf[..], i);
  }

  lemma NothingOrdered(cc: int -> nat, s: seq<int>)
    ensures OrderedTo(cc, s, s, 0)
  {
  }

  lemma NotYet(cc: int -> nat, s: seq<int>, t: seq<int>, n: nat)
    requires OrderedTo(cc, s, t, n)
    ensures |s| == |t| && forall i :: n <= i < |s| ==> t[i] == s[i]
  {
  }

  lemma NotSorted(cc: int -> nat, s: seq<int>, t: seq<int>, start: nat, j: nat)
    requires Sorting(cc, s, t, start, j)
    ensures |s| == |t| && forall i :: j <= i < |s| ==> t[i] == s[i]
  {
  }

  lemma StartRun(cc: int -> nat, s: seq<int>, t: seq<int>, i: nat)
    requires OrderedTo(cc, s, t, i) && i < |s| && cc(t[i]) != 0
    ensures Sorting(cc, t, t, i, i + 1) && NoStarter(cc, s, i, i + 1)
  {
  }

  /** A run that has been sorted, and the starter behind it. */
  lemma RunDone(cc: int -> nat, s: seq<int>, t: seq<int>, u: seq<int>, start: nat, j: nat)
    requires OrderedTo(cc, s, t, start) && Sorting(cc, t, u, start, j) && start < j && NoStarter(cc, s, start, j)
    requires start == 0 || cc(s[start - 1]) == 0
    requires j == |s| || cc(s[j]) == 0
    ensures OrderedTo(cc, s, u, j + 1)
  {
    assert t[start..j] == s[start..j];
    forall lo: nat, hi: nat | hi <= j + 1 && Run(cc, s, lo, hi) ensures RunOrdered(cc, s, u, lo, hi) {
      if hi <= start {
        assert RunOrdered(cc, s, t, lo, hi);
        assert u[lo..hi] == t[lo..hi];
      } else {
        assert lo == start && hi == j by { OneRun(cc, s, lo, hi, start, j); }
      }
    }
  }

  /** Runs that meet are the same. */
  lemma OneRun(cc: int -> nat, s: seq<int>, lo: nat, hi: nat, start: nat, j: nat)
    requires Run(cc, s, lo, hi) && Run(cc, s, start, j) && start < hi <= j + 1
    ensures lo == start && hi == j
  {
  }

  lemma StarterKept(cc: int -> nat, s: seq<int>, t: seq<int>, i: nat)
    requires OrderedTo(cc, s, t, i) && i < |s| && cc(t[i]) == 0
    ensures OrderedTo(cc, s, t, i + 1) && cc(s[i]) == 0
  {
    forall lo: nat, hi: nat | hi <= i + 1 && Run(cc, s, lo, hi) ensures RunOrdered(cc, s, t, lo, hi) {
    }
  }

  lemma AllDone(cc: int -> nat, s: seq<int>, t: seq<int>, n: nat)
    requires |s| <= n && OrderedTo(cc, s, t, n)
    ensures CanonicallyOrdered(cc, s, t)
  {
    forall lo: nat, hi: nat | hi <= |s| ensures RunOrdered(cc, s, t, lo, hi) {
    }
  }

  // ------------------------------------------------------------ the ordering is determined

  /** Sorted sequences with the same characters of each class are equal. */
  lemma {:induction false} SortedUnique(cc: int -> nat, s: seq<int>, t: seq<int>)
    requires Sorted(cc, s) && Sorted(cc, t) && SameClasses(cc, s, t)
    ensures s == t
  {
    hide Select;
    if s != [] {
      var n := |s| - 1;
      SameLast(cc, s, t);
      forall v ensures Select(cc, s[..n], v) == Select(cc, t[..n], v) { SameFront(cc, s, t, v); }
      SortedUnique(cc, s[..n], t[..n]);
      assert s == s[..n] + [s[n]] && t == t[..n] + [t[n]];
    }
  }

  lemma LastSelected(cc: int -> nat, s: seq<int>, v: nat)
    requires s != []
    ensures Select(cc, s, v) == Select(cc, s[..|s| - 1], v) + if cc(s[|s| - 1]) == v then [s[|s| - 1]] else []
  {
  }

  lemma SameLast(cc: int -> nat, s: seq<int>, t: seq<int>)
    requires Sorted(cc, s) && Sorted(cc, t) && SameClasses(cc, s, t) && s != []
    ensures s[|s| - 1] == t[|t| - 1]
  {
    hide Select, Sorted;
    var x, y := s[|s| - 1], t[|t| - 1];
    HighestLast(cc, s, t);
    HighestLast(cc, t, s);
    var a := Select(cc, s[..|s| - 1], cc(x));
    LastSelected(cc, s, cc(x));
    LastSelected(cc, t, cc(x));
    assert Select(cc, s, cc(x)) == Select(cc, t, cc(x));
    assert (a + [x])[|a|] == x;
  }

  lemma SameFront(cc: int -> nat, s: seq<int>, t: seq<int>, v: nat)
    requires SameClasses(cc, s, t) && s != [] && s[|s| - 1] == t[|t| - 1]
    ensures Select(cc, s[..|s| - 1], v) == Select(cc, t[..|t| - 1], v)
  {
    hide Select;
    var x, a, b := s[|s| - 1], Select(cc, s[..|s| - 1], v), Select(cc, t[..|t| - 1], v);
    LastSelected(cc, s, v);
    LastSelected(cc, t, v);
    assert Select(cc, s, v) == Select(cc, t, v);
    assert a + [] == a && b + [] == b;
    assert (a + [x])[..|a|] == a && (b + [x])[..|b|] == b;
  }

  /** The last character of a sorted sequence has the highest class of both. */
  lemma HighestLast(cc: int -> nat, s: seq<int>, t: seq<int>)
    requires Sorted(cc, s) && SameClasses(cc, s, t) && s != []
    ensures cc(t[|t| - 1]) <= cc(s[|s| - 1])
  {
    var v := cc(t[|t| - 1]);
    SelectSnoc(cc, t[..|t| - 1], t[|t| - 1], v);
    assert t == t[..|t| - 1] + [t[|t| - 1]];
    assert Select(cc, s, v) != [];
    if forall i :: 0 <= i < |s| ==> cc(s[i]) != v {
      SelectNone(cc, s, v);
      assert false;
    }
  }

  /** There is one canonical ordering. */
  lemma OrderingIsUnique(cc: int -> nat, s: seq<int>, t: seq<int>, u: seq<int>)
    requires CanonicallyOrdered(cc, s, t) && CanonicallyOrdered(cc, s, u)
    ensures t == u
  {
    forall i | 0 <= i < |s| ensures t[i] == u[i] {
      if cc(s[i]) != 0 {
        var lo, hi := RunAround(cc, s, i);
        assert RunOrdered(cc, s, t, lo, hi) && RunOrdered(cc, s, u, lo, hi);
        SameSymmetric(cc, s[lo..hi], t[lo..hi], u[lo..hi]);
        SortedUnique(cc, t[lo..hi], u[lo..hi]);
        assert t[i] == t[lo..hi][i - lo] && u[i] == u[lo..hi][i - lo];
      }
    }
  }

  lemma SameSymmetric(cc: int -> nat, a: seq<int>, b: seq<int>, c: seq<int>)
    requires SameClasses(cc, a, b) && SameClasses(cc, a, c)
    ensures SameClasses(cc, b, c)
  {
    forall v ensures Select(cc, b, v) == Select(cc, c, v) {
      assert Select(cc, a, v) == Select(cc, b, v);
      assert Select(cc, a, v) == Select(cc, c, v);
    }
  }

  lemma RunAround(cc: int -> nat, s: seq<int>, i: nat) returns (lo: nat, hi: nat)
    requires i < |s| && cc(s[i]) != 0
    ensures lo <= i < hi && Run(cc, s, lo, hi)
  {
    lo, hi := i, i + 1;
    while 0 < lo && cc(s[lo - 1]) != 0
      invariant lo <= i && NoStarter(cc, s, lo, hi)
    {
      lo := lo - 1;
    }
    while hi < |s| && cc(s[hi]) != 0
      invariant i < hi <= |s| && NoStarter(cc, s, lo, hi)
      decreases |s| - hi
    {
      hi := hi + 1;
    }
  }

  /** Ordering twice is ordering once. */
  lemma OrderingIsIdempotent(cc: int -> nat, s: seq<int>, t: seq<int>, u: seq<int>)
    requires CanonicallyOrdered(cc, s, t) && CanonicallyOrdered(cc, t, u)
    ensures u == t
  {
    StartersStay(cc, s, t);
    forall lo: nat, hi: nat | hi <= |t| ensures RunOrdered(cc, t, t, lo, hi) {
      if Run(cc, t, lo, hi) {
        assert Run(cc, s, lo, hi);
        assert RunOrdered(cc, s, t, lo, hi);
      }
    }
    OrderingIsUnique(cc, t, t, u);
  }

  /** The starters of the ordering are where they were. */
  lemma StartersStay(cc: int -> nat, s: seq<int>, t: seq<int>)
    requires CanonicallyOrdered(cc, s, t)
    ensures forall i :: 0 <= i < |s| ==> (cc(t[i]) == 0 <==> cc(s[i]) == 0)
  {
    hide Select, Sorted;
    forall i | 0 <= i < |s| ensures cc(t[i]) == 0 <==> cc(s[i]) == 0 {
      if cc(s[i]) != 0 {
        var lo, hi := RunAround(cc, s, i);
        assert RunOrdered(cc, s, t, lo, hi);
        SelectNone(cc, s[lo..hi], 0);
        assert Select(cc, s[lo..hi], 0) == Select(cc, t[lo..hi], 0);
        NoneSelected(cc, t[lo..hi], 0, i - lo);
      }
    }
  }

  lemma {:induction false} NoneSelected(cc: int -> nat, s: seq<int>, v: nat, i: nat)
    requires Select(cc, s, v) == [] && i < |s|
    ensures cc(s[i]) != v
  {
    if i != |s| - 1 { NoneSelected(cc, s[..|s| - 1], v, i); }
  }

  // ------------------------------------------------------------ composition

  /** The starter that a character of class `last` behind `out` can be composed with, or -1. */
  function Starter(cc: int -> nat, out: seq<int>, last: nat): (p: int)
    ensures -1 <= p < |out|
  {
    if out == [] then -1
    else if cc(out[|out| - 1]) == 0 then |out| - 1
    else if last <= cc(out[|out| - 1]) then -1
    else Starter(cc, out[..|out| - 1], 256)
  }

  /** compose_pair: 0 if there is no composition. */
  function ComposePair(pair: (int, int) -> int, c0: int, c1: int): int {
    if 0x1100 <= c0 < 0x1100 + 19 && 0x1161 <= c1 < 0x1161 + 21 then
      0xac00 + (c0 - 0x1100) * 588 + (c1 - 0x1161) * 28
    else if 0xac00 <= c0 < 0xac00 + 11172 && (c0 - 0xac00) % 28 == 0 && 0x11a7 <= c1 < 0x11a7 + 28 then
      c0 + c1 - 0x11a7
    else pair(c0, c1)
  }

  /** Composing `rest`, behind what has been composed so far. */
  function Compose(cc: int -> nat, pair: (int, int) -> int, out: seq<int>, rest: seq<int>): seq<int>
    decreases |rest|
  {
    if rest == [] then out
    else
      var p := Starter(cc, out, cc(rest[0]));
      if 0 <= p && ComposePair(pair, out[p], rest[0]) != 0 then
        Compose(cc, pair, out[p := ComposePair(pair, out[p], rest[0])], rest[1..])
      else Compose(cc, pair, out + [rest[0]], rest[1..])
  }

  /** The composition loop of unicode_normalize, in place. */
  method ComposeBuffer(cc: int -> nat, pair: (int, int) -> int, buf: array<int>, bufLen: nat) returns (outLen: nat)
    requires 1 <= bufLen <= buf.Length
    modifies buf
    ensures 1 <= outLen <= bufLen && buf[..outLen] == Compose(cc, pair, [old(buf[0])], old(buf[1..bufLen]))
  {
    hide Compose, ComposePair, Starter;
    ghost var s := buf[..];
    var i := 1;
    outLen := 1;
    assert buf[..1] == [s[0]] && s[1..bufLen] == buf[1..bufLen];
    while i < bufLen
      invariant 1 <= outLen <= i <= bufLen && buf[i..bufLen] == s[i..bufLen]
      invariant Compose(cc, pair, buf[..outLen], s[i..bufLen]) == Compose(cc, pair, [s[0]], s[1..bufLen])
    {
      ghost var out, rest := buf[..outLen], s[i..bufLen];
      assert rest[0] == buf[i..bufLen][0] == buf[i] && rest[1..] == s[i + 1..bufLen];
      ComposeNext(cc, pair, out, rest);
      var starterPos := FindStarter(cc, buf, outLen, cc(buf[i]));
      var p := if 0 <= starterPos then ComposePair(pair, buf[starterPos], buf[i]) else 0;
      if p != 0 {
        buf[starterPos] := p;
        assert buf[..outLen] == out[starterPos := p];
      } else {
        buf[outLen] := buf[i];
        outLen := outLen + 1;
        assert buf[..outLen] == out + [rest[0]];
      }
      i := i + 1;
    }
    assert s[bufLen..bufLen] == [];
    ComposeEnd(cc, pair, buf[..outLen]);
  }

  lemma ComposeNext(cc: int -> nat, pair: (int, int) -> int, out: seq<int>, rest: seq<int>)
    requires rest != []
    ensures var p := Starter(cc, out, cc(rest[0]));
      Compose(cc, pair, out, rest) ==
        if 0 <= p && ComposePair(pair, out[p], rest[0]) != 0 then
          Compose(cc, pair, out[p := ComposePair(pair, out[p], rest[0])], rest[1..])
        else Compose(cc, pair, out + [rest[0]], rest[1..])
  {
  }

  lemma ComposeEnd(cc: int -> nat, pair: (int, int) -> int, out: seq<int>)
    ensures Compose(cc, pair, out, []) == out
  {
  }

  /** The search for a starter that is not blocked. */
  method FindStarter(cc: int -> nat, buf: array<int>, outLen: nat, cc0: nat) returns (pos: int)
    requires outLen <= buf.Length
    ensures pos == Starter(cc, buf[..outLen], cc0)
  {
    var lastCc := cc0;
    pos := outLen - 1;
    while 0 <= pos
      invariant -1 <= pos < outLen && Starter(cc, buf[..pos + 1], lastCc) == Starter(cc, buf[..outLen], cc0)
    {
      assert buf[..pos + 1][..pos] == buf[..pos];
      var c := cc(buf[pos]);
      if c == 0 { return; }
      if lastCc <= c { return -1; }
      lastCc := 256;
      pos := pos - 1;
    }
  }

  /** Combining characters of ascending classes stand behind each starter. */
  ghost predicate RunsAscend(cc: int -> nat, s: seq<int>) {
    forall i :: 0 <= i && i + 1 < |s| && cc(s[i + 1]) != 0 ==> cc(s[i]) <= cc(s[i + 1])
  }

  /** Section 3.11: the starter at `p` is the last one, and nothing blocks a character of class `c` from it. */
  ghost predicate Unblocked(cc: int -> nat, s: seq<int>, p: int, c: nat) {
    0 <= p < |s| && cc(s[p]) == 0 && forall i :: p < i < |s| ==> 0 < cc(s[i]) < c
  }

  /** Where runs are in order, comparing with the last character alone finds out what is blocked. */
  lemma {:induction false} StarterIsUnblocked(cc: int -> nat, s: seq<int>, c: nat, p: int)
    requires (forall x :: cc(x) < 256) && RunsAscend(cc, s)
    ensures 0 <= p ==> (Starter(cc, s, c) == p <==> Unblocked(cc, s, p, c))
  {
    if s != [] && cc(s[|s| - 1]) != 0 && cc(s[|s| - 1]) < c {
      var n := |s| - 1;
      StarterIsUnblocked(cc, s[..n], 256, p);
      if 0 <= p < n && Unblocked(cc, s[..n], p, 256) {
        forall i | p < i < n ensures 0 < cc(s[i]) {
          assert s[i] == s[..n][i];
        }
        BelowLast(cc, s, p);
      }
    }
  }

  /** In a run in order, the last character has the highest class. */
  lemma BelowLast(cc: int -> nat, s: seq<int>, p: nat)
    requires p < |s| && RunsAscend(cc, s) && forall i :: p < i < |s| ==> 0 < cc(s[i])
    ensures forall i :: p < i < |s| ==> cc(s[i]) <= cc(s[|s| - 1])
  {
    var k := |s| - 1;
    while p + 1 < k
      invariant p < |s| && (k <= |s| - 1) && (p < |s| - 1 ==> p < k) && forall i :: k <= i < |s| && p < i ==> cc(s[i]) <= cc(s[|s| - 1])
    {
      assert cc(s[k - 1 + 1]) != 0;
      k := k - 1;
    }
  }

  // ------------------------------------------------- composition as Unicode defines it

  /** The pairs that compose by arithmetic: L with V, and LV with T. */
  predicate HangulPair(c0: int, c1: int) {
    (0x1100 <= c0 < 0x1100 + 19 && 0x1161 <= c1 < 0x1161 + 21)
    || (0xac00 <= c0 < 0xac00 + 11172 && (c0 - 0xac00) % 28 == 0 && 0x11a7 <= c1 < 0x11a7 + 28)
  }

  /** Section 3.12: a leading consonant and a vowel. */
  ghost predicate IsLv(l: int, v: int, c0: int, c1: int, c: int) {
    0 <= l < 19 && 0 <= v < 21 && c0 == 0x1100 + l && c1 == 0x1161 + v && c == 0xac00 + (l * 21 + v) * 28
  }

  /** A syllable without trailing consonant, and one; libunicode.c counts the place before the first, `t` = 0. */
  ghost predicate IsLvt(l: int, v: int, t: int, c0: int, c1: int, c: int) {
    0 <= l < 19 && 0 <= v < 21 && 0 <= t < 28 && c0 == 0xac00 + (l * 21 + v) * 28 && c1 == 0x11a7 + t && c == c0 + t
  }

  /** Two characters compose to `c`: by arithmetic, and otherwise by the table, whose entries are not 0. */
  ghost predicate PairMakes(pair: (int, int) -> int, c0: int, c1: int, c: int) {
    || (exists l, v :: IsLv(l, v, c0, c1, c))
    || (exists l, v, t :: IsLvt(l, v, t, c0, c1, c))
    || (!HangulPair(c0, c1) && pair(c0, c1) == c != 0)
  }

  /** compose_pair finds what two characters compose to, and 0 if they do not. */
  lemma ComposePairMakes(pair: (int, int) -> int, c0: int, c1: int, c: int)
    ensures PairMakes(pair, c0, c1, c) <==> ComposePair(pair, c0, c1) == c != 0
  {
    if 0x1100 <= c0 < 0x1100 + 19 && 0x1161 <= c1 < 0x1161 + 21 {
      var l, v := c0 - 0x1100, c1 - 0x1161;
      assert (l * 21 + v) * 28 == l * 588 + v * 28;
      if ComposePair(pair, c0, c1) == c { assert IsLv(l, v, c0, c1, c); }
    } else if 0xac00 <= c0 < 0xac00 + 11172 && (c0 - 0xac00) % 28 == 0 && 0x11a7 <= c1 < 0x11a7 + 28 {
      var l, v, t := (c0 - 0xac00) / 588, (c0 - 0xac00) % 588 / 28, c1 - 0x11a7;
      assert c0 == 0xac00 + (l * 21 + v) * 28;
      if ComposePair(pair, c0, c1) == c { assert IsLvt(l, v, t, c0, c1, c); }
    } else {
      forall l, v ensures !IsLv(l, v, c0, c1, c) { }
      forall l, v, t ensures !IsLvt(l, v, t, c0, c1, c) {
        if IsLvt(l, v, t, c0, c1, c) { LvtIsPair(l, v, t, c0, c1, c); }
      }
    }
  }

  lemma LvtIsPair(l: int, v: int, t: int, c0: int, c1: int, c: int)
    requires IsLvt(l, v, t, c0, c1, c)
    ensures HangulPair(c0, c1)
  {
    assert (c0 - 0xac00) % 28 == 0;
  }

  /**
   Section 3.11: `t` is `out` followed by the composition of `rest`.  Each character in turn composes with
   the starter from which it is not blocked, if the two compose, and otherwise stands as it is.
   */
  ghost predicate ComposesTo(cc: int -> nat, pair: (int, int) -> int, out: seq<int>, rest: seq<int>, t: seq<int>)
    decreases |rest|
  {
    if rest == [] then t == out
    else
      && (forall p, c :: Meets(cc, pair, out, p, rest[0], c) ==> ComposesTo(cc, pair, out[p := c], rest[1..], t))
      && ((forall p, c :: !Meets(cc, pair, out, p, rest[0], c)) ==> ComposesTo(cc, pair, out + [rest[0]], rest[1..], t))
  }

  /** The character composes with the starter at `p` to `c`, and nothing blocks it. */
  ghost predicate Meets(cc: int -> nat, pair: (int, int) -> int, out: seq<int>, p: int, x: int, c: int) {
    Unblocked(cc, out, p, cc(x)) && PairMakes(pair, out[p], x, c)
  }

  /** What a starter composes to is a starter. */
  ghost predicate StartersCompose(cc: int -> nat, pair: (int, int) -> int) {
    forall x, y, c :: cc(x) == 0 && PairMakes(pair, x, y, c) ==> cc(c) == 0
  }

  /** The loop composes ordered text as the standard says. */
  lemma {:induction false} ComposeIsStandard(cc: int -> nat, pair: (int, int) -> int, out: seq<int>, rest: seq<int>)
    requires (forall x :: cc(x) < 256) && StartersCompose(cc, pair) && RunsAscend(cc, out + rest)
    ensures ComposesTo(cc, pair, out, rest, Compose(cc, pair, out, rest))
    decreases |rest|
  {
    hide Compose, ComposePair, Starter, Unblocked, PairMakes;
    if rest == [] {
      ComposeEnd(cc, pair, out);
    } else {
      ComposeNext(cc, pair, out, rest);
      var x, p := rest[0], Starter(cc, out, cc(rest[0]));
      FrontAscends(cc, out, rest);
      forall q, c ensures Meets(cc, pair, out, q, x, c) <==> 0 <= p && q == p && ComposePair(pair, out[p], x) == c != 0 {
        OnlyMeeting(cc, pair, out, q, x, c);
      }
      if 0 <= p && ComposePair(pair, out[p], x) != 0 {
        var y := ComposePair(pair, out[p], x);
        assert Meets(cc, pair, out, p, x, y);
        UnblockedStarter(cc, out, p, cc(x));
        ComposedAscends(cc, out, rest, p, y);
        ComposeIsStandard(cc, pair, out[p := y], rest[1..]);
      } else {
        assert out + [x] + rest[1..] == out + rest;
        ComposeIsStandard(cc, pair, out + [x], rest[1..]);
      }
    }
  }

  lemma OnlyMeeting(cc: int -> nat, pair: (int, int) -> int, out: seq<int>, q: int, x: int, c: int)
    requires (forall x :: cc(x) < 256) && RunsAscend(cc, out)
    ensures var p := Starter(cc, out, cc(x));
      Meets(cc, pair, out, q, x, c) <==> 0 <= p && q == p && ComposePair(pair, out[p], x) == c != 0
  {
    hide ComposePair, Starter, Unblocked, PairMakes;
    if 0 <= q {
      StarterIsUnblocked(cc, out, cc(x), q);
      if Unblocked(cc, out, q, cc(x)) {
        UnblockedStarter(cc, out, q, cc(x));
        ComposePairMakes(pair, out[q], x, c);
      }
    } else {
      NegativePlace(cc, out, q, cc(x));
    }
  }

  /** A starter and a character behind it, by the table alone. */
  lemma TwoCharacters(cc: int -> nat, pair: (int, int) -> int, x: int, y: int)
    requires cc(x) == 0 && !HangulPair(x, y)
    ensures Compose(cc, pair, [x], [y]) == if pair(x, y) != 0 then [pair(x, y)] else [x, y]
  {
    hide Compose;
    ComposeNext(cc, pair, [x], [y]);
    assert Starter(cc, [x], cc(y)) == 0 && [y][1..] == [] && [x][0 := pair(x, y)] == [pair(x, y)] && [x] + [y] == [x, y];
    ComposeEnd(cc, pair, [pair(x, y)]);
    ComposeEnd(cc, pair, [x, y]);
  }

  lemma NegativePlace(cc: int -> nat, s: seq<int>, p: int, c: nat)
    requires p < 0
    ensures !Unblocked(cc, s, p, c)
  {
  }

  lemma UnblockedStarter(cc: int -> nat, s: seq<int>, p: int, c: nat)
    requires Unblocked(cc, s, p, c)
    ensures 0 <= p < |s| && cc(s[p]) == 0
  {
  }

  lemma FrontAscends(cc: int -> nat, a: seq<int>, b: seq<int>)
    requires RunsAscend(cc, a + b)
    ensures RunsAscend(cc, a)
  {
    forall i | 0 <= i && i + 1 < |a| && cc(a[i + 1]) != 0 ensures cc(a[i]) <= cc(a[i + 1]) {
      assert (a + b)[i] == a[i] && (a + b)[i + 1] == a[i + 1];
    }
  }

  /** Putting a starter in the place of a starter, and taking the next character out, keeps the order. */
  lemma ComposedAscends(cc: int -> nat, out: seq<int>, rest: seq<int>, p: nat, y: int)
    requires rest != [] && RunsAscend(cc, out + rest) && Unblocked(cc, out, p, cc(rest[0])) && cc(y) == 0
    ensures RunsAscend(cc, out[p := y] + rest[1..])
  {
    var s, t := out + rest, out[p := y] + rest[1..];
    forall i | 0 <= i && i + 1 < |t| && cc(t[i + 1]) != 0 ensures cc(t[i]) <= cc(t[i + 1]) {
      if i + 1 < |out| {
        assert i + 1 != p && cc(s[i]) <= cc(s[i + 1]);
      } else if i + 1 == |out| {
        assert t[i + 1] == s[i + 2] == rest[1] && s[i + 1] == rest[0] && s[i] == out[i];
        assert cc(s[i + 1]) <= cc(s[i + 2]);
      } else {
        assert t[i] == s[i + 1] && t[i + 1] == s[i + 2];
      }
    }
  }

  /** Ordered text has ascending runs. */
  lemma OrderedAscends(cc: int -> nat, s: seq<int>, t: seq<int>)
    requires CanonicallyOrdered(cc, s, t)
    ensures RunsAscend(cc, t)
  {
    hide Select;
    StartersStay(cc, s, t);
    forall i | 0 <= i && i + 1 < |t| && cc(t[i + 1]) != 0 ensures cc(t[i]) <= cc(t[i + 1]) {
      if cc(t[i]) != 0 {
        var lo, hi := RunAround(cc, s, i + 1);
        assert RunOrdered(cc, s, t, lo, hi);
        assert lo != i + 1;
        assert t[lo..hi][i - lo] == t[i] && t[lo..hi][i + 1 - lo] == t[i + 1];
      }
    }
  }

  /** What sort_cc leaves is composed as the standard says. */
  lemma NormalizedText(cc: int -> nat, pair: (int, int) -> int, s: seq<int>, t: seq<int>)
    requires CanonicallyOrdered(cc, s, t) && 1 <= |t| && (forall x :: cc(x) < 256) && StartersCompose(cc, pair)
    ensures ComposesTo(cc, pair, [t[0]], t[1..], Compose(cc, pair, [t[0]], t[1..]))
  {
    hide Compose, ComposesTo, RunsAscend, CanonicallyOrdered;
    OrderedAscends(cc, s, t);
    assert [t[0]] + t[1..] == t;
    ComposeIsStandard(cc, pair, [t[0]], t[1..]);
  }

  /** to_nfd_rec for a Hangul syllable. */
  function HangulParts(c: int): (d: seq<int>)
    requires 0xac00 <= c < 0xd7a4
    ensures 2 <= |d| <= 3
  {
    var n := c - 0xac00;
    [0x1100 + n / 588, 0x1161 + (n % 588) / 28] + if n % 28 != 0 then [0x11a7 + n % 28] else []
  }

  /** Composing the parts of a Hangul syllable gives it back. */
  lemma HangulRoundTrip(cc: int -> nat, pair: (int, int) -> int, c: int)
    requires 0xac00 <= c < 0xd7a4 && (forall x :: 0x1100 <= x < 0x1200 || 0xac00 <= x < 0xd7a4 ==> cc(x) == 0)
    ensures Compose(cc, pair, [HangulParts(c)[0]], HangulParts(c)[1..]) == [c]
  {
    var d, n := HangulParts(c), c - 0xac00;
    var lv := 0xac00 + n / 28 * 28;
    assert n == 588 * (n / 588) + n % 588 && n % 588 / 28 < 21 && n / 588 < 19;
    assert n / 28 == 21 * (n / 588) + n % 588 / 28;
    assert ComposePair(pair, d[0], d[1]) == lv;
    assert [d[0]][0 := lv] == [lv];
    assert d[1..][1..] == d[2..];
    assert Compose(cc, pair, [d[0]], d[1..]) == Compose(cc, pair, [lv], d[2..]);
    if n % 28 != 0 {
      assert ComposePair(pair, lv, d[2]) == c;
      assert [lv][0 := c] == [c] && d[2..][1..] == [] && d[2..][0] == d[2];
      assert Starter(cc, [lv], cc(d[2])) == 0;
      assert Compose(cc, pair, [lv], d[2..]) == Compose(cc, pair, [c], []) == [c];
    } else {
      assert d[2..] == [] && lv == c;
    }
  }

  function Decomposed(c: int): seq<int> { if 0xac00 <= c < 0xd7a4 then HangulParts(c) else [c] }

  /** A composed pair comes apart again, unless the second character is U+11A7, which is dropped. */
  lemma HangulExactly(pair: (int, int) -> int, c0: int, c1: int)
    requires HangulPair(c0, c1)
    ensures var p := ComposePair(pair, c0, c1);
      0xac00 <= p < 0xd7a4 && (HangulParts(p) == Decomposed(c0) + [c1] <==> c1 != 0x11a7)
  {
    var p := ComposePair(pair, c0, c1);
    if c0 < 0xac00 {
      Syllable(c0 - 0x1100, c1 - 0x1161, 0);
      assert HangulParts(p) == [c0, c1];
    } else {
      var n, t := c0 - 0xac00, c1 - 0x11a7;
      var l, v := n / 588, n % 588 / 28;
      assert n == l * 588 + v * 28 && l < 19 && v < 21;
      Syllable(l, v, 0);
      Syllable(l, v, t);
      assert HangulParts(c0) == [0x1100 + l, 0x1161 + v];
    }
  }

  lemma Syllable(l: int, v: int, t: int)
    requires 0 <= l < 19 && 0 <= v < 21 && 0 <= t < 28
    ensures var n := l * 588 + v * 28 + t; n / 588 == l && n % 588 / 28 == v && n % 28 == t && n < 11172
  {
    var n := l * 588 + v * 28 + t;
    assert n == (l * 21 + v) * 28 + t;
  }
}
