/**
 Character ranges of libunicode.c: sorted boundary lists, the merge that computes union,
 intersection and symmetric difference, the in-place compression, and the complement.
 */
module CharRanges {
  import opened RegexSyntax
  import opened RegexBytecode

  ghost predicate Ascending(pts: seq<nat>) {
    forall i, j :: 0 <= i < j < |pts| ==> pts[i] <= pts[j]
  }

  ghost predicate StrictlyAscending(pts: seq<nat>) {
    forall i, j :: 0 <= i < j < |pts| ==> pts[i] < pts[j]
  }

  ghost predicate InRange(pts: seq<nat>) {
    forall i :: 0 <= i < |pts| ==> pts[i] <= UINT32_MAX
  }

  /** A boundary list as the callers of cr_op must pass it. */
  ghost predicate Weak(pts: seq<nat>) {
    Ascending(pts) && InRange(pts) && |pts| % 2 == 0
  }

  /** A boundary list as the operations return it. */
  ghost predicate Canonical(pts: seq<nat>) {
    StrictlyAscending(pts) && InRange(pts) && |pts| % 2 == 0
  }

  /** How many boundaries are at or below `c`. */
  function Below(pts: seq<nat>, c: nat): (n: nat)
    ensures n <= |pts|
  {
    if pts == [] then 0 else Below(pts[..|pts| - 1], c) + if pts[|pts| - 1] <= c then 1 else 0
  }

  predicate Inside(pts: seq<nat>, c: nat) {
    Below(pts, c) % 2 == 1
  }

  lemma BelowSnoc(pts: seq<nat>, v: nat, c: nat)
    ensures Below(pts + [v], c) == Below(pts, c) + if v <= c then 1 else 0
  {
    assert (pts + [v])[..|pts|] == pts;
  }

  lemma {:induction false} BelowConcat(a: seq<nat>, b: seq<nat>, c: nat)
    ensures Below(a + b, c) == Below(a, c) + Below(b, c)
    decreases |b|
  {
    if b == [] {
      assert a + b == a;
    } else {
      var b' := b[..|b| - 1];
      assert b == b' + [b[|b| - 1]];
      assert a + b == (a + b') + [b[|b| - 1]];
      BelowConcat(a, b', c);
      BelowSnoc(a + b', b[|b| - 1], c);
      BelowSnoc(b', b[|b| - 1], c);
    }
  }

  lemma {:induction false} BelowAll(pts: seq<nat>, c: nat)
    requires forall i :: 0 <= i < |pts| ==> pts[i] <= c
    ensures Below(pts, c) == |pts|
  {
    if pts != [] { BelowAll(pts[..|pts| - 1], c); }
  }

  /** In a sorted list the boundaries at or below `c` come first. */
  lemma {:induction false} BelowIsPrefix(pts: seq<nat>, c: nat)
    requires Ascending(pts)
    ensures forall i :: 0 <= i < |pts| ==> (pts[i] <= c <==> i < Below(pts, c))
  {
    if pts != [] {
      var last := |pts| - 1;
      BelowIsPrefix(pts[..last], c);
      if pts[last] <= c { BelowAll(pts[..last], c); }
    }
  }

  /** Counting boundaries agrees with membership in an interval. */
  lemma InsideIsMembership(pts: seq<nat>, c: nat)
    requires Ascending(pts) && |pts| % 2 == 0
    ensures Inside(pts, c) <==> InPoints(pts, c)
  {
    BelowIsPrefix(pts, c);
    var n := Below(pts, c);
    if n % 2 == 1 {
      var k := n / 2;
      assert 0 <= 2 * k && 2 * k + 1 < |pts| && pts[2 * k] <= c < pts[2 * k + 1];
    }
    if k :| 0 <= 2 * k && 2 * k + 1 < |pts| && pts[2 * k] <= c < pts[2 * k + 1] {
      assert 2 * k < n && !(2 * k + 1 < n);
    }
  }

  /** Canonical lists are determined by their members. */
  lemma {:induction false} CanonicalIsUnique(a: seq<nat>, b: seq<nat>)
    requires Canonical(a) && Canonical(b)
    requires forall c: nat :: c < UINT32_MAX ==> (Inside(a, c) <==> Inside(b, c))
    ensures a == b
  {
    if a != b {
      var k := FirstDifference(a, b, 0);
      if k < |a| && (k == |b| || a[k] < b[k]) {
        Differ(a, b, k);
      } else {
        Differ(b, a, k);
      }
    }
  }

  ghost function FirstDifference(a: seq<nat>, b: seq<nat>, i: nat): (k: nat)
    requires i <= |a| && i <= |b| && a[..i] == b[..i] && a != b
    ensures k <= |a| && k <= |b| && a[..k] == b[..k]
    ensures (k < |a| && k < |b| && a[k] != b[k]) || (k == |a| && k < |b|) || (k == |b| && k < |a|)
    decreases |a| - i
  {
    if i == |a| || i == |b| then assert a[..i] == a || b[..i] == b; i
    else if a[i] != b[i] then i
    else FirstDifference(a, b, i + 1)
  }

  lemma Differ(a: seq<nat>, b: seq<nat>, k: nat)
    requires Canonical(a) && Canonical(b) && k < |a| && k <= |b| && a[..k] == b[..k]
    requires k == |b| || a[k] < b[k]
    ensures exists c: nat :: c < UINT32_MAX && Inside(a, c) != Inside(b, c)
  {
    var c := a[k];
    BelowIsPrefix(a, c);
    BelowIsPrefix(b, c);
    assert Below(a, c) == k + 1 by {
      assert k < Below(a, c);
      if k + 1 < |a| { assert a[k] < a[k + 1]; }
    }
    assert Below(b, c) == k by {
      if 0 < k { assert b[k - 1] == b[..k][k - 1] == a[..k][k - 1] == a[k - 1]; }
    }
    if c == UINT32_MAX {
      assert false;
    }
    assert Inside(a, c) != Inside(b, c);
  }

  datatype RangeOp = Union | Inter | Xor

  predicate Apply(op: RangeOp, x: bool, y: bool) {
    match op
    case Union => x || y
    case Inter => x && y
    case Xor => x != y
  }

  /** The same membership, by counting boundaries. */
  ghost predicate SameParity(a: seq<nat>, b: seq<nat>) {
    forall c: nat :: Below(a, c) % 2 == Below(b, c) % 2
  }

  lemma DropEmpty(a: seq<nat>, x: nat, b: seq<nat>)
    ensures SameParity(a + ([x, x] + b), a + b)
  {
    hide Below;
    forall c: nat ensures Below(a + ([x, x] + b), c) % 2 == Below(a + b, c) % 2 {
      BelowConcat(a, [x, x] + b, c);
      BelowConcat([x, x], b, c);
      BelowConcat(a, b, c);
      Twice(x, c);
      EvenBetween(Below(a, c), Below([x, x], c), Below(b, c));
    }
  }

  lemma Twice(x: nat, c: nat)
    ensures Below([x, x], c) % 2 == 0
  {
    assert [x, x][..1] == [x];
  }

  lemma EvenBetween(p: nat, q: nat, r: nat)
    requires q % 2 == 0
    ensures (p + (q + r)) % 2 == (p + r) % 2
  {
  }

  lemma SkipKeeps(pre: seq<nat>, orig: seq<nat>, i: nat)
    requires i + 1 < |orig| && orig[i] == orig[i + 1] && SameParity(pre + orig[i..], orig)
    ensures SameParity(pre + orig[i + 2..], orig)
  {
    assert orig[i..] == [orig[i], orig[i]] + orig[i + 2..];
    DropEmpty(pre, orig[i], orig[i + 2..]);
  }

  lemma MergeKeeps(pre: seq<nat>, orig: seq<nat>, x: nat, j: nat)
    requires j + 3 < |orig| && orig[j + 1] == orig[j + 2]
    requires SameParity(pre + [x, orig[j + 1]] + orig[j + 2..], orig)
    ensures SameParity(pre + [x, orig[j + 3]] + orig[j + 4..], orig)
  {
    var a, b := pre + [x], orig[j + 3..];
    DropEmpty(a, orig[j + 1], b);
    assert pre + [x, orig[j + 1]] + orig[j + 2..] == a + ([orig[j + 1], orig[j + 1]] + b);
    assert a + b == pre + [x, orig[j + 3]] + orig[j + 4..];
  }

  /** cr_add_point appends one boundary; a CharRange is its list of boundaries. */
  class CharRange {
    var points: seq<nat>

    constructor ()
      ensures points == []
    {
      points := [];
    }

    /** cr_compress: intervals that touch become one, and those without members go. */
    method Compress()
      requires Weak(points)
      modifies this
      ensures Canonical(points)
      ensures SameParity(points, old(points))
    {
      hide SameParity, Ascending, StrictlyAscending, Below, InRange;
      ghost var orig := points;
      var pt, len := points, |points|;
      var i, k := 0, 0;
      StartCompress(orig);
      while i + 1 < len
        invariant Compressing(pt, orig, i, k)
      {
        if pt[i] == pt[i + 1] {
          // an interval without members
          SkipKeeps(pt[..k], orig, i);
          if i + 2 < len { AscendingAt(orig, i + 1); }
          i := i + 2;
        } else {
          var j := i;
          AscendingAt(orig, i);
          assert pt[..k] + orig[i..] == pt[..k] + [orig[i], orig[j + 1]] + orig[j + 2..];
          while j + 3 < len && pt[j + 1] == pt[j + 2]
            invariant i <= j && j + 1 < len && j % 2 == 0
            invariant orig[i] < orig[j + 1]
            invariant SameParity(pt[..k] + [orig[i], orig[j + 1]] + orig[j + 2..], orig)
          {
            MergeKeeps(pt[..k], orig, orig[i], j);
            AscendingAt(orig, j + 2);
            j := j + 2;
          }
          // keep this interval, with the ones that touch it
          Emit(pt, orig, k, i, j);
          if j + 2 < len { AscendingAt(orig, j + 1); }
          pt := pt[k := pt[i]];
          pt := pt[k + 1 := pt[j + 1]];
          k := k + 2;
          i := j + 2;
        }
      }
      assert pt[..k] + orig[i..] == pt[..k];
      points := pt[..k];
    }

    /** The merge of two boundary lists: a boundary goes out when it changes the status. */
    method Op(a: seq<nat>, b: seq<nat>, op: RangeOp)
      requires Weak(a) && Weak(b) && points == []
      modifies this
      ensures Canonical(points)
      ensures op == Union ==> forall c: nat :: Inside(points, c) <==> Inside(a, c) || Inside(b, c)
      ensures op == Inter ==> forall c: nat :: Inside(points, c) <==> Inside(a, c) && Inside(b, c)
      ensures op == Xor ==> forall c: nat :: Inside(points, c) <==> Inside(a, c) != Inside(b, c)
    {
      var aIdx, bIdx := 0, 0;
      while aIdx < |a| || bIdx < |b|
        invariant aIdx <= |a| && bIdx <= |b|
        invariant Merged(points, a, b, aIdx, bIdx, op)
        decreases |a| - aIdx + |b| - bIdx
      {
        ghost var before, i, j := points, aIdx, bIdx;
        // the next boundary of either list
        var v;
        if bIdx == |b| || (aIdx < |a| && a[aIdx] < b[bIdx]) {
          v := a[aIdx];
          aIdx := aIdx + 1;
        } else if aIdx < |a| && a[aIdx] == b[bIdx] {
          v := a[aIdx];
          aIdx, bIdx := aIdx + 1, bIdx + 1;
        } else {
          v := b[bIdx];
          bIdx := bIdx + 1;
        }
        // it is a boundary of the result if membership changes there
        var isIn := Apply(op, aIdx % 2 == 1, bIdx % 2 == 1);
        if isIn != (|points| % 2 == 1) {
          points := points + [v];
        }
        MergeStep(before, points, a, b, i, j, aIdx, bIdx, v, op);
      }
      ghost var merged := points;
      MergeDone(points, a, b, op);
      Compress();
      ParityInside(points, merged);
    }

    method Union1(b: seq<nat>)
      requires Weak(points) && Weak(b)
      modifies this
      ensures Canonical(points)
      ensures forall c: nat :: Inside(points, c) == (Inside(old(points), c) || Inside(b, c))
    {
      var a := points;
      points := [];
      Op(a, b, Union);
    }

    method UnionInterval(c1: nat, c2: nat)
      requires Weak(points) && c1 <= c2 < UINT32_MAX
      modifies this
      ensures Canonical(points)
      ensures forall c: nat :: Inside(points, c) == (Inside(old(points), c) || c1 <= c <= c2)
    {
      BelowPairs(c1, c2 + 1);
      Union1([c1, c2 + 1]);
    }

    /** The complement, among the characters below UINT32_MAX. */
    method Invert()
      requires Weak(points)
      modifies this
      ensures Canonical(points)
      ensures forall c: nat :: c < UINT32_MAX ==> Inside(points, c) == !Inside(old(points), c)
    {
      ghost var before := points;
      points := [0] + points + [UINT32_MAX];
      ghost var framed := points;
      Flipped(before);
      Compress();
      ParityInside(points, framed);
    }
  }

  lemma BelowPairs(x: nat, y: nat)
    requires x < y
    ensures forall c: nat :: Inside([x, y], c) <==> x <= c < y
  {
    forall c: nat ensures Inside([x, y], c) <==> x <= c < y {
      assert [x, y][..1] == [x] && [x][..0] == [];
      assert Below([x], c) == if x <= c then 1 else 0;
    }
  }

  lemma Flipped(pts: seq<nat>)
    ensures forall c: nat :: c < UINT32_MAX ==> Inside([0] + pts + [UINT32_MAX], c) == !Inside(pts, c)
  {
    forall c: nat | c < UINT32_MAX ensures Inside([0] + pts + [UINT32_MAX], c) == !Inside(pts, c) {
      BelowSnoc([0] + pts, UINT32_MAX, c);
      BelowConcat([0], pts, c);
      assert [0][..0] == [];
    }
  }

  /** What the merge has done when it is at `i` in `a` and at `j` in `b`. */
  ghost predicate Merged(pts: seq<nat>, a: seq<nat>, b: seq<nat>, i: nat, j: nat, op: RangeOp)
    requires i <= |a| && j <= |b|
  {
    && Ascending(pts) && InRange(pts)
    && (|pts| % 2 == 1) == Apply(op, i % 2 == 1, j % 2 == 1)
    && (forall k, l :: 0 <= k < |pts| && i <= l < |a| ==> pts[k] <= a[l])
    && (forall k, l :: 0 <= k < |pts| && j <= l < |b| ==> pts[k] <= b[l])
    && (forall k, l :: 0 <= k < i && j <= l < |b| ==> a[k] <= b[l])
    && (forall k, l :: 0 <= k < j && i <= l < |a| ==> b[k] <= a[l])
    && forall c: nat :: Inside(pts, c) == Apply(op, Inside(a[..i], c), Inside(b[..j], c))
  }

  /** `v` is the next boundary: nothing at or after it has been taken, everything before it has. */
  lemma MergeStep(pts: seq<nat>, pts': seq<nat>, a: seq<nat>, b: seq<nat>, i: nat, j: nat, i': nat, j': nat, v: nat, op: RangeOp)
    requires Weak(a) && Weak(b) && i <= i' <= |a| && j <= j' <= |b|
    requires Merged(pts, a, b, i, j, op)
    requires i' == (if i < |a| && a[i] == v then i + 1 else i) && j' == (if j < |b| && b[j] == v then j + 1 else j)
    requires (i < i' || j < j') && (i < |a| ==> v <= a[i]) && (j < |b| ==> v <= b[j])
    requires pts' == if Apply(op, i' % 2 == 1, j' % 2 == 1) != (|pts| % 2 == 1) then pts + [v] else pts
    ensures Merged(pts', a, b, i', j', op)
  {
    hide Inside, Ascending;
    MergeOrder(pts, pts', a, b, i, j, i', j', v);
    assert a[..i'] == a[..i] || a[..i'] == a[..i] + [v];
    assert b[..j'] == b[..j] || b[..j'] == b[..j] + [v];
    MergeMembers(pts, pts', a[..i], a[..i'], b[..j], b[..j'], v, op);
  }

  lemma MergeOrder(pts: seq<nat>, pts': seq<nat>, a: seq<nat>, b: seq<nat>, i: nat, j: nat, i': nat, j': nat, v: nat)
    requires Weak(a) && Weak(b) && i <= i' <= |a| && j <= j' <= |b|
    requires Ascending(pts) && InRange(pts)
    requires (forall k, l :: 0 <= k < |pts| && i <= l < |a| ==> pts[k] <= a[l])
    requires (forall k, l :: 0 <= k < |pts| && j <= l < |b| ==> pts[k] <= b[l])
    requires (forall k, l :: 0 <= k < i && j <= l < |b| ==> a[k] <= b[l])
    requires (forall k, l :: 0 <= k < j && i <= l < |a| ==> b[k] <= a[l])
    requires i' == (if i < |a| && a[i] == v then i + 1 else i) && j' == (if j < |b| && b[j] == v then j + 1 else j)
    requires (i < i' || j < j') && (i < |a| ==> v <= a[i]) && (j < |b| ==> v <= b[j])
    requires pts' == pts || pts' == pts + [v]
    ensures Ascending(pts') && InRange(pts')
    ensures (forall k :: 0 <= k < |pts| ==> pts[k] <= v) && (forall k :: 0 <= k < i ==> a[k] <= v) && (forall k :: 0 <= k < j ==> b[k] <= v)
    ensures forall k, l :: 0 <= k < |pts'| && i' <= l < |a| ==> pts'[k] <= a[l]
    ensures forall k, l :: 0 <= k < |pts'| && j' <= l < |b| ==> pts'[k] <= b[l]
    ensures forall k, l :: 0 <= k < i' && j' <= l < |b| ==> a[k] <= b[l]
    ensures forall k, l :: 0 <= k < j' && i' <= l < |a| ==> b[k] <= a[l]
  {
    assert forall l :: i <= l < |a| ==> v <= a[l];
    assert forall l :: j <= l < |b| ==> v <= b[l];
    assert v <= UINT32_MAX;
    if i < i' { assert a[i] == v; }
    if j < j' { assert b[j] == v; }
  }

  lemma MergeMembers(pts: seq<nat>, pts': seq<nat>, a: seq<nat>, a': seq<nat>, b: seq<nat>, b': seq<nat>, v: nat, op: RangeOp)
    requires pts' == pts || pts' == pts + [v]
    requires a' == a || a' == a + [v]
    requires b' == b || b' == b + [v]
    requires (forall k :: 0 <= k < |pts| ==> pts[k] <= v) && (forall k :: 0 <= k < |a| ==> a[k] <= v) && (forall k :: 0 <= k < |b| ==> b[k] <= v)
    requires (|pts'| % 2 == 1) == Apply(op, |a'| % 2 == 1, |b'| % 2 == 1)
    requires forall c: nat :: Inside(pts, c) == Apply(op, Inside(a, c), Inside(b, c))
    ensures forall c: nat :: Inside(pts', c) == Apply(op, Inside(a', c), Inside(b', c))
  {
    hide Below;
    forall c: nat ensures Inside(pts', c) == Apply(op, Inside(a', c), Inside(b', c)) {
      if v <= c {
        BelowAll(pts', c);
        BelowAll(a', c);
        BelowAll(b', c);
      } else {
        BelowSnoc(pts, v, c);
        BelowSnoc(a, v, c);
        BelowSnoc(b, v, c);
        assert Inside(pts, c) == Apply(op, Inside(a, c), Inside(b, c));
      }
    }
  }

  lemma MergeDone(pts: seq<nat>, a: seq<nat>, b: seq<nat>, op: RangeOp)
    requires Weak(a) && Weak(b) && Merged(pts, a, b, |a|, |b|, op)
    ensures Weak(pts) && forall c: nat :: Inside(pts, c) == Apply(op, Inside(a, c), Inside(b, c))
  {
    assert a[..|a|] == a && b[..|b|] == b;
  }

  lemma ParityInside(a: seq<nat>, b: seq<nat>)
    requires SameParity(a, b)
    ensures forall c: nat :: Inside(a, c) == Inside(b, c)
  {
  }

  /** Up to `i` the list is compressed into its first `k` boundaries. */
  ghost predicate Compressing(pt: seq<nat>, orig: seq<nat>, i: nat, k: nat) {
    && k <= i <= |orig| == |pt| && i % 2 == 0 && k % 2 == 0
    && (forall l :: i <= l < |pt| ==> pt[l] == orig[l])
    && InRange(pt[..k]) && StrictlyAscending(pt[..k]) && (0 < k && i < |pt| ==> pt[k - 1] < orig[i])
    && SameParity(pt[..k] + orig[i..], orig)
  }

  lemma StartCompress(orig: seq<nat>)
    ensures Compressing(orig, orig, 0, 0)
  {
    assert orig[..0] + orig[0..] == orig;
  }

  lemma Emit(pt: seq<nat>, orig: seq<nat>, k: nat, i: nat, j: nat)
    requires InRange(orig) && Compressing(pt, orig, i, k) && i <= j && j + 1 < |orig| && orig[i] < orig[j + 1]
    requires SameParity(pt[..k] + [orig[i], orig[j + 1]] + orig[j + 2..], orig)
    ensures k + 1 <= j + 1
    ensures var pt' := pt[k := pt[i]][k + 1 := pt[j + 1]];
      && pt[k := pt[i]][j + 1] == pt[j + 1]
      && (forall l :: j + 2 <= l < |pt| ==> pt'[l] == orig[l])
      && InRange(pt'[..k + 2]) && StrictlyAscending(pt'[..k + 2]) && pt'[k + 1] == orig[j + 1]
      && SameParity(pt'[..k + 2] + orig[j + 2..], orig)
  {
    hide StrictlyAscending, SameParity;
    var pt' := pt[k := pt[i]][k + 1 := pt[j + 1]];
    StrictAppend(pt[..k], orig[i], orig[j + 1]);
    assert pt'[..k + 2] == pt[..k] + [orig[i], orig[j + 1]];
  }

  lemma AscendingAt(pts: seq<nat>, i: nat)
    requires Ascending(pts) && i + 1 < |pts|
    ensures pts[i] <= pts[i + 1]
  {
  }

  lemma StrictAppend(pts: seq<nat>, x: nat, y: nat)
    requires StrictlyAscending(pts) && (pts != [] ==> pts[|pts| - 1] < x) && x < y
    ensures StrictlyAscending(pts + [x, y])
  {
  }

}
