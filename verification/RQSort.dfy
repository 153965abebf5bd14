/**
 rqsort of cutils.c: a quicksort that parks the elements equal to the pivot at both ends, keeps the
 pending segments on a stack of fifty entries and falls back to a heapsort.
 */
module RQSort {

  /** The sign of `cmp` orders everything, with ties. */
  ghost predicate TotalPreorder<T(!new)>(cmp: (T, T) -> int) {
    && (forall x, y :: cmp(x, y) < 0 <==> cmp(y, x) > 0)
    && (forall x, y, z :: cmp(x, y) <= 0 && cmp(y, z) <= 0 ==> cmp(x, z) <= 0)
  }

  lemma Chain<T(!new)>(cmp: (T, T) -> int, x: T, y: T, z: T)
    requires TotalPreorder(cmp) && cmp(x, y) <= 0 && cmp(y, z) <= 0
    ensures cmp(x, z) <= 0
  {
  }

  lemma Flip<T(!new)>(cmp: (T, T) -> int, x: T, y: T)
    requires TotalPreorder(cmp)
    ensures cmp(x, y) <= 0 <==> cmp(y, x) >= 0
    ensures cmp(x, y) < 0 <==> cmp(y, x) > 0
    ensures cmp(x, x) == 0
  {
  }

  ghost predicate Sorted<T>(cmp: (T, T) -> int, s: seq<T>, lo: int, hi: int) {
    forall x, y :: 0 <= lo <= x < y < hi <= |s| ==> cmp(s[x], s[y]) <= 0
  }

  // ---------------------------------------------------------------- permutations of a segment

  /** `t` is `s` with the elements of a segment permuted. */
  ghost predicate Perm<T>(s: seq<T>, t: seq<T>, lo: int, hi: int) {
    && 0 <= lo <= hi <= |s| == |t|
    && s[..lo] == t[..lo] && s[hi..] == t[hi..] && multiset(s[lo..hi]) == multiset(t[lo..hi])
  }

  lemma PermSelf<T>(s: seq<T>, lo: int, hi: int)
    requires 0 <= lo <= hi <= |s|
    ensures Perm(s, s, lo, hi)
  {
  }

  lemma PermThen<T>(s: seq<T>, t: seq<T>, u: seq<T>, lo: int, hi: int)
    requires Perm(s, t, lo, hi) && Perm(t, u, lo, hi)
    ensures Perm(s, u, lo, hi)
  {
  }

  lemma PermWiden<T>(s: seq<T>, t: seq<T>, lo: int, hi: int, lo': int, hi': int)
    requires Perm(s, t, lo, hi) && 0 <= lo' <= lo && hi <= hi' <= |s|
    ensures Perm(s, t, lo', hi')
  {
    assert s[lo'..hi'] == s[lo'..lo] + s[lo..hi] + s[hi..hi'];
    assert t[lo'..hi'] == t[lo'..lo] + t[lo..hi] + t[hi..hi'];
    assert s[lo'..lo] == s[..lo][lo'..] && t[lo'..lo] == t[..lo][lo'..];
    assert s[hi..hi'] == s[hi..][..hi' - hi] && t[hi..hi'] == t[hi..][..hi' - hi];
    assert s[..lo'] == s[..lo][..lo'] && t[..lo'] == t[..lo][..lo'];
    assert s[hi'..] == s[hi..][hi' - hi..] && t[hi'..] == t[hi..][hi' - hi..];
  }

  lemma PermSwap<T>(s: seq<T>, t: seq<T>, x: int, y: int, lo: int, hi: int)
    requires 0 <= lo <= x < hi <= |s| && lo <= y < hi && Swapped(s, t, x, y)
    ensures Perm(s, t, lo, hi)
  {
    var a := s[lo..hi];
    assert t[lo..hi] == a[x - lo := a[y - lo]][y - lo := a[x - lo]];
  }

  /** Every element of the permuted segment was in the segment before. */
  lemma PermHas<T>(s: seq<T>, t: seq<T>, lo: int, hi: int, x: int)
    requires Perm(s, t, lo, hi) && lo <= x < hi
    ensures exists y :: lo <= y < hi && s[y] == t[x]
  {
    assert t[x] == t[lo..hi][x - lo];
    assert t[x] in multiset(t[lo..hi]);
    assert t[x] in s[lo..hi];
    var k :| 0 <= k < hi - lo && s[lo..hi][k] == t[x];
    assert s[lo + k] == t[x];
  }

  lemma PermSame<T>(s: seq<T>, t: seq<T>, lo: int, hi: int, x: int)
    requires Perm(s, t, lo, hi) && 0 <= x < |s| && (x < lo || hi <= x)
    ensures s[x] == t[x]
  {
    if x < lo { assert s[x] == s[..lo][x] && t[x] == t[..lo][x]; }
    else { assert s[x] == s[hi..][x - hi] && t[x] == t[hi..][x - hi]; }
  }

  // ---------------------------------------------------------------- cuts

  /** Everything before `c` is at most everything from `c` on. */
  ghost predicate Cut<T>(cmp: (T, T) -> int, s: seq<T>, c: int) {
    forall x, y :: 0 <= x < c <= y < |s| ==> cmp(s[x], s[y]) <= 0
  }

  lemma CutsSort<T>(cmp: (T, T) -> int, s: seq<T>)
    requires forall c :: 0 <= c <= |s| ==> Cut(cmp, s, c)
    ensures Sorted(cmp, s, 0, |s|)
  {
    forall x, y | 0 <= x < y < |s| ensures cmp(s[x], s[y]) <= 0 {
      assert Cut(cmp, s, y);
    }
  }

  /** A permutation of a segment leaves the cuts outside it. */
  lemma PermCut<T>(cmp: (T, T) -> int, s: seq<T>, t: seq<T>, lo: int, hi: int, c: int)
    requires Perm(s, t, lo, hi) && Cut(cmp, s, c) && (c <= lo || hi <= c)
    ensures Cut(cmp, t, c)
  {
    forall x, y | 0 <= x < c <= y < |t| ensures cmp(t[x], t[y]) <= 0 {
      var x' := CameFrom(s, t, lo, hi, x);
      var y' := CameFrom(s, t, lo, hi, y);
      assert cmp(s[x'], s[y']) <= 0;
    }
  }

  lemma CameFrom<T>(s: seq<T>, t: seq<T>, lo: int, hi: int, x: int) returns (y: int)
    requires Perm(s, t, lo, hi) && 0 <= x < |t|
    ensures 0 <= y < |s| && s[y] == t[x] && if lo <= x < hi then lo <= y < hi else y == x
  {
    if lo <= x < hi {
      PermHas(s, t, lo, hi, x);
      y :| lo <= y < hi && s[y] == t[x];
    } else {
      PermSame(s, t, lo, hi, x);
      y := x;
    }
  }

  /** A cut of a segment between cuts is a cut. */
  lemma InnerCut<T>(cmp: (T, T) -> int, s: seq<T>, lo: int, hi: int, c: int)
    requires 0 <= lo <= c <= hi <= |s| && Cut(cmp, s, lo) && Cut(cmp, s, hi)
    requires forall x, y :: lo <= x < c <= y < hi ==> cmp(s[x], s[y]) <= 0
    ensures Cut(cmp, s, c)
  {
  }

  // ---------------------------------------------------------------- heapsort

  method Swap<T>(a: array<T>, x: nat, y: nat)
    requires x < a.Length && y < a.Length
    modifies a
    ensures Swapped(old(a[..]), a[..], x, y)
  {
    a[x], a[y] := a[y], a[x];
  }

  ghost predicate Swapped<T>(s: seq<T>, t: seq<T>, x: int, y: int) {
    0 <= x < |s| && 0 <= y < |s| && t == s[x := s[y]][y := s[x]]
  }

  predicate ChildOf(c: int, r: int) { c == 2 * r + 1 || c == 2 * r + 2 }

  /** Children are not greater than parents, from node `i` on. */
  ghost predicate Heap<T>(cmp: (T, T) -> int, s: seq<T>, base: nat, i: int, n: nat)
    requires base + n <= |s|
  {
    forall r, c :: 0 <= i <= r && ChildOf(c, r) && c < n ==> cmp(s[base + c], s[base + r]) <= 0
  }

  /** A heap but for node `h`, whose children are not greater than its parent. */
  ghost predicate Sifting<T>(cmp: (T, T) -> int, s: seq<T>, base: nat, i: int, h: int, n: nat)
    requires base + n <= |s|
  {
    && (forall r, c :: 0 <= i <= r && r != h && ChildOf(c, r) && c < n ==> cmp(s[base + c], s[base + r]) <= 0)
    && (forall r, c :: 0 <= i <= r && ChildOf(h, r) && ChildOf(c, h) && c < n ==> cmp(s[base + c], s[base + r]) <= 0)
  }

  /** The inner loop of heapsortx: node `i` sinks into the heap. */
  method SiftDown<T(!new)>(a: array<T>, base: nat, i: nat, n: nat, cmp: (T, T) -> int)
    requires TotalPreorder(cmp) && i < n && base + n <= a.Length && Heap(cmp, a[..], base, i + 1, n)
    modifies a
    ensures Perm(old(a[..]), a[..], base, base + n) && Heap(cmp, a[..], base, i, n)
  {
    hide Heap, Sifting, TotalPreorder, Perm, GreatestChild, Swapped;
    ghost var s := a[..];
    var r := i;
    PermSelf(s, base, base + n);
    StartSifting(cmp, s, base, i, n);
    while true
      invariant i <= r < n && Perm(s, a[..], base, base + n) && Sifting(cmp, a[..], base, i, r, n)
      decreases n - r
    {
      var c := r * 2 + 1;
      ghost var t := a[..];
      if n <= c {
        NoChild(cmp, t, base, i, r, n);
        break;
      }
      c := PickChild(a, base, r, n, cmp);
      if cmp(a[base + r], a[base + c]) > 0 {
        NowHeap(cmp, t, base, i, r, c, n);
        break;
      }
      Swap(a, base + r, base + c);
      Sunk(cmp, t, a[..], base, i, r, c, n);
      PermSwap(t, a[..], base + r, base + c, base, base + n);
      PermThen(s, t, a[..], base, base + n);
      r := c;
    }
  }

  method PickChild<T(!new)>(a: array<T>, base: nat, r: nat, n: nat, cmp: (T, T) -> int) returns (c: nat)
    requires TotalPreorder(cmp) && base + n <= a.Length && 2 * r + 1 < n
    ensures r < c < n && GreatestChild(cmp, a[..], base, r, c, n)
  {
    hide TotalPreorder, GreatestChild;
    c := r * 2 + 1;
    if c < n - 1 && cmp(a[base + c], a[base + c + 1]) <= 0 {
      c := c + 1;
    }
    IsGreatest(cmp, a[..], base, r, c, n);
  }

  lemma StartSifting<T>(cmp: (T, T) -> int, s: seq<T>, base: nat, i: nat, n: nat)
    requires base + n <= |s| && Heap(cmp, s, base, i + 1, n)
    ensures Sifting(cmp, s, base, i, i, n)
  {
  }

  lemma NoChild<T>(cmp: (T, T) -> int, s: seq<T>, base: nat, i: nat, r: nat, n: nat)
    requires base + n <= |s| && Sifting(cmp, s, base, i, r, n) && n <= 2 * r + 1
    ensures Heap(cmp, s, base, i, n)
  {
  }

  lemma IsGreatest<T(!new)>(cmp: (T, T) -> int, s: seq<T>, base: nat, r: nat, c: nat, n: nat)
    requires TotalPreorder(cmp) && base + n <= |s| && 2 * r + 1 < n
    requires c == if 2 * r + 2 < n && cmp(s[base + (2 * r + 1)], s[base + (2 * r + 2)]) <= 0 then 2 * r + 2 else 2 * r + 1
    ensures GreatestChild(cmp, s, base, r, c, n)
  {
    Flip(cmp, s[base + c], s[base + c]);
    if 2 * r + 2 < n { Flip(cmp, s[base + (2 * r + 1)], s[base + (2 * r + 2)]); }
  }

  /** `c` is the greatest child of `r`. */
  ghost predicate GreatestChild<T>(cmp: (T, T) -> int, s: seq<T>, base: nat, r: int, c: int, n: nat)
    requires base + n <= |s|
  {
    0 <= r && ChildOf(c, r) && c < n && forall d :: ChildOf(d, r) && d < n ==> cmp(s[base + d], s[base + c]) <= 0
  }

  lemma NowHeap<T(!new)>(cmp: (T, T) -> int, s: seq<T>, base: nat, i: nat, r: nat, c: nat, n: nat)
    requires TotalPreorder(cmp) && base + n <= |s| && i <= r && Sifting(cmp, s, base, i, r, n)
    requires GreatestChild(cmp, s, base, r, c, n) && cmp(s[base + r], s[base + c]) > 0
    ensures Heap(cmp, s, base, i, n)
  {
    forall d | ChildOf(d, r) && d < n ensures cmp(s[base + d], s[base + r]) <= 0 {
      Flip(cmp, s[base + r], s[base + c]);
      Chain(cmp, s[base + d], s[base + c], s[base + r]);
    }
  }

  /** After a swap with the greatest child, only that child may be out of order. */
  lemma Sunk<T(!new)>(cmp: (T, T) -> int, s: seq<T>, t: seq<T>, base: nat, i: nat, r: nat, c: nat, n: nat)
    requires TotalPreorder(cmp) && base + n <= |s| == |t| && i <= r < n && Sifting(cmp, s, base, i, r, n)
    requires GreatestChild(cmp, s, base, r, c, n) && cmp(s[base + r], s[base + c]) <= 0
    requires Swapped(s, t, base + r, base + c)
    ensures Sifting(cmp, t, base, i, c, n)
  {
    forall q, d | 0 <= i <= q && q != c && ChildOf(d, q) && d < n ensures cmp(t[base + d], t[base + q]) <= 0 {
      if q == r {
        if d != c { assert cmp(s[base + d], s[base + c]) <= 0; }
      } else if d == r {
        assert cmp(s[base + c], s[base + q]) <= 0;
      } else {
        assert t[base + d] == s[base + d] && t[base + q] == s[base + q];
      }
    }
    forall q, d | 0 <= i <= q && ChildOf(c, q) && ChildOf(d, c) && d < n ensures cmp(t[base + d], t[base + q]) <= 0 {
      assert q == r;
      assert t[base + d] == s[base + d] && t[base + q] == s[base + c];
    }
  }

  /** The root of a heap is its maximum. */
  lemma {:induction false} RootIsMax<T(!new)>(cmp: (T, T) -> int, s: seq<T>, base: nat, n: nat, k: nat)
    requires TotalPreorder(cmp) && base + n <= |s| && Heap(cmp, s, base, 0, n) && k < n
    ensures cmp(s[base + k], s[base]) <= 0
    decreases k
  {
    if k == 0 {
      Flip(cmp, s[base], s[base]);
    } else {
      var r := (k - 1) / 2;
      assert ChildOf(k, r);
      RootIsMax(cmp, s, base, n, r);
      Chain(cmp, s[base + k], s[base + r], s[base]);
    }
  }

  /** heapsortx */
  method HeapSortX<T(!new)>(a: array<T>, base: nat, nmemb: nat, cmp: (T, T) -> int)
    requires TotalPreorder(cmp) && base + nmemb <= a.Length
    modifies a
    ensures Perm(old(a[..]), a[..], base, base + nmemb) && Sorted(cmp, a[..], base, base + nmemb)
  {
    hide Heap, TotalPreorder, Perm, Swapped, SortedTail;
    ghost var s := a[..];
    PermSelf(s, base, base + nmemb);
    if nmemb <= 1 { return; }
    LeavesHeap(cmp, s, base, nmemb);
    var i := nmemb / 2;
    while i > 0
      invariant 0 <= i <= nmemb / 2 && Perm(s, a[..], base, base + nmemb) && Heap(cmp, a[..], base, i, nmemb)
    {
      i := i - 1;
      ghost var t := a[..];
      SiftDown(a, base, i, nmemb, cmp);
      PermThen(s, t, a[..], base, base + nmemb);
    }
    i := nmemb - 1;
    NoTail(cmp, a[..], base, nmemb);
    while i > 0
      invariant 0 <= i < nmemb && Perm(s, a[..], base, base + nmemb)
      invariant Heap(cmp, a[..], base, 0, i + 1) && SortedTail(cmp, a[..], base, i + 1, nmemb)
    {
      ghost var t := a[..];
      PopMax(a, base, i, nmemb, cmp);
      PermThen(s, t, a[..], base, base + nmemb);
      i := i - 1;
    }
    AllTail(cmp, a[..], base, nmemb);
  }

  /** One round of the second loop: the maximum goes to the end of the heap, and the heap is repaired. */
  method PopMax<T(!new)>(a: array<T>, base: nat, i: nat, nmemb: nat, cmp: (T, T) -> int)
    requires TotalPreorder(cmp) && 0 < i < nmemb && base + nmemb <= a.Length
    requires Heap(cmp, a[..], base, 0, i + 1) && SortedTail(cmp, a[..], base, i + 1, nmemb)
    modifies a
    ensures Perm(old(a[..]), a[..], base, base + nmemb)
    ensures Heap(cmp, a[..], base, 0, i) && SortedTail(cmp, a[..], base, i, nmemb)
  {
    hide Heap, TotalPreorder, Perm, Swapped, SortedTail;
    ghost var t := a[..];
    Swap(a, base, base + i);
    ghost var u := a[..];
    PermSwap(t, u, base, base + i, base, base + nmemb);
    MaxOut(cmp, t, u, base, i, nmemb);
    SiftDown(a, base, 0, i, cmp);
    ghost var v := a[..];
    TailStays(cmp, u, v, base, i, nmemb);
    PopPerm(t, u, v, base, i, nmemb);
  }

  lemma PopPerm<T>(t: seq<T>, u: seq<T>, v: seq<T>, base: nat, i: nat, n: nat)
    requires i < n && Perm(t, u, base, base + n) && Perm(u, v, base, base + i)
    ensures Perm(t, v, base, base + n)
  {
    PermWiden(u, v, base, base + i, base, base + n);
  }

  /** The nodes of the second half have no children. */
  lemma LeavesHeap<T>(cmp: (T, T) -> int, s: seq<T>, base: nat, n: nat)
    requires base + n <= |s|
    ensures Heap(cmp, s, base, n / 2, n)
  {
  }

  lemma AllTail<T>(cmp: (T, T) -> int, s: seq<T>, base: nat, n: nat)
    requires 1 <= n && base + n <= |s| && SortedTail(cmp, s, base, 1, n)
    ensures Sorted(cmp, s, base, base + n)
  {
  }

  /** From element `i` on the segment is sorted and not less than what comes before. */
  ghost predicate SortedTail<T>(cmp: (T, T) -> int, s: seq<T>, base: nat, i: int, n: nat)
    requires base + n <= |s|
  {
    forall x, y :: base <= x < y < base + n && base + i <= y ==> cmp(s[x], s[y]) <= 0
  }

  lemma NoTail<T>(cmp: (T, T) -> int, s: seq<T>, base: nat, n: nat)
    requires base + n <= |s|
    ensures SortedTail(cmp, s, base, n, n)
  {
  }

  /** The maximum of the heap goes in front of the sorted tail. */
  lemma MaxOut<T(!new)>(cmp: (T, T) -> int, s: seq<T>, t: seq<T>, base: nat, i: nat, n: nat)
    requires TotalPreorder(cmp) && 0 < i < n && base + n <= |s| == |t|
    requires Heap(cmp, s, base, 0, i + 1) && SortedTail(cmp, s, base, i + 1, n)
    requires Swapped(s, t, base, base + i)
    ensures SortedTail(cmp, t, base, i, n) && Heap(cmp, t, base, 1, i)
  {
    forall x, y | base <= x < y < base + n && base + i <= y ensures cmp(t[x], t[y]) <= 0 {
      var x' := if x == base then base + i else if x == base + i then base else x;
      if y == base + i {
        RootIsMax(cmp, s, base, i + 1, x' - base);
      } else {
        assert cmp(s[x'], s[y]) <= 0;
      }
    }
    forall r, c | 0 <= 1 <= r && ChildOf(c, r) && c < i ensures cmp(t[base + c], t[base + r]) <= 0 {
      assert t[base + c] == s[base + c] && t[base + r] == s[base + r];
    }
  }

  lemma TailStays<T(!new)>(cmp: (T, T) -> int, s: seq<T>, t: seq<T>, base: nat, i: nat, n: nat)
    requires i <= n && base + n <= |s| && Perm(s, t, base, base + i) && SortedTail(cmp, s, base, i, n)
    ensures SortedTail(cmp, t, base, i, n)
  {
    forall x, y | base <= x < y < base + n && base + i <= y ensures cmp(t[x], t[y]) <= 0 {
      var x' := CameFrom(s, t, base, base + i, x);
      PermSame(s, t, base, base + i, y);
      assert cmp(s[x'], s[y]) <= 0;
    }
  }

  // ---------------------------------------------------------------- partition

  /** `y` lies between two of the others. */
  ghost predicate Between<T>(cmp: (T, T) -> int, x: T, y: T, z: T) {
    (cmp(x, y) <= 0 && cmp(y, z) <= 0) || (cmp(z, y) <= 0 && cmp(y, x) <= 0)
  }

  /** med3: the index of the median of three elements. */
  method Med3<T(!new)>(a: array<T>, x: nat, y: nat, z: nat, cmp: (T, T) -> int) returns (m: nat)
    requires TotalPreorder(cmp) && x < a.Length && y < a.Length && z < a.Length
    ensures m == x || m == y || m == z
    ensures m == x ==> Between(cmp, a[y], a[x], a[z])
    ensures m == y ==> Between(cmp, a[x], a[y], a[z])
    ensures m == z ==> Between(cmp, a[x], a[z], a[y])
  {
    m :=
      if cmp(a[x], a[y]) < 0 then
        if cmp(a[y], a[z]) < 0 then y else if cmp(a[x], a[z]) < 0 then z else x
      else if cmp(a[y], a[z]) > 0 then y
      else if cmp(a[x], a[z]) < 0 then x else z;
  }

  /** Elements from `lo` to `hi` compare with the pivot as `sign` says. */
  ghost predicate Part<T>(cmp: (T, T) -> int, pivot: T, s: seq<T>, lo: int, hi: int, sign: int) {
    forall x :: 0 <= lo <= x < hi <= |s| ==>
      if sign == 0 then cmp(pivot, s[x]) == 0 else if sign < 0 then cmp(pivot, s[x]) > 0 else cmp(pivot, s[x]) < 0
  }

  /** The array while it is being partitioned: equal, smaller, not seen, greater, equal. */
  ghost predicate FourParts<T>(cmp: (T, T) -> int, pivot: T, s: seq<T>, p: int, plt: int, pi: int, pj: int, pgt: int, top: int) {
    && 0 <= p < plt <= pi && pj <= pgt <= top <= |s| && pi <= pgt && s[p] == pivot
    && Part(cmp, pivot, s, p, plt, 0) && Part(cmp, pivot, s, plt, pi, -1)
    && Part(cmp, pivot, s, pj, pgt, 1) && Part(cmp, pivot, s, pgt, top, 0)
  }

  /** The array after that: smaller, equal, greater. */
  ghost predicate ThreeParts<T>(cmp: (T, T) -> int, pivot: T, s: seq<T>, p: int, lt: int, gt: int, top: int) {
    && 0 <= p <= lt < gt <= top <= |s|
    && Part(cmp, pivot, s, p, lt, -1) && Part(cmp, pivot, s, lt, gt, 0) && Part(cmp, pivot, s, gt, top, 1)
  }

  /** The upward scan: elements equal to the pivot are parked at the low end. */
  method ScanUp<T(!new)>(a: array<T>, p: nat, plt0: nat, pi0: nat, pj: nat, ghost pgt: nat, ghost top: nat, cmp: (T, T) -> int)
    returns (plt: nat, pi: nat)
    requires p < top <= a.Length && pi0 <= pj && FourParts(cmp, a[p], a[..], p, plt0, pi0, pj, pgt, top)
    modifies a
    ensures Perm(old(a[..]), a[..], p, top) && pi0 <= pi <= pj && a[p] == old(a[p])
    ensures FourParts(cmp, a[p], a[..], p, plt, pi, pj, pgt, top)
    ensures pi < pj ==> cmp(a[p], a[pi]) < 0
  {
    hide Perm, Swapped;
    ghost var s, pivot := a[..], a[p];
    plt, pi := plt0, pi0;
    PermSelf(s, p, top);
    while pi < pj && cmp(a[p], a[pi]) >= 0
      invariant pi0 <= pi <= pj && Perm(s, a[..], p, top)
      invariant FourParts(cmp, pivot, a[..], p, plt, pi, pj, pgt, top)
      decreases pj - pi
    {
      if cmp(a[p], a[pi]) == 0 {
        ghost var t := a[..];
        Swap(a, plt, pi);
        PermSwap(t, a[..], plt, pi, p, top);
        PermThen(s, t, a[..], p, top);
        ParkLow(cmp, pivot, t, a[..], p, plt, pi, pj, pgt, top);
        plt := plt + 1;
      }
      pi := pi + 1;
    }
  }

  lemma ParkLow<T>(cmp: (T, T) -> int, pivot: T, s: seq<T>, t: seq<T>, p: nat, plt: nat, pi: nat, pj: nat, pgt: nat, top: nat)
    requires FourParts(cmp, pivot, s, p, plt, pi, pj, pgt, top) && pi < pj && cmp(pivot, s[pi]) == 0 && Swapped(s, t, plt, pi)
    ensures FourParts(cmp, pivot, t, p, plt + 1, pi + 1, pj, pgt, top)
  {
  }

  /** The downward scan: elements equal to the pivot are parked at the high end. */
  method ScanDown<T(!new)>(a: array<T>, p: nat, ghost plt: nat, pi: nat, pj0: nat, pgt0: nat, ghost top: nat, cmp: (T, T) -> int)
    returns (pj: int, pgt: nat)
    requires p < top <= a.Length && pi <= pj0 && FourParts(cmp, a[p], a[..], p, plt, pi, pj0, pgt0, top)
    requires pi < pj0 ==> cmp(a[p], a[pi]) < 0
    modifies a
    ensures Perm(old(a[..]), a[..], p, top) && pi - 1 <= pj < pj0 && pgt <= pgt0 && a[p] == old(a[p])
    ensures FourParts(cmp, a[p], a[..], p, plt, pi, pj + 1, pgt, top) && (pi < pj0 ==> a[pi] == old(a[pi]) && pi <= pj)
    ensures pi < pj ==> cmp(a[p], a[pj]) > 0
  {
    hide Perm, Swapped;
    ghost var s, pivot := a[..], a[p];
    pgt := pgt0;
    PermSelf(s, p, top);
    pj := pj0 - 1;
    while pi < pj && cmp(a[p], a[pj]) <= 0
      invariant pi - 1 <= pj < pj0 && pgt <= pgt0 && Perm(s, a[..], p, top)
      invariant FourParts(cmp, pivot, a[..], p, plt, pi, pj + 1, pgt, top) && (pi < pj0 ==> a[pi] == s[pi] && pi <= pj)
      decreases pj - pi
    {
      if cmp(a[p], a[pj]) == 0 {
        ghost var t := a[..];
        pgt := pgt - 1;
        Swap(a, pgt, pj);
        PermSwap(t, a[..], pgt, pj, p, top);
        PermThen(s, t, a[..], p, top);
        ParkHigh(cmp, pivot, t, a[..], p, plt, pi, pj, pgt, top);
      }
      pj := pj - 1;
    }
  }

  lemma ParkHigh<T>(cmp: (T, T) -> int, pivot: T, s: seq<T>, t: seq<T>, p: nat, plt: nat, pi: nat, pj: nat, pgt: nat, top: nat)
    requires FourParts(cmp, pivot, s, p, plt, pi, pj + 1, pgt + 1, top) && pi < pj && cmp(pivot, s[pj]) == 0 && Swapped(s, t, pgt, pj)
    ensures FourParts(cmp, pivot, t, p, plt, pi, pj, pgt, top) && t[pi] == s[pi]
  {
  }

  /** Both scans until they meet. */
  method Scan<T(!new)>(a: array<T>, p: nat, n: nat, cmp: (T, T) -> int) returns (plt: nat, pi: nat, pgt: nat)
    requires TotalPreorder(cmp) && 1 < n && p + n <= a.Length
    modifies a
    ensures Perm(old(a[..]), a[..], p, p + n) && a[p] == old(a[p])
    ensures FourParts(cmp, a[p], a[..], p, plt, pi, pi, pgt, p + n)
  {
    hide Perm, Swapped, TotalPreorder;
    ghost var s, pivot := a[..], a[p];
    var top := p + n;
    var pj := top;
    plt, pi, pgt := p + 1, p + 1, top;
    PermSelf(s, p, top);
    Flip(cmp, a[p], a[p]);
    while true
      invariant p < pi <= pj <= top && Perm(s, a[..], p, top) && FourParts(cmp, pivot, a[..], p, plt, pi, pj, pgt, top)
      decreases pj - pi
    {
      ghost var t := a[..];
      plt, pi := ScanUp(a, p, plt, pi, pj, pgt, top, cmp);
      ghost var u, pjUp := a[..], pj;
      var pj';
      pj', pgt := ScanDown(a, p, plt, pi, pj, pgt, top, cmp);
      PermThen(s, t, u, p, top);
      PermThen(s, u, a[..], p, top);
      if pi >= pj' {
        Met(cmp, pivot, a[..], p, plt, pi, pj', pjUp, pgt, top);
        break;
      }
      pj := pj';
      ghost var v := a[..];
      Swap(a, pi, pj);
      PermSwap(v, a[..], pi, pj, p, top);
      PermThen(s, v, a[..], p, top);
      Exchanged(cmp, pivot, v, a[..], p, plt, pi, pj, pgt, top);
      pi := pi + 1;
    }
  }

  lemma Met<T>(cmp: (T, T) -> int, pivot: T, s: seq<T>, p: nat, plt: nat, pi: nat, pj: int, pjUp: nat, pgt: nat, top: nat)
    requires FourParts(cmp, pivot, s, p, plt, pi, pj + 1, pgt, top) && pi - 1 <= pj <= pi
    requires pi < pjUp ==> pi <= pj && cmp(pivot, s[pi]) < 0
    requires pi <= pjUp && pj < pjUp
    ensures FourParts(cmp, pivot, s, p, plt, pi, pi, pgt, top)
  {
  }

  lemma Exchanged<T>(cmp: (T, T) -> int, pivot: T, s: seq<T>, t: seq<T>, p: nat, plt: nat, pi: nat, pj: nat, pgt: nat, top: nat)
    requires FourParts(cmp, pivot, s, p, plt, pi, pj + 1, pgt, top) && pi < pj && Swapped(s, t, pi, pj)
    requires cmp(pivot, s[pi]) < 0 && cmp(pivot, s[pj]) > 0
    ensures FourParts(cmp, pivot, t, p, plt, pi + 1, pj, pgt, top)
  {
  }

  ghost predicate BlockSwapped<T>(s: seq<T>, t: seq<T>, x: int, y: int, span: int) {
    && |s| == |t| && 0 <= x && x + span <= y && y + span <= |s|
    && (forall k :: x <= k < x + span ==> t[k] == s[k + (y - x)])
    && (forall k :: y <= k < y + span ==> t[k] == s[k - (y - x)])
    && (forall k :: 0 <= k < |s| && !(x <= k < x + span) && !(y <= k < y + span) ==> t[k] == s[k])
  }

  /** swap_block: two blocks of the same length change places. */
  method SwapBlock<T>(a: array<T>, x: nat, y: nat, span: nat)
    requires x + span <= y && y + span <= a.Length
    modifies a
    ensures Perm(old(a[..]), a[..], x, y + span) && BlockSwapped(old(a[..]), a[..], x, y, span)
  {
    hide Perm, Swapped, BlockSwapped;
    ghost var s := a[..];
    PermSelf(s, x, y + span);
    NoBlock(s, x, y, span);
    for k := 0 to span
      invariant Perm(s, a[..], x, y + span) && BlockSwapped(s, a[..], x, y, k)
    {
      ghost var t := a[..];
      Swap(a, x + k, y + k);
      BlockStep(s, t, a[..], x, y, span, k);
    }
  }

  lemma NoBlock<T>(s: seq<T>, x: nat, y: nat, span: nat)
    requires x + span <= y && y + span <= |s|
    ensures BlockSwapped(s, s, x, y, 0)
  {
  }

  lemma BlockStep<T>(s: seq<T>, t: seq<T>, u: seq<T>, x: nat, y: nat, span: nat, k: nat)
    requires k < span && x + span <= y && y + span <= |s|
    requires Perm(s, t, x, y + span) && BlockSwapped(s, t, x, y, k) && Swapped(t, u, x + k, y + k)
    ensures Perm(s, u, x, y + span) && BlockSwapped(s, u, x, y, k + 1)
  {
    hide Perm, BlockSwapped, Swapped;
    BlockPerm(s, t, u, x + k, y + k, x, y + span);
    BlockMoves(s, t, u, x, y, k);
  }

  lemma BlockPerm<T>(s: seq<T>, t: seq<T>, u: seq<T>, x: int, y: int, lo: int, hi: int)
    requires 0 <= lo <= x < hi <= |s| && lo <= y < hi && Perm(s, t, lo, hi) && Swapped(t, u, x, y)
    ensures Perm(s, u, lo, hi)
  {
    PermSwap(t, u, x, y, lo, hi);
  }

  lemma BlockMoves<T>(s: seq<T>, t: seq<T>, u: seq<T>, x: nat, y: nat, k: nat)
    requires x + k < y && y + k < |s| && BlockSwapped(s, t, x, y, k) && Swapped(t, u, x + k, y + k)
    ensures BlockSwapped(s, u, x, y, k + 1)
  {
  }

  /** The low blocks change places: the smaller elements come first. */
  lemma LowBlocks<T>(cmp: (T, T) -> int, pivot: T, s: seq<T>, t: seq<T>, p: nat, plt: nat, pi: nat, pgt: nat, top: nat, span: nat)
    requires FourParts(cmp, pivot, s, p, plt, pi, pi, pgt, top)
    requires span == if plt - p > pi - plt then pi - plt else plt - p
    requires BlockSwapped(s, t, p, pi - span, span)
    ensures Part(cmp, pivot, t, p, p + (pi - plt), -1) && Part(cmp, pivot, t, p + (pi - plt), pi, 0)
    ensures Part(cmp, pivot, t, pi, pgt, 1) && Part(cmp, pivot, t, pgt, top, 0)
  {
    var mid := p + (pi - plt);
    forall x | 0 <= p <= x < mid <= |t| ensures cmp(pivot, t[x]) > 0 {
      if x < p + span { assert t[x] == s[x + (pi - span - p)]; }
    }
    forall x | 0 <= mid <= x < pi <= |t| ensures cmp(pivot, t[x]) == 0 {
      if pi - span <= x { assert t[x] == s[x - (pi - span - p)]; }
    }
  }

  /** The high blocks change places: the greater elements come last. */
  lemma HighBlocks<T>(cmp: (T, T) -> int, pivot: T, s: seq<T>, t: seq<T>, p: nat, mid: nat, pi: nat, pgt: nat, top: nat, span: nat)
    requires p <= mid < pi <= pgt <= top <= |s|
    requires Part(cmp, pivot, s, p, mid, -1) && Part(cmp, pivot, s, mid, pi, 0)
    requires Part(cmp, pivot, s, pi, pgt, 1) && Part(cmp, pivot, s, pgt, top, 0)
    requires span == if top - pgt > pgt - pi then pgt - pi else top - pgt
    requires BlockSwapped(s, t, pi, top - span, span)
    ensures ThreeParts(cmp, pivot, t, p, mid, top - (pgt - pi), top)
  {
    var gt := top - (pgt - pi);
    forall x | 0 <= gt <= x < top <= |t| ensures cmp(pivot, t[x]) < 0 {
      if top - span <= x { assert t[x] == s[x - (top - span - pi)]; }
    }
    forall x | 0 <= mid <= x < gt <= |t| ensures cmp(pivot, t[x]) == 0 {
      if x < pi {
      } else if x < pi + span {
        assert t[x] == s[x + (top - span - pi)];
      }
    }
  }

  /** One round of rqsort: the segment is split into smaller, equal and greater elements. */
  method Partition<T(!new)>(a: array<T>, p: nat, n: nat, cmp: (T, T) -> int) returns (lt: nat, gt: nat, ghost pivot: T)
    requires TotalPreorder(cmp) && 6 < n && p + n <= a.Length
    modifies a
    ensures Perm(old(a[..]), a[..], p, p + n)
    ensures lt < gt <= n && ThreeParts(cmp, pivot, a[..], p, p + lt, p + gt, p + n)
  {
    hide Perm, Swapped, TotalPreorder, Part, ThreeParts, BlockSwapped;
    ghost var s := a[..];
    // the pivot: the middle one of three elements
    var m4 := n / 4;
    var m := Med3(a, p + m4, p + 2 * m4, p + 3 * m4, cmp);
    // it takes part in the partition as the first element
    Swap(a, p, m);
    ghost var t := a[..];
    pivot := a[p];
    var plt, pi, pgt := Scan(a, p, n, cmp);
    ghost var u := a[..];
    lt, gt := GatherEqual(a, p, n, plt, pi, pgt, pivot, cmp);
    PartitionPerm(s, t, u, a[..], p, m, p + n);
  }

  lemma PartitionPerm<T>(s: seq<T>, t: seq<T>, u: seq<T>, v: seq<T>, p: nat, m: nat, top: nat)
    requires p <= m < top <= |s| && Swapped(s, t, p, m) && Perm(t, u, p, top) && Perm(u, v, p, top)
    ensures Perm(s, v, p, top)
  {
    PermSwap(s, t, p, m, p, top);
  }

  /** Move the elements equal to the pivot from both ends to the middle. */
  method GatherEqual<T(!new)>(a: array<T>, p: nat, n: nat, plt: nat, pi: nat, pgt: nat, ghost pivot: T, ghost cmp: (T, T) -> int)
    returns (lt: nat, gt: nat)
    requires p + n <= a.Length && FourParts(cmp, pivot, a[..], p, plt, pi, pi, pgt, p + n)
    modifies a
    ensures Perm(old(a[..]), a[..], p, p + n)
    ensures lt < gt <= n && ThreeParts(cmp, pivot, a[..], p, p + lt, p + gt, p + n)
  {
    hide Perm, Part, ThreeParts, BlockSwapped;
    ghost var u := a[..];
    var top := p + n;
    var span, span2 := plt - p, pi - plt;
    lt := pi - plt;
    if span > span2 {
      span := span2;
    }
    SwapBlock(a, p, pi - span, span);
    ghost var v := a[..];
    LowBlocks(cmp, pivot, u, v, p, plt, pi, pgt, top, span);
    span, span2 := top - pgt, pgt - pi;
    gt := n - (pgt - pi);
    if span > span2 {
      span := span2;
    }
    SwapBlock(a, pi, top - span, span);
    HighBlocks(cmp, pivot, v, a[..], p, p + lt, pi, pgt, top, span);
    TwoPerms(u, v, a[..], p, pi, top);
  }

  lemma TwoPerms<T>(u: seq<T>, v: seq<T>, w: seq<T>, p: nat, pi: nat, top: nat)
    requires p <= pi <= top <= |u| && Perm(u, v, p, pi) && Perm(v, w, pi, top)
    ensures Perm(u, w, p, top)
  {
    PermWiden(u, v, p, pi, p, top);
    PermWiden(v, w, pi, top, p, top);
  }

  // ---------------------------------------------------------------- the stack of segments

  datatype Segment = Segment(base: nat, count: nat, depth: nat)

  const STACK_SIZE := 50

  /** `c` is strictly inside a pending segment. */
  ghost predicate Inside(segs: seq<Segment>, c: int) {
    exists k :: 0 <= k < |segs| && segs[k].base < c < segs[k].base + segs[k].count
  }

  /** Every place that is not inside a pending segment is a cut: only the segments are left to sort. */
  ghost predicate Pending<T>(cmp: (T, T) -> int, s: seq<T>, segs: seq<Segment>) {
    && (forall k :: 0 <= k < |segs| ==> InBounds(s, segs[k]) && Ends(cmp, s, segs[k]))
    && (forall c :: 0 <= c <= |s| && !Inside(segs, c) ==> Cut(cmp, s, c))
  }

  ghost predicate InBounds<T>(s: seq<T>, g: Segment) { g.base + g.count <= |s| }

  /** The ends of a segment are cuts, so that it can be sorted on its own. */
  ghost predicate Ends<T>(cmp: (T, T) -> int, s: seq<T>, g: Segment) {
    Cut(cmp, s, g.base) && Cut(cmp, s, g.base + g.count)
  }

  /** Pending segments do not overlap. */
  ghost predicate Apart(g: Segment, h: Segment) {
    g.base + g.count <= h.base || h.base + h.count <= g.base
  }

  ghost predicate AllApart(segs: seq<Segment>) {
    forall j, k :: 0 <= j < k < |segs| ==> Apart(segs[j], segs[k])
  }

  /** Depths grow from the bottom of the stack to its top. */
  ghost predicate Deeper(segs: seq<Segment>) {
    forall j, k :: 0 <= j < k < |segs| ==> segs[j].depth < segs[k].depth
  }

  /** Strictly growing depths bound the number of segments. */
  lemma {:induction false} DepthsBound(segs: seq<Segment>)
    requires Deeper(segs) && segs != []
    ensures segs[0].depth + |segs| - 1 <= segs[|segs| - 1].depth
  {
    if |segs| > 1 {
      var rest := segs[..|segs| - 1];
      DepthsBound(rest);
      assert segs[|segs| - 2].depth < segs[|segs| - 1].depth;
    }
  }

  /** The work that is left. */
  function Weight(segs: seq<Segment>): (w: nat) {
    if segs == [] then 0 else Weight(segs[..|segs| - 1]) + segs[|segs| - 1].count + 1
  }

  lemma WeightPush(segs: seq<Segment>, g: Segment)
    ensures Weight(segs + [g]) == Weight(segs) + g.count + 1
  {
    assert (segs + [g])[..|segs|] == segs;
  }

  lemma InsideMore(segs: seq<Segment>, g: Segment, c: int)
    ensures Inside(segs + [g], c) <==> Inside(segs, c) || g.base < c < g.base + g.count
  {
    var all := segs + [g];
    if k :| 0 <= k < |segs| && segs[k].base < c < segs[k].base + segs[k].count { assert all[k] == segs[k]; }
    if g.base < c < g.base + g.count { assert all[|segs|] == g; }
  }

  /** The other pending segments stay as they were while one segment is permuted. */
  lemma OthersStay<T>(cmp: (T, T) -> int, s: seq<T>, t: seq<T>, segs: seq<Segment>, g: Segment, k: nat)
    requires Pending(cmp, s, segs + [g]) && AllApart(segs + [g]) && Perm(s, t, g.base, g.base + g.count) && k < |segs|
    ensures InBounds(t, segs[k]) && Ends(cmp, t, segs[k])
  {
    hide Perm, Cut;
    var all := segs + [g];
    assert all[k] == segs[k] && all[|segs|] == g;
    assert InBounds(s, all[k]) && Ends(cmp, s, all[k]) && Apart(all[k], all[|segs|]);
    SameLength(s, t, g.base, g.base + g.count);
    PermCut(cmp, s, t, g.base, g.base + g.count, segs[k].base);
    PermCut(cmp, s, t, g.base, g.base + g.count, segs[k].base + segs[k].count);
  }

  lemma SameLength<T>(s: seq<T>, t: seq<T>, lo: int, hi: int)
    requires Perm(s, t, lo, hi)
    ensures |s| == |t| && 0 <= lo <= hi <= |s|
  {
  }

  /** The places outside a permuted segment, and its ends. */
  lemma OutsideStays<T>(cmp: (T, T) -> int, s: seq<T>, t: seq<T>, segs: seq<Segment>, g: Segment, c: nat)
    requires Pending(cmp, s, segs + [g]) && Perm(s, t, g.base, g.base + g.count)
    requires c == g.base || c == g.base + g.count || (c <= |s| && !Inside(segs, c) && (c <= g.base || g.base + g.count <= c))
    ensures Cut(cmp, t, c)
  {
    hide Perm, Cut, Inside;
    var all := segs + [g];
    assert all[|segs|] == g;
    assert Ends(cmp, s, all[|segs|]);
    InsideMore(segs, g, c);
    PermCut(cmp, s, t, g.base, g.base + g.count, c);
  }

  /** A segment that is sorted is no longer pending. */
  lemma SegmentDone<T>(cmp: (T, T) -> int, s: seq<T>, t: seq<T>, segs: seq<Segment>, g: Segment)
    requires Pending(cmp, s, segs + [g]) && AllApart(segs + [g]) && Perm(s, t, g.base, g.base + g.count)
    requires Sorted(cmp, t, g.base, g.base + g.count)
    ensures Pending(cmp, t, segs)
  {
    hide Perm, Ends, InBounds, Inside, AllApart, Cut;
    SameLength(s, t, g.base, g.base + g.count);
    forall k | 0 <= k < |segs| ensures InBounds(t, segs[k]) && Ends(cmp, t, segs[k]) {
      OthersStay(cmp, s, t, segs, g, k);
    }
    forall c | 0 <= c <= |t| && !Inside(segs, c) ensures Cut(cmp, t, c) {
      if c <= g.base || g.base + g.count <= c {
        OutsideStays(cmp, s, t, segs, g, c);
      } else {
        OutsideStays(cmp, s, t, segs, g, g.base);
        OutsideStays(cmp, s, t, segs, g, g.base + g.count);
        InnerCut(cmp, t, g.base, g.base + g.count, c);
      }
    }
  }

  /** A place between the smaller and the greater elements is a cut. */
  lemma MiddleCut<T(!new)>(cmp: (T, T) -> int, pivot: T, t: seq<T>, lo: nat, lt: nat, gt: nat, hi: nat, c: nat)
    requires TotalPreorder(cmp) && ThreeParts(cmp, pivot, t, lo, lt, gt, hi) && Cut(cmp, t, lo) && Cut(cmp, t, hi) && lt <= c <= gt
    ensures Cut(cmp, t, c)
  {
    forall x, y | lo <= x < c <= y < hi ensures cmp(t[x], t[y]) <= 0 {
      Flip(cmp, t[x], pivot);
      Flip(cmp, pivot, t[y]);
      assert cmp(pivot, t[x]) >= 0;
      assert cmp(pivot, t[y]) <= 0;
      Chain(cmp, t[x], pivot, t[y]);
    }
    InnerCut(cmp, t, lo, hi, c);
  }

  function LowPart(g: Segment, lt: nat, depth: nat): Segment { Segment(g.base, lt, depth) }

  function HighPart(g: Segment, gt: nat, depth: nat): Segment
    requires gt <= g.count
  {
    Segment(g.base + gt, g.count - gt, depth)
  }

  /** After a partition the smaller and the greater elements are pending instead of the segment. */
  lemma SegmentSplit<T(!new)>(cmp: (T, T) -> int, pivot: T, s: seq<T>, t: seq<T>, segs: seq<Segment>, g: Segment, lt: nat, gt: nat,
                        d: nat, h1: Segment, h2: Segment)
    requires TotalPreorder(cmp) && Pending(cmp, s, segs + [g]) && AllApart(segs + [g]) && lt < gt <= g.count
    requires Perm(s, t, g.base, g.base + g.count) && ThreeParts(cmp, pivot, t, g.base, g.base + lt, g.base + gt, g.base + g.count)
    requires var low, high := LowPart(g, lt, d), HighPart(g, gt, d); (h1 == low && h2 == high) || (h1 == high && h2 == low)
    ensures Pending(cmp, t, segs + [h1] + [h2]) && AllApart(segs + [h1] + [h2])
  {
    hide Perm, Ends, InBounds, Inside, AllApart, Cut, ThreeParts, TotalPreorder;
    var all := segs + [h1] + [h2];
    SameLength(s, t, g.base, g.base + g.count);
    OutsideStays(cmp, s, t, segs, g, g.base);
    OutsideStays(cmp, s, t, segs, g, g.base + g.count);
    forall k | 0 <= k < |all| ensures InBounds(t, all[k]) && Ends(cmp, t, all[k]) {
      if k < |segs| {
        assert all[k] == segs[k];
        OthersStay(cmp, s, t, segs, g, k);
      } else {
        MiddleCut(cmp, pivot, t, g.base, g.base + lt, g.base + gt, g.base + g.count, g.base + lt);
        MiddleCut(cmp, pivot, t, g.base, g.base + lt, g.base + gt, g.base + g.count, g.base + gt);
        PartsFit(cmp, t, g, lt, gt, d, all[k]);
      }
    }
    forall c | 0 <= c <= |t| && !Inside(all, c) ensures Cut(cmp, t, c) {
      InsideMore(segs + [h1], h2, c);
      InsideMore(segs, h1, c);
      if c <= g.base || g.base + g.count <= c {
        OutsideStays(cmp, s, t, segs, g, c);
      } else {
        MiddleCut(cmp, pivot, t, g.base, g.base + lt, g.base + gt, g.base + g.count, c);
      }
    }
    StillApart(segs, g, lt, gt, d, h1, h2);
  }

  lemma PartsFit<T>(cmp: (T, T) -> int, t: seq<T>, g: Segment, lt: nat, gt: nat, d: nat, h: Segment)
    requires g.base + g.count <= |t| && lt < gt <= g.count && (h == LowPart(g, lt, d) || h == HighPart(g, gt, d))
    requires Cut(cmp, t, g.base) && Cut(cmp, t, g.base + lt) && Cut(cmp, t, g.base + gt) && Cut(cmp, t, g.base + g.count)
    ensures InBounds(t, h) && Ends(cmp, t, h)
  {
    hide Cut;
  }

  lemma StillApart(segs: seq<Segment>, g: Segment, lt: nat, gt: nat, d: nat, h1: Segment, h2: Segment)
    requires AllApart(segs + [g]) && lt < gt <= g.count
    requires var low, high := LowPart(g, lt, d), HighPart(g, gt, d); (h1 == low && h2 == high) || (h1 == high && h2 == low)
    ensures AllApart(segs + [h1] + [h2])
  {
    var all, old' := segs + [h1] + [h2], segs + [g];
    forall j, k | 0 <= j < k < |all| ensures Apart(all[j], all[k]) {
      if j < |segs| {
        assert all[j] == old'[j];
        assert Apart(old'[j], old'[if k < |segs| then k else |segs|]);
      }
    }
  }

  // ---------------------------------------------------------------- rqsort

  /** The insertion sort for small segments. */
  method InsertionSort<T(!new)>(a: array<T>, ptr: nat, nmemb: nat, cmp: (T, T) -> int)
    requires TotalPreorder(cmp) && ptr + nmemb <= a.Length
    modifies a
    ensures Perm(old(a[..]), a[..], ptr, ptr + nmemb) && Sorted(cmp, a[..], ptr, ptr + nmemb)
  {
    hide Perm, TotalPreorder;
    ghost var s := a[..];
    PermSelf(s, ptr, ptr + nmemb);
    var pi := ptr + 1;
    while pi < ptr + nmemb
      invariant ptr < pi && (pi <= ptr + nmemb || nmemb == 0) && Perm(s, a[..], ptr, ptr + nmemb)
      invariant nmemb != 0 ==> Sorted(cmp, a[..], ptr, pi)
    {
      ghost var t := a[..];
      Insert(a, ptr, pi, ptr + nmemb, cmp);
      PermThen(s, t, a[..], ptr, ptr + nmemb);
      pi := pi + 1;
    }
  }

  /** The inner loop: the element at `pi` sinks to its place. */
  method Insert<T(!new)>(a: array<T>, ptr: nat, pi: nat, ghost top: nat, cmp: (T, T) -> int)
    requires TotalPreorder(cmp) && ptr <= pi < top <= a.Length && Sorted(cmp, a[..], ptr, pi)
    modifies a
    ensures Perm(old(a[..]), a[..], ptr, top) && Sorted(cmp, a[..], ptr, pi + 1)
  {
    hide Perm, Swapped, TotalPreorder, Inserting, Sorted;
    ghost var s := a[..];
    PermSelf(s, ptr, top);
    StartInsert(cmp, s, ptr, pi);
    var pj := pi;
    while pj > ptr && cmp(a[pj - 1], a[pj]) > 0
      invariant ptr <= pj <= pi && Perm(s, a[..], ptr, top) && Inserting(cmp, a[..], ptr, pj, pi)
    {
      ghost var t := a[..];
      Swap(a, pj, pj - 1);
      InsertStep(cmp, s, t, a[..], ptr, pj, pi, top);
      pj := pj - 1;
    }
    Inserted(cmp, a[..], ptr, pj, pi);
  }

  lemma StartInsert<T>(cmp: (T, T) -> int, s: seq<T>, ptr: nat, pi: nat)
    requires ptr <= pi < |s| && Sorted(cmp, s, ptr, pi)
    ensures Inserting(cmp, s, ptr, pi, pi)
  {
  }

  /** Sorted up to `pi`, but for the element at `pj`, which may belong further down. */
  ghost predicate Inserting<T>(cmp: (T, T) -> int, s: seq<T>, ptr: nat, pj: nat, pi: nat) {
    ptr <= pj <= pi < |s| &&
    forall x, y :: ptr <= x < y <= pi && (x == pj || y != pj) ==> cmp(s[x], s[y]) <= 0
  }

  lemma InsertStep<T(!new)>(cmp: (T, T) -> int, s: seq<T>, t: seq<T>, u: seq<T>, ptr: nat, pj: nat, pi: nat, top: nat)
    requires TotalPreorder(cmp) && ptr < pj && Inserting(cmp, t, ptr, pj, pi) && Swapped(t, u, pj, pj - 1) && cmp(t[pj - 1], t[pj]) > 0
    requires pi < top <= |s| && Perm(s, t, ptr, top)
    ensures Inserting(cmp, u, ptr, pj - 1, pi) && Perm(s, u, ptr, top)
  {
    Flip(cmp, t[pj], t[pj - 1]);
    assert Perm(s, u, ptr, top) by {
      hide Inserting;
      BlockPerm(s, t, u, pj, pj - 1, ptr, top);
    }
  }

  lemma Inserted<T(!new)>(cmp: (T, T) -> int, s: seq<T>, ptr: nat, pj: nat, pi: nat)
    requires TotalPreorder(cmp) && Inserting(cmp, s, ptr, pj, pi) && (pj > ptr ==> cmp(s[pj - 1], s[pj]) <= 0)
    ensures Sorted(cmp, s, ptr, pi + 1)
  {
    forall x | ptr <= x < pj ensures cmp(s[x], s[pj]) <= 0 {
      if x < pj - 1 { Chain(cmp, s[x], s[pj - 1], s[pj]); }
    }
  }

  /** What the stack looks like between two rounds. */
  ghost predicate StackOk(segs: seq<Segment>) {
    && Deeper(segs) && AllApart(segs)
    && forall k :: 0 <= k < |segs| ==> segs[k].depth <= STACK_SIZE && (1 <= segs[k].depth || |segs| == 1)
  }

  /** What it looks like while segment `cur` is being split. */
  ghost predicate Working(segs: seq<Segment>, cur: Segment) {
    && Deeper(segs) && AllApart(segs + [cur]) && cur.depth <= STACK_SIZE
    && forall k :: 0 <= k < |segs| ==> 1 <= segs[k].depth <= cur.depth
  }

  lemma StartWorking(rest: seq<Segment>, g: Segment)
    requires StackOk(rest + [g])
    ensures Working(rest, g)
  {
    var all := rest + [g];
    assert all[|rest|] == g;
    forall k | 0 <= k < |rest| ensures 1 <= rest[k].depth <= g.depth { assert all[k] == rest[k]; }
    forall j, k | 0 <= j < k < |rest| ensures rest[j].depth < rest[k].depth { assert all[j] == rest[j] && all[k] == rest[k]; }
  }

  lemma StopWorking(segs: seq<Segment>, cur: Segment)
    requires Working(segs, cur)
    ensures StackOk(segs)
  {
    var all := segs + [cur];
    forall j, k | 0 <= j < k < |segs| ensures Apart(segs[j], segs[k]) { assert all[j] == segs[j] && all[k] == segs[k]; }
  }

  /** There is room on the stack for one more segment: the depths on it are distinct. */
  lemma RoomToPush(segs: seq<Segment>, cur: Segment)
    requires Working(segs, cur) && cur.depth < STACK_SIZE
    ensures |segs| < STACK_SIZE
  {
    if segs != [] { DepthsBound(segs); }
  }

  lemma DepthLimit(segs: seq<Segment>, cur: Segment)
    requires Working(segs, cur)
    ensures cur.depth <= STACK_SIZE
  {
  }

  lemma FitsArray<T>(cmp: (T, T) -> int, s: seq<T>, segs: seq<Segment>, cur: Segment)
    requires Pending(cmp, s, segs + [cur])
    ensures cur.base + cur.count <= |s|
  {
    assert (segs + [cur])[|segs|] == cur;
    assert InBounds(s, (segs + [cur])[|segs|]);
  }

  lemma WidenAll<T>(s: seq<T>, t: seq<T>, u: seq<T>, cur: Segment)
    requires Perm(s, t, 0, |s|) && Perm(t, u, cur.base, cur.base + cur.count)
    ensures Perm(s, u, 0, |s|)
  {
    PermWiden(t, u, cur.base, cur.base + cur.count, 0, |t|);
  }

  /** The smaller and the greater elements: one part goes on the stack, the other is split further. */
  lemma Pushed<T(!new)>(cmp: (T, T) -> int, pivot: T, s: seq<T>, t: seq<T>, segs: seq<Segment>, cur: Segment, lt: nat, gt: nat,
                  h1: Segment, h2: Segment)
    requires TotalPreorder(cmp) && Pending(cmp, s, segs + [cur]) && Working(segs, cur) && lt < gt <= cur.count && cur.depth < STACK_SIZE
    requires Perm(s, t, cur.base, cur.base + cur.count)
    requires ThreeParts(cmp, pivot, t, cur.base, cur.base + lt, cur.base + gt, cur.base + cur.count)
    requires var low, high := LowPart(cur, lt, cur.depth + 1), HighPart(cur, gt, cur.depth + 1);
      (h1 == low && h2 == high) || (h1 == high && h2 == low)
    ensures Pending(cmp, t, segs + [h1] + [h2]) && Working(segs + [h1], h2)
  {
    hide Pending, Perm, ThreeParts, TotalPreorder, AllApart;
    SegmentSplit(cmp, pivot, s, t, segs, cur, lt, gt, cur.depth + 1, h1, h2);
  }

  lemma Finished<T>(cmp: (T, T) -> int, s: seq<T>, t: seq<T>, segs: seq<Segment>, cur: Segment)
    requires Pending(cmp, s, segs + [cur]) && Working(segs, cur) && Perm(s, t, cur.base, cur.base + cur.count)
    requires Sorted(cmp, t, cur.base, cur.base + cur.count)
    ensures Pending(cmp, t, segs) && StackOk(segs)
  {
    hide Pending, Perm, Sorted;
    SegmentDone(cmp, s, t, segs, cur);
    StopWorking(segs, cur);
  }

  /** A segment that was sorted at once is left with no elements. */
  lemma Emptied<T>(cmp: (T, T) -> int, s: seq<T>, t: seq<T>, segs: seq<Segment>, cur: Segment)
    requires Pending(cmp, s, segs + [cur]) && Working(segs, cur) && Perm(s, t, cur.base, cur.base + cur.count)
    requires Sorted(cmp, t, cur.base, cur.base + cur.count)
    ensures Pending(cmp, t, segs + [cur.(count := 0)]) && Working(segs, cur.(count := 0))
  {
    hide Perm, Sorted, Cut, Inside;
    var e := cur.(count := 0);
    var all, old' := segs + [e], segs + [cur];
    SegmentDone(cmp, s, t, segs, cur);
    FitsArray(cmp, s, segs, cur);
    SameLength(s, t, cur.base, cur.base + cur.count);
    OutsideStays(cmp, s, t, segs, cur, cur.base);
    forall k | 0 <= k < |all| ensures InBounds(t, all[k]) && Ends(cmp, t, all[k]) {
      if k < |segs| { assert all[k] == segs[k]; }
    }
    forall c | 0 <= c <= |t| && !Inside(all, c) ensures Cut(cmp, t, c) { InsideMore(segs, e, c); }
    forall j, k | 0 <= j < k < |all| ensures Apart(all[j], all[k]) {
      assert all[j] == old'[j] && Apart(old'[j], old'[k]);
    }
  }

  /**
   rqsort: the array ends up sorted, with the same elements.  The stack array of fifty segments is
   never overrun.
   */
  method Rqsort<T(!new)>(a: array<T>, cmp: (T, T) -> int)
    requires TotalPreorder(cmp)
    modifies a
    ensures Sorted(cmp, a[..], 0, a.Length) && multiset(a[..]) == multiset(old(a[..]))
  {
    hide Pending, StackOk, TotalPreorder, Perm, Weight;
    ghost var s := a[..];
    PermSelf(s, 0, a.Length);
    if a.Length < 2 { return; }
    var stack := new Segment[STACK_SIZE];
    stack[0] := Segment(0, a.Length, 0);
    var sp := 1;
    ghost var segs := [stack[0]];
    FirstSegment(cmp, a[..], stack[0]);
    while sp > 0
      invariant 0 <= sp <= STACK_SIZE && segs == stack[..sp] && StackOk(segs)
      invariant Perm(s, a[..], 0, a.Length) && Pending(cmp, a[..], segs)
      decreases Weight(segs)
    {
      sp := sp - 1;
      var g := stack[sp];
      ghost var rest := segs[..sp];
      assert segs == rest + [g];
      WeightPush(rest, g);
      ghost var t := a[..];
      sp, segs := SortSegment(a, stack, sp, g, rest, cmp);
      PermThen(s, t, a[..], 0, a.Length);
    }
    assert segs == [];
    NothingPending(cmp, a[..]);
    PermMultiset(s, a[..]);
  }

  lemma PermMultiset<T>(s: seq<T>, t: seq<T>)
    requires Perm(s, t, 0, |s|)
    ensures multiset(s) == multiset(t)
  {
    assert s[0..|s|] == s && t[0..|s|] == t;
  }

  lemma FirstSegment<T>(cmp: (T, T) -> int, s: seq<T>, g: Segment)
    requires g == Segment(0, |s|, 0)
    ensures Pending(cmp, s, [g]) && StackOk([g])
  {
    forall c | 0 <= c <= |s| && !Inside([g], c) ensures Cut(cmp, s, c) {
      assert [g][0].count == |s|;
    }
  }

  lemma NothingPending<T>(cmp: (T, T) -> int, s: seq<T>)
    requires Pending(cmp, s, [])
    ensures Sorted(cmp, s, 0, |s|)
  {
    CutsSort(cmp, s);
  }

  /** The segment taken from the stack is split until what is left of it is small, and that is sorted. */
  method SortSegment<T(!new)>(a: array<T>, stack: array<Segment>, sp0: nat, g: Segment, ghost rest: seq<Segment>, cmp: (T, T) -> int)
    returns (sp: nat, ghost segs: seq<Segment>)
    requires TotalPreorder(cmp) && stack.Length == STACK_SIZE && sp0 < STACK_SIZE && rest == stack[..sp0]
    requires a as object != stack as object
    requires StackOk(rest + [g]) && Pending(cmp, a[..], rest + [g])
    modifies a, stack
    ensures Perm(old(a[..]), a[..], 0, a.Length)
    ensures sp <= STACK_SIZE && segs == stack[..sp] && StackOk(segs) && Pending(cmp, a[..], segs)
    ensures Weight(segs) < Weight(rest) + g.count + 1
  {
    hide Pending, StackOk, Working, TotalPreorder, Perm, Weight, ThreeParts, Sorted;
    ghost var s := a[..];
    PermSelf(s, 0, a.Length);
    StartWorking(rest, g);
    sp, segs := sp0, rest;
    var ptr: nat, nmemb: nat, depth: nat := g.base, g.count, g.depth;
    while nmemb > 6
      invariant sp <= STACK_SIZE && segs == stack[..sp] && Perm(s, a[..], 0, a.Length)
      invariant Working(segs, Segment(ptr, nmemb, depth)) && Pending(cmp, a[..], segs + [Segment(ptr, nmemb, depth)])
      invariant Weight(segs) + nmemb <= Weight(rest) + g.count
      decreases nmemb
    {
      ghost var t, cur := a[..], Segment(ptr, nmemb, depth);
      FitsArray(cmp, t, segs, cur);
      DepthLimit(segs, cur);
      depth := depth + 1;
      if depth > STACK_SIZE {
        // too many unbalanced splits: give up quicksort for this segment
        HeapSortX(a, ptr, nmemb, cmp);
        depth := depth - 1;
        Emptied(cmp, t, a[..], segs, cur);
        WidenAll(s, t, a[..], cur);
        nmemb := 0;
        break;
      }
      var lt, gt;
      ghost var pivot;
      lt, gt, pivot := Partition(a, ptr, nmemb, cmp);
      WidenAll(s, t, a[..], cur);
      RoomToPush(segs, cur);
      // the smaller segment first, so that the stack stays short
      ghost var low, high := Segment(ptr, lt, depth), Segment(ptr + gt, nmemb - gt, depth);
      if lt > nmemb - gt {
        Pushed(cmp, pivot, t, a[..], segs, cur, lt, gt, low, high);
        stack[sp] := Segment(ptr, lt, depth);
        ptr := ptr + gt;
        nmemb := nmemb - gt;
      } else {
        Pushed(cmp, pivot, t, a[..], segs, cur, lt, gt, high, low);
        stack[sp] := Segment(ptr + gt, nmemb - gt, depth);
        nmemb := lt;
      }
      WeightPush(segs, stack[sp]);
      segs := segs + [stack[sp]];
      sp := sp + 1;
      assert stack[..sp] == segs;
    }
    // a short segment ends with insertion sort
    ghost var t, cur := a[..], Segment(ptr, nmemb, depth);
    FitsArray(cmp, t, segs, cur);
    InsertionSort(a, ptr, nmemb, cmp);
    WidenAll(s, t, a[..], cur);
    Finished(cmp, t, a[..], segs, cur);
  }
}