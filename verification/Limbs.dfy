/**
 Numbers as runs of limbs, least significant limb first, in base 2^32.
 */
module Limbs {
  const LIMB_BITS := 32
  const B := 0x1_0000_0000
  const HALF := 0x8000_0000
  const QUARTER := 0x4000_0000

  type limb = x: int | 0 <= x < B

  /** B^n */
  ghost function BP(n: nat): (p: nat)
    ensures 0 < p
  {
    if n == 0 then 1 else B * BP(n - 1)
  }

  /** The number held by the `n` limbs from `lo` on. */
  ghost function V(s: seq<limb>, lo: nat, n: nat): (v: nat)
    requires lo + n <= |s|
  {
    if n == 0 then 0 else V(s, lo, n - 1) + s[lo + n - 1] * BP(n - 1)
  }

  /** Only the `n` limbs from `lo` on may differ. */
  ghost predicate Only(s: seq<limb>, t: seq<limb>, lo: int, n: int) {
    |s| == |t| && forall k :: 0 <= k < |s| && (k < lo || lo + n <= k) ==> s[k] == t[k]
  }

  /** A loop that goes up may write to `res` while it reads `op`. */
  ghost predicate NoClash(res: array<limb>, ro: nat, op: array<limb>, o: nat, n: nat) {
    res != op || ro <= o || o + n <= ro
  }

  lemma {:induction false} BPAdd(m: nat, n: nat)
    ensures BP(m + n) == BP(m) * BP(n)
  {
    if n == 0 {
    } else {
      BPAdd(m, n - 1);
      calc {
        BP(m + n);
        B * BP(m + (n - 1));
        B * (BP(m) * BP(n - 1));
        BP(m) * (B * BP(n - 1));
      }
    }
  }

  lemma BPSmall()
    ensures BP(0) == 1 && BP(1) == B && BP(2) == B * B
  {
    assert BP(1) == B * BP(0);
    assert BP(2) == B * BP(1);
  }

  lemma {:induction false} VBound(s: seq<limb>, lo: nat, n: nat)
    requires lo + n <= |s|
    ensures V(s, lo, n) < BP(n)
  {
    if n != 0 {
      VBound(s, lo, n - 1);
      MulLe(s[lo + n - 1] as int + 1, B, BP(n - 1));
      Dist(s[lo + n - 1], 1, BP(n - 1));
    }
  }

  lemma {:induction false} VSame(s: seq<limb>, lo: nat, t: seq<limb>, to: nat, n: nat)
    requires lo + n <= |s| && to + n <= |t| && s[lo..lo + n] == t[to..to + n]
    ensures V(s, lo, n) == V(t, to, n)
  {
    if n != 0 {
      assert s[lo..lo + n - 1] == s[lo..lo + n][..n - 1] && t[to..to + n - 1] == t[to..to + n][..n - 1];
      assert s[lo + n - 1] == s[lo..lo + n][n - 1] && t[to + n - 1] == t[to..to + n][n - 1];
      VSame(s, lo, t, to, n - 1);
    }
  }

  lemma {:induction false} VSplit(s: seq<limb>, lo: nat, m: nat, n: nat)
    requires lo + m + n <= |s|
    ensures V(s, lo, m + n) == V(s, lo, m) + BP(m) * V(s, lo + m, n)
  {
    if n == 0 {
      assert V(s, lo + m, 0) == 0;
    } else {
      VSplit(s, lo, m, n - 1);
      BPAdd(m, n - 1);
      var d := s[lo + m + n - 1];
      calc {
        V(s, lo, m + n);
        V(s, lo, m + (n - 1)) + d * BP(m + (n - 1));
        V(s, lo, m) + BP(m) * V(s, lo + m, n - 1) + d * (BP(m) * BP(n - 1));
        { Assoc(d, BP(m), BP(n - 1)); }
        V(s, lo, m) + BP(m) * V(s, lo + m, n - 1) + BP(m) * (d * BP(n - 1));
        { DistL(BP(m), V(s, lo + m, n - 1), d * BP(n - 1)); }
        V(s, lo, m) + BP(m) * (V(s, lo + m, n - 1) + d * BP(n - 1));
      }
    }
  }

  /** Changes elsewhere do not matter. */
  lemma VOnly(s: seq<limb>, t: seq<limb>, lo: nat, n: nat, wo: int, wn: int)
    requires Only(s, t, wo, wn) && lo + n <= |s| && (lo + n <= wo || wo + wn <= lo)
    ensures V(s, lo, n) == V(t, lo, n)
  {
    assert s[lo..lo + n] == t[lo..lo + n];
    VSame(s, lo, t, lo, n);
  }

  lemma OnlySelf(s: seq<limb>, lo: int, n: int)
    ensures Only(s, s, lo, n)
  {
  }

  lemma OnlyWiden(s: seq<limb>, t: seq<limb>, lo: int, n: int, lo': int, n': int)
    requires Only(s, t, lo, n) && lo' <= lo && lo + n <= lo' + n'
    ensures Only(s, t, lo', n')
  {
  }

  lemma OnlyThen(s: seq<limb>, t: seq<limb>, u: seq<limb>, lo: int, n: int)
    requires Only(s, t, lo, n) && Only(t, u, lo, n)
    ensures Only(s, u, lo, n)
  {
  }

  lemma OnlyOne(s: seq<limb>, t: seq<limb>, k: nat)
    requires k < |s| == |t| && t == s[k := t[k]]
    ensures Only(s, t, k, 1)
  {
  }

  lemma OnlyAt(s: seq<limb>, t: seq<limb>, lo: int, n: int, k: nat)
    requires Only(s, t, lo, n) && k < |s| && (k < lo || lo + n <= k)
    ensures s[k] == t[k]
  {
  }

  lemma VOne(s: seq<limb>, lo: nat)
    requires lo < |s|
    ensures V(s, lo, 1) == s[lo]
  {
    assert V(s, lo, 0) == 0;
  }

  lemma {:induction false} VZero(s: seq<limb>, lo: nat, n: nat)
    requires lo + n <= |s|
    ensures V(s, lo, n) == 0 <==> forall k :: lo <= k < lo + n ==> s[k] == 0
  {
    if n != 0 {
      VZero(s, lo, n - 1);
      if s[lo + n - 1] != 0 { MulLe(1, s[lo + n - 1], BP(n - 1)); }
    }
  }

  /** The number is at least its top limb times the power of that limb. */
  lemma VTop(s: seq<limb>, lo: nat, n: nat)
    requires lo + n <= |s| && 0 < n
    ensures V(s, lo, n) == V(s, lo, n - 1) + s[lo + n - 1] * BP(n - 1) && V(s, lo, n - 1) < BP(n - 1)
  {
    VBound(s, lo, n - 1);
  }

  // ---------------------------------------------------------------- products

  lemma Dist(a: int, b: int, c: int)
    ensures (a + b) * c == a * c + b * c && (a - b) * c == a * c - b * c
  {
  }

  lemma DistL(c: int, a: int, b: int)
    ensures c * (a + b) == c * a + c * b && c * (a - b) == c * a - c * b
  {
  }

  lemma Assoc(a: int, b: int, c: int)
    ensures a * (b * c) == (a * b) * c && a * (b * c) == b * (a * c)
  {
  }

  lemma MulLe(a: int, b: int, c: int)
    requires a <= b && 0 <= c
    ensures a * c <= b * c && c * a <= c * b
  {
  }

  lemma MulLt(a: int, b: int, c: int)
    requires a < b && 0 < c
    ensures a * c < b * c && c * a < c * b
  {
  }

  /** A product that is smaller has a smaller factor. */
  lemma LtMul(a: int, b: int, c: int)
    requires 0 < c && a * c < b * c
    ensures a < b
  {
    if b <= a { MulLe(b, a, c); }
  }

  lemma LeMul(a: int, b: int, c: int)
    requires 0 < c && a * c <= b * c
    ensures a <= b
  {
    if b < a { MulLt(b, a, c); }
  }

  lemma VNextPower(n: nat)
    ensures BP(n + 1) == B * BP(n)
  {
  }
}
