/**
 The discrete Fourier transform over the integers modulo m, and what the
 passes of a fast transform and the inverse transform rest on.
 */
module Dft {
  import opened Limbs
  import opened Congruence
  import opened Udiv

  /** y[0] + y[1] x + y[2] x^2 + ... */
  ghost function Eval(y: seq<int>, x: int): int {
    if y == [] then 0 else y[0] + x * Eval(y[1..], x)
  }

  /** w has order 2^k: its 2^(k-1)-th power is -1. */
  ghost predicate Root(w: int, k: nat, m: int)
    requires 0 < m
  {
    0 < k && Cong(Pow(w, Pow2(k - 1)), -1, m)
  }

  ghost predicate SameMod(y: seq<int>, z: seq<int>, m: int)
    requires 0 < m
  {
    |y| == |z| && forall i :: 0 <= i < |y| ==> Cong(y[i], z[i], m)
  }

  // ------------------------------------------------------------- polynomials

  lemma {:induction false} EvalCong(y: seq<int>, z: seq<int>, x: int, x': int, m: int)
    requires 0 < m && SameMod(y, z, m) && Cong(x, x', m)
    ensures Cong(Eval(y, x), Eval(z, x'), m)
  {
    if y != [] {
      assert Cong(y[0], z[0], m);
      forall i | 0 <= i < |y| - 1 ensures Cong(y[1..][i], z[1..][i], m) {
        assert y[1..][i] == y[i + 1] && z[1..][i] == z[i + 1];
      }
      EvalCong(y[1..], z[1..], x, x', m);
      CongMul(x, x', Eval(y[1..], x), Eval(z[1..], x'), m);
      CongAdd(y[0], z[0], x * Eval(y[1..], x), x' * Eval(z[1..], x'), m);
    }
  }

  lemma {:induction false} EvalConcat(y: seq<int>, z: seq<int>, x: int)
    ensures Eval(y + z, x) == Eval(y, x) + Pow(x, |y|) * Eval(z, x)
  {
    if y == [] {
      assert y + z == z;
    } else {
      assert (y + z)[1..] == y[1..] + z;
      EvalConcat(y[1..], z, x);
      DistL(x, Eval(y[1..], x), Pow(x, |y| - 1) * Eval(z, x));
      Assoc(x, Pow(x, |y| - 1), Eval(z, x));
    }
  }

  /** y + c z, entry by entry. */
  ghost function Mix(y: seq<int>, c: int, z: seq<int>): (r: seq<int>)
    requires |y| == |z|
    ensures |r| == |y|
  {
    seq(|y|, i requires 0 <= i < |y| => y[i] + c * z[i])
  }

  lemma {:induction false} EvalMix(y: seq<int>, c: int, z: seq<int>, x: int)
    requires |y| == |z|
    ensures Eval(Mix(y, c, z), x) == Eval(y, x) + c * Eval(z, x)
  {
    if y != [] {
      var r := Mix(y, c, z);
      assert r[1..] == Mix(y[1..], c, z[1..]);
      EvalMix(y[1..], c, z[1..], x);
      var u, v := Eval(y[1..], x), Eval(z[1..], x);
      DistL(x, u, c * v);
      DistL(c, z[0], x * v);
      Assoc(x, c, v);
      Assoc(c, x, v);
    }
  }

  /** Entry i multiplied by w^i. */
  ghost function Twist(y: seq<int>, w: int): (r: seq<int>)
    ensures |r| == |y|
  {
    seq(|y|, i requires 0 <= i < |y| => y[i] * Pow(w, i))
  }

  lemma {:induction false} EvalTwist(y: seq<int>, w: int, x: int)
    ensures Eval(Twist(y, w), x) == Eval(y, w * x)
  {
    if y != [] {
      var r, t := Twist(y, w), Twist(y[1..], w);
      assert r[1..] == Mix(Zeros(|t|), w, t) by {
        forall i | 0 <= i < |t| ensures r[1..][i] == w * t[i] {
          assert r[1..][i] == y[i + 1] * Pow(w, i + 1);
          Assoc(y[i + 1], w, Pow(w, i));
        }
      }
      EvalMix(Zeros(|t|), w, t, x);
      EvalZeros(|t|, x);
      EvalTwist(y[1..], w, x);
      assert x * (w * Eval(y[1..], w * x)) == w * x * Eval(y[1..], w * x) by { Assoc(x, w, Eval(y[1..], w * x)); }
    }
  }

  ghost function Zeros(n: nat): (r: seq<int>)
    ensures |r| == n
  {
    seq(n, i => 0)
  }

  lemma {:induction false} EvalZeros(n: nat, x: int)
    ensures Eval(Zeros(n), x) == 0
  {
    if n != 0 {
      assert Zeros(n)[1..] == Zeros(n - 1);
      EvalZeros(n - 1, x);
    }
  }

  // ------------------------------------------------------------------- roots

  lemma RootSquare(w: int, w': int, k: nat, m: int)
    requires 0 < m && 2 <= k && Root(w, k, m) && Cong(w', w * w, m)
    ensures Root(w', k - 1, m)
  {
    var h := Pow2(k - 2);
    CongPow(w', w * w, h, m);
    PowSmall(w);
    PowPow(w, 2, h);
  }

  lemma RootPower(w: int, k: nat, m: int)
    requires 0 < m && Root(w, k, m)
    ensures Cong(Pow(w, Pow2(k)), 1, m)
  {
    var h := Pow2(k - 1);
    PowAdd(w, h, h);
    CongMul(Pow(w, h), -1, Pow(w, h), -1, m);
  }

  /** (w^q)^(2^(k-1)) is 1 for even q and -1 for odd q. */
  lemma {:induction false} HalfPower(w: int, k: nat, q: nat, m: int)
    requires 0 < m && Root(w, k, m)
    ensures Cong(Pow(Pow(w, q), Pow2(k - 1)), if q % 2 == 0 then 1 else -1, m)
  {
    var h := Pow2(k - 1);
    PowPow(w, q, h);
    PowPow(w, h, q);
    assert q * h == h * q;
    CongPow(Pow(w, h), -1, q, m);
    Signs(q);
  }

  lemma {:induction false} Signs(q: nat)
    ensures Pow(-1, q) == if q % 2 == 0 then 1 else -1
  {
    if q != 0 { Signs(q - 1); }
  }

  // --------------------------------------------------------------- fast pass

  /**
   One pass: the even outputs of the transform of `y` are the outputs of the
   transform of half the length of the sums, the odd ones those of the twisted
   differences.
   */
  lemma FastPass(y: seq<int>, sum: seq<int>, diff: seq<int>, w: int, w': int, k: nat, q: nat, m: int)
    requires 0 < m && Root(w, k, m) && |y| == Pow2(k) && Cong(w', w * w, m)
    requires var h := Pow2(k - 1); SameMod(sum, Mix(y[..h], 1, y[h..]), m)
    requires var h := Pow2(k - 1); SameMod(diff, Twist(Mix(y[..h], -1, y[h..]), w), m)
    ensures Cong(Eval(y, Pow(w, 2 * q)), Eval(sum, Pow(w', q)), m)
    ensures Cong(Eval(y, Pow(w, 2 * q + 1)), Eval(diff, Pow(w', q)), m)
  {
    Square(w, w', q, m);
    var h := Pow2(k - 1);
    var lo, hi := y[..h], y[h..];
    HalfPass(y, w, k, 2 * q, m);
    HalfPass(y, w, k, 2 * q + 1, m);
    EvalCong(sum, Mix(lo, 1, hi), Pow(w', q), Pow(w, 2 * q), m);
    var d := Mix(lo, -1, hi);
    EvalCong(diff, Twist(d, w), Pow(w', q), Pow(w, 2 * q), m);
    EvalTwist(d, w, Pow(w, 2 * q));
  }

  lemma Square(w: int, w': int, q: nat, m: int)
    requires 0 < m && Cong(w', w * w, m)
    ensures Cong(Pow(w', q), Pow(w, 2 * q), m)
  {
    CongPow(w', w * w, q, m);
    PowSmall(w);
    PowPow(w, 2, q);
  }

  lemma HalfPass(y: seq<int>, w: int, k: nat, q: nat, m: int)
    requires 0 < m && Root(w, k, m) && |y| == Pow2(k)
    ensures var h := Pow2(k - 1);
      Cong(Eval(y, Pow(w, q)), Eval(Mix(y[..h], if q % 2 == 0 then 1 else -1, y[h..]), Pow(w, q)), m)
  {
    var h := Pow2(k - 1);
    var lo, hi, x := y[..h], y[h..], Pow(w, q);
    var c := if q % 2 == 0 then 1 else -1;
    assert y == lo + hi;
    EvalConcat(lo, hi, x);
    HalfPower(w, k, q, m);
    CongMul(Pow(x, h), c, Eval(hi, x), Eval(hi, x), m);
    CongAdd(Eval(lo, x), Eval(lo, x), Pow(x, h) * Eval(hi, x), c * Eval(hi, x), m);
    EvalMix(lo, c, hi, x);
  }

  // ------------------------------------------------------- inverse transform

  /** 1 + x + ... + x^(n-1) */
  ghost function Geo(x: int, n: nat): int {
    if n == 0 then 0 else 1 + x * Geo(x, n - 1)
  }

  lemma {:induction false} GeoDouble(x: int, n: nat, k: nat)
    ensures Geo(x, n + k) == Geo(x, n) + Pow(x, n) * Geo(x, k)
  {
    if n != 0 {
      GeoDouble(x, n - 1, k);
      DistL(x, Geo(x, n - 1), Pow(x, n - 1) * Geo(x, k));
      Assoc(x, Pow(x, n - 1), Geo(x, k));
    }
  }

  lemma {:induction false} GeoCong(x: int, x': int, n: nat, m: int)
    requires 0 < m && Cong(x, x', m)
    ensures Cong(Geo(x, n), Geo(x', n), m)
  {
    if n != 0 {
      GeoCong(x, x', n - 1, m);
      CongMul(x, x', Geo(x, n - 1), Geo(x', n - 1), m);
      CongAdd(1, 1, x * Geo(x, n - 1), x' * Geo(x', n - 1), m);
    }
  }

  lemma {:induction false} GeoOne(n: nat)
    ensures Geo(1, n) == n
  {
    if n != 0 { GeoOne(n - 1); }
  }

  /** The powers of a root other than 1 add up to zero. */
  lemma {:induction false} GeoRoot(w: int, k: nat, d: nat, m: int)
    requires 0 < m && Root(w, k, m) && 0 < d < Pow2(k)
    ensures Cong(Geo(Pow(w, d), Pow2(k)), 0, m)
    decreases k
  {
    var h := Pow2(k - 1);
    var x := Pow(w, d);
    GeoDouble(x, h, h);
    HalfPower(w, k, d, m);
    var c := if d % 2 == 0 then 1 else -1;
    CongMul(Pow(x, h), c, Geo(x, h), Geo(x, h), m);
    CongAdd(Geo(x, h), Geo(x, h), Pow(x, h) * Geo(x, h), c * Geo(x, h), m);
    if d % 2 == 0 {
      var e := d / 2;
      assert Pow2(0) == 1 && Pow2(1) == 2;
      PowSmall(w);
      PowPow(w, 2, e);
      RootSquare(w, w * w, k, m);
      GeoRoot(w * w, k - 1, e, m);
      CongMul(2, 2, Geo(x, h), 0, m);
    }
  }

  /** 1, x, x^2, ... */
  ghost function Powers(x: int, n: nat): (r: seq<int>)
    ensures |r| == n
  {
    seq(n, q requires 0 <= q => Pow(x, q))
  }

  lemma {:induction false} EvalPowers(y: int, n: nat, x: int)
    ensures Eval(Powers(y, n), x) == Geo(y * x, n)
  {
    if n != 0 {
      var r, t := Powers(y, n), Powers(y, n - 1);
      assert r[1..] == Mix(Zeros(n - 1), y, t) by {
        forall i | 0 <= i < n - 1 ensures r[1..][i] == y * t[i] { assert r[1..][i] == Pow(y, i + 1); }
      }
      EvalMix(Zeros(n - 1), y, t, x);
      EvalZeros(n - 1, x);
      EvalPowers(y, n - 1, x);
      Assoc(x, y, Geo(y * x, n - 1));
    }
  }

  /** Powers of w and of its inverse v cancel. */
  lemma Cancel(w: int, v: int, s: nat, i: nat, m: int)
    requires 0 < m && Cong(w * v, 1, m)
    ensures Cong(Pow(w, s) * Pow(v, i), if i <= s then Pow(w, s - i) else Pow(v, i - s), m)
  {
    var t := if i <= s then i else s;
    PowAdd(w, s - t, t);
    PowAdd(v, t, i - t);
    PowTimes(w, v, t);
    CongPow(w * v, 1, t, m);
    PowOne(t);
    var u := Pow(w, s - t) * Pow(v, i - t);
    assert Pow(w, s) * Pow(v, i) == u * Pow(w * v, t) by {
      Assoc(Pow(w, s - t) * Pow(w, t), Pow(v, t), Pow(v, i - t));
      Rearrange(Pow(w, s - t), Pow(w, t), Pow(v, t), Pow(v, i - t));
    }
    CongMul(u, u, Pow(w * v, t), 1, m);
  }

  lemma Rearrange(a: int, b: int, c: int, d: int)
    ensures a * b * (c * d) == a * d * (b * c)
  {
    Assoc(a * b, c, d);
    assert a * b * c == a * (b * c);
    assert a * (b * c) * d == a * d * (b * c);
  }

  /** The inverse of a root is a root. */
  lemma InverseRoot(w: int, v: int, k: nat, m: int)
    requires 0 < m && Root(w, k, m) && Cong(w * v, 1, m)
    ensures Root(v, k, m)
  {
    var h := Pow2(k - 1);
    var p, q := Pow(w, h), Pow(v, h);
    PowTimes(w, v, h);
    CongPow(w * v, 1, h, m);
    PowOne(h);
    CongMul(p, -1, q, q, m);
    CongAdd(0, 0, -1 * q, p * q, m);
    CongAdd(0, 0, p * q, 1, m);
  }

  /** Row s of the forward matrix times column i of the inverse one. */
  lemma Orthogonal(w: int, v: int, k: nat, s: nat, i: nat, m: int)
    requires 0 < m && Root(w, k, m) && Cong(w * v, 1, m) && s < Pow2(k) && i < Pow2(k)
    ensures Cong(Geo(Pow(w, s) * Pow(v, i), Pow2(k)), if s == i then Pow2(k) else 0, m)
  {
    var n := Pow2(k);
    Cancel(w, v, s, i, m);
    var d := if i <= s then Pow(w, s - i) else Pow(v, i - s);
    GeoCong(Pow(w, s) * Pow(v, i), d, n, m);
    if s == i {
      GeoOne(n);
    } else if i < s {
      GeoRoot(w, k, s - i, m);
    } else {
      InverseRoot(w, v, k, m);
      GeoRoot(v, k, i - s, m);
    }
  }

  /** The transform of c shifted up by s places. */
  ghost function Spectrum(c: seq<int>, s: nat, w: int, n: nat): (r: seq<int>)
    ensures |r| == n
  {
    seq(n, q requires 0 <= q => Pow(Pow(w, q), s) * Eval(c, Pow(w, q)))
  }

  lemma {:induction false} InverseSum(c: seq<int>, s: nat, w: int, v: int, k: nat, i: nat, m: int)
    requires 0 < m && Root(w, k, m) && Cong(w * v, 1, m) && s + |c| <= Pow2(k) && i < Pow2(k)
    ensures Cong(Eval(Spectrum(c, s, w, Pow2(k)), Pow(v, i)), if s <= i < s + |c| then Pow2(k) * c[i - s] else 0, m)
    decreases |c|
  {
    hide Pow, Root, Cong, Geo, Mix, Powers;
    var n := Pow2(k);
    if c == [] {
      assert Spectrum(c, s, w, n) == Zeros(n);
      EvalZeros(n, Pow(v, i));
      CongSelf(0, m);
    } else {
      InverseSum(c[1..], s + 1, w, v, k, i, m);
      InverseSumStep(c, s, w, v, k, i, m);
    }
  }

  lemma InverseSumStep(c: seq<int>, s: nat, w: int, v: int, k: nat, i: nat, m: int)
    requires 0 < m && Root(w, k, m) && Cong(w * v, 1, m) && c != [] && s + |c| <= Pow2(k) && i < Pow2(k)
    requires Cong(Eval(Spectrum(c[1..], s + 1, w, Pow2(k)), Pow(v, i)), if s + 1 <= i < s + |c| then Pow2(k) * c[1..][i - (s + 1)] else 0, m)
    ensures Cong(Eval(Spectrum(c, s, w, Pow2(k)), Pow(v, i)), if s <= i < s + |c| then Pow2(k) * c[i - s] else 0, m)
  {
    hide Pow, Root, Cong, Geo, Mix, Powers, Spectrum, Eval, Pow2;
    var n := Pow2(k);
    var y := Spectrum(c[1..], s + 1, w, n);
    SpectrumStep(c, s, w, n);
    EvalMix(y, c[0], Powers(Pow(w, s), n), Pow(v, i));
    EvalPowers(Pow(w, s), n, Pow(v, i));
    Orthogonal(w, v, k, s, i, m);
    var g, o := Geo(Pow(w, s) * Pow(v, i), n), if s == i then n else 0;
    CongSelf(c[0], m);
    CongMul(c[0], c[0], g, o, m);
    var rest := if s + 1 <= i < s + |c| then n * c[1..][i - (s + 1)] else 0;
    CongAdd(Eval(y, Pow(v, i)), rest, c[0] * g, c[0] * o, m);
    assert s < i < s + |c| ==> c[1..][i - (s + 1)] == c[i - s];
  }

  lemma CongSelf(a: int, m: int)
    requires 0 < m
    ensures Cong(a, a, m)
  {
  }

  lemma SpectrumStep(c: seq<int>, s: nat, w: int, n: nat)
    requires c != []
    ensures Spectrum(c, s, w, n) == Mix(Spectrum(c[1..], s + 1, w, n), c[0], Powers(Pow(w, s), n))
  {
    hide Pow, Eval;
    var r, t, p := Spectrum(c, s, w, n), Spectrum(c[1..], s + 1, w, n), Powers(Pow(w, s), n);
    forall q | 0 <= q < n ensures r[q] == t[q] + c[0] * p[q] {
      SpectrumEntry(c, s, w, q);
    }
  }

  lemma SpectrumEntry(c: seq<int>, s: nat, w: int, q: nat)
    requires c != []
    ensures var x := Pow(w, q);
      Pow(x, s) * Eval(c, x) == Pow(x, s + 1) * Eval(c[1..], x) + c[0] * Pow(Pow(w, s), q)
  {
    hide Pow;
    var x, e := Pow(w, q), Eval(c[1..], Pow(w, q));
    PowPow(w, q, s);
    PowPow(w, s, q);
    assert q * s == s * q;
    PowAdd(x, s, 1);
    PowSmall(x);
    DistL(Pow(x, s), c[0], x * e);
    Assoc(Pow(x, s), x, e);
  }

  /** The inverse transform undoes the transform, up to the factor n. */
  lemma InverseTransform(c: seq<int>, z: seq<int>, w: int, v: int, k: nat, i: nat, m: int)
    requires 0 < m && Root(w, k, m) && Cong(w * v, 1, m) && |c| == |z| == Pow2(k) && i < Pow2(k)
    requires forall q :: 0 <= q < |z| ==> Cong(z[q], Eval(c, Pow(w, q)), m)
    ensures Cong(Eval(z, Pow(v, i)), Pow2(k) * c[i], m)
  {
    hide Root, Eval;
    var r := Spectrum(c, 0, w, Pow2(k));
    forall q | 0 <= q < |z| ensures Cong(z[q], r[q], m) {
      assert Pow(Pow(w, q), 0) == 1;
    }
    EvalCong(z, r, Pow(v, i), Pow(v, i), m);
    InverseSum(c, 0, w, v, k, i, m);
  }

  // ------------------------------------------------------ cyclic convolution

  /** The sum over j < t of a[j] b[(i - j) mod n]. */
  ghost function ConvSum(a: seq<int>, b: seq<int>, i: int, t: nat): int
    requires t <= |a| && 0 < |b|
  {
    if t == 0 then 0 else ConvSum(a, b, i, t - 1) + a[t - 1] * b[(i - (t - 1)) % |b|]
  }

  /** The cyclic convolution. */
  ghost function Conv(a: seq<int>, b: seq<int>): (c: seq<int>)
    requires |a| == |b| && 0 < |b|
    ensures |c| == |b|
  {
    Partial(a, b, |a|)
  }

  ghost function Partial(a: seq<int>, b: seq<int>, t: nat): (c: seq<int>)
    requires t <= |a| && 0 < |b|
    ensures |c| == |b|
  {
    seq(|b|, i => ConvSum(a, b, i, t))
  }

  lemma Rotate(b: seq<int>, t: nat, x: int, m: int) returns (r: seq<int>)
    requires 0 < m && t < |b| && Cong(Pow(x, |b|), 1, m)
    ensures |r| == |b| && (forall i :: 0 <= i < |b| ==> r[i] == b[(i - t) % |b|])
    ensures Cong(Eval(r, x), Pow(x, t) * Eval(b, x), m)
  {
    hide Pow, Eval;
    var n := |b|;
    var lo, hi := b[..n - t], b[n - t..];
    r := hi + lo;
    forall i | 0 <= i < n ensures r[i] == b[(i - t) % n] {
      Rem(i - t, if i < t then -1 else 0, if i < t then i - t + n else i - t, n);
    }
    assert b == lo + hi;
    EvalConcat(lo, hi, x);
    EvalConcat(hi, lo, x);
    PowAdd(x, t, n - t);
    RotatedSum(Pow(x, t), Pow(x, n - t), Eval(lo, x), Eval(hi, x), m);
  }

  lemma RotatedSum(p: int, q: int, lo: int, hi: int, m: int)
    requires 0 < m && Cong(p * q, 1, m)
    ensures Cong(hi + p * lo, p * (lo + q * hi), m)
  {
    DistL(p, lo, q * hi);
    Assoc(p, q, hi);
    CongMul(1, p * q, hi, hi, m);
    CongAdd(p * lo, p * lo, hi, p * q * hi, m);
  }

  lemma {:induction false} PartialEval(a: seq<int>, b: seq<int>, t: nat, x: int, m: int)
    requires 0 < m && t <= |a| == |b| && 0 < |b| && Cong(Pow(x, |b|), 1, m)
    ensures Cong(Eval(Partial(a, b, t), x), Eval(a[..t], x) * Eval(b, x), m)
  {
    if t == 0 {
      assert Partial(a, b, 0) == Zeros(|b|);
      EvalZeros(|b|, x);
    } else {
      PartialEval(a, b, t - 1, x, m);
      PartialStep(a, b, t, x, m);
    }
  }

  lemma PartialStep(a: seq<int>, b: seq<int>, t: nat, x: int, m: int)
    requires 0 < m && 0 < t <= |a| == |b| && Cong(Pow(x, |b|), 1, m)
    requires Cong(Eval(Partial(a, b, t - 1), x), Eval(a[..t - 1], x) * Eval(b, x), m)
    ensures Cong(Eval(Partial(a, b, t), x), Eval(a[..t], x) * Eval(b, x), m)
  {
    hide Pow, Cong;
    var r := Rotate(b, t - 1, x, m);
    assert Partial(a, b, t) == Mix(Partial(a, b, t - 1), a[t - 1], r);
    EvalMix(Partial(a, b, t - 1), a[t - 1], r, x);
    assert a[..t] == a[..t - 1] + [a[t - 1]];
    EvalConcat(a[..t - 1], [a[t - 1]], x);
    assert Eval([a[t - 1]], x) == a[t - 1] + x * Eval([], x);
    AddTerm(Eval(Partial(a, b, t - 1), x), Eval(a[..t - 1], x), a[t - 1], Eval(r, x), Pow(x, t - 1), Eval(b, x), m);
  }

  lemma AddTerm(s: int, f: int, c: int, r: int, p: int, e: int, m: int)
    requires 0 < m && Cong(s, f * e, m) && Cong(r, p * e, m)
    ensures Cong(s + c * r, (f + p * c) * e, m)
  {
    CongMul(c, c, r, p * e, m);
    CongAdd(s, f * e, c * r, c * (p * e), m);
    Assoc(c, p, e);
    Dist(f, p * c, e);
  }

  /** The transform turns cyclic convolution into products. */
  lemma ConvolutionTheorem(a: seq<int>, b: seq<int>, w: int, k: nat, q: nat, m: int)
    requires 0 < m && Root(w, k, m) && |a| == |b| == Pow2(k)
    ensures Cong(Eval(Conv(a, b), Pow(w, q)), Eval(a, Pow(w, q)) * Eval(b, Pow(w, q)), m)
  {
    var n, x := Pow2(k), Pow(w, q);
    RootPower(w, k, m);
    PowPow(w, q, n);
    PowPow(w, n, q);
    assert q * n == n * q;
    CongPow(Pow(w, n), 1, q, m);
    PowOne(q);
    PartialEval(a, b, n, x, m);
    assert a[..n] == a;
  }
}
