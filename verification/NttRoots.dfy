/**
 The moduli of the number theoretic transform and their roots of unity
 (libbf.c, 32-bit limbs).
 */
module NttRoots {
  import opened Limbs
  import opened Congruence
  import opened Udiv
  import opened Dft
  import opened NttArith

  const NB_MODS := 5
  const PROOT_2EXP := 20

  const NTT_MODS: seq<limb> := [0x32b00001, 0x33700001, 0x36d00001, 0x37300001, 0x3e500001]

  /** Roots of order 2^20 and their inverses. */
  const NTT_PROOT: seq<seq<limb>> := [
    [0x32525f31, 0x05eb3b37, 0x246eda9f, 0x35f25901, 0x022f5768],
    [0x051eba1a, 0x107be10e, 0x1cd574e0, 0x053806e6, 0x2cd6bf98]
  ]

  // --------------------------------------------------------------- the roots

  /** c squared i times. */
  function Squared(c: int, i: nat, m: int): int
    requires 0 < m
    decreases i
  {
    if i == 0 then c else Squared(c * c % m, i - 1, m)
  }

  lemma {:induction false} SquaredIsPower(c: int, i: nat, m: int)
    requires 0 < m
    ensures Cong(Squared(c, i, m), Pow(c, Pow2(i)), m)
    decreases i
  {
    if i == 0 {
      PowSmall(c);
    } else {
      var d := c * c % m;
      SquaredIsPower(d, i - 1, m);
      CongMod(c * c, m);
      CongPow(d, c * c, Pow2(i - 1), m);
      PowSmall(c);
      PowPow(c, 2, Pow2(i - 1));
    }
  }

  lemma RootBySquaring(c: int, k: nat, m: int)
    requires 0 < m && 0 < k && Squared(c, k - 1, m) == m - 1
    ensures Root(c, k, m)
  {
    SquaredIsPower(c, k - 1, m);
    CongBy(m - 1, -1, 1, m);
  }

  /** Four squarings, given the quotients and remainders. */
  lemma FourSquares(c: int, q0: int, d0: int, q1: int, d1: int, q2: int, d2: int, q3: int, d3: int, i: nat, m: int)
    requires 0 <= d0 < m && 0 <= d1 < m && 0 <= d2 < m && 0 <= d3 < m
    requires c * c == q0 * m + d0 && d0 * d0 == q1 * m + d1 && d1 * d1 == q2 * m + d2 && d2 * d2 == q3 * m + d3
    ensures Squared(c, i + 4, m) == Squared(d3, i, m)
  {
    Rem(c * c, q0, d0, m);
    Rem(d0 * d0, q1, d1, m);
    Rem(d1 * d1, q2, d2, m);
    Rem(d2 * d2, q3, d3, m);
    assert Squared(c, i + 4, m) == Squared(d0, i + 3, m);
    assert Squared(d0, i + 3, m) == Squared(d1, i + 2, m);
    assert Squared(d1, i + 2, m) == Squared(d2, i + 1, m);
  }

  lemma OneSquare(c: int, q: int, d: int, i: nat, m: int)
    requires 0 <= d < m && c * c == q * m + d
    ensures Squared(c, i + 1, m) == Squared(d, i, m)
  {
    Rem(c * c, q, d, m);
  }

  /** The last squaring gives -1. */
  lemma ToMinusOne(c: int, q: int, m: int)
    requires 1 < m && c * c == q * m + (m - 1)
    ensures Squared(c, 1, m) == m - 1
  {
    Rem(c * c, q, m - 1, m);
    assert Squared(c, 1, m) == Squared(m - 1, 0, m);
  }

  lemma Root0()
    ensures Squared(0x32525f31, 19, 0x32b00001) == 0x32b00000
  {
    hide Squared;
    FourSquares(0x32525f31, 0x31f56b53, 0x11c3fc0e, 0x63a0848, 0x9c5887c, 0x1e23fd7, 0x2be9bc39, 0x260b4209, 0x1ea82a8, 15, 0x32b00001);
    FourSquares(0x1ea82a8, 0x128abd, 0x21cc8383, 0x168992f8, 0x114dc211, 0x5e83c10, 0x226f8911, 0x176507e7, 0x5ec2b3a, 11, 0x32b00001);
    FourSquares(0x5ec2b3a, 0xb127c5, 0x2c1b615f, 0x266177c1, 0x2a01a980, 0x22cfeef7, 0x189a5109, 0xbf116de, 0x27e99b73, 7, 0x32b00001);
    FourSquares(0x27e99b73, 0x1f6d957d, 0x105ce02c, 0x5483db2, 0x3044c9de, 0x2df7202d, 0x6373c57, 0xc321c1, 0x2827c3d0, 3, 0x32b00001);
    OneSquare(0x2827c3d0, 0x1fcfc540, 0x356c3c0, 2, 0x32b00001);
    OneSquare(0x356c3c0, 0x384e41, 0x1bc5c1bf, 1, 0x32b00001);
    ToMinusOne(0x1bc5c1bf, 0xf378c81, 0x32b00001);
  }

  lemma InverseRoot0()
    ensures Squared(0x51eba1a, 19, 0x32b00001) == 0x32b00000
  {
    hide Squared;
    FourSquares(0x51eba1a, 0x84660f, 0x108d6495, 0x567bf2e, 0x229eff8b, 0x17a5b1bd, 0x271483bc, 0x1e217ebc, 0x29c87354, 15, 0x32b00001);
    FourSquares(0x29c87354, 0x22715bf5, 0x1a53379b, 0xdac14af, 0x2299e32a, 0x179eb6ee, 0x2288cbf6, 0x17876759, 0x2928a90b, 11, 0x32b00001);
    FourSquares(0x2928a90b, 0x216be37c, 0xa63a2fd, 0x2212278, 0x16d20b91, 0xa463387, 0x1153949a, 0x5ec366a, 0x352363a, 7, 0x32b00001);
    FourSquares(0x352363a, 0x37b51c, 0x292cd008, 0x2172a224, 0x199a5e1c, 0xceeb501, 0x24a9de0f, 0x1a8508bd, 0x21f6fc24, 3, 0x32b00001);
    OneSquare(0x21f6fc24, 0x16c25a7d, 0x1ed48a93, 2, 0x32b00001);
    OneSquare(0x1ed48a93, 0x12c09227, 0x16ea3e42, 1, 0x32b00001);
    ToMinusOne(0x16ea3e42, 0xa5c0904, 0x32b00001);
  }

  lemma Root1()
    ensures Squared(0x5eb3b37, 19, 0x33700001) == 0x33700000
  {
    hide Squared;
    FourSquares(0x5eb3b37, 0xae5b41, 0xa8e0a90, 0x22a73c5, 0x10d51d3b, 0x5821ed0, 0x17024cc9, 0xa4ad836, 0x4411d9b, 15, 0x33700001);
    FourSquares(0x4411d9b, 0x5a1478, 0x7486761, 0x107f930, 0x8473991, 0x155100f, 0x67ad412, 0xd0f837, 0x1af4d90d, 11, 0x33700001);
    FourSquares(0x1af4d90d, 0xe2078c9, 0x2bbe91e0, 0x2533b0f3, 0x231bd30d, 0x17f6a4c6, 0x2025c9e3, 0x14177c5b, 0x1decc2ee, 7, 0x33700001);
    FourSquares(0x1decc2ee, 0x1168cf33, 0x684c611, 0xd37b99, 0x1802d188, 0xb355541, 0x26fa02ff, 0x1d88cecd, 0x1fdc2b34, 3, 0x33700001);
    OneSquare(0x1fdc2b34, 0x13bbdffa, 0x18ea296, 2, 0x33700001);
    OneSquare(0x18ea296, 0xc1161, 0x42e1e83, 1, 0x33700001);
    ToMinusOne(0x42e1e83, 0x56f709, 0x33700001);
  }

  lemma InverseRoot1()
    ensures Squared(0x107be10e, 19, 0x33700001) == 0x33700000
  {
    hide Squared;
    FourSquares(0x107be10e, 0x5485280, 0x2c054a44, 0x25ac5b83, 0x1437068d, 0x7f1c922, 0xbef2087, 0x2c4d314, 0x2af341d, 15, 0x33700001);
    FourSquares(0x2af341d, 0x23dd05, 0xcedee44, 0x33ffd62, 0x38a84ae, 0x3e6831, 0xbad7e13, 0x2a6b21a, 0x29be034f, 11, 0x33700001);
    FourSquares(0x29be034f, 0x21dfd8a7, 0x75f19ba, 0x10e7087, 0x25836a9d, 0x1b5bc46c, 0x1c789fdd, 0xfc25444, 0x2181f085, 7, 0x33700001);
    FourSquares(0x2181f085, 0x15d3de38, 0x1bafc6e1, 0xee70cd9, 0xf47c4e8, 0x48a0e09, 0xcaa0437, 0x31e32ad, 0x1b4f9124, 3, 0x33700001);
    OneSquare(0x1b4f9124, 0xe802e82, 0x31219e8e, 2, 0x33700001);
    OneSquare(0x31219e8e, 0x2eedb546, 0x2f41e17e, 1, 0x33700001);
    ToMinusOne(0x2f41e17e, 0x2b6aba04, 0x33700001);
  }

  lemma Root2()
    ensures Squared(0x246eda9f, 19, 0x36d00001) == 0x36d00000
  {
    hide Squared;
    FourSquares(0x246eda9f, 0x18376a7e, 0x20bfc443, 0x139116e5, 0x36cf92a4, 0x36cf2547, 0x2eb853c9, 0x27d283bb, 0x26997016, 15, 0x36d00001);
    FourSquares(0x26997016, 0x1b2e94d3, 0x2ac0ad11, 0x2158a035, 0x28175aec, 0x1d52dfcd, 0x4cfe9c3, 0x6c274c, 0xa2633d, 11, 0x36d00001);
    FourSquares(0xa2633d, 0x1e117, 0x2fa5b72, 0x296b36, 0x348d38e, 0x326251, 0xab10073, 0x215dd2a, 0xad0567f, 7, 0x36d00001);
    FourSquares(0xad0567f, 0x222288c, 0x1bb76a75, 0xe03dd84, 0x2c473bf5, 0x23c4c055, 0x311c1824, 0x2c001431, 0x2856b0df, 3, 0x36d00001);
    OneSquare(0x2856b0df, 0x1dafcf8f, 0x142792b2, 2, 0x36d00001);
    OneSquare(0x142792b2, 0x7692d6c, 0x1f225658, 1, 0x36d00001);
    ToMinusOne(0x1f225658, 0x11af3e40, 0x36d00001);
  }

  lemma InverseRoot2()
    ensures Squared(0x1cd574e0, 19, 0x36d00001) == 0x36d00000
  {
    hide Squared;
    FourSquares(0x1cd574e0, 0xf2af984, 0xfb0ca7c, 0x47dd809, 0x20da1407, 0x13b0946d, 0x333c83c4, 0x2fe4c214, 0x78d6bfc, 15, 0x36d00001);
    FourSquares(0x78d6bfc, 0x10a664f, 0x1dea39c1, 0x10539e90, 0x1687e4f1, 0x942e8e0, 0x2fa94201, 0x29715ef3, 0x375250e, 11, 0x36d00001);
    FourSquares(0x375250e, 0x37d5d7, 0x1f4136ed, 0x11d2636f, 0x102073fa, 0x4bea93d, 0xebbe6e7, 0x3f5ea0a, 0x21a7fa67, 7, 0x36d00001);
    FourSquares(0x21a7fa67, 0x14aa69cc, 0x22e4eba5, 0x1636cace, 0x19398d8b, 0xb9bc72d, 0x1dfca24c, 0x1067bca9, 0x24cc89e7, 3, 0x36d00001);
    OneSquare(0x24cc89e7, 0x18b49540, 0x2dbc7931, 2, 0x36d00001);
    OneSquare(0x2dbc7931, 0x2629b1b8, 0x17ada9a9, 1, 0x36d00001);
    ToMinusOne(0x17ada9a9, 0xa3a9191, 0x36d00001);
  }

  lemma Root3()
    ensures Squared(0x35f25901, 19, 0x37300001) == 0x37300000
  {
    hide Squared;
    FourSquares(0x35f25901, 0x34bbd65e, 0x3679dba3, 0x35c6106a, 0x10e0395f, 0x529169e, 0x1e525aa3, 0x10a8dfc0, 0x1fda2409, 15, 0x37300001);
    FourSquares(0x1fda2409, 0x12624205, 0xc14464c, 0x2a4d2cf, 0x2cb8d3c1, 0x243db898, 0x3d9fee9, 0x44d015, 0x13a05ffc, 11, 0x37300001);
    FourSquares(0x13a05ffc, 0x6fad4a5, 0x2e122b6b, 0x2675de73, 0x5634046, 0x86a65e, 0x1e206cc6, 0x10722f6e, 0x30a579b6, 7, 0x37300001);
    FourSquares(0x30a579b6, 0x2ae16c9d, 0x1b2820c7, 0xd5d038e, 0x2655723, 0x1aa083, 0x2d9c2e46, 0x25b1dbb4, 0x63b5f70, 3, 0x37300001);
    OneSquare(0x63b5f70, 0xb42766, 0x1360299a, 2, 0x37300001);
    OneSquare(0x1360299a, 0x6cd7351, 0x9453d53, 1, 0x37300001);
    ToMinusOne(0x9453d53, 0x18ea8e9, 0x37300001);
  }

  lemma InverseRoot3()
    ensures Squared(0x53806e6, 19, 0x37300001) == 0x37300000
  {
    hide Squared;
    FourSquares(0x53806e6, 0x7e57b3, 0x19c13ef1, 0xc04ee83, 0x1f46b05e, 0x11b996f8, 0x8afcb8c, 0x15e086b, 0x18d14c25, 15, 0x37300001);
    FourSquares(0x18d14c25, 0xb290c8b, 0x18d6f0ce, 0xb2e206f, 0x21ecc555, 0x14dab4d7, 0x28a93962, 0x1df54e31, 0x221b7b53, 11, 0x37300001);
    FourSquares(0x221b7b53, 0x15144a06, 0xab692e3, 0x21465be, 0x3574f8b, 0x33c7d5, 0x300d4da4, 0x29d6ca9f, 0x298d4671, 7, 0x37300001);
    FourSquares(0x298d4671, 0x1f490887, 0x2442f55a, 0x17d37866, 0x2899eb3e, 0x1ddec4d3, 0xdd81e31, 0x37911c1, 0x219673a0, 3, 0x37300001);
    OneSquare(0x219673a0, 0x14711c07, 0x1cf807f9, 2, 0x37300001);
    OneSquare(0x1cf807f9, 0xf34cd83, 0x2deac2ae, 1, 0x37300001);
    ToMinusOne(0x2deac2ae, 0x26342e44, 0x37300001);
  }

  lemma Root4()
    ensures Squared(0x22f5768, 19, 0x3e500001) == 0x3e500000
  {
    hide Squared;
    FourSquares(0x22f5768, 0x139cde, 0xc943d62, 0x28a125c, 0x30bdc728, 0x262036ec, 0x341eff54, 0x2b98b4ae, 0x305fbee2, 15, 0x3e500001);
    FourSquares(0x305fbee2, 0x258da9c9, 0x17b295bb, 0x903231d, 0x218c137c, 0x120f8fb6, 0x3a2c145a, 0x364e95b0, 0x2b3f99f4, 11, 0x3e500001);
    FourSquares(0x2b3f99f4, 0x1e045346, 0x2c93d4a, 0x1fe3db, 0x36507589, 0x2f57bbb0, 0x13ec7a1, 0x65ed2, 0x1201546f, 7, 0x3e500001);
    FourSquares(0x1201546f, 0x533dd9d, 0x14732a84, 0x6b616e9, 0x3c217d27, 0x3a068846, 0x55693ab, 0x75126d, 0x118cc1cc, 3, 0x3e500001);
    OneSquare(0x118cc1cc, 0x4f159a3, 0x1ff3e0ed, 2, 0x3e500001);
    OneSquare(0x1ff3e0ed, 0x10627bfd, 0x181b1f6c, 1, 0x3e500001);
    ToMinusOne(0x181b1f6c, 0x9535590, 0x3e500001);
  }

  lemma InverseRoot4()
    ensures Squared(0x2cd6bf98, 19, 0x3e500001) == 0x3e500000
  {
    hide Squared;
    FourSquares(0x2cd6bf98, 0x2043e23b, 0x4d04805, 0x5f3162, 0x19639eb7, 0xa5842d2, 0x19f823ff, 0xad2ac40, 0x324d0bc1, 15, 0x3e500001);
    FourSquares(0x324d0bc1, 0x289ad435, 0x2779534c, 0x19018e02, 0xb50d08e, 0x20e0c91, 0x29490233, 0x1b5a8100, 0x2bc05529, 11, 0x3e500001);
    FourSquares(0x2bc05529, 0x1eb80ed2, 0x37c31bf, 0x31e67e, 0x2920c603, 0x1b254a30, 0x25c359d9, 0x16e2ae42, 0x329bebaf, 7, 0x3e500001);
    FourSquares(0x329bebaf, 0x291a8f65, 0x2c3a323c, 0x1f641dc6, 0xbc7604a, 0x239fda4, 0x35c997c0, 0x2e6dc339, 0x27364cc7, 3, 0x3e500001);
    OneSquare(0x27364cc7, 0x18acead5, 0xbbdd7dc, 2, 0x3e500001);
    OneSquare(0xbbdd7dc, 0x236647b, 0x2634e095, 1, 0x3e500001);
    ToMinusOne(0x2634e095, 0x176d16b9, 0x3e500001);
  }

  /** The listed roots have order 2^20 and the second row holds the inverses of the first. */
  lemma ListedRoots(j: nat)
    requires j < NB_MODS
    ensures Modulus(NTT_MODS[j]) && NTT_PROOT[0][j] < NTT_MODS[j] && NTT_PROOT[1][j] < NTT_MODS[j]
    ensures Squared(NTT_PROOT[0][j], 19, NTT_MODS[j]) == NTT_MODS[j] - 1
    ensures Squared(NTT_PROOT[1][j], 19, NTT_MODS[j]) == NTT_MODS[j] - 1
    ensures Cong(NTT_PROOT[0][j] as int * NTT_PROOT[1][j], 1, NTT_MODS[j])
  {
    hide Squared;
    match j {
      case 0 => Root0(); InverseRoot0(); Rem(0x32525f31 * 0x51eba1a, 0x51544f9, 1, 0x32b00001); Rem(1, 0, 1, 0x32b00001);
      case 1 => Root1(); InverseRoot1(); Rem(0x5eb3b37 * 0x107be10e, 0x1e59401, 1, 0x33700001); Rem(1, 0, 1, 0x33700001);
      case 2 => Root2(); InverseRoot2(); Rem(0x246eda9f * 0x1cd574e0, 0x132a571f, 1, 0x36d00001); Rem(1, 0, 1, 0x36d00001);
      case 3 => Root3(); InverseRoot3(); Rem(0x35f25901 * 0x53806e6, 0x519fce5, 1, 0x37300001); Rem(1, 0, 1, 0x37300001);
      case _ => Root4(); InverseRoot4(); Rem(0x22f5768 * 0x2cd6bf98, 0x1927dbf, 1, 0x3e500001); Rem(1, 0, 1, 0x3e500001);
    }
  }
}
