/** The square-root routine for primes `p = 3 (mod 4)` and the numbers of
    the modulus proof's square-root test, worked through the model of
    `PrimeModSqrt`, `CompModSqrt` and `CompMod4thRt`. */
module RootVectors {
  import opened Common
  import opened ModArith
  import opened Oracles
  import opened RootFinder


  /** The square root `big.Int.ModSqrt` computes for a prime `p = 3 (mod 4)`:
      `x^((p+1)/4)`, kept only when it squares back to `x`. */
  const Sqrt3Mod4: SqrtFn :=
    (x: int, p: int) =>
      if p > 0 && (ModPow(x, (p + 1) / 4, p) * ModPow(x, (p + 1) / 4, p)) % p == x % p
      then Some(ModPow(x, (p + 1) / 4, p)) else None

  lemma RowOfTwo(p: int, q: int, n: int, ga: int, gb: int, rp: int, rq0: int, rq1: int)
    requires n > 0
    ensures Row(p, q, n, ga, gb, rp, [rq0, rq1]) ==
      [Combine(p, q, n, ga, gb, rp, rq0), Combine(p, q, n, ga, gb, rp, rq1)]
  {
    assert [rq0, rq1][..1] == [rq0];
    assert [rq0][..0] == [];
    assert Row(p, q, n, ga, gb, rp, []) == [];
    assert Row(p, q, n, ga, gb, rp, [rq0]) == [Combine(p, q, n, ga, gb, rp, rq0)];
  }

  /** The loop order of `CompModSqrt` with two roots modulo each prime: the
      outer loop runs over the roots modulo `p`. */
  lemma PairsOfTwo(p: int, q: int, n: int, ga: int, gb: int, rp0: int, rp1: int, rq0: int, rq1: int)
    requires n > 0
    ensures Pairs(p, q, n, ga, gb, [rp0, rp1], [rq0, rq1]) ==
      [Combine(p, q, n, ga, gb, rp0, rq0), Combine(p, q, n, ga, gb, rp0, rq1),
       Combine(p, q, n, ga, gb, rp1, rq0), Combine(p, q, n, ga, gb, rp1, rq1)]
  {
    var rqs := [rq0, rq1];
    RowOfTwo(p, q, n, ga, gb, rp0, rq0, rq1);
    RowOfTwo(p, q, n, ga, gb, rp1, rq0, rq1);
    assert [rp0, rp1][..1] == [rp0];
    assert [rp0][..0] == [];
    assert Pairs(p, q, n, ga, gb, [], rqs) == [];
    assert Pairs(p, q, n, ga, gb, [rp0], rqs) == Row(p, q, n, ga, gb, rp0, rqs);
    assert Pairs(p, q, n, ga, gb, [rp0, rp1], rqs) == Row(p, q, n, ga, gb, rp0, rqs) + Row(p, q, n, ga, gb, rp1, rqs);
  }

  /** The fourth roots from four square roots are the four root lists in order. */
  lemma RootsOfFour(sqrt: SqrtFn, ss: seq<int>, p: int, q: int, n: int, ga: int, gb: int)
    requires p > 0 && q > 0 && n > 0 && |ss| == 4
    ensures RootsOfEach(sqrt, ss, p, q, n, ga, gb) ==
      CompModSqrtSpec(sqrt, ss[0], p, q, n, ga, gb) + CompModSqrtSpec(sqrt, ss[1], p, q, n, ga, gb)
      + CompModSqrtSpec(sqrt, ss[2], p, q, n, ga, gb) + CompModSqrtSpec(sqrt, ss[3], p, q, n, ga, gb)
  {
    var s1, s2, s3 := ss[..1], ss[..2], ss[..3];
    assert s1[..0] == [] && s2[..1] == s1 && s3[..2] == s2 && ss[..3] == s3;
    assert s1[0] == ss[0] && s2[1] == ss[1] && s3[2] == ss[2];
    assert RootsOfEach(sqrt, [], p, q, n, ga, gb) == [];
    assert RootsOfEach(sqrt, s1, p, q, n, ga, gb) == CompModSqrtSpec(sqrt, ss[0], p, q, n, ga, gb);
    assert RootsOfEach(sqrt, s2, p, q, n, ga, gb) ==
      RootsOfEach(sqrt, s1, p, q, n, ga, gb) + CompModSqrtSpec(sqrt, ss[1], p, q, n, ga, gb);
    assert RootsOfEach(sqrt, s3, p, q, n, ga, gb) ==
      RootsOfEach(sqrt, s2, p, q, n, ga, gb) + CompModSqrtSpec(sqrt, ss[2], p, q, n, ga, gb);
  }

  /** `Sqrt3Mod4` finds the candidate `r` exactly when it squares back to `x`. */
  lemma Sqrt3Mod4Root(x: int, p: int, r: int)
    requires p > 0 && ModPow(x, (p + 1) / 4, p) == r
    ensures (r * r) % p == x % p ==> PrimeModSqrt(Sqrt3Mod4, x, p) == [r, (-r) % p]
    ensures (r * r) % p != x % p ==> PrimeModSqrt(Sqrt3Mod4, x, p) == []
  {
  }

  /** The prime-level roots of 58 and 60 behind the vector below. */
  lemma PrimeRootVector()
    ensures PrimeModSqrt(Sqrt3Mod4, 58, 7) == [4, 3]
    ensures PrimeModSqrt(Sqrt3Mod4, 58, 11) == [5, 6]
    ensures PrimeModSqrt(Sqrt3Mod4, 60, 7) == [2, 5]
    ensures PrimeModSqrt(Sqrt3Mod4, 60, 11) == [4, 7]
  {
    assert ModPow(58, 2, 7) == 4;
    Sqrt3Mod4Root(58, 7, 4);
    assert ModPow(58, 3, 11) == 5;
    Sqrt3Mod4Root(58, 11, 5);
    assert ModPow(60, 2, 7) == 2;
    Sqrt3Mod4Root(60, 7, 2);
    assert ModPow(60, 3, 11) == 4;
    Sqrt3Mod4Root(60, 11, 4);
  }

  /** The square roots of 58 modulo 77 other than 60 have no roots modulo
      one of the primes. */
  lemma NoPrimeRootVector()
    ensures PrimeModSqrt(Sqrt3Mod4, 39, 11) == []
    ensures PrimeModSqrt(Sqrt3Mod4, 38, 7) == []
    ensures PrimeModSqrt(Sqrt3Mod4, 17, 7) == []
  {
    assert ModPow(39, 3, 11) == 7;
    Sqrt3Mod4Root(39, 11, 7);
    assert ModPow(38, 2, 7) == 2;
    Sqrt3Mod4Root(38, 7, 2);
    assert ModPow(17, 2, 7) == 2;
    Sqrt3Mod4Root(17, 7, 2);
  }

  /** The combination for `p = 7`, `q = 11`, `ga = -3`, `gb = 2`, whose
      reduced coefficients are 22 and 56. */
  lemma CombineAt77(rp: int, rq: int, u: int, v: int, c: int)
    requires (22 * rp) % 77 == u && (56 * rq) % 77 == v && (u + v) % 77 == c
    ensures Combine(7, 11, 77, -3, 2, rp, rq) == c
  {
    assert (2 * 11) % 77 == 22;
    assert -3 * 7 == -21 && (-21) % 77 == 56;
  }

  /** The CRT combinations of the roots of 58 modulo 7 and 11. */
  lemma CombineVector()
    ensures Combine(7, 11, 77, -3, 2, 4, 5) == 60 && Combine(7, 11, 77, -3, 2, 4, 6) == 39
    ensures Combine(7, 11, 77, -3, 2, 3, 5) == 38 && Combine(7, 11, 77, -3, 2, 3, 6) == 17
  {
    CombineAt77(4, 5, 11, 49, 60);
    CombineAt77(4, 6, 11, 28, 39);
    CombineAt77(3, 5, 66, 49, 38);
    CombineAt77(3, 6, 66, 28, 17);
  }

  /** The CRT combinations of the roots of 60 modulo 7 and 11. */
  lemma CombineVectorOf60()
    ensures Combine(7, 11, 77, -3, 2, 2, 4) == 37 && Combine(7, 11, 77, -3, 2, 2, 7) == 51
    ensures Combine(7, 11, 77, -3, 2, 5, 4) == 26 && Combine(7, 11, 77, -3, 2, 5, 7) == 40
  {
    CombineAt77(2, 4, 44, 70, 37);
    CombineAt77(2, 7, 44, 7, 51);
    CombineAt77(5, 4, 33, 70, 26);
    CombineAt77(5, 7, 33, 7, 40);
  }

  /** The four square roots of 58 modulo 77, in loop order. */
  lemma SqrtVector()
    ensures CompModSqrtSpec(Sqrt3Mod4, 58, 7, 11, 77, -3, 2) == [60, 39, 38, 17]
  {
    PrimeRootVector();
    CombineVector();
    PairsOfTwo(7, 11, 77, -3, 2, 4, 3, 5, 6);
  }

  /** Of those, only 60 has square roots modulo 77. */
  lemma SecondSqrtVector()
    ensures CompModSqrtSpec(Sqrt3Mod4, 60, 7, 11, 77, -3, 2) == [37, 51, 26, 40]
    ensures CompModSqrtSpec(Sqrt3Mod4, 39, 7, 11, 77, -3, 2) == []
    ensures CompModSqrtSpec(Sqrt3Mod4, 38, 7, 11, 77, -3, 2) == []
    ensures CompModSqrtSpec(Sqrt3Mod4, 17, 7, 11, 77, -3, 2) == []
  {
    PrimeRootVector();
    NoPrimeRootVector();
    CombineVectorOf60();
    PairsOfTwo(7, 11, 77, -3, 2, 2, 5, 4, 7);
    PairsShape(7, 11, 77, -3, 2, PrimeModSqrt(Sqrt3Mod4, 39, 7), []);
    PairsShape(7, 11, 77, -3, 2, [], PrimeModSqrt(Sqrt3Mod4, 38, 11));
    PairsShape(7, 11, 77, -3, 2, [], PrimeModSqrt(Sqrt3Mod4, 17, 11));
  }

  /** With `p = 7`, `q = 11` and `-3*7 + 2*11 == 1`: the square roots of 58
      modulo 77 are 60, 39, 38, 17; only 60 has square roots itself (39 has
      none modulo 11, 38 and 17 none modulo 7), and 37 is the first fourth
      root (37^2 = 60 and 60^2 = 58 modulo 77). */
  lemma FourthRootVector()
    ensures CompModSqrtSpec(Sqrt3Mod4, 58, 7, 11, 77, -3, 2) == [60, 39, 38, 17]
    ensures CompMod4thRtSpec(Sqrt3Mod4, 58, 7, 11, 77, -3, 2) == [37, 51, 26, 40]
  {
    SqrtVector();
    SecondSqrtVector();
    RootsOfFour(Sqrt3Mod4, [60, 39, 38, 17], 7, 11, 77, -3, 2);
  }

  /** The non-residue of the same test: 59 is 3 modulo 7, which has no
      square root, so 59 has no square root modulo 77 either. */
  lemma NonResidueVector()
    ensures PrimeModSqrt(Sqrt3Mod4, 59, 7) == []
    ensures PrimeModSqrt(Sqrt3Mod4, 59, 11) == [9, 2]
    ensures CompModSqrtSpec(Sqrt3Mod4, 59, 7, 11, 77, -3, 2) == []
  {
    assert PrimeModSqrt(Sqrt3Mod4, 59, 7) == [] by {
      assert ModPow(59, 2, 7) == 2;
    }
    assert PrimeModSqrt(Sqrt3Mod4, 59, 11) == [9, 2] by {
      assert ModPow(59, 3, 11) == 9;
      assert Sqrt3Mod4(59, 11) == Some(9);
    }
    PairsShape(7, 11, 77, -3, 2, [], [9, 2]);
  }
}
