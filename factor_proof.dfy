/** The no-small-factor proof of CGGMP (ePrint 2021/060), as in
    `crypto/paillier/factor_proof.go`: five commitments over the
    ring-Pedersen parameters `(N, s, t)`, a challenge in a symmetric signed
    range, unreduced integer responses, three verification equalities and a
    magnitude bound. */
module NoSmallFactor {
  import opened Common
  import opened ModArith
  import opened Oracles
  import opened SignedPower

  /** `PARAM_E`: twice the secp256k1 element bit length. */
  const ParamE: nat := 512
  /** `PARAM_L`: the secp256k1 element bit length. */
  const ParamL: nat := 256

  /** `q = 2^256`, the half-width of the challenge range. */
  const ChallengeQ: int := 0x1_0000_0000_0000_0000_0000_0000_0000_0000_0000_0000_0000_0000_0000_0000_0000_0000

  /** `FactorProof`: commitments `P, Q, A, B, T, Sigma` and responses
      `Z1, Z2, W1, W2, V`; any of them may be nil. */
  datatype FactorProof = FactorProof(
    P: Option<int>, Q: Option<int>, A: Option<int>, B: Option<int>, T: Option<int>, Sigma: Option<int>,
    Z1: Option<int>, Z2: Option<int>, W1: Option<int>, W2: Option<int>, V: Option<int>)

  /** No field of the proof is nil. */
  predicate Complete(pf: FactorProof)
  {
    && pf.P.Some? && pf.Q.Some? && pf.A.Some? && pf.B.Some? && pf.T.Some? && pf.Sigma.Some?
    && pf.Z1.Some? && pf.Z2.Some? && pf.W1.Some? && pf.W2.Some? && pf.V.Some?
  }

  function Abs(z: int): nat
  {
    if z < 0 then -z else z
  }

  // ---------------------------------------------------------------------
  // Challenge
  // ---------------------------------------------------------------------

  /** `FactorChallenge`: `HashToN(2q - 1, N, s, t, pkN, P, Q, A, B, T, sigma)`
      shifted down by `q - 1`, a value in the symmetric range `[-(q-1), q-1]`. */
  function FactorChallenge(h: HashToN, N: int, s: int, t: int, pkN: int,
                           P: int, Q: int, A: int, B: int, T: int, sigma: int): (e: int)
    ensures -(ChallengeQ - 1) <= e <= ChallengeQ - 1
  {
    var qMinus1 := ChallengeQ - 1;
    var qDoubleMinus1 := ChallengeQ + qMinus1;
    h(qDoubleMinus1, [N, s, t, pkN, P, Q, A, B, T, sigma]) - qMinus1
  }

  // ---------------------------------------------------------------------
  // Generation
  // ---------------------------------------------------------------------

  /** The random values `FactorProof` samples, given as parameters. */
  datatype FactorNonces = FactorNonces(a: int, b: int, mu: int, nu: int, sigma: int, r: int, x: int, y: int)

  /** `privateKey.FactorProof(N, s, t)` for the key `N0 = p*q`. Every
      exponentiation is `ModInt(N).ExpMulExp`; `None` stands for the run in
      which a negative exponent meets a base with no inverse modulo `N`,
      where the source's arithmetic gets a nil value. */
  function FactorProve(h: HashToN, N0: int, p: int, q: int, N: int, s: int, t: int, rn: FactorNonces)
    : (r: Option<FactorProof>)
    requires N > 0
    ensures r.Some? ==> Complete(r.value) && r.value.Sigma == Some(rn.sigma)
    ensures r.Some? ==>
      && r.value.P == ExpMulExp(s, p, t, rn.mu, N)
      && r.value.Q == ExpMulExp(s, q, t, rn.nu, N)
      && r.value.A == ExpMulExp(s, rn.a, t, rn.x, N)
      && r.value.B == ExpMulExp(s, rn.b, t, rn.y, N)
      && r.value.T == ExpMulExp(r.value.Q.value, rn.a, t, rn.r, N)
    ensures r.Some? ==>
      var pf := r.value;
      var e := FactorChallenge(h, N, s, t, N0, pf.P.value, pf.Q.value, pf.A.value, pf.B.value, pf.T.value, rn.sigma);
      && pf.Z1 == Some(rn.a + e * p) && pf.Z2 == Some(rn.b + e * q)
      && pf.W1 == Some(rn.x + e * rn.mu) && pf.W2 == Some(rn.y + e * rn.nu)
      && pf.V == Some(rn.r + e * (rn.sigma - rn.nu * p))
  {
    var P := ExpMulExp(s, p, t, rn.mu, N);
    var Q := ExpMulExp(s, q, t, rn.nu, N);
    var A := ExpMulExp(s, rn.a, t, rn.x, N);
    var B := ExpMulExp(s, rn.b, t, rn.y, N);
    if P.None? || Q.None? || A.None? || B.None? then None
    else
      var T := ExpMulExp(Q.value, rn.a, t, rn.r, N);
      if T.None? then
        None
      else
        var e := FactorChallenge(h, N, s, t, N0, P.value, Q.value, A.value, B.value, T.value, rn.sigma);
        var sigmaH := rn.sigma - rn.nu * p;
        var z1 := rn.a + e * p;
        var z2 := rn.b + e * q;
        var w1 := rn.x + e * rn.mu;
        var w2 := rn.y + e * rn.nu;
        var vv := rn.r + e * sigmaH;
        Some(FactorProof(P, Q, A, B, T, Some(rn.sigma), Some(z1), Some(z2), Some(w1), Some(w2), Some(vv)))
  }

  // ---------------------------------------------------------------------
  // Verification
  // ---------------------------------------------------------------------

  datatype FactorError =
    | NilArgument
    | NilProofField
    | NilArithmetic
    | FirstEquation
    | SecondEquation
    | ThirdEquation
    | Z1OutOfRange
    | Z2OutOfRange

  /** The challenge the verifier recomputes from the proof's commitments. */
  function ChallengeOf(h: HashToN, pkN: int, N: int, s: int, t: int, pf: FactorProof): int
    requires Complete(pf)
  {
    FactorChallenge(h, N, s, t, pkN, pf.P.value, pf.Q.value, pf.A.value, pf.B.value, pf.T.value, pf.Sigma.value)
  }

  /** The seven values the verifier computes before its first comparison
      (`R`, the three left-hand sides and the three right-hand sides) are all
      defined: no negative power meets a base with no inverse modulo `N`. */
  predicate ArithmeticDefined(h: HashToN, pkN: int, N: int, s: int, t: int, pf: FactorProof)
    requires N > 0 && Complete(pf)
  {
    var e := ChallengeOf(h, pkN, N, s, t, pf);
    var R := ExpMulExp(s, pkN, t, pf.Sigma.value, N);
    && R.Some?
    && ExpMulExp(s, pf.Z1.value, t, pf.W1.value, N).Some?
    && ExpMulExp(s, pf.Z2.value, t, pf.W2.value, N).Some?
    && ExpMulExp(pf.Q.value, pf.Z1.value, t, pf.V.value, N).Some?
    && MulExp(pf.A.value, pf.P.value, e, N).Some?
    && MulExp(pf.B.value, pf.Q.value, e, N).Some?
    && MulExp(pf.T.value, R.value, e, N).Some?
  }

  /** `s^Z1 * t^W1 == A * P^e (mod N)`. */
  predicate FirstHolds(h: HashToN, pkN: int, N: int, s: int, t: int, pf: FactorProof)
    requires N > 0 && Complete(pf)
  {
    ExpMulExp(s, pf.Z1.value, t, pf.W1.value, N)
      == MulExp(pf.A.value, pf.P.value, ChallengeOf(h, pkN, N, s, t, pf), N)
  }

  /** `s^Z2 * t^W2 == B * Q^e (mod N)`. */
  predicate SecondHolds(h: HashToN, pkN: int, N: int, s: int, t: int, pf: FactorProof)
    requires N > 0 && Complete(pf)
  {
    ExpMulExp(s, pf.Z2.value, t, pf.W2.value, N)
      == MulExp(pf.B.value, pf.Q.value, ChallengeOf(h, pkN, N, s, t, pf), N)
  }

  /** `Q^Z1 * t^V == T * R^e (mod N)` with `R = s^pkN * t^Sigma`. */
  predicate ThirdHolds(h: HashToN, pkN: int, N: int, s: int, t: int, pf: FactorProof)
    requires N > 0 && Complete(pf)
  {
    var R := ExpMulExp(s, pkN, t, pf.Sigma.value, N);
    ExpMulExp(pf.Q.value, pf.Z1.value, t, pf.V.value, N)
      == (if R.Some? then MulExp(pf.T.value, R.value, ChallengeOf(h, pkN, N, s, t, pf), N) else None)
  }

  /** `2^(L+E) * floor(sqrt(pkN))`, the largest accepted `|Z1|` and `|Z2|`. */
  function Limit(pkN: nat): (l: nat)
    ensures l == Pow(2, ParamL + ParamE) * FloorSqrt(pkN)
  {
    PowTwoNat(ParamL + ParamE);
    Pow(2, ParamL + ParamE) * FloorSqrt(pkN)
  }

  lemma {:induction false} PowTwoNat(k: nat)
    ensures Pow(2, k) >= 1
  {
    if k > 0 {
      PowTwoNat(k - 1);
    }
  }

  /** `pf.FactorVerify(pkN, N, s, t)`: nil arguments, then nil fields, then
      an undefined intermediate value, then the three equalities in order,
      then the two magnitude bounds. */
  function FactorVerify(h: HashToN, pf: FactorProof, pkN: Option<nat>, N: Option<nat>, s: Option<int>, t: Option<int>)
    : (v: Verdict<FactorError>)
    requires N.Some? ==> N.value > 0
    ensures v == Reject(NilArgument) <==> pkN.None? || N.None? || s.None? || t.None?
    ensures v == Reject(NilProofField) <==>
      pkN.Some? && N.Some? && s.Some? && t.Some? && !Complete(pf)
    ensures v == Reject(NilArithmetic) <==>
      pkN.Some? && N.Some? && s.Some? && t.Some? && Complete(pf)
      && !ArithmeticDefined(h, pkN.value, N.value, s.value, t.value, pf)
    ensures v == Reject(FirstEquation) <==>
      pkN.Some? && N.Some? && s.Some? && t.Some? && Complete(pf)
      && ArithmeticDefined(h, pkN.value, N.value, s.value, t.value, pf)
      && !FirstHolds(h, pkN.value, N.value, s.value, t.value, pf)
    ensures v == Reject(SecondEquation) <==>
      pkN.Some? && N.Some? && s.Some? && t.Some? && Complete(pf)
      && ArithmeticDefined(h, pkN.value, N.value, s.value, t.value, pf)
      && FirstHolds(h, pkN.value, N.value, s.value, t.value, pf)
      && !SecondHolds(h, pkN.value, N.value, s.value, t.value, pf)
    ensures v == Reject(ThirdEquation) <==>
      pkN.Some? && N.Some? && s.Some? && t.Some? && Complete(pf)
      && ArithmeticDefined(h, pkN.value, N.value, s.value, t.value, pf)
      && FirstHolds(h, pkN.value, N.value, s.value, t.value, pf)
      && SecondHolds(h, pkN.value, N.value, s.value, t.value, pf)
      && !ThirdHolds(h, pkN.value, N.value, s.value, t.value, pf)
    ensures v == Accept <==>
      pkN.Some? && N.Some? && s.Some? && t.Some? && Complete(pf)
      && ArithmeticDefined(h, pkN.value, N.value, s.value, t.value, pf)
      && FirstHolds(h, pkN.value, N.value, s.value, t.value, pf)
      && SecondHolds(h, pkN.value, N.value, s.value, t.value, pf)
      && ThirdHolds(h, pkN.value, N.value, s.value, t.value, pf)
      && Abs(pf.Z1.value) <= Limit(pkN.value) && Abs(pf.Z2.value) <= Limit(pkN.value)
  {
    if pkN.None? || N.None? || s.None? || t.None? then Reject(NilArgument)
    else if !Complete(pf) then Reject(NilProofField)
    else
      var n, sv, tv, pk := N.value, s.value, t.value, pkN.value;
      if !ArithmeticDefined(h, pk, n, sv, tv, pf) then Reject(NilArithmetic)
      else if !FirstHolds(h, pk, n, sv, tv, pf) then Reject(FirstEquation)
      else if !SecondHolds(h, pk, n, sv, tv, pf) then Reject(SecondEquation)
      else if !ThirdHolds(h, pk, n, sv, tv, pf) then Reject(ThirdEquation)
      else
        var limit := Limit(pk);
        if Abs(pf.Z1.value) > limit then Reject(Z1OutOfRange)
        else if Abs(pf.Z2.value) > limit then Reject(Z2OutOfRange)
        else Accept
  }

  /** The bound is inclusive: a response of magnitude exactly the limit
      passes the range check, and one more is rejected. */
  lemma LimitInclusive(h: HashToN, pf: FactorProof, pkN: nat, N: nat, s: int, t: int)
    requires N > 0 && Complete(pf) && ArithmeticDefined(h, pkN, N, s, t, pf)
    requires FirstHolds(h, pkN, N, s, t, pf) && SecondHolds(h, pkN, N, s, t, pf) && ThirdHolds(h, pkN, N, s, t, pf)
    requires Abs(pf.Z2.value) <= Limit(pkN)
    ensures Abs(pf.Z1.value) == Limit(pkN) ==> FactorVerify(h, pf, Some(pkN), Some(N), Some(s), Some(t)) == Accept
    ensures Abs(pf.Z1.value) == Limit(pkN) + 1 ==>
      FactorVerify(h, pf, Some(pkN), Some(N), Some(s), Some(t)) == Reject(Z1OutOfRange)
  {
  }

  // ---------------------------------------------------------------------
  // Completeness, argued on exponent pairs
  // ---------------------------------------------------------------------

  /** The exponent identities behind the third equation: with `N0 = p*q`,
      `Q^z1 * t^v` and `T * R^e` are both `s^(q*a + e*N0) * t^(nu*a + r + e*sigma)`. */
  lemma ThirdExponents(p: int, q: int, N0: int, a: int, e: int, nu: int, r: int, sigma: int)
    requires N0 == p * q
    ensures q * (a + e * p) == q * a + e * N0
    ensures nu * (a + e * p) + (r + e * (sigma - nu * p)) == nu * a + r + e * sigma
  {
    assert q * (e * p) == e * (p * q);
    assert nu * (e * p) == e * (nu * p);
    assert e * (sigma - nu * p) == e * sigma - e * (nu * p);
  }

  /** `c * g^e` for `c = (a, x)` and `g = (p, mu)` is the pair `(a + e*p, x + e*mu)`. */
  lemma ResponsePair(s: int, t: int, a: int, x: int, p: int, mu: int, e: int, N: int)
    requires N > 0 && Unit(s, N) && Unit(t, N)
    ensures Unit(Rep(s, t, p, mu, N), N)
    ensures (Rep(s, t, a, x, N) * SPow(Rep(s, t, p, mu, N), e, N)) % N == Rep(s, t, a + e * p, x + e * mu, N)
  {
    RepPow(s, t, p, mu, e, N);
    RepMul(s, t, a, x, p * e, mu * e, N);
    assert p * e == e * p && mu * e == e * mu;
  }

  /** `g^k * t^v` for `g = (q, nu)` is the pair `(q*k, nu*k + v)`. */
  lemma PowTimesT(s: int, t: int, q: int, nu: int, k: int, v: int, N: int)
    requires N > 0 && Unit(s, N) && Unit(t, N)
    ensures Unit(Rep(s, t, q, nu, N), N)
    ensures (SPow(Rep(s, t, q, nu, N), k, N) * SPow(t, v, N)) % N == Rep(s, t, q * k, nu * k + v, N)
  {
    RepPow(s, t, q, nu, k, N);
    RepOfT(s, t, v, N);
    RepMul(s, t, q * k, nu * k, 0, v, N);
  }

  /** Both first-kind equalities: `s^z * t^w == C * G^e` for a commitment
      `C = (a, x)`, a base `G = (p, mu)` and responses `z = a + e*p`,
      `w = x + e*mu`. */
  lemma EquationHonest(s: int, t: int, C: int, G: int, a: int, x: int, p: int, mu: int, e: int, N: int)
    requires N > 0 && Unit(s, N) && Unit(t, N)
    requires C == Rep(s, t, a, x, N) && G == Rep(s, t, p, mu, N)
    ensures ExpMulExp(s, a + e * p, t, x + e * mu, N) == Some(Rep(s, t, a + e * p, x + e * mu, N))
    ensures MulExp(C, G, e, N) == Some(Rep(s, t, a + e * p, x + e * mu, N))
  {
    ResponsePair(s, t, a, x, p, mu, e, N);
  }

  /** The third equality: `Q^z1 * t^v == T * R^e` for `Q = (q, nu)`,
      `T = Q^a * t^r` and `R = s^N0 * t^sigma`, when `N0 = p*q`. */
  lemma ThirdHonest(s: int, t: int, Q: int, T: int, p: int, q: int, N0: int,
                    a: int, nu: int, r: int, sigma: int, e: int, N: int)
    requires N > 0 && Unit(s, N) && Unit(t, N) && N0 == p * q
    requires Q == Rep(s, t, q, nu, N) && T == Rep(s, t, q * a, nu * a + r, N)
    ensures ExpMulExp(s, N0, t, sigma, N) == Some(Rep(s, t, N0, sigma, N))
    ensures ExpMulExp(Q, a + e * p, t, r + e * (sigma - nu * p), N)
      == MulExp(T, Rep(s, t, N0, sigma, N), e, N)
      == Some(Rep(s, t, q * a + e * N0, nu * a + r + e * sigma, N))
  {
    var z1, v := a + e * p, r + e * (sigma - nu * p);
    PowTimesT(s, t, q, nu, z1, v, N);
    ResponsePair(s, t, q * a, nu * a + r, N0, sigma, e, N);
    ThirdExponents(p, q, N0, a, e, nu, r, sigma);
    assert nu * a + r + e * sigma == (nu * a + r) + e * sigma;
  }

  /** For bases invertible modulo `N`, generation succeeds and every
      commitment is the expected exponent pair; `T` is `(q*a, nu*a + r)`. */
  lemma HonestCommitments(h: HashToN, N0: int, p: int, q: int, N: int, s: int, t: int, rn: FactorNonces)
    requires N > 0 && Unit(s, N) && Unit(t, N)
    ensures FactorProve(h, N0, p, q, N, s, t, rn).Some?
    ensures var pf := FactorProve(h, N0, p, q, N, s, t, rn).value;
      && pf.P == Some(Rep(s, t, p, rn.mu, N)) && pf.Q == Some(Rep(s, t, q, rn.nu, N))
      && pf.A == Some(Rep(s, t, rn.a, rn.x, N)) && pf.B == Some(Rep(s, t, rn.b, rn.y, N))
      && pf.T == Some(Rep(s, t, q * rn.a, rn.nu * rn.a + rn.r, N))
  {
    PowTimesT(s, t, q, rn.nu, rn.a, rn.r, N);
  }

  /** For ring-Pedersen bases invertible modulo `N` and `N0 = p*q`, every
      value the verifier computes on the proof `FactorProve` builds is
      defined, and all three equalities hold. */
  lemma HonestEquations(h: HashToN, N0: nat, p: int, q: int, N: nat, s: int, t: int, rn: FactorNonces)
    requires N > 0 && Unit(s, N) && Unit(t, N) && N0 == p * q
    ensures FactorProve(h, N0, p, q, N, s, t, rn).Some?
    ensures var pf := FactorProve(h, N0, p, q, N, s, t, rn).value;
      && ArithmeticDefined(h, N0, N, s, t, pf)
      && FirstHolds(h, N0, N, s, t, pf) && SecondHolds(h, N0, N, s, t, pf) && ThirdHolds(h, N0, N, s, t, pf)
  {
    HonestCommitments(h, N0, p, q, N, s, t, rn);
    var pf := FactorProve(h, N0, p, q, N, s, t, rn).value;
    var e := ChallengeOf(h, N0, N, s, t, pf);
    EquationHonest(s, t, pf.A.value, pf.P.value, rn.a, rn.x, p, rn.mu, e, N);
    assert FirstHolds(h, N0, N, s, t, pf);
    EquationHonest(s, t, pf.B.value, pf.Q.value, rn.b, rn.y, q, rn.nu, e, N);
    assert SecondHolds(h, N0, N, s, t, pf);
    ThirdHonest(s, t, pf.Q.value, pf.T.value, p, q, N0, rn.a, rn.nu, rn.r, rn.sigma, e, N);
    assert ThirdHolds(h, N0, N, s, t, pf);
  }

  /** Completeness: for ring-Pedersen bases invertible modulo `N` and
      `N0 = p*q`, `FactorVerify` can only reject the proof `FactorProve`
      builds on the magnitude bounds, and accepts it when both responses are
      within them. */
  lemma FactorComplete(h: HashToN, N0: nat, p: int, q: int, N: nat, s: int, t: int, rn: FactorNonces)
    requires N > 0 && Unit(s, N) && Unit(t, N) && N0 == p * q
    ensures FactorProve(h, N0, p, q, N, s, t, rn).Some?
    ensures var pf := FactorProve(h, N0, p, q, N, s, t, rn).value;
      FactorVerify(h, pf, Some(N0), Some(N), Some(s), Some(t)) ==
        (if Abs(pf.Z1.value) > Limit(N0) then Reject(Z1OutOfRange)
         else if Abs(pf.Z2.value) > Limit(N0) then Reject(Z2OutOfRange)
         else Accept)
  {
    HonestEquations(h, N0, p, q, N, s, t, rn);
  }

  /** A nil argument or a nil proof field is rejected before any arithmetic. */
  lemma NilRejected(h: HashToN, pf: FactorProof, pkN: Option<nat>, N: Option<nat>, s: Option<int>, t: Option<int>)
    requires N.Some? ==> N.value > 0
    requires pkN.None? || N.None? || s.None? || t.None? || !Complete(pf)
    ensures FactorVerify(h, pf, pkN, N, s, t).Reject?
    ensures FactorVerify(h, pf, pkN, N, s, t).reason in {NilArgument, NilProofField}
  {
  }
}
