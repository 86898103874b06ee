/** The Paillier-Blum modulus proof of CGGMP (ePrint 2021/060): the
    Fiat-Shamir challenge, the choice of twist for each challenge
    (`DefineXi`), the prover's assembly loop, the verifier and the
    length-checked decoder of `crypto/paillier/mod_proof.go`. */
module ModulusProof {
  import opened Common
  import opened ModArith
  import opened Oracles
  import opened RootFinder
  import PP = ParameterProof

  /** `ModProof`: the witness `W` and the four fixed-size arrays. */
  datatype ModProof = ModProof(W: int, X: seq<int>, A: seq<bool>, B: seq<bool>, Z: seq<int>)

  /** Every array has its `PARAM_M` entries, as the Go array types guarantee. */
  predicate WellFormed(pf: ModProof)
  {
    |pf.X| == PP.ParamM && |pf.A| == PP.ParamM && |pf.B| == PP.ParamM && |pf.Z| == PP.ParamM
  }

  // ---------------------------------------------------------------------
  // Challenge and twist
  // ---------------------------------------------------------------------

  /** `ModChallenge(N, w)`: entry `i` hashes `(w, i)` into `[0, N)`; the
      challenge depends on nothing but `N` and `w`. */
  function ModChallenge(h: HashToN, N: int, w: int): (y: seq<int>)
    requires N > 0
    ensures |y| == PP.ParamM
    ensures forall i | 0 <= i < PP.ParamM :: y[i] == h(N, [w, i]) && 0 <= y[i] < N
  {
    seq(PP.ParamM, i requires 0 <= i < PP.ParamM => h(N, [w, i]))
  }

  /** The twisted value `(-1)^a * w^b * y mod N` that both the prover and
      the verifier compute. */
  function Twist(y: int, w: int, a: bool, b: bool, N: int): (t: int)
    requires N > 0
    ensures 0 <= t < N
  {
    var yw := if b then y * w else y;
    (if a then -yw else yw) % N
  }

  /** The twist undone: `(-1)^a * w^b * y` agrees with the twisted value. */
  lemma TwistMeaning(y: int, w: int, a: bool, b: bool, N: int)
    requires N > 0
    ensures Twist(y, w, a, b, N) == ((if a then -1 else 1) * (if b then w else 1) * y) % N
  {
    var yw := if b then y * w else y;
    assert (if b then w else 1) * y == yw;
    if a {
      assert (-1) * (if b then w else 1) * y == -yw;
    }
  }

  // ---------------------------------------------------------------------
  // DefineXi
  // ---------------------------------------------------------------------

  /** The sign and twist chosen for one challenge, with the fourth root. */
  datatype XiChoice = XiChoice(a: bool, b: bool, x: int)

  /** The fourth roots of the value twisted by `(a, b)`. */
  function TwistRoots(sqrt: SqrtFn, w: int, y: int, p: int, q: int, N: int, ga: int, gb: int,
                      a: bool, b: bool): seq<int>
    requires p > 0 && q > 0 && N > 0
  {
    CompMod4thRtSpec(sqrt, Twist(y, w, a, b, N), p, q, N, ga, gb)
  }

  /** The rank of `(a, b)` in the search order (F,F), (F,T), (T,F), (T,T). */
  function Rank(a: bool, b: bool): (k: nat)
    ensures k < 4
  {
    (if a then 2 else 0) + (if b then 1 else 0)
  }

  /** The search of `DefineXi`'s nested loop from rank `k` on: the first
      pair at rank `k` or later whose twisted value has a fourth root, with
      that root list's first entry; `None` when there is none. */
  function SearchFrom(sqrt: SqrtFn, w: int, y: int, p: int, q: int, N: int, ga: int, gb: int, k: nat): Option<XiChoice>
    requires p > 0 && q > 0 && N > 0 && k <= 4
    decreases 4 - k
  {
    if k == 4 then None
    else
      var roots := TwistRoots(sqrt, w, y, p, q, N, ga, gb, k >= 2, k % 2 == 1);
      if roots != [] then Some(XiChoice(k >= 2, k % 2 == 1, roots[0]))
      else SearchFrom(sqrt, w, y, p, q, N, ga, gb, k + 1)
  }

  /** What `DefineXi` returns: the search from the first pair; `None`
      stands for its panic. */
  function DefineXiSpec(sqrt: SqrtFn, w: int, y: int, p: int, q: int, N: int, ga: int, gb: int): Option<XiChoice>
    requires p > 0 && q > 0 && N > 0
  {
    SearchFrom(sqrt, w, y, p, q, N, ga, gb, 0)
  }

  /** The search from rank `k` finds the first pair at rank `k` or later
      that has a fourth root, and finds nothing exactly when none has. */
  lemma {:induction false} SearchFromChoice(sqrt: SqrtFn, w: int, y: int, p: int, q: int, N: int, ga: int, gb: int, k: nat)
    requires p > 0 && q > 0 && N > 0 && k <= 4
    ensures var r := SearchFrom(sqrt, w, y, p, q, N, ga, gb, k);
      && (r.None? <==> forall a: bool, b: bool :: k <= Rank(a, b) ==> TwistRoots(sqrt, w, y, p, q, N, ga, gb, a, b) == [])
      && (r.Some? ==>
            var roots := TwistRoots(sqrt, w, y, p, q, N, ga, gb, r.value.a, r.value.b);
            && k <= Rank(r.value.a, r.value.b) && roots != [] && r.value.x == roots[0]
            && forall a: bool, b: bool :: k <= Rank(a, b) < Rank(r.value.a, r.value.b) ==>
                 TwistRoots(sqrt, w, y, p, q, N, ga, gb, a, b) == [])
    decreases 4 - k
  {
    if k < 4 {
      var a0, b0 := k >= 2, k % 2 == 1;
      assert Rank(a0, b0) == k;
      forall a: bool, b: bool | Rank(a, b) == k ensures a == a0 && b == b0 {
      }
      SearchFromChoice(sqrt, w, y, p, q, N, ga, gb, k + 1);
    }
  }

  /** `DefineXi` panics exactly when no pair has a fourth root; otherwise it
      returns the first pair that has one, with that list's first root, and
      every pair before it in search order has none. */
  lemma DefineXiChoice(sqrt: SqrtFn, w: int, y: int, p: int, q: int, N: int, ga: int, gb: int)
    requires p > 0 && q > 0 && N > 0
    ensures var r := DefineXiSpec(sqrt, w, y, p, q, N, ga, gb);
      && (r.None? <==> forall a: bool, b: bool :: TwistRoots(sqrt, w, y, p, q, N, ga, gb, a, b) == [])
      && (r.Some? ==>
            var roots := TwistRoots(sqrt, w, y, p, q, N, ga, gb, r.value.a, r.value.b);
            && roots != [] && r.value.x == roots[0]
            && forall a: bool, b: bool :: Rank(a, b) < Rank(r.value.a, r.value.b) ==>
                 TwistRoots(sqrt, w, y, p, q, N, ga, gb, a, b) == [])
  {
    SearchFromChoice(sqrt, w, y, p, q, N, ga, gb, 0);
  }

  /** The converse, one pair at a time: the first pair in search order with
      a fourth root is chosen. */
  lemma DefineXiFirst(sqrt: SqrtFn, w: int, y: int, p: int, q: int, N: int, ga: int, gb: int, a: bool, b: bool)
    requires p > 0 && q > 0 && N > 0
    requires TwistRoots(sqrt, w, y, p, q, N, ga, gb, a, b) != []
    requires forall a': bool, b': bool :: Rank(a', b') < Rank(a, b) ==>
      TwistRoots(sqrt, w, y, p, q, N, ga, gb, a', b') == []
    ensures DefineXiSpec(sqrt, w, y, p, q, N, ga, gb) ==
      Some(XiChoice(a, b, TwistRoots(sqrt, w, y, p, q, N, ga, gb, a, b)[0]))
  {
    DefineXiChoice(sqrt, w, y, p, q, N, ga, gb);
    var r := DefineXiSpec(sqrt, w, y, p, q, N, ga, gb);
    assert r.Some?;
    assert Rank(r.value.a, r.value.b) == Rank(a, b);
  }

  /** ... and with no fourth root for any pair, `DefineXi` panics. */
  lemma DefineXiNone(sqrt: SqrtFn, w: int, y: int, p: int, q: int, N: int, ga: int, gb: int)
    requires p > 0 && q > 0 && N > 0
    requires forall a': bool, b': bool :: Rank(a', b') < 4 ==>
      TwistRoots(sqrt, w, y, p, q, N, ga, gb, a', b') == []
    ensures DefineXiSpec(sqrt, w, y, p, q, N, ga, gb) == None
  {
    DefineXiChoice(sqrt, w, y, p, q, N, ga, gb);
  }

  /** The first entry of a non-empty root list for a twist is a fourth root
      of the twisted value. */
  lemma TwistRootSound(sqrt: SqrtFn, w: int, y: int, p: int, q: int, N: int, ga: int, gb: int, a: bool, b: bool)
    requires p > 0 && q > 0 && N == p * q && ga * p + gb * q == 1
    ensures var rs := TwistRoots(sqrt, w, y, p, q, N, ga, gb, a, b);
      rs != [] ==> IsFourthRoot(rs[0], Twist(y, w, a, b, N), N)
  {
    CompMod4thRtSound(sqrt, Twist(y, w, a, b, N), p, q, N, ga, gb);
  }

  /** Generation and verification agree: the choice `DefineXi` returns
      passes the verifier's fourth-power check for that challenge. */
  lemma DefineXiSound(sqrt: SqrtFn, w: int, y: int, p: int, q: int, N: int, ga: int, gb: int)
    requires p > 0 && q > 0 && N == p * q && ga * p + gb * q == 1
    ensures var r := DefineXiSpec(sqrt, w, y, p, q, N, ga, gb);
      r.Some? ==> 0 <= r.value.x < N && ModPow(r.value.x, 4, N) == Twist(y, w, r.value.a, r.value.b, N)
  {
    var r := DefineXiSpec(sqrt, w, y, p, q, N, ga, gb);
    DefineXiChoice(sqrt, w, y, p, q, N, ga, gb);
    if r.Some? {
      TwistRootSound(sqrt, w, y, p, q, N, ga, gb, r.value.a, r.value.b);
      var t := Twist(y, w, r.value.a, r.value.b, N);
      ModUnique(t, N, 0, t);
    }
  }

  /** One iteration of `DefineXi`'s loop: `y_i` multiplied by `w` when `b`,
      negated when `a`, reduced modulo `N`, then its fourth roots. */
  method TwistedRoots(sqrt: SqrtFn, w: int, y: int, p: int, q: int, N: int, ga: int, gb: int, a: bool, b: bool)
    returns (roots: seq<int>)
    requires p > 0 && q > 0 && N > 0
    ensures roots == TwistRoots(sqrt, w, y, p, q, N, ga, gb, a, b)
  {
    var yy := y;
    if b {
      yy := yy * w;
    }
    if a {
      yy := -yy;
    }
    yy := yy % N;
    assert yy == Twist(y, w, a, b, N);
    roots := CompMod4thRt(sqrt, yy, p, q, N, ga, gb);
  }

  /** `DefineXi(w, y_i, p, q, N)`: the nested loop over `a` and then `b`,
      returning at the first twisted value that has a fourth root; `None`
      stands for the panic "no root found". */
  method DefineXi(sqrt: SqrtFn, w: int, y: int, p: int, q: int, N: int, ga: int, gb: int)
    returns (r: Option<XiChoice>)
    requires p > 0 && q > 0 && N > 0
    ensures r == DefineXiSpec(sqrt, w, y, p, q, N, ga, gb)
  {
    var choices := [false, true];
    var i := 0;
    while i < 2
      invariant 0 <= i <= 2
      invariant forall a: bool, b: bool :: Rank(a, b) < 2 * i ==>
        TwistRoots(sqrt, w, y, p, q, N, ga, gb, a, b) == []
    {
      var j := 0;
      while j < 2
        invariant 0 <= j <= 2
        invariant forall a: bool, b: bool :: Rank(a, b) < 2 * i + j ==>
          TwistRoots(sqrt, w, y, p, q, N, ga, gb, a, b) == []
      {
        var a, b := choices[i], choices[j];
        assert Rank(a, b) == 2 * i + j;
        var roots := TwistedRoots(sqrt, w, y, p, q, N, ga, gb, a, b);
        if roots != [] {
          DefineXiFirst(sqrt, w, y, p, q, N, ga, gb, a, b);
          return Some(XiChoice(a, b, roots[0]));
        }
        j := j + 1;
      }
      i := i + 1;
    }
    DefineXiNone(sqrt, w, y, p, q, N, ga, gb);
    return None;
  }

  // ---------------------------------------------------------------------
  // Verification
  // ---------------------------------------------------------------------

  /** `z_i^N mod N == y_i`. */
  predicate ZHolds(pf: ModProof, y: seq<int>, N: nat, i: nat)
    requires WellFormed(pf) && |y| == PP.ParamM && N > 0 && i < PP.ParamM
  {
    ModPow(pf.Z[i], N, N) == y[i]
  }

  /** `x_i^4 mod N == (-1)^a_i * w^b_i * y_i mod N`. */
  predicate XHolds(pf: ModProof, y: seq<int>, N: nat, i: nat)
    requires WellFormed(pf) && |y| == PP.ParamM && N > 0 && i < PP.ParamM
  {
    ModPow(pf.X[i], 4, N) == Twist(y[i], pf.W, pf.A[i], pf.B[i], N)
  }

  /** Both checks hold at every index below `k`. */
  predicate PassesBelow(pf: ModProof, y: seq<int>, N: nat, k: nat)
    requires WellFormed(pf) && |y| == PP.ParamM && N > 0 && k <= PP.ParamM
  {
    forall i | 0 <= i < k :: ZHolds(pf, y, N, i) && XHolds(pf, y, N, i)
  }

  /** The acceptance condition of `ModVerify`: `N` odd, not judged prime,
      and both checks at all `PARAM_M` indices. */
  predicate ModAccepts(h: HashToN, isPrime: PrimalityTest, pf: ModProof, N: nat)
    requires WellFormed(pf)
  {
    N % 2 == 1 && !isPrime(N) && PassesBelow(pf, ModChallenge(h, N, pf.W), N, PP.ParamM)
  }

  /** Why `ModVerify` rejects; an index names the first failing entry. */
  datatype ModError = ModulusTooSmall | EvenModulus | PrimeModulus | ZCheckFailed(index: nat) | XCheckFailed(index: nat)

  /** `pf.ModVerify(N)`: parity first, then primality, then the two checks
      index by index, stopping at the first failure. */
  method ModVerify(h: HashToN, isPrime: PrimalityTest, pf: ModProof, N: nat) returns (v: Verdict<ModError>)
    requires WellFormed(pf)
    ensures v.Accept? <==> ModAccepts(h, isPrime, pf, N)
    ensures v != Reject(ModulusTooSmall)
    ensures v == Reject(EvenModulus) <==> N % 2 != 1
    ensures v == Reject(PrimeModulus) <==> N % 2 == 1 && isPrime(N)
    ensures v.Reject? && v.reason.ZCheckFailed? ==>
      var i := v.reason.index;
      && N % 2 == 1 && !isPrime(N) && i < PP.ParamM
      && var y := ModChallenge(h, N, pf.W);
         PassesBelow(pf, y, N, i) && !ZHolds(pf, y, N, i)
    ensures v.Reject? && v.reason.XCheckFailed? ==>
      var i := v.reason.index;
      && N % 2 == 1 && !isPrime(N) && i < PP.ParamM
      && var y := ModChallenge(h, N, pf.W);
         PassesBelow(pf, y, N, i) && ZHolds(pf, y, N, i) && !XHolds(pf, y, N, i)
  {
    var rem2 := N % 2;
    if rem2 != 1 {
      return Reject(EvenModulus);
    }
    if isPrime(N) {
      return Reject(PrimeModulus);
    }
    var y := ModChallenge(h, N, pf.W);
    var i := 0;
    while i < PP.ParamM
      invariant 0 <= i <= PP.ParamM
      invariant PassesBelow(pf, y, N, i)
    {
      var ziN := ModPow(pf.Z[i], N, N);
      if ziN != y[i] {
        assert !ZHolds(pf, y, N, i);
        return Reject(ZCheckFailed(i));
      }
      var xi4 := ModPow(pf.X[i], 4, N);
      var yy := y[i];
      if pf.B[i] {
        yy := yy * pf.W;
      }
      if pf.A[i] {
        yy := -yy;
      }
      yy := yy % N;
      assert yy == Twist(y[i], pf.W, pf.A[i], pf.B[i], N);
      if xi4 != yy {
        assert !XHolds(pf, y, N, i);
        return Reject(XCheckFailed(i));
      }
      i := i + 1;
    }
    return Accept;
  }

  // ---------------------------------------------------------------------
  // Generation
  // ---------------------------------------------------------------------

  /** Why the prover cannot finish: `DefineXi` panics at an index, or
      `ModInverse(N, phiN)` is nil and the following `Exp` panics. */
  datatype ProveError = NoRoot(index: nat) | NoInverse

  /** The proof the assembly loop of `ModProof()` builds from `w`: entry `i`
      holds `DefineXi`'s choice for `y_i` and `z_i = y_i^(N^-1 mod phiN) mod N`. */
  predicate Honest(sqrt: SqrtFn, h: HashToN, N: int, phiN: int, p: int, q: int, ga: int, gb: int,
                   w: int, pf: ModProof)
    requires p > 0 && q > 0 && N > 0 && phiN > 0
  {
    && WellFormed(pf) && pf.W == w && ModInverse(N, phiN).Some?
    && var y := ModChallenge(h, N, w);
       forall i | 0 <= i < PP.ParamM ::
         && DefineXiSpec(sqrt, w, y[i], p, q, N, ga, gb) == Some(XiChoice(pf.A[i], pf.B[i], pf.X[i]))
         && pf.Z[i] == ModPow(y[i], ModInverse(N, phiN).value, N)
  }

  /** The assembly loop of `privateKey.ModProof()`, with the random `w`
      (Jacobi symbol -1 modulo `N`) given as a parameter. */
  method ModProve(sqrt: SqrtFn, h: HashToN, N: int, phiN: int, p: int, q: int, ga: int, gb: int, w: int)
    returns (r: Result<ModProof, ProveError>)
    requires p > 0 && q > 0 && N > 0 && phiN > 0
    ensures r.Success? ==> Honest(sqrt, h, N, phiN, p, q, ga, gb, w, r.value)
    ensures r.Failure? && r.error.NoRoot? ==>
      var i := r.error.index;
      var y := ModChallenge(h, N, w);
      && i < PP.ParamM && DefineXiSpec(sqrt, w, y[i], p, q, N, ga, gb).None?
      && (i > 0 ==> ModInverse(N, phiN).Some?)
      && forall j | 0 <= j < i :: DefineXiSpec(sqrt, w, y[j], p, q, N, ga, gb).Some?
    ensures r == Failure(NoInverse) ==>
      ModInverse(N, phiN).None? && DefineXiSpec(sqrt, w, ModChallenge(h, N, w)[0], p, q, N, ga, gb).Some?
  {
    var y := ModChallenge(h, N, w);
    // Go's `[PARAM_M]` arrays are values, zero-initialised and filled by index.
    var x: seq<int> := seq(PP.ParamM, _ => 0);
    var a: seq<bool> := seq(PP.ParamM, _ => false);
    var b: seq<bool> := seq(PP.ParamM, _ => false);
    var z: seq<int> := seq(PP.ParamM, _ => 0);
    var i := 0;
    while i < PP.ParamM
      invariant 0 <= i <= PP.ParamM && |x| == |a| == |b| == |z| == PP.ParamM
      invariant i > 0 ==> ModInverse(N, phiN).Some?
      invariant forall j | 0 <= j < i ::
        && DefineXiSpec(sqrt, w, y[j], p, q, N, ga, gb) == Some(XiChoice(a[j], b[j], x[j]))
        && z[j] == ModPow(y[j], ModInverse(N, phiN).value, N)
    {
      var choice := DefineXi(sqrt, w, y[i], p, q, N, ga, gb);
      if choice.None? {
        return Failure(NoRoot(i));
      }
      x, a, b := x[i := choice.value.x], a[i := choice.value.a], b[i := choice.value.b];
      var inv := ModInverse(N, phiN);
      if inv.None? {
        return Failure(NoInverse);
      }
      z := z[i := ModPow(y[i], inv.value, N)];
      i := i + 1;
    }
    return Success(ModProof(w, x, a, b, z));
  }

  /** `z^N == y` when `z = y^d` with `N*d == 1 (mod phiN)` and `y^phiN == 1`. */
  lemma ZCheckComplete(y: int, N: nat, phiN: int, d: nat)
    requires N > 0 && phiN > 1 && 0 <= y < N
    requires (N * d) % phiN == 1 && ModPow(y, phiN, N) == 1 % N
    ensures ModPow(ModPow(y, d, N), N, N) == y
  {
    var k := (N * d) / phiN;
    assert d * N == k * phiN + 1;
    PowMod(Pow(y, d), N, N);
    PowMul(y, d, N);
    PowAdd(y, k * phiN, 1);
    assert k * phiN == phiN * k;
    PowMul(y, phiN, k);
    PowOfOne(Pow(y, phiN), k, N);
    assert Pow(y, 1) == y;
    MulModLeft(Pow(Pow(y, phiN), k), y, N);
    MulModLeft(1, y, N);
    ModUnique(y, N, 0, y);
  }

  /** Completeness: with `N = p*q` odd and not judged prime, Bezout
      coefficients for `p`, `q`, `phiN > 1`, and every challenge a unit
      (`y_i^phiN == 1 mod N`, Euler's theorem), the proof the prover builds
      is accepted. */
  lemma ModComplete(sqrt: SqrtFn, h: HashToN, isPrime: PrimalityTest, N: nat, phiN: int,
                    p: int, q: int, ga: int, gb: int, w: int, pf: ModProof)
    requires p > 0 && q > 0 && N == p * q && ga * p + gb * q == 1 && phiN > 1
    requires N % 2 == 1 && !isPrime(N)
    requires Honest(sqrt, h, N, phiN, p, q, ga, gb, w, pf)
    requires forall i | 0 <= i < PP.ParamM :: ModPow(ModChallenge(h, N, w)[i], phiN, N) == 1 % N
    ensures ModAccepts(h, isPrime, pf, N)
  {
    var y := ModChallenge(h, N, w);
    var d := ModInverse(N, phiN).value;
    assert (N * d) % phiN == 1 by {
      ModUnique(1, phiN, 0, 1);
    }
    forall i | 0 <= i < PP.ParamM ensures ZHolds(pf, y, N, i) && XHolds(pf, y, N, i) {
      ZCheckComplete(y[i], N, phiN, d);
      DefineXiSound(sqrt, w, y[i], p, q, N, ga, gb);
    }
  }

  // ---------------------------------------------------------------------
  // The modulus 1
  // ---------------------------------------------------------------------

  /** As written, `ModVerify` accepts every proof for `N = 1`: 1 is odd,
      `ProbablyPrime` judges it not prime, every challenge is 0 and every
      power modulo 1 is 0, so both checks hold. */
  lemma AcceptsModulusOne(h: HashToN, isPrime: PrimalityTest, pf: ModProof)
    requires WellFormed(pf) && !isPrime(1)
    ensures ModAccepts(h, isPrime, pf, 1)
  {
    var y := ModChallenge(h, 1, pf.W);
    forall i | 0 <= i < PP.ParamM ensures ZHolds(pf, y, 1, i) && XHolds(pf, y, 1, i) {
    }
  }

  /** A composite number: it has a divisor strictly between 1 and itself. */
  predicate Composite(n: int)
  {
    exists d :: 1 < d < n && n % d == 0
  }

  /** The verifier's stated precondition "N is an odd composite number"
      with the missing `N > 1` check added: the first check rejects `N <= 1`
      as well as even `N`. */
  predicate ModAcceptsOddComposite(h: HashToN, isPrime: PrimalityTest, pf: ModProof, N: nat)
    requires WellFormed(pf)
  {
    N > 1 && ModAccepts(h, isPrime, pf, N)
  }

  /** With a primality test that is right on numbers above 1, an accepted
      modulus is odd and composite; the honest proof is still accepted. */
  lemma OddCompositeSound(h: HashToN, isPrime: PrimalityTest, pf: ModProof, N: nat)
    requires WellFormed(pf)
    requires forall n :: n > 1 ==> (isPrime(n) <==> !Composite(n))
    ensures ModAcceptsOddComposite(h, isPrime, pf, N) ==> N % 2 == 1 && Composite(N)
    ensures ModAcceptsOddComposite(h, isPrime, pf, 1) == false
  {
  }

  /** `ModVerify` with the `N > 1` check: rejects `N <= 1` for that reason,
      and otherwise decides as the code as written does. */
  method ModVerifyOddComposite(h: HashToN, isPrime: PrimalityTest, pf: ModProof, N: nat)
    returns (v: Verdict<ModError>)
    requires WellFormed(pf)
    ensures v.Accept? <==> ModAcceptsOddComposite(h, isPrime, pf, N)
    ensures v == Reject(ModulusTooSmall) <==> N <= 1
    ensures N > 1 ==> (v == Reject(EvenModulus) <==> N % 2 != 1)
  {
    if N <= 1 {
      return Reject(ModulusTooSmall);
    }
    v := ModVerify(h, isPrime, pf, N);
  }

  // ---------------------------------------------------------------------
  // Decoding
  // ---------------------------------------------------------------------

  /** Why `UnmarshalModProof` fails, in the order it checks. */
  datatype DecodeError = EmptyW | BadXCount(got: nat) | BadACount(got: nat) | BadBCount(got: nat) | BadZCount(got: nat)

  /** `UnmarshalModProof(ws, xs, as, bs, zs)`: the first failing length
      check, or the proof with `W` and every `X[i]`, `Z[i]` decoded big-endian
      and `A`, `B` copied entry for entry. */
  method UnmarshalModProof(ws: seq<Byte>, xs: seq<seq<Byte>>, aFlags: seq<bool>, bFlags: seq<bool>, zs: seq<seq<Byte>>)
    returns (r: Result<ModProof, DecodeError>)
    ensures r == Failure(EmptyW) <==> |ws| == 0
    ensures r == Failure(BadXCount(|xs|)) <==> |ws| > 0 && |xs| != PP.ParamM
    ensures r == Failure(BadACount(|aFlags|)) <==> |ws| > 0 && |xs| == PP.ParamM && |aFlags| != PP.ParamM
    ensures r == Failure(BadBCount(|bFlags|)) <==> |ws| > 0 && |xs| == PP.ParamM && |aFlags| == PP.ParamM && |bFlags| != PP.ParamM
    ensures r == Failure(BadZCount(|zs|)) <==>
      |ws| > 0 && |xs| == PP.ParamM && |aFlags| == PP.ParamM && |bFlags| == PP.ParamM && |zs| != PP.ParamM
    ensures r.Success? <==> |ws| > 0 && |xs| == PP.ParamM && |aFlags| == PP.ParamM && |bFlags| == PP.ParamM && |zs| == PP.ParamM
    ensures r.Success? ==>
      && WellFormed(r.value) && r.value.W == BytesToNat(ws) && r.value.A == aFlags && r.value.B == bFlags
      && (forall i | 0 <= i < PP.ParamM :: r.value.X[i] == BytesToNat(xs[i]) && r.value.Z[i] == BytesToNat(zs[i]))
  {
    if |ws| == 0 {
      return Failure(EmptyW);
    }
    if |xs| != PP.ParamM {
      return Failure(BadXCount(|xs|));
    }
    if |aFlags| != PP.ParamM {
      return Failure(BadACount(|aFlags|));
    }
    if |bFlags| != PP.ParamM {
      return Failure(BadBCount(|bFlags|));
    }
    if |zs| != PP.ParamM {
      return Failure(BadZCount(|zs|));
    }
    var W := BytesToNat(ws);
    var x := BytesToNats(xs);
    var z := BytesToNats(zs);
    var X := new int[PP.ParamM];
    var A := new bool[PP.ParamM];
    var B := new bool[PP.ParamM];
    var Z := new int[PP.ParamM];
    for i := 0 to PP.ParamM
      invariant forall j | 0 <= j < i :: X[j] == x[j] && A[j] == aFlags[j] && B[j] == bFlags[j] && Z[j] == z[j]
    {
      X[i] := x[i];
      A[i] := aFlags[i];
      B[i] := bFlags[i];
      Z[i] := z[i];
    }
    assert A[..] == aFlags && B[..] == bFlags;
    return Success(ModProof(W, X[..], A[..], B[..], Z[..]));
  }
}
