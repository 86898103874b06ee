/** The ring-Pedersen parameter proof of CGGMP (ePrint 2021/060), as in
    `crypto/paillier/param_proof.go`: 80 commitments `A_i = t^a_i`, a
    challenge of 80 bits, responses `z_i = a_i + e_i*lambda mod phiN`, the
    verifier and the length-checked decoder. */
module ParameterProof {
  import opened Common
  import opened ModArith
  import opened Oracles

  /** `PARAM_M`: the number of commitments, challenge bits and responses
      here, and of challenges and entries in the modulus proof. */
  const ParamM: nat := 80

  /** `ParamProof`: commitments and responses; an entry may be nil. */
  datatype ParamProof = ParamProof(A: seq<Option<nat>>, Z: seq<Option<nat>>)

  predicate WellFormed(pf: ParamProof)
  {
    |pf.A| == ParamM && |pf.Z| == ParamM
  }

  // ---------------------------------------------------------------------
  // Bits of the challenge
  // ---------------------------------------------------------------------

  /** `b.Bit(i)` of a non-negative integer. */
  function Bit(b: nat, i: nat): (r: nat)
    ensures r == 0 || r == 1
    decreases i
  {
    if i == 0 then b % 2 else Bit(b / 2, i - 1)
  }

  /** `2^k`, positive. */
  function Pow2(k: nat): (r: int)
    ensures r >= 1
  {
    if k == 0 then 1 else 2 * Pow2(k - 1)
  }

  /** The value of an LSB-first bit string. */
  function FromBits(bits: seq<int>): int
  {
    if bits == [] then 0 else bits[0] + 2 * FromBits(bits[1..])
  }

  /** The low `k` bits of `b`, least significant first. */
  function LowBits(b: nat, k: nat): (bits: seq<int>)
    ensures |bits| == k
  {
    seq(k, i requires 0 <= i < k => Bit(b, i))
  }

  lemma SplitMod(b: nat, m: nat)
    requires m > 0
    ensures b % (2 * m) == b % 2 + 2 * ((b / 2) % m)
  {
    var h, r := b / 2, (b / 2) % m;
    var Q := h / m;
    assert h == m * Q + r;
    assert b == 2 * h + b % 2;
    assert b == (2 * m) * Q + (2 * r + b % 2) by {
      assert 2 * h == (2 * m) * Q + 2 * r;
    }
    ModUnique(b, 2 * m, Q, 2 * r + b % 2);
  }

  /** Reading the low `k` bits back gives `b mod 2^k`: the bits determine
      the challenge's low part and nothing is lost or reordered. */
  lemma {:induction false} LowBitsValue(b: nat, k: nat)
    ensures FromBits(LowBits(b, k)) == b % Pow2(k)
    decreases k
  {
    if k == 0 {
      assert LowBits(b, 0) == [];
    } else {
      var bits := LowBits(b, k);
      assert bits[1..] == LowBits(b / 2, k - 1);
      LowBitsValue(b / 2, k - 1);
      SplitMod(b, Pow2(k - 1));
    }
  }

  /** `BytesToBits(b)`: entry `i` of the 80 is bit `i` of `b`, least
      significant first, so each entry is 0 or 1 and together they spell
      `b mod 2^80`. */
  method BytesToBits(b: nat) returns (e: seq<int>)
    ensures e == LowBits(b, ParamM)
    ensures forall i | 0 <= i < ParamM :: e[i] == 0 || e[i] == 1
    ensures FromBits(e) == b % Pow2(ParamM)
  {
    var arr := new int[ParamM];
    for i := 0 to ParamM
      invariant forall j | 0 <= j < i :: arr[j] == Bit(b, j)
    {
      arr[i] := Bit(b, i);
    }
    e := arr[..];
    LowBitsValue(b, ParamM);
  }

  /** Splitting `b` as `2^k * c + lo` with `lo < 2^k` splits its bits: the
      low `k` bits are those of `lo`, the rest those of `c`. */
  lemma {:induction false} BitSplit(b: nat, c: nat, lo: nat, k: nat, i: nat)
    requires b == Pow2(k) * c + lo && lo < Pow2(k)
    ensures Bit(b, k + i) == Bit(c, i)
    ensures i < k ==> Bit(b, i) == Bit(lo, i)
    decreases k
  {
    if k > 0 {
      var half := Pow2(k - 1) * c;
      assert b == 2 * half + lo;
      assert b / 2 == half + lo / 2 && b % 2 == lo % 2 by {
        ModUnique(b, 2, half + lo / 2, lo % 2);
      }
      BitSplit(b / 2, c, lo / 2, k - 1, i);
      if 0 < i < k {
        BitSplit(b / 2, c, lo / 2, k - 1, i - 1);
      }
      assert k + i == (k - 1 + i) + 1;
    }
  }

  /** The two lowest bits on each side of a split of `b` at bit `k`, and
      the two at `2k`. */
  lemma SplitBits(b: nat, c: nat, lo: nat, k: nat)
    requires b == Pow2(k) * c + lo && lo < Pow2(k) && k >= 2
    ensures Bit(b, 0) == Bit(lo, 0) && Bit(b, 1) == Bit(lo, 1)
    ensures Bit(b, k) == Bit(c, 0) && Bit(b, k + 1) == Bit(c, 1)
    ensures Bit(b, k + k) == Bit(c, k) && Bit(b, k + k + 1) == Bit(c, k + 1)
  {
    BitSplit(b, c, lo, k, 0);
    BitSplit(b, c, lo, k, 1);
    BitSplit(b, c, lo, k, k);
    BitSplit(b, c, lo, k, k + 1);
  }

  /** Bits of a value whose two lowest `k`-bit digits are 1 and 2. */
  lemma BitsOfDigits(b0: nat, b1: nat, b2: nat, k: nat)
    requires b0 == Pow2(k) * b1 + 1 && b1 == Pow2(k) * b2 + 2 && k >= 2 && 2 < Pow2(k)
    ensures Bit(b0, 0) == 1 && Bit(b0, 1) == 0 && Bit(b0, k) == 0 && Bit(b0, k + 1) == 1
    ensures Bit(b0, k + k) == Bit(b2, 0) && Bit(b0, k + k + 1) == Bit(b2, 1)
  {
    SplitBits(b0, b1, 1, k);
    SplitBits(b1, b2, 2, k);
    assert Bit(1, 0) == 1 && Bit(1, 1) == 0 && Bit(2, 0) == 0 && Bit(2, 1) == 1;
  }

  /** The bit vector of the unit test: 0x0f0e0d0c0b0a090807060504030201 has
      bits 0, 9, 16, 17 set and bits 1, 8 clear. */
  lemma BitsVector()
    ensures var e := LowBits(0x0f0e0d0c0b0a090807060504030201, ParamM);
      && |e| == 80 && e[0] == 1 && e[1] == 0 && e[8] == 0 && e[9] == 1 && e[16] == 1 && e[17] == 1
  {
    assert Pow2(8) == 256;
    BitsOfDigits(0x0f0e0d0c0b0a090807060504030201, 0x0f0e0d0c0b0a0908070605040302,
      0x0f0e0d0c0b0a09080706050403, 8);
    SplitBits(0x0f0e0d0c0b0a09080706050403, 0x0f0e0d0c0b0a090807060504, 3, 8);
  }

  // ---------------------------------------------------------------------
  // Challenge
  // ---------------------------------------------------------------------

  /** `ParamChallenge(N, s, t, A)`: the low 80 bits of
      `SHA512_256i(N, s, t, SHA512_256i(A...))`. */
  function ParamChallenge(sha: Digest, N: int, s: int, t: int, A: seq<int>): (e: seq<int>)
    ensures |e| == ParamM
    ensures forall i | 0 <= i < ParamM :: e[i] == 0 || e[i] == 1
    ensures FromBits(e) == sha([N, s, t, sha(A)]) % Pow2(ParamM)
  {
    var digest := sha([N, s, t, sha(A)]);
    LowBitsValue(digest, ParamM);
    LowBits(digest, ParamM)
  }

  // ---------------------------------------------------------------------
  // Generation
  // ---------------------------------------------------------------------

  /** The values of entries known to be non-nil. */
  function Values(xs: seq<Option<nat>>): (vs: seq<int>)
    requires forall i | 0 <= i < |xs| :: xs[i].Some?
    ensures |vs| == |xs| && forall i | 0 <= i < |xs| :: vs[i] == xs[i].value
  {
    seq(|xs|, i requires 0 <= i < |xs| => xs[i].value)
  }

  /** `privateKey.ParamProof(s, t, lambda)` with the random `a_i` given as
      parameters: `A_i = t^a_i mod N` and `z_i = a_i + e_i*lambda mod phiN`. */
  method ParamProve(sha: Digest, N: int, phiN: int, s: int, t: int, lambda: int, a: seq<nat>)
    returns (pf: ParamProof)
    requires N > 0 && phiN > 0 && |a| == ParamM
    ensures WellFormed(pf)
    ensures forall i | 0 <= i < ParamM :: pf.A[i] == Some(ModPow(t, a[i], N)) && pf.Z[i].Some?
    ensures var e := ParamChallenge(sha, N, s, t, Values(pf.A));
      forall i | 0 <= i < ParamM :: pf.Z[i].value == (a[i] + e[i] * lambda) % phiN
  {
    var A := Commitments(N, t, a);
    var e := ParamChallenge(sha, N, s, t, Values(A));
    var z := Responses(a, e, lambda, phiN);
    pf := ParamProof(A, z);
  }

  /** The commitment loop of `ParamProof`: `A_i = t^a_i mod N`. */
  method Commitments(N: int, t: int, a: seq<nat>) returns (A: seq<Option<nat>>)
    requires N > 0 && |a| == ParamM
    ensures |A| == ParamM
    ensures forall i | 0 <= i < ParamM :: A[i] == Some(ModPow(t, a[i], N))
  {
    var arr := new Option<nat>[ParamM];
    for i := 0 to ParamM
      invariant forall j | 0 <= j < i :: arr[j] == Some(ModPow(t, a[j], N))
    {
      arr[i] := Some(ModPow(t, a[i], N));
    }
    A := arr[..];
  }

  /** The response loop of `ParamProof`: `z_i = a_i + (e_i*lambda mod phiN)
      mod phiN`, which is `a_i + e_i*lambda` reduced modulo `phiN`. */
  method Responses(a: seq<nat>, e: seq<int>, lambda: int, phiN: int) returns (z: seq<Option<nat>>)
    requires phiN > 0 && |a| == ParamM && |e| == ParamM
    ensures |z| == ParamM
    ensures forall i | 0 <= i < ParamM :: z[i].Some? && z[i].value == (a[i] + e[i] * lambda) % phiN
  {
    var arr := new Option<nat>[ParamM];
    for i := 0 to ParamM
      invariant forall j | 0 <= j < i :: arr[j].Some? && arr[j].value == (a[j] + e[j] * lambda) % phiN
    {
      var ez := (e[i] * lambda) % phiN;
      AddModRight(a[i], e[i] * lambda, phiN);
      arr[i] := Some((a[i] + ez) % phiN);
    }
    z := arr[..];
  }

  lemma AddModRight(x: int, y: int, m: int)
    requires m > 0
    ensures (x + y % m) % m == (x + y) % m
  {
    var k := y / m;
    assert x + y == (x + y % m) + k * m;
    ModAddMultiple(x + y % m, k, m);
  }

  // ---------------------------------------------------------------------
  // Verification
  // ---------------------------------------------------------------------

  /** No argument and no proof entry is nil. */
  predicate NoneNil(N: Option<nat>, s: Option<nat>, t: Option<nat>, pf: ParamProof)
    requires WellFormed(pf)
  {
    && N.Some? && s.Some? && t.Some?
    && (forall i | 0 <= i < ParamM :: pf.A[i].Some?)
    && (forall i | 0 <= i < ParamM :: pf.Z[i].Some?)
  }

  /** `t^z_i mod N == A_i * s^e_i mod N`. */
  predicate IndexHolds(N: nat, s: nat, t: nat, A: nat, z: nat, e: int)
    requires N > 0 && (e == 0 || e == 1)
  {
    ModPow(t, z, N) == (A * ModPow(s, e, N)) % N
  }

  /** The acceptance condition of `ParamVerify`. */
  predicate ParamAccepts(sha: Digest, N: Option<nat>, s: Option<nat>, t: Option<nat>, pf: ParamProof)
    requires WellFormed(pf) && (N.Some? ==> N.value > 0)
  {
    && NoneNil(N, s, t, pf)
    && var e := ParamChallenge(sha, N.value, s.value, t.value, Values(pf.A));
       forall i | 0 <= i < ParamM ::
         IndexHolds(N.value, s.value, t.value, pf.A[i].value, pf.Z[i].value, e[i])
  }

  /** `pf.ParamVerify(N, s, t)`: false on any nil, otherwise the equation at
      every index, stopping at the first that fails. */
  method ParamVerify(sha: Digest, pf: ParamProof, N: Option<nat>, s: Option<nat>, t: Option<nat>)
    returns (ok: bool)
    requires WellFormed(pf) && (N.Some? ==> N.value > 0)
    ensures ok <==> ParamAccepts(sha, N, s, t, pf)
    ensures !NoneNil(N, s, t, pf) ==> !ok
  {
    if N.None? || s.None? || t.None? {
      return false;
    }
    var i := 0;
    while i < ParamM
      invariant 0 <= i <= ParamM
      invariant forall j | 0 <= j < i :: pf.A[j].Some?
    {
      if pf.A[i].None? {
        return false;
      }
      i := i + 1;
    }
    i := 0;
    while i < ParamM
      invariant 0 <= i <= ParamM
      invariant forall j | 0 <= j < i :: pf.Z[j].Some?
    {
      if pf.Z[i].None? {
        return false;
      }
      i := i + 1;
    }
    var n, sv, tv := N.value, s.value, t.value;
    var e := ParamChallenge(sha, n, sv, tv, Values(pf.A));
    i := 0;
    while i < ParamM
      invariant 0 <= i <= ParamM
      invariant forall j | 0 <= j < i :: IndexHolds(n, sv, tv, pf.A[j].value, pf.Z[j].value, e[j])
    {
      var tzi := ModPow(tv, pf.Z[i].value, n);
      var aisei := (pf.A[i].value * ModPow(sv, e[i], n)) % n;
      if tzi != aisei {
        assert !IndexHolds(n, sv, tv, pf.A[i].value, pf.Z[i].value, e[i]);
        return false;
      }
      i := i + 1;
    }
    return true;
  }

  /** The test that clears `A[42]`: a proof with a nil commitment is rejected. */
  lemma NilCommitmentRejected(sha: Digest, pf: ParamProof, N: Option<nat>, s: Option<nat>, t: Option<nat>)
    requires WellFormed(pf) && (N.Some? ==> N.value > 0) && pf.A[42].None?
    ensures !ParamAccepts(sha, N, s, t, pf)
  {
  }

  // ---------------------------------------------------------------------
  // Completeness
  // ---------------------------------------------------------------------

  /** Powers of `t` depend only on the exponent modulo an order of `t`. */
  lemma ExpReduce(t: int, x: nat, phiN: int, N: int)
    requires N > 0 && phiN > 0 && ModPow(t, phiN, N) == 1 % N
    ensures ModPow(t, x % phiN, N) == ModPow(t, x, N)
  {
    var k := x / phiN;
    var r := x % phiN;
    assert x == r + phiN * k;
    PowAdd(t, r, phiN * k);
    PowMul(t, phiN, k);
    PowOfOne(Pow(t, phiN), k, N);
    MulMod(Pow(t, r), Pow(Pow(t, phiN), k), N);
    MulMod(Pow(t, r), 1, N);
    ModMod(Pow(t, r), N);
  }

  /** `A * s^e == t^(a + e*lambda)` modulo `N` when `A = t^a` and `s = t^lambda`. */
  lemma CommitmentTimesChallenge(t: int, a: nat, lambda: nat, e: nat, N: int)
    requires N > 0
    ensures (ModPow(t, a, N) * ModPow(ModPow(t, lambda, N), e, N)) % N == ModPow(t, a + e * lambda, N)
  {
    PowMod(Pow(t, lambda), e, N);
    PowMul(t, lambda, e);
    assert lambda * e == e * lambda;
    MulMod(Pow(t, a), Pow(t, e * lambda), N);
    PowAdd(t, a, e * lambda);
  }

  /** Completeness: for `s = t^lambda mod N` and `t^phiN == 1 mod N`, the
      proof `ParamProve` builds is accepted. */
  lemma ParamComplete(sha: Digest, N: nat, phiN: int, s: nat, t: nat, lambda: nat, a: seq<nat>, pf: ParamProof)
    requires N > 0 && phiN > 0 && |a| == ParamM && WellFormed(pf)
    requires s == ModPow(t, lambda, N) && ModPow(t, phiN, N) == 1 % N
    requires forall i | 0 <= i < ParamM :: pf.A[i] == Some(ModPow(t, a[i], N)) && pf.Z[i].Some?
    requires var e := ParamChallenge(sha, N, s, t, Values(pf.A));
      (forall i | 0 <= i < ParamM :: pf.Z[i].value == (a[i] + e[i] * lambda) % phiN)
    ensures ParamAccepts(sha, Some(N), Some(s), Some(t), pf)
  {
    var e := ParamChallenge(sha, N, s, t, Values(pf.A));
    forall i | 0 <= i < ParamM
      ensures IndexHolds(N, s, t, pf.A[i].value, pf.Z[i].value, e[i])
    {
      var x: nat := a[i] + e[i] * lambda;
      ExpReduce(t, x, phiN, N);
      CommitmentTimesChallenge(t, a[i], lambda, e[i], N);
    }
  }

  // ---------------------------------------------------------------------
  // Decoding
  // ---------------------------------------------------------------------

  datatype DecodeError = BadACount(got: nat) | BadZCount(got: nat)

  /** `UnmarshalParamProof(as, zs)`: the commitment count is checked first,
      then the response count; entry `i` of each decodes the `i`-th string. */
  method UnmarshalParamProof(aBytes: seq<seq<Byte>>, zBytes: seq<seq<Byte>>)
    returns (r: Result<ParamProof, DecodeError>)
    ensures r == Failure(BadACount(|aBytes|)) <==> |aBytes| != ParamM
    ensures r == Failure(BadZCount(|zBytes|)) <==> |aBytes| == ParamM && |zBytes| != ParamM
    ensures r.Success? <==> |aBytes| == ParamM && |zBytes| == ParamM
    ensures r.Success? ==> WellFormed(r.value)
    ensures r.Success? ==> forall i | 0 <= i < ParamM ::
      r.value.A[i] == Some(BytesToNat(aBytes[i])) && r.value.Z[i] == Some(BytesToNat(zBytes[i]))
  {
    if |aBytes| != ParamM {
      return Failure(BadACount(|aBytes|));
    }
    if |zBytes| != ParamM {
      return Failure(BadZCount(|zBytes|));
    }
    var a := BytesToNats(aBytes);
    var z := BytesToNats(zBytes);
    var A := new Option<nat>[ParamM];
    var Z := new Option<nat>[ParamM];
    for i := 0 to ParamM
      invariant forall j | 0 <= j < i :: A[j] == Some(a[j]) && Z[j] == Some(z[j])
    {
      A[i] := Some(a[i]);
      Z[i] := Some(z[i]);
    }
    return Success(ParamProof(A[..], Z[..]));
  }
}
