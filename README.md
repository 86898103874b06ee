# tss-lib CGGMP key-generation proofs in Dafny

This project models the three zero-knowledge proofs that tss-lib's ECDSA key generation exchanges to harden itself against malicious parameters. The proofs follow Canetti, Gennaro, Goldfeder, Makriyannis and Peled, "UC Non-Interactive, Proactive, Threshold ECDSA with Identifiable Aborts" (Cryptology ePrint 2021/060). The project also models how the key-generation messages carry two of these proofs on the wire.

- **Paillier-Blum modulus proof** (`crypto/paillier/mod_proof.go`):
  - square roots modulo a prime;
  - CRT combination into square roots modulo `N = p*q`;
  - fourth roots, found as roots of roots;
  - the four-way search for the twist `(a, b)` in `DefineXi`;
  - the prover's assembly loop;
  - `ModVerify`;
  - the length-checked decoder.
- **Ring-Pedersen parameter proof** (`crypto/paillier/param_proof.go`):
  - 80 commitments `A_i = t^a_i`;
  - an 80-bit challenge read least significant bit first;
  - responses `z_i = a_i + e_i*lambda mod phiN`;
  - the nil-checking verifier;
  - the decoder.
- **No-small-factor proof** (`crypto/paillier/factor_proof.go`):
  - five commitments `s^i * t^j mod N`;
  - a challenge shifted into `[-(2^256-1), 2^256-1]`;
  - unreduced integer responses;
  - three verification equalities, then the bound `2^768 * floor(sqrt(pkN))` on `|Z1|` and `|Z2|`.
- **Key-generation messages** (`ecdsa/keygen/messages.go`):
  - the round-1 mapping of a `ModProof` into `KGRound1Message_ModProof` and back;
  - the round-2 mapping of a `FactorProof` into `KGRound2Message1_FactorProof` in the signed encoding, and back;
  - the structural `ValidateBasic` pre-filters.

Integers are unbounded (`int`/`nat`), like Go's `big.Int`. Go's `Mod` is Euclidean, and so is Dafny's `%`. External pieces become parameters with contracts:
- the hashes `HashToN` and `SHA512_256i` (module `Oracles`);
- `ModSqrt`;
- `ProbablyPrime`;
- the random samples.

The imperative parts of the source are Dafny methods with loop invariants, each proved against a specification function. These are the root-list loops, `DefineXi`, the assembly and decoding loops, `ModVerify`, `ParamProof`, `ParamVerify` and `BytesToBits`. The straight-line parts are functions. Modules:
- `Common`: options, results, byte codecs;
- `ModArith`: powers, Euclid, inverses, `ModInt` exponentiation;
- `SignedPower`: negative exponents and the exponent-pair view;
- `RootFinder`: square and fourth roots modulo `p*q`;
- `RootVectors`: the numbers of `TestModSqrt`;
- `ModulusProof`;
- `ParameterProof`;
- `NoSmallFactor`;
- `KeygenMessages`.

## Model

| member | source | states |
|---|---|---|
| ModArith.ModInverse | crypto/paillier/mod_proof.go:50-51 | `ModInverse(v, m)`: when present, the result is in `[0, m)` and `v * r == 1 (mod m)` |
| ModArith.ModInverseComplete | crypto/paillier/mod_proof.go:50-51 | every residue that has an inverse gets one, so nil means "not invertible" |
| ModArith.InverseUnique | crypto/paillier/mod_proof.go:50-51 | two inverses of one residue in `[0, m)` coincide |
| ModArith.FloorSqrt | crypto/paillier/factor_proof.go:121 | `Sqrt(n)` is the floor square root: `r*r <= n < (r+1)*(r+1)` |
| SignedPower.SPowAdd | crypto/paillier/factor_proof.go:97-105 | for an invertible base, `b^(x+y) == b^x * b^y (mod m)` for all signed exponents |
| SignedPower.SPowScale | crypto/paillier/factor_proof.go:103-105 | `(b^x)^e == b^(x*e) (mod m)` for signed `x`, `e`, and `b^x` is invertible |
| SignedPower.SPowProduct | crypto/paillier/factor_proof.go:103-105 | `(u*v)^e == u^e * v^e (mod m)` for invertible `u`, `v` and signed `e` |
| SignedPower.SPowUnit | crypto/paillier/factor_proof.go:97-105 | `b^k` is invertible with inverse `b^-k` |
| SignedPower.RepMul | crypto/paillier/factor_proof.go:103-105 | multiplying `s^i1*t^j1` by `s^i2*t^j2` adds the exponent pairs |
| SignedPower.RepPow | crypto/paillier/factor_proof.go:103-105 | raising `s^i*t^j` to a signed `e` gives `s^(i*e)*t^(j*e)` |
| RootFinder.PrimeModSqrt | crypto/paillier/mod_proof.go:150-157 | empty exactly when `ModSqrt` finds nothing; otherwise `[r, -r mod p]`, both in `[0, p)` and both square roots of `x` |
| RootFinder.CombineCongruent | crypto/paillier/mod_proof.go:168-181 | given `ga*p + gb*q == 1`, the CRT combination is `rp` modulo `p` and `rq` modulo `q` |
| RootFinder.PairsShape | crypto/paillier/mod_proof.go:174-183 | the nested loops yield `|rps|*|rqs|` entries in row order, each one combination |
| RootFinder.CompModSqrtSound | crypto/paillier/mod_proof.go:160-186 | empty iff either prime has no root, otherwise 4 entries in `[0, n)`; with Bezout coefficients and `n = p*q`, each entry squares to `x` modulo `n` |
| RootFinder.CompModSqrt | crypto/paillier/mod_proof.go:160-186 | the appending loops build exactly the specified list, so all of the properties above hold |
| RootFinder.RootsOfEachShape | crypto/paillier/mod_proof.go:188-201 | the roots of every value in turn: a multiple of 4 entries, at most 4 per value, and with Bezout coefficients each a square root of one of the values |
| RootFinder.CompMod4thRtSound | crypto/paillier/mod_proof.go:188-201 | at most 16 entries, a multiple of 4; with Bezout coefficients every entry is a fourth root of `x` modulo `n` |
| RootFinder.CompMod4thRt | crypto/paillier/mod_proof.go:188-201 | the loop over square roots of square roots builds exactly the specified list, so it holds only fourth roots |
| RootVectors.FourthRootVector | crypto/paillier/mod_proof_test.go:103-120 | with the `x^((p+1)/4)` root for `p = 7, 11`, the square roots of 58 mod 77 are `[60, 39, 38, 17]`, and the fourth roots `[37, 51, 26, 40]` include 37 |
| RootVectors.NonResidueVector | crypto/paillier/mod_proof_test.go:108-118 | 59 has no root mod 7, two roots mod 11, and therefore none mod 77 |
| ModulusProof.ModChallenge | crypto/paillier/mod_proof.go:108-116 | 80 challenges, entry `i` the hash of `(w, i)`, each in `[0, N)` |
| ModulusProof.TwistMeaning | crypto/paillier/mod_proof.go:91-98 | the in-place `Mul`/`Neg`/`Mod` steps compute `(-1)^a * w^b * y mod N` |
| ModulusProof.DefineXiChoice | crypto/paillier/mod_proof.go:120-147 | `DefineXi` panics iff no twist has a fourth root; otherwise it returns the first twist in order (F,F), (F,T), (T,F), (T,T) with roots, and that list's first root |
| ModulusProof.SearchFromChoice | crypto/paillier/mod_proof.go:120-147 | the search from rank `k` finds nothing iff no twist of rank `k` or later has a fourth root; otherwise the first such twist, with its first root |
| ModulusProof.DefineXiSound | crypto/paillier/mod_proof.go:120-147 | generation and verification agree: the returned `x` satisfies the verifier's `x^4 == (-1)^a w^b y (mod N)` |
| ModulusProof.DefineXi | crypto/paillier/mod_proof.go:120-147 | the nested loop with early return computes exactly the choice above |
| ModulusProof.ModVerify | crypto/paillier/mod_proof.go:69-105 | even `N` is rejected first, then `N` judged prime; it accepts iff both checks hold at all 80 indices; a check failure names the first failing index, with the z-check before the x-check |
| ModulusProof.ModProve | crypto/paillier/mod_proof.go:44-54 | on success every entry holds `DefineXi`'s choice for `y_i` and `z_i = y_i^(N^-1 mod phiN) mod N`; a failure names the first index without a root, or the missing inverse |
| ModulusProof.ZCheckComplete | crypto/paillier/mod_proof.go:50-89 | `z_i^N == y_i` when `z_i = y_i^d` with `N*d == 1 (mod phiN)` and `y_i^phiN == 1` |
| ModulusProof.ModComplete | crypto/paillier/mod_proof.go:24-105 | with `N = p*q` odd and not judged prime, Bezout coefficients and Euler's theorem as hypotheses, the prover's proof is accepted |
| ModulusProof.AcceptsModulusOne | crypto/paillier/mod_proof.go:70-104 | the code as written accepts every well-formed proof for `N = 1` |
| ModulusProof.OddCompositeSound | crypto/paillier/mod_proof.go:65-68 | with the `N > 1` check, an accepted modulus is odd and composite, and `N = 1` is rejected |
| ModulusProof.ModVerifyOddComposite | crypto/paillier/mod_proof.go:65-79 | the verifier with the `N > 1` check: rejects with its own reason iff `N <= 1`, and accepts iff `N > 1` and the code as written accepts |
| ModulusProof.UnmarshalModProof | crypto/paillier/mod_proof.go:203-237 | errors on an empty `W`, then on a wrong count of `X`, `A`, `B` and `Z` in that order; otherwise `A`, `B` are copied and `W`, `X[i]`, `Z[i]` decoded big-endian |
| ParameterProof.LowBitsValue | crypto/paillier/param_proof.go:72-78 | the first `k` bits, least significant first, read back as `b mod 2^k` |
| ParameterProof.BitSplit | crypto/paillier/param_proof.go:72-78 | for `b = 2^k*c + lo` with `lo < 2^k`, bit `k+i` of `b` is bit `i` of `c` and each bit below `k` is that of `lo` |
| ParameterProof.BytesToBits | crypto/paillier/param_proof.go:72-78 | 80 entries, entry `i` bit `i` of `b`, each 0 or 1, together spelling `b mod 2^80` |
| ParameterProof.BitsVector | crypto/paillier/param_proof_test.go:38-49 | for 0x0f0e…0201, bits 0, 9, 16 and 17 are 1 and bits 1 and 8 are 0 |
| ParameterProof.ParamChallenge | crypto/paillier/param_proof.go:64-68 | 80 bits, each 0 or 1, the low 80 bits of `SHA512_256i(N, s, t, SHA512_256i(A))` |
| ParameterProof.Responses | crypto/paillier/param_proof.go:38-41 | `z_i = a_i + (e_i*lambda mod phiN) mod phiN` equals `(a_i + e_i*lambda) mod phiN` |
| ParameterProof.Commitments | crypto/paillier/param_proof.go:30-34 | the commitment loop: 80 entries, `A_i = t^a_i mod N`, none nil |
| ParameterProof.ParamProve | crypto/paillier/param_proof.go:25-44 | `A_i = t^a_i mod N`, and `z_i = (a_i + e_i*lambda) mod phiN` for the challenge of those `A_i` |
| ParameterProof.ParamVerify | crypto/paillier/param_proof.go:46-61 | false if `N`, `s`, `t` or any `A[i]`/`Z[i]` is nil; otherwise true iff `t^Z[i] == A[i] * s^e_i (mod N)` at every index |
| ParameterProof.NilCommitmentRejected | crypto/paillier/param_proof_test.go:58-64 | a proof whose `A[42]` is nil is rejected |
| ParameterProof.ExpReduce | crypto/paillier/param_proof.go:36-41 | when `t^phiN == 1 (mod N)`, reducing an exponent modulo `phiN` leaves `t^x` unchanged |
| ParameterProof.ParamComplete | crypto/paillier/param_proof.go:25-61 | completeness: for `s = t^lambda mod N` and `t^phiN == 1 (mod N)`, the generated proof is accepted |
| ParameterProof.UnmarshalParamProof | crypto/paillier/param_proof.go:80-100 | errors on a commitment count other than 80, checked first, then on the response count; otherwise `A[i]`, `Z[i]` decode the `i`-th strings |
| NoSmallFactor.FactorChallenge | crypto/paillier/factor_proof.go:134-150 | the challenge lies in `[-(2^256-1), 2^256-1]` |
| NoSmallFactor.FactorProve | crypto/paillier/factor_proof.go:37-83 | commitments `P, Q, A, B = s^.*t^. mod N` and `T = Q^a*t^r`; responses are unreduced: `z1 = a+e*p`, `z2 = b+e*q`, `w1 = x+e*mu`, `w2 = y+e*nu`, `v = r+e*(sigma-nu*p)`; fields in the order `P, Q, A, B, T, Sigma, Z1, Z2, W1, W2, V` |
| NoSmallFactor.FactorVerify | crypto/paillier/factor_proof.go:85-132 | nil arguments, then nil fields, then an undefined value among the seven computed before the first comparison, then the first, second and third equality, then `|Z1|`, then `|Z2|` against `2^768*floor(sqrt(pkN))`; each failure gives its own reason, otherwise accept |
| NoSmallFactor.NilRejected | crypto/paillier/factor_proof.go:86-91 | any nil argument or proof field is rejected for being nil |
| NoSmallFactor.LimitInclusive | crypto/paillier/factor_proof.go:119-131 | a response whose magnitude equals the limit is accepted; one above it is rejected |
| NoSmallFactor.ThirdExponents | crypto/paillier/factor_proof.go:72-105 | with `N0 = p*q`, `Q^z1*t^v` and `T*R^e` have the same exponent pair `(q*a + e*N0, nu*a + r + e*sigma)` |
| NoSmallFactor.EquationHonest | crypto/paillier/factor_proof.go:55-112 | `s^(a+e*p) * t^(x+e*mu) == (s^a t^x) * (s^p t^mu)^e (mod N)`, the first two equalities for honest responses |
| NoSmallFactor.ThirdHonest | crypto/paillier/factor_proof.go:55-117 | the third equality for honest responses when `N0 = p*q` |
| NoSmallFactor.HonestCommitments | crypto/paillier/factor_proof.go:55-59 | for bases invertible modulo `N`, generation succeeds, and `T` is `s^(q*a) * t^(nu*a + r)` |
| NoSmallFactor.HonestEquations | crypto/paillier/factor_proof.go:37-117 | for bases invertible modulo `N` and `N0 = p*q`, every value the verifier computes on the generated proof is defined and all three equalities hold |
| NoSmallFactor.FactorComplete | crypto/paillier/factor_proof.go:37-132 | completeness: the generated proof is rejected only on the magnitude bounds and accepted within them |
| Common.CanonicalRoundTrip | ecdsa/keygen/messages.go:62-66 | decoding is injective on the minimal byte strings that `Bytes()` produces |
| Common.SignedRoundTrip | ecdsa/keygen/messages.go:160-233 | the signed encoding round-trips, nil included |
| KeygenMessages.NewKGRound1Proofs | ecdsa/keygen/messages.go:61-74 | the round-1 message always carries both modulus proofs, each mapped by `MarshalModProof`, so each decodes back to its proof |
| KeygenMessages.MarshalModProof | ecdsa/keygen/messages.go:61-67 | `A`, `B` are copied; `W`, `X[i]`, `Z[i]` become big-endian bytes that decode back to the non-negative values |
| KeygenMessages.MarshalledModProofValid | ecdsa/keygen/messages.go:139-146 | on a marshalled proof the pre-filter passes exactly when `W` and every `X[i]`, `Z[i]` is non-zero |
| KeygenMessages.UnmarshalModProofMessage | ecdsa/keygen/messages.go:123-131 | an absent proof fails on `W`; a message passing `ValidateBasic` decodes; a marshalled proof with `W > 0` decodes to itself; one with `W = 0` is refused |
| KeygenMessages.NewKGRound2Message1 | ecdsa/keygen/messages.go:150-205 | the share's bytes decode to the share; both proofs are mapped the same way |
| KeygenMessages.MarshalFactorProof | ecdsa/keygen/messages.go:160-197 | a nil proof gives a nil wire proof; otherwise each of the eleven fields is signed-encoded into the wire field of the same name (inverted by `FactorProofRoundTrip`) |
| KeygenMessages.UnmarshalFactorProof | ecdsa/keygen/messages.go:218-250 | the decoded proof has no nil field iff the wire proof passes `ValidateBasic` |
| KeygenMessages.FactorProofRoundTrip | ecdsa/keygen/messages.go:160-233 | decoding inverts the mapping field by field |
| KeygenMessages.MarshalledFactorProofValid | ecdsa/keygen/messages.go:252-265 | the pre-filter passes on a marshalled proof iff the proof is present with all eleven fields non-nil |
| KeygenMessages.Round2Message1Valid | ecdsa/keygen/messages.go:160-212 | the message built with a nil proof fails `ValidateBasic`; it passes iff the share is non-zero and both proofs are complete |

## Left out

- Randomness is not modelled. The sampling loops and calls (`GetRandomPositiveInt`, `GetRandomIntIn2PowerMulRange`, the Jacobi retry loop for `w`) become parameters: `w`, the `a_i`, and `FactorNonces`. Their ranges are not modelled, and neither is the property `Jacobi(w, N) = -1`.
- `HashToN` and `SHA512_256i` are function parameters. `HashToN` is known only to land in `[0, bound)`, and `SHA512_256i` only to land below `2^256`. How they serialise their inputs is not modelled.
- `ProbablyPrime` is a function parameter with no contract. Go documents `ProbablyPrime` as false on 1, which the finding below relies on.
- `ModSqrt` and `GCD` are not re-implemented:
  - `ModSqrt` is a parameter whose results are genuine square roots. `RootVectors.Sqrt3Mod4` is the `x^((p+1)/4)` instance used for the test vectors.
  - The Bezout coefficients are parameters, and `ga*p + gb*q == 1` is a lemma hypothesis.
- Euler's theorem is a hypothesis: `y_i^phiN == 1` and `t^phiN == 1` modulo `N`.
- The `common` helpers are not part of this model. They are modelled by their stated meaning:
  - `ModInt` is `Exp`, `MulExp` and `ExpMulExp`, with a negative exponent raising the inverse and nil when there is none.
  - `Eq` is equality, with two nils equal.
  - `MarshalSigned`/`UnmarshalSigned` is a sign byte plus the magnitude's bytes, with nil as the empty string.
  - `BigIntsToBytes`/`MultiBytesToBigInts` apply `Bytes()`/`SetBytes` to each entry.
  - `NonEmptyBytes`, `NonEmptyMultiBytes` and `NonEmptyBools` are given predicates.
- Moduli are naturals. Negative moduli and nil entries inside a `ModProof`'s arrays are not modelled.
- `ParameterProof.ParamVerify`: requires a present `N` to be positive. `ModInt(0)` divides by zero in the source.
- `NoSmallFactor.FactorVerify`: requires a present `N` to be positive, for the same reason. `pkN` is a natural, because `Sqrt` panics on a negative value.
- `NoSmallFactor.FactorVerify`: a nil from `ModInt` arithmetic is modelled as the rejection `NilArithmetic`, raised before the first comparison. That nil comes from a negative power of a base with no inverse modulo `N`. In the source, the seven values are all computed before any comparison (`crypto/paillier/factor_proof.go:97-105`), and a nil operand then makes `Mul` fail. `ModInt` is not part of this model, so the model has that run end in a rejection rather than a panic.
- `ParameterProof.ParamVerify`: `s`, `t` and the entries `A[i]`, `Z[i]` of `ParameterProof.ParamProof` are naturals, so negative values are not modelled. Every producer yields non-negative values: `SetBytes` in the decoder, and the responses reduced modulo `phiN`.
- `KeygenMessages.UnmarshalFactorProof`: requires the wire proof to be present. The source dereferences it and panics when it is nil.
- `NoSmallFactor.FactorProve`: nil arithmetic is modelled as `None`. In the source, a negative exponent on a base with no inverse gets nil from `Exp` and then fails.
- `ModulusProof.DefineXi`: the panic "no root found" is modelled as `None`.
- `ModulusProof.ModProve`: a missing `N^-1 mod phiN` is modelled as `NoInverse`.
- `ModulusProof.ModProve`: Go's `[PARAM_M]` arrays `x`, `a`, `b`, `z` are values that are copied into the proof. They are modelled as zero-initialised sequences updated by index, so in-place update is not modelled.
- `NoSmallFactor.FactorComplete`: proves the three equalities, not the magnitude bound. Whether honest responses fall within `2^768*floor(sqrt(N0))` depends on the unmodelled sampling ranges.
- `ParameterProof.ParamComplete`: assumes `lambda` is non-negative, as `GetRandomPositiveInt` gives it.
- The forged-proof test at `crypto/paillier/mod_proof_test.go:43-84` is not claimed. The verifier as written checks neither `W`'s Jacobi symbol nor the ranges of `W` and `X`, and with `W = 0`, `X[i] = 0` and `A = B = true` both checks can hold.
- `TestModSqrt` calls `isQuadResidueModPrime`, `isQuadResidueModComposite` and `quadResidueModComposite`, which are not part of this model. Only its numbers are used.
- Not modelled from `ecdsa/keygen/round_1.go`: the round state machine, goroutines, channels and message sending.
- Not modelled from `ecdsa/keygen/messages.go`:
  - the DLN proofs;
  - `KGRound2Message2` and `KGRound3Message`;
  - the other fields of the round-1 message;
  - routing and the protobuf wrappers.

## Findings

| source | as written | input that shows it | evidently intended | confidence | as-written member | corrected member |
|---|---|---|---|---|---|---|
| crypto/paillier/mod_proof.go:70-79 | `ModVerify` rejects even and probably-prime `N`, but nothing rejects `N = 1`. Every challenge and every power modulo 1 is 0, so both checks hold for any proof | `N = 1` with any proof that has 80 entries per array | accept only an odd composite `N` (lines 65-66), so also reject `N <= 1` | medium; not executed, and it relies on `ProbablyPrime(30)` being false on 1 | ModulusProof.AcceptsModulusOne | ModulusProof.ModVerifyOddComposite |
