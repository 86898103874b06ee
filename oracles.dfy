/** The library calls the proofs depend on but do not define, as parameters
    under the contracts the proofs rely on: the Fiat-Shamir hashes of
    `common`, `big.Int.ModSqrt` and `big.Int.ProbablyPrime`. */
module Oracles {
  import opened Common

  /** 2^256: one more than the largest SHA-512/256 digest. */
  const DigestBound: int := 0x1_0000_0000_0000_0000_0000_0000_0000_0000_0000_0000_0000_0000_0000_0000_0000_0000

  /** `common.HashToN(bound, xs...)`: a deterministic hash of the integers
      `xs` into `[0, bound)`. */
  type HashToN = f: (int, seq<int>) -> int
    | forall bound, xs :: bound > 0 ==> 0 <= f(bound, xs) < bound
    witness (bound: int, xs: seq<int>) => 0

  /** `common.SHA512_256i(xs...)`: the SHA-512/256 digest of the integers,
      read as a non-negative integer below 2^256. */
  type Digest = f: seq<int> -> int
    | forall xs :: 0 <= f(xs) < DigestBound
    witness (xs: seq<int>) => 0

  /** `new(big.Int).ModSqrt(x, p)`: some square root of `x` modulo `p` in
      `[0, p)`, or nil when the library finds none. */
  type SqrtFn = f: (int, int) -> Option<int>
    | forall x, p :: p > 0 && f(x, p).Some? ==>
        0 <= f(x, p).value < p && (f(x, p).value * f(x, p).value) % p == x % p
    witness (x: int, p: int) => None

  /** `N.ProbablyPrime(30)`: a primality judgement the model says nothing about. */
  type PrimalityTest = int -> bool
}
