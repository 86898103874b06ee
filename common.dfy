/** Value types shared by the three proofs and the byte codecs that put their
    integers on the wire (`big.Int.Bytes`/`SetBytes`, the signed codec, and the
    structural `NonEmpty*` checks of the message layer). */
module Common {

  /** A value that may be absent: a nil `*big.Int`, a nil message, a nil proof. */
  datatype Option<+T> = None | Some(value: T)

  /** A decoding or generation step that yields a value or fails with an error. */
  datatype Result<+T, +E> = Success(value: T) | Failure(error: E)

  /** What a verifier returns: `(true, nil)` or `(false, err)` with the reason. */
  datatype Verdict<+E> = Accept | Reject(reason: E)

  type Byte = b: int | 0 <= b < 256

  /** `big.Int.Bytes()` of a natural: minimal big-endian bytes, zero is empty.
      Decoding the bytes gives the natural back. */
  function NatToBytes(n: nat): (bs: seq<Byte>)
    ensures |bs| == 0 <==> n == 0
    ensures |bs| > 0 ==> bs[0] != 0
    ensures BytesToNat(bs) == n
    decreases n
  {
    if n == 0 then []
    else
      var bs := NatToBytes(n / 256) + [n % 256];
      assert bs[..|bs| - 1] == NatToBytes(n / 256);
      bs
  }

  /** `new(big.Int).SetBytes(bs)`: the big-endian value of the bytes. */
  function BytesToNat(bs: seq<Byte>): nat
  {
    if bs == [] then 0 else BytesToNat(bs[..|bs| - 1]) * 256 + bs[|bs| - 1]
  }

  /** A byte string without leading zero bytes, the only form `Bytes()` produces. */
  predicate Canonical(bs: seq<Byte>)
  {
    bs == [] || bs[0] != 0
  }

  lemma {:induction false} BytesToNatZero(bs: seq<Byte>)
    requires BytesToNat(bs) == 0
    ensures forall k | 0 <= k < |bs| :: bs[k] == 0
  {
    if bs != [] {
      BytesToNatZero(bs[..|bs| - 1]);
      forall k | 0 <= k < |bs| ensures bs[k] == 0 {
        if k < |bs| - 1 {
          assert bs[k] == bs[..|bs| - 1][k];
        }
      }
    }
  }

  /** Decoding is injective on canonical strings: re-encoding a decoded
      canonical string gives the same bytes. */
  lemma {:induction false} CanonicalRoundTrip(bs: seq<Byte>)
    requires Canonical(bs)
    ensures NatToBytes(BytesToNat(bs)) == bs
  {
    if bs != [] {
      var init, last := bs[..|bs| - 1], bs[|bs| - 1];
      var n := BytesToNat(bs);
      if n == 0 {
        BytesToNatZero(bs);
        assert false;
      }
      assert n == BytesToNat(init) * 256 + last;
      assert n / 256 == BytesToNat(init) && n % 256 == last;
      assert Canonical(init) by {
        if init != [] { assert init[0] == bs[0]; }
      }
      CanonicalRoundTrip(init);
      assert init + [last] == bs;
    }
  }

  /** `x.Bytes()` of a `big.Int`: the bytes of its magnitude, so a
      non-negative value decodes back to itself. */
  function IntBytes(x: int): (bs: seq<Byte>)
    ensures |bs| == 0 <==> x == 0
    ensures x >= 0 ==> BytesToNat(bs) == x
  {
    NatToBytes(if x < 0 then -x else x)
  }

  /** `common.BigIntsToBytes`: each entry by `Bytes()`. */
  function BigIntsToBytes(xs: seq<int>): (bss: seq<seq<Byte>>)
    ensures |bss| == |xs|
    ensures forall i | 0 <= i < |xs| :: bss[i] == IntBytes(xs[i])
  {
    seq(|xs|, i requires 0 <= i < |xs| => IntBytes(xs[i]))
  }

  /** `common.MultiBytesToBigInts`: each entry by `SetBytes`. */
  function BytesToNats(bss: seq<seq<Byte>>): (xs: seq<nat>)
    ensures |xs| == |bss|
    ensures forall i | 0 <= i < |bss| :: xs[i] == BytesToNat(bss[i])
  {
    seq(|bss|, i requires 0 <= i < |bss| => BytesToNat(bss[i]))
  }

  /** Signed encoding of a possibly-nil integer: a sign byte (1 for negative)
      followed by the magnitude's `Bytes()`; nil is the empty string. */
  function MarshalSigned(x: Option<int>): (bs: seq<Byte>)
    ensures |bs| > 0 <==> x.Some?
  {
    match x
    case None => []
    case Some(v) => [if v < 0 then 1 else 0] + NatToBytes(if v < 0 then -v else v)
  }

  /** Inverse of `MarshalSigned`: the empty string decodes to nil. */
  function UnmarshalSigned(bs: seq<Byte>): (x: Option<int>)
    ensures x.Some? <==> |bs| > 0
  {
    if bs == [] then None
    else
      var mag: int := BytesToNat(bs[1..]);
      Some(if bs[0] == 1 then -mag else mag)
  }

  lemma SignedRoundTrip(x: Option<int>)
    ensures UnmarshalSigned(MarshalSigned(x)) == x
  {
    if x.Some? {
      var bs := MarshalSigned(x);
      var v := x.value;
      assert bs[1..] == NatToBytes(if v < 0 then -v else v);
    }
  }

  /** `common.NonEmptyBytes`. */
  predicate NonEmptyBytes(bs: seq<Byte>)
  {
    |bs| > 0
  }

  /** `common.NonEmptyMultiBytes(bss, expectLen)`: the expected non-zero count
      of entries, each non-empty. */
  predicate NonEmptyMultiBytes(bss: seq<seq<Byte>>, expectLen: nat)
  {
    |bss| > 0 && |bss| == expectLen && forall i | 0 <= i < |bss| :: NonEmptyBytes(bss[i])
  }

  /** `common.NonEmptyBools(bs, expectLen)`: the expected non-zero count. */
  predicate NonEmptyBools(bs: seq<bool>, expectLen: nat)
  {
    |bs| > 0 && |bs| == expectLen
  }
}
