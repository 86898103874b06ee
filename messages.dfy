/** The key-generation messages' view of the proofs, as in
    `ecdsa/keygen/messages.go`: the field-by-field wire form of a `ModProof`
    (round 1) and a `FactorProof` (round 2, message 1), the decoders, and the
    structural `ValidateBasic` pre-filters. */
module KeygenMessages {
  import opened Common
  import MP = ModulusProof
  import NSF = NoSmallFactor
  import PP = ParameterProof

  // ---------------------------------------------------------------------
  // Round 1: the Paillier-Blum modulus proofs
  // ---------------------------------------------------------------------

  /** `KGRound1Message_ModProof`: `W`, `X` and `Z` as big-endian bytes, the
      flags `A` and `B` as they are. */
  datatype WireModProof = WireModProof(W: seq<Byte>, X: seq<seq<Byte>>, A: seq<bool>, B: seq<bool>, Z: seq<seq<Byte>>)

  /** The modulus-proof part of `NewKGRound1Message`, used for both the proof
      and the tilde proof. */
  function MarshalModProof(pf: MP.ModProof): (m: WireModProof)
    ensures m.A == pf.A && m.B == pf.B
    ensures |m.X| == |pf.X| && |m.Z| == |pf.Z|
    ensures pf.W >= 0 ==> BytesToNat(m.W) == pf.W
    ensures forall i | 0 <= i < |pf.X| :: pf.X[i] >= 0 ==> BytesToNat(m.X[i]) == pf.X[i]
    ensures forall i | 0 <= i < |pf.Z| :: pf.Z[i] >= 0 ==> BytesToNat(m.Z[i]) == pf.Z[i]
  {
    WireModProof(IntBytes(pf.W), BigIntsToBytes(pf.X), pf.A, pf.B, BigIntsToBytes(pf.Z))
  }

  /** The two modulus proofs a round-1 message carries. */
  datatype Round1Proofs = Round1Proofs(Modproof: Option<WireModProof>, ModproofTilde: Option<WireModProof>)

  /** The `Modproof` and `ModproofTilde` fields of `NewKGRound1Message`: both
      proofs mapped the same way. */
  function NewKGRound1Proofs(modProof: MP.ModProof, modProofTilde: MP.ModProof): (m: Round1Proofs)
    ensures m.Modproof == Some(MarshalModProof(modProof))
    ensures m.ModproofTilde == Some(MarshalModProof(modProofTilde))
  {
    Round1Proofs(Some(MarshalModProof(modProof)), Some(MarshalModProof(modProofTilde)))
  }

  /** `KGRound1Message_ModProof.ValidateBasic`: present, a non-empty `W`, and
      80 non-empty entries in `X` and `Z`, 80 flags in `A` and `B`. */
  predicate ModProofValidateBasic(p: Option<WireModProof>)
  {
    && p.Some?
    && NonEmptyBytes(p.value.W)
    && NonEmptyMultiBytes(p.value.X, PP.ParamM)
    && NonEmptyBools(p.value.A, PP.ParamM)
    && NonEmptyBools(p.value.B, PP.ParamM)
    && NonEmptyMultiBytes(p.value.Z, PP.ParamM)
  }

  /** No integer of the proof is negative. */
  predicate NonNegative(pf: MP.ModProof)
  {
    && pf.W >= 0
    && (forall i | 0 <= i < |pf.X| :: pf.X[i] >= 0)
    && (forall i | 0 <= i < |pf.Z| :: pf.Z[i] >= 0)
  }

  /** The pre-filter passes on a marshalled proof exactly when no integer of
      it is zero, since zero encodes as the empty string. */
  lemma MarshalledModProofValid(pf: MP.ModProof)
    requires MP.WellFormed(pf)
    ensures ModProofValidateBasic(Some(MarshalModProof(pf))) <==>
      && pf.W != 0
      && (forall i | 0 <= i < PP.ParamM :: pf.X[i] != 0)
      && (forall i | 0 <= i < PP.ParamM :: pf.Z[i] != 0)
  {
    var m := MarshalModProof(pf);
    if ModProofValidateBasic(Some(m)) {
      forall i | 0 <= i < PP.ParamM ensures pf.X[i] != 0 && pf.Z[i] != 0 {
        assert NonEmptyBytes(m.X[i]) && NonEmptyBytes(m.Z[i]);
      }
    }
  }

  /** Two well-formed proofs with the same fields entry by entry are equal. */
  lemma ModProofExt(a: MP.ModProof, b: MP.ModProof)
    requires MP.WellFormed(a) && MP.WellFormed(b)
    requires a.W == b.W && a.A == b.A && a.B == b.B
    requires forall i | 0 <= i < PP.ParamM :: a.X[i] == b.X[i] && a.Z[i] == b.Z[i]
    ensures a == b
  {
    assert a.X == b.X;
    assert a.Z == b.Z;
  }

  /** `KGRound1Message.UnmarshalModProof` (and its tilde twin): the wire
      fields, empty when the sub-message is absent, go through
      `paillier.UnmarshalModProof`. A message that passes the pre-filter
      decodes; the marshalled form of a proof with `W > 0` decodes back to
      that proof, and one with `W == 0` is refused for its empty `W`. */
  method UnmarshalModProofMessage(p: Option<WireModProof>) returns (r: Result<MP.ModProof, MP.DecodeError>)
    ensures p.None? ==> r == Failure(MP.EmptyW)
    ensures ModProofValidateBasic(p) ==> r.Success?
    ensures forall pf | MP.WellFormed(pf) && NonNegative(pf) && pf.W > 0 ::
      p == Some(MarshalModProof(pf)) ==> r == Success(pf)
    ensures forall pf | MP.WellFormed(pf) && pf.W == 0 ::
      p == Some(MarshalModProof(pf)) ==> r == Failure(MP.EmptyW)
  {
    var w, xs, aFlags, bFlags, zs := [], [], [], [], [];
    if p.Some? {
      w, xs, aFlags, bFlags, zs := p.value.W, p.value.X, p.value.A, p.value.B, p.value.Z;
    }
    r := MP.UnmarshalModProof(w, xs, aFlags, bFlags, zs);
    forall pf | MP.WellFormed(pf) && NonNegative(pf) && pf.W > 0 && p == Some(MarshalModProof(pf))
      ensures r == Success(pf)
    {
      assert r.Success?;
      ModProofExt(r.value, pf);
    }
  }

  // ---------------------------------------------------------------------
  // Round 2, message 1: the no-small-factor proofs
  // ---------------------------------------------------------------------

  /** `KGRound2Message1_FactorProof`: every field in the signed encoding. */
  datatype WireFactorProof = WireFactorProof(
    P: seq<Byte>, Q: seq<Byte>, A: seq<Byte>, B: seq<Byte>, T: seq<Byte>, Sigma: seq<Byte>,
    Z1: seq<Byte>, Z2: seq<Byte>, W1: seq<Byte>, W2: seq<Byte>, V: seq<Byte>)

  /** The factor-proof mapping of `NewKGRound2Message1`: a nil proof gives a
      nil wire proof, otherwise each field is signed-encoded into the wire
      field of the same name. */
  function MarshalFactorProof(proof: Option<NSF.FactorProof>): (m: Option<WireFactorProof>)
    ensures m.Some? <==> proof.Some?
    ensures proof.Some? ==>
      && m.value.P == MarshalSigned(proof.value.P) && m.value.Q == MarshalSigned(proof.value.Q)
      && m.value.A == MarshalSigned(proof.value.A) && m.value.B == MarshalSigned(proof.value.B)
      && m.value.T == MarshalSigned(proof.value.T) && m.value.Sigma == MarshalSigned(proof.value.Sigma)
      && m.value.Z1 == MarshalSigned(proof.value.Z1) && m.value.Z2 == MarshalSigned(proof.value.Z2)
      && m.value.W1 == MarshalSigned(proof.value.W1) && m.value.W2 == MarshalSigned(proof.value.W2)
      && m.value.V == MarshalSigned(proof.value.V)
  {
    match proof
    case None => None
    case Some(pf) =>
      Some(WireFactorProof(
        MarshalSigned(pf.P), MarshalSigned(pf.Q), MarshalSigned(pf.A), MarshalSigned(pf.B),
        MarshalSigned(pf.T), MarshalSigned(pf.Sigma), MarshalSigned(pf.Z1), MarshalSigned(pf.Z2),
        MarshalSigned(pf.W1), MarshalSigned(pf.W2), MarshalSigned(pf.V)))
  }

  /** `KGRound2Message1`: the share and the two wire factor proofs. */
  datatype Round2Message1 = Round2Message1(Share: seq<Byte>, Facproof: Option<WireFactorProof>,
                                           FacproofTilde: Option<WireFactorProof>)

  /** `NewKGRound2Message1` without its routing: the share's bytes and both
      proofs mapped the same way. */
  function NewKGRound2Message1(share: nat, proof: Option<NSF.FactorProof>, proofTilde: Option<NSF.FactorProof>)
    : (m: Round2Message1)
    ensures BytesToNat(m.Share) == share
    ensures m.Facproof == MarshalFactorProof(proof) && m.FacproofTilde == MarshalFactorProof(proofTilde)
  {
    Round2Message1(NatToBytes(share), MarshalFactorProof(proof), MarshalFactorProof(proofTilde))
  }

  /** `KGRound2Message1_FactorProof.ValidateBasic`: present, and all eleven
      fields non-empty. */
  predicate FactorProofValidateBasic(proof: Option<WireFactorProof>)
  {
    && proof.Some?
    && NonEmptyBytes(proof.value.P) && NonEmptyBytes(proof.value.Q) && NonEmptyBytes(proof.value.A)
    && NonEmptyBytes(proof.value.B) && NonEmptyBytes(proof.value.T) && NonEmptyBytes(proof.value.Sigma)
    && NonEmptyBytes(proof.value.Z1) && NonEmptyBytes(proof.value.Z2) && NonEmptyBytes(proof.value.W1)
    && NonEmptyBytes(proof.value.W2) && NonEmptyBytes(proof.value.V)
  }

  /** `KGRound2Message1.ValidateBasic`. */
  predicate Round2Message1ValidateBasic(m: Option<Round2Message1>)
  {
    && m.Some?
    && NonEmptyBytes(m.value.Share)
    && FactorProofValidateBasic(m.value.Facproof)
    && FactorProofValidateBasic(m.value.FacproofTilde)
  }

  /** `UnmarshalFactorProof` (and its tilde twin): each wire field decoded
      into the proof field of the same name; an empty field is nil. The
      source dereferences the wire proof, so it must be present. */
  function UnmarshalFactorProof(proof: Option<WireFactorProof>): (pf: NSF.FactorProof)
    requires proof.Some?
    ensures NSF.Complete(pf) <==> FactorProofValidateBasic(proof)
  {
    var w := proof.value;
    NSF.FactorProof(
      UnmarshalSigned(w.P), UnmarshalSigned(w.Q), UnmarshalSigned(w.A), UnmarshalSigned(w.B),
      UnmarshalSigned(w.T), UnmarshalSigned(w.Sigma), UnmarshalSigned(w.Z1), UnmarshalSigned(w.Z2),
      UnmarshalSigned(w.W1), UnmarshalSigned(w.W2), UnmarshalSigned(w.V))
  }

  /** Decoding inverts the mapping: the proof read back from a message is
      the proof that was put in, nil fields included. */
  lemma FactorProofRoundTrip(pf: NSF.FactorProof)
    ensures UnmarshalFactorProof(MarshalFactorProof(Some(pf))) == pf
  {
    SignedRoundTrip(pf.P); SignedRoundTrip(pf.Q); SignedRoundTrip(pf.A); SignedRoundTrip(pf.B);
    SignedRoundTrip(pf.T); SignedRoundTrip(pf.Sigma); SignedRoundTrip(pf.Z1); SignedRoundTrip(pf.Z2);
    SignedRoundTrip(pf.W1); SignedRoundTrip(pf.W2); SignedRoundTrip(pf.V);
  }

  /** The pre-filter passes on a marshalled proof exactly when the proof is
      present and none of its fields is nil. */
  lemma MarshalledFactorProofValid(proof: Option<NSF.FactorProof>)
    ensures FactorProofValidateBasic(MarshalFactorProof(proof)) <==> proof.Some? && NSF.Complete(proof.value)
  {
  }

  /** The self-message built with a nil proof fails `ValidateBasic`; with
      complete proofs and a non-zero share it passes. */
  lemma Round2Message1Valid(share: nat, proof: Option<NSF.FactorProof>, proofTilde: Option<NSF.FactorProof>)
    ensures Round2Message1ValidateBasic(Some(NewKGRound2Message1(share, proof, proofTilde))) <==>
      share != 0 && proof.Some? && NSF.Complete(proof.value) && proofTilde.Some? && NSF.Complete(proofTilde.value)
  {
    MarshalledFactorProofValid(proof);
    MarshalledFactorProofValid(proofTilde);
  }
}
