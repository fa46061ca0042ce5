/** `verifyProofFactory`: check one proof's signature over the signing
    message with the curve library its `curve` field names. Key parsing and
    signature checking are foreign library calls that may throw; they are
    parameters here.
 */
module VerifyProof {
  import opened Wrappers
  import opened SignedChallenges

  const Curve25519: string := "curve25519"
  const Secp256k1: string := "secp256k1"

  /** The closed set of curves a proof may use. */
  const SupportedCurves: set<string> := {Curve25519, Secp256k1}

  /** The operations of one elliptic-curve library: `keyFromPublic` on a
      hex public key, and `verify` of a hex signature over a hex message
      with a parsed key. Either may throw. */
  datatype CurveLib<!Key> = CurveLib(
    keyFromPublic: string -> Completion<Key>,
    verify: (Key, string, string) -> Completion<bool>)

  /** The error object's `reason`, with the exception where one was
      caught. */
  datatype ProofError = UnsupportedCurve | InvalidSignature | InvalidPublicKey(jsError: JsError)
  {
    function Reason(): string {
      match this
      case UnsupportedCurve => "unsupportedCurve"
      case InvalidSignature => "invalidSignature"
      case InvalidPublicKey(_) => "invalidPublicKey"
    }
  }

  /** The library a supported curve is checked with. */
  function LibFor<Key>(curve: string, ed: CurveLib<Key>, secp: CurveLib<Key>): (lib: CurveLib<Key>)
    ensures curve == Curve25519 ==> lib == ed
    ensures curve == Secp256k1 ==> lib == secp
  {
    if curve == Curve25519 then ed else secp
  }

  /** The key was parsed and the signature checked without an exception,
      and `verify` answered `answer`. */
  predicate Verdict<Key>(lib: CurveLib<Key>, proof: Proof, messageHex: string, answer: bool) {
    var key := lib.keyFromPublic(proof.publicKey);
    key.Normal? && lib.verify(key.value, messageHex, proof.signature) == Normal(answer)
  }

  /** One of the two library calls threw. */
  predicate Threw<Key>(lib: CurveLib<Key>, proof: Proof, messageHex: string) {
    var key := lib.keyFromPublic(proof.publicKey);
    key.Throw? || lib.verify(key.value, messageHex, proof.signature).Throw?
  }

  function VerifyProof<Key>(input: SignedChallenge, signatureMessageHex: string,
                            ed: CurveLib<Key>, secp: CurveLib<Key>): (r: Result<(), ProofError>)
    ensures input.proof.curve !in SupportedCurves ==> r == Err(UnsupportedCurve)
    ensures r == Ok(()) <==>
      input.proof.curve in SupportedCurves &&
      Verdict(LibFor(input.proof.curve, ed, secp), input.proof, signatureMessageHex, true)
    ensures r == Err(InvalidSignature) <==>
      input.proof.curve in SupportedCurves &&
      Verdict(LibFor(input.proof.curve, ed, secp), input.proof, signatureMessageHex, false)
    ensures r.Err? && r.error.InvalidPublicKey? <==>
      input.proof.curve in SupportedCurves &&
      Threw(LibFor(input.proof.curve, ed, secp), input.proof, signatureMessageHex)
    // The error carries the exception that was thrown, from whichever call threw it.
    ensures r.Err? && r.error.InvalidPublicKey? ==>
      var lib := LibFor(input.proof.curve, ed, secp);
      var key := lib.keyFromPublic(input.proof.publicKey);
      r.error.jsError ==
        (if key.Throw? then key.error
         else lib.verify(key.value, signatureMessageHex, input.proof.signature).error)
  {
    if input.proof.curve !in SupportedCurves then Err(UnsupportedCurve)
    else
      var lib := LibFor(input.proof.curve, ed, secp);
      match lib.keyFromPublic(input.proof.publicKey)
      case Throw(e) => Err(InvalidPublicKey(e))
      case Normal(publicKey) =>
        match lib.verify(publicKey, signatureMessageHex, input.proof.signature)
        case Throw(e) => Err(InvalidPublicKey(e))
        case Normal(isValid) => if isValid then Ok(()) else Err(InvalidSignature)
  }

  /** An unsupported curve is rejected before any cryptographic work: the
      answer does not depend on either library. */
  lemma UnsupportedCurveSkipsLibraries<Key>(input: SignedChallenge, messageHex: string,
                                            ed1: CurveLib<Key>, secp1: CurveLib<Key>,
                                            ed2: CurveLib<Key>, secp2: CurveLib<Key>)
    requires input.proof.curve !in SupportedCurves
    ensures VerifyProof(input, messageHex, ed1, secp1) == VerifyProof(input, messageHex, ed2, secp2)
    ensures VerifyProof(input, messageHex, ed1, secp1).Err?
  {
  }

  /** A curve25519 proof is checked only with the curve25519 library, any
      other supported curve only with the secp256k1 library. */
  lemma DispatchByCurve<Key>(input: SignedChallenge, messageHex: string,
                             ed1: CurveLib<Key>, secp1: CurveLib<Key>,
                             ed2: CurveLib<Key>, secp2: CurveLib<Key>)
    ensures input.proof.curve == Curve25519 ==>
      VerifyProof(input, messageHex, ed1, secp1) == VerifyProof(input, messageHex, ed1, secp2)
    ensures input.proof.curve == Secp256k1 ==>
      VerifyProof(input, messageHex, ed1, secp1) == VerifyProof(input, messageHex, ed2, secp1)
  {
  }

  /** The `reason` string of a failed check names its cause: an
      unsupported curve, a signature the library rejected, or an exception
      from one of the two library calls. Different causes give different
      strings, and a success carries none. */
  lemma ReasonsAreClosed<Key>(input: SignedChallenge, messageHex: string,
                              ed: CurveLib<Key>, secp: CurveLib<Key>)
    ensures var r := VerifyProof(input, messageHex, ed, secp);
      var lib := LibFor(input.proof.curve, ed, secp);
      && (r.Err? && r.error.Reason() == "unsupportedCurve" <==> input.proof.curve !in SupportedCurves)
      && (r.Err? && r.error.Reason() == "invalidSignature" <==>
            input.proof.curve in SupportedCurves && Verdict(lib, input.proof, messageHex, false))
      && (r.Err? && r.error.Reason() == "invalidPublicKey" <==>
            input.proof.curve in SupportedCurves && Threw(lib, input.proof, messageHex))
  {
  }
}
