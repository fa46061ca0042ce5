/** The proof record a wallet returns for a challenge (`SignedChallenge`
    of the dApp toolkit), as far as the server reads it. */
module SignedChallenges {

  /** The signature over the signing message and the key that made it;
      key and signature are hex strings, `curve` names the key's curve. */
  datatype Proof = Proof(publicKey: string, signature: string, curve: string)

  /** One signed challenge: the challenge token it answers, the proof, and
      the address of the persona or account that signed. */
  datatype SignedChallenge = SignedChallenge(challenge: string, proof: Proof, address: string)
}
