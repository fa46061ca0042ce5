# ROLA server core in Dafny

A model of the server side of the ROLA (Radix Off-Ledger Authentication)
examples: the in-memory challenge store, the `POST /verify` handlers of the
two servers, the signing-message builder `createSignatureMessage`, and the
proof checker `verifyProofFactory`.

- `wrappers.dfy` (`Wrappers`): `Option`, `Result`, and `Completion`. A
  `Completion` is a value or a thrown JavaScript error.
- `bytes.dfy` (`Bytes`): a `byte` type, plus the Node conversions the
  message builder uses:
  - `Buffer.from(s, 'hex')` as `HexDecode`. It decodes pairs, stops at
    the first pair that is not two hex digits, and drops an unpaired last
    digit.
  - `buffer.toString('hex')` as `HexEncode`.
  - `n.toString(16)` as `NatToHex`.
- `unicode.dfy` (`Unicode`): a string's `.length` in UTF-16 code units,
  and its UTF-8 bytes (RFC 3629, section 3). A decoder proves the
  encoding injective.
- `challenge_store.dfy` (`ChallengeStore`):
  - `create` and `verify` as pure transitions of a map from token to
    expiry, with the clock reading `now` as a parameter;
  - a `Run` of any sequence of calls, over which replay prevention is
    proved.
- `signed_challenge.dfy` (`SignedChallenges`): the proof record a wallet
  returns.
- `signature_message.dfy` (`SignatureMessage`): the bytes that are
  hashed, and the hash printed as hex.
- `verify_proof.dfy` (`VerifyProof`): the supported-curve check, the
  choice of curve library, and the mapping of the three outcomes to
  typed errors.
- `verify_handler.dfy` (`VerifyHandler`): the single-proof handler and
  the multi-proof handler. The multi-proof handler de-duplicates the
  challenges, consumes them with a short-circuiting `every`, then
  combines ROLA's per-proof verdicts all-or-nothing.

Several things outside the model become function parameters:
- the random token source;
- `Date.now()`;
- BLAKE2b (RFC 7693);
- the two elliptic-curve libraries;
- the ROLA per-proof check.

The layout the code evidently aims at puts one length byte, counting the
address's bytes, in front of the address. Where the code differs from
that, the model follows the code:
- The length field counts the address's UTF-16 code units (`.length`),
  not its UTF-8 bytes.
- The length field is produced by hex-decoding `length.toString(16)`. It
  holds the length in a single byte only for lengths 16 to 255. It is
  empty below 16. From 256 to 4095 it is the single byte `length / 16`,
  so lengths 256 and 16 share the byte 0x10. From 4096 on it has two or
  more bytes. `LengthSegmentBelow16`, `LengthSegmentOneByte`,
  `LengthSegmentThreeDigits` and `LengthByteShared` state these cases.

Totality and determinism hold by construction. Every operation is a
Dafny function without preconditions over its inputs, so every input
gives one result and nothing escapes as an exception.

## Model

| member | source | states |
|---|---|---|
| ChallengeStore.Create | apps/server/src/index.ts:19-25 | the returned challenge is the given token; the store gains exactly that key, with expiry `now + 300000`; every other entry is unchanged (the single-proof server's store, server/src/index.ts lines 18-24, is the same code) |
| ChallengeStore.Verify | apps/server/src/index.ts:27-36 | an absent token gives false and the store is unchanged; a present token is deleted whether or not it has expired, and no other entry changes; the answer is true exactly when the token is stored with expiry strictly after `now` (the same code as server/src/index.ts lines 26-35) |
| ChallengeStore.VerifySingleUse | apps/server/src/index.ts:28-32 | once a token has been presented, presenting it again fails at any clock reading and changes nothing |
| ChallengeStore.ExpiredIsRemoved | server/src/index.ts:31-34 | an expired token fails its check and is removed by it |
| ChallengeStore.AcceptedAtMostIssued | server/src/index.ts:18-35 | over any sequence of create/verify calls, a token is accepted at most once per time it was issued, plus once if it was already outstanding |
| ChallengeStore.AcceptedAtMostOnce | server/src/index.ts:26-35 | from an empty store, a token issued at most once can pass `verify` at most once over any sequence of calls |
| ChallengeStore.NeverIssuedNeverAccepted | apps/server/src/index.ts:19-36 | a token never issued is never accepted |
| VerifyHandler.HandleVerify | server/src/index.ts:54-67 | the answer is valid exactly when the challenge was live and ROLA accepted the proof; the challenge is removed in every case; no other entry changes |
| VerifyHandler.HandleVerifySkipsRola | server/src/index.ts:57-59 | when the challenge check fails, the answer is `valid: false` and does not depend on ROLA at all |
| VerifyHandler.FailedProofBurnsChallenge | server/src/index.ts:57-63 | a live challenge whose proof ROLA rejects is answered false and is still consumed |
| VerifyHandler.ReplayRejected | server/src/index.ts:57-59 | sending the same request a second time is rejected, whatever the first answer was |
| VerifyHandler.ReplayRejectedProofs | apps/server/src/index.ts:58-67 | replaying a multi-proof request with at least one proof is rejected, whatever the first answer was, because its first challenge was consumed |
| VerifyHandler.FirstIndex | apps/server/src/index.ts:58-62 | the position returned holds the element, and the element does not occur before it |
| VerifyHandler.Dedup | apps/server/src/index.ts:58-62 | spreading the `Set` built from the challenges gives no duplicates and exactly the elements of the input |
| VerifyHandler.DedupFirstOccurrenceOrder | apps/server/src/index.ts:58-62 | the distinct challenges come out in the order of their first occurrence |
| VerifyHandler.FirstDead | apps/server/src/index.ts:63-65 | every token before the returned position is live, and the token at that position (if any) is not |
| VerifyHandler.Every | apps/server/src/index.ts:63-65 | `every` only deletes entries and keeps the values of the others; tokens that were not presented stay; success means every token was live |
| VerifyHandler.EveryDistinct | apps/server/src/index.ts:63-65 | on distinct tokens, `every` consumes exactly the tokens up to and including the first dead one, and succeeds exactly when none is dead |
| VerifyHandler.Combine | apps/server/src/index.ts:69-73 | the combination is ok exactly when every result is ok, and then lists their values in order; otherwise it is the first error in list order |
| VerifyHandler.Verdicts | apps/server/src/index.ts:69-71 | `req.body.map(rola)`: one verdict per proof, in request order, each ROLA's answer on that proof |
| VerifyHandler.HandleVerifyProofs | apps/server/src/index.ts:55-78 | the answer is valid exactly when every proof's challenge is live and every proof passes ROLA |
| VerifyHandler.ConsumedIffAllLive | apps/server/src/index.ts:58-67 | `every` over the distinct challenges succeeds exactly when every proof's challenge is live |
| VerifyHandler.HandleVerifyProofsStore | apps/server/src/index.ts:58-67 | with all challenges live, all of them are consumed; otherwise the distinct challenges are consumed in first-occurrence order up to and including the first dead one, and later ones stay in the store |
| VerifyHandler.HandleVerifyProofsSkipsRola | apps/server/src/index.ts:63-67 | once a challenge fails, the answer is false and does not depend on ROLA |
| VerifyHandler.SingleProofAgrees | apps/server/src/index.ts:55-78 | on a request with one proof, the multi-proof handler gives the same answer and store as the single-proof handler |
| Bytes.HexDecode | server/src/rola/helpers/create-signature-message.ts:22 | `Buffer.from(s, 'hex')` yields at most one byte per two characters |
| Bytes.HexDecodePairs | server/src/rola/helpers/create-signature-message.ts:22 | each decoded byte is the value of its digit pair, high digit first; decoding stopped early only at a pair that is not two hex digits |
| Bytes.HexRoundTrip | server/src/rola/helpers/create-signature-message.ts:33 | decoding the hex that `toString('hex')` prints gives back the bytes |
| Bytes.HexEncode | server/src/rola/helpers/create-signature-message.ts:33 | two lower-case hex digits per byte |
| Bytes.NatToHexDenotes | server/src/rola/helpers/create-signature-message.ts:17 | `toString(16)` prints lower-case hex digits that denote the number, without a leading zero |
| Bytes.NatToHexLength | server/src/rola/helpers/create-signature-message.ts:17 | the number of digits printed is 1 below 16, 2 from 16 to 255, and 3 from 256 to 4095 |
| Bytes.NatToHex | server/src/rola/helpers/create-signature-message.ts:17 | `n.toString(16)` prints at least one digit; `NatToHexDenotes` and `NatToHexLength` state which |
| Unicode.Utf16Length | server/src/rola/helpers/create-signature-message.ts:15 | `.length` is at least the number of characters and at most twice it |
| Unicode.Utf8Encode | server/src/rola/helpers/create-signature-message.ts:20-21 | `Buffer.from(s, 'utf-8')` takes one to four bytes per character |
| Unicode.Utf8Injective | server/src/rola/helpers/create-signature-message.ts:20-21 | different strings have different UTF-8 encodings |
| Unicode.AsciiEncoding | server/src/rola/helpers/create-signature-message.ts:15-20 | for ASCII text, `.length`, the character count and the UTF-8 byte count agree, and each byte is its character's code |
| SignatureMessage.LengthSegmentOneByte | server/src/rola/helpers/create-signature-message.ts:15-19 | for an address length from 16 to 255, the length field is the single byte holding that length |
| SignatureMessage.LengthSegmentBelow16 | server/src/rola/helpers/create-signature-message.ts:15-19 | below 16 the length field is empty |
| SignatureMessage.LengthSegmentThreeDigits | server/src/rola/helpers/create-signature-message.ts:15-19 | from 256 to 4095 the length field is the single byte `length / 16` |
| SignatureMessage.LengthByteShared | server/src/rola/helpers/create-signature-message.ts:15-19 | addresses of 16 and of 256 code units get the same length byte, 0x10 |
| SignatureMessage.LengthSegment | server/src/rola/helpers/create-signature-message.ts:15-19 | the length field has half as many bytes as `length.toString(16)` has digits, rounded down: an odd last digit is lost |
| SignatureMessage.Assemble | server/src/rola/helpers/create-signature-message.ts:24-30 | the buffer is the 'R' byte followed by the challenge, length field, address and origin parts, each at its offset |
| SignatureMessage.MessageBuffer | server/src/rola/helpers/create-signature-message.ts:14-30 | the first byte is 0x52 ('R'), the hex-decoded challenge follows it, and the unprefixed UTF-8 origin is the suffix |
| SignatureMessage.MessageBufferLayout | server/src/rola/helpers/create-signature-message.ts:15-30 | between the challenge and the origin lie exactly the length field (from `.length`) and then the UTF-8 address; the length is the sum of the five parts |
| SignatureMessage.ParseMessageBuffer | server/src/rola/helpers/create-signature-message.ts:15-30 | for an ASCII address of 16 to 255 characters, reading the buffer back gives the challenge bytes, address bytes and origin bytes |
| SignatureMessage.MessageBufferInjective | server/src/rola/helpers/create-signature-message.ts:15-30 | for challenges of equal byte length and ASCII addresses of 16 to 255 characters, distinct (address, origin) pairs give distinct buffers |
| SignatureMessage.LengthFieldCountsCodeUnits | server/src/rola/helpers/create-signature-message.ts:15-20 | for an address of two-byte characters, the length field says half the number of address bytes that follow |
| SignatureMessage.CreateSignatureMessage | server/src/rola/helpers/create-signature-message.ts:32-34 | ok exactly when the hash is ok, and then lower-case hex that decodes to the digest; a hash failure becomes `couldNotHashMessage` carrying the exception |
| VerifyProof.VerifyProof | server/src/rola/helpers/verify-proof.ts:8-31 | an unsupported curve gives `unsupportedCurve`; otherwise, with the library its curve names, ok iff the key parsed and `verify` answered true on the unchanged message hex and signature, `invalidSignature` iff it answered false, and `invalidPublicKey` iff either call threw, carrying the exception that call threw |
| VerifyProof.LibFor | server/src/rola/helpers/verify-proof.ts:17-21 | a curve25519 proof is checked with the curve25519 library, a secp256k1 proof with the secp256k1 library |
| VerifyProof.UnsupportedCurveSkipsLibraries | server/src/rola/helpers/verify-proof.ts:6-14 | an unsupported curve is rejected without touching either curve library |
| VerifyProof.DispatchByCurve | server/src/rola/helpers/verify-proof.ts:17-21 | a curve25519 proof uses only the curve25519 library, a secp256k1 proof only the secp256k1 library |
| VerifyProof.ReasonsAreClosed | server/src/rola/helpers/verify-proof.ts:13-30 | the `reason` string names the cause: `unsupportedCurve` exactly for a curve outside the supported set, `invalidSignature` exactly when the library answered false, `invalidPublicKey` exactly when a library call threw |
| SignatureMessage.ShortAddressCollision | server/src/rola/helpers/create-signature-message.ts:15-19 | as written: addresses shorter than 16 get no length field, so ("ab", "c") and ("a", "bc") hash the same buffer |
| SignatureMessage.CorrectedMessageBuffer | server/src/rola/helpers/create-signature-message.ts:15-30 | as intended: one length byte holding the address's UTF-8 byte count; defined exactly when that count fits a byte, and then one byte longer than its parts |
| SignatureMessage.CorrectedParsesBack | server/src/rola/helpers/create-signature-message.ts:15-30 | as intended: every buffer of the corrected layout reads back into its challenge, address and origin bytes |
| SignatureMessage.CorrectedMessageBufferInjective | server/src/rola/helpers/create-signature-message.ts:15-30 | the intended layout never collides, whatever the address's length or alphabet |
| SignatureMessage.CorrectedAgreesOnLongAscii | server/src/rola/helpers/create-signature-message.ts:15-30 | for ASCII addresses of 16 to 255 characters, the intended layout is the one the code builds |
| VerifyHandler.EmptyProofSetAccepted | apps/server/src/index.ts:58-76 | as written: a request with no proofs is answered `valid: true` and consumes nothing |
| VerifyHandler.HandleVerifyProofsNonEmpty | apps/server/src/index.ts:55-78 | as intended: valid exactly when there is at least one proof, every challenge is live and every proof passes ROLA; a valid answer has consumed every challenge |

## Left out

- Express and CORS setup, route registration, `app.listen`, and the JSON
  response: I/O plumbing. A handler returns `valid` together with the
  store it leaves.
- `secureRandom(32)`: the token is an input of `Create`. Its freshness is
  the hypothesis `Issues(ops, token) <= 1` of `AcceptedAtMostOnce`.
- `Date.now()`: the source reads the clock inside every `verify` call,
  so the multi-proof handler reads it once per distinct challenge that
  `every` visits. VerifyHandler.Every and VerifyHandler.HandleVerifyProofs
  take one reading `now` for the whole request, so a challenge that
  expires between two reads within one request is not modelled.
- The ROLA factory (`rola.ts`), the gateway client, BLAKE2b and the
  elliptic-curve primitives: foreign code, passed in as functions.
  `rola.ts` is not part of this model.
- Concurrency: Node runs each handler's synchronous part to completion,
  so `verify` is one atomic transition. The `await` on ROLA happens after
  all store changes, so the interleaving of other requests there is not
  modelled.
- `ResultAsync`: only the all-or-nothing semantics of `combine` is
  modelled.
- Lone UTF-16 surrogates: a Dafny `char` is a Unicode scalar value, so
  strings here are always well formed.
- VerifyHandler.HandleVerifyProofs: the request body is taken to be a
  well-typed array of signed challenges. The source does not validate
  `req.body`: a body that is not an array (a single signed-challenge
  object, say) makes `req.body.reduce` throw a TypeError, and so does an
  array holding `null` at `curr.challenge`. Either way no `valid`
  answer is sent and no challenge is consumed. These throwing inputs are
  not modelled.
- Only the `challenge`, `proof` and `address` fields of a signed challenge
  are modelled. Its `type` field is never read by the modelled code.
- Unicode.Utf16Length: states only bounds in its contract.
  `AsciiEncoding` and `TwoByteText` give its exact value on the inputs
  the other lemmas need.

## Findings

| source | as written | input that shows it | evidently intended | confidence | as-written member | corrected member |
|---|---|---|---|---|---|---|
| server/src/rola/helpers/create-signature-message.ts:15-19 | the length field is `Buffer.from(length.toString(16), 'hex')`; below 16 that is one hex digit, which the hex decoder drops, so the field is empty | address "ab" with origin "c", and address "a" with origin "bc": both buffers end in the bytes of "abc" | a length byte in front of the address, so the address/origin boundary can be recovered | medium, not executed | SignatureMessage.ShortAddressCollision | SignatureMessage.CorrectedMessageBufferInjective |
| apps/server/src/index.ts:58-76 | with an empty body, `every` over no challenges is true and `combine` of no results is ok | a `POST /verify` with body `[]` is answered `valid: true` | a request must carry at least one proof to be valid | medium, not executed | VerifyHandler.EmptyProofSetAccepted | VerifyHandler.HandleVerifyProofsNonEmpty |
