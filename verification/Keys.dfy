/** OpenSSH public keys as text, their normal form and their fingerprints. */
module Keys {
  import opened Wrappers
  import opened Bytes
  import Base64
  import Text
  import Utf8

  datatype ProofError =
    | ProofTooLarge
    | InvalidEncoding
    | Unsupported
    | InvalidPublicKey
    | InvalidPersona
    | InvalidDomain
    | InvalidDomainChallenge
    | InvalidDomainValidity
    | DomainProofNotYetValid
    | DomainProofExpired
    | DomainPersonaMismatch
    | InvalidContinuityAnchor
    | InvalidContinuityStatement
    | InvalidContinuityProof
    | NonCanonicalContinuityStatement
    | ContinuityChainMismatch
    | FingerprintMismatch
    | SignatureVerificationFailed
    | SignerFailed

  const MAX_PUBLIC_KEY_BYTES := 16384
  const MAX_PERSONA_BYTES := 256

  /** The two words of a key text and the blob the second one encodes. */
  function KeyBlob(key: string): Option<seq<byte>> {
    var words := Text.Words(key);
    if |words| < 2 then None else Base64.DecodePadded(words[1])
  }

  /** Both words are there, the blob decodes, and it starts with the algorithm's own name. */
  predicate IsKey(key: string) {
    var words := Text.Words(key);
    && |Utf8.Encode(key)| <= MAX_PUBLIC_KEY_BYTES
    && |words| >= 2
    && KeyBlob(key).Some?
    && var blob := KeyBlob(key).value;
       && |blob| >= 4
       && 4 + FromBE(blob[..4]) <= |blob|
       && blob[4..4 + FromBE(blob[..4])] == Utf8.Encode(words[0])
  }

  /** The algorithm and the encoded blob, without comment or extra white space. */
  function NormalizePublicKey(key: string): Result<string, ProofError> {
    var _ :- Need(IsKey(key), InvalidPublicKey);
    Success(Text.Words(key)[0] + " " + Text.Words(key)[1])
  }

  /** Normalising twice is normalising once, so every later re-normalisation is harmless. */
  lemma NormalizeIdempotent(key: string)
    requires NormalizePublicKey(key).Success?
    ensures var n := NormalizePublicKey(key).value;
            NormalizePublicKey(n) == Success(n) && KeyBlob(n) == KeyBlob(key)
  {
    Text.TwoWordsFit(key);
    var w := Text.Words(key);
    Text.WordsOfTwo(w[0], w[1]);
  }

  /** `SHA256:` and the unpadded standard Base64 of the blob's digest. */
  function Fingerprint(sha256: seq<byte> -> Digest, key: string): Result<string, ProofError> {
    var n :- NormalizePublicKey(key);
    NormalizeIdempotent(key);
    Success("SHA256:" + Base64.Encode(Base64.Standard, sha256(KeyBlob(n).value)))
  }

  lemma FingerprintOfNormal(sha256: seq<byte> -> Digest, key: string)
    requires NormalizePublicKey(key).Success?
    ensures Fingerprint(sha256, NormalizePublicKey(key).value) == Fingerprint(sha256, key)
  {
    NormalizeIdempotent(key);
  }

  /** Core's fingerprint rule: the prefix, then one canonical 32-byte digest. */
  predicate IsFingerprint(value: string) {
    var digest := Text.StripPrefix(value, "SHA256:");
    digest.Some? && Base64.IsCanonical32(Base64.Standard, digest.value)
  }

  lemma FingerprintIsCanonical(sha256: seq<byte> -> Digest, key: string)
    requires Fingerprint(sha256, key).Success?
    ensures IsFingerprint(Fingerprint(sha256, key).value)
  {
    NormalizeIdempotent(key);
    var d := sha256(KeyBlob(NormalizePublicKey(key).value).value);
    var text := Base64.Encode(Base64.Standard, d);
    Base64.DecodeEncode(Base64.Standard, d);
    assert ("SHA256:" + text)[|"SHA256:"|..] == text;
  }

  /** Core's persona rule. */
  predicate IsPersona(persona: string) {
    && persona != ""
    && Text.Trim(persona) == persona
    && |Utf8.Encode(persona)| <= MAX_PERSONA_BYTES
    && !Text.ContainsUnsafeDisplay(persona)
  }
}
