/**
 Persona roots and routine key transitions: statements, their validation, and the
 verification of single proofs. SHA-256, SSHSIG verification and the RFC 8785
 serialisation with its parser are parameters of the whole model.
 */
module Statements {
  import opened Wrappers
  import opened Bytes
  import opened Keys
  import Base64
  import Hex
  import Utf8

  const ROOT_STATEMENT_SCHEMA := "urn:a-quo:statement:persona-root:v1"
  const ROOT_PROOF_SCHEMA := "urn:a-quo:proof:persona-root:sshsig:v1"
  const ROOT_NAMESPACE := "a-quo-persona-root-v1"
  const TRANSITION_STATEMENT_SCHEMA := "urn:a-quo:statement:persona-transition:v1"
  const TRANSITION_PROOF_SCHEMA := "urn:a-quo:proof:persona-transition:sshsig:v1"
  const TRANSITION_NAMESPACE := "a-quo-persona-transition-v1"
  const CANONICALIZATION := "RFC8785"
  const SIGNATURE_FORMAT := "sshsig"
  const PUBLIC_KEY_FORMAT := "openssh-public-key"
  const MAX_PAYLOAD_BYTES := 64 * 1024
  const MAX_SIGNATURE_BYTES := 64 * 1024
  const MAX_PROOF_BYTES := 1048576
  const MAX_JCS_SAFE_INTEGER := 9007199254740991
  const CLOCK_SKEW_SECONDS := 5 * 60

  datatype RootStatement = RootStatement(
    schema: string,
    canonicalization: string,
    personaAnchor: string,
    persona: string,
    rootVersion: u32,
    issuedAt: i64,
    initialKey: string)

  /** The only reason this proof type knows, so the source's check of it cannot fail. */
  datatype TransitionReason = Routine

  datatype TransitionStatement = TransitionStatement(
    schema: string,
    canonicalization: string,
    personaAnchor: string,
    persona: string,
    sequence: u32,
    issuedAt: i64,
    rootSha256: string,
    previousSha256: Option<string>,
    previousKey: string,
    nextKey: string,
    reason: TransitionReason)

  datatype Role = Root | Previous | Next

  datatype Signature = Signature(
    role: Role,
    format: string,
    namespace: string,
    value: string,
    publicKeyFormat: string,
    publicKey: string)

  datatype RootProof = RootProof(schema: string, payload: string, signature: Signature)

  datatype TransitionProof = TransitionProof(schema: string, payload: string, signatures: seq<Signature>)

  datatype VerifiedRoot = VerifiedRoot(statement: RootStatement, sha256: string, initialPublicKey: string)

  datatype VerifiedTransition = VerifiedTransition(
    statement: TransitionStatement,
    sha256: string,
    previousPublicKey: string,
    nextPublicKey: string)

  /** The cryptography and serialisation the proofs rest on. */
  datatype Oracles = Oracles(
    sha256: seq<byte> -> Digest,
    sshsigVerify: (seq<byte>, string, string, string) -> bool, // payload, signature, key, namespace
    rootBytes: RootStatement -> seq<byte>,
    parseRoot: seq<byte> -> Option<RootStatement>,
    transitionBytes: TransitionStatement -> seq<byte>,
    parseTransition: seq<byte> -> Option<TransitionStatement>)


  function Sha256Hex(o: Oracles, payload: seq<byte>): string {
    Hex.Encode(o.sha256(payload))
  }

  // ----- statements -----

  predicate IsJcsTime(t: i64) {
    0 <= t <= MAX_JCS_SAFE_INTEGER
  }

  predicate IsAnchor(anchor: string) {
    Base64.IsCanonical32(Base64.UrlSafe, anchor)
  }

  function ValidateRootStatement(s: RootStatement): Result<(), ProofError> {
    var _ :- Need(s.schema == ROOT_STATEMENT_SCHEMA, InvalidContinuityStatement);
    var _ :- Need(s.canonicalization == CANONICALIZATION, InvalidContinuityStatement);
    var _ :- Need(IsAnchor(s.personaAnchor), InvalidContinuityAnchor);
    var _ :- Need(IsPersona(s.persona), InvalidPersona);
    var _ :- Need(s.rootVersion == 1, InvalidContinuityStatement);
    var _ :- Need(IsJcsTime(s.issuedAt), InvalidContinuityStatement);
    var _ :- Need(IsFingerprint(s.initialKey), InvalidPublicKey);
    Success(())
  }

  function ValidateTransitionStatement(s: TransitionStatement): Result<(), ProofError> {
    var _ :- Need(s.schema == TRANSITION_STATEMENT_SCHEMA, InvalidContinuityStatement);
    var _ :- Need(s.canonicalization == CANONICALIZATION, InvalidContinuityStatement);
    var _ :- Need(IsAnchor(s.personaAnchor), InvalidContinuityAnchor);
    var _ :- Need(IsPersona(s.persona), InvalidPersona);
    var _ :- Need(s.sequence != 0, InvalidContinuityStatement);
    var _ :- Need(IsJcsTime(s.issuedAt), InvalidContinuityStatement);
    var _ :- Need(Hex.IsSha256(s.rootSha256), InvalidContinuityStatement);
    var _ :- Need(match s.previousSha256
            case None => s.sequence == 1
            case Some(digest) => s.sequence != 1 && Hex.IsSha256(digest),
            InvalidContinuityStatement);
    var _ :- Need(IsFingerprint(s.previousKey), InvalidPublicKey);
    var _ :- Need(IsFingerprint(s.nextKey), InvalidPublicKey);
    var _ :- Need(s.previousKey != s.nextKey, InvalidContinuityStatement);
    Success(())
  }

  function CanonicalRootBytes(o: Oracles, s: RootStatement): Result<seq<byte>, ProofError> {
    var _ :- ValidateRootStatement(s);
    var _ :- Need(|o.rootBytes(s)| <= MAX_PAYLOAD_BYTES, InvalidContinuityProof);
    Success(o.rootBytes(s))
  }

  function CanonicalTransitionBytes(o: Oracles, s: TransitionStatement): Result<seq<byte>, ProofError> {
    var _ :- ValidateTransitionStatement(s);
    var _ :- Need(|o.transitionBytes(s)| <= MAX_PAYLOAD_BYTES, InvalidContinuityProof);
    Success(o.transitionBytes(s))
  }

  /**
   The parser undoes the serialiser on every valid transition statement, whose integers
   are exact in RFC 8785. Needed only to show that honest proofs are accepted.
   */
  ghost predicate Faithful(o: Oracles) {
    forall s :: ValidateTransitionStatement(s).Success? ==> o.parseTransition(o.transitionBytes(s)) == Some(s)
  }

  // ----- proof parts -----

  function DecodePayload(encoded: string): Result<seq<byte>, ProofError> {
    var _ :- Need(|Utf8.Encode(encoded)| <= MAX_PROOF_BYTES, ProofTooLarge);
    var payload := Base64.Decode(Base64.UrlSafe, encoded);
    var _ :- Need(payload.Some?, InvalidEncoding);
    var _ :- Need(|payload.value| <= MAX_PAYLOAD_BYTES, InvalidContinuityProof);
    var _ :- Need(Base64.Encode(Base64.UrlSafe, payload.value) == encoded, InvalidContinuityProof);
    Success(payload.value)
  }

  predicate SignatureSizeFits(value: string) {
    value != "" && |Utf8.Encode(value)| <= MAX_SIGNATURE_BYTES
  }

  function ValidateSignature(s: Signature, role: Role, namespace: string): Result<string, ProofError> {
    var _ :- Need(s.role == role, InvalidContinuityProof);
    var _ :- Need(s.format == SIGNATURE_FORMAT, InvalidContinuityProof);
    var _ :- Need(s.namespace == namespace, InvalidContinuityProof);
    var _ :- Need(s.publicKeyFormat == PUBLIC_KEY_FORMAT, InvalidContinuityProof);
    var _ :- Need(SignatureSizeFits(s.value), InvalidContinuityProof);
    NormalizePublicKey(s.publicKey)
  }

  function NewSignature(role: Role, value: string, publicKey: string): Signature {
    Signature(role, SIGNATURE_FORMAT, if role.Root? then ROOT_NAMESPACE else TRANSITION_NAMESPACE,
              value, PUBLIC_KEY_FORMAT, publicKey)
  }

  /** Any payload within the limit has one text, and that text decodes to it. */
  lemma PayloadText(payload: seq<byte>)
    requires |payload| <= MAX_PAYLOAD_BYTES
    ensures DecodePayload(Base64.Encode(Base64.UrlSafe, payload)) == Success(payload)
  {
    var text := Base64.Encode(Base64.UrlSafe, payload);
    Base64.DecodeEncode(Base64.UrlSafe, payload);
    Base64.EncodeShape(Base64.UrlSafe, payload);
    forall i | 0 <= i < |text| ensures text[i] as int < 0x80 {
      assert Base64.IsSymbol(Base64.UrlSafe, text[i]);
    }
    Utf8.AsciiLength(text);
  }

  /**
   Exactly the encodings of bounded payloads are accepted. The strict decoder already
   decides canonicity, so the re-encoding test refuses nothing.
   */
  lemma PayloadExact(text: string, payload: seq<byte>)
    ensures DecodePayload(text) == Success(payload) <==>
      |payload| <= MAX_PAYLOAD_BYTES && text == Base64.Encode(Base64.UrlSafe, payload)
    ensures DecodePayload(text).Success? <==>
      && |Utf8.Encode(text)| <= MAX_PROOF_BYTES
      && Base64.Decode(Base64.UrlSafe, text).Some?
      && |Base64.Decode(Base64.UrlSafe, text).value| <= MAX_PAYLOAD_BYTES
  {
    hide Base64.Encode, Base64.Decode, Utf8.Encode;
    if Base64.Decode(Base64.UrlSafe, text).Some? {
      Base64.EncodeDecode(Base64.UrlSafe, text);
    }
    if |payload| <= MAX_PAYLOAD_BYTES {
      PayloadText(payload);
    }
  }

  lemma DigestText(o: Oracles, payload: seq<byte>)
    ensures Hex.IsSha256(Sha256Hex(o, payload))
  {
    Hex.DecodeEncode(o.sha256(payload));
  }

  lemma SignatureKey(s: Signature, role: Role, namespace: string)
    requires ValidateSignature(s, role, namespace).Success?
    ensures s.role == role
    ensures var key := ValidateSignature(s, role, namespace).value; NormalizePublicKey(key) == Success(key)
  {
    hide NormalizePublicKey, KeyBlob;
    NormalizeIdempotent(s.publicKey);
  }

  lemma CanonicalFacts(o: Oracles, s: TransitionStatement)
    requires CanonicalTransitionBytes(o, s).Success?
    ensures CanonicalTransitionBytes(o, s).value == o.transitionBytes(s)
    ensures ValidateTransitionStatement(s).Success? && s.previousKey != s.nextKey
  {
    hide IsPersona, IsFingerprint, IsAnchor, Hex.IsSha256;
  }

  lemma CanonicalRootFacts(o: Oracles, s: RootStatement)
    requires CanonicalRootBytes(o, s).Success?
    ensures CanonicalRootBytes(o, s).value == o.rootBytes(s)
    ensures ValidateRootStatement(s).Success?
  {
    hide IsPersona, IsFingerprint, IsAnchor;
  }

  // ----- root proofs -----

  datatype RootPreflight = RootPreflight(payload: seq<byte>, statement: RootStatement, publicKey: string)

  function PreflightRoot(o: Oracles, proof: RootProof): Result<RootPreflight, ProofError> {
    var _ :- Need(proof.schema == ROOT_PROOF_SCHEMA, InvalidContinuityProof);
    var payload :- DecodePayload(proof.payload);
    var parsed := o.parseRoot(payload);
    var _ :- Need(parsed.Some?, InvalidContinuityStatement);
    var canonical :- CanonicalRootBytes(o, parsed.value);
    var _ :- Need(canonical == payload, NonCanonicalContinuityStatement);
    var key :- ValidateSignature(proof.signature, Root, ROOT_NAMESPACE);
    var fingerprint :- Fingerprint(o.sha256, key);
    var _ :- Need(fingerprint == parsed.value.initialKey, FingerprintMismatch);
    Success(RootPreflight(payload, parsed.value, key))
  }

  function VerifyRoot(o: Oracles, proof: RootProof): Result<VerifiedRoot, ProofError> {
    var p :- PreflightRoot(o, proof);
    var _ :- Need(o.sshsigVerify(p.payload, proof.signature.value, p.publicKey, ROOT_NAMESPACE),
            SignatureVerificationFailed);
    Success(VerifiedRoot(p.statement, Sha256Hex(o, p.payload), p.publicKey))
  }

  // ----- transition proofs -----

  datatype TransitionPreflight = TransitionPreflight(
    payload: seq<byte>,
    statement: TransitionStatement,
    previous: Signature,
    next: Signature,
    previousPublicKey: string,
    nextPublicKey: string)

  /** One signature of each role, in either order. */
  function RolePair(signatures: seq<Signature>): Result<(Signature, Signature), ProofError>
    requires |signatures| == 2
  {
    match (signatures[0].role, signatures[1].role)
    case (Previous, Next) => Success((signatures[0], signatures[1]))
    case (Next, Previous) => Success((signatures[1], signatures[0]))
    case _ => Failure(InvalidContinuityProof)
  }

  /** The preflight's scan over the signatures. */
  method PickRoles(signatures: seq<Signature>) returns (r: Result<(Signature, Signature), ProofError>)
    requires |signatures| == 2
    ensures r == RolePair(signatures)
  {
    var previous: Option<Signature> := None;
    var next: Option<Signature> := None;
    for i := 0 to |signatures|
      invariant previous.None? <==> forall j :: 0 <= j < i ==> signatures[j].role != Previous
      invariant next.None? <==> forall j :: 0 <= j < i ==> signatures[j].role != Next
      invariant previous.Some? ==> previous.value in signatures[..i] && previous.value.role == Previous
      invariant next.Some? ==> next.value in signatures[..i] && next.value.role == Next
      invariant forall j :: 0 <= j < i ==> signatures[j].role != Root
      invariant i == 2 ==> signatures[0].role != signatures[1].role
    {
      var s := signatures[i];
      if s.role == Previous && previous.None? {
        previous := Some(s);
      } else if s.role == Next && next.None? {
        next := Some(s);
      } else {
        return Failure(InvalidContinuityProof);
      }
    }
    if previous.None? || next.None? {
      return Failure(InvalidContinuityProof);
    }
    r := Success((previous.value, next.value));
  }

  function PreflightTransition(o: Oracles, proof: TransitionProof): Result<TransitionPreflight, ProofError> {
    var _ :- Need(proof.schema == TRANSITION_PROOF_SCHEMA, InvalidContinuityProof);
    var _ :- Need(|proof.signatures| == 2, InvalidContinuityProof);
    var payload :- DecodePayload(proof.payload);
    var parsed := o.parseTransition(payload);
    var _ :- Need(parsed.Some?, InvalidContinuityStatement);
    var canonical :- CanonicalTransitionBytes(o, parsed.value);
    var _ :- Need(canonical == payload, NonCanonicalContinuityStatement);
    var (previous, next) :- RolePair(proof.signatures);
    var previousKey :- ValidateSignature(previous, Previous, TRANSITION_NAMESPACE);
    var nextKey :- ValidateSignature(next, Next, TRANSITION_NAMESPACE);
    var previousFingerprint :- Fingerprint(o.sha256, previousKey);
    var nextFingerprint :- Fingerprint(o.sha256, nextKey);
    var _ :- Need(previousFingerprint == parsed.value.previousKey && nextFingerprint == parsed.value.nextKey,
            FingerprintMismatch);
    Success(TransitionPreflight(payload, parsed.value, previous, next, previousKey, nextKey))
  }

  function VerifyTransition(o: Oracles, proof: TransitionProof): Result<VerifiedTransition, ProofError> {
    var p :- PreflightTransition(o, proof);
    var _ :- Need(o.sshsigVerify(p.payload, p.previous.value, p.previousPublicKey, TRANSITION_NAMESPACE),
            SignatureVerificationFailed);
    var _ :- Need(o.sshsigVerify(p.payload, p.next.value, p.nextPublicKey, TRANSITION_NAMESPACE),
            SignatureVerificationFailed);
    Success(VerifiedTransition(p.statement, Sha256Hex(o, p.payload), p.previousPublicKey, p.nextPublicKey))
  }

  /** This key signed this payload, and its fingerprint is the one the statement names. */
  predicate Signed(o: Oracles, payload: seq<byte>, value: string, key: string, namespace: string, fingerprint: string) {
    && o.sshsigVerify(payload, value, key, namespace)
    && NormalizePublicKey(key) == Success(key)
    && Fingerprint(o.sha256, key) == Success(fingerprint)
  }

  /** One signature is by the previous key and the other by the next, both over the statement's bytes. */
  ghost predicate BothSigned(o: Oracles, proof: TransitionProof, v: VerifiedTransition) {
    exists a, b :: SignedBy(o, proof, v, a, b)
  }

  predicate SignedBy(o: Oracles, proof: TransitionProof, v: VerifiedTransition, a: Signature, b: Signature) {
    var payload := o.transitionBytes(v.statement);
    && (proof.signatures == [a, b] || proof.signatures == [b, a])
    && a.role == Previous && b.role == Next
    && Signed(o, payload, a.value, v.previousPublicKey, TRANSITION_NAMESPACE, v.statement.previousKey)
    && Signed(o, payload, b.value, v.nextPublicKey, TRANSITION_NAMESPACE, v.statement.nextKey)
  }

  /** What an accepted transition proof establishes. */
  lemma TransitionEvidence(o: Oracles, proof: TransitionProof, v: VerifiedTransition)
    requires VerifyTransition(o, proof) == Success(v)
    ensures CanonicalTransitionBytes(o, v.statement).Success?
    ensures o.parseTransition(o.transitionBytes(v.statement)) == Some(v.statement)
    ensures proof.payload == Base64.Encode(Base64.UrlSafe, o.transitionBytes(v.statement))
    ensures v.sha256 == Sha256Hex(o, o.transitionBytes(v.statement)) && Hex.IsSha256(v.sha256)
    ensures BothSigned(o, proof, v)
    ensures v.statement.previousKey != v.statement.nextKey
  {
    hide DecodePayload, CanonicalTransitionBytes, ValidateSignature, NormalizePublicKey, Fingerprint, Sha256Hex;
    var p := PreflightTransition(o, proof).value;
    PayloadExact(proof.payload, p.payload);
    DigestText(o, p.payload);
    SignatureKey(p.previous, Previous, TRANSITION_NAMESPACE);
    SignatureKey(p.next, Next, TRANSITION_NAMESPACE);
    CanonicalFacts(o, v.statement);
    assert proof.signatures == [proof.signatures[0], proof.signatures[1]];
    assert SignedBy(o, proof, v, p.previous, p.next);
  }

  lemma RootEvidence(o: Oracles, proof: RootProof, v: VerifiedRoot)
    requires VerifyRoot(o, proof) == Success(v)
    ensures CanonicalRootBytes(o, v.statement).Success?
    ensures o.parseRoot(o.rootBytes(v.statement)) == Some(v.statement)
    ensures proof.payload == Base64.Encode(Base64.UrlSafe, o.rootBytes(v.statement))
    ensures v.sha256 == Sha256Hex(o, o.rootBytes(v.statement)) && Hex.IsSha256(v.sha256)
    ensures Signed(o, o.rootBytes(v.statement), proof.signature.value, v.initialPublicKey, ROOT_NAMESPACE,
                   v.statement.initialKey)
  {
    hide DecodePayload, CanonicalRootBytes, ValidateSignature, NormalizePublicKey, Fingerprint, Sha256Hex;
    var p := PreflightRoot(o, proof).value;
    PayloadExact(proof.payload, p.payload);
    DigestText(o, p.payload);
    SignatureKey(proof.signature, Root, ROOT_NAMESPACE);
    CanonicalRootFacts(o, v.statement);
  }

  /** The order of the two signatures does not matter. */
  lemma SignatureOrder(o: Oracles, proof: TransitionProof)
    requires |proof.signatures| == 2
    ensures var swapped := proof.(signatures := [proof.signatures[1], proof.signatures[0]]);
            VerifyTransition(o, swapped) == VerifyTransition(o, proof)
  {
    hide DecodePayload, CanonicalTransitionBytes, ValidateSignature, Fingerprint, Sha256Hex;
    assert proof.signatures == [proof.signatures[0], proof.signatures[1]];
  }
}
