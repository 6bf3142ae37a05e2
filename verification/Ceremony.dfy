/** Building, reviewing and signing statements, and the promise that honest proofs are accepted. */
module Ceremony {
  import opened Wrappers
  import opened Bytes
  import opened Keys
  import opened Statements
  import opened Continuity
  import Base64
  import Hex

  // ----- construction -----

  /** A routine statement behind the given head, named by its sequence, digest and key. */
  function NewRoutineStatement(o: Oracles, root: VerifiedRoot, sequence: u32, previousSha256: Option<string>,
                               previousPublicKey: string, nextPublicKey: string, issuedAt: i64)
    : Result<TransitionStatement, ProofError>
  {
    var previous :- NormalizePublicKey(previousPublicKey);
    var next :- NormalizePublicKey(nextPublicKey);
    var previousKey :- Fingerprint(o.sha256, previous);
    var nextKey :- Fingerprint(o.sha256, next);
    var _ :- Need(sequence == 1 ==> previousKey == root.statement.initialKey, InvalidContinuityStatement);
    var _ :- Need(issuedAt >= root.statement.issuedAt, InvalidContinuityStatement);
    var s := TransitionStatement(
      TRANSITION_STATEMENT_SCHEMA, CANONICALIZATION, root.statement.personaAnchor, root.statement.persona,
      sequence, issuedAt, root.sha256, previousSha256, previousKey, nextKey, Routine);
    var _ :- ValidateTransitionStatement(s);
    Success(s)
  }

  /** What is built, and when: valid contents, the root's key at first, and never before the root. */
  lemma NewRoutineExact(o: Oracles, root: VerifiedRoot, sequence: u32, previousSha256: Option<string>,
                        previousPublicKey: string, nextPublicKey: string, issuedAt: i64, s: TransitionStatement)
    ensures var built := NewRoutineStatement(o, root, sequence, previousSha256, previousPublicKey, nextPublicKey,
                                             issuedAt);
      built == Success(s) <==>
      && Fingerprint(o.sha256, previousPublicKey).Success? && Fingerprint(o.sha256, nextPublicKey).Success?
      && s == TransitionStatement(
                "urn:a-quo:statement:persona-transition:v1", "RFC8785",
                root.statement.personaAnchor, root.statement.persona, sequence, issuedAt, root.sha256, previousSha256,
                Fingerprint(o.sha256, previousPublicKey).value, Fingerprint(o.sha256, nextPublicKey).value, Routine)
      && (sequence == 1 ==> s.previousKey == root.statement.initialKey)
      && root.statement.issuedAt <= issuedAt
      && ValidateTransitionStatement(s).Success?
  {
    hide Fingerprint, NormalizePublicKey, ValidateTransitionStatement;
    KeyOrNot(o, previousPublicKey);
    KeyOrNot(o, nextPublicKey);
  }

  lemma KeyOrNot(o: Oracles, key: string)
    ensures Fingerprint(o.sha256, key).Success? <==> NormalizePublicKey(key).Success?
    ensures NormalizePublicKey(key).Success? ==>
      Fingerprint(o.sha256, NormalizePublicKey(key).value) == Fingerprint(o.sha256, key)
  {
    hide IsKey;
    if NormalizePublicKey(key).Success? {
      NormalKey(o, key);
    }
  }

  /** The two signatures are what the signers returned; each is verified before it is used. */
  function CreateRoutineProof(o: Oracles, s: TransitionStatement,
                              previousValue: Result<string, ProofError>, previousPublicKey: string,
                              nextValue: Result<string, ProofError>, nextPublicKey: string)
    : Result<TransitionProof, ProofError>
  {
    var payload :- CanonicalTransitionBytes(o, s);
    var previous :- NormalizePublicKey(previousPublicKey);
    var next :- NormalizePublicKey(nextPublicKey);
    var previousKey :- Fingerprint(o.sha256, previous);
    var nextKey :- Fingerprint(o.sha256, next);
    var _ :- Need(previousKey == s.previousKey && nextKey == s.nextKey, FingerprintMismatch);
    var a :- previousValue;
    var _ :- Need(o.sshsigVerify(payload, a, previous, TRANSITION_NAMESPACE), SignatureVerificationFailed);
    var b :- nextValue;
    var _ :- Need(o.sshsigVerify(payload, b, next, TRANSITION_NAMESPACE), SignatureVerificationFailed);
    Success(TransitionProof(TRANSITION_PROOF_SCHEMA, Base64.Encode(Base64.UrlSafe, payload),
                            [NewSignature(Previous, a, previous), NewSignature(Next, b, next)]))
  }

  predicate SignaturesFit(proof: TransitionProof) {
    forall i :: 0 <= i < |proof.signatures| ==> SignatureSizeFits(proof.signatures[i].value)
  }

  lemma FreshSignature(role: Role, value: string, key: string)
    requires role != Root && NormalizePublicKey(key) == Success(key)
    ensures ValidateSignature(NewSignature(role, value, key), role, TRANSITION_NAMESPACE)
         == if SignatureSizeFits(value) then Success(key) else Failure(InvalidContinuityProof)
  {
    hide NormalizePublicKey, SignatureSizeFits;
  }

  lemma NormalKey(o: Oracles, key: string)
    requires NormalizePublicKey(key).Success?
    ensures var n := NormalizePublicKey(key).value; NormalizePublicKey(n) == Success(n)
    ensures Fingerprint(o.sha256, key).Success?
    ensures Fingerprint(o.sha256, NormalizePublicKey(key).value) == Fingerprint(o.sha256, key)
  {
    FingerprintOfNormal(o.sha256, key);
    NormalizeIdempotent(key);
  }

  /**
   If its statement survives the serialiser, a created proof verifies to that statement
   exactly when both signature texts are 1 through 65536 bytes: creation does not check the
   size that verification enforces.
   */
  lemma CreatedProofVerifies(o: Oracles, s: TransitionStatement,
                             previousValue: Result<string, ProofError>, previousPublicKey: string,
                             nextValue: Result<string, ProofError>, nextPublicKey: string)
    requires o.parseTransition(o.transitionBytes(s)) == Some(s)
    requires CreateRoutineProof(o, s, previousValue, previousPublicKey, nextValue, nextPublicKey).Success?
    ensures var proof := CreateRoutineProof(o, s, previousValue, previousPublicKey, nextValue, nextPublicKey).value;
            && (VerifyTransition(o, proof).Success? <==> SignaturesFit(proof))
            && (VerifyTransition(o, proof).Success? ==> VerifyTransition(o, proof).value.statement == s)
  {
    hide NormalizePublicKey, Fingerprint, SignatureSizeFits, CanonicalTransitionBytes, DecodePayload,
         ValidateSignature, Sha256Hex, Base64.Encode;
    var proof := CreateRoutineProof(o, s, previousValue, previousPublicKey, nextValue, nextPublicKey).value;
    CanonicalFacts(o, s);
    CanonicalBound(o, s);
    PayloadText(o.transitionBytes(s));
    NormalKey(o, previousPublicKey);
    NormalKey(o, nextPublicKey);
    var a, b := proof.signatures[0], proof.signatures[1];
    FreshSignature(Previous, a.value, a.publicKey);
    FreshSignature(Next, b.value, b.publicKey);
    assert SignaturesFit(proof) <==> SignatureSizeFits(a.value) && SignatureSizeFits(b.value);
  }

  lemma CanonicalBound(o: Oracles, s: TransitionStatement)
    requires CanonicalTransitionBytes(o, s).Success?
    ensures |o.transitionBytes(s)| <= MAX_PAYLOAD_BYTES
  {
    hide ValidateTransitionStatement;
  }

  // ----- roots -----

  function NewRootStatement(o: Oracles, anchor: string, persona: string, issuedAt: i64, publicKey: string)
    : Result<RootStatement, ProofError>
  {
    var _ :- Need(IsAnchor(anchor), InvalidContinuityAnchor);
    var _ :- Need(IsPersona(persona), InvalidPersona);
    var _ :- Need(IsJcsTime(issuedAt), InvalidContinuityStatement);
    var key :- NormalizePublicKey(publicKey);
    var fingerprint :- Fingerprint(o.sha256, key);
    var s := RootStatement(ROOT_STATEMENT_SCHEMA, CANONICALIZATION, anchor, persona, 1, issuedAt, fingerprint);
    var _ :- ValidateRootStatement(s);
    Success(s)
  }

  function CreateRootProof(o: Oracles, s: RootStatement, value: Result<string, ProofError>, publicKey: string)
    : Result<RootProof, ProofError>
  {
    var payload :- CanonicalRootBytes(o, s);
    var key :- NormalizePublicKey(publicKey);
    var fingerprint :- Fingerprint(o.sha256, key);
    var _ :- Need(fingerprint == s.initialKey, FingerprintMismatch);
    var signature :- value;
    var _ :- Need(o.sshsigVerify(payload, signature, key, ROOT_NAMESPACE), SignatureVerificationFailed);
    Success(RootProof(ROOT_PROOF_SCHEMA, Base64.Encode(Base64.UrlSafe, payload), NewSignature(Root, signature, key)))
  }

  /**
   Only the inputs decide whether a root statement can be built: its own validation never
   fails after them. What is built holds exactly those inputs and the key's fingerprint.
   */
  lemma NewRootExact(o: Oracles, anchor: string, persona: string, issuedAt: i64, publicKey: string, s: RootStatement)
    ensures NewRootStatement(o, anchor, persona, issuedAt, publicKey) == Success(s) <==>
      && IsAnchor(anchor) && IsPersona(persona) && 0 <= issuedAt < 0x20_0000_0000_0000
      && Fingerprint(o.sha256, publicKey).Success?
      && s == RootStatement("urn:a-quo:statement:persona-root:v1", "RFC8785", anchor, persona, 1, issuedAt,
                            Fingerprint(o.sha256, publicKey).value)
  {
    if Fingerprint(o.sha256, publicKey).Success? {
      FingerprintNeedsKey(o, publicKey);
    }
    hide IsAnchor, IsPersona, NormalizePublicKey, Fingerprint, IsFingerprint;
    if NormalizePublicKey(publicKey).Success? {
      NormalKey(o, publicKey);
      FingerprintIsCanonical(o.sha256, publicKey);
    }
  }

  lemma CanonicalRootBound(o: Oracles, s: RootStatement)
    requires CanonicalRootBytes(o, s).Success?
    ensures |o.rootBytes(s)| <= MAX_PAYLOAD_BYTES
  {
    hide ValidateRootStatement;
  }

  /** Likewise a created root, pinned by its own digest, is an accepted history exactly when its signature text fits. */
  lemma HonestRoot(o: Oracles, s: RootStatement, value: Result<string, ProofError>, publicKey: string)
    requires o.parseRoot(o.rootBytes(s)) == Some(s)
    requires CreateRootProof(o, s, value, publicKey).Success?
    ensures var proof := CreateRootProof(o, s, value, publicKey).value;
            && (Accepted(o, proof, [], Sha256Hex(o, o.rootBytes(s))) <==> SignatureSizeFits(proof.signature.value))
            && (SignatureSizeFits(proof.signature.value) ==> VerifyRoot(o, proof).value.statement == s)
  {
    hide NormalizePublicKey, Fingerprint, SignatureSizeFits, CanonicalRootBytes, DecodePayload, Sha256Hex,
         Base64.Encode, Hex.IsSha256, VerifyTransition;
    var proof := CreateRootProof(o, s, value, publicKey).value;
    CanonicalRootFacts(o, s);
    CanonicalRootBound(o, s);
    PayloadText(o.rootBytes(s));
    NormalKey(o, publicKey);
    DigestText(o, o.rootBytes(s));
  }

  // ----- create, verify, extend -----

  /** The next statement an honest owner builds: behind the tip, with the tip's key and another one. */
  predicate NextInput(o: Oracles, chain: Chain, previousPublicKey: string, nextPublicKey: string, issuedAt: i64) {
    && |chain.transitions| < MAX_TRANSITIONS
    && Fingerprint(o.sha256, previousPublicKey) == Success(chain.report.tipKey)
    && Fingerprint(o.sha256, nextPublicKey).Success?
    && Fingerprint(o.sha256, nextPublicKey).value != chain.report.tipKey
    && chain.report.lastIssuedAt <= issuedAt <= MAX_JCS_SAFE_INTEGER
  }

  function NextStatement(o: Oracles, chain: Chain, previousPublicKey: string, nextPublicKey: string, issuedAt: i64)
    : Result<TransitionStatement, ProofError>
    requires chain.report.transitionCount < MAX_TRANSITIONS
  {
    NewRoutineStatement(o, chain.root, chain.report.transitionCount + 1, chain.report.lastSha256,
                        previousPublicKey, nextPublicKey, issuedAt)
  }

  /** Such a statement is always accepted by construction. */
  lemma NextStatementExists(o: Oracles, rootProof: RootProof, proofs: seq<TransitionProof>, expectedRoot: string,
                            previousPublicKey: string, nextPublicKey: string, issuedAt: i64)
    requires Accepted(o, rootProof, proofs, expectedRoot)
    requires NextInput(o, ChainOf(o, rootProof, proofs, expectedRoot), previousPublicKey, nextPublicKey, issuedAt)
    ensures var chain := ChainOf(o, rootProof, proofs, expectedRoot);
            NextStatement(o, chain, previousPublicKey, nextPublicKey, issuedAt).Success?
  {
    hide Fingerprint, NormalizePublicKey, IsFingerprint, IsPersona, IsAnchor, Hex.IsSha256, VerifyRoot,
         VerifyTransition, Sha256Hex, CanonicalRootBytes, CanonicalTransitionBytes, BothSigned;
    var chain := ChainOf(o, rootProof, proofs, expectedRoot);
    RootEvidence(o, rootProof, chain.root);
    CanonicalRootFacts(o, chain.root.statement);
    FingerprintNeedsKey(o, previousPublicKey);
    FingerprintNeedsKey(o, nextPublicKey);
    NormalKey(o, previousPublicKey);
    NormalKey(o, nextPublicKey);
    FingerprintIsCanonical(o.sha256, previousPublicKey);
    FingerprintIsCanonical(o.sha256, nextPublicKey);
    TimesNeverDecrease(chain.root, chain.transitions, 0, |proofs|);
    if proofs != [] {
      TransitionEvidence(o, proofs[|proofs| - 1], chain.transitions[|proofs| - 1]);
    }
  }

  lemma FingerprintNeedsKey(o: Oracles, key: string)
    requires Fingerprint(o.sha256, key).Success?
    ensures NormalizePublicKey(key).Success?
  {
    hide IsKey;
  }

  lemma StatementAtHead(o: Oracles, root: VerifiedRoot, sequence: u32, previousSha256: Option<string>,
                        previousPublicKey: string, nextPublicKey: string, issuedAt: i64)
    requires NewRoutineStatement(o, root, sequence, previousSha256, previousPublicKey, nextPublicKey, issuedAt).Success?
    ensures var s := NewRoutineStatement(o, root, sequence, previousSha256, previousPublicKey, nextPublicKey,
                                         issuedAt).value;
            && s.sequence == sequence && s.issuedAt == issuedAt && s.previousSha256 == previousSha256
            && s.personaAnchor == root.statement.personaAnchor && s.persona == root.statement.persona
            && s.rootSha256 == root.sha256
            && Fingerprint(o.sha256, previousPublicKey) == Success(s.previousKey)
            && Fingerprint(o.sha256, nextPublicKey) == Success(s.nextKey)
            && ValidateTransitionStatement(s).Success?
  {
    hide Fingerprint, NormalizePublicKey, ValidateTransitionStatement;
    NormalKey(o, previousPublicKey);
    NormalKey(o, nextPublicKey);
  }

  /**
   Create, verify, extend: from any accepted history below capacity, the next statement,
   once signed, extends the history to that same statement, exactly when its signature
   texts have an admissible size.
   */
  lemma HonestExtension(o: Oracles, rootProof: RootProof, proofs: seq<TransitionProof>, expectedRoot: string,
                        previousPublicKey: string, nextPublicKey: string, issuedAt: i64,
                        previousValue: Result<string, ProofError>, nextValue: Result<string, ProofError>)
    requires Faithful(o) && Accepted(o, rootProof, proofs, expectedRoot)
    requires NextInput(o, ChainOf(o, rootProof, proofs, expectedRoot), previousPublicKey, nextPublicKey, issuedAt)
    ensures var chain := ChainOf(o, rootProof, proofs, expectedRoot);
            var s := NextStatement(o, chain, previousPublicKey, nextPublicKey, issuedAt);
            && s.Success?
            && var proof := CreateRoutineProof(o, s.value, previousValue, previousPublicKey, nextValue, nextPublicKey);
               proof.Success? ==>
                 && (Accepted(o, rootProof, proofs + [proof.value], expectedRoot) <==> SignaturesFit(proof.value))
                 && (SignaturesFit(proof.value) ==>
                       var longer := ChainOf(o, rootProof, proofs + [proof.value], expectedRoot);
                       longer.transitions[|proofs|].statement == s.value)
  {
    hide Fingerprint, NormalizePublicKey, VerifyRoot, VerifyTransition, NewRoutineStatement, CreateRoutineProof,
         SignaturesFit, Hex.IsSha256, Accepted, ValidateTransitionStatement;
    var chain := ChainOf(o, rootProof, proofs, expectedRoot);
    NextStatementExists(o, rootProof, proofs, expectedRoot, previousPublicKey, nextPublicKey, issuedAt);
    StatementAtHead(o, chain.root, chain.report.transitionCount + 1, chain.report.lastSha256,
                    previousPublicKey, nextPublicKey, issuedAt);
    var s := NextStatement(o, chain, previousPublicKey, nextPublicKey, issuedAt).value;
    var proof := CreateRoutineProof(o, s, previousValue, previousPublicKey, nextValue, nextPublicKey);
    if proof.Success? {
      CreatedProofVerifies(o, s, previousValue, previousPublicKey, nextValue, nextPublicKey);
      ExtensionRefines(o, rootProof, proofs, expectedRoot, proof.value);
    }
  }
}
