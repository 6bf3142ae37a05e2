/** Core review against the approval protocol's own validation. */
module Review {
  import opened Wrappers
  import opened Bytes
  import opened Keys
  import opened Statements
  import opened ApprovalPrompts
  import Base64
  import Domains
  import Hex
  import Text
  import Utf8

  datatype RootReview = RootReview(
    persona: string, personaAnchor: string, rootSha256: string, issuedAt: i64, initialKey: string)

  datatype TransitionReview = TransitionReview(
    persona: string, personaAnchor: string, rootSha256: string, sequence: u32, previousSha256: Option<string>,
    previousKey: string, nextKey: string, issuedAt: i64, transitionSha256: string)

  predicate WithinSkew(issuedAt: i64, now: i64) {
    Domains.SaturatingSub(now, Statements.CLOCK_SKEW_SECONDS) <= issuedAt
      <= Domains.SaturatingAdd(now, Statements.CLOCK_SKEW_SECONDS)
  }

  function ReviewRoot(o: Oracles, s: RootStatement, now: i64, publicKey: string, persona: string)
    : Result<RootReview, ProofError>
  {
    var payload :- CanonicalRootBytes(o, s);
    var _ :- Need(IsJcsTime(now), InvalidContinuityStatement);
    var _ :- Need(WithinSkew(s.issuedAt, now), InvalidContinuityStatement);
    var _ :- Need(IsPersona(persona), InvalidPersona);
    var _ :- Need(s.persona == persona, InvalidContinuityStatement);
    var key :- NormalizePublicKey(publicKey);
    var fingerprint :- Fingerprint(o.sha256, key);
    var _ :- Need(fingerprint == s.initialKey, FingerprintMismatch);
    Success(RootReview(s.persona, s.personaAnchor, Sha256Hex(o, payload), s.issuedAt, s.initialKey))
  }

  function ReviewTransition(o: Oracles, s: TransitionStatement, now: i64, root: VerifiedRoot, sequence: u32,
                            previousSha256: Option<string>, previousPublicKey: string, nextPublicKey: string)
    : Result<TransitionReview, ProofError>
  {
    var payload :- CanonicalTransitionBytes(o, s);
    var _ :- Need(IsJcsTime(now), InvalidContinuityStatement);
    var _ :- Need(WithinSkew(s.issuedAt, now), InvalidContinuityStatement);
    var rootPayload :- CanonicalRootBytes(o, root.statement);
    var _ :- Need(root.sha256 == Sha256Hex(o, rootPayload), InvalidContinuityStatement);
    var _ :- Need(s.persona == root.statement.persona && s.personaAnchor == root.statement.personaAnchor
                  && s.rootSha256 == root.sha256, InvalidContinuityStatement);
    var _ :- Need(s.sequence == sequence, InvalidContinuityStatement);
    var _ :- Need(s.previousSha256 == previousSha256, InvalidContinuityStatement);
    var previous :- NormalizePublicKey(previousPublicKey);
    var next :- NormalizePublicKey(nextPublicKey);
    var previousKey :- Fingerprint(o.sha256, previous);
    var nextKey :- Fingerprint(o.sha256, next);
    var _ :- Need(previousKey == s.previousKey && nextKey == s.nextKey, FingerprintMismatch);
    Success(TransitionReview(s.persona, s.personaAnchor, s.rootSha256, s.sequence, s.previousSha256,
                             s.previousKey, s.nextKey, s.issuedAt, Sha256Hex(o, payload)))
  }

  // ----- the prompts a daemon builds from a review -----

  function OptionalDigest(t: Option<string>): Option<Option<Digest>> {
    match t
    case None => Some(None)
    case Some(text) =>
      match Hex.DecodeSha256(text)
      case Some(d) => Some(Some(d))
      case None => None
  }

  function RootPrompt(r: RootReview, requestId: Uuid, personaId: Uuid, purpose: PersonaPurpose, peer: PeerIdentity)
    : Option<ApprovalPrompt>
  {
    match Hex.DecodeSha256(r.rootSha256)
    case None => None
    case Some(root) =>
      Some(ApprovalPrompt(requestId, Some(personaId), r.persona, Some(purpose), r.initialKey,
                          PersonaRoot(r.personaAnchor, root, r.issuedAt), peer))
  }

  function TransitionPrompt(r: TransitionReview, requestId: Uuid, personaId: Uuid, purpose: PersonaPurpose,
                            peer: PeerIdentity): Option<ApprovalPrompt>
  {
    match (Hex.DecodeSha256(r.rootSha256), OptionalDigest(r.previousSha256), Hex.DecodeSha256(r.transitionSha256))
    case (Some(root), Some(previous), Some(transition)) =>
      Some(ApprovalPrompt(requestId, Some(personaId), r.persona, Some(purpose), r.previousKey,
                          PersonaTransition(r.personaAnchor, root, r.sequence, previous, r.issuedAt,
                                            r.previousKey, r.nextKey, transition), peer))
    case _ => None
  }

  function DomainPrompt(r: Domains.DomainReview, requestId: Uuid, personaId: Uuid, purpose: PersonaPurpose,
                        peer: PeerIdentity): ApprovalPrompt
  {
    ApprovalPrompt(requestId, Some(personaId), r.persona, Some(purpose), r.keyFingerprint,
                   Domain(r.domain, r.dnsTxtValue, r.issuedAt, r.expiresAt), peer)
  }

  // ----- the two rule books agree -----

  predicate PlainChar(c: char) {
    0x21 <= c as int < 0x7F
  }

  lemma PlainIsDisplayable(s: string, maximum: nat)
    requires 0 < |s| <= maximum && forall i :: 0 <= i < |s| ==> PlainChar(s[i])
    ensures IsDisplayText(s, maximum)
  {
    Utf8.AsciiLength(s);
    assert PlainChar(s[0]) && PlainChar(s[|s| - 1]);
    Text.TrimFixed(s);
  }

  lemma SymbolIsPlain(a: Base64.Alphabet, c: char)
    requires Base64.IsSymbol(a, c)
    ensures PlainChar(c)
  {}

  lemma CanonicalTextIsDisplayable(prefix: string, a: Base64.Alphabet, text: string, maximum: nat)
    requires Base64.IsCanonical32(a, text) && |prefix| + 43 <= maximum
    requires forall i :: 0 <= i < |prefix| ==> PlainChar(prefix[i])
    ensures |text| == 43 && IsDisplayText(prefix + text, maximum)
  {
    hide IsDisplayText, Base64.Value;
    Base64.Canonical32(a, text);
    forall i | 0 <= i < |prefix + text| ensures PlainChar((prefix + text)[i]) {
      if i >= |prefix| {
        SymbolIsPlain(a, text[i - |prefix|]);
      }
    }
    PlainIsDisplayable(prefix + text, maximum);
  }

  lemma AnchorAgrees(anchor: string)
    ensures IsAnchor(anchor) <==> IsPersonaAnchor(anchor)
  {
    if IsAnchor(anchor) {
      CanonicalTextIsDisplayable("", Base64.UrlSafe, anchor, MAX_PERSONA_ANCHOR_BYTES);
      assert "" + anchor == anchor;
    }
  }

  lemma FingerprintAgrees(value: string)
    ensures IsFingerprint(value) <==> IsKeyFingerprint(value)
  {
    if IsFingerprint(value) {
      var text := Text.StripPrefix(value, "SHA256:").value;
      CanonicalTextIsDisplayable("SHA256:", Base64.Standard, text, MAX_KEY_FINGERPRINT_BYTES);
      assert value == "SHA256:" + text;
    }
  }

  lemma PersonaAgrees(persona: string)
    ensures IsPersona(persona) <==> IsDisplayText(persona, MAX_PERSONA_LABEL_BYTES)
  {}

  lemma CommitmentText(d: Digest)
    ensures IsDnsTxtValue(DNS_TXT_PREFIX + Base64.Encode(Base64.UrlSafe, d))
  {
    hide IsDisplayText, Base64.Encode, Base64.Decode;
    var text := Base64.Encode(Base64.UrlSafe, d);
    Base64.DecodeEncode(Base64.UrlSafe, d);
    CanonicalTextIsDisplayable(DNS_TXT_PREFIX, Base64.UrlSafe, text, MAX_DNS_TXT_VALUE_BYTES);
    assert (DNS_TXT_PREFIX + text)[|DNS_TXT_PREFIX|..] == text;
  }

  lemma CommitmentAgrees(o: Domains.DomainOracles, payload: seq<byte>)
    ensures IsDnsTxtValue(Domains.DnsTxtCommitment(o, payload))
  {
    hide IsDnsTxtValue, Utf8.Encode, Base64.Encode;
    CommitmentText(o.sha256(Utf8.Encode(Domains.DNS_COMMITMENT_CONTEXT) + payload));
  }

  /** What the caller of a review must bring: real identifiers and a real process. */
  predicate RealCaller(requestId: Uuid, personaId: Uuid, peer: PeerIdentity) {
    !IsNil(requestId) && !IsNil(personaId) && peer.pid != 0
  }

  /** The subject shows the statement field by field, its digests as raw bytes. */
  predicate ShowsTransition(subject: ApprovalSubject, s: TransitionStatement, digest: Digest, rootDigest: Digest) {
    && subject.PersonaTransition?
    && subject.personaAnchor == s.personaAnchor && subject.sequence == s.sequence && subject.issuedAt == s.issuedAt
    && subject.previousKey == s.previousKey && subject.nextKey == s.nextKey
    && subject.transitionSha256 == digest && subject.rootSha256 == rootDigest
    && (match (subject.previousSha256, s.previousSha256)
        case (None, None) => true
        case (Some(raw), Some(text)) => Hex.Encode(raw) == text
        case _ => false)
  }

  /** Every reviewed root can be shown, field by field, with the digest of the reviewed bytes. */
  lemma RootDisplayable(o: Oracles, s: RootStatement, now: i64, publicKey: string, persona: string,
                        requestId: Uuid, personaId: Uuid, purpose: PersonaPurpose, peer: PeerIdentity)
    requires ReviewRoot(o, s, now, publicKey, persona).Success?
    ensures var p := RootPrompt(ReviewRoot(o, s, now, publicKey, persona).value, requestId, personaId, purpose, peer);
            && p.Some?
            && p.value.personaLabel == persona == s.persona && p.value.keyFingerprint == s.initialKey
            && p.value.subject == PersonaRoot(s.personaAnchor, o.sha256(o.rootBytes(s)), s.issuedAt)
            && (Valid(p.value) <==> RealCaller(requestId, personaId, peer))
  {
    hide CanonicalRootBytes, Fingerprint, NormalizePublicKey, IsDisplayText, IsFingerprint, IsAnchor, IsKeyFingerprint,
         IsPersonaAnchor, Hex.Encode, Hex.Decode, IsPersona;
    CanonicalRootFacts(o, s);
    AnchorAgrees(s.personaAnchor);
    FingerprintAgrees(s.initialKey);
    PersonaAgrees(s.persona);
    Hex.DecodeEncode(o.sha256(o.rootBytes(s)));
  }

  lemma TransitionDisplayable(o: Oracles, s: TransitionStatement, now: i64, root: VerifiedRoot, sequence: u32,
                              previousSha256: Option<string>, previousPublicKey: string, nextPublicKey: string,
                              requestId: Uuid, personaId: Uuid, purpose: PersonaPurpose, peer: PeerIdentity)
    requires ReviewTransition(o, s, now, root, sequence, previousSha256, previousPublicKey, nextPublicKey).Success?
    ensures var r := ReviewTransition(o, s, now, root, sequence, previousSha256, previousPublicKey,
                                      nextPublicKey).value;
            var p := TransitionPrompt(r, requestId, personaId, purpose, peer);
            && p.Some?
            && p.value.personaLabel == root.statement.persona && p.value.keyFingerprint == s.previousKey
            && ShowsTransition(p.value.subject, s, o.sha256(o.transitionBytes(s)),
                               o.sha256(o.rootBytes(root.statement)))
            && (Valid(p.value) <==> RealCaller(requestId, personaId, peer))
  {
    hide CanonicalRootBytes, CanonicalTransitionBytes, Fingerprint, NormalizePublicKey, IsDisplayText, IsFingerprint,
         IsAnchor, IsKeyFingerprint, IsPersonaAnchor, Hex.Encode, Hex.Decode, IsPersona, Hex.IsSha256;
    CanonicalFacts(o, s);
    AnchorAgrees(s.personaAnchor);
    FingerprintAgrees(s.previousKey);
    FingerprintAgrees(s.nextKey);
    PersonaAgrees(s.persona);
    Hex.DecodeEncode(o.sha256(o.transitionBytes(s)));
    CanonicalRootFacts(o, root.statement);
    Hex.DecodeEncode(o.sha256(o.rootBytes(root.statement)));
    if s.previousSha256.Some? {
      Hex.Sha256Spelling(s.previousSha256.value);
    }
  }

  lemma DomainDisplayable(o: Domains.DomainOracles, s: Domains.DomainStatement, now: i64, publicKey: string,
                          persona: string, requestId: Uuid, personaId: Uuid, purpose: PersonaPurpose,
                          peer: PeerIdentity)
    requires Domains.ReviewDomain(o, s, now, publicKey, persona).Success?
    ensures var p := DomainPrompt(Domains.ReviewDomain(o, s, now, publicKey, persona).value,
                                  requestId, personaId, purpose, peer);
            && p.personaLabel == persona == s.persona && p.keyFingerprint == s.keyFingerprint
            && p.subject == Domain(s.domain, Domains.DnsTxtCommitment(o, o.statementBytes(s)), s.issuedAt, s.expiresAt)
            && (Valid(p) <==> RealCaller(requestId, personaId, peer))
  {
    hide Fingerprint, NormalizePublicKey, IsFingerprint, IsKeyFingerprint, IsPersona, IsGlobalDnsName, IsDnsTxtValue,
         Domains.DnsTxtCommitment, Domains.CanonicalizeDomain, IsDisplayText;
    FingerprintAgrees(s.keyFingerprint);
    PersonaAgrees(s.persona);
    CommitmentAgrees(o, o.statementBytes(s));
    CanonicalNameAgrees(o, s.domain);
  }

  lemma CanonicalNameAgrees(o: Domains.DomainOracles, domain: string)
    requires Domains.CanonicalizeDomain(o, domain) == Success(domain)
    ensures IsDisplayText(domain, MAX_DOMAIN_BYTES) && IsGlobalDnsName(domain)
  {
    hide IsGlobalDnsName, Domains.AnyBadLabel, Domains.IsSpecialUse, Text.Split, Text.Trim, Utf8.Encode,
         Text.ContainsUnsafeDisplay, Text.EndsWith, Domains.LooksLikeUrl, Domains.Lower;
    assert Domains.IsCoreName(domain);
    Domains.NameAgrees(domain);
  }

  // ----- freshness -----

  lemma SkewIsPlain(issuedAt: i64, now: i64)
    ensures WithinSkew(issuedAt, now) <==> -300 <= issuedAt - now <= 300
  {}

  /**
   A root passes review exactly when it is valid, was issued within five minutes of a review
   time in range, and names the selected persona and key; the review then holds its fields.
   */
  lemma RootReviewExact(o: Oracles, s: RootStatement, now: i64, publicKey: string, persona: string, r: RootReview)
    ensures ReviewRoot(o, s, now, publicKey, persona) == Success(r) <==>
      && ValidateRootStatement(s).Success? && |o.rootBytes(s)| <= 65536
      && 0 <= now < 0x20_0000_0000_0000 && -300 <= s.issuedAt - now <= 300
      && s.persona == persona && Fingerprint(o.sha256, publicKey) == Success(s.initialKey)
      && r == RootReview(persona, s.personaAnchor, Hex.Encode(o.sha256(o.rootBytes(s))), s.issuedAt, s.initialKey)
  {
    hide Fingerprint, NormalizePublicKey, IsPersona, IsAnchor, IsFingerprint, WithinSkew, Hex.Encode;
    SkewIsPlain(s.issuedAt, now);
    SameFingerprint(o.sha256, publicKey);
  }

  lemma SameFingerprint(sha256: seq<byte> -> Digest, key: string)
    ensures Fingerprint(sha256, key).Success? <==> NormalizePublicKey(key).Success?
    ensures NormalizePublicKey(key).Success? ==>
      Fingerprint(sha256, NormalizePublicKey(key).value) == Fingerprint(sha256, key)
  {
    hide IsKey;
    if NormalizePublicKey(key).Success? {
      FingerprintOfNormal(sha256, key);
    }
  }

  /**
   A transition passes review exactly when it is valid, as fresh, and stands exactly behind
   the expected head of the expected root, between the two selected keys.
   */
  lemma TransitionReviewExact(o: Oracles, s: TransitionStatement, now: i64, root: VerifiedRoot, sequence: u32,
                              previousSha256: Option<string>, previousPublicKey: string, nextPublicKey: string)
    ensures ReviewTransition(o, s, now, root, sequence, previousSha256, previousPublicKey, nextPublicKey).Success? <==>
      && ValidateTransitionStatement(s).Success? && |o.transitionBytes(s)| <= 65536
      && 0 <= now < 0x20_0000_0000_0000 && -300 <= s.issuedAt - now <= 300
      && ValidateRootStatement(root.statement).Success? && |o.rootBytes(root.statement)| <= 65536
      && s.persona == root.statement.persona && s.personaAnchor == root.statement.personaAnchor
      && s.rootSha256 == root.sha256 == Hex.Encode(o.sha256(o.rootBytes(root.statement)))
      && s.sequence == sequence && s.previousSha256 == previousSha256
      && Fingerprint(o.sha256, previousPublicKey) == Success(s.previousKey)
      && Fingerprint(o.sha256, nextPublicKey) == Success(s.nextKey)
  {
    hide Fingerprint, NormalizePublicKey, ValidateTransitionStatement, ValidateRootStatement, WithinSkew, Hex.Encode;
    SkewIsPlain(s.issuedAt, now);
    SameFingerprint(o.sha256, previousPublicKey);
    SameFingerprint(o.sha256, nextPublicKey);
  }

  /**
   A domain statement passes review exactly when it is valid, its window holds the review
   time with five minutes of skew, and it names the selected persona and key; the review
   then names the record and the commitment to the statement's bytes.
   */
  lemma DomainReviewExact(o: Domains.DomainOracles, s: Domains.DomainStatement, now: i64, publicKey: string,
                          persona: string, r: Domains.DomainReview)
    ensures Domains.ReviewDomain(o, s, now, publicKey, persona) == Success(r) <==>
      && Domains.ValidateDomainStatement(o, s).Success?
      && 0 <= now && s.issuedAt - 300 <= now <= s.expiresAt + 300
      && s.persona == persona && Fingerprint(o.sha256, publicKey) == Success(s.keyFingerprint)
      && r == Domains.DomainReview(
                s.domain, s.domain + ".",
                "a-quo-domain-v1=" + Base64.Encode(
                  Base64.UrlSafe, o.sha256(Utf8.Encode("a-quo-domain-dns-txt-v1\0") + o.statementBytes(s))),
                s.issuedAt, s.expiresAt, persona, s.keyFingerprint)
  {
    hide Fingerprint, NormalizePublicKey, IsPersona, IsFingerprint, Domains.CanonicalizeDomain, Base64.Encode,
         Base64.IsCanonical32, Utf8.Encode, Domains.ValidateCurrentTime;
    Domains.TimeWindow(s, now);
    SameFingerprint(o.sha256, publicKey);
  }
}
