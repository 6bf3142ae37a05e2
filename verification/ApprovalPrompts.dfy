/**
 The display-only evidence a consent process receives, and the validation that
 both ends of the approval pipe run on it.
 */
module ApprovalPrompts {
  import opened Wrappers
  import opened Bytes
  import Base64
  import Text
  import Utf8

  datatype ProtocolError =
    | TruncatedHeader
    | InvalidMagic
    | UnsupportedVersion(major: u16, minor: u16)
    | UnsupportedMessageType(messageType: u16)
    | UnsupportedFlags(flags: u16)
    | PayloadTooLarge
    | TruncatedPayload
    | TrailingBytes
    | InvalidLayout
    | UnsupportedArtifactKind(value: byte)
    | UnsupportedPersonaPurpose(value: byte)
    | UnsupportedRecoveryParticipantRole(value: byte)
    | UnsupportedRecoveryReason(value: byte)
    | InvalidField(field: string)
    | ReadFailed

  datatype ArtifactKind = Generic | SoftwareRelease | Article | Image
  datatype PersonaPurpose = Personal | Pseudonymous | Project | Organization | LegalBridge
  datatype RecoveryParticipantRole = RecoveryAuthority | NextSigningKey
  datatype RecoveryReason = Recovery | Compromise

  datatype PeerIdentity = PeerIdentity(pid: u32, uid: u32, gid: u32)

  datatype ApprovalSubject =
    | Artifact(
        artifactKind: ArtifactKind,
        artifactLabel: string,
        artifactSha256: Digest,
        artifactSize: u64)
    | Domain(
        domain: string,
        dnsTxtValue: string,
        issuedAt: i64,
        expiresAt: i64)
    | PersonaRoot(
        personaAnchor: string,
        rootSha256: Digest,
        issuedAt: i64)
    | PersonaTransition(
        personaAnchor: string,
        rootSha256: Digest,
        sequence: u32,
        previousSha256: Option<Digest>,
        issuedAt: i64,
        previousKey: string,
        nextKey: string,
        transitionSha256: Digest)
    | RecoveryParticipation(
        requestSha256: Digest,
        ceremonyId: string,
        ceremonyExpiresAt: i64,
        personaAnchor: string,
        rootSha256: Digest,
        policyVersion: u32,
        policySha256: Digest,
        policyThreshold: u32,
        headSequence: u32,
        headSha256: Option<Digest>,
        reason: RecoveryReason,
        previousKey: string,
        nextKey: string,
        role: RecoveryParticipantRole,
        participantKey: string)

  datatype ApprovalPrompt = ApprovalPrompt(
    requestId: Uuid,
    personaId: Option<Uuid>,
    personaLabel: string,
    personaPurpose: Option<PersonaPurpose>,
    keyFingerprint: string,
    subject: ApprovalSubject,
    peer: PeerIdentity)

  const MAX_PERSONA_LABEL_BYTES := 256
  const MAX_KEY_FINGERPRINT_BYTES := 128
  const MAX_ARTIFACT_LABEL_BYTES := 256
  const MAX_DOMAIN_BYTES := 253
  const MAX_DNS_TXT_VALUE_BYTES := 128
  const MAX_PERSONA_ANCHOR_BYTES := 43
  const MAX_RECOVERY_CEREMONY_ID_BYTES := 43
  const MAX_RECOVERY_POLICY_VERSION := 1024
  const MIN_RECOVERY_THRESHOLD := 2
  const MAX_RECOVERY_THRESHOLD := 32
  const DOMAIN_MAX_VALIDITY_SECONDS := 30 * 24 * 60 * 60
  const DNS_TXT_PREFIX := "a-quo-domain-v1="

  /** Text a consent surface may show: nonempty, bounded, trimmed, with no invisible characters. */
  predicate IsDisplayText(value: string, maximum: nat) {
    && value != ""
    && |Utf8.Encode(value)| <= maximum
    && Text.Trim(value) == value
    && !Text.ContainsUnsafeDisplay(value)
  }

  /** The canonical OpenSSH form `SHA256:` and 32 bytes in unpadded standard Base64. */
  predicate IsKeyFingerprint(value: string) {
    var digest := Text.StripPrefix(value, "SHA256:");
    && IsDisplayText(value, MAX_KEY_FINGERPRINT_BYTES)
    && digest.Some?
    && Base64.IsCanonical32(Base64.Standard, digest.value)
  }

  predicate IsPersonaAnchor(value: string) {
    IsDisplayText(value, MAX_PERSONA_ANCHOR_BYTES) && Base64.IsCanonical32(Base64.UrlSafe, value)
  }

  predicate IsCeremonyId(value: string) {
    IsDisplayText(value, MAX_RECOVERY_CEREMONY_ID_BYTES) && Base64.IsCanonical32(Base64.UrlSafe, value)
  }

  predicate IsDnsTxtValue(value: string) {
    var encoded := Text.StripPrefix(value, DNS_TXT_PREFIX);
    && IsDisplayText(value, MAX_DNS_TXT_VALUE_BYTES)
    && encoded.Some?
    && Base64.IsCanonical32(Base64.UrlSafe, encoded.value)
  }

  predicate IsLabelChar(c: char) {
    'a' <= c <= 'z' || '0' <= c <= '9' || c == '-'
  }

  /** One lowercase letter-digit-hyphen label, section 2.3.4 of RFC 1035. */
  predicate IsDnsLabel(name: string) {
    && 0 < |name| <= 63
    && name[0] != '-' && name[|name| - 1] != '-'
    && forall i :: 0 <= i < |name| ==> IsLabelChar(name[i])
  }

  const SPECIAL_SUFFIXES: seq<string> := [
    "alt", "example", "example.com", "example.net", "example.org", "home.arpa",
    "invalid", "local", "localhost", "onion", "test"
  ]

  predicate IsSpecialUseDomain(domain: string) {
    exists i :: 0 <= i < |SPECIAL_SUFFIXES| &&
      (domain == SPECIAL_SUFFIXES[i] || Text.EndsWith(domain, "." + SPECIAL_SUFFIXES[i]))
  }

  /** A global name: at least two labels, all well formed, none of the special-use suffixes. */
  predicate IsGlobalDnsName(domain: string) {
    var labels := Text.Split(domain, '.');
    && |labels| >= 2
    && (forall i :: 0 <= i < |labels| ==> IsDnsLabel(labels[i]))
    && !IsSpecialUseDomain(domain)
  }

  /** Recovery prompts carry no local persona metadata; every other prompt carries all of it. */
  predicate ValidLocalPersona(p: ApprovalPrompt) {
    if p.subject.RecoveryParticipation? then
      p.personaId.None? && p.personaPurpose.None?
    else
      p.personaId.Some? && p.personaPurpose.Some? && !IsNil(p.personaId.value)
  }

  predicate ValidSubject(keyFingerprint: string, s: ApprovalSubject) {
    match s
    case Artifact(_, name, _, _) => IsDisplayText(name, MAX_ARTIFACT_LABEL_BYTES)
    case Domain(domain, txt, issuedAt, expiresAt) =>
      && IsDisplayText(domain, MAX_DOMAIN_BYTES) && IsGlobalDnsName(domain)
      && IsDnsTxtValue(txt)
      && 0 <= issuedAt < expiresAt
      && expiresAt - issuedAt <= DOMAIN_MAX_VALIDITY_SECONDS
    case PersonaRoot(anchor, _, issuedAt) => IsPersonaAnchor(anchor) && issuedAt >= 0
    case PersonaTransition(anchor, _, sequence, previous, issuedAt, previousKey, nextKey, _) =>
      && IsPersonaAnchor(anchor) && issuedAt >= 0
      && sequence != 0 && (sequence == 1 <==> previous.None?)
      && keyFingerprint == previousKey && previousKey != nextKey
      && IsKeyFingerprint(previousKey) && IsKeyFingerprint(nextKey)
    case RecoveryParticipation(_, ceremony, expiry, anchor, _, version, _, threshold, sequence, head, _,
                               previousKey, nextKey, role, participant) =>
      && IsPersonaAnchor(anchor) && IsCeremonyId(ceremony) && expiry > 0
      && 1 <= version <= MAX_RECOVERY_POLICY_VERSION
      && MIN_RECOVERY_THRESHOLD <= threshold <= MAX_RECOVERY_THRESHOLD
      && (sequence == 0 <==> head.None?)
      && keyFingerprint == participant && previousKey != nextKey
      && IsKeyFingerprint(participant) && IsKeyFingerprint(previousKey) && IsKeyFingerprint(nextKey)
      && (role.RecoveryAuthority? ==> participant != previousKey && participant != nextKey)
      && (role.NextSigningKey? ==> participant == nextKey)
  }

  /** What a prompt on either side of the pipe satisfies. */
  predicate Valid(p: ApprovalPrompt) {
    && !IsNil(p.requestId)
    && ValidLocalPersona(p)
    && IsDisplayText(p.personaLabel, MAX_PERSONA_LABEL_BYTES)
    && IsKeyFingerprint(p.keyFingerprint)
    && ValidSubject(p.keyFingerprint, p.subject)
    && p.peer.pid != 0
  }

  function ValidateDomainApproval(d: ApprovalSubject): (r: Result<(), ProtocolError>)
    requires d.Domain?
    ensures r.Success? <==> ValidSubject("", d)
  {
    var _ :- Need(IsDisplayText(d.domain, MAX_DOMAIN_BYTES) && IsGlobalDnsName(d.domain), InvalidField("domain"));
    var _ :- Need(IsDnsTxtValue(d.dnsTxtValue), InvalidField("DNS TXT value"));
    // checked_sub on i64
    var validity := d.expiresAt as int - d.issuedAt as int;
    var _ :- Need(I64_MIN <= validity <= I64_MAX, InvalidField("domain validity"));
    var _ :- Need(d.issuedAt >= 0 && 0 < validity <= DOMAIN_MAX_VALIDITY_SECONDS, InvalidField("domain validity"));
    Success(())
  }

  function ValidatePersonaRootApproval(s: ApprovalSubject): (r: Result<(), ProtocolError>)
    requires s.PersonaRoot?
    ensures r.Success? <==> ValidSubject("", s)
  {
    var _ :- Need(IsPersonaAnchor(s.personaAnchor), InvalidField("persona anchor"));
    var _ :- Need(s.issuedAt >= 0, InvalidField("root issuance time"));
    Success(())
  }

  function ValidatePersonaTransitionApproval(keyFingerprint: string, t: ApprovalSubject): (r: Result<(), ProtocolError>)
    requires t.PersonaTransition?
    ensures r.Success? <==> ValidSubject(keyFingerprint, t)
  {
    var _ :- Need(IsPersonaAnchor(t.personaAnchor), InvalidField("persona anchor"));
    var _ :- Need(t.issuedAt >= 0, InvalidField("transition issuance time"));
    var _ :- Need(t.sequence != 0, InvalidField("transition sequence"));
    var _ :- Need((t.sequence == 1) == t.previousSha256.None?, InvalidField("previous transition digest"));
    var _ :- Need(keyFingerprint == t.previousKey, InvalidField("previous key fingerprint"));
    var _ :- Need(IsKeyFingerprint(t.previousKey), InvalidField("previous key fingerprint"));
    var _ :- Need(IsKeyFingerprint(t.nextKey), InvalidField("next key fingerprint"));
    var _ :- Need(t.previousKey != t.nextKey, InvalidField("next key fingerprint"));
    Success(())
  }

  function ValidateRecoveryApproval(keyFingerprint: string, s: ApprovalSubject): (r: Result<(), ProtocolError>)
    requires s.RecoveryParticipation?
    ensures r.Success? <==> ValidSubject(keyFingerprint, s)
  {
    var _ :- Need(IsPersonaAnchor(s.personaAnchor), InvalidField("persona anchor"));
    var _ :- Need(IsCeremonyId(s.ceremonyId), InvalidField("ceremony ID"));
    var _ :- Need(s.ceremonyExpiresAt > 0, InvalidField("ceremony expiry"));
    var _ :- Need(1 <= s.policyVersion <= MAX_RECOVERY_POLICY_VERSION, InvalidField("recovery policy version"));
    var _ :- Need(MIN_RECOVERY_THRESHOLD <= s.policyThreshold <= MAX_RECOVERY_THRESHOLD,
            InvalidField("recovery policy threshold"));
    var _ :- Need((s.headSequence == 0) == s.headSha256.None?, InvalidField("previous head digest"));
    var _ :- Need(IsKeyFingerprint(s.participantKey), InvalidField("participant key fingerprint"));
    var _ :- Need(keyFingerprint == s.participantKey, InvalidField("participant key fingerprint"));
    var _ :- Need(IsKeyFingerprint(s.previousKey), InvalidField("previous key fingerprint"));
    var _ :- Need(IsKeyFingerprint(s.nextKey), InvalidField("next key fingerprint"));
    var _ :- Need(s.previousKey != s.nextKey, InvalidField("next key fingerprint"));
    var _ :- Need(match s.role
            case RecoveryAuthority => s.participantKey != s.previousKey && s.participantKey != s.nextKey
            case NextSigningKey => s.participantKey == s.nextKey,
            InvalidField("participant key fingerprint"));
    Success(())
  }

  function ValidateSubject(keyFingerprint: string, s: ApprovalSubject): (r: Result<(), ProtocolError>)
    ensures r.Success? <==> ValidSubject(keyFingerprint, s)
  {
    match s
    case Artifact(_, name, _, _) =>
      var _ :- Need(IsDisplayText(name, MAX_ARTIFACT_LABEL_BYTES), InvalidField("artifact label"));
      Success(())
    case Domain(_, _, _, _) => ValidateDomainApproval(s)
    case PersonaRoot(_, _, _) => ValidatePersonaRootApproval(s)
    case PersonaTransition(_, _, _, _, _, _, _, _) => ValidatePersonaTransitionApproval(keyFingerprint, s)
    case RecoveryParticipation(_, _, _, _, _, _, _, _, _, _, _, _, _, _, _) =>
      ValidateRecoveryApproval(keyFingerprint, s)
  }

  function ValidateLocalPersona(p: ApprovalPrompt): (r: Result<(), ProtocolError>)
    ensures r.Success? <==> ValidLocalPersona(p)
  {
    match (p.personaId, p.personaPurpose, p.subject.RecoveryParticipation?)
    case (None, None, true) => Success(())
    case (_, _, true) => Failure(InvalidField("local persona metadata"))
    case (Some(id), Some(_), false) =>
      if IsNil(id) then Failure(InvalidField("persona ID")) else Success(())
    case _ => Failure(InvalidField("local persona metadata"))
  }

  function ValidatePrompt(p: ApprovalPrompt): (r: Result<(), ProtocolError>)
    ensures r.Success? <==> Valid(p)
  {
    var _ :- Need(!IsNil(p.requestId), InvalidField("request ID"));
    var _ :- ValidateLocalPersona(p);
    var _ :- Need(IsDisplayText(p.personaLabel, MAX_PERSONA_LABEL_BYTES), InvalidField("persona label"));
    var _ :- Need(IsKeyFingerprint(p.keyFingerprint), InvalidField("key fingerprint"));
    var _ :- ValidateSubject(p.keyFingerprint, p.subject);
    var _ :- Need(p.peer.pid != 0, InvalidField("peer PID"));
    Success(())
  }

  /** The texts a message stores, in order. A fingerprint that repeats is stored once. */
  function TextsOf(p: ApprovalPrompt): seq<string> {
    match p.subject
    case Artifact(_, name, _, _) => [p.personaLabel, p.keyFingerprint, name]
    case Domain(domain, txt, _, _) => [p.personaLabel, p.keyFingerprint, domain, txt]
    case PersonaRoot(anchor, _, _) => [p.personaLabel, p.keyFingerprint, anchor]
    case PersonaTransition(anchor, _, _, _, _, previousKey, nextKey, _) =>
      [p.personaLabel, previousKey, nextKey, anchor]
    case RecoveryParticipation(_, ceremony, _, anchor, _, _, _, _, _, _, _, previousKey, nextKey, _, participant) =>
      [p.personaLabel, participant, previousKey, nextKey, anchor, ceremony]
  }

  /** The byte limits validation puts on the texts of a prompt. */
  function TextLimits(p: ApprovalPrompt): seq<nat> {
    match p.subject
    case Artifact(_, _, _, _) => [256, 128, 256]
    case Domain(_, _, _, _) => [256, 128, 253, 128]
    case PersonaRoot(_, _, _) => [256, 128, 43]
    case PersonaTransition(_, _, _, _, _, _, _, _) => [256, 128, 128, 43]
    case RecoveryParticipation(_, _, _, _, _, _, _, _, _, _, _, _, _, _, _) => [256, 128, 128, 128, 43, 43]
  }

  predicate Within(texts: seq<string>, limits: seq<nat>) {
    |texts| == |limits| && forall i :: 0 <= i < |texts| ==> |Utf8.Encode(texts[i])| <= limits[i]
  }

  /** What a message does not store separately, validation has already made redundant. */
  predicate NothingHidden(p: ApprovalPrompt) {
    && (p.subject.PersonaTransition? ==> p.keyFingerprint == p.subject.previousKey)
    && (p.subject.RecoveryParticipation? ==>
          p.keyFingerprint == p.subject.participantKey && p.personaId.None? && p.personaPurpose.None?)
  }

  predicate TextsBounded(p: ApprovalPrompt) {
    && |Utf8.Encode(p.personaLabel)| <= MAX_PERSONA_LABEL_BYTES
    && |Utf8.Encode(p.keyFingerprint)| <= MAX_KEY_FINGERPRINT_BYTES
    && match p.subject
       case Artifact(_, name, _, _) => |Utf8.Encode(name)| <= MAX_ARTIFACT_LABEL_BYTES
       case Domain(domain, txt, _, _) =>
         |Utf8.Encode(domain)| <= MAX_DOMAIN_BYTES && |Utf8.Encode(txt)| <= MAX_DNS_TXT_VALUE_BYTES
       case PersonaRoot(anchor, _, _) => |Utf8.Encode(anchor)| <= MAX_PERSONA_ANCHOR_BYTES
       case PersonaTransition(anchor, _, _, _, _, _, nextKey, _) =>
         && |Utf8.Encode(nextKey)| <= MAX_KEY_FINGERPRINT_BYTES
         && |Utf8.Encode(anchor)| <= MAX_PERSONA_ANCHOR_BYTES
       case RecoveryParticipation(_, ceremony, _, anchor, _, _, _, _, _, _, _, previousKey, nextKey, _, _) =>
         && |Utf8.Encode(previousKey)| <= MAX_KEY_FINGERPRINT_BYTES
         && |Utf8.Encode(nextKey)| <= MAX_KEY_FINGERPRINT_BYTES
         && |Utf8.Encode(anchor)| <= MAX_PERSONA_ANCHOR_BYTES
         && |Utf8.Encode(ceremony)| <= MAX_RECOVERY_CEREMONY_ID_BYTES
  }

  lemma ValidBounds(p: ApprovalPrompt)
    requires Valid(p)
    ensures NothingHidden(p) && TextsBounded(p)
    ensures !p.subject.RecoveryParticipation? ==> p.personaId.Some? && p.personaPurpose.Some?
  {}

  lemma BoundedWithin(p: ApprovalPrompt)
    requires NothingHidden(p) && TextsBounded(p)
    ensures Within(TextsOf(p), TextLimits(p))
  {}
}
