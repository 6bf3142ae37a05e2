/**
 The five prompt payloads as typed field records, their documented offset tables,
 and the readers and writers of each.
 */
module ApprovalPayloads {
  import opened Wrappers
  import opened Bytes
  import opened ApprovalPrompts
  import opened ApprovalWire

  /** The fields of one payload, with texts still as bytes. */
  datatype Payload =
    | ArtifactFields(
        kind: ArtifactKind, purpose: PersonaPurpose, peer: PeerIdentity, size: u64,
        requestId: Uuid, personaId: Uuid, artifactSha256: Digest,
        texts: seq<seq<byte>>) // persona label, key fingerprint, artifact label
    | DomainFields(
        purpose: PersonaPurpose, peer: PeerIdentity, issuedAt: i64, expiresAt: i64,
        requestId: Uuid, personaId: Uuid,
        texts: seq<seq<byte>>) // persona label, key fingerprint, domain, DNS TXT value
    | RootFields(
        purpose: PersonaPurpose, peer: PeerIdentity, issuedAt: i64,
        requestId: Uuid, personaId: Uuid, rootSha256: Digest,
        texts: seq<seq<byte>>) // persona label, key fingerprint, persona anchor
    | TransitionFields(
        purpose: PersonaPurpose, previousSha256: Option<Digest>, peer: PeerIdentity,
        sequence: u32, issuedAt: i64, requestId: Uuid, personaId: Uuid,
        rootSha256: Digest, transitionSha256: Digest,
        texts: seq<seq<byte>>) // persona label, previous key, next key, persona anchor
    | RecoveryFields(
        role: RecoveryParticipantRole, reason: RecoveryReason, headSha256: Option<Digest>,
        peer: PeerIdentity, policyVersion: u32, policyThreshold: u32, headSequence: u32,
        expiresAt: i64, requestId: Uuid, requestSha256: Digest, rootSha256: Digest,
        policySha256: Digest,
        texts: seq<seq<byte>>) // persona label, participant, previous and next key, anchor, ceremony ID

  /** The caller identity every layout keeps at offsets 4, 8 and 12. */
  predicate PeerAt(b: seq<byte>, peer: PeerIdentity) {
    At(b, 4, ToBE(peer.pid, 4)) && At(b, 8, ToBE(peer.uid, 4)) && At(b, 12, ToBE(peer.gid, 4))
  }

  function ReadPeer(b: seq<byte>): (peer: PeerIdentity)
    requires |b| >= 16
    ensures PeerAt(b, peer)
  {
    PeerIdentity(ReadU32(b, 4), ReadU32(b, 8), ReadU32(b, 12))
  }

  lemma ReadPeerOf(b: seq<byte>, peer: PeerIdentity)
    requires |b| >= 16 && PeerAt(b, peer)
    ensures ReadPeer(b) == peer
  {
    ReadU32Of(b, 4, peer.pid);
    ReadU32Of(b, 8, peer.uid);
    ReadU32Of(b, 12, peer.gid);
  }

  lemma AgreePeer(m: seq<byte>, n: seq<byte>, peer: PeerIdentity)
    requires |m| >= 4 && |n| >= 4 && m[..4] == n[..4] && PeerAt(m, peer) && PeerAt(n, peer)
    ensures m[..16] == n[..16]
  {
    Agree(m, n, 4, ToBE(peer.pid, 4));
    Agree(m, n, 8, ToBE(peer.uid, 4));
    Agree(m, n, 12, ToBE(peer.gid, 4));
  }

  method ExtendPeer(message: seq<byte>, peer: PeerIdentity) returns (m: seq<byte>)
    requires |message| == 4
    ensures |m| == 16
    ensures forall whole :: Begins(whole, m) ==> Begins(whole, message) && PeerAt(whole, peer)
  {
    m := Extend(message, ToBE(peer.pid, 4));
    m := Extend(m, ToBE(peer.uid, 4));
    m := Extend(m, ToBE(peer.gid, 4));
  }

  lemma OneByteAt(b: seq<byte>, off: nat, v: byte)
    requires off < |b|
    ensures At(b, off, [v]) <==> b[off] == v
  {
    assert b[off..off + 1] == [b[off]];
  }

  // ----- artifact prompt -----

  /** Message type 1. */
  predicate ArtifactAt(f: Payload, b: seq<byte>)
    requires f.ArtifactFields?
  {
    && |b| >= ARTIFACT_PREFIX
    && At(b, 0, [KindCode(f.kind)])
    && At(b, 1, [PurposeCode(f.purpose)])
    && At(b, 2, Zeros(2))
    && PeerAt(b, f.peer)
    && At(b, 16, ToBE(f.size, 8))
    && At(b, 24, f.requestId)
    && At(b, 40, f.personaId)
    && At(b, 56, f.artifactSha256)
    && LengthsAt(b, 88, f.texts)
    && At(b, 94, Zeros(2))
    && TextsAt(b, ARTIFACT_PREFIX, f.texts)
  }

  function ReadArtifact(b: seq<byte>): (r: Result<Payload, ProtocolError>)
    ensures r.Success? ==> r.value.ArtifactFields? && |r.value.texts| == 3
  {
    var _ :- Need(|b| >= ARTIFACT_PREFIX && b[2..4] == Zeros(2) && b[94..96] == Zeros(2), InvalidLayout);
    var kind :- DecodeKind(b[0]);
    var purpose :- DecodePurpose(b[1]);
    var texts :- ReadTextBlock(b, 88, ARTIFACT_PREFIX, 3);
    Success(ArtifactFields(kind, purpose, ReadPeer(b), ReadU64(b, 16), b[24..40], b[40..56], b[56..88], texts))
  }

  lemma ArtifactSound(f: Payload, b: seq<byte>)
    requires ReadArtifact(b) == Success(f)
    ensures f.ArtifactFields? && |f.texts| == 3 && AllShort(f.texts) && ArtifactAt(f, b)
  {
    TextBlockExact(b, 88, ARTIFACT_PREFIX, f.texts);
    OneByteAt(b, 0, KindCode(f.kind));
    OneByteAt(b, 1, PurposeCode(f.purpose));
  }

  lemma ArtifactComplete(f: Payload, b: seq<byte>)
    requires f.ArtifactFields? && |f.texts| == 3 && AllShort(f.texts) && ArtifactAt(f, b)
    ensures ReadArtifact(b) == Success(f)
  {
    TextBlockExact(b, 88, ARTIFACT_PREFIX, f.texts);
    ReadPeerOf(b, f.peer);
    OneByteAt(b, 0, KindCode(f.kind));
    OneByteAt(b, 1, PurposeCode(f.purpose));
    ReadU64Of(b, 16, f.size);
  }

  lemma ArtifactUnique(f: Payload, m: seq<byte>, n: seq<byte>)
    requires f.ArtifactFields? && |f.texts| == 3 && ArtifactAt(f, m) && ArtifactAt(f, n)
    ensures m == n
  {
    Agree(m, n, 0, [KindCode(f.kind)]);
    Agree(m, n, 1, [PurposeCode(f.purpose)]);
    Agree(m, n, 2, Zeros(2));
    AgreePeer(m, n, f.peer);
    Agree(m, n, 16, ToBE(f.size, 8));
    Agree(m, n, 24, f.requestId);
    Agree(m, n, 40, f.personaId);
    Agree(m, n, 56, f.artifactSha256);
    AgreeLengths(m, n, 88, f.texts);
    Agree(m, n, 94, Zeros(2));
    AgreeTexts(m, n, ARTIFACT_PREFIX, f.texts);
  }

  method WriteArtifact(f: Payload) returns (b: seq<byte>)
    requires f.ArtifactFields? && |f.texts| == 3
    ensures ArtifactAt(f, b)
  {
    b := Extend([], [KindCode(f.kind)]);
    b := Extend(b, [PurposeCode(f.purpose)]);
    b := Extend(b, Zeros(2));
    b := ExtendPeer(b, f.peer);
    b := Extend(b, ToBE(f.size, 8));
    b := Extend(b, f.requestId);
    b := Extend(b, f.personaId);
    b := Extend(b, f.artifactSha256);
    b := ExtendLengths(b, f.texts);
    b := Extend(b, Zeros(2));
    b := ExtendTexts(b, f.texts);
  }

  // ----- domain prompt -----

  /** Message type 5. */
  predicate DomainAt(f: Payload, b: seq<byte>)
    requires f.DomainFields?
  {
    && |b| >= DOMAIN_PREFIX
    && At(b, 0, [PurposeCode(f.purpose)])
    && At(b, 1, Zeros(3))
    && PeerAt(b, f.peer)
    && At(b, 16, ToI64(f.issuedAt))
    && At(b, 24, ToI64(f.expiresAt))
    && At(b, 32, f.requestId)
    && At(b, 48, f.personaId)
    && LengthsAt(b, 64, f.texts)
    && At(b, 72, Zeros(4))
    && TextsAt(b, DOMAIN_PREFIX, f.texts)
  }

  function ReadDomain(b: seq<byte>): (r: Result<Payload, ProtocolError>)
    ensures r.Success? ==> r.value.DomainFields? && |r.value.texts| == 4
  {
    var _ :- Need(|b| >= DOMAIN_PREFIX && b[1..4] == Zeros(3) && b[72..76] == Zeros(4), InvalidLayout);
    var purpose :- DecodePurpose(b[0]);
    var texts :- ReadTextBlock(b, 64, DOMAIN_PREFIX, 4);
    Success(DomainFields(purpose, ReadPeer(b), ReadI64(b, 16), ReadI64(b, 24), b[32..48], b[48..64], texts))
  }

  lemma DomainSound(f: Payload, b: seq<byte>)
    requires ReadDomain(b) == Success(f)
    ensures f.DomainFields? && |f.texts| == 4 && AllShort(f.texts) && DomainAt(f, b)
  {
    TextBlockExact(b, 64, DOMAIN_PREFIX, f.texts);
    OneByteAt(b, 0, PurposeCode(f.purpose));
  }

  lemma DomainComplete(f: Payload, b: seq<byte>)
    requires f.DomainFields? && |f.texts| == 4 && AllShort(f.texts) && DomainAt(f, b)
    ensures ReadDomain(b) == Success(f)
  {
    TextBlockExact(b, 64, DOMAIN_PREFIX, f.texts);
    ReadPeerOf(b, f.peer);
    OneByteAt(b, 0, PurposeCode(f.purpose));
    ReadI64Of(b, 16, f.issuedAt);
    ReadI64Of(b, 24, f.expiresAt);
  }

  lemma DomainUnique(f: Payload, m: seq<byte>, n: seq<byte>)
    requires f.DomainFields? && |f.texts| == 4 && DomainAt(f, m) && DomainAt(f, n)
    ensures m == n
  {
    Agree(m, n, 0, [PurposeCode(f.purpose)]);
    Agree(m, n, 1, Zeros(3));
    AgreePeer(m, n, f.peer);
    Agree(m, n, 16, ToI64(f.issuedAt));
    Agree(m, n, 24, ToI64(f.expiresAt));
    Agree(m, n, 32, f.requestId);
    Agree(m, n, 48, f.personaId);
    AgreeLengths(m, n, 64, f.texts);
    Agree(m, n, 72, Zeros(4));
    AgreeTexts(m, n, DOMAIN_PREFIX, f.texts);
  }

  method WriteDomain(f: Payload) returns (b: seq<byte>)
    requires f.DomainFields? && |f.texts| == 4
    ensures DomainAt(f, b)
  {
    b := Extend([], [PurposeCode(f.purpose)]);
    b := Extend(b, Zeros(3));
    b := ExtendPeer(b, f.peer);
    b := Extend(b, ToI64(f.issuedAt));
    b := Extend(b, ToI64(f.expiresAt));
    b := Extend(b, f.requestId);
    b := Extend(b, f.personaId);
    b := ExtendLengths(b, f.texts);
    b := Extend(b, Zeros(4));
    b := ExtendTexts(b, f.texts);
  }

  // ----- root prompt -----

  /** Message type 6. */
  predicate RootAt(f: Payload, b: seq<byte>)
    requires f.RootFields?
  {
    && |b| >= ROOT_PREFIX
    && At(b, 0, [PurposeCode(f.purpose)])
    && At(b, 1, Zeros(3))
    && PeerAt(b, f.peer)
    && At(b, 16, ToI64(f.issuedAt))
    && At(b, 24, f.requestId)
    && At(b, 40, f.personaId)
    && At(b, 56, f.rootSha256)
    && LengthsAt(b, 88, f.texts)
    && At(b, 94, Zeros(2))
    && TextsAt(b, ROOT_PREFIX, f.texts)
  }

  function ReadRoot(b: seq<byte>): (r: Result<Payload, ProtocolError>)
    ensures r.Success? ==> r.value.RootFields? && |r.value.texts| == 3
  {
    var _ :- Need(|b| >= ROOT_PREFIX && b[1..4] == Zeros(3) && b[94..96] == Zeros(2), InvalidLayout);
    var purpose :- DecodePurpose(b[0]);
    var texts :- ReadTextBlock(b, 88, ROOT_PREFIX, 3);
    Success(RootFields(purpose, ReadPeer(b), ReadI64(b, 16), b[24..40], b[40..56], b[56..88], texts))
  }

  lemma RootSound(f: Payload, b: seq<byte>)
    requires ReadRoot(b) == Success(f)
    ensures f.RootFields? && |f.texts| == 3 && AllShort(f.texts) && RootAt(f, b)
  {
    TextBlockExact(b, 88, ROOT_PREFIX, f.texts);
    OneByteAt(b, 0, PurposeCode(f.purpose));
  }

  lemma RootComplete(f: Payload, b: seq<byte>)
    requires f.RootFields? && |f.texts| == 3 && AllShort(f.texts) && RootAt(f, b)
    ensures ReadRoot(b) == Success(f)
  {
    TextBlockExact(b, 88, ROOT_PREFIX, f.texts);
    ReadPeerOf(b, f.peer);
    OneByteAt(b, 0, PurposeCode(f.purpose));
    ReadI64Of(b, 16, f.issuedAt);
  }

  lemma RootUnique(f: Payload, m: seq<byte>, n: seq<byte>)
    requires f.RootFields? && |f.texts| == 3 && RootAt(f, m) && RootAt(f, n)
    ensures m == n
  {
    Agree(m, n, 0, [PurposeCode(f.purpose)]);
    Agree(m, n, 1, Zeros(3));
    AgreePeer(m, n, f.peer);
    Agree(m, n, 16, ToI64(f.issuedAt));
    Agree(m, n, 24, f.requestId);
    Agree(m, n, 40, f.personaId);
    Agree(m, n, 56, f.rootSha256);
    AgreeLengths(m, n, 88, f.texts);
    Agree(m, n, 94, Zeros(2));
    AgreeTexts(m, n, ROOT_PREFIX, f.texts);
  }

  method WriteRoot(f: Payload) returns (b: seq<byte>)
    requires f.RootFields? && |f.texts| == 3
    ensures RootAt(f, b)
  {
    b := Extend([], [PurposeCode(f.purpose)]);
    b := Extend(b, Zeros(3));
    b := ExtendPeer(b, f.peer);
    b := Extend(b, ToI64(f.issuedAt));
    b := Extend(b, f.requestId);
    b := Extend(b, f.personaId);
    b := Extend(b, f.rootSha256);
    b := ExtendLengths(b, f.texts);
    b := Extend(b, Zeros(2));
    b := ExtendTexts(b, f.texts);
  }

  // ----- transition prompt -----

  /** Message type 7. */
  predicate TransitionAt(f: Payload, b: seq<byte>)
    requires f.TransitionFields?
  {
    && |b| >= TRANSITION_PREFIX
    && At(b, 0, [PurposeCode(f.purpose)])
    && At(b, 1, [PresenceCode(f.previousSha256)])
    && At(b, 2, Zeros(2))
    && PeerAt(b, f.peer)
    && At(b, 16, ToBE(f.sequence, 4))
    && At(b, 20, ToI64(f.issuedAt))
    && At(b, 28, f.requestId)
    && At(b, 44, f.personaId)
    && At(b, 60, f.rootSha256)
    && At(b, 92, DigestOrZero(f.previousSha256))
    && At(b, 124, f.transitionSha256)
    && LengthsAt(b, 156, f.texts)
    && At(b, 164, Zeros(4))
    && TextsAt(b, TRANSITION_PREFIX, f.texts)
  }

  function ReadTransition(b: seq<byte>): (r: Result<Payload, ProtocolError>)
    ensures r.Success? ==> r.value.TransitionFields? && |r.value.texts| == 4
  {
    var _ :- Need(|b| >= TRANSITION_PREFIX && b[2..4] == Zeros(2) && b[164..168] == Zeros(4) && b[1] <= 1,
            InvalidLayout);
    var purpose :- DecodePurpose(b[0]);
    var previousSha256 :- DecodeOptionalDigest(b[1], b[92..124]);
    var texts :- ReadTextBlock(b, 156, TRANSITION_PREFIX, 4);
    Success(TransitionFields(
      purpose, previousSha256, ReadPeer(b), ReadU32(b, 16),
      ReadI64(b, 20), b[28..44], b[44..60], b[60..92], b[124..156], texts))
  }

  lemma TransitionSound(f: Payload, b: seq<byte>)
    requires ReadTransition(b) == Success(f)
    ensures f.TransitionFields? && |f.texts| == 4 && AllShort(f.texts) && TransitionAt(f, b)
  {
    TextBlockExact(b, 156, TRANSITION_PREFIX, f.texts);
    OneByteAt(b, 0, PurposeCode(f.purpose));
    OneByteAt(b, 1, PresenceCode(f.previousSha256));
  }

  lemma TransitionComplete(f: Payload, b: seq<byte>)
    requires f.TransitionFields? && |f.texts| == 4 && AllShort(f.texts) && TransitionAt(f, b)
    ensures ReadTransition(b) == Success(f)
  {
    TextBlockExact(b, 156, TRANSITION_PREFIX, f.texts);
    ReadPeerOf(b, f.peer);
    OneByteAt(b, 0, PurposeCode(f.purpose));
    OneByteAt(b, 1, PresenceCode(f.previousSha256));
    ReadU32Of(b, 16, f.sequence);
    ReadI64Of(b, 20, f.issuedAt);
  }

  lemma TransitionUnique(f: Payload, m: seq<byte>, n: seq<byte>)
    requires f.TransitionFields? && |f.texts| == 4 && TransitionAt(f, m) && TransitionAt(f, n)
    ensures m == n
  {
    Agree(m, n, 0, [PurposeCode(f.purpose)]);
    Agree(m, n, 1, [PresenceCode(f.previousSha256)]);
    Agree(m, n, 2, Zeros(2));
    AgreePeer(m, n, f.peer);
    Agree(m, n, 16, ToBE(f.sequence, 4));
    Agree(m, n, 20, ToI64(f.issuedAt));
    Agree(m, n, 28, f.requestId);
    Agree(m, n, 44, f.personaId);
    Agree(m, n, 60, f.rootSha256);
    Agree(m, n, 92, DigestOrZero(f.previousSha256));
    Agree(m, n, 124, f.transitionSha256);
    AgreeLengths(m, n, 156, f.texts);
    Agree(m, n, 164, Zeros(4));
    AgreeTexts(m, n, TRANSITION_PREFIX, f.texts);
  }

  method WriteTransition(f: Payload) returns (b: seq<byte>)
    requires f.TransitionFields? && |f.texts| == 4
    ensures TransitionAt(f, b)
  {
    b := Extend([], [PurposeCode(f.purpose)]);
    b := Extend(b, [PresenceCode(f.previousSha256)]);
    b := Extend(b, Zeros(2));
    b := ExtendPeer(b, f.peer);
    b := Extend(b, ToBE(f.sequence, 4));
    b := Extend(b, ToI64(f.issuedAt));
    b := Extend(b, f.requestId);
    b := Extend(b, f.personaId);
    b := Extend(b, f.rootSha256);
    b := Extend(b, DigestOrZero(f.previousSha256));
    b := Extend(b, f.transitionSha256);
    b := ExtendLengths(b, f.texts);
    b := Extend(b, Zeros(4));
    b := ExtendTexts(b, f.texts);
  }

  // ----- recovery prompt -----

  /** Message type 8. */
  predicate RecoveryAt(f: Payload, b: seq<byte>)
    requires f.RecoveryFields?
  {
    && |b| >= RECOVERY_PREFIX
    && At(b, 0, [RoleCode(f.role)])
    && At(b, 1, [ReasonCode(f.reason)])
    && At(b, 2, [PresenceCode(f.headSha256)])
    && At(b, 3, Zeros(1))
    && PeerAt(b, f.peer)
    && At(b, 16, ToBE(f.policyVersion, 4))
    && At(b, 20, ToBE(f.policyThreshold, 4))
    && At(b, 24, ToBE(f.headSequence, 4))
    && At(b, 28, Zeros(4))
    && At(b, 32, ToI64(f.expiresAt))
    && At(b, 40, f.requestId)
    && At(b, 56, f.requestSha256)
    && At(b, 88, f.rootSha256)
    && At(b, 120, f.policySha256)
    && At(b, 152, DigestOrZero(f.headSha256))
    && LengthsAt(b, 184, f.texts)
    && At(b, 196, Zeros(4))
    && TextsAt(b, RECOVERY_PREFIX, f.texts)
  }

  function ReadRecovery(b: seq<byte>): (r: Result<Payload, ProtocolError>)
    ensures r.Success? ==> r.value.RecoveryFields? && |r.value.texts| == 6
  {
    var _ :- Need(|b| >= RECOVERY_PREFIX && b[3..4] == Zeros(1) && b[28..32] == Zeros(4)
                  && b[196..200] == Zeros(4) && b[2] <= 1,
            InvalidLayout);
    var role :- DecodeRole(b[0]);
    var reason :- DecodeReason(b[1]);
    var headSha256 :- DecodeOptionalDigest(b[2], b[152..184]);
    var texts :- ReadTextBlock(b, 184, RECOVERY_PREFIX, 6);
    Success(RecoveryFields(
      role, reason, headSha256, ReadPeer(b), ReadU32(b, 16), ReadU32(b, 20),
      ReadU32(b, 24), ReadI64(b, 32), b[40..56], b[56..88], b[88..120], b[120..152], texts))
  }

  lemma RecoverySound(f: Payload, b: seq<byte>)
    requires ReadRecovery(b) == Success(f)
    ensures f.RecoveryFields? && |f.texts| == 6 && AllShort(f.texts) && RecoveryAt(f, b)
  {
    TextBlockExact(b, 184, RECOVERY_PREFIX, f.texts);
    OneByteAt(b, 0, RoleCode(f.role));
    OneByteAt(b, 1, ReasonCode(f.reason));
    OneByteAt(b, 2, PresenceCode(f.headSha256));
  }

  lemma RecoveryComplete(f: Payload, b: seq<byte>)
    requires f.RecoveryFields? && |f.texts| == 6 && AllShort(f.texts) && RecoveryAt(f, b)
    ensures ReadRecovery(b) == Success(f)
  {
    TextBlockExact(b, 184, RECOVERY_PREFIX, f.texts);
    ReadPeerOf(b, f.peer);
    OneByteAt(b, 0, RoleCode(f.role));
    OneByteAt(b, 1, ReasonCode(f.reason));
    OneByteAt(b, 2, PresenceCode(f.headSha256));
    ReadU32Of(b, 16, f.policyVersion);
    ReadU32Of(b, 20, f.policyThreshold);
    ReadU32Of(b, 24, f.headSequence);
    ReadI64Of(b, 32, f.expiresAt);
  }

  lemma RecoveryUnique(f: Payload, m: seq<byte>, n: seq<byte>)
    requires f.RecoveryFields? && |f.texts| == 6 && RecoveryAt(f, m) && RecoveryAt(f, n)
    ensures m == n
  {
    Agree(m, n, 0, [RoleCode(f.role)]);
    Agree(m, n, 1, [ReasonCode(f.reason)]);
    Agree(m, n, 2, [PresenceCode(f.headSha256)]);
    Agree(m, n, 3, Zeros(1));
    AgreePeer(m, n, f.peer);
    Agree(m, n, 16, ToBE(f.policyVersion, 4));
    Agree(m, n, 20, ToBE(f.policyThreshold, 4));
    Agree(m, n, 24, ToBE(f.headSequence, 4));
    Agree(m, n, 28, Zeros(4));
    Agree(m, n, 32, ToI64(f.expiresAt));
    Agree(m, n, 40, f.requestId);
    Agree(m, n, 56, f.requestSha256);
    Agree(m, n, 88, f.rootSha256);
    Agree(m, n, 120, f.policySha256);
    Agree(m, n, 152, DigestOrZero(f.headSha256));
    AgreeLengths(m, n, 184, f.texts);
    Agree(m, n, 196, Zeros(4));
    AgreeTexts(m, n, RECOVERY_PREFIX, f.texts);
  }

  method WriteRecovery(f: Payload) returns (b: seq<byte>)
    requires f.RecoveryFields? && |f.texts| == 6
    ensures RecoveryAt(f, b)
  {
    b := Extend([], [RoleCode(f.role)]);
    b := Extend(b, [ReasonCode(f.reason)]);
    b := Extend(b, [PresenceCode(f.headSha256)]);
    b := Extend(b, Zeros(1));
    b := ExtendPeer(b, f.peer);
    b := Extend(b, ToBE(f.policyVersion, 4));
    b := Extend(b, ToBE(f.policyThreshold, 4));
    b := Extend(b, ToBE(f.headSequence, 4));
    b := Extend(b, Zeros(4));
    b := Extend(b, ToI64(f.expiresAt));
    b := Extend(b, f.requestId);
    b := Extend(b, f.requestSha256);
    b := Extend(b, f.rootSha256);
    b := Extend(b, f.policySha256);
    b := Extend(b, DigestOrZero(f.headSha256));
    b := ExtendLengths(b, f.texts);
    b := Extend(b, Zeros(4));
    b := ExtendTexts(b, f.texts);
  }
}
