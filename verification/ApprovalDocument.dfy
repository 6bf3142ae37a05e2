/**
 The messages of docs/APPROVAL-PROTOCOL.md, written out over a prompt's own fields and
 absolute offsets, and the proof that the codec speaks exactly these.
 */
module ApprovalDocument {
  import opened Wrappers
  import opened Bytes
  import opened ApprovalPrompts
  import opened ApprovalWire
  import opened ApprovalPayloads
  import opened ApprovalCodec
  import Utf8

  /** The common header: magic, version 1.0, one message type, no flags, the length of the rest. */
  predicate HeaderOf(m: seq<byte>, messageType: byte) {
    && 20 <= |m| < 0x1_0000_0000
    && At(m, 0, [0x41, 0x51, 0x55, 0x4F, 0x41, 0x50, 0x52, 0x00])
    && At(m, 8, [0, 1]) && At(m, 10, [0, 0])
    && At(m, 12, [0, messageType])
    && At(m, 14, [0, 0])
    && At(m, 16, ToBE(|m| - 20, 4))
  }

  function KindByte(k: ArtifactKind): byte {
    match k case Generic => 1 case SoftwareRelease => 2 case Article => 3 case Image => 4
  }

  function PurposeByte(p: PersonaPurpose): byte {
    match p
    case Personal => 1 case Pseudonymous => 2 case Project => 3 case Organization => 4 case LegalBridge => 5
  }

  /** The caller, at payload offsets 4, 8 and 12. */
  predicate CallerAt(m: seq<byte>, peer: PeerIdentity) {
    At(m, 24, ToBE(peer.pid, 4)) && At(m, 28, ToBE(peer.uid, 4)) && At(m, 32, ToBE(peer.gid, 4))
  }

  predicate OptionalAt(m: seq<byte>, presence: nat, off: nat, d: Option<Digest>) {
    match d
    case None => At(m, presence, [0]) && At(m, off, Zeros(32))
    case Some(digest) => At(m, presence, [1]) && At(m, off, digest)
  }

  predicate ThreeTexts(m: seq<byte>, table: nat, off: nat, a: string, b: string, c: string) {
    var x, y, z := Utf8.Encode(a), Utf8.Encode(b), Utf8.Encode(c);
    && At(m, table, ToBE(|x|, 2)) && At(m, table + 2, ToBE(|y|, 2)) && At(m, table + 4, ToBE(|z|, 2))
    && At(m, off, x) && At(m, off + |x|, y) && At(m, off + |x| + |y|, z)
    && |m| == off + |x| + |y| + |z|
  }

  predicate FourTexts(m: seq<byte>, table: nat, off: nat, a: string, b: string, c: string, d: string) {
    var x, y, z, w := Utf8.Encode(a), Utf8.Encode(b), Utf8.Encode(c), Utf8.Encode(d);
    && At(m, table, ToBE(|x|, 2)) && At(m, table + 2, ToBE(|y|, 2))
    && At(m, table + 4, ToBE(|z|, 2)) && At(m, table + 6, ToBE(|w|, 2))
    && At(m, off, x) && At(m, off + |x|, y) && At(m, off + |x| + |y|, z) && At(m, off + |x| + |y| + |z|, w)
    && |m| == off + |x| + |y| + |z| + |w|
  }

  predicate SixTexts(m: seq<byte>, table: nat, off: nat, a: string, b: string, c: string, d: string,
                     e: string, f: string)
  {
    var x, y, z := Utf8.Encode(a), Utf8.Encode(b), Utf8.Encode(c);
    var u, v, w := Utf8.Encode(d), Utf8.Encode(e), Utf8.Encode(f);
    var next := off + |x| + |y| + |z|;
    && At(m, table, ToBE(|x|, 2)) && At(m, table + 2, ToBE(|y|, 2)) && At(m, table + 4, ToBE(|z|, 2))
    && At(m, table + 6, ToBE(|u|, 2)) && At(m, table + 8, ToBE(|v|, 2)) && At(m, table + 10, ToBE(|w|, 2))
    && At(m, off, x) && At(m, off + |x|, y) && At(m, off + |x| + |y|, z)
    && At(m, next, u) && At(m, next + |u|, v) && At(m, next + |u| + |v|, w)
    && |m| == next + |u| + |v| + |w|
  }

  /** The message shows this prompt, every field of it at its documented place and nothing else. */
  predicate Shows(m: seq<byte>, p: ApprovalPrompt) {
    match p.subject
    case Artifact(kind, name, sha256, size) =>
      && HeaderOf(m, 1) && p.personaId.Some? && p.personaPurpose.Some?
      && At(m, 20, [KindByte(kind)]) && At(m, 21, [PurposeByte(p.personaPurpose.value)]) && At(m, 22, Zeros(2))
      && CallerAt(m, p.peer)
      && At(m, 36, ToBE(size, 8))
      && At(m, 44, p.requestId) && At(m, 60, p.personaId.value) && At(m, 76, sha256)
      && At(m, 114, Zeros(2))
      && ThreeTexts(m, 108, 116, p.personaLabel, p.keyFingerprint, name)
    case Domain(domain, txt, issuedAt, expiresAt) =>
      && HeaderOf(m, 5) && p.personaId.Some? && p.personaPurpose.Some?
      && At(m, 20, [PurposeByte(p.personaPurpose.value)]) && At(m, 21, Zeros(3))
      && CallerAt(m, p.peer)
      && At(m, 36, ToI64(issuedAt)) && At(m, 44, ToI64(expiresAt))
      && At(m, 52, p.requestId) && At(m, 68, p.personaId.value)
      && At(m, 92, Zeros(4))
      && FourTexts(m, 84, 96, p.personaLabel, p.keyFingerprint, domain, txt)
    case PersonaRoot(anchor, root, issuedAt) =>
      && HeaderOf(m, 6) && p.personaId.Some? && p.personaPurpose.Some?
      && At(m, 20, [PurposeByte(p.personaPurpose.value)]) && At(m, 21, Zeros(3))
      && CallerAt(m, p.peer)
      && At(m, 36, ToI64(issuedAt))
      && At(m, 44, p.requestId) && At(m, 60, p.personaId.value) && At(m, 76, root)
      && At(m, 114, Zeros(2))
      && ThreeTexts(m, 108, 116, p.personaLabel, p.keyFingerprint, anchor)
    case PersonaTransition(anchor, root, sequence, previous, issuedAt, previousKey, nextKey, transition) =>
      && HeaderOf(m, 7) && p.personaId.Some? && p.personaPurpose.Some?
      && At(m, 20, [PurposeByte(p.personaPurpose.value)]) && At(m, 22, Zeros(2))
      && CallerAt(m, p.peer)
      && At(m, 36, ToBE(sequence, 4)) && At(m, 40, ToI64(issuedAt))
      && At(m, 48, p.requestId) && At(m, 64, p.personaId.value)
      && At(m, 80, root) && OptionalAt(m, 21, 112, previous) && At(m, 144, transition)
      && At(m, 184, Zeros(4))
      && FourTexts(m, 176, 188, p.personaLabel, previousKey, nextKey, anchor)
    case RecoveryParticipation(request, ceremony, expiry, anchor, root, version, policy, threshold, sequence, head,
                               reason, previousKey, nextKey, role, participant) =>
      && HeaderOf(m, 8)
      && At(m, 20, [if role.RecoveryAuthority? then 1 else 2]) && At(m, 21, [if reason.Recovery? then 1 else 2])
      && At(m, 23, Zeros(1))
      && CallerAt(m, p.peer)
      && At(m, 36, ToBE(version, 4)) && At(m, 40, ToBE(threshold, 4)) && At(m, 44, ToBE(sequence, 4))
      && At(m, 48, Zeros(4)) && At(m, 52, ToI64(expiry))
      && At(m, 60, p.requestId) && At(m, 76, request) && At(m, 108, root) && At(m, 140, policy)
      && OptionalAt(m, 22, 172, head)
      && At(m, 216, Zeros(4))
      && SixTexts(m, 204, 220, p.personaLabel, participant, previousKey, nextKey, anchor, ceremony)
  }

  // ----- the codec's tables are these -----

  lemma Shift(m: seq<byte>, off: nat, b: seq<byte>)
    requires |m| >= 20
    ensures At(m[20..], off, b) <==> At(m, 20 + off, b)
  {
    if 20 + off + |b| <= |m| {
      assert m[20..][off..off + |b|] == m[20 + off..20 + off + |b|];
    }
  }

  lemma HeaderMeans(m: seq<byte>, t: byte)
    requires |m| >= 20
    ensures HeaderOf(m, t) <==> Framed(m, t, m[20..]) && |m| < 0x1_0000_0000
  {
    hide ToBE;
    ShortNumbers(t);
  }

  lemma ShortNumbers(t: byte)
    ensures ToBE(1, 2) == [0, 1] && ToBE(0, 2) == [0, 0] && ToBE(t, 2) == [0, t]
  {
    NetworkOrder(0, 1, 0, 0);
    NetworkOrder(0, 0, 0, 0);
    NetworkOrder(0, t, 0, 0);
  }

  lemma CallerMeans(m: seq<byte>, peer: PeerIdentity)
    requires |m| >= 20
    ensures CallerAt(m, peer) <==> PeerAt(m[20..], peer)
  {
    hide At, ToBE;
    Shift(m, 4, ToBE(peer.pid, 4));
    Shift(m, 8, ToBE(peer.uid, 4));
    Shift(m, 12, ToBE(peer.gid, 4));
  }

  lemma OptionalMeans(m: seq<byte>, presence: nat, off: nat, d: Option<Digest>)
    requires |m| >= 20
    ensures OptionalAt(m, 20 + presence, 20 + off, d) <==>
      At(m[20..], presence, [PresenceCode(d)]) && At(m[20..], off, DigestOrZero(d))
  {
    hide At;
    Shift(m, presence, [PresenceCode(d)]);
    Shift(m, off, DigestOrZero(d));
  }

  lemma TextsCons(b: seq<byte>, off: nat, first: seq<byte>, rest: seq<seq<byte>>)
    ensures TextsAt(b, off, [first] + rest) <==> At(b, off, first) && TextsAt(b, off + |first|, rest)
  {
    assert ([first] + rest)[1..] == rest;
  }

  lemma TextsPair(b: seq<byte>, off: nat, x: seq<byte>, y: seq<byte>)
    ensures TextsAt(b, off, [x, y]) <==> At(b, off, x) && At(b, off + |x|, y) && |b| == off + |x| + |y|
  {
    hide At;
    TextsCons(b, off, x, [y]);
    TextsCons(b, off + |x|, y, []);
    assert [x, y] == [x] + [y] && [y] == [y] + [];
  }

  lemma TextsTriple(b: seq<byte>, off: nat, x: seq<byte>, y: seq<byte>, z: seq<byte>)
    ensures TextsAt(b, off, [x, y, z]) <==>
      At(b, off, x) && At(b, off + |x|, y) && At(b, off + |x| + |y|, z) && |b| == off + |x| + |y| + |z|
  {
    hide At, TextsAt;
    TextsCons(b, off, x, [y, z]);
    TextsPair(b, off + |x|, y, z);
    assert [x, y, z] == [x] + [y, z];
  }

  lemma ThreeMeans(m: seq<byte>, table: nat, off: nat, a: string, b: string, c: string)
    requires |m| >= 20
    ensures var texts := EncodeTexts([a, b, c]);
            ThreeTexts(m, 20 + table, 20 + off, a, b, c) <==>
              LengthsAt(m[20..], table, texts) && TextsAt(m[20..], off, texts)
  {
    hide At, ToBE, TextsAt, Utf8.Encode;
    var x, y, z := Utf8.Encode(a), Utf8.Encode(b), Utf8.Encode(c);
    var texts := EncodeTexts([a, b, c]);
    assert texts == [x, y, z];
    assert LengthsAt(m[20..], table, texts) <==>
      && At(m[20..], table + 2 * 0, ToBE(|texts[0]|, 2)) && At(m[20..], table + 2 * 1, ToBE(|texts[1]|, 2))
      && At(m[20..], table + 2 * 2, ToBE(|texts[2]|, 2));
    Shift(m, table, ToBE(|x|, 2));
    Shift(m, table + 2, ToBE(|y|, 2));
    Shift(m, table + 4, ToBE(|z|, 2));
    TextsTriple(m[20..], off, x, y, z);
    Shift(m, off, x);
    Shift(m, off + |x|, y);
    Shift(m, off + |x| + |y|, z);
  }

  lemma FourMeans(m: seq<byte>, table: nat, off: nat, a: string, b: string, c: string, d: string)
    requires |m| >= 20
    ensures var texts := EncodeTexts([a, b, c, d]);
            FourTexts(m, 20 + table, 20 + off, a, b, c, d) <==>
              LengthsAt(m[20..], table, texts) && TextsAt(m[20..], off, texts)
  {
    hide At, ToBE, TextsAt, Utf8.Encode;
    var x, y, z, w := Utf8.Encode(a), Utf8.Encode(b), Utf8.Encode(c), Utf8.Encode(d);
    var texts := EncodeTexts([a, b, c, d]);
    assert texts == [x, y, z, w] == [x] + [y, z, w];
    assert LengthsAt(m[20..], table, texts) <==>
      && At(m[20..], table + 2 * 0, ToBE(|texts[0]|, 2)) && At(m[20..], table + 2 * 1, ToBE(|texts[1]|, 2))
      && At(m[20..], table + 2 * 2, ToBE(|texts[2]|, 2)) && At(m[20..], table + 2 * 3, ToBE(|texts[3]|, 2));
    Shift(m, table, ToBE(|x|, 2));
    Shift(m, table + 2, ToBE(|y|, 2));
    Shift(m, table + 4, ToBE(|z|, 2));
    Shift(m, table + 6, ToBE(|w|, 2));
    TextsCons(m[20..], off, x, [y, z, w]);
    TextsTriple(m[20..], off + |x|, y, z, w);
    Shift(m, off, x);
    Shift(m, off + |x|, y);
    Shift(m, off + |x| + |y|, z);
    Shift(m, off + |x| + |y| + |z|, w);
  }

  lemma SixMeans(m: seq<byte>, table: nat, off: nat, a: string, b: string, c: string, d: string,
                 e: string, f: string)
    requires |m| >= 20
    ensures var texts := EncodeTexts([a, b, c, d, e, f]);
            SixTexts(m, 20 + table, 20 + off, a, b, c, d, e, f) <==>
              LengthsAt(m[20..], table, texts) && TextsAt(m[20..], off, texts)
  {
    hide At, ToBE, TextsAt, Utf8.Encode;
    var x, y, z := Utf8.Encode(a), Utf8.Encode(b), Utf8.Encode(c);
    var u, v, w := Utf8.Encode(d), Utf8.Encode(e), Utf8.Encode(f);
    var texts := EncodeTexts([a, b, c, d, e, f]);
    assert texts == [x, y, z, u, v, w];
    SixLengths(m, table, texts);
    SixInARow(m[20..], off, x, y, z, u, v, w);
    var next := off + |x| + |y| + |z|;
    Shift(m, off, x);
    Shift(m, off + |x|, y);
    Shift(m, off + |x| + |y|, z);
    Shift(m, next, u);
    Shift(m, next + |u|, v);
    Shift(m, next + |u| + |v|, w);
  }

  lemma SixLengths(m: seq<byte>, table: nat, texts: seq<seq<byte>>)
    requires |m| >= 20 && |texts| == 6
    ensures LengthsAt(m[20..], table, texts) <==>
      && At(m, 20 + table, ToBE(|texts[0]|, 2)) && At(m, 22 + table, ToBE(|texts[1]|, 2))
      && At(m, 24 + table, ToBE(|texts[2]|, 2)) && At(m, 26 + table, ToBE(|texts[3]|, 2))
      && At(m, 28 + table, ToBE(|texts[4]|, 2)) && At(m, 30 + table, ToBE(|texts[5]|, 2))
  {
    hide At, ToBE;
    assert LengthsAt(m[20..], table, texts) <==>
      && At(m[20..], table + 2 * 0, ToBE(|texts[0]|, 2)) && At(m[20..], table + 2 * 1, ToBE(|texts[1]|, 2))
      && At(m[20..], table + 2 * 2, ToBE(|texts[2]|, 2)) && At(m[20..], table + 2 * 3, ToBE(|texts[3]|, 2))
      && At(m[20..], table + 2 * 4, ToBE(|texts[4]|, 2)) && At(m[20..], table + 2 * 5, ToBE(|texts[5]|, 2));
    Shift(m, table, ToBE(|texts[0]|, 2));
    Shift(m, table + 2, ToBE(|texts[1]|, 2));
    Shift(m, table + 4, ToBE(|texts[2]|, 2));
    Shift(m, table + 6, ToBE(|texts[3]|, 2));
    Shift(m, table + 8, ToBE(|texts[4]|, 2));
    Shift(m, table + 10, ToBE(|texts[5]|, 2));
  }

  lemma SixInARow(b: seq<byte>, off: nat, x: seq<byte>, y: seq<byte>, z: seq<byte>,
                  u: seq<byte>, v: seq<byte>, w: seq<byte>)
    ensures TextsAt(b, off, [x, y, z, u, v, w]) <==>
      var next := off + |x| + |y| + |z|;
      && At(b, off, x) && At(b, off + |x|, y) && At(b, off + |x| + |y|, z)
      && At(b, next, u) && At(b, next + |u|, v) && At(b, next + |u| + |v|, w)
      && |b| == next + |u| + |v| + |w|
  {
    hide At, TextsAt;
    TextsCons(b, off, x, [y, z, u, v, w]);
    TextsCons(b, off + |x|, y, [z, u, v, w]);
    TextsCons(b, off + |x| + |y|, z, [u, v, w]);
    TextsTriple(b, off + |x| + |y| + |z|, u, v, w);
    assert [x, y, z, u, v, w] == [x] + [y, z, u, v, w] && [y, z, u, v, w] == [y] + [z, u, v, w];
    assert [z, u, v, w] == [z] + [u, v, w];
  }

  // ----- layout by layout -----

  lemma ArtifactShows(m: seq<byte>, p: ApprovalPrompt)
    requires |m| >= 20 && p.subject.Artifact? && HasPersona(p)
    ensures Shows(m, p) <==> Carries(m, p) && |m| < 0x1_0000_0000
  {
    hide At, ToBE, Framed, TextsAt, LengthsAt, PeerAt, CallerAt, HeaderOf, ThreeTexts, EncodeTexts;
    var s := p.subject;
    HeaderMeans(m, 1);
    CallerMeans(m, p.peer);
    ThreeMeans(m, 88, 96, p.personaLabel, p.keyFingerprint, s.artifactLabel);
    Shift(m, 0, [KindByte(s.artifactKind)]);
    Shift(m, 1, [PurposeByte(p.personaPurpose.value)]);
    Shift(m, 2, Zeros(2));
    Shift(m, 16, ToBE(s.artifactSize, 8));
    Shift(m, 24, p.requestId);
    Shift(m, 40, p.personaId.value);
    Shift(m, 56, s.artifactSha256);
    Shift(m, 94, Zeros(2));
    LongEnough(m, 94, Zeros(2));
  }

  lemma LongEnough(m: seq<byte>, off: nat, b: seq<byte>)
    requires |m| >= 20
    ensures At(m, 20 + off, b) ==> |m[20..]| >= off + |b|
  {}

  lemma DomainShows(m: seq<byte>, p: ApprovalPrompt)
    requires |m| >= 20 && p.subject.Domain? && HasPersona(p)
    ensures Shows(m, p) <==> Carries(m, p) && |m| < 0x1_0000_0000
  {
    hide At, ToBE, ToI64, Framed, TextsAt, LengthsAt, PeerAt, CallerAt, HeaderOf, FourTexts, EncodeTexts;
    var s := p.subject;
    HeaderMeans(m, 5);
    CallerMeans(m, p.peer);
    FourMeans(m, 64, 76, p.personaLabel, p.keyFingerprint, s.domain, s.dnsTxtValue);
    Shift(m, 0, [PurposeByte(p.personaPurpose.value)]);
    Shift(m, 1, Zeros(3));
    Shift(m, 16, ToI64(s.issuedAt));
    Shift(m, 24, ToI64(s.expiresAt));
    Shift(m, 32, p.requestId);
    Shift(m, 48, p.personaId.value);
    Shift(m, 72, Zeros(4));
    LongEnough(m, 72, Zeros(4));
  }

  lemma RootShows(m: seq<byte>, p: ApprovalPrompt)
    requires |m| >= 20 && p.subject.PersonaRoot? && HasPersona(p)
    ensures Shows(m, p) <==> Carries(m, p) && |m| < 0x1_0000_0000
  {
    hide At, ToBE, ToI64, Framed, TextsAt, LengthsAt, PeerAt, CallerAt, HeaderOf, ThreeTexts, EncodeTexts;
    var s := p.subject;
    HeaderMeans(m, 6);
    CallerMeans(m, p.peer);
    ThreeMeans(m, 88, 96, p.personaLabel, p.keyFingerprint, s.personaAnchor);
    Shift(m, 0, [PurposeByte(p.personaPurpose.value)]);
    Shift(m, 1, Zeros(3));
    Shift(m, 16, ToI64(s.issuedAt));
    Shift(m, 24, p.requestId);
    Shift(m, 40, p.personaId.value);
    Shift(m, 56, s.rootSha256);
    Shift(m, 94, Zeros(2));
    LongEnough(m, 94, Zeros(2));
  }

  lemma TransitionShows(m: seq<byte>, p: ApprovalPrompt)
    requires |m| >= 20 && p.subject.PersonaTransition? && HasPersona(p)
    ensures Shows(m, p) <==> Carries(m, p) && |m| < 0x1_0000_0000
  {
    hide At, ToBE, ToI64, Framed, TextsAt, LengthsAt, PeerAt, CallerAt, HeaderOf, FourTexts, EncodeTexts, OptionalAt,
         PresenceCode, DigestOrZero;
    var s := p.subject;
    HeaderMeans(m, 7);
    CallerMeans(m, p.peer);
    FourMeans(m, 156, 168, p.personaLabel, s.previousKey, s.nextKey, s.personaAnchor);
    OptionalMeans(m, 1, 92, s.previousSha256);
    Shift(m, 0, [PurposeByte(p.personaPurpose.value)]);
    Shift(m, 2, Zeros(2));
    Shift(m, 16, ToBE(s.sequence, 4));
    Shift(m, 20, ToI64(s.issuedAt));
    Shift(m, 28, p.requestId);
    Shift(m, 44, p.personaId.value);
    Shift(m, 60, s.rootSha256);
    Shift(m, 124, s.transitionSha256);
    Shift(m, 164, Zeros(4));
    LongEnough(m, 164, Zeros(4));
  }

  lemma RecoveryShows(m: seq<byte>, p: ApprovalPrompt)
    requires |m| >= 20 && p.subject.RecoveryParticipation?
    ensures Shows(m, p) <==> Carries(m, p) && |m| < 0x1_0000_0000
  {
    hide At, ToBE, ToI64, Framed, TextsAt, LengthsAt, PeerAt, CallerAt, HeaderOf, SixTexts, EncodeTexts, OptionalAt,
         PresenceCode, DigestOrZero;
    var s := p.subject;
    HeaderMeans(m, 8);
    CallerMeans(m, p.peer);
    SixMeans(m, 184, 200, p.personaLabel, s.participantKey, s.previousKey, s.nextKey, s.personaAnchor, s.ceremonyId);
    OptionalMeans(m, 2, 152, s.headSha256);
    Shift(m, 0, [RoleCode(s.role)]);
    Shift(m, 1, [ReasonCode(s.reason)]);
    Shift(m, 3, Zeros(1));
    Shift(m, 16, ToBE(s.policyVersion, 4));
    Shift(m, 20, ToBE(s.policyThreshold, 4));
    Shift(m, 24, ToBE(s.headSequence, 4));
    Shift(m, 28, Zeros(4));
    Shift(m, 32, ToI64(s.ceremonyExpiresAt));
    Shift(m, 40, p.requestId);
    Shift(m, 56, s.requestSha256);
    Shift(m, 88, s.rootSha256);
    Shift(m, 120, s.policySha256);
    Shift(m, 196, Zeros(4));
    LongEnough(m, 196, Zeros(4));
  }

  lemma ShowsIsCarries(m: seq<byte>, p: ApprovalPrompt)
    requires HasPersona(p)
    ensures Shows(m, p) <==> Carries(m, p) && |m| < 0x1_0000_0000
  {
    hide LayoutAt, PayloadOf, Framed, At;
    if |m| < 20 {
      return;
    }
    match p.subject
    case Artifact(_, _, _, _) => ArtifactShows(m, p);
    case Domain(_, _, _, _) => DomainShows(m, p);
    case PersonaRoot(_, _, _) => RootShows(m, p);
    case PersonaTransition(_, _, _, _, _, _, _, _) => TransitionShows(m, p);
    case RecoveryParticipation(_, _, _, _, _, _, _, _, _, _, _, _, _, _, _) => RecoveryShows(m, p);
  }

  /** A message decodes to a prompt if and only if the prompt is valid and the message shows it as documented. */
  lemma DecodeMeans(m: seq<byte>, p: ApprovalPrompt)
    ensures DecodePrompt(m) == Success(p) <==> Valid(p) && Shows(m, p)
  {
    hide DecodePrompt, Valid, Carries, Shows, PayloadOf, MaxPayload;
    DecodeExact(m, p);
    if Valid(p) {
      ValidHasPersona(p);
      ShowsIsCarries(m, p);
      if Carries(m, p) {
        DecodeComplete(m, p);
        LimitIsSmall(MessageType(PayloadOf(p)));
      }
    }
  }

  lemma ValidHasPersona(p: ApprovalPrompt)
    requires Valid(p)
    ensures HasPersona(p)
  {
    hide IsDisplayText, IsKeyFingerprint, ValidSubject;
  }

  lemma LimitIsSmall(t: u16)
    ensures MaxPayload(t) < 1000
  {}

  // ----- decisions -----

  /** Types 2, 3 and 4 approve, decline and cancel the request whose identifier is the whole payload. */
  predicate ShowsDecision(m: seq<byte>, d: DecisionResponse) {
    && |m| == 36
    && HeaderOf(m, match d.decision case Approve => 2 case Decline => 3 case Cancel => 4)
    && At(m, 20, d.requestId)
  }

  lemma DecisionMeans(m: seq<byte>, d: DecisionResponse)
    ensures DecodeDecision(m) == Success(d) <==> ShowsDecision(m, d)
  {
    hide DecodeDecision, Framed, HeaderOf;
    var t := DecisionType(d.decision);
    if |m| == 36 {
      HeaderMeans(m, t);
      assert At(m, 20, d.requestId) <==> m[20..] == d.requestId by {
        assert m[20..36] == m[20..];
      }
    }
    if DecodeDecision(m) == Success(d) {
      DecisionSound(m, d);
      FramedLength(m, t, d.requestId);
    }
    if ShowsDecision(m, d) {
      DecisionComplete(m, d);
    }
  }

  lemma FramedLength(m: seq<byte>, t: u16, payload: seq<byte>)
    requires Framed(m, t, payload)
    ensures |m| == 20 + |payload| && m[20..] == payload
  {}

  /** A header is accepted exactly when it is one of this protocol's version 1.0 without flags. */
  lemma CommonHeaderMeans(m: seq<byte>, t: u16)
    ensures DecodeCommonHeader(m) == Success(t) <==>
      && |m| >= 20
      && At(m, 0, [0x41, 0x51, 0x55, 0x4F, 0x41, 0x50, 0x52, 0x00])
      && At(m, 8, [0, 1, 0, 0]) && At(m, 12, ToBE(t, 2)) && At(m, 14, [0, 0])
  {
    if |m| >= 20 {
      hide ToBE, FromBE;
      ShortNumbers(0);
      assert m[..8] == m[0..8];
      assert m[8..12] == m[8..10] + m[10..12] && [0, 1, 0, 0] == [0, 1] + [0, 0];
      assert m[8..12][..2] == m[8..10] && m[8..12][2..] == m[10..12];
      Halves(m);
    }
  }

  lemma Halves(m: seq<byte>)
    requires |m| >= 20
    ensures ReadU16(m, 8) == 1 <==> At(m, 8, ToBE(1, 2))
    ensures ReadU16(m, 10) == 0 <==> At(m, 10, ToBE(0, 2))
    ensures ReadU16(m, 14) == 0 <==> At(m, 14, ToBE(0, 2))
    ensures forall t: u16 :: ReadU16(m, 12) == t <==> At(m, 12, ToBE(t, 2))
  {
    hide ToBE, FromBE, ReadU16;
    if At(m, 8, ToBE(1, 2)) { ReadU16Of(m, 8, 1); }
    if At(m, 10, ToBE(0, 2)) { ReadU16Of(m, 10, 0); }
    if At(m, 14, ToBE(0, 2)) { ReadU16Of(m, 14, 0); }
    forall t: u16 ensures ReadU16(m, 12) == t <==> At(m, 12, ToBE(t, 2)) {
      if At(m, 12, ToBE(t, 2)) { ReadU16Of(m, 12, t); }
    }
  }
}
