/**
 The byte layout of the approval pipe protocol. Each message type is described by a
 table of fields at fixed payload offsets (docs/APPROVAL-PROTOCOL.md); encoders and
 decoders are both proved against that table.
 */
module ApprovalWire {
  import opened Wrappers
  import opened Bytes
  import opened ApprovalPrompts

  const HEADER_BYTES := 20
  const MAGIC: seq<byte> := [0x41, 0x51, 0x55, 0x4F, 0x41, 0x50, 0x52, 0x00] // "AQUOAPR\0"
  const PROTOCOL_MAJOR := 1
  const PROTOCOL_MINOR := 0

  const ARTIFACT_PREFIX := 96
  const DOMAIN_PREFIX := 76
  const ROOT_PREFIX := 96
  const TRANSITION_PREFIX := 168
  const RECOVERY_PREFIX := 200
  const DECISION_PAYLOAD_BYTES := 16

  const MESSAGE_ARTIFACT: u16 := 1
  const MESSAGE_APPROVE: u16 := 2
  const MESSAGE_DECLINE: u16 := 3
  const MESSAGE_CANCEL: u16 := 4
  const MESSAGE_DOMAIN: u16 := 5
  const MESSAGE_ROOT: u16 := 6
  const MESSAGE_TRANSITION: u16 := 7
  const MESSAGE_RECOVERY: u16 := 8

  const MAX_ARTIFACT_PAYLOAD := ARTIFACT_PREFIX + 256 + 128 + 256
  const MAX_DOMAIN_PAYLOAD := DOMAIN_PREFIX + 256 + 128 + 253 + 128
  const MAX_ROOT_PAYLOAD := ROOT_PREFIX + 256 + 128 + 43
  const MAX_TRANSITION_PAYLOAD := TRANSITION_PREFIX + 256 + 128 + 128 + 43
  const MAX_RECOVERY_PAYLOAD := RECOVERY_PREFIX + 256 + 128 + 128 + 128 + 43 + 43
  const MAX_PROMPT_PAYLOAD := MAX_RECOVERY_PAYLOAD

  // ----- fields -----

  /** The bytes `b` stand at offset `off`. */
  predicate At(m: seq<byte>, off: nat, b: seq<byte>) {
    off + |b| <= |m| && m[off..off + |b|] == b
  }

  /** The one u16 whose big-endian bytes stand at `off`. */
  function ReadU16(m: seq<byte>, off: nat): (n: u16)
    requires off + 2 <= |m|
    ensures At(m, off, ToBE(n, 2))
  {
    var field := m[off..off + 2];
    FromBEBound(field);
    Pow256Values();
    ToFromBE(field);
    FromBE(field)
  }

  lemma ReadU16Of(m: seq<byte>, off: nat, n: u16)
    requires At(m, off, ToBE(n, 2))
    ensures ReadU16(m, off) == n
  {
    Pow256Values();
    FromToBE(n, 2);
  }

  /** The one u32 whose big-endian bytes stand at `off`. */
  function ReadU32(m: seq<byte>, off: nat): (n: u32)
    requires off + 4 <= |m|
    ensures At(m, off, ToBE(n, 4))
  {
    var field := m[off..off + 4];
    FromBEBound(field);
    Pow256Values();
    ToFromBE(field);
    FromBE(field)
  }

  lemma ReadU32Of(m: seq<byte>, off: nat, n: u32)
    requires At(m, off, ToBE(n, 4))
    ensures ReadU32(m, off) == n
  {
    Pow256Values();
    FromToBE(n, 4);
  }

  /** The one u64 whose big-endian bytes stand at `off`. */
  function ReadU64(m: seq<byte>, off: nat): (n: u64)
    requires off + 8 <= |m|
    ensures At(m, off, ToBE(n, 8))
  {
    var field := m[off..off + 8];
    FromBEBound(field);
    Pow256Values();
    ToFromBE(field);
    FromBE(field)
  }

  lemma ReadU64Of(m: seq<byte>, off: nat, n: u64)
    requires At(m, off, ToBE(n, 8))
    ensures ReadU64(m, off) == n
  {
    Pow256Values();
    FromToBE(n, 8);
  }

  /** The one i64 whose two's complement bytes stand at `off`. */
  function ReadI64(m: seq<byte>, off: nat): (n: i64)
    requires off + 8 <= |m|
    ensures At(m, off, ToI64(n))
  {
    var field := m[off..off + 8];
    ToFromI64(field);
    FromI64(field)
  }

  lemma ReadI64Of(m: seq<byte>, off: nat, n: i64)
    requires At(m, off, ToI64(n))
    ensures ReadI64(m, off) == n
  {
    FromToI64(n);
  }

  // ----- enumerations -----

  function KindCode(k: ArtifactKind): byte {
    match k case Generic => 1 case SoftwareRelease => 2 case Article => 3 case Image => 4
  }

  function DecodeKind(v: byte): (r: Result<ArtifactKind, ProtocolError>)
    ensures forall k :: r == Success(k) <==> KindCode(k) == v
  {
    match v
    case 1 => Success(Generic)
    case 2 => Success(SoftwareRelease)
    case 3 => Success(Article)
    case 4 => Success(Image)
    case _ => Failure(UnsupportedArtifactKind(v))
  }

  function PurposeCode(p: PersonaPurpose): byte {
    match p
    case Personal => 1 case Pseudonymous => 2 case Project => 3 case Organization => 4 case LegalBridge => 5
  }

  function DecodePurpose(v: byte): (r: Result<PersonaPurpose, ProtocolError>)
    ensures forall p :: r == Success(p) <==> PurposeCode(p) == v
  {
    match v
    case 1 => Success(Personal)
    case 2 => Success(Pseudonymous)
    case 3 => Success(Project)
    case 4 => Success(Organization)
    case 5 => Success(LegalBridge)
    case _ => Failure(UnsupportedPersonaPurpose(v))
  }

  function RoleCode(r: RecoveryParticipantRole): byte {
    match r case RecoveryAuthority => 1 case NextSigningKey => 2
  }

  function DecodeRole(v: byte): (r: Result<RecoveryParticipantRole, ProtocolError>)
    ensures forall k :: r == Success(k) <==> RoleCode(k) == v
  {
    match v
    case 1 => Success(RecoveryAuthority)
    case 2 => Success(NextSigningKey)
    case _ => Failure(UnsupportedRecoveryParticipantRole(v))
  }

  function ReasonCode(r: RecoveryReason): byte {
    match r case Recovery => 1 case Compromise => 2
  }

  function DecodeReason(v: byte): (r: Result<RecoveryReason, ProtocolError>)
    ensures forall k :: r == Success(k) <==> ReasonCode(k) == v
  {
    match v
    case 1 => Success(Recovery)
    case 2 => Success(Compromise)
    case _ => Failure(UnsupportedRecoveryReason(v))
  }

  /** An optional digest is a presence byte and 32 bytes that are zero when it is absent. */
  function PresenceCode(d: Option<Digest>): byte {
    if d.Some? then 1 else 0
  }

  function DigestOrZero(d: Option<Digest>): Digest {
    if d.Some? then d.value else Zeros(32)
  }

  function DecodeOptionalDigest(presence: byte, bytes: Digest): (r: Result<Option<Digest>, ProtocolError>)
    requires presence <= 1
    ensures forall d: Option<Digest> :: r == Success(d) <==> PresenceCode(d) == presence && DigestOrZero(d) == bytes
  {
    if presence == 1 then Success(Some(bytes))
    else if bytes == Zeros(32) then Success(None)
    else Failure(InvalidLayout)
  }

  // ----- header -----

  /** The message is the 20-byte header for this type followed by exactly this payload. */
  predicate Framed(m: seq<byte>, messageType: u16, payload: seq<byte>) {
    && |m| == HEADER_BYTES + |payload|
    && |payload| < 0x1_0000_0000
    && At(m, 0, MAGIC)
    && At(m, 8, ToBE(PROTOCOL_MAJOR, 2))
    && At(m, 10, ToBE(PROTOCOL_MINOR, 2))
    && At(m, 12, ToBE(messageType, 2))
    && At(m, 14, ToBE(0, 2))
    && At(m, 16, ToBE(|payload|, 4))
    && m[HEADER_BYTES..] == payload
  }

  function DecodeCommonHeader(m: seq<byte>): Result<u16, ProtocolError> {
    var _ :- Need(|m| >= HEADER_BYTES, TruncatedHeader);
    var _ :- Need(m[..8] == MAGIC, InvalidMagic);
    var major, minor := ReadU16(m, 8), ReadU16(m, 10);
    var _ :- Need(major == PROTOCOL_MAJOR && minor == PROTOCOL_MINOR, UnsupportedVersion(major, minor));
    var flags := ReadU16(m, 14);
    var _ :- Need(flags == 0, UnsupportedFlags(flags));
    Success(ReadU16(m, 12))
  }

  function DecodeHeader(m: seq<byte>, expectedType: u16, maximum: nat): Result<seq<byte>, ProtocolError> {
    var messageType :- DecodeCommonHeader(m);
    var _ :- Need(messageType == expectedType, UnsupportedMessageType(messageType));
    var length := ReadU32(m, 16);
    var _ :- Need(length <= maximum, PayloadTooLarge);
    var _ :- Need(|m| >= HEADER_BYTES + length, TruncatedPayload);
    var _ :- Need(|m| <= HEADER_BYTES + length, TrailingBytes);
    Success(m[HEADER_BYTES..])
  }

  /** The header check accepts exactly the framed messages within the limit. */
  lemma HeaderExact(m: seq<byte>, messageType: u16, maximum: nat, payload: seq<byte>)
    ensures DecodeHeader(m, messageType, maximum) == Success(payload)
       <==> Framed(m, messageType, payload) && |payload| <= maximum
  {
    if |m| >= HEADER_BYTES {
      assert m[..8] == m[0..8];
    }
    if Framed(m, messageType, payload) {
      FramedType(m, messageType, payload);
      ReadU32Of(m, 16, |payload|);
    }
  }

  lemma FramedType(m: seq<byte>, messageType: u16, payload: seq<byte>)
    requires Framed(m, messageType, payload)
    ensures DecodeCommonHeader(m) == Success(messageType)
  {
    assert m[..8] == m[0..8];
    ReadU16Of(m, 8, PROTOCOL_MAJOR);
    ReadU16Of(m, 10, PROTOCOL_MINOR);
    ReadU16Of(m, 12, messageType);
    ReadU16Of(m, 14, 0);
  }

  /** Two byte strings that agree on a prefix and carry the same next field agree on more. */
  lemma Agree(m: seq<byte>, n: seq<byte>, k: nat, b: seq<byte>)
    requires k <= |m| && k <= |n| && m[..k] == n[..k]
    requires At(m, k, b) && At(n, k, b)
    ensures m[..k + |b|] == n[..k + |b|]
  {
    assert m[..k + |b|] == m[..k] + m[k..k + |b|];
    assert n[..k + |b|] == n[..k] + n[k..k + |b|];
  }

  lemma FramedUnique(m: seq<byte>, n: seq<byte>, messageType: u16, payload: seq<byte>)
    requires Framed(m, messageType, payload) && Framed(n, messageType, payload)
    ensures m == n
  {
    Agree(m, n, 0, MAGIC);
    Agree(m, n, 8, ToBE(PROTOCOL_MAJOR, 2));
    Agree(m, n, 10, ToBE(PROTOCOL_MINOR, 2));
    Agree(m, n, 12, ToBE(messageType, 2));
    Agree(m, n, 14, ToBE(0, 2));
    Agree(m, n, 16, ToBE(|payload|, 4));
    assert m == m[..20] + m[20..] && n == n[..20] + n[20..];
  }

  // ----- writing -----

  predicate Begins(whole: seq<byte>, start: seq<byte>) {
    start <= whole
  }

  /** `extend_from_slice`: however the message goes on, the new field stays where the old end was. */
  method Extend(message: seq<byte>, bytes: seq<byte>) returns (m: seq<byte>)
    ensures |m| == |message| + |bytes|
    ensures forall whole :: Begins(whole, m) ==> Begins(whole, message) && At(whole, |message|, bytes)
  {
    m := message + bytes;
    forall whole | Begins(whole, m) ensures Begins(whole, message) && At(whole, |message|, bytes) {
      assert whole[|message|..|m|] == whole[..|m|][|message|..];
      assert whole[..|message|] == whole[..|m|][..|message|];
    }
  }

  method EncodeHeader(messageType: u16, payloadLength: nat) returns (m: seq<byte>)
    ensures |m| == HEADER_BYTES
    ensures forall whole :: Begins(whole, m) && |whole| == HEADER_BYTES + payloadLength < 0x1_0000_0000 ==>
      Framed(whole, messageType, whole[HEADER_BYTES..])
  {
    m := Extend([], MAGIC);
    m := Extend(m, ToBE(PROTOCOL_MAJOR, 2));
    m := Extend(m, ToBE(PROTOCOL_MINOR, 2));
    m := Extend(m, ToBE(messageType, 2));
    m := Extend(m, ToBE(0, 2));
    m := Extend(m, ToBE(payloadLength, 4));
  }

  /** A header that declares the payload's length, then the payload. */
  method Frame(messageType: u16, declared: nat, payload: seq<byte>) returns (m: seq<byte>)
    requires declared == |payload| < 0xFFFF_0000
    ensures Framed(m, messageType, payload)
  {
    var header := EncodeHeader(messageType, declared);
    m := header + payload;
    assert Begins(m, header);
    assert m[HEADER_BYTES..] == payload;
  }

  // ----- text blocks: a table of u16 lengths, later the texts back to back -----

  predicate LengthsAt(b: seq<byte>, off: nat, texts: seq<seq<byte>>) {
    forall i :: 0 <= i < |texts| ==> At(b, off + 2 * i, ToBE(|texts[i]|, 2))
  }

  /** From `off` to the end the bytes are exactly these texts. */
  predicate TextsAt(b: seq<byte>, off: nat, texts: seq<seq<byte>>)
    decreases |texts|
  {
    if texts == [] then off == |b|
    else At(b, off, texts[0]) && TextsAt(b, off + |texts[0]|, texts[1..])
  }

  predicate AllShort(texts: seq<seq<byte>>) {
    forall i :: 0 <= i < |texts| ==> |texts[i]| < 0x1_0000
  }

  function ReadLengths(b: seq<byte>, off: nat, count: nat): (lengths: seq<nat>)
    requires off + 2 * count <= |b|
    ensures |lengths| == count
  {
    seq(count, i requires 0 <= i < count => ReadU16(b, off + 2 * i) as nat)
  }

  function Sum(lengths: seq<nat>): nat {
    if lengths == [] then 0 else lengths[0] + Sum(lengths[1..])
  }

  function Slices(b: seq<byte>, off: nat, lengths: seq<nat>): (texts: seq<seq<byte>>)
    requires off + Sum(lengths) == |b|
    ensures |texts| == |lengths|
    decreases |lengths|
  {
    if lengths == [] then [] else [b[off..off + lengths[0]]] + Slices(b, off + lengths[0], lengths[1..])
  }

  /** Declared lengths must account for every byte after the fixed prefix. */
  function ReadTextBlock(b: seq<byte>, table: nat, prefix: nat, count: nat): (r: Result<seq<seq<byte>>, ProtocolError>)
    requires table + 2 * count <= prefix <= |b|
    ensures r.Success? ==> |r.value| == count
  {
    var lengths := ReadLengths(b, table, count);
    var _ :- Need(prefix + Sum(lengths) == |b|, InvalidLayout);
    Success(Slices(b, prefix, lengths))
  }

  lemma {:induction false} SlicesSound(b: seq<byte>, off: nat, lengths: seq<nat>)
    requires off + Sum(lengths) == |b|
    ensures TextsAt(b, off, Slices(b, off, lengths))
    ensures forall i :: 0 <= i < |lengths| ==> |Slices(b, off, lengths)[i]| == lengths[i]
    decreases |lengths|
  {
    if lengths != [] {
      SlicesSound(b, off + lengths[0], lengths[1..]);
      var texts, rest := Slices(b, off, lengths), Slices(b, off + lengths[0], lengths[1..]);
      assert texts == [b[off..off + lengths[0]]] + rest && texts[1..] == rest;
      forall i | 0 <= i < |lengths| ensures |texts[i]| == lengths[i] {
        if i > 0 {
          assert texts[i] == rest[i - 1] && lengths[i] == lengths[1..][i - 1];
        }
      }
    }
  }

  lemma {:induction false} SlicesComplete(b: seq<byte>, off: nat, lengths: seq<nat>, texts: seq<seq<byte>>)
    requires |lengths| == |texts| && TextsAt(b, off, texts)
    requires forall i :: 0 <= i < |texts| ==> |texts[i]| == lengths[i]
    ensures off + Sum(lengths) == |b| && Slices(b, off, lengths) == texts
    decreases |lengths|
  {
    if lengths != [] {
      SlicesComplete(b, off + lengths[0], lengths[1..], texts[1..]);
      assert texts == [texts[0]] + texts[1..];
    }
  }

  lemma LengthsSound(b: seq<byte>, table: nat, texts: seq<seq<byte>>)
    requires table + 2 * |texts| <= |b|
    requires forall i :: 0 <= i < |texts| ==> |texts[i]| == ReadLengths(b, table, |texts|)[i]
    ensures LengthsAt(b, table, texts) && AllShort(texts)
  {
    forall i | 0 <= i < |texts| ensures At(b, table + 2 * i, ToBE(|texts[i]|, 2)) && |texts[i]| < 0x1_0000 {
      var n := ReadU16(b, table + 2 * i);
      assert |texts[i]| == n;
    }
  }

  lemma LengthsComplete(b: seq<byte>, table: nat, texts: seq<seq<byte>>)
    requires table + 2 * |texts| <= |b| && LengthsAt(b, table, texts) && AllShort(texts)
    ensures forall i :: 0 <= i < |texts| ==> |texts[i]| == ReadLengths(b, table, |texts|)[i]
  {
    forall i | 0 <= i < |texts| ensures |texts[i]| == ReadLengths(b, table, |texts|)[i] {
      ReadU16Of(b, table + 2 * i, |texts[i]|);
    }
  }

  /** A text block is read back exactly when its length table and its bytes agree. */
  lemma TextBlockExact(b: seq<byte>, table: nat, prefix: nat, texts: seq<seq<byte>>)
    requires table + 2 * |texts| <= prefix <= |b|
    ensures ReadTextBlock(b, table, prefix, |texts|) == Success(texts)
       <==> LengthsAt(b, table, texts) && TextsAt(b, prefix, texts) && AllShort(texts)
  {
    var lengths := ReadLengths(b, table, |texts|);
    if ReadTextBlock(b, table, prefix, |texts|) == Success(texts) {
      SlicesSound(b, prefix, lengths);
      LengthsSound(b, table, texts);
    }
    if LengthsAt(b, table, texts) && TextsAt(b, prefix, texts) && AllShort(texts) {
      LengthsComplete(b, table, texts);
      SlicesComplete(b, prefix, lengths, texts);
    }
  }

  lemma {:induction false} AgreeLengths(m: seq<byte>, n: seq<byte>, off: nat, texts: seq<seq<byte>>)
    requires off <= |m| && off <= |n| && m[..off] == n[..off]
    requires LengthsAt(m, off, texts) && LengthsAt(n, off, texts)
    ensures off + 2 * |texts| <= |m| && off + 2 * |texts| <= |n|
    ensures m[..off + 2 * |texts|] == n[..off + 2 * |texts|]
  {
    if texts != [] {
      var last := |texts| - 1;
      AgreeLengths(m, n, off, texts[..last]);
      Agree(m, n, off + 2 * last, ToBE(|texts[last]|, 2));
    }
  }

  lemma {:induction false} AgreeTexts(m: seq<byte>, n: seq<byte>, off: nat, texts: seq<seq<byte>>)
    requires off <= |m| && off <= |n| && m[..off] == n[..off]
    requires TextsAt(m, off, texts) && TextsAt(n, off, texts)
    ensures m == n
    decreases |texts|
  {
    if texts != [] {
      Agree(m, n, off, texts[0]);
      AgreeTexts(m, n, off + |texts[0]|, texts[1..]);
    }
  }

  /** The table of u16 lengths, each `len as u16`. */
  method ExtendLengths(message: seq<byte>, texts: seq<seq<byte>>) returns (m: seq<byte>)
    ensures |m| == |message| + 2 * |texts|
    ensures forall whole :: Begins(whole, m) ==> Begins(whole, message) && LengthsAt(whole, |message|, texts)
  {
    m := message;
    for i := 0 to |texts|
      invariant |m| == |message| + 2 * i
      invariant forall whole :: Begins(whole, m) ==> Begins(whole, message) && LengthsAt(whole, |message|, texts[..i])
    {
      m := Extend(m, ToBE(|texts[i]|, 2));
    }
    assert texts[..|texts|] == texts;
  }

  /** The texts themselves, which end the message. */
  method ExtendTexts(message: seq<byte>, texts: seq<seq<byte>>) returns (m: seq<byte>)
    ensures Begins(m, message) && TextsAt(m, |message|, texts)
    decreases |texts|
  {
    if texts == [] {
      m := message;
    } else {
      m := Extend(message, texts[0]);
      m := ExtendTexts(m, texts[1..]);
    }
  }

  function TotalLength(texts: seq<seq<byte>>): nat {
    if texts == [] then 0 else |texts[0]| + TotalLength(texts[1..])
  }

  lemma {:induction false} TextsTotal(b: seq<byte>, off: nat, texts: seq<seq<byte>>)
    requires TextsAt(b, off, texts)
    ensures |b| == off + TotalLength(texts)
    decreases |texts|
  {
    if texts != [] {
      TextsTotal(b, off + |texts[0]|, texts[1..]);
    }
  }

  lemma {:induction false} TextsEnd(b: seq<byte>, off: nat, texts: seq<seq<byte>>, limits: seq<nat>)
    requires TextsAt(b, off, texts) && |limits| == |texts|
    requires forall i :: 0 <= i < |texts| ==> |texts[i]| <= limits[i]
    ensures |b| <= off + Sum(limits)
    decreases |texts|
  {
    if texts != [] {
      TextsEnd(b, off + |texts[0]|, texts[1..], limits[1..]);
    }
  }
}
