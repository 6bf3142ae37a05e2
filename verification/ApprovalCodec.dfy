/** Prompts and decisions as messages. */
module ApprovalCodec {
  import opened Wrappers
  import opened Bytes
  import opened ApprovalPrompts
  import opened ApprovalWire
  import opened ApprovalPayloads
  import Utf8

  // ----- texts -----

  function EncodeTexts(texts: seq<string>): (fields: seq<seq<byte>>)
    ensures |fields| == |texts|
  {
    seq(|texts|, i requires 0 <= i < |texts| => Utf8.Encode(texts[i]))
  }

  /** Decodes the texts in order; the first that is not UTF-8 names the error. */
  function DecodeTexts(names: seq<string>, fields: seq<seq<byte>>): (r: Result<seq<string>, ProtocolError>)
    requires |names| == |fields|
    ensures r.Success? ==> |r.value| == |fields|
  {
    if fields == [] then Success([])
    else
      match Utf8.Decode(fields[0])
      case None => Failure(InvalidField(names[0]))
      case Some(text) =>
        var rest :- DecodeTexts(names[1..], fields[1..]);
        Success([text] + rest)
  }

  lemma {:induction false} DecodeTextsSound(names: seq<string>, fields: seq<seq<byte>>, texts: seq<string>)
    requires |names| == |fields| && DecodeTexts(names, fields) == Success(texts)
    ensures EncodeTexts(texts) == fields
  {
    if fields != [] {
      var rest := DecodeTexts(names[1..], fields[1..]).value;
      assert texts == [texts[0]] + rest && texts[1..] == rest;
      DecodeTextsSound(names[1..], fields[1..], rest);
      Utf8.EncodeDecode(fields[0]);
      forall i | 0 <= i < |fields| ensures Utf8.Encode(texts[i]) == fields[i] {
        if i > 0 {
          assert EncodeTexts(rest)[i - 1] == fields[1..][i - 1] == fields[i];
        }
      }
    }
  }

  lemma {:induction false} DecodeTextsComplete(names: seq<string>, texts: seq<string>)
    requires |names| == |texts|
    ensures DecodeTexts(names, EncodeTexts(texts)) == Success(texts)
  {
    if texts != [] {
      DecodeTextsComplete(names[1..], texts[1..]);
      assert EncodeTexts(texts)[1..] == EncodeTexts(texts[1..]);
      Utf8.DecodeEncode(texts[0]);
      assert texts == [texts[0]] + texts[1..];
    }
  }

  // ----- prompts and payload fields -----

  predicate HasPersona(p: ApprovalPrompt) {
    p.subject.RecoveryParticipation? || (p.personaId.Some? && p.personaPurpose.Some?)
  }

  function TextNames(f: Payload): seq<string> {
    match f
    case ArtifactFields(_, _, _, _, _, _, _, _) => ["persona label", "key fingerprint", "artifact label"]
    case DomainFields(_, _, _, _, _, _, _) => ["persona label", "key fingerprint", "domain", "DNS TXT value"]
    case RootFields(_, _, _, _, _, _, _) => ["persona label", "key fingerprint", "persona anchor"]
    case TransitionFields(_, _, _, _, _, _, _, _, _, _) =>
      ["persona label", "previous key fingerprint", "next key fingerprint", "persona anchor"]
    case RecoveryFields(_, _, _, _, _, _, _, _, _, _, _, _, _) =>
      ["persona label", "participant key fingerprint", "previous key fingerprint", "next key fingerprint",
       "persona anchor", "ceremony ID"]
  }

  function PayloadOf(p: ApprovalPrompt): Payload
    requires HasPersona(p)
  {
    var texts := EncodeTexts(TextsOf(p));
    match p.subject
    case Artifact(kind, _, sha, size) =>
      ArtifactFields(kind, p.personaPurpose.value, p.peer, size, p.requestId, p.personaId.value, sha, texts)
    case Domain(_, _, issuedAt, expiresAt) =>
      DomainFields(p.personaPurpose.value, p.peer, issuedAt, expiresAt, p.requestId, p.personaId.value, texts)
    case PersonaRoot(_, root, issuedAt) =>
      RootFields(p.personaPurpose.value, p.peer, issuedAt, p.requestId, p.personaId.value, root, texts)
    case PersonaTransition(_, root, sequence, previous, issuedAt, _, _, transition) =>
      TransitionFields(p.personaPurpose.value, previous, p.peer, sequence, issuedAt, p.requestId,
                       p.personaId.value, root, transition, texts)
    case RecoveryParticipation(request, _, expiry, _, root, version, policy, threshold, sequence, head, reason,
                               _, _, role, _) =>
      RecoveryFields(role, reason, head, p.peer, version, threshold, sequence, expiry, p.requestId,
                     request, root, policy, texts)
  }

  /** The prompt constructors `new`, `new_domain`, ... before validation. */
  function PromptOf(f: Payload, texts: seq<string>): ApprovalPrompt
    requires |texts| == |TextNames(f)|
  {
    match f
    case ArtifactFields(kind, purpose, peer, size, request, persona, sha, _) =>
      ApprovalPrompt(request, Some(persona), texts[0], Some(purpose), texts[1],
                     Artifact(kind, texts[2], sha, size), peer)
    case DomainFields(purpose, peer, issuedAt, expiresAt, request, persona, _) =>
      ApprovalPrompt(request, Some(persona), texts[0], Some(purpose), texts[1],
                     Domain(texts[2], texts[3], issuedAt, expiresAt), peer)
    case RootFields(purpose, peer, issuedAt, request, persona, root, _) =>
      ApprovalPrompt(request, Some(persona), texts[0], Some(purpose), texts[1],
                     PersonaRoot(texts[2], root, issuedAt), peer)
    case TransitionFields(purpose, previous, peer, sequence, issuedAt, request, persona, root, transition, _) =>
      ApprovalPrompt(request, Some(persona), texts[0], Some(purpose), texts[1],
                     PersonaTransition(texts[3], root, sequence, previous, issuedAt, texts[1], texts[2], transition),
                     peer)
    case RecoveryFields(role, reason, head, peer, version, threshold, sequence, expiry, request,
                        requestSha256, root, policy, _) =>
      ApprovalPrompt(request, None, texts[0], None, texts[1],
                     RecoveryParticipation(requestSha256, texts[5], expiry, texts[4], root, version, policy,
                                           threshold, sequence, head, reason, texts[2], texts[3], role, texts[1]),
                     peer)
  }

  lemma PromptOfPayload(p: ApprovalPrompt)
    requires HasPersona(p) && NothingHidden(p)
    ensures |TextsOf(p)| == |TextNames(PayloadOf(p))| && PromptOf(PayloadOf(p), TextsOf(p)) == p
  {}

  lemma PayloadOfPrompt(f: Payload, texts: seq<string>)
    requires |texts| == |TextNames(f)| && f.texts == EncodeTexts(texts)
    ensures HasPersona(PromptOf(f, texts)) && PayloadOf(PromptOf(f, texts)) == f
  {
    assert TextsOf(PromptOf(f, texts)) == texts;
  }

  function FinishPrompt(f: Payload): Result<ApprovalPrompt, ProtocolError>
    requires |f.texts| == |TextNames(f)|
  {
    var texts :- DecodeTexts(TextNames(f), f.texts);
    var p := PromptOf(f, texts);
    var _ :- ValidatePrompt(p);
    Success(p)
  }

  lemma FinishSound(f: Payload, p: ApprovalPrompt)
    requires |f.texts| == |TextNames(f)| && FinishPrompt(f) == Success(p)
    ensures Valid(p) && HasPersona(p) && PayloadOf(p) == f
  {
    var texts := DecodeTexts(TextNames(f), f.texts).value;
    DecodeTextsSound(TextNames(f), f.texts, texts);
    PayloadOfPrompt(f, texts);
  }

  lemma FinishComplete(p: ApprovalPrompt)
    requires Valid(p)
    ensures HasPersona(p) && var f := PayloadOf(p); |f.texts| == |TextNames(f)| && FinishPrompt(f) == Success(p)
  {
    ValidBounds(p);
    PromptOfPayload(p);
    DecodeTextsComplete(TextNames(PayloadOf(p)), TextsOf(p));
  }

  // ----- prompt messages -----

  function MessageType(f: Payload): u16 {
    match f
    case ArtifactFields(_, _, _, _, _, _, _, _) => MESSAGE_ARTIFACT
    case DomainFields(_, _, _, _, _, _, _) => MESSAGE_DOMAIN
    case RootFields(_, _, _, _, _, _, _) => MESSAGE_ROOT
    case TransitionFields(_, _, _, _, _, _, _, _, _, _) => MESSAGE_TRANSITION
    case RecoveryFields(_, _, _, _, _, _, _, _, _, _, _, _, _) => MESSAGE_RECOVERY
  }

  predicate LayoutAt(f: Payload, b: seq<byte>) {
    match f
    case ArtifactFields(_, _, _, _, _, _, _, _) => ArtifactAt(f, b)
    case DomainFields(_, _, _, _, _, _, _) => DomainAt(f, b)
    case RootFields(_, _, _, _, _, _, _) => RootAt(f, b)
    case TransitionFields(_, _, _, _, _, _, _, _, _, _) => TransitionAt(f, b)
    case RecoveryFields(_, _, _, _, _, _, _, _, _, _, _, _, _) => RecoveryAt(f, b)
  }

  predicate IsPromptType(t: u16) {
    t in {MESSAGE_ARTIFACT, MESSAGE_DOMAIN, MESSAGE_ROOT, MESSAGE_TRANSITION, MESSAGE_RECOVERY}
  }

  function MaxPayload(t: u16): nat {
    if t == MESSAGE_ARTIFACT then MAX_ARTIFACT_PAYLOAD
    else if t == MESSAGE_DOMAIN then MAX_DOMAIN_PAYLOAD
    else if t == MESSAGE_ROOT then MAX_ROOT_PAYLOAD
    else if t == MESSAGE_TRANSITION then MAX_TRANSITION_PAYLOAD
    else MAX_RECOVERY_PAYLOAD
  }

  function ReadPayload(t: u16, b: seq<byte>): (r: Result<Payload, ProtocolError>)
    requires IsPromptType(t)
    ensures r.Success? ==> |r.value.texts| == |TextNames(r.value)| && MessageType(r.value) == t
  {
    if t == MESSAGE_ARTIFACT then ReadArtifact(b)
    else if t == MESSAGE_DOMAIN then ReadDomain(b)
    else if t == MESSAGE_ROOT then ReadRoot(b)
    else if t == MESSAGE_TRANSITION then ReadTransition(b)
    else ReadRecovery(b)
  }

  lemma ReadPayloadSound(f: Payload, b: seq<byte>)
    requires ReadPayload(MessageType(f), b) == Success(f)
    ensures LayoutAt(f, b)
  {
    match f
    case ArtifactFields(_, _, _, _, _, _, _, _) => ArtifactSound(f, b);
    case DomainFields(_, _, _, _, _, _, _) => DomainSound(f, b);
    case RootFields(_, _, _, _, _, _, _) => RootSound(f, b);
    case TransitionFields(_, _, _, _, _, _, _, _, _, _) => TransitionSound(f, b);
    case RecoveryFields(_, _, _, _, _, _, _, _, _, _, _, _, _) => RecoverySound(f, b);
  }

  lemma ReadPayloadComplete(f: Payload, b: seq<byte>)
    requires |f.texts| == |TextNames(f)| && AllShort(f.texts) && LayoutAt(f, b)
    ensures ReadPayload(MessageType(f), b) == Success(f)
  {
    match f
    case ArtifactFields(_, _, _, _, _, _, _, _) =>
      assert ReadPayload(MessageType(f), b) == ReadArtifact(b);
      ArtifactComplete(f, b);
    case DomainFields(_, _, _, _, _, _, _) =>
      assert ReadPayload(MessageType(f), b) == ReadDomain(b);
      DomainComplete(f, b);
    case RootFields(_, _, _, _, _, _, _) =>
      assert ReadPayload(MessageType(f), b) == ReadRoot(b);
      RootComplete(f, b);
    case TransitionFields(_, _, _, _, _, _, _, _, _, _) =>
      assert ReadPayload(MessageType(f), b) == ReadTransition(b);
      TransitionComplete(f, b);
    case RecoveryFields(_, _, _, _, _, _, _, _, _, _, _, _, _) =>
      assert ReadPayload(MessageType(f), b) == ReadRecovery(b);
      RecoveryComplete(f, b);
  }

  lemma LayoutUnique(f: Payload, m: seq<byte>, n: seq<byte>)
    requires |f.texts| == |TextNames(f)| && LayoutAt(f, m) && LayoutAt(f, n)
    ensures m == n
  {
    match f
    case ArtifactFields(_, _, _, _, _, _, _, _) => ArtifactUnique(f, m, n);
    case DomainFields(_, _, _, _, _, _, _) => DomainUnique(f, m, n);
    case RootFields(_, _, _, _, _, _, _) => RootUnique(f, m, n);
    case TransitionFields(_, _, _, _, _, _, _, _, _, _) => TransitionUnique(f, m, n);
    case RecoveryFields(_, _, _, _, _, _, _, _, _, _, _, _, _) => RecoveryUnique(f, m, n);
  }

  function DecodePrompt(m: seq<byte>): Result<ApprovalPrompt, ProtocolError> {
    var t :- DecodeCommonHeader(m);
    var _ :- Need(IsPromptType(t), UnsupportedMessageType(t));
    var b :- DecodeHeader(m, t, MaxPayload(t));
    var f :- ReadPayload(t, b);
    FinishPrompt(f)
  }

  /** The message carries this prompt, field by field at the documented offsets. */
  predicate Carries(m: seq<byte>, p: ApprovalPrompt)
    requires HasPersona(p)
  {
    && |m| >= HEADER_BYTES
    && Framed(m, MessageType(PayloadOf(p)), m[HEADER_BYTES..])
    && LayoutAt(PayloadOf(p), m[HEADER_BYTES..])
  }

  lemma EncodedWithin(texts: seq<string>, limits: seq<nat>)
    requires Within(texts, limits) && forall i :: 0 <= i < |limits| ==> limits[i] < 0x1_0000
    ensures AllShort(EncodeTexts(texts))
    ensures forall i :: 0 <= i < |texts| ==> |EncodeTexts(texts)[i]| <= limits[i]
  {}

  /** A valid prompt never reaches past the payload limit of its message type. */
  lemma PayloadLimit(p: ApprovalPrompt, b: seq<byte>)
    requires HasPersona(p) && NothingHidden(p) && TextsBounded(p) && LayoutAt(PayloadOf(p), b)
    ensures |b| <= MaxPayload(MessageType(PayloadOf(p)))
    ensures AllShort(PayloadOf(p).texts)
  {
    BoundedWithin(p);
    EncodedWithin(TextsOf(p), TextLimits(p));
    var texts, limits := PayloadOf(p).texts, TextLimits(p);
    var prefix := PrefixOf(PayloadOf(p));
    TextsEnd(b, prefix, texts, limits);
    SumOfLimits(p);
  }

  function PrefixOf(f: Payload): nat {
    match f
    case ArtifactFields(_, _, _, _, _, _, _, _) => ARTIFACT_PREFIX
    case DomainFields(_, _, _, _, _, _, _) => DOMAIN_PREFIX
    case RootFields(_, _, _, _, _, _, _) => ROOT_PREFIX
    case TransitionFields(_, _, _, _, _, _, _, _, _, _) => TRANSITION_PREFIX
    case RecoveryFields(_, _, _, _, _, _, _, _, _, _, _, _, _) => RECOVERY_PREFIX
  }

  lemma SumOfLimits(p: ApprovalPrompt)
    requires HasPersona(p)
    ensures PrefixOf(PayloadOf(p)) + Sum(TextLimits(p)) == MaxPayload(MessageType(PayloadOf(p)))
  {
    match p.subject
    case Artifact(_, _, _, _) => SumThree(256, 128, 256);
    case Domain(_, _, _, _) => SumFour(256, 128, 253, 128);
    case PersonaRoot(_, _, _) => SumThree(256, 128, 43);
    case PersonaTransition(_, _, _, _, _, _, _, _) => SumFour(256, 128, 128, 43);
    case RecoveryParticipation(_, _, _, _, _, _, _, _, _, _, _, _, _, _, _) =>
      assert [256, 128, 128, 128, 43, 43][1..] == [128, 128, 128, 43, 43];
      assert [128, 128, 128, 43, 43][1..] == [128, 128, 43, 43];
      SumFour(128, 128, 43, 43);
  }

  lemma SumThree(a: nat, b: nat, c: nat)
    ensures Sum([a, b, c]) == a + b + c
  {
    assert [a, b, c][1..] == [b, c] && [b, c][1..] == [c] && [c][1..] == [];
    assert Sum([c]) == c && Sum([b, c]) == b + c;
  }

  lemma SumFour(a: nat, b: nat, c: nat, d: nat)
    ensures Sum([a, b, c, d]) == a + b + c + d
  {
    assert [a, b, c, d][1..] == [b, c, d];
    SumThree(b, c, d);
  }

  /** Whatever the decoder accepts carries its result byte for byte, and the result is valid. */
  lemma DecodeSound(m: seq<byte>, p: ApprovalPrompt)
    requires DecodePrompt(m) == Success(p)
    ensures Valid(p) && HasPersona(p) && Carries(m, p)
  {
    hide DecodeHeader, FinishPrompt, ReadPayload, PayloadOf, LayoutAt, Valid;
    var t := DecodeCommonHeader(m).value;
    var b := DecodeHeader(m, t, MaxPayload(t)).value;
    HeaderExact(m, t, MaxPayload(t), b);
    var f := ReadPayload(t, b).value;
    ReadPayloadSound(f, b);
    FinishSound(f, p);
  }

  /** Whatever carries a valid prompt is accepted and decodes to that prompt. */
  lemma DecodeComplete(m: seq<byte>, p: ApprovalPrompt)
    requires Valid(p) && HasPersona(p) && Carries(m, p)
    ensures DecodePrompt(m) == Success(p)
    ensures |m| <= HEADER_BYTES + MaxPayload(MessageType(PayloadOf(p)))
  {
    hide DecodeHeader, DecodeCommonHeader, FinishPrompt, ReadPayload, PayloadOf, LayoutAt, Valid, TextsBounded;
    var f, b := PayloadOf(p), m[HEADER_BYTES..];
    var t := MessageType(f);
    FinishComplete(p);
    ValidBounds(p);
    PayloadLimit(p, b);
    HeaderExact(m, t, MaxPayload(t), b);
    FramedType(m, t, b);
    ReadPayloadComplete(f, b);
  }

  /** A prompt has at most one message. */
  lemma CarriesUnique(p: ApprovalPrompt, m: seq<byte>, n: seq<byte>)
    requires HasPersona(p) && Carries(m, p) && Carries(n, p)
    ensures m == n
  {
    hide LayoutAt, EncodeTexts, Framed;
    var f := PayloadOf(p);
    LayoutUnique(f, m[HEADER_BYTES..], n[HEADER_BYTES..]);
    FramedUnique(m, n, MessageType(f), m[HEADER_BYTES..]);
  }

  method WritePayload(f: Payload) returns (b: seq<byte>)
    requires |f.texts| == |TextNames(f)|
    ensures LayoutAt(f, b)
  {
    match f
    case ArtifactFields(_, _, _, _, _, _, _, _) => b := WriteArtifact(f);
    case DomainFields(_, _, _, _, _, _, _) => b := WriteDomain(f);
    case RootFields(_, _, _, _, _, _, _) => b := WriteRoot(f);
    case TransitionFields(_, _, _, _, _, _, _, _, _, _) => b := WriteTransition(f);
    case RecoveryFields(_, _, _, _, _, _, _, _, _, _, _, _, _) => b := WriteRecovery(f);
  }

  /** The message of a prompt: header, then payload. */
  method WriteMessage(p: ApprovalPrompt) returns (message: seq<byte>)
    requires HasPersona(p) && NothingHidden(p) && TextsBounded(p)
    ensures Carries(message, p)
  {
    hide TextsBounded, EncodeTexts;
    PromptOfPayload(p);
    var payload := WritePayload(PayloadOf(p));
    PayloadLimit(p, payload);
    var f := PayloadOf(p);
    TextsTotal(payload, PrefixOf(f), f.texts);
    message := Frame(MessageType(f), PrefixOf(f) + TotalLength(f.texts), payload);
  }

  /** Decoding is exact: a message decodes to a prompt if and only if it carries it and it is valid. */
  lemma DecodeExact(m: seq<byte>, p: ApprovalPrompt)
    ensures DecodePrompt(m) == Success(p) <==> Valid(p) && HasPersona(p) && Carries(m, p)
  {
    if DecodePrompt(m) == Success(p) {
      DecodeSound(m, p);
    }
    if Valid(p) && HasPersona(p) && Carries(m, p) {
      DecodeComplete(m, p);
    }
  }

  /** The one message that carries a valid prompt is the one that decodes to it. */
  lemma TheMessage(p: ApprovalPrompt, message: seq<byte>)
    requires Valid(p) && HasPersona(p) && Carries(message, p)
    ensures forall m :: DecodePrompt(m) == Success(p) <==> m == message
  {
    forall m ensures DecodePrompt(m) == Success(p) <==> m == message {
      DecodeExact(m, p);
      if Carries(m, p) {
        CarriesUnique(p, m, message);
      }
    }
  }

  /**
   Encoding succeeds exactly on valid prompts. Its message fits the limit of its type and
   is the one byte string that decodes to the prompt.
   */
  method EncodePrompt(p: ApprovalPrompt) returns (r: Result<seq<byte>, ProtocolError>)
    ensures r.Success? <==> Valid(p)
    ensures r.Failure? ==> ValidatePrompt(p) == Failure(r.error)
    ensures r.Success? ==> HasPersona(p) && |r.value| <= HEADER_BYTES + MaxPayload(MessageType(PayloadOf(p)))
    ensures r.Success? ==> forall m :: DecodePrompt(m) == Success(p) <==> m == r.value
  {
    hide ValidatePrompt, DecodePrompt, PayloadOf, Carries, Valid, TextsBounded;
    var check := ValidatePrompt(p);
    if check.Failure? {
      return Failure(check.error);
    }
    ValidBounds(p);
    var message := WriteMessage(p);
    DecodeComplete(message, p);
    TheMessage(p, message);
    r := Success(message);
  }

  /** Two accepted messages with one meaning are one message: decoding is canonical. */
  lemma DecodeInjective(m: seq<byte>, n: seq<byte>)
    requires DecodePrompt(m).Success? && DecodePrompt(m) == DecodePrompt(n)
    ensures m == n
  {
    var p := DecodePrompt(m).value;
    DecodeSound(m, p);
    DecodeSound(n, p);
    CarriesUnique(p, m, n);
  }

  /** Decoding and re-encoding gives back the very bytes, whatever the layout. */
  method Recode(m: seq<byte>) returns (r: Result<seq<byte>, ProtocolError>)
    ensures r == match DecodePrompt(m) case Success(_) => Success(m) case Failure(e) => Failure(e)
  {
    var p :- DecodePrompt(m);
    DecodeSound(m, p);
    r := EncodePrompt(p);
  }

  // ----- decisions -----

  datatype ApprovalDecision = Approve | Decline | Cancel

  datatype DecisionResponse = DecisionResponse(requestId: Uuid, decision: ApprovalDecision)

  function DecisionType(d: ApprovalDecision): u16 {
    match d case Approve => MESSAGE_APPROVE case Decline => MESSAGE_DECLINE case Cancel => MESSAGE_CANCEL
  }

  function DecodeDecision(m: seq<byte>): Result<DecisionResponse, ProtocolError> {
    var t :- DecodeCommonHeader(m);
    var decision :-
      (if t == MESSAGE_APPROVE then Success(Approve)
       else if t == MESSAGE_DECLINE then Success(Decline)
       else if t == MESSAGE_CANCEL then Success(Cancel)
       else Failure(UnsupportedMessageType(t)));
    var payload :- DecodeHeader(m, t, DECISION_PAYLOAD_BYTES);
    var _ :- Need(|payload| == DECISION_PAYLOAD_BYTES, InvalidLayout);
    Success(DecisionResponse(payload, decision))
  }

  lemma DecisionSound(m: seq<byte>, d: DecisionResponse)
    requires DecodeDecision(m) == Success(d)
    ensures Framed(m, DecisionType(d.decision), d.requestId)
  {
    HeaderExact(m, DecisionType(d.decision), DECISION_PAYLOAD_BYTES, d.requestId);
  }

  lemma DecisionComplete(m: seq<byte>, d: DecisionResponse)
    requires Framed(m, DecisionType(d.decision), d.requestId)
    ensures DecodeDecision(m) == Success(d)
  {
    FramedType(m, DecisionType(d.decision), d.requestId);
    HeaderExact(m, DecisionType(d.decision), DECISION_PAYLOAD_BYTES, d.requestId);
  }

  /** A decision has exactly one message, and that message decodes to it. */
  method EncodeDecision(d: DecisionResponse) returns (message: seq<byte>)
    ensures |message| == HEADER_BYTES + DECISION_PAYLOAD_BYTES
    ensures forall m :: DecodeDecision(m) == Success(d) <==> m == message
  {
    message := Frame(DecisionType(d.decision), DECISION_PAYLOAD_BYTES, d.requestId);
    forall m ensures DecodeDecision(m) == Success(d) <==> m == message {
      DecisionComplete(message, d);
      if DecodeDecision(m) == Success(d) {
        DecisionSound(m, d);
        FramedUnique(m, message, DecisionType(d.decision), d.requestId);
      }
    }
  }
}
