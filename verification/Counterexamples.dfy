/** Concrete inputs on which two operations fall short of what their callers may expect. */
module Counterexamples {
  import opened Wrappers
  import opened Bytes
  import opened ApprovalPrompts
  import opened ApprovalCodec
  import opened ApprovalStream
  import opened Keys
  import opened Statements
  import opened Continuity
  import opened Ceremony
  import Base64
  import Hex
  import Review
  import Text
  import Utf8

  // ----- an interruption behind a whole message -----

  function Ones(n: nat): seq<byte> {
    seq(n, _ => 1)
  }

  function SampleFingerprint(d: Digest): string {
    "SHA256:" + Base64.Encode(Base64.Standard, d)
  }

  /** A small artifact prompt. */
  function SamplePrompt(): ApprovalPrompt {
    ApprovalPrompt(Ones(16), Some(Ones(16)), "p", Some(Personal), SampleFingerprint(Zeros(32)),
                   Artifact(Generic, "a", Zeros(32), 0), PeerIdentity(1, 0, 0))
  }

  lemma SampleFingerprintIsCanonical(d: Digest)
    ensures IsFingerprint(SampleFingerprint(d))
  {
    var text := Base64.Encode(Base64.Standard, d);
    Base64.DecodeEncode(Base64.Standard, d);
    assert SampleFingerprint(d)[|"SHA256:"|..] == text;
  }

  lemma SamplePromptIsValid()
    ensures Valid(SamplePrompt())
  {
    hide IsDisplayText, IsFingerprint, IsKeyFingerprint, SampleFingerprint;
    SampleFingerprintIsCanonical(Zeros(32));
    Review.FingerprintAgrees(SampleFingerprint(Zeros(32)));
    Review.PlainIsDisplayable("p", MAX_PERSONA_LABEL_BYTES);
    Review.PlainIsDisplayable("a", MAX_ARTIFACT_LABEL_BYTES);
    assert Ones(16)[0] != Zeros(16)[0];
  }

  /** The one message of any valid prompt, read to its end and read with one interruption behind its last byte. */
  method InterruptedEnd(p: ApprovalPrompt) returns (whole: Result<ApprovalPrompt, ProtocolError>,
                                                    interrupted: Result<ApprovalPrompt, ProtocolError>)
    requires Valid(p)
    ensures whole == Success(p)
    ensures interrupted == Failure(ReadFailed)
  {
    hide Valid, DecodePrompt, ParseOne, Delivered;
    var encoded := EncodePrompt(p);
    var message := encoded.value;
    PromptParses(message);
    NotEmpty(message);
    DeliveredWhole(message);
    var source := new Source([Data(message)]);
    whole := ReadPrompt(source);
    source := new Source([Data(message), Interrupted]);
    interrupted := ReadPrompt(source);
  }

  /** There is such a prompt, so there is such a source. */
  method SampleInterruptedEnd() returns (interrupted: Result<ApprovalPrompt, ProtocolError>)
    ensures interrupted == Failure(ReadFailed)
  {
    hide Valid, SamplePrompt;
    SamplePromptIsValid();
    var _, r := InterruptedEnd(SamplePrompt());
    interrupted := r;
  }

  lemma NotEmpty(message: seq<byte>)
    requires DecodePrompt(message).Success?
    ensures message != []
  {
    PromptParses(message);
  }

  lemma DeliveredWhole(message: seq<byte>)
    ensures Delivered([Data(message)]) == message
    ensures Delivered([Data(message), Interrupted]) == message
  {
    assert [Data(message), Interrupted][1..] == [Interrupted];
    assert Delivered([Interrupted]) == [];
  }

  // ----- a signature text nobody may verify -----

  /** The text of a key with this algorithm name and blob. */
  function KeyText(algorithm: string, blob: seq<byte>): string {
    algorithm + " " + Base64.Encode(Base64.Standard, blob)
  }

  lemma EncodedHasNoSpace(text: string)
    requires Base64.AllSymbols(Base64.Standard, text)
    ensures Text.NoWhitespace(text) && Utf8.IsAscii(text) && '=' !in text
  {
    forall i | 0 <= i < |text|
      ensures !Text.IsWhitespace(text[i]) && text[i] as int < 0x80 && text[i] != '='
    {
      assert Base64.IsSymbol(Base64.Standard, text[i]);
    }
  }

  lemma SampleKey(blob: seq<byte>)
    requires |blob| == 6 && blob[..5] == [0, 0, 0, 1, 'k' as int]
    ensures var key := KeyText("k", blob); NormalizePublicKey(key) == Success(key) && KeyBlob(key) == Some(blob)
  {
    hide Base64.Encode, Base64.DecodePadded, Utf8.Encode, Text.Words;
    var text := Base64.Encode(Base64.Standard, blob);
    SampleText(blob);
    Text.WordsOfTwo("k", text);
    SampleLength(blob);
    Utf8.AsciiLength(KeyText("k", blob));
    Utf8.AsciiLength("k");
    assert Utf8.Encode("k") == [blob[4]] == blob[4..5];
  }

  lemma SampleText(blob: seq<byte>)
    requires |blob| == 6
    ensures var text := Base64.Encode(Base64.Standard, blob);
            && |text| == 8 && Text.NoWhitespace(text) && Utf8.IsAscii(text)
            && Base64.DecodePadded(text) == Some(blob)
  {
    var text := Base64.Encode(Base64.Standard, blob);
    Base64.DecodeEncode(Base64.Standard, blob);
    Base64.EncodeShape(Base64.Standard, blob);
    EncodedHasNoSpace(text);
    hide Base64.Encode, Base64.Decode;
    assert text[7] != '=' && text[6..][1] == text[7];
  }

  lemma SampleLength(blob: seq<byte>)
    requires |blob| == 6 && blob[..5] == [0, 0, 0, 1, 'k' as int]
    ensures FromBE(blob[..4]) == 1
  {
    assert blob[..4] == ToBE(1, 4);
    Pow256Values();
    FromToBE(1, 4);
  }

  function SampleBlob(last: byte): seq<byte> {
    [0, 0, 0, 1, 'k' as int, last]
  }

  /** Two keys whose digests differ. */
  function SampleSha256(blob: seq<byte>): Digest {
    if blob == SampleBlob(0) then Zeros(32) else Ones(32)
  }

  /** A persona's first transition. */
  function FirstStatement(anchor: string, root: string, previousKey: string, nextKey: string): TransitionStatement {
    TransitionStatement(TRANSITION_STATEMENT_SCHEMA, CANONICALIZATION, anchor, "p", 1, 0, root, None,
                        previousKey, nextKey, Routine)
  }

  lemma FirstStatementIsValid(anchor: string, root: string, previousKey: string, nextKey: string)
    requires IsAnchor(anchor) && Hex.IsSha256(root) && IsPersona("p")
    requires IsFingerprint(previousKey) && IsFingerprint(nextKey) && previousKey != nextKey
    ensures ValidateTransitionStatement(FirstStatement(anchor, root, previousKey, nextKey)).Success?
  {
    hide IsAnchor, Hex.IsSha256, IsPersona, IsFingerprint;
  }

  function SampleStatement(): TransitionStatement {
    FirstStatement(Base64.Encode(Base64.UrlSafe, Zeros(32)), Hex.Encode(Zeros(32)),
                   SampleFingerprint(Zeros(32)), SampleFingerprint(Ones(32)))
  }

  function SampleRootStatement(): RootStatement {
    RootStatement(ROOT_STATEMENT_SCHEMA, CANONICALIZATION, Base64.Encode(Base64.UrlSafe, Zeros(32)), "p", 1, 0,
                  SampleFingerprint(Zeros(32)))
  }

  /** A world with one root and one transition statement, in which every signature verifies. */
  function SampleOracles(): Oracles {
    Oracles(SampleSha256, (_, _, _, _) => true,
            _ => [], _ => Some(SampleRootStatement()), _ => [], _ => Some(SampleStatement()))
  }

  lemma SampleFingerprintsDiffer()
    ensures SampleFingerprint(Zeros(32)) != SampleFingerprint(Ones(32))
  {
    hide Base64.Encode, Base64.Decode;
    var zero, one := Base64.Encode(Base64.Standard, Zeros(32)), Base64.Encode(Base64.Standard, Ones(32));
    Base64.DecodeEncode(Base64.Standard, Zeros(32));
    Base64.DecodeEncode(Base64.Standard, Ones(32));
    assert Zeros(32)[0] != Ones(32)[0];
    assert SampleFingerprint(Zeros(32))[7..] == zero && SampleFingerprint(Ones(32))[7..] == one;
  }

  lemma SampleStatementIsValid()
    ensures CanonicalTransitionBytes(SampleOracles(), SampleStatement()) == Success([])
  {
    hide SampleFingerprint, IsFingerprint, IsPersona, IsAnchor, Base64.Encode, Hex.IsSha256, Hex.Encode,
         FirstStatement, ValidateTransitionStatement;
    SampleFingerprintIsCanonical(Zeros(32));
    SampleFingerprintIsCanonical(Ones(32));
    SampleFingerprintsDiffer();
    SampleAnchor();
    SamplePersona();
    SampleRoot();
    FirstStatementIsValid(Base64.Encode(Base64.UrlSafe, Zeros(32)), Hex.Encode(Zeros(32)),
                          SampleFingerprint(Zeros(32)), SampleFingerprint(Ones(32)));
  }

  lemma SampleRoot()
    ensures Hex.IsSha256(Hex.Encode(Zeros(32)))
  {
    Hex.DecodeEncode(Zeros(32));
  }

  lemma SampleAnchor()
    ensures IsAnchor(Base64.Encode(Base64.UrlSafe, Zeros(32)))
  {
    Base64.Canonical32(Base64.UrlSafe, Base64.Encode(Base64.UrlSafe, Zeros(32)));
  }

  lemma SamplePersona()
    ensures IsPersona("p")
  {
    Review.PlainIsDisplayable("p", MAX_PERSONA_BYTES);
  }

  lemma SampleKeyPrint(last: byte)
    ensures var key := KeyText("k", SampleBlob(last));
            && NormalizePublicKey(key) == Success(key)
            && Fingerprint(SampleSha256, key) == Success(SampleFingerprint(SampleSha256(SampleBlob(last))))
  {
    hide Base64.Encode, NormalizePublicKey, KeyBlob;
    SampleKey(SampleBlob(last));
  }

  /** What the two signers of the sample statement make of these signature texts. */
  function SampleProof(previous: string, next: string): Result<TransitionProof, ProofError> {
    CreateRoutineProof(SampleOracles(), SampleStatement(), Success(previous), KeyText("k", SampleBlob(0)),
                       Success(next), KeyText("k", SampleBlob(1)))
  }

  lemma SampleProofIsCreated(previous: string, next: string)
    ensures SampleProof(previous, next).Success?
    ensures var proof := SampleProof(previous, next).value;
            |proof.signatures| == 2 && proof.signatures[0].value == previous && proof.signatures[1].value == next
  {
    hide KeyText, SampleStatement, NormalizePublicKey, Fingerprint, CanonicalTransitionBytes, SampleFingerprint,
         Base64.Encode, SampleSha256;
    SampleStatementIsValid();
    SampleKeyPrint(0);
    SampleKeyPrint(1);
    SampleKeysMatch();
  }

  lemma SampleKeysMatch()
    ensures SampleStatement().previousKey == SampleFingerprint(SampleSha256(SampleBlob(0)))
    ensures SampleStatement().nextKey == SampleFingerprint(SampleSha256(SampleBlob(1)))
  {
    hide SampleFingerprint, Base64.Encode, Hex.Encode;
    assert SampleBlob(0)[5] != SampleBlob(1)[5];
  }

  lemma SampleRoundTrip()
    ensures var o, s := SampleOracles(), SampleStatement(); o.parseTransition(o.transitionBytes(s)) == Some(s)
  {
    hide SampleStatement, SampleRootStatement;
  }

  lemma SampleProofVerifies(previous: string, next: string)
    ensures SampleProof(previous, next).Success?
    ensures var v := VerifyTransition(SampleOracles(), SampleProof(previous, next).value);
            && (v.Success? <==> SignatureSizeFits(previous) && SignatureSizeFits(next))
            && (v.Success? ==> v.value.statement == SampleStatement())
  {
    hide VerifyTransition, CreateRoutineProof, SampleStatement, KeyText, SignatureSizeFits, SampleOracles, SampleBlob;
    SampleProofIsCreated(previous, next);
    var proof := SampleProof(previous, next).value;
    SampleRoundTrip();
    CreatedProofVerifies(SampleOracles(), SampleStatement(), Success(previous), KeyText("k", SampleBlob(0)),
                         Success(next), KeyText("k", SampleBlob(1)));
    assert SignaturesFit(proof) <==>
      SignatureSizeFits(proof.signatures[0].value) && SignatureSizeFits(proof.signatures[1].value);
  }

  function LongText(n: nat): string {
    seq(n, _ => 'x')
  }

  /**
   Creation signs and checks a transition whose previous signature text is one byte longer
   than verification allows; with a one-byte text the same proof verifies.
   */
  lemma OversizedSignature()
    ensures |Utf8.Encode(LongText(65537))| == 65537
    ensures var long, short := SampleProof(LongText(65537), "x"), SampleProof("x", "x");
            && long.Success? && VerifyTransition(SampleOracles(), long.value).Failure?
            && short.Success? && VerifyTransition(SampleOracles(), short.value).Success?
            && VerifyTransition(SampleOracles(), short.value).value.statement == SampleStatement()
  {
    hide Utf8.Encode, VerifyTransition, SampleProof, SampleOracles, SampleStatement;
    Utf8.AsciiLength(LongText(65537));
    Utf8.AsciiLength("x");
    SampleProofVerifies(LongText(65537), "x");
    SampleProofVerifies("x", "x");
  }

  function SampleRootProof(value: string): Result<RootProof, ProofError> {
    CreateRootProof(SampleOracles(), SampleRootStatement(), Success(value), KeyText("k", SampleBlob(0)))
  }

  lemma SampleRootIsValid()
    ensures CanonicalRootBytes(SampleOracles(), SampleRootStatement()) == Success([])
  {
    hide SampleFingerprint, IsFingerprint, IsPersona, IsAnchor, Base64.Encode, SampleStatement;
    SampleFingerprintIsCanonical(Zeros(32));
    SampleAnchor();
    SamplePersona();
  }

  lemma SampleRootIsCreated(value: string)
    ensures SampleRootProof(value).Success? && SampleRootProof(value).value.signature.value == value
  {
    SampleRootKey();
    hide KeyText, SampleRootStatement, NormalizePublicKey, Fingerprint, CanonicalRootBytes, SampleFingerprint,
         Base64.Encode, SampleSha256;
    SampleRootIsValid();
    SampleKeyPrint(0);
  }

  lemma SampleRootKey()
    ensures SampleRootStatement().initialKey == SampleFingerprint(SampleSha256(SampleBlob(0)))
  {
    hide SampleFingerprint, Base64.Encode;
  }

  /** The digest by which the sample root is pinned. */
  function SampleRootDigest(): string {
    Sha256Hex(SampleOracles(), SampleOracles().rootBytes(SampleRootStatement()))
  }

  lemma SampleRootVerifies(value: string)
    ensures SampleRootProof(value).Success?
    ensures var proof := SampleRootProof(value).value;
            Accepted(SampleOracles(), proof, [], SampleRootDigest()) <==> SignatureSizeFits(value)
  {
    hide Accepted, CreateRootProof, SampleRootStatement, KeyText, SignatureSizeFits, Sha256Hex, VerifyRoot;
    SampleRootIsCreated(value);
    HonestRoot(SampleOracles(), SampleRootStatement(), Success(value), KeyText("k", SampleBlob(0)));
  }

  /** The same for a root: created with an oversized signature text, it is no accepted history. */
  lemma OversizedRootSignature()
    ensures var long, short := SampleRootProof(LongText(65537)), SampleRootProof("x");
            && long.Success? && !Accepted(SampleOracles(), long.value, [], SampleRootDigest())
            && short.Success? && Accepted(SampleOracles(), short.value, [], SampleRootDigest())
  {
    hide Utf8.Encode, Accepted, SampleRootProof, SampleOracles, SampleRootDigest;
    Utf8.AsciiLength(LongText(65537));
    Utf8.AsciiLength("x");
    SampleRootVerifies(LongText(65537));
    SampleRootVerifies("x");
  }
}
