/**
 What the validators decide, said without them: over characters, digests and documented
 literals. Each lemma holds both ways.
 */
module Meaning {
  import opened Wrappers
  import opened Bytes
  import opened Keys
  import opened Statements
  import opened ApprovalPrompts
  import opened Domains
  import Base64
  import Hex
  import Review
  import Text
  import Utf8

  // ----- texts -----

  /** Text that can be shown: bounded, no white space at either end, nothing invisible in it. */
  predicate Showable(t: string, maximum: nat) {
    && t != ""
    && |Utf8.Encode(t)| <= maximum
    && !Text.IsWhitespace(t[0]) && !Text.IsWhitespace(t[|t| - 1])
    && forall i :: 0 <= i < |t| ==> !Text.IsUnsafeDisplay(t[i])
  }

  /** The lowercase hexadecimal of one digest. */
  ghost predicate SpellsDigest(t: string) {
    exists d: Digest :: t == Hex.Encode(d)
  }

  /** The Base64url of one 32-byte value, behind a prefix. */
  ghost predicate SpellsValue(prefix: string, t: string) {
    exists d: Digest :: t == prefix + Base64.Encode(Base64.UrlSafe, d)
  }

  /** The OpenSSH fingerprint of one digest. */
  ghost predicate NamesKey(t: string) {
    exists d: Digest :: t == "SHA256:" + Base64.Encode(Base64.Standard, d)
  }

  lemma DisplayMeans(t: string, maximum: nat)
    ensures IsDisplayText(t, maximum) <==> Showable(t, maximum)
  {
    hide Utf8.Encode, Text.IsUnsafeDisplay, Text.Trim, Text.IsWhitespace;
    Text.TrimFixed(t);
  }

  lemma PersonaMeans(t: string)
    ensures IsPersona(t) <==> Showable(t, 256)
  {
    hide Utf8.Encode, Text.IsUnsafeDisplay, Text.Trim, Text.IsWhitespace;
    Text.TrimFixed(t);
  }

  lemma Sha256Means(t: string)
    ensures Hex.IsSha256(t) <==> SpellsDigest(t)
  {
    Hex.Sha256Spelling(t);
    if SpellsDigest(t) {
      var d: Digest :| t == Hex.Encode(d);
      Hex.DecodeEncode(d);
    }
  }

  lemma ValueMeans(t: string)
    ensures Base64.IsCanonical32(Base64.UrlSafe, t) <==> SpellsValue("", t)
  {
    hide Base64.IsCanonical32, Base64.Encode, Base64.Decode;
    Base64.Canonical32(Base64.UrlSafe, t);
    if Base64.IsCanonical32(Base64.UrlSafe, t) {
      var d: Digest :| Base64.Encode(Base64.UrlSafe, d) == t;
      assert t == "" + Base64.Encode(Base64.UrlSafe, d);
    }
    if SpellsValue("", t) {
      var d: Digest :| t == "" + Base64.Encode(Base64.UrlSafe, d);
      assert t == Base64.Encode(Base64.UrlSafe, d);
    }
  }

  lemma FingerprintMeans(t: string)
    ensures IsFingerprint(t) <==> NamesKey(t)
  {
    hide Base64.IsCanonical32, Base64.Encode, Base64.Decode;
    if "SHA256:" <= t {
      var digest := t[7..];
      assert t == "SHA256:" + digest;
      Base64.Canonical32(Base64.Standard, digest);
      if NamesKey(t) {
        var d: Digest :| t == "SHA256:" + Base64.Encode(Base64.Standard, d);
        assert Base64.Encode(Base64.Standard, d) == digest;
      }
    }
  }

  // ----- keys -----

  /** A key text: white space, the algorithm, white space, the encoded blob, and then nothing or white space. */
  ghost predicate SpellsKey(key: string, algorithm: string, blob: seq<byte>) {
    exists lead, gap, rest :: KeyPieces(key, algorithm, blob, lead, gap, rest)
  }

  predicate KeyPieces(key: string, algorithm: string, blob: seq<byte>, lead: string, gap: string, rest: string) {
    && key == lead + algorithm + (gap + Base64.EncodePadded(blob) + rest)
    && Text.Blank(lead) && Text.Blank(gap) && gap != ""
    && (rest == "" || Text.IsWhitespace(rest[0]))
  }

  /** The blob starts with the algorithm's name behind its length. */
  predicate BlobOf(blob: seq<byte>, algorithm: string) {
    var name := Utf8.Encode(algorithm);
    && algorithm != "" && Text.NoWhitespace(algorithm)
    && |name| <= MAX_PUBLIC_KEY_BYTES
    && ToBE(|name|, 4) + name <= blob
  }

  lemma PrefixSplit(head: seq<byte>, name: seq<byte>, blob: seq<byte>)
    ensures head + name <= blob <==>
      |head| + |name| <= |blob| && blob[..|head|] == head && blob[|head|..|head| + |name|] == name
  {
    var n := |head| + |name|;
    if n <= |blob| {
      assert blob[..n] == blob[..|head|] + blob[|head|..n];
      assert (head + name)[..|head|] == head && (head + name)[|head|..] == name;
      assert blob[..n][..|head|] == blob[..|head|] && blob[..n][|head|..] == blob[|head|..n];
    }
  }

  lemma BlobMeans(blob: seq<byte>, name: seq<byte>)
    requires |name| < 0x1_0000_0000
    ensures (|blob| >= 4 && 4 + FromBE(blob[..4]) <= |blob| && blob[4..4 + FromBE(blob[..4])] == name)
       <==> ToBE(|name|, 4) + name <= blob
  {
    hide ToBE, FromBE;
    var head := ToBE(|name|, 4);
    PrefixSplit(head, name, blob);
    if |blob| >= 4 {
      LengthMeans(blob[..4], |name|);
    }
  }

  lemma LengthMeans(field: seq<byte>, n: nat)
    requires |field| == 4 && n < 0x1_0000_0000
    ensures FromBE(field) == n <==> field == ToBE(n, 4)
  {
    hide ToBE, FromBE, Pow256;
    Pow256Values();
    FromToBE(n, 4);
    ToFromBE(field);
  }

  /** The words of a spelled key are its algorithm and its blob's text. */
  lemma KeyWords(key: string, algorithm: string, blob: seq<byte>)
    requires SpellsKey(key, algorithm, blob) && BlobOf(blob, algorithm)
    ensures |Text.Words(key)| >= 2
    ensures Text.Words(key)[0] == algorithm && Text.Words(key)[1] == Base64.EncodePadded(blob)
    ensures Base64.DecodePadded(Text.Words(key)[1]) == Some(blob)
  {
    hide Text.Words, Text.IsWhitespace, Base64.EncodePadded, Base64.DecodePadded;
    var lead, gap, rest :| KeyPieces(key, algorithm, blob, lead, gap, rest);
    PaddedIsWord(blob);
    var text := Base64.EncodePadded(blob);
    assert (gap + text + rest)[0] == gap[0];
    Text.WordsOf(lead, algorithm, gap + text + rest);
    Text.WordsOf(gap, text, rest);
    Base64.DecodePaddedEncode(blob);
  }

  lemma PaddedIsWord(blob: seq<byte>)
    requires blob != []
    ensures var text := Base64.EncodePadded(blob); text != "" && Text.NoWhitespace(text)
  {
    var plain, text := Base64.Encode(Base64.Standard, blob), Base64.EncodePadded(blob);
    Base64.EncodeShape(Base64.Standard, blob);
    hide Base64.Encode;
    forall i | 0 <= i < |text| ensures !Text.IsWhitespace(text[i]) {
      if i < |plain| {
        assert Base64.IsSymbol(Base64.Standard, text[i]);
      }
    }
  }

  /** A key text is normalised exactly when it spells a key, to that key without comment or extra white space. */
  lemma KeyMeans(key: string, normal: string)
    ensures NormalizePublicKey(key) == Success(normal) <==>
      && |Utf8.Encode(key)| <= 16384
      && exists algorithm, blob ::
           && SpellsKey(key, algorithm, blob) && BlobOf(blob, algorithm)
           && normal == algorithm + " " + Base64.EncodePadded(blob)
  {
    hide Text.Words, Utf8.Encode, Base64.EncodePadded, Base64.DecodePadded, SpellsKey, ToBE, FromBE;
    if NormalizePublicKey(key) == Success(normal) {
      var algorithm, blob := KeyParts(key);
      assert SpellsKey(key, algorithm, blob) && BlobOf(blob, algorithm);
    }
    if |Utf8.Encode(key)| <= 16384 && exists algorithm, blob ::
         && SpellsKey(key, algorithm, blob) && BlobOf(blob, algorithm)
         && normal == algorithm + " " + Base64.EncodePadded(blob)
    {
      var algorithm, blob :|
        && SpellsKey(key, algorithm, blob) && BlobOf(blob, algorithm)
        && normal == algorithm + " " + Base64.EncodePadded(blob);
      BlobMeans(blob, Utf8.Encode(algorithm));
      KeyWords(key, algorithm, blob);
    }
  }

  lemma KeyParts(key: string) returns (algorithm: string, blob: seq<byte>)
    requires IsKey(key)
    ensures SpellsKey(key, algorithm, blob) && BlobOf(blob, algorithm)
    ensures KeyBlob(key) == Some(blob)
    ensures Text.Words(key)[0] == algorithm && Text.Words(key)[1] == Base64.EncodePadded(blob)
  {
    hide Text.Words, Utf8.Encode, Base64.EncodePadded, Base64.DecodePadded, ToBE, FromBE;
    blob := KeyBlob(key).value;
    var lead, u := Text.FirstWord(key);
    var gap, rest := Text.FirstWord(u);
    algorithm := Text.Words(key)[0];
    Base64.EncodePaddedDecode(Text.Words(key)[1]);
    assert key == lead + algorithm + u;
    assert u == gap + Base64.EncodePadded(blob) + rest;
    assert KeyPieces(key, algorithm, blob, lead, gap, rest);
    NameFits(key, lead, algorithm, u);
    BlobMeans(blob, Utf8.Encode(algorithm));
  }

  lemma NameFits(key: string, lead: string, algorithm: string, rest: string)
    requires key == lead + algorithm + rest && |Utf8.Encode(key)| <= MAX_PUBLIC_KEY_BYTES
    ensures |Utf8.Encode(algorithm)| <= MAX_PUBLIC_KEY_BYTES
  {
    hide Utf8.Encode;
    Utf8.ConcatLength(lead + algorithm, rest);
    Utf8.ConcatLength(lead, algorithm);
  }

  /** The fingerprint is that of the blob, not of the text around it. */
  lemma FingerprintIsOfBlob(sha256: seq<byte> -> Digest, key: string, algorithm: string, blob: seq<byte>)
    requires |Utf8.Encode(key)| <= 16384 && SpellsKey(key, algorithm, blob) && BlobOf(blob, algorithm)
    ensures Fingerprint(sha256, key) == Success("SHA256:" + Base64.Encode(Base64.Standard, sha256(blob)))
  {
    hide Text.Words, Utf8.Encode, Base64.EncodePadded, Base64.DecodePadded, SpellsKey, ToBE, FromBE;
    BlobMeans(blob, Utf8.Encode(algorithm));
    KeyWords(key, algorithm, blob);
    NormalizeIdempotent(key);
  }

  // ----- statements -----

  lemma RootStatementMeans(s: RootStatement)
    ensures ValidateRootStatement(s).Success? <==>
      && s.schema == "urn:a-quo:statement:persona-root:v1" && s.canonicalization == "RFC8785"
      && SpellsValue("", s.personaAnchor) && Showable(s.persona, 256)
      && s.rootVersion == 1
      && 0 <= s.issuedAt < 0x20_0000_0000_0000
      && NamesKey(s.initialKey)
  {
    hide Base64.IsCanonical32, IsPersona, IsFingerprint, SpellsValue, Showable, NamesKey;
    ValueMeans(s.personaAnchor);
    PersonaMeans(s.persona);
    FingerprintMeans(s.initialKey);
  }

  lemma TransitionStatementMeans(s: TransitionStatement)
    ensures ValidateTransitionStatement(s).Success? <==>
      && s.schema == "urn:a-quo:statement:persona-transition:v1" && s.canonicalization == "RFC8785"
      && SpellsValue("", s.personaAnchor) && Showable(s.persona, 256)
      && s.sequence >= 1
      && 0 <= s.issuedAt < 0x20_0000_0000_0000
      && SpellsDigest(s.rootSha256)
      && (s.sequence == 1 <==> s.previousSha256 == None)
      && (s.previousSha256.Some? ==> SpellsDigest(s.previousSha256.value))
      && NamesKey(s.previousKey) && NamesKey(s.nextKey) && s.previousKey != s.nextKey
  {
    hide Base64.IsCanonical32, IsPersona, IsFingerprint, Hex.IsSha256, SpellsValue, Showable, NamesKey, SpellsDigest;
    ValueMeans(s.personaAnchor);
    PersonaMeans(s.persona);
    Sha256Means(s.rootSha256);
    if s.previousSha256.Some? {
      Sha256Means(s.previousSha256.value);
    }
    FingerprintMeans(s.previousKey);
    FingerprintMeans(s.nextKey);
  }

  // ----- proofs -----

  /** A signature object as documented, made by the key with this fingerprint over this payload. */
  predicate GoodSignature(o: Oracles, s: Signature, role: Role, namespace: string, fingerprint: string,
                          payload: seq<byte>)
  {
    && s.role == role && s.format == "sshsig" && s.namespace == namespace
    && s.publicKeyFormat == "openssh-public-key"
    && 1 <= |Utf8.Encode(s.value)| <= 65536
    && Fingerprint(o.sha256, s.publicKey) == Success(fingerprint)
    && NormalizePublicKey(s.publicKey).Success?
    && o.sshsigVerify(payload, s.value, NormalizePublicKey(s.publicKey).value, namespace)
  }

  lemma SignatureMeans(o: Oracles, s: Signature, role: Role, namespace: string, fingerprint: string,
                       payload: seq<byte>)
    ensures GoodSignature(o, s, role, namespace, fingerprint, payload) <==>
      && ValidateSignature(s, role, namespace).Success?
      && var key := ValidateSignature(s, role, namespace).value;
         && Fingerprint(o.sha256, key) == Success(fingerprint)
         && o.sshsigVerify(payload, s.value, key, namespace)
  {
    hide Utf8.Encode, NormalizePublicKey, Fingerprint;
    assert s.value == "" ==> Utf8.Encode(s.value) == [] by {
      EmptyText();
    }
    if NormalizePublicKey(s.publicKey).Success? {
      FingerprintOfNormal(o.sha256, s.publicKey);
    }
  }

  lemma EmptyText()
    ensures Utf8.Encode("") == []
  {}

  /** A root proof verifies to a statement exactly when it is that statement's document, signed by its key. */
  lemma RootProofMeans(o: Oracles, proof: RootProof, s: RootStatement)
    ensures (VerifyRoot(o, proof).Success? && VerifyRoot(o, proof).value.statement == s) <==>
      && proof.schema == "urn:a-quo:proof:persona-root:sshsig:v1"
      && ValidateRootStatement(s).Success?
      && |o.rootBytes(s)| <= 65536
      && o.parseRoot(o.rootBytes(s)) == Some(s)
      && proof.payload == Base64.Encode(Base64.UrlSafe, o.rootBytes(s))
      && GoodSignature(o, proof.signature, Root, "a-quo-persona-root-v1", s.initialKey, o.rootBytes(s))
  {
    hide DecodePayload, ValidateRootStatement, ValidateSignature, Fingerprint, NormalizePublicKey, GoodSignature,
         Base64.Encode, Sha256Hex;
    PayloadExact(proof.payload, o.rootBytes(s));
    SignatureMeans(o, proof.signature, Root, "a-quo-persona-root-v1", s.initialKey, o.rootBytes(s));
  }

  /** One signature by the previous key and one by the next key, in either order. */
  ghost predicate SignedByBoth(o: Oracles, signatures: seq<Signature>, s: TransitionStatement) {
    exists a, b ::
      && (signatures == [a, b] || signatures == [b, a])
      && GoodSignature(o, a, Previous, "a-quo-persona-transition-v1", s.previousKey, o.transitionBytes(s))
      && GoodSignature(o, b, Next, "a-quo-persona-transition-v1", s.nextKey, o.transitionBytes(s))
  }

  lemma TransitionProofMeans(o: Oracles, proof: TransitionProof, s: TransitionStatement)
    ensures (VerifyTransition(o, proof).Success? && VerifyTransition(o, proof).value.statement == s) <==>
      && proof.schema == "urn:a-quo:proof:persona-transition:sshsig:v1"
      && ValidateTransitionStatement(s).Success?
      && |o.transitionBytes(s)| <= 65536
      && o.parseTransition(o.transitionBytes(s)) == Some(s)
      && proof.payload == Base64.Encode(Base64.UrlSafe, o.transitionBytes(s))
      && SignedByBoth(o, proof.signatures, s)
  {
    hide DecodePayload, ValidateTransitionStatement, ValidateSignature, Fingerprint, NormalizePublicKey, GoodSignature,
         Base64.Encode, Sha256Hex;
    var bytes, namespace := o.transitionBytes(s), "a-quo-persona-transition-v1";
    PayloadExact(proof.payload, bytes);
    if |proof.signatures| == 2 {
      var x, y := proof.signatures[0], proof.signatures[1];
      assert proof.signatures == [x, y];
      SignatureMeans(o, x, Previous, namespace, s.previousKey, bytes);
      SignatureMeans(o, y, Next, namespace, s.nextKey, bytes);
      SignatureMeans(o, y, Previous, namespace, s.previousKey, bytes);
      SignatureMeans(o, x, Next, namespace, s.nextKey, bytes);
      GoodRole(o, x, y, s);
    }
  }

  lemma GoodRole(o: Oracles, x: Signature, y: Signature, s: TransitionStatement)
    ensures SignedByBoth(o, [x, y], s) <==>
      || (&& GoodSignature(o, x, Previous, "a-quo-persona-transition-v1", s.previousKey, o.transitionBytes(s))
          && GoodSignature(o, y, Next, "a-quo-persona-transition-v1", s.nextKey, o.transitionBytes(s))
          && x.role == Previous && y.role == Next)
      || (&& GoodSignature(o, y, Previous, "a-quo-persona-transition-v1", s.previousKey, o.transitionBytes(s))
          && GoodSignature(o, x, Next, "a-quo-persona-transition-v1", s.nextKey, o.transitionBytes(s))
          && x.role == Next && y.role == Previous)
  {
    hide Fingerprint, NormalizePublicKey, Utf8.Encode;
    assert [x, y][0] == x && [x, y][1] == y;
  }

  // ----- prompts -----

  lemma KeyNameShows(t: string)
    ensures IsKeyFingerprint(t) <==> NamesKey(t)
  {
    hide IsDisplayText, IsFingerprint, NamesKey, IsKeyFingerprint;
    Review.FingerprintAgrees(t);
    FingerprintMeans(t);
  }

  lemma AnchorShows(t: string)
    ensures IsPersonaAnchor(t) <==> SpellsValue("", t)
    ensures IsCeremonyId(t) <==> SpellsValue("", t)
  {
    hide IsDisplayText, Base64.IsCanonical32, SpellsValue;
    Review.AnchorAgrees(t);
    ValueMeans(t);
  }

  lemma CommitmentShows(t: string)
    ensures IsDnsTxtValue(t) <==> SpellsValue("a-quo-domain-v1=", t)
  {
    hide IsDisplayText, Base64.IsCanonical32, Base64.Encode, Base64.Decode;
    if IsDnsTxtValue(t) {
      var encoded := t[16..];
      assert t == "a-quo-domain-v1=" + encoded;
      Base64.Canonical32(Base64.UrlSafe, encoded);
    }
    if SpellsValue("a-quo-domain-v1=", t) {
      var d: Digest :| t == "a-quo-domain-v1=" + Base64.Encode(Base64.UrlSafe, d);
      Review.CommitmentText(d);
    }
  }

  /** A lowercase letter-digit-hyphen label that neither starts nor ends with the hyphen. */
  predicate HostLabel(name: string) {
    && 1 <= |name| <= 63 && name[0] != '-' && name[|name| - 1] != '-'
    && forall i :: 0 <= i < |name| ==> 'a' <= name[i] <= 'z' || '0' <= name[i] <= '9' || name[i] == '-'
  }

  /** Two or more labels joined by dots. */
  ghost predicate HostName(name: string) {
    exists labels: seq<string> ::
      |labels| >= 2 && Text.JoinWith(labels, '.') == name && forall i :: 0 <= i < |labels| ==> HostLabel(labels[i])
  }

  const RESERVED: seq<string> := [
    "alt", "example", "example.com", "example.net", "example.org", "home.arpa",
    "invalid", "local", "localhost", "onion", "test"
  ]

  ghost predicate Under(name: string, suffix: string) {
    name == suffix || exists front: string :: name == front + ("." + suffix)
  }

  /** The name is reserved or lies under a reserved one. */
  ghost predicate Reserved(name: string) {
    exists i :: 0 <= i < |RESERVED| && Under(name, RESERVED[i])
  }

  lemma LabelMeans(name: string)
    ensures IsDnsLabel(name) <==> HostLabel(name)
  {
    assert forall i :: 0 <= i < |name| ==>
      (IsLabelChar(name[i]) <==> 'a' <= name[i] <= 'z' || '0' <= name[i] <= '9' || name[i] == '-');
  }

  lemma EndsMeans(name: string, suffix: string)
    ensures Text.EndsWith(name, suffix) <==> exists front: string :: name == front + suffix
  {
    if Text.EndsWith(name, suffix) {
      assert name == name[..|name| - |suffix|] + suffix;
    }
  }

  lemma ReservedMeans(name: string)
    ensures IsSpecialUseDomain(name) <==> Reserved(name)
  {
    assert RESERVED == SPECIAL_SUFFIXES;
    forall i | 0 <= i < |RESERVED|
      ensures Under(name, RESERVED[i]) <==> name == RESERVED[i] || Text.EndsWith(name, "." + RESERVED[i])
    {
      EndsMeans(name, "." + RESERVED[i]);
    }
    hide Under, Text.EndsWith;
  }

  lemma {:induction false} SplitPlain(name: string)
    requires '.' !in name
    ensures Text.Split(name, '.') == [name]
  {
    if name != "" {
      SplitPlain(name[1..]);
      assert [name[0]] + name[1..] == name;
    }
  }

  lemma {:induction false} SplitFront(first: string, rest: string)
    requires '.' !in first
    ensures Text.Split(first + "." + rest, '.') == [first] + Text.Split(rest, '.')
  {
    var s := first + "." + rest;
    if first == "" {
      assert s[1..] == rest;
    } else {
      assert s[1..] == first[1..] + "." + rest;
      SplitFront(first[1..], rest);
      assert [first[0]] + first[1..] == first;
    }
  }

  /** Splitting undoes joining when no part holds a dot. */
  lemma {:induction false} SplitJoin(parts: seq<string>)
    requires parts != [] && forall i :: 0 <= i < |parts| ==> '.' !in parts[i]
    ensures Text.Split(Text.JoinWith(parts, '.'), '.') == parts
  {
    if |parts| == 1 {
      SplitPlain(parts[0]);
      assert parts == [parts[0]];
    } else {
      var rest := parts[1..];
      assert forall i :: 0 <= i < |rest| ==> rest[i] == parts[i + 1];
      SplitJoin(rest);
      SplitFront(parts[0], Text.JoinWith(rest, '.'));
      assert parts == [parts[0]] + rest;
    }
  }

  lemma NameMeans(name: string)
    ensures IsGlobalDnsName(name) <==> HostName(name) && !Reserved(name)
  {
    hide Text.Split, Text.JoinWith, IsSpecialUseDomain, Reserved, IsDnsLabel;
    ReservedMeans(name);
    var labels := Text.Split(name, '.');
    Text.SplitInverse(name, '.');
    forall i | 0 <= i < |labels| ensures IsDnsLabel(labels[i]) <==> HostLabel(labels[i]) {
      LabelMeans(labels[i]);
    }
    if HostName(name) {
      var parts: seq<string> :|
        |parts| >= 2 && Text.JoinWith(parts, '.') == name && forall i :: 0 <= i < |parts| ==> HostLabel(parts[i]);
      SplitJoin(parts);
    }
  }

  lemma HostNameShows(name: string)
    requires IsGlobalDnsName(name)
    ensures IsDisplayText(name, 253) <==> |name| <= 253
  {
    hide Text.Split, Text.JoinWith, IsSpecialUseDomain, IsDnsLabel, Text.Trim, Text.IsUnsafeDisplay, Utf8.Encode;
    Text.SplitInverse(name, '.');
    JoinShape(Text.Split(name, '.'));
    NamePassesInputChecks(name);
    Utf8.AsciiLength(name);
  }

  /** What a valid subject says, over digests, characters and numbers alone. */
  ghost predicate MeaningfulSubject(key: string, s: ApprovalSubject) {
    match s
    case Artifact(_, name, _, _) => Showable(name, 256)
    case Domain(domain, txt, issuedAt, expiresAt) =>
      && |domain| <= 253 && HostName(domain) && !Reserved(domain)
      && SpellsValue("a-quo-domain-v1=", txt)
      && 0 <= issuedAt < expiresAt <= issuedAt + 30 * 86400
    case PersonaRoot(anchor, _, issuedAt) => SpellsValue("", anchor) && 0 <= issuedAt
    case PersonaTransition(anchor, _, sequence, previous, issuedAt, previousKey, nextKey, _) =>
      && SpellsValue("", anchor) && 0 <= issuedAt
      && sequence >= 1 && (previous == None <==> sequence == 1)
      && key == previousKey && NamesKey(nextKey) && nextKey != previousKey
    case RecoveryParticipation(_, ceremony, expiry, anchor, _, version, _, threshold, sequence, head, _,
                               previousKey, nextKey, role, participant) =>
      && SpellsValue("", anchor) && SpellsValue("", ceremony) && 1 <= expiry
      && 1 <= version <= 1024 && 2 <= threshold <= 32
      && (head == None <==> sequence == 0)
      && key == participant && NamesKey(previousKey) && NamesKey(nextKey) && previousKey != nextKey
      && (match role
          case RecoveryAuthority => participant !in {previousKey, nextKey}
          case NextSigningKey => participant == nextKey)
  }

  lemma SubjectMeans(key: string, s: ApprovalSubject)
    requires NamesKey(key)
    ensures ValidSubject(key, s) <==> MeaningfulSubject(key, s)
  {
    hide IsDisplayText, IsKeyFingerprint, IsPersonaAnchor, IsCeremonyId, IsDnsTxtValue, IsGlobalDnsName, Showable,
         SpellsValue, NamesKey, HostName, Reserved;
    KeyNameShows(key);
    match s
    case Artifact(_, name, _, _) => DisplayMeans(name, 256);
    case Domain(domain, txt, _, _) =>
      NameMeans(domain);
      CommitmentShows(txt);
      if IsGlobalDnsName(domain) {
        HostNameShows(domain);
      }
    case PersonaRoot(anchor, _, _) => AnchorShows(anchor);
    case PersonaTransition(anchor, _, _, _, _, _, nextKey, _) =>
      AnchorShows(anchor);
      KeyNameShows(nextKey);
    case RecoveryParticipation(_, ceremony, _, anchor, _, _, _, _, _, _, _, previousKey, nextKey, _, _) =>
      AnchorShows(anchor);
      AnchorShows(ceremony);
      KeyNameShows(previousKey);
      KeyNameShows(nextKey);
  }

  /** A prompt is valid exactly when it says something a person can be shown and can check. */
  lemma PromptMeans(p: ApprovalPrompt)
    ensures Valid(p) <==>
      && (exists i :: 0 <= i < 16 && p.requestId[i] != 0)
      && (if p.subject.RecoveryParticipation? then p.personaId == None && p.personaPurpose == None
          else p.personaId.Some? && p.personaPurpose.Some? && exists i :: 0 <= i < 16 && p.personaId.value[i] != 0)
      && Showable(p.personaLabel, 256)
      && NamesKey(p.keyFingerprint)
      && MeaningfulSubject(p.keyFingerprint, p.subject)
      && p.peer.pid >= 1
  {
    hide IsDisplayText, IsKeyFingerprint, Showable, NamesKey, ValidSubject, MeaningfulSubject, IsNil;
    DisplayMeans(p.personaLabel, 256);
    KeyNameShows(p.keyFingerprint);
    NilMeans(p.requestId);
    if p.personaId.Some? {
      NilMeans(p.personaId.value);
    }
    if NamesKey(p.keyFingerprint) {
      SubjectMeans(p.keyFingerprint, p.subject);
    }
  }

  lemma NilMeans(id: Uuid)
    ensures !IsNil(id) <==> exists i :: 0 <= i < 16 && id[i] != 0
  {
    if forall i :: 0 <= i < 16 ==> id[i] == 0 {
      assert id == Zeros(16);
    }
  }

  // ----- domain statements -----

  /** A user's spelling of a name: shown as it is, no URL, wildcard, address or port in it. */
  predicate PlainDomain(input: string) {
    && input != "" && !Text.IsWhitespace(input[0]) && !Text.IsWhitespace(input[|input| - 1])
    && (forall i :: 0 <= i < |input| ==>
          !Text.IsUnsafeDisplay(input[i]) && input[i] !in {'/', '\\', '@', ':'})
    && !(|input| >= 2 && input[0] == '*' && input[1] == '.')
  }

  /** The name without its optional root dot. */
  predicate Bare(input: string, bare: string) {
    && (input == bare || input == bare + ".")
    && bare != "" && bare[|bare| - 1] != '.'
  }

  lemma UrlMeans(input: string)
    ensures !LooksLikeUrl(input) <==>
      && (forall i :: 0 <= i < |input| ==> input[i] !in {'/', '\\', '@', ':'})
      && !(|input| >= 2 && input[0] == '*' && input[1] == '.')
  {
    if |input| >= 2 && input[0] == '*' && input[1] == '.' {
      assert input[..2] == "*.";
    }
    if "*." <= input {
      assert input[0] == "*."[0] && input[1] == "*."[1];
    }
  }

  lemma BareMeans(input: string, bare: string)
    requires input != ""
    ensures var withoutRoot := if Text.EndsWith(input, ".") then input[..|input| - 1] else input;
            Bare(input, bare) <==> withoutRoot == bare && bare != "" && !Text.EndsWith(bare, ".")
  {
    DotEnd(input);
    if bare != "" {
      DotEnd(bare);
    }
    assert input == input[..|input| - 1] + [input[|input| - 1]];
    if input == bare + "." {
      assert input[|input| - 1] == "."[0] && input[..|input| - 1] == bare;
    }
  }

  lemma DotEnd(s: string)
    requires s != ""
    ensures Text.EndsWith(s, ".") <==> s[|s| - 1] == '.'
  {
    assert s[|s| - 1..] == [s[|s| - 1]];
  }

  /** When a user's spelling has a canonical name, and which: one lowercase global name that is no address. */
  lemma CanonicalizeMeans(o: DomainOracles, input: string, name: string)
    ensures CanonicalizeDomain(o, input) == Success(name) <==>
      && PlainDomain(input)
      && (exists bare :: Bare(input, bare) && o.toAscii(bare).Some? && name == Lower(o.toAscii(bare).value))
      && |Utf8.Encode(name)| <= 253 && !o.isIpAddress(name)
      && HostName(name) && !Reserved(name)
  {
    hide Text.Trim, Text.IsUnsafeDisplay, Text.IsWhitespace, LooksLikeUrl, Utf8.Encode, Text.Split, AnyBadLabel,
         IsSpecialUse, Text.EndsWith, HostName, Reserved, Lower, IsGlobalDnsName;
    Text.TrimFixed(input);
    UrlMeans(input);
    NameMeans(name);
    NameAgrees(name);
    if input != "" {
      var withoutRoot := if Text.EndsWith(input, ".") then input[..|input| - 1] else input;
      BareMeans(input, withoutRoot);
      forall bare ensures Bare(input, bare) <==> withoutRoot == bare && bare != "" && !Text.EndsWith(bare, ".") {
        BareMeans(input, bare);
      }
    }
  }

  lemma DomainStatementMeans(o: DomainOracles, s: DomainStatement)
    ensures ValidateDomainStatement(o, s).Success? <==>
      && s.schema == "urn:a-quo:statement:domain-control:v1"
      && CanonicalizeDomain(o, s.domain) == Success(s.domain)
      && SpellsValue("", s.nonce)
      && 0 <= s.issuedAt < s.expiresAt <= s.issuedAt + 30 * 86400
      && Showable(s.persona, 256)
      && NamesKey(s.keyFingerprint)
  {
    hide CanonicalizeDomain, Base64.IsCanonical32, IsPersona, IsFingerprint, SpellsValue, Showable, NamesKey;
    ValueMeans(s.nonce);
    PersonaMeans(s.persona);
    FingerprintMeans(s.keyFingerprint);
  }
}
