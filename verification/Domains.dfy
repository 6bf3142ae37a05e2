/** Domain-control statements. IDNA conversion and IP-literal recognition are parameters. */
module Domains {
  import opened Wrappers
  import opened Bytes
  import opened Keys
  import opened ApprovalPrompts
  import Base64
  import Text
  import Utf8

  const STATEMENT_SCHEMA := "urn:a-quo:statement:domain-control:v1"
  const MAX_DNS_NAME_BYTES := 253
  const MAX_VALIDITY_SECONDS := 30 * 24 * 60 * 60
  const CLOCK_SKEW_SECONDS := 5 * 60
  const DNS_COMMITMENT_CONTEXT := "a-quo-domain-dns-txt-v1\0"
  const DNS_TXT_PREFIX := "a-quo-domain-v1="

  datatype DomainOracles = DomainOracles(
    sha256: seq<byte> -> Digest,
    toAscii: string -> Option<string>, // strict IDNA
    isIpAddress: string -> bool,
    statementBytes: DomainStatement -> seq<byte>)

  datatype DomainStatement = DomainStatement(
    schema: string,
    domain: string,
    nonce: string,
    issuedAt: i64,
    expiresAt: i64,
    persona: string,
    keyFingerprint: string)

  datatype DomainReview = DomainReview(
    domain: string,
    dnsRecordName: string,
    dnsTxtValue: string,
    issuedAt: i64,
    expiresAt: i64,
    persona: string,
    keyFingerprint: string)

  function LowerChar(c: char): char {
    if 'A' <= c <= 'Z' then (c as int + 32) as char else c
  }

  function Lower(s: string): (r: string)
    ensures |r| == |s|
  {
    seq(|s|, i requires 0 <= i < |s| => LowerChar(s[i]))
  }

  /** A URL, a wildcard, an address or a host with a port. */
  predicate LooksLikeUrl(input: string) {
    '/' in input || '\\' in input || '@' in input || ':' in input || "*." <= input
  }

  predicate IsLabelByte(b: byte) {
    'a' as int <= b <= 'z' as int || '0' as int <= b <= '9' as int || b == '-' as int
  }

  /** Core's label rule, over the bytes of the label. */
  predicate IsBadLabel(name: string) {
    || name == ""
    || |Utf8.Encode(name)| > 63
    || name[0] == '-'
    || name[|name| - 1] == '-'
    || exists b :: b in Utf8.Encode(name) && !IsLabelByte(b)
  }

  predicate AnyBadLabel(labels: seq<string>) {
    exists i :: 0 <= i < |labels| && IsBadLabel(labels[i])
  }

  /** Core's own list of suffixes no global proof may use. */
  const SPECIAL_USE: seq<string> := [
    "alt", "example", "example.com", "example.net", "example.org", "home.arpa",
    "invalid", "local", "localhost", "onion", "test"
  ]

  predicate IsSpecialUse(domain: string) {
    exists i :: 0 <= i < |SPECIAL_USE| && (domain == SPECIAL_USE[i] || Text.EndsWith(domain, "." + SPECIAL_USE[i]))
  }

  function CanonicalizeDomain(o: DomainOracles, input: string): Result<string, ProofError> {
    var _ :- Need(input != "" && Text.Trim(input) == input, InvalidDomain);
    var _ :- Need(!Text.ContainsUnsafeDisplay(input), InvalidDomain);
    var _ :- Need(!LooksLikeUrl(input), InvalidDomain);
    var withoutRoot := if Text.EndsWith(input, ".") then input[..|input| - 1] else input;
    var _ :- Need(withoutRoot != "" && !Text.EndsWith(withoutRoot, "."), InvalidDomain);
    var converted := o.toAscii(withoutRoot);
    var _ :- Need(converted.Some?, InvalidDomain);
    var ascii := Lower(converted.value);
    var _ :- Need(|Utf8.Encode(ascii)| <= MAX_DNS_NAME_BYTES, InvalidDomain);
    var _ :- Need(!o.isIpAddress(ascii), InvalidDomain);
    var labels := Text.Split(ascii, '.');
    var _ :- Need(|labels| >= 2, InvalidDomain);
    var _ :- Need(!AnyBadLabel(labels), InvalidDomain);
    var _ :- Need(!IsSpecialUse(ascii), InvalidDomain);
    Success(ascii)
  }

  function ValidateValidity(issuedAt: i64, expiresAt: i64): Result<(), ProofError> {
    var _ :- Need(issuedAt >= 0 && expiresAt >= 0, InvalidDomainValidity);
    var _ :- Need(0 < expiresAt - issuedAt <= MAX_VALIDITY_SECONDS, InvalidDomainValidity);
    Success(())
  }

  function ValidateDomainStatement(o: DomainOracles, s: DomainStatement): Result<(), ProofError> {
    var _ :- Need(s.schema == STATEMENT_SCHEMA, Unsupported);
    var canonical :- CanonicalizeDomain(o, s.domain);
    var _ :- Need(canonical == s.domain, InvalidDomain);
    var _ :- Need(Base64.IsCanonical32(Base64.UrlSafe, s.nonce), InvalidDomainChallenge);
    var _ :- ValidateValidity(s.issuedAt, s.expiresAt);
    var _ :- Need(IsPersona(s.persona), InvalidPersona);
    var _ :- Need(IsFingerprint(s.keyFingerprint), InvalidPublicKey);
    Success(())
  }

  function SaturatingAdd(x: i64, d: nat): i64 {
    if x + d > I64_MAX then I64_MAX else x + d
  }

  function SaturatingSub(x: i64, d: nat): i64 {
    if x - d < I64_MIN then I64_MIN else x - d
  }

  function ValidateCurrentTime(s: DomainStatement, now: i64): Result<(), ProofError> {
    var _ :- Need(s.issuedAt <= SaturatingAdd(now, CLOCK_SKEW_SECONDS), DomainProofNotYetValid);
    var _ :- Need(SaturatingSub(now, CLOCK_SKEW_SECONDS) <= s.expiresAt, DomainProofExpired);
    Success(())
  }

  function DnsTxtCommitment(o: DomainOracles, payload: seq<byte>): string {
    DNS_TXT_PREFIX + Base64.Encode(Base64.UrlSafe, o.sha256(Utf8.Encode(DNS_COMMITMENT_CONTEXT) + payload))
  }

  /** What a consent surface must show for one unsigned statement and the selected signer. */
  function ReviewDomain(o: DomainOracles, s: DomainStatement, now: i64, publicKey: string, persona: string)
    : Result<DomainReview, ProofError>
  {
    var _ :- ValidateDomainStatement(o, s);
    var _ :- Need(now >= 0, InvalidDomainValidity);
    var _ :- ValidateCurrentTime(s, now);
    var _ :- Need(IsPersona(persona), InvalidPersona);
    var _ :- Need(s.persona == persona, DomainPersonaMismatch);
    var key :- NormalizePublicKey(publicKey);
    var fingerprint :- Fingerprint(o.sha256, key);
    var _ :- Need(fingerprint == s.keyFingerprint, FingerprintMismatch);
    Success(DomainReview(s.domain, s.domain + ".", DnsTxtCommitment(o, o.statementBytes(s)),
                         s.issuedAt, s.expiresAt, s.persona, s.keyFingerprint))
  }

  /** Saturation never decides the window: for any clock it is plain integer arithmetic. */
  lemma TimeWindow(s: DomainStatement, now: i64)
    ensures ValidateCurrentTime(s, now).Success? <==>
      s.issuedAt - CLOCK_SKEW_SECONDS <= now <= s.expiresAt + CLOCK_SKEW_SECONDS
  {}

  // ----- core's names are the approval protocol's names -----

  /** The byte rule and the character rule accept the same labels. */
  lemma LabelAgrees(name: string)
    ensures !IsBadLabel(name) <==> IsDnsLabel(name)
  {
    if !IsBadLabel(name) {
      Utf8.AsciiBytes(name);
      Utf8.AsciiLength(name);
      forall i | 0 <= i < |name| ensures IsLabelChar(name[i]) {
        assert Utf8.Encode(name)[i] in Utf8.Encode(name);
      }
    } else if IsDnsLabel(name) {
      Utf8.AsciiLength(name);
      forall i | 0 <= i < |name| ensures IsLabelByte(Utf8.Encode(name)[i]) {
        assert IsLabelChar(name[i]);
      }
      assert false;
    }
  }

  lemma SpecialUseAgrees(domain: string)
    ensures IsSpecialUse(domain) <==> IsSpecialUseDomain(domain)
  {
    assert SPECIAL_USE == SPECIAL_SUFFIXES;
  }

  /** What core's checks on the converted name say together. */
  predicate IsCoreName(name: string) {
    var labels := Text.Split(name, '.');
    && |labels| >= 2
    && !AnyBadLabel(labels)
    && !IsSpecialUse(name)
  }

  lemma NameAgrees(name: string)
    ensures IsCoreName(name) <==> IsGlobalDnsName(name)
  {
    hide IsBadLabel, IsDnsLabel, IsSpecialUse, IsSpecialUseDomain, Text.Split;
    var labels := Text.Split(name, '.');
    forall i | 0 <= i < |labels| ensures !IsBadLabel(labels[i]) <==> IsDnsLabel(labels[i]) {
      LabelAgrees(labels[i]);
    }
    SpecialUseAgrees(name);
  }

  // ----- canonical names -----

  /** Strict IDNA leaves its own lowercased output alone. */
  ghost predicate IdnaStable(o: DomainOracles) {
    forall x, y :: o.toAscii(x) == Some(y) ==> o.toAscii(Lower(y)) == Some(Lower(y))
  }

  predicate IsNameChar(c: char) {
    IsLabelChar(c) || c == '.'
  }

  /** Labels joined by dots have only name characters, and label characters at both ends. */
  lemma {:induction false} JoinShape(labels: seq<string>)
    requires labels != [] && forall i :: 0 <= i < |labels| ==> IsDnsLabel(labels[i])
    ensures var s := Text.JoinWith(labels, '.');
            && s != "" && IsLabelChar(s[0]) && IsLabelChar(s[|s| - 1])
            && forall i :: 0 <= i < |s| ==> IsNameChar(s[i])
  {
    var s, first := Text.JoinWith(labels, '.'), labels[0];
    assert IsDnsLabel(first);
    if |labels| > 1 {
      var rest := Text.JoinWith(labels[1..], '.');
      assert forall i :: 0 <= i < |labels[1..]| ==> labels[1..][i] == labels[i + 1];
      JoinShape(labels[1..]);
      assert s == first + ['.'] + rest;
      assert s[|s| - 1] == rest[|rest| - 1];
    }
  }

  /** A name made of name characters and ending in a label passes every check on the raw input. */
  lemma NamePassesInputChecks(name: string)
    requires name != "" && IsLabelChar(name[|name| - 1]) && IsLabelChar(name[0])
    requires forall i :: 0 <= i < |name| ==> IsNameChar(name[i])
    ensures Text.Trim(name) == name && !Text.ContainsUnsafeDisplay(name) && !LooksLikeUrl(name)
    ensures !Text.EndsWith(name, ".") && Lower(name) == name
  {
    Text.TrimFixed(name);
    assert Text.EndsWith(name, ".") ==> name[|name| - 1] == '.' by {
      assert |"."| == 1 && "."[0] == '.';
      if Text.EndsWith(name, ".") {
        assert name[|name| - 1..][0] == name[|name| - 1];
      }
    }
    assert "*." <= name ==> name[0] == '*' by {
      assert "*."[0] == '*';
    }
    assert forall i :: 0 <= i < |name| ==> LowerChar(name[i]) == name[i];
  }

  /** Canonicalisation is idempotent, so a constructed statement passes its own validation. */
  lemma CanonicalizeStable(o: DomainOracles, input: string)
    requires IdnaStable(o) && CanonicalizeDomain(o, input).Success?
    ensures var name := CanonicalizeDomain(o, input).value; CanonicalizeDomain(o, name) == Success(name)
  {
    hide Utf8.Encode, Text.Trim, Text.ContainsUnsafeDisplay, LooksLikeUrl, Text.EndsWith, IsSpecialUse,
         IsSpecialUseDomain, AnyBadLabel, IsDnsLabel, Text.Split, Text.JoinWith, IsNameChar, Lower;
    var name := CanonicalizeDomain(o, input).value;
    assert IsCoreName(name);
    NameAgrees(name);
    Text.SplitInverse(name, '.');
    JoinShape(Text.Split(name, '.'));
    NamePassesInputChecks(name);
  }
}
