/** The bytes a live signer signs to prove that one locator controls one key. */
module Challenge {
  import opened Wrappers
  import opened Bytes
  import Utf8

  datatype Provider = OpensshFile | SshAgent | Fido2

  datatype ChallengeError = InvalidLiveSignerLocator

  function ProviderName(p: Provider): string {
    match p case OpensshFile => "openssh-file" case SshAgent => "ssh-agent" case Fido2 => "fido2"
  }

  const CONTEXT := "a-quo-live-signer-binding-challenge-v1"

  /** Each field behind its length as a big-endian u32. */
  function Prefixed(fields: seq<seq<byte>>): seq<byte> {
    if fields == [] then []
    else Prefixed(fields[..|fields| - 1]) + ToBE(|fields[|fields| - 1]|, 4) + fields[|fields| - 1]
  }

  predicate FieldsFit(fields: seq<seq<byte>>) {
    forall i :: 0 <= i < |fields| ==> |fields[i]| < 0x1_0000_0000
  }

  function Fields(provider: Provider, locator: string, key: string, fingerprint: string, nonce: seq<byte>)
    : seq<seq<byte>>
  {
    [Utf8.Encode(CONTEXT), Utf8.Encode(ProviderName(provider)), Utf8.Encode(locator), Utf8.Encode(key),
     Utf8.Encode(fingerprint), nonce]
  }

  /** A locator that is not UTF-8 is `None`. Fails exactly when it is, or when a field is 4 GiB or longer. */
  method LiveSignerBindingChallenge(provider: Provider, locator: Option<string>, key: string, fingerprint: string,
                                    nonce: Digest)
    returns (r: Result<seq<byte>, ChallengeError>)
    ensures r.Success? <==> locator.Some? && FieldsFit(Fields(provider, locator.value, key, fingerprint, nonce))
    ensures r.Success? ==> r.value == Prefixed(Fields(provider, locator.value, key, fingerprint, nonce))
  {
    hide Utf8.Encode;
    if locator.None? {
      return Failure(InvalidLiveSignerLocator);
    }
    var fields := Fields(provider, locator.value, key, fingerprint, nonce);
    var challenge: seq<byte> := [];
    for i := 0 to |fields|
      invariant FieldsFit(fields[..i])
      invariant challenge == Prefixed(fields[..i])
    {
      if |fields[i]| >= 0x1_0000_0000 {
        return Failure(InvalidLiveSignerLocator);
      }
      assert fields[..i + 1][..i] == fields[..i];
      challenge := challenge + ToBE(|fields[i]|, 4);
      challenge := challenge + fields[i];
    }
    assert fields[..|fields|] == fields;
    r := Success(challenge);
  }

  /** One field behind its length. */
  function Part(field: seq<byte>): seq<byte> {
    ToBE(|field|, 4) + field
  }

  /** The whole challenge: context, provider, locator, key, fingerprint and nonce, in this order. */
  lemma ChallengeSpelled(provider: Provider, locator: string, key: string, fingerprint: string, nonce: seq<byte>)
    ensures Prefixed(Fields(provider, locator, key, fingerprint, nonce)) ==
      Part(Utf8.Encode("a-quo-live-signer-binding-challenge-v1")) +
      (Part(Utf8.Encode(match provider case OpensshFile => "openssh-file" case SshAgent => "ssh-agent"
                                       case Fido2 => "fido2")) +
       (Part(Utf8.Encode(locator)) + (Part(Utf8.Encode(key)) + (Part(Utf8.Encode(fingerprint)) + Part(nonce)))))
  {
    hide Utf8.Encode, ToBE;
    var fields := Fields(provider, locator, key, fingerprint, nonce);
    SameBytes(fields);
    var one, two, three := fields[1..], fields[2..], fields[3..];
    var four, five := fields[4..], fields[5..];
    assert one[1..] == two && two[1..] == three && three[1..] == four && four[1..] == five;
    FrontStep(fields);
    FrontStep(one);
    FrontStep(two);
    FrontStep(three);
    FrontStep(four);
    LastStep(five);
  }

  lemma LastStep(fields: seq<seq<byte>>)
    requires |fields| == 1
    ensures PrefixedFront(fields) == Part(fields[0])
  {
    assert fields[1..] == [];
  }

  lemma FrontStep(fields: seq<seq<byte>>)
    requires fields != []
    ensures PrefixedFront(fields) == Part(fields[0]) + PrefixedFront(fields[1..])
  {}

  // ----- injectivity -----

  /** The same bytes read from the front. */
  function PrefixedFront(fields: seq<seq<byte>>): seq<byte> {
    if fields == [] then [] else ToBE(|fields[0]|, 4) + fields[0] + PrefixedFront(fields[1..])
  }

  lemma {:induction false} FrontConcat(a: seq<seq<byte>>, last: seq<byte>)
    ensures PrefixedFront(a + [last]) == PrefixedFront(a) + ToBE(|last|, 4) + last
  {
    if a == [] {
      assert (a + [last])[1..] == [];
    } else {
      assert (a + [last])[1..] == a[1..] + [last];
      FrontConcat(a[1..], last);
    }
  }

  lemma {:induction false} SameBytes(fields: seq<seq<byte>>)
    ensures Prefixed(fields) == PrefixedFront(fields)
  {
    if fields != [] {
      var front, last := fields[..|fields| - 1], fields[|fields| - 1];
      SameBytes(front);
      FrontConcat(front, last);
      assert fields == front + [last];
    }
  }

  lemma HeadSplit(hx: seq<byte>, x: seq<byte>, rest: seq<byte>, hy: seq<byte>, y: seq<byte>, other: seq<byte>)
    requires |hx| == |hy| && hx + x + rest == hy + y + other
    requires hx == hy ==> |x| == |y|
    ensures x == y && rest == other
  {
    var whole := hx + x + rest;
    assert hx == whole[..|hx|] == hy;
    assert x == whole[|hx|..|hx| + |x|] == y;
    assert rest == whole[|hx| + |x|..] == other;
  }

  lemma HeadField(x: seq<byte>, rest: seq<byte>, y: seq<byte>, other: seq<byte>)
    requires |x| < 0x1_0000_0000 && |y| < 0x1_0000_0000
    requires ToBE(|x|, 4) + x + rest == ToBE(|y|, 4) + y + other
    ensures x == y && rest == other
  {
    hide ToBE, FromBE, Pow256;
    Pow256Values();
    FromToBE(|x|, 4);
    FromToBE(|y|, 4);
    HeadSplit(ToBE(|x|, 4), x, rest, ToBE(|y|, 4), y, other);
  }

  /** Different field lists, of any lengths, have different bytes. */
  lemma {:induction false} FrontInjective(a: seq<seq<byte>>, b: seq<seq<byte>>)
    requires FieldsFit(a) && FieldsFit(b) && PrefixedFront(a) == PrefixedFront(b)
    ensures a == b
  {
    if a != [] && b != [] {
      HeadField(a[0], PrefixedFront(a[1..]), b[0], PrefixedFront(b[1..]));
      FrontInjective(a[1..], b[1..]);
      assert a == [a[0]] + a[1..] && b == [b[0]] + b[1..];
    }
  }

  lemma {:induction false} ProvidersDiffer(p: Provider, q: Provider)
    requires ProviderName(p) == ProviderName(q)
    ensures p == q
  {
    assert |ProviderName(OpensshFile)| == 12 && |ProviderName(SshAgent)| == 9 && |ProviderName(Fido2)| == 5;
  }

  /** Equal challenges mean equal provider, locator, key text, fingerprint and nonce. */
  lemma ChallengeInjective(p1: Provider, l1: string, k1: string, f1: string, n1: Digest,
                           p2: Provider, l2: string, k2: string, f2: string, n2: Digest)
    requires FieldsFit(Fields(p1, l1, k1, f1, n1)) && FieldsFit(Fields(p2, l2, k2, f2, n2))
    requires Prefixed(Fields(p1, l1, k1, f1, n1)) == Prefixed(Fields(p2, l2, k2, f2, n2))
    ensures p1 == p2 && l1 == l2 && k1 == k2 && f1 == f2 && n1 == n2
  {
    hide Utf8.Encode;
    var a, b := Fields(p1, l1, k1, f1, n1), Fields(p2, l2, k2, f2, n2);
    SameBytes(a);
    SameBytes(b);
    FrontInjective(a, b);
    assert a[1] == b[1] && a[2] == b[2] && a[3] == b[3] && a[4] == b[4] && a[5] == b[5];
    Utf8.EncodeInjective(ProviderName(p1), ProviderName(p2));
    ProvidersDiffer(p1, p2);
    Utf8.EncodeInjective(l1, l2);
    Utf8.EncodeInjective(k1, k2);
    Utf8.EncodeInjective(f1, f2);
  }
}
