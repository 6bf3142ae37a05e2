/** Lowercase hexadecimal, as digests are written in statements and read by the daemon. */
module Hex {
  import opened Wrappers
  import opened Bytes

  function Digit(v: int): char
    requires 0 <= v < 16
  {
    if v < 10 then '0' + v as char else 'a' + (v - 10) as char
  }

  function DigitValue(c: char): (r: Option<int>)
    ensures r.Some? ==> 0 <= r.value < 16
  {
    if '0' <= c <= '9' then Some(c as int - '0' as int)
    else if 'a' <= c <= 'f' then Some(c as int - 'a' as int + 10)
    else None
  }

  /** `format!("{:x}", digest)`. */
  function Encode(b: seq<byte>): (t: string)
    ensures |t| == 2 * |b|
  {
    if b == [] then "" else [Digit(b[0] / 16), Digit(b[0] % 16)] + Encode(b[1..])
  }

  /** Two lowercase digits per byte, the high half first. */
  lemma {:induction false} EncodeAt(b: seq<byte>, i: nat)
    requires i < |b|
    ensures Encode(b)[2 * i] == "0123456789abcdef"[b[i] / 16]
    ensures Encode(b)[2 * i + 1] == "0123456789abcdef"[b[i] % 16]
  {
    if i > 0 {
      EncodeAt(b[1..], i - 1);
    }
  }

  /** Sixty-four lowercase hexadecimal characters. */
  predicate IsSha256(t: string) {
    |t| == 64 && forall i :: 0 <= i < |t| ==> DigitValue(t[i]).Some?
  }

  function Decode(t: string): (r: Option<seq<byte>>)
    ensures r.Some? ==> 2 * |r.value| == |t|
  {
    if t == "" then Some([])
    else if |t| == 1 then None
    else
      match (DigitValue(t[0]), DigitValue(t[1]), Decode(t[2..]))
      case (Some(high), Some(low), Some(rest)) => Some([high * 16 + low] + rest)
      case _ => None
  }

  /** The daemon's digest reader. */
  function DecodeSha256(t: string): Option<Digest> {
    if |t| != 64 then None
    else
      match Decode(t)
      case Some(d) => Some(d)
      case None => None
  }

  lemma {:induction false} DecodeEncode(b: seq<byte>)
    ensures Decode(Encode(b)) == Some(b)
    ensures forall i :: 0 <= i < |Encode(b)| ==> DigitValue(Encode(b)[i]).Some?
  {
    if b != [] {
      DecodeEncode(b[1..]);
      assert forall i :: 2 <= i < |Encode(b)| ==> Encode(b)[i] == Encode(b[1..])[i - 2];
      assert Encode(b)[2..] == Encode(b[1..]);
      assert b == [b[0]] + b[1..];
    }
  }

  lemma DigitsOfByte(c: char, d: char)
    requires DigitValue(c).Some? && DigitValue(d).Some?
    ensures var v := DigitValue(c).value * 16 + DigitValue(d).value;
            0 <= v < 256 && Digit(v / 16) == c && Digit(v % 16) == d
  {
    var high, low := DigitValue(c).value, DigitValue(d).value;
    assert (high * 16 + low) / 16 == high && (high * 16 + low) % 16 == low;
  }

  lemma {:induction false} EncodeDecode(t: string)
    requires |t| % 2 == 0 && forall i :: 0 <= i < |t| ==> DigitValue(t[i]).Some?
    ensures Decode(t).Some? && Encode(Decode(t).value) == t
  {
    if t != "" {
      EncodeDecode(t[2..]);
      DigitsOfByte(t[0], t[1]);
      var rest := Decode(t[2..]).value;
      var first: byte := DigitValue(t[0]).value * 16 + DigitValue(t[1]).value;
      var all := [first] + rest;
      assert all[0] == first && all[1..] == rest;
      assert Encode(all) == [t[0], t[1]] + t[2..];
    }
  }

  lemma EncodeInjective(a: seq<byte>, b: seq<byte>)
    requires Encode(a) == Encode(b)
    ensures a == b
  {
    DecodeEncode(a);
    DecodeEncode(b);
  }

  /** Statement digests and daemon digests are the same values in two spellings. */
  lemma Sha256Spelling(t: string)
    ensures IsSha256(t) <==> DecodeSha256(t).Some?
    ensures IsSha256(t) ==> Encode(DecodeSha256(t).value) == t
  {
    if IsSha256(t) {
      EncodeDecode(t);
    }
    if Decode(t).Some? {
      DecodeOnlyDigits(t);
    }
  }

  lemma {:induction false} DecodeOnlyDigits(t: string)
    requires Decode(t).Some?
    ensures forall i :: 0 <= i < |t| ==> DigitValue(t[i]).Some?
  {
    if |t| >= 2 {
      DecodeOnlyDigits(t[2..]);
      forall i | 0 <= i < |t| ensures DigitValue(t[i]).Some? {
        if i >= 2 {
          assert t[i] == t[2..][i - 2];
        }
      }
    }
  }
}
