/**
 Base64 without padding in both alphabets of RFC 4648 (sections 4 and 5), and the
 padded standard form OpenSSH public keys use. The decoder is strict: no padding,
 no foreign symbols, no dangling single symbol, no nonzero trailing bits.
 */
module Base64 {
  import opened Wrappers
  import opened Bytes

  datatype Alphabet = Standard | UrlSafe

  function Symbol(a: Alphabet, v: int): char
    requires 0 <= v < 64
  {
    if v < 26 then 'A' + v as char
    else if v < 52 then 'a' + (v - 26) as char
    else if v < 62 then '0' + (v - 52) as char
    else if v == 62 then (if a.Standard? then '+' else '-')
    else if a.Standard? then '/' else '_'
  }

  function Value(a: Alphabet, c: char): (r: Option<int>)
    ensures r.Some? ==> 0 <= r.value < 64
  {
    if 'A' <= c <= 'Z' then Some(c as int - 'A' as int)
    else if 'a' <= c <= 'z' then Some(c as int - 'a' as int + 26)
    else if '0' <= c <= '9' then Some(c as int - '0' as int + 52)
    else if c == (if a.Standard? then '+' else '-') then Some(62)
    else if c == (if a.Standard? then '/' else '_') then Some(63)
    else None
  }

  lemma SymbolValue(a: Alphabet, v: int)
    requires 0 <= v < 64
    ensures Value(a, Symbol(a, v)) == Some(v)
  {}

  lemma ValueSymbol(a: Alphabet, c: char)
    requires Value(a, c).Some?
    ensures Symbol(a, Value(a, c).value) == c
  {}

  type sextet = v: int | 0 <= v < 64

  /** The six-bit groups of a byte string, the last one filled with zero bits. */
  function Sextets(b: seq<byte>): seq<sextet> {
    if |b| == 0 then []
    else if |b| == 1 then [b[0] / 4, b[0] % 4 * 16]
    else if |b| == 2 then [b[0] / 4, b[0] % 4 * 16 + b[1] / 16, b[1] % 16 * 4]
    else
      [b[0] / 4, b[0] % 4 * 16 + b[1] / 16, b[1] % 16 * 4 + b[2] / 64, b[2] % 64] + Sextets(b[3..])
  }

  /** A byte made of `high` shifted up next to the top of `low`. */
  function Joined(high: int, shift: int, low: int): byte
    requires 0 <= high * shift + low < 256
  {
    high * shift + low
  }

  function FromSextets(v: seq<sextet>): Option<seq<byte>> {
    if |v| == 0 then Some([])
    else if |v| == 1 then None
    else if |v| == 2 then
      if v[1] % 16 == 0 then Some([Joined(v[0], 4, v[1] / 16)]) else None
    else if |v| == 3 then
      if v[2] % 4 == 0 then Some([Joined(v[0], 4, v[1] / 16), Joined(v[1] % 16, 16, v[2] / 4)]) else None
    else
      match FromSextets(v[4..])
      case None => None
      case Some(rest) =>
        Some([Joined(v[0], 4, v[1] / 16), Joined(v[1] % 16, 16, v[2] / 4), Joined(v[2] % 4, 64, v[3])] + rest)
  }

  lemma {:induction false} FromSextetsOf(b: seq<byte>)
    ensures FromSextets(Sextets(b)) == Some(b)
  {
    var v := Sextets(b);
    if |b| == 1 {
      assert b == [b[0]];
      assert |v| == 2 && v[1] % 16 == 0 && v[1] / 16 == b[0] % 4;
      assert FromSextets(v) == Some([Joined(v[0], 4, v[1] / 16)]);
    } else if |b| == 2 {
      assert b == [b[0], b[1]];
      assert |v| == 3 && v[1] / 16 == b[0] % 4 && v[1] % 16 == b[1] / 16;
      assert v[2] % 4 == 0 && v[2] / 4 == b[1] % 16;
      assert FromSextets(v) == Some([Joined(v[0], 4, v[1] / 16), Joined(v[1] % 16, 16, v[2] / 4)]);
    } else if |b| >= 3 {
      FromSextetsOf(b[3..]);
      assert Sextets(b)[4..] == Sextets(b[3..]);
      assert b == [b[0], b[1], b[2]] + b[3..];
    }
  }

  lemma {:induction false} SextetsOf(v: seq<sextet>)
    requires FromSextets(v).Some?
    ensures Sextets(FromSextets(v).value) == v
  {
    if |v| == 2 {
      TwoSextets(v);
    } else if |v| == 3 {
      ThreeSextets(v);
    } else if |v| >= 4 {
      var b := FromSextets(v).value;
      SextetsOf(v[4..]);
      FourSextets(v[0], v[1], v[2], v[3]);
      assert b[3..] == FromSextets(v[4..]).value;
      assert v == [v[0], v[1], v[2], v[3]] + v[4..];
    }
  }

  lemma TwoSextets(v: seq<sextet>)
    requires |v| == 2 && FromSextets(v).Some?
    ensures Sextets(FromSextets(v).value) == v
  {
    FourSextets(v[0], v[1], 0, 0);
    assert FromSextets(v) == Some([Joined(v[0], 4, v[1] / 16)]);
  }

  lemma ThreeSextets(v: seq<sextet>)
    requires |v| == 3 && FromSextets(v).Some?
    ensures Sextets(FromSextets(v).value) == v
  {
    FourSextets(v[0], v[1], v[2], 0);
    hide Joined;
    assert FromSextets(v) == Some([Joined(v[0], 4, v[1] / 16), Joined(v[1] % 16, 16, v[2] / 4)]);
    assert v == [v[0], v[1], v[2]];
  }

  lemma FourSextets(p: sextet, q: sextet, r: sextet, s: sextet)
    ensures var b, c, d := Joined(p, 4, q / 16), Joined(q % 16, 16, r / 4), Joined(r % 4, 64, s);
            && b / 4 == p && b % 4 * 16 + c / 16 == q
            && c % 16 * 4 + d / 64 == r && d % 64 == s
            && (q % 16 == 0 ==> b % 4 * 16 == q) && (r % 4 == 0 ==> c % 16 * 4 == r)
  {
    var b, c, d := Joined(p, 4, q / 16), Joined(q % 16, 16, r / 4), Joined(r % 4, 64, s);
    assert b / 4 == p && b % 4 == q / 16;
    assert c / 16 == q % 16 && c % 16 == r / 4;
    assert d / 64 == r % 4 && d % 64 == s;
  }

  predicate IsSymbol(a: Alphabet, c: char) {
    Value(a, c).Some?
  }

  predicate AllSymbols(a: Alphabet, t: string) {
    forall i :: 0 <= i < |t| ==> IsSymbol(a, t[i])
  }

  function Encode(a: Alphabet, b: seq<byte>): string {
    var v := Sextets(b);
    seq(|v|, i requires 0 <= i < |v| => Symbol(a, v[i]))
  }

  function Values(a: Alphabet, t: string): seq<sextet>
    requires AllSymbols(a, t)
  {
    seq(|t|, i requires 0 <= i < |t| => Value(a, t[i]).value)
  }

  function Decode(a: Alphabet, t: string): Option<seq<byte>> {
    if AllSymbols(a, t) then FromSextets(Values(a, t)) else None
  }

  /** Decoding undoes encoding. */
  lemma DecodeEncode(a: Alphabet, b: seq<byte>)
    ensures Decode(a, Encode(a, b)) == Some(b)
  {
    var v, t := Sextets(b), Encode(a, b);
    forall i | 0 <= i < |t| ensures Value(a, t[i]) == Some(v[i]) {
      SymbolValue(a, v[i]);
    }
    assert AllSymbols(a, t) by {
      assert forall i :: 0 <= i < |t| ==> Value(a, t[i]).Some?;
    }
    assert Values(a, t) == v;
    FromSextetsOf(b);
  }

  /** The strict decoder accepts only canonical text. */
  lemma EncodeDecode(a: Alphabet, t: string)
    requires Decode(a, t).Some?
    ensures Encode(a, Decode(a, t).value) == t
  {
    var v := Values(a, t);
    SextetsOf(v);
    forall i | 0 <= i < |t| ensures Symbol(a, v[i]) == t[i] {
      assert IsSymbol(a, t[i]);
      ValueSymbol(a, t[i]);
    }
  }

  lemma {:induction false} SextetCount(b: seq<byte>)
    ensures |Sextets(b)| == |b| / 3 * 4 + (if |b| % 3 == 0 then 0 else |b| % 3 + 1)
  {
    if |b| >= 3 {
      SextetCount(b[3..]);
    }
  }

  /** Encoded text is made of alphabet symbols and has the length RFC 4648 gives. */
  lemma EncodeShape(a: Alphabet, b: seq<byte>)
    ensures |Encode(a, b)| == |b| / 3 * 4 + (if |b| % 3 == 0 then 0 else |b| % 3 + 1)
    ensures AllSymbols(a, Encode(a, b))
  {
    SextetCount(b);
    var v, t := Sextets(b), Encode(a, b);
    forall i | 0 <= i < |t| ensures IsSymbol(a, t[i]) {
      SymbolValue(a, v[i]);
    }
  }

  /** A text that is the one encoding of exactly 32 bytes: an anchor, a nonce, a digest. */
  predicate IsCanonical32(a: Alphabet, t: string) {
    var d := Decode(a, t);
    d.Some? && |d.value| == 32 && Encode(a, d.value) == t
  }

  /** The re-encoding test never decides: a 32-byte decoding is enough. */
  lemma Canonical32(a: Alphabet, t: string)
    ensures IsCanonical32(a, t) <==> Decode(a, t).Some? && |Decode(a, t).value| == 32
    ensures IsCanonical32(a, t) <==> exists d: Digest :: Encode(a, d) == t
    ensures IsCanonical32(a, t) ==> |t| == 43 && AllSymbols(a, t)
  {
    if Decode(a, t).Some? {
      EncodeDecode(a, t);
    }
    if IsCanonical32(a, t) {
      var d: Digest := Decode(a, t).value;
      assert Encode(a, d) == t;
      EncodeShape(a, d);
    }
    if exists d: Digest :: Encode(a, d) == t {
      var d: Digest :| Encode(a, d) == t;
      DecodeEncode(a, d);
    }
  }

  /** The padded standard form of RFC 4648: filled with `=` to a multiple of four symbols. */
  function EncodePadded(b: seq<byte>): string {
    Encode(Standard, b) + (if |b| % 3 == 0 then "" else if |b| % 3 == 1 then "==" else "=")
  }

  /** The padded standard alphabet, with canonical padding required. */
  function DecodePadded(t: string): Option<seq<byte>> {
    if |t| % 4 != 0 then None
    else if |t| >= 4 && t[|t| - 2..] == "==" then Decode(Standard, t[..|t| - 2])
    else if |t| >= 4 && t[|t| - 1] == '=' then Decode(Standard, t[..|t| - 1])
    else Decode(Standard, t)
  }

  function PaddedRemainder(n: nat): nat {
    if n % 3 == 0 then 0 else n % 3 + 1
  }

  lemma CountRemainder(n: nat)
    ensures (n / 3 * 4 + PaddedRemainder(n)) % 4 == PaddedRemainder(n)
  {
    ModFour(n / 3, PaddedRemainder(n));
  }

  lemma ModFour(q: nat, r: nat)
    requires r < 4
    ensures (q * 4 + r) % 4 == r
  {}

  /** Unpadded text holds no `=`, and its length tells how many to append. */
  lemma PlainShape(b: seq<byte>)
    ensures var plain := Encode(Standard, b);
            && Decode(Standard, plain) == Some(b)
            && |plain| % 4 == PaddedRemainder(|b|)
            && '=' !in plain
  {
    var plain := Encode(Standard, b);
    DecodeEncode(Standard, b);
    EncodeShape(Standard, b);
    CountRemainder(|b|);
    forall i | 0 <= i < |plain| ensures plain[i] != '=' {
      assert IsSymbol(Standard, plain[i]);
    }
  }

  /** The padded decoder undoes the padded encoder, whatever the length. */
  lemma DecodePaddedEncode(b: seq<byte>)
    ensures DecodePadded(EncodePadded(b)) == Some(b)
  {
    hide Encode, Decode;
    var plain := Encode(Standard, b);
    PlainShape(b);
    PaddedCases(plain);
    assert plain + "" == plain;
  }

  /** What the padded decoder sees, by the length of the text before the padding. */
  lemma PaddedCases(plain: string)
    requires '=' !in plain
    ensures |plain| % 4 == 0 ==> DecodePadded(plain) == Decode(Standard, plain)
    ensures |plain| % 4 == 2 ==> DecodePadded(plain + "==") == Decode(Standard, plain)
    ensures |plain| % 4 == 3 ==> DecodePadded(plain + "=") == Decode(Standard, plain)
  {
    hide Decode, DecodePadded;
    if |plain| % 4 == 0 {
      NoPadding(plain);
    } else if |plain| % 4 == 2 {
      TwoPads(plain);
    } else if |plain| % 4 == 3 {
      OnePad(plain);
    }
  }

  lemma NoPadding(plain: string)
    requires '=' !in plain && |plain| % 4 == 0
    ensures DecodePadded(plain) == Decode(Standard, plain)
  {
    hide Decode;
    if plain != "" {
      var n := |plain|;
      assert plain[n - 1] in plain && plain[n - 2..][1] == plain[n - 1];
    }
  }

  lemma TwoPads(plain: string)
    requires |plain| % 4 == 2
    ensures DecodePadded(plain + "==") == Decode(Standard, plain)
  {
    hide Decode;
    var t := plain + "==";
    assert t[|t| - 2..] == "==" && t[..|t| - 2] == plain;
  }

  lemma OnePad(plain: string)
    requires '=' !in plain && |plain| % 4 == 3
    ensures DecodePadded(plain + "=") == Decode(Standard, plain)
  {
    hide Decode;
    var t, last := plain + "=", plain[|plain| - 1];
    assert last in plain && t[|t| - 2..][0] == last;
    assert t[..|t| - 1] == plain && t[|t| - 1] == '=';
  }

  /** The padded decoder accepts only the padded encoding of its result. */
  lemma EncodePaddedDecode(t: string)
    requires DecodePadded(t).Some?
    ensures EncodePadded(DecodePadded(t).value) == t
  {
    hide Encode, Decode;
    var b := DecodePadded(t).value;
    PlainShape(b);
    var n := |t|;
    if n >= 4 && t[n - 2..] == "==" {
      EncodeDecode(Standard, t[..n - 2]);
      assert t == t[..n - 2] + t[n - 2..];
    } else if n >= 4 && t[n - 1] == '=' {
      EncodeDecode(Standard, t[..n - 1]);
      assert t == t[..n - 1] + "=";
    } else {
      EncodeDecode(Standard, t);
    }
  }
}
