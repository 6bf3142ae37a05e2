/**
 UTF-8 as `str::as_bytes` and `str::from_utf8` see it. A Rust `char` is a Unicode
 scalar value, which is what Dafny's `char` is, so a Rust `str` is a `string` here.
 */
module Utf8 {
  import opened Wrappers
  import opened Bytes

  function EncodeChar(c: char): (s: seq<byte>)
    ensures 1 <= |s| <= 4
  {
    var v := c as int;
    if v < 0x80 then [v]
    else if v < 0x800 then [0xC0 + v / 64, 0x80 + v % 64]
    else if v < 0x1_0000 then [0xE0 + v / 4096, 0x80 + v / 64 % 64, 0x80 + v % 64]
    else [0xF0 + v / 262144, 0x80 + v / 4096 % 64, 0x80 + v / 64 % 64, 0x80 + v % 64]
  }

  /** `str::as_bytes`. */
  function Encode(s: string): (b: seq<byte>)
    ensures |b| >= |s|
  {
    if s == "" then [] else EncodeChar(s[0]) + Encode(s[1..])
  }

  predicate IsContinuation(b: byte) {
    0x80 <= b < 0xC0
  }

  predicate IsScalar(v: int) {
    0 <= v < 0xD800 || 0xE000 <= v < 0x11_0000
  }

  /** The payload bits of a lead or continuation byte. */
  function Bits(b: byte, mark: int): int {
    b - mark
  }

  /** The first character of a byte string and its length, if it starts well. */
  function DecodeFirst(b: seq<byte>): Option<(char, nat)>
    requires b != []
  {
    if b[0] < 0x80 then
      Some((b[0] as char, 1))
    else if 0xC2 <= b[0] < 0xE0 && |b| >= 2 && IsContinuation(b[1]) then
      Some(((Bits(b[0], 0xC0) * 64 + Bits(b[1], 0x80)) as char, 2))
    else if 0xE0 <= b[0] < 0xF0 && |b| >= 3 && IsContinuation(b[1]) && IsContinuation(b[2]) then
      var v := Bits(b[0], 0xE0) * 4096 + Bits(b[1], 0x80) * 64 + Bits(b[2], 0x80);
      if v >= 0x800 && IsScalar(v) then Some((v as char, 3)) else None
    else if && 0xF0 <= b[0] < 0xF5 && |b| >= 4
            && IsContinuation(b[1]) && IsContinuation(b[2]) && IsContinuation(b[3]) then
      var v := Bits(b[0], 0xF0) * 262144 + Bits(b[1], 0x80) * 4096 + Bits(b[2], 0x80) * 64 + Bits(b[3], 0x80);
      if v >= 0x1_0000 && IsScalar(v) then Some((v as char, 4)) else None
    else
      None
  }

  /** `str::from_utf8`. */
  function Decode(b: seq<byte>): Option<string>
  {
    if b == [] then Some("")
    else
      match DecodeFirst(b)
      case None => None
      case Some((c, n)) =>
        if n > |b| then None else
        match Decode(b[n..])
        case None => None
        case Some(rest) => Some([c] + rest)
  }

  lemma Split2(v: int)
    requires 0x80 <= v < 0x800
    ensures v == v / 64 * 64 + v % 64 && 2 <= v / 64 < 32
  {}

  lemma Split3(v: int)
    requires 0x800 <= v < 0x1_0000
    ensures v == v / 4096 * 4096 + v / 64 % 64 * 64 + v % 64 && 0 <= v / 4096 < 16
  {}

  lemma Split4(v: int)
    requires 0x1_0000 <= v < 0x11_0000
    ensures v == v / 262144 * 262144 + v / 4096 % 64 * 4096 + v / 64 % 64 * 64 + v % 64
    ensures 0 <= v / 262144 < 5
  {
    assert v / 64 / 64 == v / 4096 && v / 4096 / 64 == v / 262144;
  }

  lemma Join3(a: int, b: int, c: int)
    requires 0 <= a && 0 <= b < 64 && 0 <= c < 64
    ensures var v := a * 4096 + b * 64 + c; v / 4096 == a && v / 64 % 64 == b && v % 64 == c
  {}

  lemma Join4(a: int, b: int, c: int, d: int)
    requires 0 <= a && 0 <= b < 64 && 0 <= c < 64 && 0 <= d < 64
    ensures var v := a * 262144 + b * 4096 + c * 64 + d;
            v / 262144 == a && v / 4096 % 64 == b && v / 64 % 64 == c && v % 64 == d
  {
    var v := a * 262144 + b * 4096 + c * 64 + d;
    assert v / 64 == a * 4096 + b * 64 + c;
    assert v / 4096 == a * 64 + b;
  }

  lemma DecodeFirstOfEncoded(c: char, rest: seq<byte>)
    ensures DecodeFirst(EncodeChar(c) + rest) == Some((c, |EncodeChar(c)|))
  {
    var v := c as int;
    assert IsScalar(v);
    var e := EncodeChar(c);
    var b := e + rest;
    assert b[0] == e[0];
    if v < 0x80 {
    } else if v < 0x800 {
      Split2(v);
      assert b[1] == e[1] == 0x80 + v % 64;
      assert Bits(b[0], 0xC0) * 64 + Bits(b[1], 0x80) == v;
    } else if v < 0x1_0000 {
      Split3(v);
      assert b[1] == e[1] == 0x80 + v / 64 % 64 && b[2] == e[2] == 0x80 + v % 64;
      assert Bits(b[0], 0xE0) * 4096 + Bits(b[1], 0x80) * 64 + Bits(b[2], 0x80) == v;
    } else {
      Split4(v);
      assert b[1] == e[1] == 0x80 + v / 4096 % 64 && b[2] == e[2] == 0x80 + v / 64 % 64;
      assert b[3] == e[3] == 0x80 + v % 64;
      assert Bits(b[0], 0xF0) * 262144 + Bits(b[1], 0x80) * 4096 + Bits(b[2], 0x80) * 64 + Bits(b[3], 0x80) == v;
    }
  }

  lemma EncodedOfDecodeFirst(b: seq<byte>)
    requires b != [] && DecodeFirst(b).Some?
    ensures var (c, n) := DecodeFirst(b).value;
            n == |EncodeChar(c)| <= |b| && b[..n] == EncodeChar(c)
  {
    var (c, n) := DecodeFirst(b).value;
    var v := c as int;
    if n == 1 {
      assert b[..n] == [b[0]];
    } else if n == 2 {
      assert v / 64 == Bits(b[0], 0xC0) && v % 64 == Bits(b[1], 0x80);
      assert b[..n] == [b[0], b[1]];
    } else if n == 3 {
      Join3(Bits(b[0], 0xE0), Bits(b[1], 0x80), Bits(b[2], 0x80));
      assert b[..n] == [b[0], b[1], b[2]];
    } else {
      Join4(Bits(b[0], 0xF0), Bits(b[1], 0x80), Bits(b[2], 0x80), Bits(b[3], 0x80));
      assert b[..n] == [b[0], b[1], b[2], b[3]];
    }
  }

  /** Every text survives encoding and strict decoding. */
  lemma {:induction false} DecodeEncode(s: string)
    ensures Decode(Encode(s)) == Some(s)
  {
    if s != "" {
      DecodeEncode(s[1..]);
      DecodeFirstOfEncoded(s[0], Encode(s[1..]));
      assert Encode(s)[|EncodeChar(s[0])|..] == Encode(s[1..]);
      assert s == [s[0]] + s[1..];
    }
  }

  /** Strict decoding accepts only the one encoding of its result. */
  lemma {:induction false} EncodeDecode(b: seq<byte>)
    requires Decode(b).Some?
    ensures Encode(Decode(b).value) == b
    decreases |b|
  {
    if b != [] {
      EncodedOfDecodeFirst(b);
      var (c, n) := DecodeFirst(b).value;
      EncodeDecode(b[n..]);
      assert b == b[..n] + b[n..];
    }
  }

  lemma {:induction false} EncodeInjective(s: string, t: string)
    requires Encode(s) == Encode(t)
    ensures s == t
  {
    DecodeEncode(s);
    DecodeEncode(t);
  }

  lemma Associative(a: seq<byte>, b: seq<byte>, c: seq<byte>)
    ensures a + (b + c) == a + b + c
  {}

  lemma {:induction false} EncodeConcat(s: string, t: string)
    ensures Encode(s + t) == Encode(s) + Encode(t)
  {
    if s == "" {
      assert s + t == t;
    } else {
      EncodeConcat(s[1..], t);
      assert (s + t)[1..] == s[1..] + t;
      Associative(EncodeChar(s[0]), Encode(s[1..]), Encode(t));
    }
  }

  lemma ConcatLength(s: string, t: string)
    ensures |Encode(s + t)| == |Encode(s)| + |Encode(t)|
  {
    EncodeConcat(s, t);
  }

  predicate IsAscii(s: string) {
    forall i :: 0 <= i < |s| ==> s[i] as int < 0x80
  }

  lemma {:induction false} AsciiLength(s: string)
    requires IsAscii(s)
    ensures |Encode(s)| == |s|
    ensures forall i :: 0 <= i < |s| ==> Encode(s)[i] == s[i] as int
  {
    if s != "" {
      AsciiLength(s[1..]);
    }
  }

  /** A text whose bytes are all ASCII is made of ASCII characters. */
  lemma {:induction false} AsciiBytes(s: string)
    requires forall b :: b in Encode(s) ==> b < 0x80
    ensures IsAscii(s)
  {
    if s != "" {
      var first, rest := EncodeChar(s[0]), Encode(s[1..]);
      assert first[0] in Encode(s) && forall b :: b in rest ==> b in first + rest;
      AsciiBytes(s[1..]);
    }
  }
}
