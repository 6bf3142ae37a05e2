/** Bytes, machine integers and big-endian integer fields. */
module Bytes {

  type byte = x: int | 0 <= x < 256
  type u16 = x: int | 0 <= x < 0x1_0000
  type u32 = x: int | 0 <= x < 0x1_0000_0000
  type u64 = x: int | 0 <= x < 0x1_0000_0000_0000_0000
  type i64 = x: int | -0x8000_0000_0000_0000 <= x < 0x8000_0000_0000_0000

  const I64_MIN: int := -0x8000_0000_0000_0000
  const I64_MAX: int := 0x7FFF_FFFF_FFFF_FFFF

  function Zeros(n: nat): (s: seq<byte>)
    ensures |s| == n && forall i :: 0 <= i < n ==> s[i] == 0
  {
    seq(n, _ => 0)
  }

  /** A SHA-256 digest. */
  type Digest = s: seq<byte> | |s| == 32 witness Zeros(32)

  /** A UUID in its sixteen-byte form; the nil UUID is all zeros. */
  type Uuid = s: seq<byte> | |s| == 16 witness Zeros(16)

  predicate IsNil(id: Uuid) {
    id == Zeros(16)
  }

  function Pow256(k: nat): nat {
    if k == 0 then 1 else 256 * Pow256(k - 1)
  }

  lemma Pow256Values()
    ensures Pow256(1) == 0x100 && Pow256(2) == 0x1_0000
    ensures Pow256(4) == 0x1_0000_0000
    ensures Pow256(8) == 0x1_0000_0000_0000_0000
  {
    assert Pow256(2) == 256 * Pow256(1);
    assert Pow256(3) == 256 * Pow256(2);
    assert Pow256(4) == 256 * Pow256(3);
    assert Pow256(5) == 256 * Pow256(4);
    assert Pow256(6) == 256 * Pow256(5);
    assert Pow256(7) == 256 * Pow256(6);
    assert Pow256(8) == 256 * Pow256(7);
  }

  /** The low `width` bytes of `n`, most significant first: `(n as uN).to_be_bytes()`. */
  function ToBE(n: nat, width: nat): (s: seq<byte>)
    ensures |s| == width
  {
    if width == 0 then [] else ToBE(n / 256, width - 1) + [n % 256]
  }

  /** The value of a big-endian byte string: `uN::from_be_bytes(..)`. */
  function FromBE(s: seq<byte>): nat {
    if s == [] then 0 else FromBE(s[..|s| - 1]) * 256 + s[|s| - 1]
  }

  lemma {:induction false} FromBEBound(s: seq<byte>)
    ensures FromBE(s) < Pow256(|s|)
  {
    if s != [] {
      FromBEBound(s[..|s| - 1]);
    }
  }

  /** No integer that fits its field is changed by writing and reading it. */
  lemma {:induction false} FromToBE(n: nat, width: nat)
    requires n < Pow256(width)
    ensures FromBE(ToBE(n, width)) == n
  {
    if width != 0 {
      FromToBE(n / 256, width - 1);
      assert ToBE(n, width)[..width - 1] == ToBE(n / 256, width - 1);
    }
  }

  lemma DivMod(n: nat, b: byte)
    ensures (n * 256 + b) / 256 == n && (n * 256 + b) % 256 == b
  {}

  /** No field of the right width is changed by reading and writing it. */
  lemma {:induction false} ToFromBE(s: seq<byte>)
    ensures ToBE(FromBE(s), |s|) == s
  {
    if s != [] {
      var front, last := s[..|s| - 1], s[|s| - 1];
      ToFromBE(front);
      DivMod(FromBE(front), last);
      assert s == front + [last];
    }
  }

  /** The first byte weighs most. */
  lemma {:induction false} FromBEFirst(s: seq<byte>)
    requires s != []
    ensures FromBE(s) == s[0] * Pow256(|s| - 1) + FromBE(s[1..])
  {
    if |s| > 1 {
      var front, last := s[..|s| - 1], s[|s| - 1];
      FromBEFirst(front);
      assert front[1..] == s[1..][..|s| - 2] && s[1..][|s| - 2] == last;
      Weigh(s[0], Pow256(|s| - 2), FromBE(front[1..]), last);
    } else {
      assert s[..0] == [] && s[1..] == [];
    }
  }

  lemma Weigh(a: nat, p: nat, rest: nat, last: nat)
    ensures (a * p + rest) * 256 + last == a * (256 * p) + (rest * 256 + last)
  {}

  /** Network byte order, spelled out for the two widths the protocol uses for lengths. */
  lemma NetworkOrder(a: byte, b: byte, c: byte, d: byte)
    ensures ToBE(a * 0x100 + b, 2) == [a, b]
    ensures ToBE(a * 0x100_0000 + b * 0x1_0000 + c * 0x100 + d, 4) == [a, b, c, d]
  {
    Pow256Values();
    TwoBytes(a, b);
    TwoBytes(c, d);
    assert Pow256(3) == 0x100_0000;
    ToFromBE([a, b]);
    ToFromBE([a, b, c, d]);
    FromBEFirst([a, b, c, d]);
    FromBEFirst([b, c, d]);
    assert [a, b, c, d][1..] == [b, c, d] && [b, c, d][1..] == [c, d];
  }

  lemma TwoBytes(a: byte, b: byte)
    ensures FromBE([a, b]) == a * 0x100 + b
  {
    assert [a, b][..1] == [a] && [a][..0] == [];
    assert FromBE([a]) == a;
  }

  /** Two's complement: `i64::to_be_bytes`. */
  function ToI64(x: i64): (s: seq<byte>)
    ensures |s| == 8
  {
    ToBE(if x < 0 then x + 0x1_0000_0000_0000_0000 else x, 8)
  }

  /** `i64::from_be_bytes`. */
  function FromI64(s: seq<byte>): i64
    requires |s| == 8
  {
    FromBEBound(s);
    Pow256Values();
    var n := FromBE(s);
    if n < 0x8000_0000_0000_0000 then n else n - 0x1_0000_0000_0000_0000
  }

  lemma FromToI64(x: i64)
    ensures FromI64(ToI64(x)) == x
  {
    Pow256Values();
    FromToBE(if x < 0 then x + 0x1_0000_0000_0000_0000 else x, 8);
  }

  lemma ToFromI64(s: seq<byte>)
    requires |s| == 8
    ensures ToI64(FromI64(s)) == s
  {
    FromBEBound(s);
    Pow256Values();
    ToFromBE(s);
  }
}
