/** Which public keys the SSHSIG verifier accepts. */
module Rsa {
  import opened Wrappers
  import opened Bytes
  import opened Keys

  const MIN_RSA_BITS := 2048
  const MAX_RSA_BITS := 4096
  const MAX_EXPONENT_BITS := 32

  /** `as_positive_bytes` gives no bytes for a negative integer. */
  datatype KeyData =
    | Ed25519 | Ecdsa | SkEcdsaSha2NistP256 | SkEd25519
    | RsaKey(modulus: Option<seq<byte>>, exponent: Option<seq<byte>>)
    | OtherKey

  function Pow2(k: nat): nat {
    if k == 0 then 1 else 2 * Pow2(k - 1)
  }

  /** `u8::BITS - leading_zeros`. */
  function ByteBits(b: byte): (n: nat)
    requires b != 0
    ensures 1 <= n <= 8
  {
    if b >= 128 then 8 else if b >= 64 then 7 else if b >= 32 then 6 else if b >= 16 then 5
    else if b >= 8 then 4 else if b >= 4 then 3 else if b >= 2 then 2 else 1
  }

  function FirstNonzero(bytes: seq<byte>): (r: Option<nat>)
    ensures r.Some? ==> r.value < |bytes| && bytes[r.value] != 0 && forall i :: 0 <= i < r.value ==> bytes[i] == 0
    ensures r.None? ==> forall i :: 0 <= i < |bytes| ==> bytes[i] == 0
  {
    if bytes == [] then None
    else if bytes[0] != 0 then Some(0)
    else
      match FirstNonzero(bytes[1..])
      case Some(i) => Some(i + 1)
      case None => None
  }

  function BitLength(bytes: Option<seq<byte>>): Option<nat> {
    match bytes
    case None => None
    case Some(b) =>
      match FirstNonzero(b)
      case None => None
      case Some(first) => Some((|b| - first - 1) * 8 + ByteBits(b[first]))
  }

  /** The fold `(value << 8) | byte` in a u64, where the shift drops what leaves the top. */
  function U64Fold(bytes: seq<byte>): u64 {
    if bytes == [] then 0
    else U64Fold(bytes[..|bytes| - 1]) * 256 % 0x1_0000_0000_0000_0000 + bytes[|bytes| - 1]
  }

  function RequireSupportedKey(key: KeyData): Result<(), ProofError> {
    match key
    case RsaKey(modulus, exponent) =>
      var modulusBits := BitLength(modulus);
      var _ :- Need(modulusBits.Some?, InvalidPublicKey);
      var _ :- Need(exponent.Some?, InvalidPublicKey);
      var exponentBits := BitLength(exponent);
      var _ :- Need(exponentBits.Some?, InvalidPublicKey);
      var _ :- Need(MIN_RSA_BITS <= modulusBits.value <= MAX_RSA_BITS
                    && exponentBits.value <= MAX_EXPONENT_BITS, InvalidPublicKey);
      var e := U64Fold(exponent.value);
      var _ :- Need(e >= 3 && e % 2 != 0, InvalidPublicKey);
      Success(())
    case OtherKey => Failure(InvalidPublicKey)
    case _ => Success(())
  }

  // ----- what the bit length means -----

  lemma {:induction false} Pow2Monotone(a: nat, b: nat)
    requires a <= b
    ensures Pow2(a) <= Pow2(b)
  {
    if a < b {
      Pow2Monotone(a, b - 1);
    }
  }

  lemma ByteBitsExact(b: byte)
    requires b != 0
    ensures Pow2(ByteBits(b) - 1) <= b < Pow2(ByteBits(b))
  {
    assert Pow2(3) == 8 && Pow2(5) == 32 && Pow2(7) == 128 && Pow2(8) == 256;
  }

  lemma {:induction false} ZerosAreZero(bytes: seq<byte>)
    requires forall i :: 0 <= i < |bytes| ==> bytes[i] == 0
    ensures FromBE(bytes) == 0
  {
    if bytes != [] {
      ZerosAreZero(bytes[..|bytes| - 1]);
    }
  }

  lemma Shift(k: nat)
    ensures Pow2(k + 8) == 256 * Pow2(k)
  {
    assert Pow2(k + 2) == 4 * Pow2(k);
    assert Pow2(k + 4) == 4 * Pow2(k + 2);
    assert Pow2(k + 6) == 4 * Pow2(k + 4);
    assert Pow2(k + 8) == 4 * Pow2(k + 6);
  }

  /** A byte string of any length whose first nonzero byte is at `first`. */
  lemma {:induction false} ValueBounds(bytes: seq<byte>, first: nat)
    requires first < |bytes| && bytes[first] != 0 && forall i :: 0 <= i < first ==> bytes[i] == 0
    ensures var k := (|bytes| - first - 1) * 8 + ByteBits(bytes[first]);
            Pow2(k - 1) <= FromBE(bytes) < Pow2(k)
  {
    var front := bytes[..|bytes| - 1];
    if first == |bytes| - 1 {
      ZerosAreZero(front);
      ByteBitsExact(bytes[first]);
    } else {
      ValueBounds(front, first);
      var k := (|front| - first - 1) * 8 + ByteBits(bytes[first]);
      assert front[first] == bytes[first];
      Shift(k);
      Shift(k - 1);
    }
  }

  /** The bit length is the k with 2^(k-1) <= V < 2^k, and there is none exactly for zero. */
  lemma BitLengthExact(bytes: seq<byte>)
    ensures BitLength(Some(bytes)).None? <==> FromBE(bytes) == 0
    ensures BitLength(Some(bytes)).Some? ==>
      var k := BitLength(Some(bytes)).value; k >= 1 && Pow2(k - 1) <= FromBE(bytes) < Pow2(k)
  {
    match FirstNonzero(bytes)
    case None => ZerosAreZero(bytes);
    case Some(first) =>
      ValueBounds(bytes, first);
      Pow2Positive((|bytes| - first - 1) * 8 + ByteBits(bytes[first]) - 1);
  }

  lemma {:induction false} Pow2Positive(k: nat)
    ensures Pow2(k) >= 1
  {
    if k > 0 {
      Pow2Positive(k - 1);
    }
  }

  /** A bit length within bounds is a value within the powers of two. */
  lemma BitsAreBounds(bytes: seq<byte>, low: nat, high: nat)
    requires low >= 1
    ensures (BitLength(Some(bytes)).Some? && low <= BitLength(Some(bytes)).value <= high)
       <==> Pow2(low - 1) <= FromBE(bytes) < Pow2(high)
  {
    hide BitLength, FromBE;
    BitLengthExact(bytes);
    Pow2Positive(low - 1);
    if BitLength(Some(bytes)).Some? {
      var k := BitLength(Some(bytes)).value;
      if low <= k { Pow2Monotone(low - 1, k - 1); } else { Pow2Monotone(k, low - 1); }
      if k <= high { Pow2Monotone(k, high); } else { Pow2Monotone(high, k - 1); }
    }
  }

  lemma {:induction false} FoldIsValue(bytes: seq<byte>)
    ensures U64Fold(bytes) == FromBE(bytes) % 0x1_0000_0000_0000_0000
  {
    if bytes != [] {
      FoldIsValue(bytes[..|bytes| - 1]);
      var n, b := FromBE(bytes[..|bytes| - 1]), bytes[|bytes| - 1];
      ModStep(n, b);
    }
  }

  lemma ModUnique(x: nat, q: nat, r: nat)
    requires x == q * 0x1_0000_0000_0000_0000 + r && r < 0x1_0000_0000_0000_0000
    ensures x % 0x1_0000_0000_0000_0000 == r
  {}

  lemma ModStep(n: nat, b: byte)
    ensures n % 0x1_0000_0000_0000_0000 * 256 % 0x1_0000_0000_0000_0000 + b == (n * 256 + b) % 0x1_0000_0000_0000_0000
  {
    var q, r := n / 0x1_0000_0000_0000_0000, n % 0x1_0000_0000_0000_0000;
    var h, l := r / 0x100_0000_0000_0000, r % 0x100_0000_0000_0000;
    ModUnique(r * 256, h, l * 256);
    ModUnique(n * 256 + b, q * 256 + h, l * 256 + b);
  }

  /** The RSA profile is exact for encodings of any length, and the u64 fold loses no bit of an accepted exponent. */
  lemma RsaProfileExact(modulus: seq<byte>, exponent: seq<byte>)
    ensures RequireSupportedKey(RsaKey(Some(modulus), Some(exponent))).Success? <==>
      && Pow2(MIN_RSA_BITS - 1) <= FromBE(modulus) < Pow2(MAX_RSA_BITS)
      && 3 <= FromBE(exponent) < 0x1_0000_0000
      && FromBE(exponent) % 2 == 1
  {
    hide BitLength, FromBE, U64Fold, Pow2;
    BitsAreBounds(modulus, MIN_RSA_BITS, MAX_RSA_BITS);
    BitsAreBounds(exponent, 1, MAX_EXPONENT_BITS);
    BitLengthExact(exponent);
    PowerOf32();
    FoldIsValue(exponent);
  }

  /** The answer for every key: four algorithms always, RSA by its profile with positive integers, nothing else. */
  lemma SupportedExact(key: KeyData)
    ensures RequireSupportedKey(key).Success? <==>
      match key
      case Ed25519 => true
      case Ecdsa => true
      case SkEcdsaSha2NistP256 => true
      case SkEd25519 => true
      case OtherKey => false
      case RsaKey(modulus, exponent) =>
        && modulus.Some? && exponent.Some?
        && Pow2(2047) <= FromBE(modulus.value) < Pow2(4096)
        && 3 <= FromBE(exponent.value) < 0x1_0000_0000 && FromBE(exponent.value) % 2 == 1
  {
    hide FromBE, FirstNonzero, U64Fold, Pow2;
    match key
    case RsaKey(Some(modulus), Some(exponent)) => RsaProfileExact(modulus, exponent);
    case _ =>
  }

  lemma PowerOf32()
    ensures Pow2(0) == 1 && Pow2(32) == 0x1_0000_0000
  {
    Shift(0);
    Shift(8);
    Shift(16);
    Shift(24);
  }
}
