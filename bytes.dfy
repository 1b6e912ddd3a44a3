/** Fixed-width integers of the decoder and the little-endian assembly
    that `from_le_bytes` performs.

    Fixed-width values are subsets of `int`. On an unsigned value a right
    shift `x >> k` is the quotient `x / 2^k` and a mask `x & (2^k - 1)` is the
    remainder `x % 2^k`; the decoders below write their shifts and masks in
    that form. */
module Bytes {

  type uint8 = x: int | 0 <= x < 0x100
  type uint16 = x: int | 0 <= x < 0x1_0000
  type uint32 = x: int | 0 <= x < 0x1_0000_0000
  type int8 = x: int | -0x80 <= x < 0x80
  type int16 = x: int | -0x8000 <= x < 0x8000
  type int32 = x: int | -0x8000_0000 <= x < 0x8000_0000

  /** 256 to the power n: one more than the largest n-byte unsigned value. */
  function Pow256(n: nat): (p: nat)
    ensures p >= 1
  {
    if n == 0 then 1 else 256 * Pow256(n - 1)
  }

  /** Unsigned little-endian value of a byte sequence: the first byte is the
      least significant. */
  function LeUint(b: seq<uint8>): nat
  {
    if b == [] then 0 else b[0] + 256 * LeUint(b[1..])
  }

  /** The n-byte little-endian encoding of x. */
  function EncodeLe(x: nat, n: nat): (b: seq<uint8>)
    requires x < Pow256(n)
    ensures |b| == n
  {
    if n == 0 then [] else [x % 256] + EncodeLe(x / 256, n - 1)
  }

  lemma {:induction false} LeUintBound(b: seq<uint8>)
    ensures LeUint(b) < Pow256(|b|)
  {
    if b != [] {
      LeUintBound(b[1..]);
    }
  }

  /** Decoding an encoding gives back the value. */
  lemma {:induction false} LeUintOfEncodeLe(x: nat, n: nat)
    requires x < Pow256(n)
    ensures LeUint(EncodeLe(x, n)) == x
  {
    if n > 0 {
      var b := EncodeLe(x, n);
      assert b[1..] == EncodeLe(x / 256, n - 1);
      LeUintOfEncodeLe(x / 256, n - 1);
    }
  }

  /** Encoding a decoded value gives back the bytes. */
  lemma {:induction false} EncodeLeOfLeUint(b: seq<uint8>)
    ensures LeUint(b) < Pow256(|b|)
    ensures EncodeLe(LeUint(b), |b|) == b
  {
    LeUintBound(b);
    if b != [] {
      EncodeLeOfLeUint(b[1..]);
      var x := LeUint(b);
      assert x % 256 == b[0] && x / 256 == LeUint(b[1..]);
    }
  }

  /** Two's-complement reading of an unsigned value below `modulus` (a power
      of two): Rust's `as` cast from an unsigned type to the signed type of the
      same width. */
  function ToSigned(u: nat, modulus: nat): int
    requires 0 < modulus
  {
    if u < modulus / 2 then u else u - modulus
  }

  /** The unsigned pattern, modulo `modulus`, of a signed value. */
  function FromSigned(x: int, modulus: nat): nat
    requires 0 < modulus && -(modulus / 2) <= x < modulus / 2
  {
    if x < 0 then x + modulus else x
  }

  lemma Pow256Values()
    ensures Pow256(1) == 0x100 && Pow256(2) == 0x1_0000 && Pow256(4) == 0x1_0000_0000
  {
  }

  /** `b as i8` for a byte. */
  function AsInt8(b: uint8): (r: int8)
    ensures 0 <= b < 0x80 ==> r == b
    ensures 0x80 <= b ==> r == b - 0x100
  {
    Pow256Values();
    ToSigned(b, 0x100)
  }

  /** `u16::from_le_bytes`. */
  function LeU16(b: seq<uint8>): (r: uint16)
    requires |b| == 2
    ensures r == b[0] as int + 0x100 * b[1] as int
  {
    assert b[1..][1..] == [];
    LeUintBound(b);
    Pow256Values();
    LeUint(b)
  }

  /** Division by a bit-field divisor is determined by quotient and remainder:
      the step `(x >> k, x & mask)` takes apart. */
  lemma DivModOf(b: int, d: int, q: int, r: int)
    requires d == 2 || d == 4 || d == 8 || d == 16 || d == 32
    requires 0 <= r < d && b == d * q + r
    ensures b / d == q && b % d == r
  {
    if d == 2 {
      assert b == 2 * q + r;
    } else if d == 4 {
      assert b == 4 * q + r;
    } else if d == 8 {
      assert b == 8 * q + r;
    } else if d == 16 {
      assert b == 16 * q + r;
    } else {
      assert b == 32 * q + r;
    }
  }

  /** The four-byte value written out, byte by byte. */
  lemma LeUintFour(b: seq<uint8>)
    requires |b| == 4
    ensures LeUint(b) == b[0] as int + 0x100 * b[1] as int + 0x1_0000 * b[2] as int + 0x100_0000 * b[3] as int
  {
    var b1, b2, b3 := b[1..], b[2..], b[3..];
    assert b3[1..] == [];
    assert LeUint(b3) == b[3] as int;
    assert b2[1..] == b3;
    assert LeUint(b2) == b[2] as int + 256 * b[3] as int;
    assert b1[1..] == b2;
    assert LeUint(b1) == b[1] as int + 256 * LeUint(b2);
  }

  /** `u32::from_le_bytes`. */
  function LeU32(b: seq<uint8>): (r: uint32)
    requires |b| == 4
    ensures r == LeUint(b)
  {
    LeUintBound(b);
    Pow256Values();
    LeUint(b)
  }

  /** `i16::from_le_bytes`. */
  function LeI16(b: seq<uint8>): (r: int16)
    requires |b| == 2
    ensures r == if LeU16(b) < 0x8000 then LeU16(b) else LeU16(b) - 0x1_0000
  {
    Pow256Values();
    ToSigned(LeU16(b), 0x1_0000)
  }

  /** `i32::from_le_bytes`. */
  function LeI32(b: seq<uint8>): (r: int32)
    requires |b| == 4
    ensures r == if LeU32(b) < 0x8000_0000 then LeU32(b) else LeU32(b) - 0x1_0000_0000
  {
    Pow256Values();
    ToSigned(LeU32(b), 0x1_0000_0000)
  }

  /** `i32::to_le_bytes`, the inverse of `LeI32`. */
  function EncodeI32(x: int32): (b: seq<uint8>)
    ensures |b| == 4
  {
    Pow256Values();
    EncodeLe(FromSigned(x, 0x1_0000_0000), 4)
  }

  /** `i16::to_le_bytes`, the inverse of `LeI16`. */
  function EncodeI16(x: int16): (b: seq<uint8>)
    ensures |b| == 2
  {
    Pow256Values();
    EncodeLe(FromSigned(x, 0x1_0000), 2)
  }

  /** `u16::to_le_bytes`, the inverse of `LeU16`. */
  function EncodeU16(x: uint16): (b: seq<uint8>)
    ensures |b| == 2
  {
    Pow256Values();
    EncodeLe(x, 2)
  }

  /** `u32::to_le_bytes`, the inverse of `LeU32`. */
  function EncodeU32(x: uint32): (b: seq<uint8>)
    ensures |b| == 4
  {
    Pow256Values();
    EncodeLe(x, 4)
  }

  /** Every 32-bit signed value survives encode-then-decode, `i32::MIN` and
      `i32::MAX` included; and every 4 bytes survive decode-then-encode. */
  lemma I32RoundTrip(x: int32, b: seq<uint8>)
    requires |b| == 4
    ensures LeI32(EncodeI32(x)) == x
    ensures EncodeI32(LeI32(b)) == b
  {
    Pow256Values();
    LeUintOfEncodeLe(FromSigned(x, 0x1_0000_0000), 4);
    EncodeLeOfLeUint(b);
  }

  lemma I16RoundTrip(x: int16, b: seq<uint8>)
    requires |b| == 2
    ensures LeI16(EncodeI16(x)) == x
    ensures EncodeI16(LeI16(b)) == b
  {
    Pow256Values();
    LeUintOfEncodeLe(FromSigned(x, 0x1_0000), 2);
    EncodeLeOfLeUint(b);
  }

  lemma U16RoundTrip(x: uint16, b: seq<uint8>)
    requires |b| == 2
    ensures LeU16(EncodeU16(x)) == x
    ensures EncodeU16(LeU16(b)) == b
  {
    Pow256Values();
    LeUintOfEncodeLe(x, 2);
    EncodeLeOfLeUint(b);
  }

  lemma U32RoundTrip(x: uint32, b: seq<uint8>)
    requires |b| == 4
    ensures LeU32(EncodeU32(x)) == x
    ensures EncodeU32(LeU32(b)) == b
  {
    Pow256Values();
    LeUintOfEncodeLe(x, 4);
    EncodeLeOfLeUint(b);
  }

  /** `x as u8` for an 8-bit signed value: the inverse of `AsInt8`. */
  function FromInt8(x: int8): (b: uint8)
    ensures AsInt8(b) == x
  {
    if x < 0 then x + 0x100 else x
  }
}
