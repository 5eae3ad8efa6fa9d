/**
 * Fixed-width integer helpers shared by the firmware and receiver models.
 * Integers in Dafny are unbounded; every truncation, saturation or wrap-around
 * that the C code performs is written out here.
 */
module Bits {
  /** An 8-bit unsigned value (uint8_t, Python bytes element). */
  type byte = bv8

  /** The q15_t / int16_t range. */
  type int16 = x: int | -32768 <= x <= 32767

  predicate IsInt16(x: int) { -32768 <= x <= 32767 }

  /** Magnitude of an integer. */
  function Abs(x: int): nat { if x < 0 then -x else x }

  /** Conversion of any integer to int16_t: keep the low 16 bits, two's complement. */
  function Wrap16(x: int): (r: int16)
    ensures (r - x) % 65536 == 0
    ensures IsInt16(x) ==> r == x
  {
    var m := x % 65536;
    if m >= 32768 then m - 65536 else m
  }

  /** The int32_t range. */
  type int32 = x: int | -0x8000_0000 <= x < 0x8000_0000

  /** Two's-complement wrap-around of an int32_t result (what the Cortex-M core does). */
  function Wrap32(x: int): (r: int32)
    ensures (r - x) % 0x1_0000_0000 == 0
    ensures -0x8000_0000 <= x < 0x8000_0000 ==> r == x
  {
    var m := x % 0x1_0000_0000;
    if m >= 0x8000_0000 then m - 0x1_0000_0000 else m
  }

  /** __SSAT(x, 16): clamp to the int16 range. */
  function Sat16(x: int): (r: int16)
    ensures IsInt16(x) ==> r == x
    ensures x > 32767 ==> r == 32767
    ensures x < -32768 ==> r == -32768
  {
    if x > 32767 then 32767 else if x < -32768 then -32768 else x
  }

  /** C's `/` on signed integers, which truncates toward zero (Dafny's rounds down). */
  function CDiv(a: int, b: int): int
    requires b != 0
  {
    var m := Abs(a) / Abs(b);
    if (a >= 0) == (b > 0) || a == 0 then m else -m
  }

  /** `(uint8_t)(v >> 8)` for a signed v: arithmetic shift, then keep the low byte. */
  function HighByte(v: int): byte
  {
    ToByte((v / 256) % 256)
  }

  /** `(uint8_t)v` for 0 <= v < 256: the byte whose value is v, built bit by bit from the top. */
  function ToByte(v: int): (b: byte)
    requires 0 <= v < 256
    ensures b as int == v
  {
    if v == 0 then 0
    else
      var h := ToByte(v / 2);
      DoubleBits(h, v % 2 == 1);
      (h << 1) | (if v % 2 == 1 then 1 else 0)
  }

  /** Two bytes with the same value are the same byte. */
  lemma ByteValueInjective(a: byte, b: byte)
    requires a as int == b as int
    ensures a == b
  {
  }

  /** Shifting a byte below 128 left by one and setting bit 0 to c doubles it and adds c. */
  lemma DoubleBits(h: byte, c: bool)
    requires h as int < 128
    ensures ((h << 1) | (if c then 1 else 0)) as int == 2 * (h as int) + (if c then 1 else 0)
  {
  }

  /** `(uint8_t)(v & 0xFF)` for a signed v in two's complement. */
  function LowByte(v: int): byte
  {
    ToByte(v % 256)
  }

  /** A measure that halves under `/ 2` for negative and positive integers alike. */
  function Mag(a: int): nat { if a >= 0 then a else -a - 1 }

  /** Bitwise XOR of two's-complement integers of unbounded width (C's `^` on int). */
  function Xor(a: int, b: int): int
    decreases Mag(a) + Mag(b)
  {
    if (a == 0 || a == -1) && (b == 0 || b == -1) then
      (if a == b then 0 else -1)
    else
      2 * Xor(a / 2, b / 2) + (a % 2 + b % 2) % 2
  }

  lemma {:induction false} XorZero(v: int)
    ensures Xor(v, 0) == v
    decreases Mag(v)
  {
    if v != 0 && v != -1 {
      XorZero(v / 2);
    }
  }

  lemma {:induction false} XorAllOnes(v: int)
    ensures Xor(v, -1) == -v - 1
    decreases Mag(v)
  {
    if v != 0 && v != -1 {
      XorAllOnes(v / 2);
    }
  }

  /**
   * The branchless absolute value `(v ^ (v >> 15)) - (v >> 15)` used on
   * 16-bit samples held in a wider int: v >> 15 is 0 or -1 (all ones).
   */
  function BranchlessAbs(v: int16): int
  {
    var sign := v / 32768;
    Xor(v, sign) - sign
  }

  /** The branchless form computes the true magnitude, 32768 included. */
  lemma BranchlessAbsIsAbs(v: int16)
    ensures BranchlessAbs(v) == Abs(v)
  {
    if v >= 0 {
      assert v / 32768 == 0;
      XorZero(v);
    } else {
      assert v / 32768 == -1;
      XorAllOnes(v);
    }
  }

  // Arithmetic facts the solver does not find unaided (products of variables).

  lemma MulNonneg(a: int, b: int)
    requires a >= 0 && b >= 0
    ensures a * b >= 0
  {
  }

  lemma MulSucc(a: int, m: int)
    ensures (a + 1) * m == a * m + m
  {
  }

  lemma MulMonotone(a: int, b: int, m: int)
    requires a <= b && m >= 0
    ensures a * m <= b * m
  {
    MulNonneg(b - a, m);
    assert b * m - a * m == (b - a) * m;
  }

  /** Division and remainder are determined by any decomposition v == k * m + s with 0 <= s < m. */
  lemma ModUnique(v: int, k: int, m: int, s: int)
    requires m > 0 && v == k * m + s && 0 <= s < m
    ensures v % m == s && v / m == k
  {
    var d, r := v / m, v % m;
    assert (d - k) * m == s - r;
    MulBounds(d - k, m);
  }

  /** A nonzero multiple of a positive m is at least m away from zero. */
  lemma MulBounds(e: int, m: int)
    requires m > 0
    ensures e >= 1 ==> e * m >= m
    ensures e <= -1 ==> e * m <= -m
  {
    if e >= 1 {
      MulMonotone(1, e, m);
    } else if e <= -1 {
      MulMonotone(e, -1, m);
    }
  }

  /** A byte held in an integer, as Python's `bytes` items and `uint8` arrays hold it. */
  type uint8 = x: int | 0 <= x < 256

  /** On a byte, `b & 0x80` tests for 128 and above and `b & 0x7F` is the remainder modulo 128. */
  lemma ByteMasks(b: byte)
    ensures (b & 0x80 != 0) == (b as int >= 128)
    ensures (b & 0x7F) as int == b as int % 128
  {
  }

  /** Setting the high bit of a byte below 0x80 adds 0x80. */
  lemma HighBitOr(b: byte)
    requires b < 0x80
    ensures 0x80 | b == 0x80 + b
  {
  }
}
