/**
 * Single-bit error detection by the packet parser's CRC-8. With an odd
 * generator a shift step maps distinct 8-bit registers to distinct
 * registers, so two payloads that differ in one byte reach that byte with
 * the same register, leave it with different registers, and keep them
 * different to the end.
 */
module CrcErrorDetection {
  import opened Bits
  import opened PacketParser

  /** The payload with bit k flipped, bits counted most significant first as np.unpackbits numbers them. */
  function FlipBit(d: seq<byte>, k: nat): (r: seq<byte>)
    requires k < 8 * |d|
    ensures |r| == |d| && r[k / 8] != d[k / 8]
    ensures forall i :: 0 <= i < |d| && i != k / 8 ==> r[i] == d[i]
  {
    var m: byte := 0x80 >> (k % 8);
    assert m != 0 && d[k / 8] ^ m != d[k / 8];
    d[k / 8 := d[k / 8] ^ m]
  }

  /**
   * The inverse of a shift step on 8-bit registers for an odd generator:
   * the low bit of the result says whether the generator was XORed in.
   */
  function UnshiftStep(s: bv64, poly: byte): bv64
  {
    if s & 1 != 0 then (s ^ (0x100 | poly as bv64)) >> 1 else s >> 1
  }

  /** UnshiftStep undoes a shift step on any register below 2^8. */
  lemma ShiftStepInverse(r: bv64, poly: byte)
    requires r < 0x100 && poly & 1 == 1
    ensures UnshiftStep(ShiftStep(r, poly), poly) == r
  {
    if r < 0x80 {
      ShiftStepLowHalf(r, poly);
    } else {
      ShiftStepHighHalf(r, poly);
    }
  }

  /** Below 0x80 a shift step only doubles the register, leaving the low bit clear. */
  lemma ShiftStepLowHalf(r: bv64, poly: byte)
    requires r < 0x80
    ensures ShiftStep(r, poly) == r << 1 && (r << 1) & 1 == 0 && (r << 1) >> 1 == r
  {
  }

  /** From 0x80 up a shift step XORs the generator in, which sets the low bit when poly is odd. */
  lemma ShiftStepHighHalf(r: bv64, poly: byte)
    requires 0x80 <= r < 0x100 && poly & 1 == 1
    ensures ShiftStep(r, poly) & 1 != 0
    ensures (ShiftStep(r, poly) ^ (0x100 | poly as bv64)) >> 1 == r
  {
  }

  /** With an odd generator a shift step is one-to-one on 8-bit registers. */
  lemma ShiftStepInjective(r1: bv64, r2: bv64, poly: byte)
    requires r1 < 0x100 && r2 < 0x100 && r1 != r2 && poly & 1 == 1
    ensures ShiftStep(r1, poly) != ShiftStep(r2, poly)
  {
    ShiftStepInverse(r1, poly);
    ShiftStepInverse(r2, poly);
  }

  lemma {:induction false} ShiftStepsInjective(r1: bv64, r2: bv64, poly: byte, k: nat)
    requires r1 < 0x100 && r2 < 0x100 && r1 != r2 && poly & 1 == 1
    ensures ShiftSteps(r1, poly, k) != ShiftSteps(r2, poly, k)
  {
    if k > 0 {
      ShiftStepsInjective(r1, r2, poly, k - 1);
      ShiftStepsBound(r1, poly, k - 1);
      ShiftStepsBound(r2, poly, k - 1);
      ShiftStepInjective(ShiftSteps(r1, poly, k - 1), ShiftSteps(r2, poly, k - 1), poly);
    }
  }

  /** Without reflection, XORing the input byte in is undone by XORing with the byte or with the register. */
  lemma CrcInputInverse(r: bv64, x: byte)
    ensures CrcInput(r, x, false) ^ x as bv64 == r
    ensures (CrcInput(r, x, false) ^ r) as byte == x
  {
  }

  /** XORing a byte into the register is one-to-one in the register... */
  lemma CrcInputInjectiveInRegister(r1: bv64, r2: bv64, x: byte)
    requires r1 != r2
    ensures CrcInput(r1, x, false) != CrcInput(r2, x, false)
  {
    CrcInputInverse(r1, x);
    CrcInputInverse(r2, x);
  }

  /** ...and in the byte. */
  lemma CrcInputInjectiveInByte(r: bv64, x1: byte, x2: byte)
    requires x1 != x2
    ensures CrcInput(r, x1, false) != CrcInput(r, x2, false)
  {
    CrcInputInverse(r, x1);
    CrcInputInverse(r, x2);
  }

  /** Distinct registers below 2^8 are distinct bytes. */
  lemma NarrowInjective(a: bv64, b: bv64)
    requires a < 0x100 && b < 0x100 && a != b
    ensures a as byte != b as byte
  {
  }

  /** Processing one byte without reflection is one-to-one in the register and in the byte. */
  lemma CrcByteInjective(r1: bv64, r2: bv64, x1: byte, x2: byte, poly: byte)
    requires r1 < 0x100 && r2 < 0x100 && poly & 1 == 1
    requires (r1 != r2 && x1 == x2) || (r1 == r2 && x1 != x2)
    ensures CrcByte(r1, x1, poly, false) != CrcByte(r2, x2, poly, false)
  {
    if x1 == x2 {
      CrcInputInjectiveInRegister(r1, r2, x1);
    } else {
      CrcInputInjectiveInByte(r1, x1, x2);
    }
    ShiftStepsInjective(CrcInput(r1, x1, false), CrcInput(r2, x2, false), poly, BITS_PER_BYTE);
  }

  /** The same data from two different 8-bit registers ends in two different registers. */
  lemma {:induction false} CrcFoldInjective(data: seq<byte>, r1: bv64, r2: bv64, poly: byte)
    requires r1 < 0x100 && r2 < 0x100 && r1 != r2 && poly & 1 == 1
    ensures CrcFold(data, r1, poly, false) != CrcFold(data, r2, poly, false)
    decreases |data|
  {
    if data != [] {
      CrcByteInjective(r1, r2, data[0], data[0], poly);
      CrcByteBound(r1, data[0], poly, false);
      CrcByteBound(r2, data[0], poly, false);
      CrcFoldInjective(data[1..], CrcByte(r1, data[0], poly, false), CrcByte(r2, data[0], poly, false), poly);
    }
  }

  /** Two payloads of the same length that differ in exactly one byte have different CRC registers. */
  lemma CrcFoldOneByteDiffers(d: seq<byte>, e: seq<byte>, q: nat, crc: bv64, poly: byte)
    requires |d| == |e| && q < |d| && d[q] != e[q] && crc < 0x100 && poly & 1 == 1
    requires forall i :: 0 <= i < |d| && i != q ==> d[i] == e[i]
    ensures CrcFold(d, crc, poly, false) != CrcFold(e, crc, poly, false)
  {
    var pre, post := d[..q], d[q + 1..];
    assert d == pre + ([d[q]] + post);
    assert e == pre + ([e[q]] + post);
    CrcFoldAppend(pre, [d[q]] + post, crc, poly, false);
    CrcFoldAppend(pre, [e[q]] + post, crc, poly, false);
    var r := CrcFold(pre, crc, poly, false);
    CrcFoldBound(pre, crc, poly, false);
    assert ([d[q]] + post)[1..] == post && ([e[q]] + post)[1..] == post;
    CrcByteInjective(r, r, d[q], e[q], poly);
    CrcByteBound(r, d[q], poly, false);
    CrcByteBound(r, e[q], poly, false);
    CrcFoldInjective(post, CrcByte(r, d[q], poly, false), CrcByte(r, e[q], poly, false), poly);
  }

  /** Flipping any single bit of a payload changes its CRC-8, so the parser reports the packet as incorrect. */
  lemma Crc8DetectsSingleBitError(d: seq<byte>, k: nat)
    requires k < 8 * |d|
    ensures Crc8(FlipBit(d, k)) != Crc8(d)
  {
    var e := FlipBit(d, k);
    CrcFoldOneByteDiffers(e, d, k / 8, 0xFF, 0x07);
    CrcFoldBound(e, 0xFF, 0x07, false);
    CrcFoldBound(d, 0xFF, 0x07, false);
    NarrowInjective(CrcFold(e, 0xFF, 0x07, false), CrcFold(d, 0xFF, 0x07, false));
  }
}
