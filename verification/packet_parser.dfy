/**
 * The receiver's packet parser block: bit reflection, the bit-serial CRC,
 * sync-word alignment by correlation, and the fixed-rate parser state
 * (packet and error counters, published payload metadata).
 */
module PacketParser {
  import opened Wrappers
  import opened Bits
  import opened Seqs

  /** A bit as numpy's unpackbits produces it. */
  type bit = x: int | 0 <= x <= 1

  datatype ValueError = UnsupportedWidth

  // ---------------------------------------------------------------------
  // reflect_data, on Python integers below 2^64
  // ---------------------------------------------------------------------

  /** Bit k (counting from the least significant bit) of x. */
  function BitOf(x: bv64, k: nat): bv64
    requires k < 64
  {
    (x >> k) & 1
  }

  /** The mask-and-shift stages of the bit reversal, one function per width. */
  function Reflect8(x: bv64): bv64
  {
    var x1 := ((x & 0x55) << 1) | ((x & 0xAA) >> 1);
    var x2 := ((x1 & 0x33) << 2) | ((x1 & 0xCC) >> 2);
    ((x2 & 0x0F) << 4) | ((x2 & 0xF0) >> 4)
  }

  function Reflect16(x: bv64): bv64
  {
    var x1 := ((x & 0x5555) << 1) | ((x & 0xAAAA) >> 1);
    var x2 := ((x1 & 0x3333) << 2) | ((x1 & 0xCCCC) >> 2);
    var x3 := ((x2 & 0x0F0F) << 4) | ((x2 & 0xF0F0) >> 4);
    ((x3 & 0x00FF) << 8) | ((x3 & 0xFF00) >> 8)
  }

  function Reflect32(x: bv64): bv64
  {
    var x1 := ((x & 0x5555_5555) << 1) | ((x & 0xAAAA_AAAA) >> 1);
    var x2 := ((x1 & 0x3333_3333) << 2) | ((x1 & 0xCCCC_CCCC) >> 2);
    var x3 := ((x2 & 0x0F0F_0F0F) << 4) | ((x2 & 0xF0F0_F0F0) >> 4);
    var x4 := ((x3 & 0x00FF_00FF) << 8) | ((x3 & 0xFF00_FF00) >> 8);
    ((x4 & 0x0000_FFFF) << 16) | ((x4 & 0xFFFF_0000) >> 16)
  }

  /**
   * Reverses the order of the low `width` bits of x (higher bits are dropped);
   * only widths 8, 16 and 32 are supported, any other width is an error.
   */
  function ReflectData(x: bv64, width: int): (r: Result<bv64, ValueError>)
    ensures r.Failure? <==> width !in {8, 16, 32}
    ensures width == 8 ==> r.value < 0x100
    ensures width == 16 ==> r.value < 0x1_0000
    ensures width == 32 ==> r.value < 0x1_0000_0000
  {
    if width == 8 then Success(Reflect8(x))
    else if width == 16 then Success(Reflect16(x))
    else if width == 32 then Success(Reflect32(x))
    else Failure(UnsupportedWidth)
  }

  /** With width 8, bit k of the result is bit 7 - k of the input. */
  lemma ReflectByteReverses(x: bv64, k: nat)
    requires k < 8
    ensures BitOf(ReflectData(x, 8).value, k) == BitOf(x, 7 - k)
  {
    if k < 4 {
      ReflectLowBits(x, k);
    } else {
      ReflectHighBits(x, k);
    }
  }

  lemma ReflectLowBits(x: bv64, k: nat)
    requires k < 4
    ensures BitOf(Reflect8(x), k) == BitOf(x, 7 - k)
  {
    var r := Reflect8(x);
    if k == 0 { assert BitOf(r, 0) == BitOf(x, 7); }
    else if k == 1 { assert BitOf(r, 1) == BitOf(x, 6); }
    else if k == 2 { assert BitOf(r, 2) == BitOf(x, 5); }
    else { assert BitOf(r, 3) == BitOf(x, 4); }
  }

  lemma ReflectHighBits(x: bv64, k: nat)
    requires 4 <= k < 8
    ensures BitOf(Reflect8(x), k) == BitOf(x, 7 - k)
  {
    var r := Reflect8(x);
    if k == 4 { assert BitOf(r, 4) == BitOf(x, 3); }
    else if k == 5 { assert BitOf(r, 5) == BitOf(x, 2); }
    else if k == 6 { assert BitOf(r, 6) == BitOf(x, 1); }
    else { assert BitOf(r, 7) == BitOf(x, 0); }
  }

  /** Reflecting a byte twice gives the byte back. */
  lemma ReflectByteInvolution(x: bv64)
    requires x < 0x100
    ensures ReflectData(ReflectData(x, 8).value, 8) == Success(x)
  {
  }

  /** Reflecting 16 or 32 bits twice gives the value back. */
  lemma ReflectWideInvolution(x: bv64)
    ensures x < 0x1_0000 ==> ReflectData(ReflectData(x, 16).value, 16) == Success(x)
    ensures x < 0x1_0000_0000 ==> ReflectData(ReflectData(x, 32).value, 32) == Success(x)
  {
  }

  // ---------------------------------------------------------------------
  // crc_poly for an 8-bit register (n = 8, the width the parser uses).
  // The register is a 64-bit vector, wide enough for the register shifted
  // left once; the generator is 1 << 8 | poly.
  // ---------------------------------------------------------------------

  /** The inner loop runs once per bit of a byte. */
  const BITS_PER_BYTE: nat := 8

  /** n, the register width. */
  const CRC_WIDTH: bv64 := 8

  /** One iteration of the inner loop: shift left, reduce by g when bit 8 is set. */
  function ShiftStep(crc: bv64, poly: byte): bv64
  {
    var c := crc << 1;
    if c & 0x100 != 0 then c ^ (0x100 | poly as bv64) else c
  }

  /** k iterations of the inner loop. */
  function ShiftSteps(crc: bv64, poly: byte, k: nat): bv64
  {
    if k == 0 then crc else ShiftStep(ShiftSteps(crc, poly, k - 1), poly)
  }

  /** The register with the (optionally reflected) input byte XORed under its top byte. */
  function CrcInput(crc: bv64, d: byte, refIn: bool): (x: bv64)
    ensures crc < 0x100 ==> x < 0x100
  {
    var d' := if refIn then ReflectData(d as bv64, 8).value else d as bv64;
    crc ^ (d' << (CRC_WIDTH - 8))
  }

  /** One pass of the outer loop: XOR the byte in, then eight shift steps. */
  function CrcByte(crc: bv64, d: byte, poly: byte, refIn: bool): bv64
  {
    ShiftSteps(CrcInput(crc, d, refIn), poly, BITS_PER_BYTE)
  }

  /** The register after the whole data loop, from the front of the data. */
  function CrcFold(data: seq<byte>, crc: bv64, poly: byte, refIn: bool): bv64
    decreases |data|
  {
    if data == [] then crc else CrcFold(data[1..], CrcByte(crc, data[0], poly, refIn), poly, refIn)
  }

  /** crc_poly as a function: the folded register, reflected on request, then XORed with xorOut. */
  function CrcPolySpec(data: seq<byte>, poly: byte, crc: bv64, refIn: bool, refOut: bool, xorOut: bv64): bv64
  {
    var c := CrcFold(data, crc, poly, refIn);
    if refOut then ReflectData(c, 8).value ^ xorOut else c ^ xorOut
  }

  /** A shift step keeps the register below 2^8. */
  lemma ShiftStepBound(crc: bv64, poly: byte)
    requires crc < 0x100
    ensures ShiftStep(crc, poly) < 0x100
  {
  }

  lemma {:induction false} ShiftStepsBound(crc: bv64, poly: byte, k: nat)
    requires crc < 0x100
    ensures ShiftSteps(crc, poly, k) < 0x100
  {
    if k > 0 {
      ShiftStepsBound(crc, poly, k - 1);
      ShiftStepBound(ShiftSteps(crc, poly, k - 1), poly);
    }
  }

  /** Processing one byte keeps the register below 2^8. */
  lemma CrcByteBound(crc: bv64, d: byte, poly: byte, refIn: bool)
    requires crc < 0x100
    ensures CrcByte(crc, d, poly, refIn) < 0x100
  {
    var x := CrcInput(crc, d, refIn);
    ShiftStepsBound(x, poly, BITS_PER_BYTE);
  }

  /** Started below 256, the register stays below 256 after every byte, so the CRC is a byte. */
  lemma {:induction false} CrcFoldBound(data: seq<byte>, crc: bv64, poly: byte, refIn: bool)
    requires crc < 0x100
    ensures CrcFold(data, crc, poly, refIn) < 0x100
    decreases |data|
  {
    if data != [] {
      CrcByteBound(crc, data[0], poly, refIn);
      CrcFoldBound(data[1..], CrcByte(crc, data[0], poly, refIn), poly, refIn);
    }
  }

  /** The CRC is a left fold over the data: processing a ++ b is processing b after a. */
  lemma {:induction false} CrcFoldAppend(a: seq<byte>, b: seq<byte>, crc: bv64, poly: byte, refIn: bool)
    ensures CrcFold(a + b, crc, poly, refIn) == CrcFold(b, CrcFold(a, crc, poly, refIn), poly, refIn)
    decreases |a|
  {
    if a == [] {
      assert a + b == b;
    } else {
      assert (a + b)[0] == a[0] && (a + b)[1..] == a[1..] + b;
      CrcFoldAppend(a[1..], b, CrcByte(crc, a[0], poly, refIn), poly, refIn);
    }
  }

  /** Empty data returns the initial register (XORed with xorOut). */
  lemma CrcEmpty(crc: bv64, poly: byte, xorOut: bv64)
    ensures CrcPolySpec([], poly, crc, false, false, xorOut) == crc ^ xorOut
  {
  }

  /** With an initial value and final XOR below 2^8, crc_poly with n = 8 yields a byte. */
  lemma CrcPolySpecBound(data: seq<byte>, poly: byte, crc0: bv64, refIn: bool, refOut: bool, xorOut: bv64)
    requires crc0 < 0x100 && xorOut < 0x100
    ensures CrcPolySpec(data, poly, crc0, refIn, refOut, xorOut) < 0x100
  {
    CrcFoldBound(data, crc0, poly, refIn);
  }

  /** The inner loop of crc_poly: eight shift-and-reduce steps on the register. */
  method ShiftByte(crc0: bv64, poly: byte) returns (crc: bv64)
    ensures crc == ShiftSteps(crc0, poly, BITS_PER_BYTE)
  {
    var n := CRC_WIDTH;
    var g := (1 << n) | poly as bv64;
    crc := crc0;
    var k := 0;
    while k < BITS_PER_BYTE
      invariant 0 <= k <= BITS_PER_BYTE
      invariant crc == ShiftSteps(crc0, poly, k)
    {
      crc := crc << 1;
      if crc & (1 << n) != 0 {
        crc := crc ^ g;
      }
      k := k + 1;
    }
  }

  /**
   * The data loop of crc_poly with n = 8: the register is updated per byte,
   * then bit by bit, exactly as the nested loops do.
   */
  method CrcRegister(data: seq<byte>, poly: byte, crc0: bv64, refIn: bool) returns (crc: bv64)
    ensures crc == CrcFold(data, crc0, poly, refIn)
  {
    crc := crc0;
    var i := 0;
    while i < |data|
      invariant 0 <= i <= |data|
      invariant CrcFold(data[i..], crc, poly, refIn) == CrcFold(data, crc0, poly, refIn)
    {
      crc := CrcInput(crc, data[i], refIn);
      crc := ShiftByte(crc, poly);
      assert data[i..][0] == data[i] && data[i..][1..] == data[i + 1..];
      i := i + 1;
    }
    assert data[i..] == [];
  }

  /**
   * crc_poly with n = 8: the data loop, then the optional output reflection and
   * the final XOR.
   */
  method CrcPoly(data: seq<byte>, poly: byte, crc0: bv64, refIn: bool, refOut: bool, xorOut: bv64)
    returns (r: bv64)
    ensures r == CrcPolySpec(data, poly, crc0, refIn, refOut, xorOut)
  {
    var crc := CrcRegister(data, poly, crc0, refIn);
    ghost var folded := crc;
    if refOut {
      var reflected := ReflectData(crc, 8);
      crc := reflected.value;
    }
    assert crc == if refOut then ReflectData(folded, 8).value else folded;
    r := crc ^ xorOut;
  }

  /** CRC-8 as the parser computes it: polynomial 0x07, initial value 0xFF, no reflection, no final XOR. */
  function Crc8(payload: seq<byte>): byte
  {
    CrcFoldBound(payload, 0xFF, 0x07, false);
    CrcFold(payload, 0xFF, 0x07, false) as byte
  }

  /** The parser's CRC-8 is crc_poly with its parameters; the value fits in a byte. */
  lemma Crc8IsCrcPoly(payload: seq<byte>)
    ensures CrcPolySpec(payload, 0x07, 0xFF, false, false, 0) == Crc8(payload) as bv64
  {
    CrcFoldBound(payload, 0xFF, 0x07, false);
  }

  // ---------------------------------------------------------------------
  // numpy unpackbits / packbits (most significant bit first)
  // ---------------------------------------------------------------------

  function Pow2(n: nat): (r: nat)
    ensures r >= 1
  {
    if n == 0 then 1 else 2 * Pow2(n - 1)
  }

  /** The value of a bit string read most significant bit first. */
  function BitsValue(bs: seq<bit>): (v: nat)
    ensures v < Pow2(|bs|)
  {
    if bs == [] then 0 else 2 * BitsValue(bs[..|bs| - 1]) + bs[|bs| - 1]
  }

  /** The n low bits of v, most significant first. */
  function BitsOf(v: nat, n: nat): (bs: seq<bit>)
    ensures |bs| == n
  {
    if n == 0 then [] else BitsOf(v / 2, n - 1) + [v % 2]
  }

  lemma {:induction false} BitsOfValue(v: nat, n: nat)
    requires v < Pow2(n)
    ensures BitsValue(BitsOf(v, n)) == v
  {
    if n > 0 {
      BitsOfValue(v / 2, n - 1);
      var bs := BitsOf(v, n);
      assert bs[..|bs| - 1] == BitsOf(v / 2, n - 1);
    }
  }

  lemma {:induction false} ValueBitsOf(bs: seq<bit>)
    ensures BitsOf(BitsValue(bs), |bs|) == bs
  {
    if bs != [] {
      ValueBitsOf(bs[..|bs| - 1]);
    }
  }

  /** The eight bits of a byte, most significant first. */
  function ByteBits(x: byte): (bs: seq<bit>)
    ensures |bs| == 8
  {
    BitsOf(x as nat, BITS_PER_BYTE)
  }

  /** np.unpackbits: the bits of every byte in turn. */
  function Unpack(data: seq<byte>): (bs: seq<bit>)
    ensures |bs| == 8 * |data|
  {
    if data == [] then [] else ByteBits(data[0]) + Unpack(data[1..])
  }

  /** The byte whose bits (most significant first) are bs. */
  function BitsByte(bs: seq<bit>): byte
    requires |bs| == 8
  {
    assert Pow2(8) == 256;
    ToByte(BitsValue(bs))
  }

  /** np.packbits: groups of eight bits, the last group padded with zero bits. */
  function Pack(bs: seq<bit>): (data: seq<byte>)
    ensures |data| == (|bs| + 7) / 8
  {
    if bs == [] then []
    else if |bs| < 8 then [BitsByte(bs + seq(8 - |bs|, _ => 0))]
    else [BitsByte(bs[..8])] + Pack(bs[8..])
  }

  lemma ByteBitsRoundTrip(x: byte)
    ensures BitsByte(ByteBits(x)) == x
  {
    assert Pow2(8) == 256;
    BitsOfValue(x as nat, 8);
    ByteValueInjective(BitsByte(ByteBits(x)), x);
  }

  lemma BitsByteRoundTrip(bs: seq<bit>)
    requires |bs| == 8
    ensures ByteBits(BitsByte(bs)) == bs
  {
    assert Pow2(8) == 256;
    ValueBitsOf(bs);
  }

  /** packbits undoes unpackbits. */
  lemma {:induction false} PackUnpack(data: seq<byte>)
    ensures Pack(Unpack(data)) == data
  {
    if data != [] {
      var bs := Unpack(data);
      assert bs[..8] == ByteBits(data[0]);
      assert bs[8..] == Unpack(data[1..]);
      ByteBitsRoundTrip(data[0]);
      PackUnpack(data[1..]);
    }
  }

  /** unpackbits undoes packbits on whole bytes. */
  lemma {:induction false} UnpackPack(bs: seq<bit>)
    requires |bs| % 8 == 0
    ensures Unpack(Pack(bs)) == bs
  {
    if bs != [] {
      BitsByteRoundTrip(bs[..8]);
      var p := Pack(bs);
      assert p[0] == BitsByte(bs[..8]) && p[1..] == Pack(bs[8..]);
      UnpackPack(bs[8..]);
      assert bs[..8] + bs[8..] == bs;
    }
  }

  lemma {:induction false} UnpackAppend(a: seq<byte>, b: seq<byte>)
    ensures Unpack(a + b) == Unpack(a) + Unpack(b)
  {
    if a == [] {
      assert a + b == b;
    } else {
      assert (a + b)[0] == a[0] && (a + b)[1..] == a[1..] + b;
      UnpackAppend(a[1..], b);
    }
  }

  /** The bits after the first q bytes are the bits of the remaining bytes. */
  lemma UnpackDrop(data: seq<byte>, q: nat)
    requires q <= |data|
    ensures Unpack(data)[8 * q..] == Unpack(data[q..])
  {
    var a, b := data[..q], data[q..];
    assert data == a + b;
    UnpackAppend(a, b);
  }

  /** The first 8n bits are the bits of the first n bytes. */
  lemma UnpackTake(data: seq<byte>, n: nat)
    requires n <= |data|
    ensures Unpack(data)[..8 * n] == Unpack(data[..n])
  {
    var a, b := data[..n], data[n..];
    assert data == a + b;
    UnpackAppend(a, b);
  }

  /** The bits of bytes q .. q+len-1 are bits 8q .. 8(q+len)-1 of the unpacked stream. */
  lemma UnpackSlice(data: seq<byte>, q: nat, len: nat)
    requires q + len <= |data|
    ensures Unpack(data)[8 * q .. 8 * (q + len)] == Unpack(data[q .. q + len])
  {
    var bits, rest := Unpack(data), data[q..];
    var lo, hi := 8 * q, 8 * (q + len);
    UnpackDrop(data, q);
    UnpackTake(rest, len);
    assert rest[..len] == data[q .. q + len];
    assert hi - lo == 8 * len;
    DropTake(bits, lo, hi);
  }

  lemma DropTake<T>(s: seq<T>, lo: nat, hi: nat)
    requires lo <= hi <= |s|
    ensures s[lo..hi] == s[lo..][..hi - lo]
  {
  }

  /** Packing the bits of bytes q .. q+len-1 of a stream gives those bytes back. */
  lemma PackByteAligned(data: seq<byte>, q: nat, len: nat)
    requires q + len <= |data|
    ensures Pack(Unpack(data)[8 * q .. 8 * (q + len)]) == data[q .. q + len]
  {
    UnpackSlice(data, q, len);
    PackUnpack(data[q .. q + len]);
  }

  // ---------------------------------------------------------------------
  // Sync-word alignment: np.correlate(..., mode="full"), np.abs, np.argmax
  // ---------------------------------------------------------------------

  /** a[idx] where the index lies inside a, 0 outside (the zero extension of "full" mode). */
  function At(a: seq<int>, idx: int): int
  {
    if 0 <= idx < |a| then a[idx] else 0
  }

  /** The first n terms of the correlation sum at lag k: sum over m < n of a[m + k] * v[m]. */
  function CorrSum(a: seq<int>, v: seq<int>, k: int, n: nat): int
    requires n <= |v|
  {
    if n == 0 then 0 else CorrSum(a, v, k, n - 1) + At(a, n - 1 + k) * v[n - 1]
  }

  /**
   * np.correlate(a, v, mode="full"): entry j is the sum over m of a[m + j - (|v| - 1)] * v[m],
   * for the |a| + |v| - 1 lags in which the two sequences overlap.
   */
  function FullCorrelation(a: seq<int>, v: seq<int>): (c: seq<int>)
    requires |a| > 0 && |v| > 0
    ensures |c| == |a| + |v| - 1
  {
    seq(|a| + |v| - 1, j requires 0 <= j < |a| + |v| - 1 => CorrSum(a, v, j - (|v| - 1), |v|))
  }

  function AbsSeq(s: seq<int>): (r: seq<int>)
    ensures |r| == |s|
    ensures forall j :: 0 <= j < |s| ==> r[j] == Abs(s[j])
  {
    seq(|s|, j requires 0 <= j < |s| => Abs(s[j]))
  }

  /** np.argmax: the index of the first occurrence of the maximum. */
  function FirstArgMax(s: seq<int>): (r: nat)
    requires |s| > 0
    ensures r < |s|
    ensures forall j :: 0 <= j < |s| ==> s[j] <= s[r]
    ensures forall j :: 0 <= j < r ==> s[j] < s[r]
  {
    if |s| == 1 then 0
    else
      var k := FirstArgMax(s[..|s| - 1]);
      if s[|s| - 1] > s[k] then |s| - 1 else k
  }

  /** Bits as +1 / -1 (`x * 2 - 1` on signed integers). */
  function Bipolar(bs: seq<bit>): (r: seq<int>)
    ensures |r| == |bs|
    ensures forall j :: 0 <= j < |bs| ==> r[j] == 2 * (bs[j] as int) - 1
  {
    seq(|bs|, j requires 0 <= j < |bs| => 2 * (bs[j] as int) - 1)
  }

  predicate IsBipolar(s: seq<int>)
  {
    forall j :: 0 <= j < |s| ==> s[j] == 1 || s[j] == -1
  }

  /**
   * The alignment offset: one past the lag of the strongest (absolute) correlation
   * between the header bits and the sync word, both taken as +1 / -1.
   */
  function Alignment(hdrBits: seq<bit>, address: seq<bit>): (i: nat)
    requires |hdrBits| > 0 && |address| > 0
    ensures 1 <= i <= |hdrBits| + |address| - 1
  {
    FirstArgMax(AbsSeq(FullCorrelation(Bipolar(hdrBits), Bipolar(address)))) + 1
  }

  /** Each term of a correlation of +1 / -1 sequences is -1, 0 or 1, so n terms sum to at most n. */
  lemma {:induction false} CorrSumBound(a: seq<int>, v: seq<int>, k: int, n: nat)
    requires n <= |v| && IsBipolar(a) && IsBipolar(v)
    ensures Abs(CorrSum(a, v, k, n)) <= n
  {
    if n > 0 {
      CorrSumBound(a, v, k, n - 1);
    }
  }

  /** Where a holds a copy of v starting at k, every term is 1 and the sum is n. */
  lemma {:induction false} CorrSumMatch(a: seq<int>, v: seq<int>, k: nat, n: nat)
    requires n <= |v| && k + |v| <= |a| && a[k .. k + |v|] == v && IsBipolar(v)
    ensures CorrSum(a, v, k, n) == n
  {
    if n > 0 {
      CorrSumMatch(a, v, k, n - 1);
      assert a[n - 1 + k] == v[n - 1];
    }
  }

  lemma BipolarIsBipolar(bs: seq<bit>)
    ensures IsBipolar(Bipolar(bs))
  {
  }

  lemma BipolarSlice(bs: seq<bit>, p: nat, m: nat)
    requires p + m <= |bs|
    ensures Bipolar(bs)[p .. p + m] == Bipolar(bs[p .. p + m])
  {
  }

  /**
   * When the sync word occurs in the header bits ending at bit p + |address| - 1,
   * the strongest correlation reaches its largest possible value |address|, and the
   * alignment points at most one bit past that occurrence, just after a position
   * where the header agrees with the sync word (or with its complement) on every bit.
   */
  lemma SyncWordFound(hdrBits: seq<bit>, address: seq<bit>, p: nat)
    requires |address| > 0 && p + |address| <= |hdrBits|
    requires hdrBits[p .. p + |address|] == address
    ensures Alignment(hdrBits, address) <= p + |address|
    ensures AbsSeq(FullCorrelation(Bipolar(hdrBits), Bipolar(address)))[Alignment(hdrBits, address) - 1] == |address|
  {
    var a, v := Bipolar(hdrBits), Bipolar(address);
    var m := |address|;
    var c := FullCorrelation(a, v);
    var s := AbsSeq(c);
    BipolarIsBipolar(hdrBits);
    BipolarIsBipolar(address);
    BipolarSlice(hdrBits, p, m);
    CorrSumMatch(a, v, p, m);
    assert s[p + m - 1] == m;
    forall j | 0 <= j < |s|
      ensures s[j] <= m
    {
      CorrSumBound(a, v, j - (m - 1), m);
    }
    var r := FirstArgMax(s);
    assert s[r] == m;
  }

  /**
   * `b_hdr * 2 - 1` as the parser writes it: b_hdr is a uint8 array, so the
   * arithmetic wraps modulo 256 and a 0 bit becomes 255 instead of -1.
   */
  function Uint8Bipolar(bs: seq<bit>): (r: seq<int>)
    ensures |r| == |bs|
    ensures forall j :: 0 <= j < |bs| ==> r[j] == (if bs[j] == 1 then 1 else 255)
  {
    seq(|bs|, j requires 0 <= j < |bs| => (2 * (bs[j] as int) - 1) % 256)
  }

  /** The alignment offset computed with the wrapped uint8 header values. */
  function AlignmentAsWritten(hdrBits: seq<bit>, address: seq<bit>): (i: nat)
    requires |hdrBits| > 0 && |address| > 0
    ensures 1 <= i <= |hdrBits| + |address| - 1
  {
    FirstArgMax(AbsSeq(FullCorrelation(Uint8Bipolar(hdrBits), Bipolar(address)))) + 1
  }

  /**
   * A one-byte header 0x80 with sync word 10: the sync word sits at bits 0-1, and
   * with +1 / -1 values the payload is taken from bit 2.
   */
  lemma AlignmentExample()
    ensures SyncHeader()[0..2] == [1, 0]
    ensures Alignment(SyncHeader(), [1, 0]) == 2
  {
    var v := Bipolar([1, 0]);
    assert v == [1, -1];
    var a := Bipolar(SyncHeader());
    assert a == [1, -1, -1, -1, -1, -1, -1, -1];
    var s := AbsSeq(FullCorrelation(a, v));
    forall j | 0 <= j < 9
      ensures s[j] == [1, 2, 0, 0, 0, 0, 0, 0, 1][j]
    {
      PairCorrelation(a, v, j);
    }
    var r := FirstArgMax(s);
    assert s[r] >= s[1] == 2;
  }

  /**
   * The same header with the wrapped uint8 values: the last lag (255 * 1) is the
   * strongest and the parser starts the payload at bit 9 instead of bit 2.
   */
  lemma AlignmentAsWrittenMisses()
    ensures AlignmentAsWritten(SyncHeader(), [1, 0]) == 9
  {
    var v := Bipolar([1, 0]);
    assert v == [1, -1];
    var w := Uint8Bipolar(SyncHeader());
    assert w == [1, 255, 255, 255, 255, 255, 255, 255];
    var t := AbsSeq(FullCorrelation(w, v));
    forall j | 0 <= j < 9
      ensures t[j] == [1, 254, 0, 0, 0, 0, 0, 0, 255][j]
    {
      PairCorrelation(w, v, j);
    }
    var r := FirstArgMax(t);
    assert t[r] >= t[8] == 255;
  }

  /** With a two-bit sync word, lag j of the full correlation combines a[j - 1] and a[j]. */
  lemma PairCorrelation(a: seq<int>, v: seq<int>, j: nat)
    requires |a| > 0 && |v| == 2 && j < |a| + 1
    ensures FullCorrelation(a, v)[j] == At(a, j - 1) * v[0] + At(a, j) * v[1]
  {
    assert FullCorrelation(a, v)[j] == CorrSum(a, v, j - 1, 2);
    assert CorrSum(a, v, j - 1, 0) == 0;
    assert CorrSum(a, v, j - 1, 1) == At(a, j - 1) * v[0];
    assert CorrSum(a, v, j - 1, 2) == CorrSum(a, v, j - 1, 1) + At(a, j) * v[1];
  }

  /** The header bits of the example: the byte 0x80. */
  function SyncHeader(): seq<bit>
  {
    [1, 0, 0, 0, 0, 0, 0, 0]
  }

  /** The example header is what np.unpackbits makes of the byte 0x80. */
  lemma SyncHeaderBits()
    ensures SyncHeader() == ByteBits(0x80)
  {
    assert BitsOf(0x80, 8) == [1, 0, 0, 0, 0, 0, 0, 0];
  }

  // ---------------------------------------------------------------------
  // The packet_parser block
  // ---------------------------------------------------------------------

  /** The exceptions general_work can raise. */
  datatype ParseError =
    | EmptyCorrelation       // np.correlate on an empty header or sync word
    | PayloadShapeMismatch   // the payload cannot be broadcast into an output row
    | MissingCrcByte         // crc[0] on an empty crc slice

  /** Python's s[lo:hi] for non-negative bounds: clamped to the sequence, empty when hi <= lo. */
  function Slice<T>(s: seq<T>, lo: nat, hi: nat): (r: seq<T>)
    ensures |r| == (if lo >= |s| || hi <= lo then 0 else (if hi < |s| then hi else |s|) - lo)
  {
    if lo >= |s| || hi <= lo then [] else if hi < |s| then s[lo..hi] else s[lo..]
  }

  lemma SliceInRange<T>(s: seq<T>, lo: nat, hi: nat)
    requires lo <= hi <= |s|
    ensures Slice(s, lo, hi) == s[lo..hi]
  {
  }

  /** The payload, the CRC bytes and the CRC verdict of one frame. */
  datatype Frame = Frame(payload: seq<byte>, crc: seq<byte>, isCorrect: bool)

  /** The dictionary published on payloadMetaData. */
  datatype Metadata = Metadata(nbPacket: nat, isCorrect: bool, nbError: nat, crc: byte)

  /** What one successful call writes and returns. */
  datatype WorkOutput = WorkOutput(produced: int, port0: seq<seq<byte>>, port1: seq<seq<byte>>)

  /** The bit offset of the packet: the alignment of the first hdr_len bytes against the sync word. */
  function PacketStart(input: seq<byte>, hdrLen: nat, address: seq<bit>): nat
    requires 0 < hdrLen <= |input| && |address| > 0
  {
    Alignment(Unpack(input)[..hdrLen * 8], address)
  }

  /** len bytes repacked from the bit stream b starting at bit i (clamped, zero-padded at the end). */
  function BitsToBytesAt(b: seq<bit>, i: nat, len: nat): seq<byte>
  {
    Pack(Slice(b, i, i + len * 8))
  }

  /** A payload fits an output row of payload_len bytes when it has that length or is broadcast from one byte. */
  predicate FitsRow(payload: seq<byte>, payloadLen: nat)
  {
    |payload| == payloadLen || |payload| == 1
  }

  /** The output row that numpy writes for a payload that fits. */
  function Row(payload: seq<byte>, payloadLen: nat): (row: seq<byte>)
    requires FitsRow(payload, payloadLen)
    ensures |row| == payloadLen
    ensures |payload| == payloadLen ==> row == payload
  {
    if |payload| == payloadLen then payload else seq(payloadLen, _ => payload[0])
  }

  /**
   * Extraction and CRC check once the packet's first bit is known: the packet is the
   * payload_len + crc_len bytes repacked from that bit on, split into payload and CRC.
   * The CRC verdict holds exactly when every byte of the CRC slice equals the CRC-8 of
   * the payload (vacuously for an empty slice).
   */
  function FrameAt(input: seq<byte>, start: nat, payloadLen: nat, crcLen: nat): Result<Frame, ParseError>
  {
    var pkt := BitsToBytesAt(Unpack(input), start, payloadLen + crcLen);
    var payload := Slice(pkt, 0, payloadLen);
    var crc := Slice(pkt, payloadLen, payloadLen + crcLen);
    if !FitsRow(payload, payloadLen) then Failure(PayloadShapeMismatch)
    else Success(Frame(payload, crc, forall k :: 0 <= k < |crc| ==> crc[k] == Crc8(payload)))
  }

  /** Lines 136-162 of general_work as a function of the consumed bytes: alignment, then extraction. */
  function ParseFrame(input: seq<byte>, hdrLen: nat, payloadLen: nat, crcLen: nat, address: seq<bit>)
    : Result<Frame, ParseError>
    requires |input| >= hdrLen
  {
    if hdrLen == 0 || address == [] then Failure(EmptyCorrelation)
    else FrameAt(input, PacketStart(input, hdrLen, address), payloadLen, crcLen)
  }

  /**
   * What the extraction yields: a payload that cannot be broadcast into a row fails,
   * and otherwise the payload and the CRC bytes are the two slices of the repacked
   * packet and the verdict holds exactly when every byte of the CRC slice equals the
   * CRC-8 of the payload.
   */
  lemma FrameAtCases(input: seq<byte>, start: nat, payloadLen: nat, crcLen: nat)
    ensures var r := FrameAt(input, start, payloadLen, crcLen);
            var pkt := BitsToBytesAt(Unpack(input), start, payloadLen + crcLen);
            && (r.Failure? <==> !FitsRow(Slice(pkt, 0, payloadLen), payloadLen))
            && (r.Failure? ==> r.error == PayloadShapeMismatch)
            && (r.Success? ==>
              && r.value.payload == Slice(pkt, 0, payloadLen)
              && r.value.crc == Slice(pkt, payloadLen, payloadLen + crcLen)
              && FitsRow(r.value.payload, payloadLen)
              && (r.value.isCorrect <==> forall k :: 0 <= k < |r.value.crc| ==> r.value.crc[k] == Crc8(r.value.payload)))
  {
  }

  /** An empty header or sync word fails the correlation; otherwise the parse is the extraction at the aligned bit. */
  lemma ParseFrameCases(input: seq<byte>, hdrLen: nat, payloadLen: nat, crcLen: nat, address: seq<bit>)
    requires |input| >= hdrLen
    ensures hdrLen == 0 || address == [] <==> ParseFrame(input, hdrLen, payloadLen, crcLen, address) == Failure(EmptyCorrelation)
    ensures hdrLen > 0 && address != [] ==>
      ParseFrame(input, hdrLen, payloadLen, crcLen, address) == FrameAt(input, PacketStart(input, hdrLen, address), payloadLen, crcLen)
  {
  }

  /** Repacking the bits that start at a byte boundary gives the original bytes back. */
  lemma ExtractByteAligned(data: seq<byte>, q: nat, len: nat)
    requires q + len <= |data|
    ensures BitsToBytesAt(Unpack(data), q * 8, len) == data[q .. q + len]
  {
    AlignedBits(Unpack(data), q, len);
    PackByteAligned(data, q, len);
  }

  /** Repacking from bit 8q reads whole bytes q .. q + len - 1 of the bit stream. */
  lemma AlignedBits(b: seq<bit>, q: nat, len: nat)
    requires 8 * (q + len) <= |b|
    ensures BitsToBytesAt(b, q * 8, len) == Pack(b[8 * q .. 8 * (q + len)])
  {
    var lo, hi := q * 8, q * 8 + len * 8;
    SliceInRange(b, lo, hi);
    assert Pack(Slice(b, lo, hi)) == Pack(b[lo..hi]);
    assert 8 * q == lo && 8 * (q + len) == hi;
  }

  /** Extracting at the first bit after an hdr_len-byte header takes payload and CRC from the bytes that follow it. */
  lemma FrameAtByteAligned(input: seq<byte>, hdrLen: nat, payloadLen: nat, crcLen: nat)
    requires |input| >= hdrLen + payloadLen + crcLen
    ensures FrameAt(input, hdrLen * 8, payloadLen, crcLen).Success?
    ensures FrameAt(input, hdrLen * 8, payloadLen, crcLen).value.payload == input[hdrLen .. hdrLen + payloadLen]
    ensures FrameAt(input, hdrLen * 8, payloadLen, crcLen).value.crc == input[hdrLen + payloadLen .. hdrLen + payloadLen + crcLen]
  {
    var pkt := input[hdrLen .. hdrLen + (payloadLen + crcLen)];
    ExtractByteAligned(input, hdrLen, payloadLen + crcLen);
    FrameAtPacket(input, hdrLen * 8, payloadLen, crcLen, pkt);
    SubSlices(input, hdrLen, payloadLen, crcLen);
  }

  /** Once the repacked bytes are known to be pkt, the extraction splits pkt at payload_len. */
  lemma FrameAtPacket(input: seq<byte>, start: nat, payloadLen: nat, crcLen: nat, pkt: seq<byte>)
    requires BitsToBytesAt(Unpack(input), start, payloadLen + crcLen) == pkt
    requires |pkt| == payloadLen + crcLen
    ensures FrameAt(input, start, payloadLen, crcLen).Success?
    ensures FrameAt(input, start, payloadLen, crcLen).value.payload == pkt[..payloadLen]
    ensures FrameAt(input, start, payloadLen, crcLen).value.crc == pkt[payloadLen..]
  {
    SliceInRange(pkt, 0, payloadLen);
    SliceInRange(pkt, payloadLen, payloadLen + crcLen);
    FrameAtCases(input, start, payloadLen, crcLen);
  }

  /** Splitting s[h .. h + p + c] at p gives s[h .. h + p] and s[h + p .. h + p + c]. */
  lemma SubSlices<T>(s: seq<T>, h: nat, p: nat, c: nat)
    requires h + p + c <= |s|
    ensures s[h .. h + (p + c)][..p] == s[h .. h + p]
    ensures s[h .. h + (p + c)][p..] == s[h + p .. h + p + c]
  {
  }

  /**
   * When the sync word ends exactly at the last header bit, the parser takes the
   * payload and the CRC from the bytes that follow the header, byte for byte.
   */
  lemma ParseByteAligned(input: seq<byte>, hdrLen: nat, payloadLen: nat, crcLen: nat, address: seq<bit>)
    requires hdrLen > 0 && |address| > 0 && |input| >= hdrLen + payloadLen + crcLen
    requires PacketStart(input, hdrLen, address) == hdrLen * 8
    ensures ParseFrame(input, hdrLen, payloadLen, crcLen, address).Success?
    ensures ParseFrame(input, hdrLen, payloadLen, crcLen, address).value.payload == input[hdrLen .. hdrLen + payloadLen]
    ensures ParseFrame(input, hdrLen, payloadLen, crcLen, address).value.crc
            == input[hdrLen + payloadLen .. hdrLen + payloadLen + crcLen]
  {
    FrameAtByteAligned(input, hdrLen, payloadLen, crcLen);
  }

  /** The packet_parser block: fixed-size frames in, payload rows and metadata out. */
  class Parser {
    const hdrLen: nat
    const payloadLen: nat
    const crcLen: nat
    const packetLen: nat
    /** The sync word, as bits. */
    const address: seq<bit>
    var logPayload: bool
    var nbPacket: nat
    var nbError: nat
    /** Input items consumed so far through consume_each. */
    var consumed: nat
    /** The payloadMetaData messages published so far. */
    var published: seq<Metadata>

    predicate Valid()
      reads this
    {
      packetLen == hdrLen + payloadLen + crcLen && nbError <= nbPacket
    }

    constructor (hdrLen: nat, payloadLen: nat, crcLen: nat, address: seq<bit>, logPayload: bool)
      ensures Valid()
      ensures this.hdrLen == hdrLen && this.payloadLen == payloadLen && this.crcLen == crcLen
      ensures this.address == address && this.logPayload == logPayload
      ensures packetLen == hdrLen + payloadLen + crcLen
      ensures nbPacket == 0 && nbError == 0 && consumed == 0 && published == []
    {
      this.hdrLen := hdrLen;
      this.payloadLen := payloadLen;
      this.crcLen := crcLen;
      this.nbPacket := 0;
      this.nbError := 0;
      this.logPayload := logPayload;
      this.packetLen := hdrLen + payloadLen + crcLen;
      this.address := address;
      this.consumed := 0;
      this.published := [];
    }

    /** forecast: every input port needs one packet plus one spare byte. */
    function Forecast(ninputs: nat): (required: seq<nat>)
      reads this
      ensures |required| == ninputs
      ensures forall k :: 0 <= k < ninputs ==> required[k] == packetLen + 1
    {
      seq(ninputs, _ => packetLen + 1)
    }

    method SetLogPayload(logPayload: bool)
      modifies this
      ensures this.logPayload == logPayload
      ensures nbPacket == old(nbPacket) && nbError == old(nbError)
      ensures consumed == old(consumed) && published == old(published)
    {
      this.logPayload := logPayload;
    }

    /**
     * general_work: consumes packet_len + 1 bytes whatever happens next, counts the
     * packet and its CRC failure, publishes the metadata and writes the payload row
     * to both output ports (port 0 repeats it over the first rows only for a good CRC).
     */
    method GeneralWork(input: seq<byte>, noutput: nat) returns (r: Result<WorkOutput, ParseError>)
      requires Valid() && |input| >= packetLen + 1 && noutput >= 1
      modifies this
      ensures Valid()
      ensures logPayload == old(logPayload)
      ensures consumed == old(consumed) + packetLen + 1
      ensures
        var f := ParseFrame(input[..packetLen + 1], hdrLen, payloadLen, crcLen, address);
        if f.Failure? then
          && r == Failure(f.error)
          && nbPacket == old(nbPacket) && nbError == old(nbError) && published == old(published)
        else
          var fr := f.value;
          && nbPacket == old(nbPacket) + 1
          && nbError == old(nbError) + (if fr.isCorrect then 0 else 1)
          && (fr.crc == [] ==> r == Failure(MissingCrcByte) && published == old(published))
          && (fr.crc != [] ==>
                && published == old(published) + [Metadata(nbPacket, fr.isCorrect, nbError, fr.crc[0])]
                && var row := Row(fr.payload, payloadLen);
                   var filled := if noutput < payloadLen then noutput else payloadLen;
                   r == Success(WorkOutput(1, Repeat(row, if fr.isCorrect && filled > 1 then filled else 1),
                                              Repeat(row, filled))))
    {
      var inputBytes := input[..packetLen + 1];
      consumed := consumed + packetLen + 1;

      var f := ParseFrame(inputBytes, hdrLen, payloadLen, crcLen, address);
      if f.Failure? {
        return Failure(f.error);
      }
      r := Record(f.value, noutput);
    }

    /**
     * The part of general_work after the CRC check: count the packet and its
     * failure, publish the metadata (crc[0] needs a CRC byte) and write the rows.
     */
    method Record(fr: Frame, noutput: nat) returns (r: Result<WorkOutput, ParseError>)
      requires Valid() && FitsRow(fr.payload, payloadLen)
      modifies this
      ensures Valid()
      ensures logPayload == old(logPayload) && consumed == old(consumed)
      ensures nbPacket == old(nbPacket) + 1
      ensures nbError == old(nbError) + (if fr.isCorrect then 0 else 1)
      ensures fr.crc == [] ==> r == Failure(MissingCrcByte) && published == old(published)
      ensures fr.crc != [] ==>
                && published == old(published) + [Metadata(nbPacket, fr.isCorrect, nbError, fr.crc[0])]
                && var row := Row(fr.payload, payloadLen);
                   var filled := if noutput < payloadLen then noutput else payloadLen;
                   r == Success(WorkOutput(1, Repeat(row, if fr.isCorrect && filled > 1 then filled else 1),
                                              Repeat(row, filled)))
    {
      var payload := fr.payload;
      var crc := fr.crc;
      var row := Row(payload, payloadLen);
      var filled := if noutput < payloadLen then noutput else payloadLen;
      var port0 := Repeat(row, 1);

      nbPacket := nbPacket + 1;
      var isCorrect := fr.isCorrect;
      if isCorrect {
        if filled > 1 {
          port0 := Repeat(row, filled);
        }
      } else {
        nbError := nbError + 1;
      }

      if crc == [] {
        return Failure(MissingCrcByte);
      }
      published := published + [Metadata(nbPacket, isCorrect, nbError, crc[0])];
      var port1 := Repeat(row, filled);
      r := Success(WorkOutput(1, port0, port1));
    }
  }
}
