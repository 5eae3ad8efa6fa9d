/**
 * The re-optimised spectrogram front end: three levels of sample formatting,
 * two mel filter-bank variants (with and without the four-way unrolling) and the
 * magnitude approximations of the FFT output (plain and unrolled loops).
 *
 * Level 0 of the formatting and variant 0 of the filter bank are the same code
 * as in the optimised firmware and are `SpectrogramOpt.FormatNoOpt` and
 * `SpectrogramOpt.MelFilterApply`. Buffer lengths are parameters (the array
 * lengths), as the size macros are configured outside this file. Buffers that
 * are only read (the spectrum) are passed as values.
 */
module SpectrogramReopt {
  import opened Bits
  import opened SpectrogramOpt

  // ---------------------------------------------------------------------------
  // Formatting, levels 1 and 2
  // ---------------------------------------------------------------------------

  /**
   * Level 1, one sample: the shifted, DC-removed value is stored back into q15,
   * then the windowed product shifted by 15 is converted to q15 without saturation.
   * (The left shift is taken as a multiplication by 8.)
   */
  function Level1Sample(x: int16, w: int16): int16
  {
    var centred := Wrap16((x as int) * 8 - 16384);
    Wrap16(((centred as int) * (w as int)) / 32768)
  }

  /** `Spectrogram_Format`, level 1: one pass, two stores per sample. */
  method FormatLevel1(buf: array<int16>, window: seq<int16>)
    requires |window| == buf.Length
    modifies buf
    ensures buf[..] == Zip(Level1Sample, old(buf[..]), window)
  {
    for i := 0 to buf.Length
      invariant forall k :: 0 <= k < i ==> buf[k] == Level1Sample(old(buf[k]), window[k])
      invariant forall k :: i <= k < buf.Length ==> buf[k] == old(buf[k])
    {
      buf[i] := Wrap16((buf[i] as int) * 8 - 16384);
      buf[i] := Wrap16(((buf[i] as int) * (window[i] as int)) / 32768);
    }
  }

  /**
   * `Spectrogram_Format`, level 2: four samples per iteration while i <= n - 4,
   * then the remaining ones, each computed as in the one-pass optimised format.
   */
  method FormatLevel2(buf: array<int16>, window: seq<int16>)
    requires |window| == buf.Length
    modifies buf
    ensures buf[..] == Zip(WindowedSample, old(buf[..]), window)
  {
    var n := buf.Length;
    var i := 0;
    while i <= n - 4
      invariant 0 <= i <= n
      invariant forall k :: 0 <= k < i ==> buf[k] == WindowedSample(old(buf[k]), window[k])
      invariant forall k :: i <= k < n ==> buf[k] == old(buf[k])
    {
      var s0, s1, s2, s3 := buf[i] as int, buf[i + 1] as int, buf[i + 2] as int, buf[i + 3] as int;
      s0, s1, s2, s3 := s0 * 8 - 16384, s1 * 8 - 16384, s2 * 8 - 16384, s3 * 8 - 16384;
      buf[i] := Sat16(Wrap32(s0 * (window[i] as int)) / 32768);
      buf[i + 1] := Sat16(Wrap32(s1 * (window[i + 1] as int)) / 32768);
      buf[i + 2] := Sat16(Wrap32(s2 * (window[i + 2] as int)) / 32768);
      buf[i + 3] := Sat16(Wrap32(s3 * (window[i + 3] as int)) / 32768);
      i := i + 4;
    }
    while i < n
      invariant 0 <= i <= n
      invariant forall k :: 0 <= k < i ==> buf[k] == WindowedSample(old(buf[k]), window[k])
      invariant forall k :: i <= k < n ==> buf[k] == old(buf[k])
    {
      var sample := buf[i] as int;
      sample := sample * 8 - 16384;
      buf[i] := Sat16(Wrap32(sample * (window[i] as int)) / 32768);
      i := i + 1;
    }
  }

  /** For 12-bit inputs, level 1 (no saturation) and level 2 (saturation) produce the same buffer. */
  lemma Level1MatchesLevel2(xs: seq<int16>, ws: seq<int16>)
    requires |xs| == |ws| && All12Bit(xs)
    ensures Zip(Level1Sample, xs, ws) == Zip(WindowedSample, xs, ws)
  {
    forall k | 0 <= k < |xs|
      ensures Level1Sample(xs[k], ws[k]) == WindowedSample(xs[k], ws[k])
    {
      WindowedSampleExact(xs[k], ws[k]);
    }
  }

  // ---------------------------------------------------------------------------
  // Mel filter bank, unrolled variant
  // ---------------------------------------------------------------------------

  /** The last index the unrolled loop writes, plus one: melLen rounded up to a multiple of 4. */
  function RoundUp4(n: nat): (r: nat)
    ensures r % 4 == 0 && n <= r < n + 4
    ensures n % 4 == 0 <==> r == n
  {
    n + (4 - n % 4) % 4
  }

  /**
   * `mel_filter_apply`, variant 1: four triangles per iteration for i = 0, 4, 8, ...
   * below melLen, then the entries from melLen with its low two bits cleared up to
   * melLen once more. There is no bounds check at all: fftLen is unused, and the
   * unrolled loop reads triangles and writes mel entries up to RoundUp4(melLen),
   * so the table, the mel array and the spectrum must cover that many.
   */
  method MelFilterApplyUnrolled(fft: seq<int16>, mel: array<int16>, fftLen: nat, melLen: nat,
                                triangles: seq<MelTriangle>, dotClip: (seq<int16>, seq<int16>) -> int16)
    requires RoundUp4(melLen) <= |triangles| && RoundUp4(melLen) <= mel.Length
    requires AllFit(triangles, RoundUp4(melLen), |fft|)
    modifies mel
    ensures mel[..RoundUp4(melLen)] == MelVector(fft, triangles, RoundUp4(melLen), dotClip)
    ensures mel[RoundUp4(melLen)..] == old(mel[RoundUp4(melLen)..])
  {
    var bound := RoundUp4(melLen);
    var i := 0;
    while i < melLen
      invariant i % 4 == 0 && i <= bound
      invariant forall k :: 0 <= k < i ==> mel[k] == MelEntry(fft, triangles[k], dotClip)
      invariant forall k :: i <= k < mel.Length ==> mel[k] == old(mel[k])
    {
      ApplyFour(fft, mel, i, triangles, dotClip);
      i := i + 4;
    }
    assert i == bound;
    i := melLen - melLen % 4;
    while i < melLen
      invariant forall k :: 0 <= k < bound ==> mel[k] == MelEntry(fft, triangles[k], dotClip)
      invariant forall k :: bound <= k < mel.Length ==> mel[k] == old(mel[k])
    {
      var t := triangles[i];
      mel[i] := dotClip(fft[t.idxOffset..t.idxOffset + |t.values|], t.values);
      i := i + 1;
    }
  }

  /** The body of the unrolled loop: triangles i..i+3 into mel entries i..i+3. */
  method ApplyFour(fft: seq<int16>, mel: array<int16>, i: nat,
                   triangles: seq<MelTriangle>, dotClip: (seq<int16>, seq<int16>) -> int16)
    requires i + 4 <= |triangles| && i + 4 <= mel.Length
    requires forall k :: i <= k < i + 4 ==> Fits(triangles[k], |fft|)
    modifies mel
    ensures forall k :: i <= k < i + 4 ==> mel[k] == MelEntry(fft, triangles[k], dotClip)
    ensures forall k :: 0 <= k < mel.Length && !(i <= k < i + 4) ==> mel[k] == old(mel[k])
  {
    var t0, t1, t2, t3 := triangles[i], triangles[i + 1], triangles[i + 2], triangles[i + 3];
    mel[i] := dotClip(fft[t0.idxOffset..t0.idxOffset + |t0.values|], t0.values);
    mel[i + 1] := dotClip(fft[t1.idxOffset..t1.idxOffset + |t1.values|], t1.values);
    mel[i + 2] := dotClip(fft[t2.idxOffset..t2.idxOffset + |t2.values|], t2.values);
    mel[i + 3] := dotClip(fft[t3.idxOffset..t3.idxOffset + |t3.values|], t3.values);
  }

  /**
   * When melLen is a multiple of 4 the unrolled variant writes exactly entries
   * 0..melLen-1, with the same values as the checked variant 0 whenever every
   * triangle fits in fftLen.
   */
  lemma MelVariantsAgree(fft: seq<int16>, fftLen: nat, triangles: seq<MelTriangle>, melLen: nat,
                         dotClip: (seq<int16>, seq<int16>) -> int16)
    requires melLen % 4 == 0 && melLen <= |triangles|
    requires fftLen <= |fft| && AllFit(triangles, melLen, fftLen)
    ensures RoundUp4(melLen) == melLen
    ensures AllFit(triangles, melLen, |fft|)
    ensures MelVector(fft, triangles, RoundUp4(melLen), dotClip) == MelVector(fft[..fftLen], triangles, melLen, dotClip)
  {
    MelVectorPrefix(fft, fftLen, triangles, melLen, dotClip);
  }

  /** When melLen is not a multiple of 4 the unrolled variant overruns: it writes entries at and beyond melLen. */
  lemma MelUnrolledOverruns(melLen: nat)
    requires melLen % 4 != 0
    ensures melLen < RoundUp4(melLen) <= melLen + 3
  {
  }

  // ---------------------------------------------------------------------------
  // Magnitude approximations
  // ---------------------------------------------------------------------------

  /** The `MAG_APPROX` setting: max or sum of the two parts, with |.| before (ABS) or after (PURE). */
  datatype MagApprox = PureMax | AbsMax | PureSum | AbsSum

  /** `v > 0 ? v : -v` stored back into q15: -32768 stays -32768. */
  function WrapAbs(v: int16): (r: int16)
    ensures v != -32768 ==> r == Abs(v)
    ensures v == -32768 ==> r == -32768
  {
    if v > 0 then v else Wrap16(-(v as int))
  }

  /** The absolute value taken before combining, for the ABS settings. */
  function PreAbs(m: MagApprox, x: int16): int16
  {
    if m.AbsMax? || m.AbsSum? then WrapAbs(x) else x
  }

  /** The two parts combined: their maximum, or their sum stored into q15. */
  function Join(m: MagApprox, r: int16, i: int16): int16
  {
    if m.PureMax? || m.AbsMax? then (if r > i then r else i) else Wrap16(r as int + i as int)
  }

  /** The absolute value taken after combining, for the PURE settings. */
  function PostAbs(m: MagApprox, v: int16): int16
  {
    if m.PureMax? || m.PureSum? then WrapAbs(v) else v
  }

  /** Magnitude mode 1 for one complex sample, as the conditional expressions compute it. */
  function MagSample(m: MagApprox, re: int16, im: int16): int16
  {
    PostAbs(m, Join(m, PreAbs(m, re), PreAbs(m, im)))
  }

  /** `(v ^ (v >> 15)) - (v >> 15)` stored into q15. */
  function BAbs(v: int16): int16 { Wrap16(BranchlessAbs(v)) }

  /** Magnitude mode 2 for one complex sample: the same steps with the branchless absolute value. */
  function BranchlessMagSample(m: MagApprox, re: int16, im: int16): int16
  {
    var r := if m.AbsMax? || m.AbsSum? then BAbs(re) else re;
    var i := if m.AbsMax? || m.AbsSum? then BAbs(im) else im;
    var v := Join(m, r, i);
    if m.PureMax? || m.PureSum? then BAbs(v) else v
  }

  lemma BranchlessWrapAbs(v: int16)
    ensures BAbs(v) == WrapAbs(v)
  {
    BranchlessAbsIsAbs(v);
  }

  /** The unrolled branchless computation gives the same value as mode 1 for every setting and every input. */
  lemma BranchlessMagSampleSame(m: MagApprox, re: int16, im: int16)
    ensures BranchlessMagSample(m, re, im) == MagSample(m, re, im)
  {
    BranchlessWrapAbs(re);
    BranchlessWrapAbs(im);
    BranchlessWrapAbs(Join(m, PreAbs(m, re), PreAbs(m, im)));
  }

  /**
   * What each setting computes away from the q15 edge: ABS_MAX is max(|re|, |im|),
   * ABS_SUM is |re| + |im| when that fits, PURE_MAX is |max(re, im)| and PURE_SUM
   * is |re + im| when that fits.
   */
  lemma MagSampleMeaning(m: MagApprox, re: int16, im: int16)
    requires re != -32768 && im != -32768
    ensures m == AbsMax ==> MagSample(m, re, im) == if Abs(re) > Abs(im) then Abs(re) else Abs(im)
    ensures m == AbsSum && Abs(re) + Abs(im) <= 32767 ==> MagSample(m, re, im) == Abs(re) + Abs(im)
    ensures m == PureMax ==> MagSample(m, re, im) == Abs(if re > im then re else im)
    ensures m == PureSum && -32767 <= re + im <= 32767 ==> MagSample(m, re, im) == Abs(re + im)
  {
  }

  /** The ABS settings are never negative as long as no part is -32768 and, for the sum, the sum fits. */
  lemma AbsMagnitudeNonNegative(m: MagApprox, re: int16, im: int16)
    requires m == AbsMax || (m == AbsSum && Abs(re) + Abs(im) <= 32767)
    requires re != -32768 && im != -32768
    ensures MagSample(m, re, im) >= 0
  {
    MagSampleMeaning(m, re, im);
  }

  /** The magnitudes of the first `half` complex samples (real, imaginary interleaved). */
  function Magnitudes(fft: seq<int16>, half: nat, m: MagApprox): (r: seq<int16>)
    requires 2 * half <= |fft|
    ensures |r| == half
    ensures forall i :: 0 <= i < half ==> r[i] == MagSample(m, fft[2 * i], fft[2 * i + 1])
  {
    seq(half, i requires 0 <= i < half => MagSample(m, fft[2 * i], fft[2 * i + 1]))
  }

  /** The loop body of magnitude mode 1 for one complex sample. */
  method MagnitudeOf(m: MagApprox, re0: int16, im0: int16) returns (v: int16)
    ensures v == MagSample(m, re0, im0)
  {
    var re, im := re0, im0;
    if m.AbsMax? || m.AbsSum? {
      re := WrapAbs(re);
      im := WrapAbs(im);
    }
    if m.PureMax? || m.AbsMax? {
      v := if re > im then re else im;
    } else {
      v := Wrap16(re as int + im as int);
    }
    if m.PureMax? || m.PureSum? {
      v := WrapAbs(v);
    }
  }

  /** Magnitude mode 1: one complex sample per iteration, written to buf[i] for i < half. */
  method MagnitudeApprox(fft: seq<int16>, buf: array<int16>, half: nat, m: MagApprox)
    requires 2 * half <= |fft| && half <= buf.Length
    modifies buf
    ensures buf[..half] == Magnitudes(fft, half, m)
    ensures buf[half..] == old(buf[half..])
  {
    for i := 0 to half
      invariant forall k :: 0 <= k < i ==> buf[k] == MagSample(m, fft[2 * k], fft[2 * k + 1])
      invariant forall k :: i <= k < buf.Length ==> buf[k] == old(buf[k])
    {
      var v := MagnitudeOf(m, fft[2 * i], fft[2 * i + 1]);
      buf[i] := v;
    }
  }

  /** The body of the unrolled magnitude loop: complex samples i..i+3 into buf[i..i+3]. */
  method MagnitudeFour(fft: seq<int16>, buf: array<int16>, i: nat, m: MagApprox)
    requires 2 * (i + 4) <= |fft| && i + 4 <= buf.Length
    modifies buf
    ensures forall k :: i <= k < i + 4 ==> buf[k] == MagSample(m, fft[2 * k], fft[2 * k + 1])
    ensures forall k :: 0 <= k < buf.Length && !(i <= k < i + 4) ==> buf[k] == old(buf[k])
  {
    MagnitudeLane(fft, buf, i, m);
    MagnitudeLane(fft, buf, i + 1, m);
    MagnitudeLane(fft, buf, i + 2, m);
    MagnitudeLane(fft, buf, i + 3, m);
  }

  /** One lane of the unrolled magnitude loop: buf[k] from complex sample k with the branchless absolute value. */
  method MagnitudeLane(fft: seq<int16>, buf: array<int16>, k: nat, m: MagApprox)
    requires 2 * k + 1 < |fft| && k < buf.Length
    modifies buf
    ensures buf[k] == MagSample(m, fft[2 * k], fft[2 * k + 1])
    ensures forall j :: 0 <= j < buf.Length && j != k ==> buf[j] == old(buf[j])
  {
    BranchlessMagSampleSame(m, fft[2 * k], fft[2 * k + 1]);
    buf[k] := BranchlessMagSample(m, fft[2 * k], fft[2 * k + 1]);
  }

  /** Magnitude mode 2: four complex samples per iteration while i <= half - 4, then the rest; same result as mode 1. */
  method MagnitudeApproxUnrolled(fft: seq<int16>, buf: array<int16>, half: nat, m: MagApprox)
    requires 2 * half <= |fft| && half <= buf.Length
    modifies buf
    ensures buf[..half] == Magnitudes(fft, half, m)
    ensures buf[half..] == old(buf[half..])
  {
    var i := 0;
    while i <= half - 4
      invariant 0 <= i <= half
      invariant forall k :: 0 <= k < i ==> buf[k] == MagSample(m, fft[2 * k], fft[2 * k + 1])
      invariant forall k :: i <= k < buf.Length ==> buf[k] == old(buf[k])
    {
      MagnitudeFour(fft, buf, i, m);
      i := i + 4;
    }
    while i < half
      invariant 0 <= i <= half
      invariant forall k :: 0 <= k < i ==> buf[k] == MagSample(m, fft[2 * k], fft[2 * k + 1])
      invariant forall k :: i <= k < buf.Length ==> buf[k] == old(buf[k])
    {
      MagnitudeLane(fft, buf, i, m);
      i := i + 1;
    }
  }
}
