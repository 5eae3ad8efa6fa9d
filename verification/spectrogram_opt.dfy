/**
 * Fixed-point front end of the spectrogram in the optimised firmware: the
 * formatting of raw 12-bit ADC samples into windowed q15 values (both chain
 * modes), the mel filter bank with its bounds pre-check, and the normalisation
 * step of the magnitude spectrum.
 *
 * The Hamming window and the mel triangles are tables generated elsewhere; they
 * are parameters here. The dot product and its clipping to q15
 * (`arm_dot_prod_q15`, `clip_q63_to_q15`) are a function parameter `dotClip`.
 */
module SpectrogramOpt {
  import opened Bits

  // ---------------------------------------------------------------------------
  // Sample formatting
  // ---------------------------------------------------------------------------

  /** A raw ADC reading: unsigned 12 bits. */
  predicate Is12Bit(x: int) { 0 <= x < 4096 }

  predicate All12Bit(xs: seq<int16>)
  {
    forall k :: 0 <= k < |xs| ==> Is12Bit(xs[k])
  }

  /**
   * CHAIN_OPT formatting of one sample: shift left by 3, remove the DC offset 2^14,
   * multiply by the window coefficient in 32-bit arithmetic, shift right by 15
   * (arithmetic, i.e. rounding down) and saturate to q15.
   */
  function WindowedSample(x: int16, w: int16): int16
  {
    var shifted := (x as int) * 8 - 16384;
    Sat16(Wrap32(shifted * (w as int)) / 32768)
  }

  /** `arm_shift_q15` by 3: shift left with saturation. */
  function ShiftQ15(x: int16): int16 { Sat16((x as int) * 8) }

  /** CHAIN_NO_OPT formatting of one sample: saturating shift, then `buf[i] -= 1 << 14` in q15. */
  function NoOptSample(x: int16): int16 { Wrap16(ShiftQ15(x) as int - 16384) }

  /** `arm_mult_q15`: product of two q15 values, shifted right by 15 and saturated. */
  function MultQ15(a: int16, b: int16): int16 { Sat16(((a as int) * (b as int)) / 32768) }

  /** A sample-by-sample combination of a buffer with a table of the same length. */
  function Zip(f: (int16, int16) -> int16, xs: seq<int16>, ws: seq<int16>): (ys: seq<int16>)
    requires |xs| == |ws|
    ensures |ys| == |xs|
    ensures forall k :: 0 <= k < |xs| ==> ys[k] == f(xs[k], ws[k])
  {
    seq(|xs|, k requires 0 <= k < |xs| => f(xs[k], ws[k]))
  }

  /** The buffer after CHAIN_NO_OPT formatting. */
  function FormatNoOptSpec(xs: seq<int16>): (ys: seq<int16>)
    ensures |ys| == |xs|
    ensures forall k :: 0 <= k < |xs| ==> ys[k] == NoOptSample(xs[k])
  {
    seq(|xs|, k requires 0 <= k < |xs| => NoOptSample(xs[k]))
  }

  /** A product of a DC-removed 12-bit sample and a q15 coefficient stays well inside 32 bits. */
  lemma ProductBound(s: int, w: int16)
    requires -16384 <= s <= 16384
    ensures -0x2000_0000 <= s * w <= 0x2000_0000
  {
    if w >= 0 {
      MulMonotone(-16384, s, w);
      MulMonotone(s, 16384, w);
    } else {
      var v := -(w as int);
      assert s * w == -(s * v);
      MulMonotone(-16384, s, v);
      MulMonotone(s, 16384, v);
    }
  }

  /**
   * For a 12-bit input the shifted, DC-removed value lies in [-16384, 16376], the
   * 32-bit product cannot overflow, and the windowed result needs no saturation.
   */
  lemma WindowedSampleExact(x: int16, w: int16)
    requires Is12Bit(x)
    ensures -16384 <= x * 8 - 16384 <= 16376
    ensures -0x8000_0000 <= (x * 8 - 16384) * w < 0x8000_0000
    ensures WindowedSample(x, w) == ((x * 8 - 16384) * w) / 32768
    ensures -16384 <= WindowedSample(x, w) <= 16384
  {
    ProductBound(x * 8 - 16384, w);
  }

  /** CHAIN_NO_OPT gives exactly `x*8 - 16384` for a 12-bit input: neither the shift saturates nor the subtraction wraps. */
  lemma NoOptSampleExact(x: int16)
    requires Is12Bit(x)
    ensures NoOptSample(x) == x * 8 - 16384
  {
  }

  /** The one-pass CHAIN_OPT formatting equals the CHAIN_NO_OPT formatting followed by Hamming windowing with `arm_mult_q15`. */
  lemma ChainOptIsNoOptThenWindow(xs: seq<int16>, ws: seq<int16>)
    requires |xs| == |ws| && All12Bit(xs)
    ensures Zip(WindowedSample, xs, ws) == Zip(MultQ15, FormatNoOptSpec(xs), ws)
  {
    forall k | 0 <= k < |xs|
      ensures WindowedSample(xs[k], ws[k]) == MultQ15(NoOptSample(xs[k]), ws[k])
    {
      WindowedSampleExact(xs[k], ws[k]);
      NoOptSampleExact(xs[k]);
    }
  }

  /** `Spectrogram_Format`, CHAIN_OPT: one pass of shift, DC removal, windowing and saturation; sample i depends only on input i. */
  method FormatChainOpt(buf: array<int16>, window: seq<int16>)
    requires |window| == buf.Length
    modifies buf
    ensures buf[..] == Zip(WindowedSample, old(buf[..]), window)
  {
    for i := 0 to buf.Length
      invariant forall k :: 0 <= k < i ==> buf[k] == WindowedSample(old(buf[k]), window[k])
      invariant forall k :: i <= k < buf.Length ==> buf[k] == old(buf[k])
    {
      var shifted := (buf[i] as int) * 8 - 16384;
      var w := Wrap32(shifted * (window[i] as int)) / 32768;
      buf[i] := Sat16(w);
    }
  }

  /** `arm_shift_q15(buf, 3, buf, n)`: in-place saturating shift by 3. */
  method ShiftQ15InPlace(buf: array<int16>)
    modifies buf
    ensures forall k :: 0 <= k < buf.Length ==> buf[k] == ShiftQ15(old(buf[k]))
  {
    for i := 0 to buf.Length
      invariant forall k :: 0 <= k < i ==> buf[k] == ShiftQ15(old(buf[k]))
      invariant forall k :: i <= k < buf.Length ==> buf[k] == old(buf[k])
    {
      buf[i] := Sat16((buf[i] as int) * 8);
    }
  }

  /** `Spectrogram_Format`, CHAIN_NO_OPT: saturating shift, then the DC offset is subtracted in q15 arithmetic. */
  method FormatNoOpt(buf: array<int16>)
    modifies buf
    ensures buf[..] == FormatNoOptSpec(old(buf[..]))
  {
    ShiftQ15InPlace(buf);
    ghost var shifted := buf[..];
    for i := 0 to buf.Length
      invariant forall k :: 0 <= k < i ==> buf[k] == Wrap16(shifted[k] as int - 16384)
      invariant forall k :: i <= k < buf.Length ==> buf[k] == shifted[k]
    {
      buf[i] := Wrap16(buf[i] as int - 16384);
    }
  }

  // ---------------------------------------------------------------------------
  // Mel filter bank
  // ---------------------------------------------------------------------------

  /** One mel triangle: where it starts in the spectrum and its coefficients (`triangle_len` is their count). */
  datatype MelTriangle = MelTriangle(idxOffset: nat, values: seq<int16>)

  predicate Fits(t: MelTriangle, fftLen: nat)
  {
    t.idxOffset + |t.values| <= fftLen
  }

  predicate AllFit(triangles: seq<MelTriangle>, n: nat, fftLen: nat)
    requires n <= |triangles|
  {
    forall i :: 0 <= i < n ==> Fits(triangles[i], fftLen)
  }

  /** The clipped dot product of one triangle with the spectrum samples under it. */
  function MelEntry(fft: seq<int16>, t: MelTriangle, dotClip: (seq<int16>, seq<int16>) -> int16): int16
    requires Fits(t, |fft|)
  {
    dotClip(fft[t.idxOffset..t.idxOffset + |t.values|], t.values)
  }

  /** The first n mel coefficients of a spectrum. */
  function MelVector(fft: seq<int16>, triangles: seq<MelTriangle>, n: nat,
                     dotClip: (seq<int16>, seq<int16>) -> int16): (v: seq<int16>)
    requires n <= |triangles| && AllFit(triangles, n, |fft|)
    ensures |v| == n
    ensures forall i :: 0 <= i < n ==> v[i] == MelEntry(fft, triangles[i], dotClip)
  {
    seq(n, i requires 0 <= i < n => MelEntry(fft, triangles[i], dotClip))
  }

  /** A mel coefficient only reads the samples under its triangle, so a longer spectrum gives the same vector. */
  lemma MelVectorPrefix(fft: seq<int16>, fftLen: nat, triangles: seq<MelTriangle>, n: nat,
                        dotClip: (seq<int16>, seq<int16>) -> int16)
    requires fftLen <= |fft| && n <= |triangles| && AllFit(triangles, n, fftLen)
    ensures AllFit(triangles, n, |fft|)
    ensures MelVector(fft[..fftLen], triangles, n, dotClip) == MelVector(fft, triangles, n, dotClip)
  {
    forall i | 0 <= i < n
      ensures MelEntry(fft[..fftLen], triangles[i], dotClip) == MelEntry(fft, triangles[i], dotClip)
    {
      var t := triangles[i];
      assert fft[..fftLen][t.idxOffset..t.idxOffset + |t.values|] == fft[t.idxOffset..t.idxOffset + |t.values|];
    }
  }

  /** A shorter mel vector is a prefix of a longer one. */
  lemma MelVectorTake(fft: seq<int16>, triangles: seq<MelTriangle>, n: nat, m: nat,
                      dotClip: (seq<int16>, seq<int16>) -> int16)
    requires n <= m <= |triangles| && AllFit(triangles, m, |fft|)
    ensures AllFit(triangles, n, |fft|)
    ensures MelVector(fft, triangles, m, dotClip)[..n] == MelVector(fft, triangles, n, dotClip)
  {
  }

  /**
   * `mel_filter_apply`: if any of the first melLen triangles reaches past fftLen,
   * nothing is written; otherwise entry i of the mel array becomes the clipped
   * dot product of triangle i, for exactly i < melLen.
   */
  method MelFilterApply(fft: array<int16>, mel: array<int16>, fftLen: nat, melLen: nat,
                        triangles: seq<MelTriangle>, dotClip: (seq<int16>, seq<int16>) -> int16)
    requires fft != mel
    requires fftLen <= fft.Length && melLen <= |triangles| && melLen <= mel.Length
    modifies mel
    ensures !AllFit(triangles, melLen, fftLen) ==> mel[..] == old(mel[..])
    ensures AllFit(triangles, melLen, fftLen) ==>
      mel[..melLen] == MelVector(fft[..fftLen], triangles, melLen, dotClip) &&
      mel[melLen..] == old(mel[melLen..])
  {
    for i := 0 to melLen
      invariant AllFit(triangles, i, fftLen)
    {
      if triangles[i].idxOffset + |triangles[i].values| > fftLen {
        return;
      }
    }
    ghost var spectrum := fft[..fftLen];
    for i := 0 to melLen
      invariant forall k :: 0 <= k < i ==> mel[k] == MelEntry(spectrum, triangles[k], dotClip)
      invariant forall k :: i <= k < mel.Length ==> mel[k] == old(mel[k])
      invariant fft[..fftLen] == spectrum
      invariant AllFit(triangles, melLen, fftLen)
    {
      var t := triangles[i];
      assert Fits(t, fftLen);
      SliceOfPrefix(fft[..], fftLen, t.idxOffset, t.idxOffset + |t.values|);
      mel[i] := dotClip(fft[t.idxOffset..t.idxOffset + |t.values|], t.values);
    }
  }

  /** A slice that ends inside the first n elements reads the same in the prefix. */
  lemma SliceOfPrefix<T>(s: seq<T>, n: nat, lo: nat, hi: nat)
    requires lo <= hi <= n <= |s|
    ensures s[..n][lo..hi] == s[lo..hi]
  {
  }

  // ---------------------------------------------------------------------------
  // Normalisation of the magnitude spectrum
  // ---------------------------------------------------------------------------

  /** `invVmax`: the q15 "reciprocal" `(0x7FFF << 15) / vmax`, C division, saturated to q15. */
  function InvVmax(vmax: int16): int16
    requires vmax != 0
  {
    Sat16(CDiv(0x7FFF * 32768, vmax))
  }

  /** One normalised sample as written: `SSAT16((buf[i] * invVmax) >> 15)`. */
  function NormalizedSample(x: int16, vmax: int16): int16
    requires vmax != 0
  {
    Sat16(((x as int) * (InvVmax(vmax) as int)) / 32768)
  }

  /**
   * The normalisation step of `Spectrogram_Compute`: the first half of the buffer
   * is scaled by `invVmax`. There is no check on vmax, so vmax != 0 is demanded
   * of the caller; the second half is left as it was.
   */
  method Normalize(buf: array<int16>, vmax: int16)
    requires vmax != 0
    modifies buf
    ensures forall k :: 0 <= k < buf.Length / 2 ==> buf[k] == NormalizedSample(old(buf[k]), vmax)
    ensures buf[buf.Length / 2..] == old(buf[buf.Length / 2..])
  {
    var reciprocal := CDiv(0x7FFF * 32768, vmax);
    var invVmax := Sat16(reciprocal);
    for i := 0 to buf.Length / 2
      invariant forall k :: 0 <= k < i ==> buf[k] == NormalizedSample(old(buf[k]), vmax)
      invariant forall k :: i <= k < buf.Length ==> buf[k] == old(buf[k])
    {
      var tmp := ((buf[i] as int) * (invVmax as int)) / 32768;
      buf[i] := Sat16(tmp);
    }
  }

  /** For every positive vmax the reciprocal is at least 2^15 and saturates: invVmax is always 32767. */
  lemma InvVmaxSaturates(vmax: int16)
    requires vmax > 0
    ensures InvVmax(vmax) == 0x7FFF
  {
    var q := (0x7FFF * 32768) / vmax;
    if q < 32768 {
      MulMonotone(q + 1, 32768, vmax);
      MulMonotone(vmax, 32767, 32768);
      assert (q + 1) * vmax <= 32768 * vmax;
    }
  }

  /** Consequently the step never enlarges a non-negative sample, whatever vmax is. */
  lemma NormalizeNeverScalesUp(x: int16, vmax: int16)
    requires x >= 0 && vmax > 0
    ensures 0 <= NormalizedSample(x, vmax) <= x
  {
    InvVmaxSaturates(vmax);
    MulMonotone(0, x, 0x7FFF);
  }

  /** A sample at half of vmax = 0.5 stays at about a quarter of full scale instead of reaching full scale. */
  lemma NormalizeHalfScaleExample()
    ensures NormalizedSample(8192, 16384) == 8191
    ensures IntendedNormalizedSample(8192, 16384) == 16384
  {
    InvVmaxSaturates(16384);
  }

  /** The normalisation the comments describe: divide by vmax in q15, i.e. `(x << 15) / vmax`, saturated. */
  function IntendedNormalizedSample(x: int16, vmax: int16): int16
    requires vmax != 0
  {
    Sat16(CDiv((x as int) * 32768, vmax))
  }

  /** Intended normalisation increases the dynamic range: a sample in [0, vmax] never shrinks, and vmax itself maps to full scale. */
  lemma IntendedNormalizedScales(x: int16, vmax: int16)
    requires 0 <= x <= vmax && vmax > 0
    ensures x <= IntendedNormalizedSample(x, vmax) <= 0x7FFF
    ensures x == vmax ==> IntendedNormalizedSample(x, vmax) == 0x7FFF
  {
    var q := (x * 32768) / vmax;
    MulNonneg(x, 32768);
    if q < x {
      MulMonotone(q + 1, x, vmax);
      MulMonotone(vmax, 32768, x);
      assert (q + 1) * vmax <= x * 32768;
    }
    if x == vmax {
      ModUnique(x * 32768, 32768, vmax, 0);
    }
  }
}
