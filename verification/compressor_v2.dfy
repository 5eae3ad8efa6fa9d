/**
 * The byte compressors of the compression prototype: the identity coder, a
 * run-length coder whose every run is a marker byte (high bit set, low seven
 * bits the length) followed by the value, and a delta coder that keeps the
 * first byte and then the differences modulo 256.
 */
module CompressorV2 {
  import opened Wrappers
  import opened Bits
  import opened Seqs

  /** `compress_none`: the bytes themselves. */
  function CompressNone(data: seq<uint8>): seq<uint8>
  {
    data
  }

  /** `decompress_none`: the bytes themselves. */
  function DecompressNone(data: seq<uint8>): seq<uint8>
  {
    data
  }

  lemma NoneRoundTrip(data: seq<uint8>)
    ensures DecompressNone(CompressNone(data)) == data
  {
  }

  // ---------------------------------------------------------------------------
  // Run-length coding
  // ---------------------------------------------------------------------------

  /** Every run qualifies for a marker pair, so the literal branches never run. */
  const MIN_RUN_LENGTH: nat := 1

  /** `len` equal bytes of value `value`. */
  datatype Run = Run(value: uint8, len: nat)

  /** The bytes a list of runs stands for. */
  function Expand(runs: seq<Run>): seq<uint8>
  {
    if runs == [] then [] else Expand(runs[..|runs| - 1]) + Repeat(runs[|runs| - 1].value, runs[|runs| - 1].len)
  }

  /**
   * The maximal runs of equal bytes, in order: a byte equal to the current run's
   * value extends it, any other byte starts a new run of length one.
   */
  function Runs(data: seq<uint8>): seq<Run>
  {
    if data == [] then [] else Push(Runs(data[..|data| - 1]), data[|data| - 1])
  }

  function Push(runs: seq<Run>, x: uint8): seq<Run>
  {
    if runs != [] && runs[|runs| - 1].value == x then runs[..|runs| - 1] + [Run(x, runs[|runs| - 1].len + 1)]
    else runs + [Run(x, 1)]
  }

  /** Runs are never empty and neighbouring runs hold different values. */
  predicate MaximalRuns(runs: seq<Run>)
  {
    (forall k :: 0 <= k < |runs| ==> runs[k].len >= 1) &&
    (forall k :: 0 < k < |runs| ==> runs[k - 1].value != runs[k].value)
  }

  lemma {:induction false} RunsMaximal(data: seq<uint8>)
    ensures MaximalRuns(Runs(data))
    ensures data != [] ==> Runs(data) != [] && Runs(data)[|Runs(data)| - 1].value == data[|data| - 1]
  {
    if data != [] {
      RunsMaximal(data[..|data| - 1]);
    }
  }

  lemma ExpandSnoc(runs: seq<Run>, r: Run)
    ensures Expand(runs + [r]) == Expand(runs) + Repeat(r.value, r.len)
  {
    assert (runs + [r])[..|runs|] == runs;
  }

  lemma RunsSnoc(init: seq<uint8>, x: uint8)
    ensures Runs(init + [x]) == Push(Runs(init), x)
  {
    assert (init + [x])[..|init|] == init;
  }

  /**
   * One more byte after a prefix whose last run is (v, len): the same value extends
   * that run, a different one closes it and opens a run of length 1.
   */
  lemma RunsStep(data: seq<uint8>, i: nat, done: seq<Run>, v: uint8, len: nat)
    requires i < |data| && Runs(data[..i]) == done + [Run(v, len)]
    ensures data[i] == v ==> Runs(data[..i + 1]) == done + [Run(v, len + 1)]
    ensures data[i] != v ==> Runs(data[..i + 1]) == done + [Run(v, len)] + [Run(data[i], 1)]
  {
    assert data[..i + 1] == data[..i] + [data[i]];
    RunsSnoc(data[..i], data[i]);
    var cur := done + [Run(v, len)];
    assert cur[..|cur| - 1] == done;
  }

  lemma ExpandRunsSnoc(init: seq<uint8>, x: uint8)
    requires Expand(Runs(init)) == init
    ensures Expand(Runs(init + [x])) == init + [x]
  {
    var prev := Runs(init);
    RunsSnoc(init, x);
    if prev != [] && prev[|prev| - 1].value == x {
      var n := |prev| - 1;
      var base, last := prev[..n], prev[n];
      assert prev == base + [last];
      ExpandSnoc(base, last);
      ExpandSnoc(base, Run(x, last.len + 1));
      RepeatAdd(x, last.len, 1);
    } else {
      ExpandSnoc(prev, Run(x, 1));
    }
  }

  /** Expanding the runs gives back the data: no byte is lost, added or reordered. */
  lemma {:induction false} RunsExpand(data: seq<uint8>)
    ensures Expand(Runs(data)) == data
  {
    if data != [] {
      var init, x := data[..|data| - 1], data[|data| - 1];
      assert data == init + [x];
      RunsExpand(init);
      ExpandRunsSnoc(init, x);
    }
  }

  /**
   * The marker of a run of `n` (at most 127) bytes: `0x80 | n`, which is
   * 0x80 + n since n leaves the high bit clear (Bits.HighBitOr).
   */
  function Marker(n: nat): uint8
    requires n <= 127
  {
    0x80 + n
  }

  /** The pairs one run becomes: chunks of 127 while more than 127 remain, then the rest. */
  function EmitRun(v: uint8, n: nat): seq<uint8>
    decreases n
  {
    if n > 127 then [Marker(127), v] + EmitRun(v, n - 127) else [Marker(n), v]
  }

  /** The number of pairs a run of `n >= 1` bytes takes. */
  function Chunks(n: nat): nat
  {
    (n + 126) / 127
  }

  /**
   * A run of n bytes is split into Chunks(n) pairs: every pair holds the value,
   * every pair but the last is a full chunk of 127 and the last holds the remainder.
   */
  lemma {:induction false} EmitRunShape(v: uint8, n: nat)
    requires n >= 1
    ensures |EmitRun(v, n)| == 2 * Chunks(n)
    ensures forall k :: 0 <= k < Chunks(n) ==> EmitRun(v, n)[2 * k + 1] == v
    ensures forall k :: 0 <= k < Chunks(n) - 1 ==> EmitRun(v, n)[2 * k] == Marker(127)
    ensures EmitRun(v, n)[2 * Chunks(n) - 2] == Marker(n - 127 * (Chunks(n) - 1))
    decreases n
  {
    if n > 127 {
      EmitRunShape(v, n - 127);
      assert Chunks(n) == Chunks(n - 127) + 1;
      var s, tail := EmitRun(v, n), EmitRun(v, n - 127);
      assert s == [Marker(127), v] + tail;
      forall k | 1 <= k < Chunks(n)
        ensures s[2 * k + 1] == v
        ensures k < Chunks(n) - 1 ==> s[2 * k] == Marker(127)
      {
        var j := k - 1;
        assert s[2 * k + 1] == tail[2 * j + 1] && s[2 * k] == tail[2 * j];
      }
    }
  }

  /** The encoding of a list of runs: their pairs, one run after the other. */
  function EncodeRuns(runs: seq<Run>): seq<uint8>
  {
    if runs == [] then [] else EncodeRuns(runs[..|runs| - 1]) + EmitRun(runs[|runs| - 1].value, runs[|runs| - 1].len)
  }

  /** Encoding one more run appends that run's pairs. */
  lemma EncodeRunsSnoc(runs: seq<Run>, run: Run)
    ensures EncodeRuns(runs + [run]) == EncodeRuns(runs) + EmitRun(run.value, run.len)
  {
    assert (runs + [run])[..|runs|] == runs;
  }

  /**
   * The decoder's view: a byte with the high bit set (`b & 0x80`, that is
   * b >= 128 by Bits.ByteMasks) is a marker, any other byte is a literal.
   */
  predicate IsMarker(b: uint8)
  {
    b >= 0x80
  }

  /** The run length a marker carries: `b & 0x7F`, that is b modulo 128 (Bits.ByteMasks). */
  function RunLength(b: uint8): nat
  {
    b % 0x80
  }

  /** Prefixing a successful result; a failure stays a failure. */
  function Prepend(p: seq<uint8>, o: Option<seq<uint8>>): Option<seq<uint8>>
  {
    if o.Some? then Some(p + o.value) else None
  }

  /**
   * `decompress_rle`: a literal byte is copied, a marker `b` expands into
   * `b & 0x7F` copies of the next byte; a marker with no next byte fails
   * (the source raises an index error).
   */
  function RleDecode(data: seq<uint8>): Option<seq<uint8>>
    decreases |data|
  {
    if data == [] then Some([])
    else if !IsMarker(data[0]) then Prepend([data[0]], RleDecode(data[1..]))
    else if |data| < 2 then None
    else Prepend(Repeat(data[1], RunLength(data[0])), RleDecode(data[2..]))
  }

  lemma PrependPrepend(a: seq<uint8>, b: seq<uint8>, o: Option<seq<uint8>>)
    ensures Prepend(a, Prepend(b, o)) == Prepend(a + b, o)
  {
    if o.Some? {
      assert a + (b + o.value) == (a + b) + o.value;
    }
  }

  /** Decoding the pairs of one run, then anything, yields the run, then the decoding of the rest. */
  lemma {:induction false} DecodeEmitRun(v: uint8, n: nat, rest: seq<uint8>)
    requires n >= 1
    ensures RleDecode(EmitRun(v, n) + rest) == Prepend(Repeat(v, n), RleDecode(rest))
    decreases n
  {
    var s := EmitRun(v, n) + rest;
    if n > 127 {
      var tail := EmitRun(v, n - 127) + rest;
      assert s == [Marker(127), v] + tail;
      assert s[2..] == tail;
      DecodeEmitRun(v, n - 127, rest);
      PrependPrepend(Repeat(v, 127), Repeat(v, n - 127), RleDecode(rest));
      RepeatAdd(v, 127, n - 127);
    } else {
      assert s[2..] == rest;
    }
  }

  lemma {:induction false} DecodeEncodeRuns(runs: seq<Run>, rest: seq<uint8>)
    requires forall k :: 0 <= k < |runs| ==> runs[k].len >= 1
    ensures RleDecode(EncodeRuns(runs) + rest) == Prepend(Expand(runs), RleDecode(rest))
  {
    if runs != [] {
      var n := |runs| - 1;
      var init, last := runs[..n], runs[n];
      var pairs := EmitRun(last.value, last.len);
      assert EncodeRuns(runs) + rest == EncodeRuns(init) + (pairs + rest);
      DecodeEncodeRuns(init, pairs + rest);
      DecodeEmitRun(last.value, last.len, rest);
      PrependPrepend(Expand(init), Repeat(last.value, last.len), RleDecode(rest));
    } else {
      assert [] + rest == rest;
      if RleDecode(rest).Some? {
        assert [] + RleDecode(rest).value == RleDecode(rest).value;
      }
    }
  }

  /** `decompress_rle(compress_rle(d)) == d` for every non-empty input. */
  lemma RleRoundTrip(data: seq<uint8>)
    requires data != []
    ensures RleDecode(EncodeRuns(Runs(data))) == Some(data)
  {
    var runs := Runs(data);
    var c := EncodeRuns(runs);
    RunsMaximal(data);
    RunsExpand(data);
    DecodeEncodeRuns(runs, []);
    assert c + [] == c;
    assert RleDecode([]) == Some([]);
    assert Expand(runs) + [] == data;
  }

  /**
   * The compressed text is made of pairs only: every even position holds a
   * marker with a length between 1 and 127, never a literal byte.
   */
  predicate OnlyPairs(c: seq<uint8>)
  {
    |c| % 2 == 0 &&
    forall k :: 0 <= k < |c| / 2 ==> IsMarker(c[2 * k]) && 1 <= RunLength(c[2 * k]) <= 127
  }

  /** The sum of the run lengths of a text made of pairs. */
  function PairTotal(c: seq<uint8>): nat
    decreases |c|
  {
    if |c| < 2 then 0 else RunLength(c[0]) + PairTotal(c[2..])
  }

  lemma {:induction false} PairsAppend(a: seq<uint8>, b: seq<uint8>)
    requires OnlyPairs(a) && OnlyPairs(b)
    ensures OnlyPairs(a + b)
    ensures PairTotal(a + b) == PairTotal(a) + PairTotal(b)
    decreases |a|
  {
    var c := a + b;
    forall k | 0 <= k < |c| / 2
      ensures IsMarker(c[2 * k]) && 1 <= RunLength(c[2 * k]) <= 127
    {
      if k < |a| / 2 {
        assert c[2 * k] == a[2 * k];
      } else {
        assert c[2 * k] == b[2 * (k - |a| / 2)];
      }
    }
    if |a| >= 2 {
      assert OnlyPairs(a[2..]) by {
        forall k | 0 <= k < |a[2..]| / 2
          ensures IsMarker(a[2..][2 * k]) && 1 <= RunLength(a[2..][2 * k]) <= 127
        {
          assert a[2..][2 * k] == a[2 * (k + 1)];
        }
      }
      PairsAppend(a[2..], b);
      assert c[2..] == a[2..] + b;
    } else {
      assert c == b;
    }
  }

  lemma {:induction false} EmitRunPairs(v: uint8, n: nat)
    requires n >= 1
    ensures OnlyPairs(EmitRun(v, n)) && PairTotal(EmitRun(v, n)) == n
    decreases n
  {
    var s := EmitRun(v, n);
    if n > 127 {
      EmitRunPairs(v, n - 127);
      var head, tail := [Marker(127), v], EmitRun(v, n - 127);
      assert OnlyPairs(head) && PairTotal(head[2..]) == 0;
      PairsAppend(head, tail);
    } else {
      assert s[2..] == [];
    }
  }

  /**
   * The encoding of non-empty runs holds only pairs, and its lengths add up to
   * the number of bytes the runs stand for.
   */
  lemma {:induction false} EncodeRunsPairs(runs: seq<Run>)
    requires forall k :: 0 <= k < |runs| ==> runs[k].len >= 1
    ensures OnlyPairs(EncodeRuns(runs)) && PairTotal(EncodeRuns(runs)) == |Expand(runs)|
  {
    if runs != [] {
      var n := |runs| - 1;
      EncodeRunsPairs(runs[..n]);
      EmitRunPairs(runs[n].value, runs[n].len);
      PairsAppend(EncodeRuns(runs[..n]), EmitRun(runs[n].value, runs[n].len));
    }
  }

  /** The output of `compress_rle` is all marker pairs whose lengths sum to the input length. */
  lemma CompressedPairs(data: seq<uint8>)
    ensures OnlyPairs(EncodeRuns(Runs(data)))
    ensures PairTotal(EncodeRuns(Runs(data))) == |data|
  {
    RunsMaximal(data);
    RunsExpand(data);
    EncodeRunsPairs(Runs(data));
  }

  /** The inner `while run_length > 127` loop and the closing pair, appended to `compressed`. */
  method AppendRun(compressed: seq<uint8>, runValue: uint8, runLength0: nat) returns (out: seq<uint8>)
    requires runLength0 >= MIN_RUN_LENGTH
    ensures out == compressed + EmitRun(runValue, runLength0)
  {
    out := compressed;
    var runLength := runLength0;
    while runLength > 127
      invariant runLength >= 1
      invariant out + EmitRun(runValue, runLength) == compressed + EmitRun(runValue, runLength0)
    {
      out := out + [Marker(127), runValue];
      runLength := runLength - 127;
    }
    out := out + [Marker(runLength), runValue];
  }

  /**
   * `compress_rle`: the runs of the input, each as marker pairs. The source
   * indexes `data[0]` and fails on an empty input, here `None`.
   */
  method CompressRle(data: seq<uint8>) returns (r: Option<seq<uint8>>)
    ensures data == [] <==> r.None?
    ensures r.Some? ==> r.value == EncodeRuns(Runs(data))
  {
    if data == [] {
      return None;
    }
    var compressed: seq<uint8> := [];
    var runStart := 0;
    var runValue := data[0];
    ghost var done: seq<Run> := [];
    assert data[..1] == [data[0]];
    for i := 1 to |data|
      invariant 0 <= runStart < i
      invariant Runs(data[..i]) == done + [Run(runValue, i - runStart)]
      invariant compressed == EncodeRuns(done)
    {
      var value := data[i];
      RunsStep(data, i, done, runValue, i - runStart);
      if value != runValue {
        compressed, done := CloseRun(compressed, done, runValue, i - runStart);
        runStart := i;
        runValue := value;
      }
    }
    compressed, done := CloseRun(compressed, done, runValue, |data| - runStart);
    assert data[..|data|] == data;
    return Some(compressed);
  }

  /**
   * The run-closing step of `compress_rle`, taken at a change of value and after the
   * last byte: the run's pairs are appended (the length check never fails, since a
   * run holds at least one byte) and the run joins the ones already encoded.
   */
  method CloseRun(compressed: seq<uint8>, ghost done: seq<Run>, runValue: uint8, runLength: nat)
    returns (out: seq<uint8>, ghost done': seq<Run>)
    requires compressed == EncodeRuns(done) && runLength >= 1
    ensures done' == done + [Run(runValue, runLength)]
    ensures out == EncodeRuns(done')
  {
    if runLength >= MIN_RUN_LENGTH {
      out := AppendRun(compressed, runValue, runLength);
    } else {
      assert false;
    }
    EncodeRunsSnoc(done, Run(runValue, runLength));
    done' := done + [Run(runValue, runLength)];
  }

  /** `decompress_rle`, scanning the input from the front. */
  method DecompressRle(data: seq<uint8>) returns (r: Option<seq<uint8>>)
    ensures r == RleDecode(data)
  {
    var decompressed: seq<uint8> := [];
    var i := 0;
    assert data[0..] == data;
    if RleDecode(data).Some? {
      assert [] + RleDecode(data).value == RleDecode(data).value;
    }
    while i < |data|
      invariant i <= |data|
      invariant RleDecode(data) == Prepend(decompressed, RleDecode(data[i..]))
    {
      var b := data[i];
      if IsMarker(b) {
        var runLength := RunLength(b);
        if i + 1 >= |data| {
          return None;
        }
        var runValue := data[i + 1];
        assert data[i..][2..] == data[i + 2..];
        PrependPrepend(decompressed, Repeat(runValue, runLength), RleDecode(data[i + 2..]));
        decompressed := decompressed + Repeat(runValue, runLength);
        i := i + 2;
      } else {
        assert data[i..][1..] == data[i + 1..];
        PrependPrepend(decompressed, [b], RleDecode(data[i + 1..]));
        decompressed := decompressed + [b];
        i := i + 1;
      }
    }
    assert decompressed + [] == decompressed;
    return Some(decompressed);
  }

  // ---------------------------------------------------------------------------
  // Delta coding
  // ---------------------------------------------------------------------------

  /** The delta encoding: the first byte, then each byte minus its predecessor modulo 256. */
  function DeltaEncode(data: seq<uint8>): (c: seq<uint8>)
    ensures |c| == |data|
  {
    seq(|data|, k requires 0 <= k < |data| => if k == 0 then data[0] else Diff(data[k - 1], data[k]))
  }

  /** Byte 0 of the encoding is the first byte; adding byte k back to byte k - 1 of the input gives byte k. */
  lemma DeltaEncodeBytes(data: seq<uint8>, k: nat)
    requires k < |data|
    ensures k == 0 ==> DeltaEncode(data)[k] == data[0]
    ensures k >= 1 ==> AddMod(data[k - 1], DeltaEncode(data)[k]) == data[k]
  {
    if k >= 1 {
      assert DeltaEncode(data)[k] == Diff(data[k - 1], data[k]);
      ModAddSub(data[k - 1], data[k]);
    }
  }

  /** `(value - prev) & 0xff`: the difference of two bytes modulo 256. */
  function Diff(prev: uint8, value: uint8): uint8
  {
    (value as int - prev as int) % 256
  }

  /** `(prev + diff) & 0xff`: the sum of two bytes modulo 256. */
  function AddMod(prev: uint8, diff: uint8): uint8
  {
    (prev as int + diff as int) % 256
  }

  /** The delta decoding: running sums modulo 256, starting from the first byte. */
  function DeltaDecode(c: seq<uint8>): (d: seq<uint8>)
    ensures |d| == |c|
    ensures c != [] ==> d[0] == c[0]
  {
    if |c| <= 1 then c
    else
      var p := DeltaDecode(c[..|c| - 1]);
      p + [AddMod(p[|p| - 1], c[|c| - 1])]
  }

  /** Each decoded byte after the first is its predecessor plus the difference, modulo 256. */
  lemma {:induction false} DeltaDecodeStep(c: seq<uint8>, k: nat)
    requires 1 <= k < |c|
    ensures DeltaDecode(c)[k] == AddMod(DeltaDecode(c)[k - 1], c[k])
    decreases |c|
  {
    var n := |c| - 1;
    var p := DeltaDecode(c[..n]);
    assert DeltaDecode(c) == p + [AddMod(p[n - 1], c[n])];
    if k < n {
      DeltaDecodeStep(c[..n], k);
    }
  }

  /**
   * `compress_delta`: byte 0 is kept and byte k becomes `(data[k] - data[k-1]) & 0xff`.
   * The source indexes `data[0]` and fails on an empty input, here `None`.
   */
  method CompressDelta(data: seq<uint8>) returns (r: Option<seq<uint8>>)
    ensures data == [] <==> r.None?
    ensures r.Some? ==> r.value == DeltaEncode(data)
  {
    if data == [] {
      return None;
    }
    var compressed := [data[0]];
    var prev := data[0];
    for i := 1 to |data|
      invariant prev == data[i - 1]
      invariant compressed == DeltaEncode(data)[..i]
    {
      var value := data[i];
      var diff := (value as int - prev as int) % 256;
      compressed := compressed + [diff];
      prev := value;
    }
    return Some(compressed);
  }

  /** `decompress_delta`: the empty input decodes to nothing. */
  method DecompressDelta(data: seq<uint8>) returns (r: seq<uint8>)
    ensures r == DeltaDecode(data)
  {
    if data == [] {
      return [];
    }
    var result := [data[0]];
    for i := 1 to |data|
      invariant result == DeltaDecode(data)[..i]
    {
      var diff := data[i];
      DeltaDecodeStep(data, i);
      result := result + [(result[i - 1] as int + diff as int) % 256];
    }
    return result;
  }

  /** Adding back a difference taken modulo 256 restores the byte; both directions. */
  lemma ModAddSub(a: uint8, b: uint8)
    ensures AddMod(a, Diff(a, b)) == b
    ensures Diff(a, AddMod(a, b)) == b
  {
    ModUnique(b, 0, 256, b);
    if a <= b {
      ModUnique(b - a, 0, 256, b - a);
    } else {
      ModUnique(b - a, -1, 256, b - a + 256);
      ModUnique(b + 256, 1, 256, b);
    }
    if a + b < 256 {
      ModUnique(a + b, 0, 256, a + b);
    } else {
      ModUnique(a + b, 1, 256, a + b - 256);
      ModUnique(b - 256, -1, 256, b);
    }
  }

  /** `decompress_delta(compress_delta(d)) == d` for every input. */
  lemma DeltaRoundTrip(data: seq<uint8>)
    ensures DeltaDecode(DeltaEncode(data)) == data
  {
    forall k | 0 <= k < |data|
      ensures DeltaDecode(DeltaEncode(data))[k] == data[k]
    {
      DeltaRoundTripAt(data, k);
    }
  }

  lemma {:induction false} DeltaRoundTripAt(data: seq<uint8>, k: nat)
    requires k < |data|
    ensures DeltaDecode(DeltaEncode(data))[k] == data[k]
  {
    if k > 0 {
      DeltaRoundTripAt(data, k - 1);
      DeltaDecodeStep(DeltaEncode(data), k);
      ModAddSub(data[k - 1], data[k]);
    }
  }

  /** The other direction: encoding a decoding gives back the encoded text. */
  lemma DeltaRoundTripInverse(c: seq<uint8>)
    ensures DeltaEncode(DeltaDecode(c)) == c
  {
    forall k | 0 <= k < |c|
      ensures DeltaEncode(DeltaDecode(c))[k] == c[k]
    {
      DeltaInverseAt(c, k);
    }
  }

  lemma DeltaInverseAt(c: seq<uint8>, k: nat)
    requires k < |c|
    ensures DeltaEncode(DeltaDecode(c))[k] == c[k]
  {
    var d := DeltaDecode(c);
    var e := DeltaEncode(d);
    if k > 0 {
      var a, b := d[k - 1], c[k];
      DeltaDecodeStep(c, k);
      ModAddSub(a, b);
      assert e[k] == Diff(a, d[k]);
    } else {
      assert e[0] == d[0];
    }
  }
}
