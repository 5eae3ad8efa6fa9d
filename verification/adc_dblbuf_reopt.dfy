/**
 * The acquisition loop of the re-optimized sensor build: the DMA half and
 * full callbacks hand a whole half of the double buffer to the main loop
 * through a ready flag, and the main loop turns it into a spectrogram, checks
 * the (unrolled, branchless) threshold and sends the packet. Callbacks and the
 * main loop run one after another.
 */
module AdcDblbufReopt {
  import opened Bits
  import opened MelEncoding
  import Packet
  import AdcDblbuf

  const MEL_NUM_VEC: nat := 20
  const MEL_VEC_LENGTH: nat := 18
  const SAMPLES_NUM: nat := 512
  const ADC_BUF_SIZE: nat := SAMPLES_NUM * MEL_NUM_VEC
  const SENDER_ID: byte := 0x01
  const THRESHOLD_LV1_VALUE: int := 5
  const THRESHOLD_LV2_VALUE: int := 10
  const THRESHOLD_LV3_VALUE: int := 20
  const PAYLOAD_LENGTH: nat := 2 * (MEL_NUM_VEC * MEL_VEC_LENGTH)
  const PACKET_LENGTH: nat := Packet.PACKET_HEADER_LENGTH + PAYLOAD_LENGTH + Packet.PACKET_TAG_LENGTH
  const HAL_OK: int := 0

  // ---------------------------------------------------------------------
  // threshold_MELWorkingBuf
  // ---------------------------------------------------------------------

  /** The sum of the exact magnitudes of a vector (-32768 counts as 32768). */
  function AbsSum(row: seq<int16>): (s: int)
    ensures s >= 0
  {
    if row == [] then 0 else AbsSum(row[..|row| - 1]) + Abs(row[|row| - 1])
  }

  lemma AbsSumPrefix(row: seq<int16>, j: nat)
    requires j < |row|
    ensures AbsSum(row[..j + 1]) == AbsSum(row[..j]) + Abs(row[j])
  {
    assert row[..j + 1][..j] == row[..j];
  }

  /** Four steps of the sum at once: the unrolled body adds exactly entries j .. j+3. */
  lemma AbsSumStep4(row: seq<int16>, j: nat)
    requires j + 4 <= |row|
    ensures AbsSum(row[..j + 4]) == AbsSum(row[..j]) + BranchlessAbs(row[j]) + BranchlessAbs(row[j + 1])
                                    + BranchlessAbs(row[j + 2]) + BranchlessAbs(row[j + 3])
  {
    AbsSumPrefix(row, j);
    AbsSumPrefix(row, j + 1);
    AbsSumPrefix(row, j + 2);
    AbsSumPrefix(row, j + 3);
    BranchlessAbsIsAbs(row[j]);
    BranchlessAbsIsAbs(row[j + 1]);
    BranchlessAbsIsAbs(row[j + 2]);
    BranchlessAbsIsAbs(row[j + 3]);
  }

  lemma AbsSumStep1(row: seq<int16>, j: nat)
    requires j < |row|
    ensures AbsSum(row[..j + 1]) == AbsSum(row[..j]) + BranchlessAbs(row[j])
  {
    AbsSumPrefix(row, j);
    BranchlessAbsIsAbs(row[j]);
  }

  /** Some entry below j has a magnitude above t. */
  predicate AnyAbove(row: seq<int16>, j: nat, t: int)
    requires j <= |row|
  {
    exists k :: 0 <= k < j && Abs(row[k]) > t
  }

  /**
   * The mode-1 inner loops over vector i added to acc0: four at a time while
   * `j <= MEL_VEC_LENGTH - 4`, then one at a time. Every entry is added once.
   */
  method SumAbsInclusive(mel: array2<int16>, i: nat, acc0: int, ghost row: seq<int16>) returns (acc: int)
    requires i < mel.Length0 && mel.Length1 >= 4
    requires |row| == mel.Length1 && forall j :: 0 <= j < |row| ==> row[j] == mel[i, j]
    ensures acc == acc0 + AbsSum(row)
  {
    var len := mel.Length1;
    acc := acc0;
    var j := 0;
    while j <= len - 4
      invariant j <= len && acc == acc0 + AbsSum(row[..j])
    {
      AbsSumStep4(row, j);
      acc := acc + (BranchlessAbs(mel[i, j]) + BranchlessAbs(mel[i, j + 1])
                    + BranchlessAbs(mel[i, j + 2]) + BranchlessAbs(mel[i, j + 3]));
      j := j + 4;
    }
    while j < len
      invariant j <= len && acc == acc0 + AbsSum(row[..j])
    {
      AbsSumStep1(row, j);
      acc := acc + BranchlessAbs(mel[i, j]);
      j := j + 1;
    }
    assert row[..j] == row;
  }

  /** The mode-2 inner loops: the unrolled part stops while `j < MEL_VEC_LENGTH - 4`. */
  method SumAbsStrict(mel: array2<int16>, i: nat, ghost row: seq<int16>) returns (sum: int)
    requires i < mel.Length0 && mel.Length1 >= 4
    requires |row| == mel.Length1 && forall j :: 0 <= j < |row| ==> row[j] == mel[i, j]
    ensures sum == AbsSum(row)
  {
    var len := mel.Length1;
    sum := 0;
    var j := 0;
    while j < len - 4
      invariant j <= len && sum == AbsSum(row[..j])
    {
      AbsSumStep4(row, j);
      sum := sum + (BranchlessAbs(mel[i, j]) + BranchlessAbs(mel[i, j + 1])
                    + BranchlessAbs(mel[i, j + 2]) + BranchlessAbs(mel[i, j + 3]));
      j := j + 4;
    }
    while j < len
      invariant j <= len && sum == AbsSum(row[..j])
    {
      AbsSumStep1(row, j);
      sum := sum + BranchlessAbs(mel[i, j]);
      j := j + 1;
    }
    assert row[..j] == row;
  }

  lemma AnyAboveStep(row: seq<int16>, j: nat, t: int)
    requires j < |row|
    ensures AnyAbove(row, j + 1, t) <==> AnyAbove(row, j, t) || BranchlessAbs(row[j]) > t
  {
    BranchlessAbsIsAbs(row[j]);
    if AnyAbove(row, j + 1, t) && !(BranchlessAbs(row[j]) > t) {
      var k :| 0 <= k < j + 1 && Abs(row[k]) > t;
      assert k < j;
    }
  }

  /** The mode-3 inner loops: whether some magnitude of vector i exceeds t. */
  method AnyAboveUnrolled(mel: array2<int16>, i: nat, t: int, ghost row: seq<int16>) returns (found: bool)
    requires i < mel.Length0 && mel.Length1 >= 4
    requires |row| == mel.Length1 && forall j :: 0 <= j < |row| ==> row[j] == mel[i, j]
    ensures found <==> AnyAbove(row, |row|, t)
  {
    var len := mel.Length1;
    found := false;
    var j := 0;
    while j < len - 4
      invariant j <= len && (found <==> AnyAbove(row, j, t))
    {
      AnyAboveStep(row, j, t);
      AnyAboveStep(row, j + 1, t);
      AnyAboveStep(row, j + 2, t);
      AnyAboveStep(row, j + 3, t);
      found := found || BranchlessAbs(mel[i, j]) > t;
      found := found || BranchlessAbs(mel[i, j + 1]) > t;
      found := found || BranchlessAbs(mel[i, j + 2]) > t;
      found := found || BranchlessAbs(mel[i, j + 3]) > t;
      j := j + 4;
    }
    while j < len
      invariant j <= len && (found <==> AnyAbove(row, j, t))
    {
      AnyAboveStep(row, j, t);
      found := found || BranchlessAbs(mel[i, j]) > t;
      j := j + 1;
    }
  }

  /**
   * threshold_MELWorkingBuf for THRESHOLD_MODE mode: every path, the early
   * returns included, returns 1.
   */
  method ThresholdMelWorkingBuf(mel: array2<int16>, mode: int) returns (r: int)
    requires mel.Length1 >= 4
    ensures r == 1
  {
    ghost var rows := Rows(mel);
    if mode == 1 {
      var t := THRESHOLD_LV1_VALUE;
      var total := 0;
      for i := 0 to mel.Length0 {
        total := SumAbsInclusive(mel, i, total, rows[i]);
        if i % 2 == 1 && total > t {
          return 1;
        }
      }
      if total > t {
        return 1;
      }
    } else if mode == 2 {
      var t := THRESHOLD_LV2_VALUE;
      for i := 0 to mel.Length0 {
        var sum := SumAbsStrict(mel, i, rows[i]);
        if sum > t {
          return 1;
        }
      }
    } else if mode == 3 {
      var t := THRESHOLD_LV3_VALUE;
      for i := 0 to mel.Length0 {
        var maxFound := AnyAboveUnrolled(mel, i, t, rows[i]);
        if maxFound {
          return 1;
        }
      }
    }
    return 1;
  }

  // ---------------------------------------------------------------------
  // The acquisition state
  // ---------------------------------------------------------------------

  /** A spectrogram of the shape of MELWorkingBuf. */
  predicate Shaped(spec: seq<seq<int16>>)
  {
    |spec| == MEL_NUM_VEC && AllLength(spec, MEL_VEC_LENGTH)
  }

  class Pipeline {
    /** buffer_ready: a half of the DMA buffer waits in ADCWorkingBuf. */
    var bufferReady: bool
    /** current_proc_buf: which half was copied last. */
    var currentProcBuf: nat
    var packetCnt: bv32
    /** Error_Handler was entered. */
    var halted: bool
    /** ADCWorkingBuf */
    var working: seq<int>
    /** MELWorkingBuf */
    const mel: array2<int16>
    /** The packets handed to S2LP_Send, in order. */
    var sent: seq<seq<byte>>
    const aes: Packet.Block -> Packet.Block
    /** OPT_PACKET_ON: the word-packing encoder rather than the indexed one. */
    const pairedEncoder: bool
    const thresholdMode: int

    ghost predicate Valid()
      reads this
    {
      mel.Length0 == MEL_NUM_VEC && mel.Length1 == MEL_VEC_LENGTH && currentProcBuf <= 1
    }

    /** The static storage starts zeroed. */
    constructor (aes: Packet.Block -> Packet.Block, pairedEncoder: bool, thresholdMode: int)
      ensures Valid()
      ensures !bufferReady && currentProcBuf == 0 && packetCnt == 0 && !halted && sent == []
      ensures working == seq(ADC_BUF_SIZE, _ => 0)
      ensures fresh(mel) && forall i, j :: 0 <= i < MEL_NUM_VEC && 0 <= j < MEL_VEC_LENGTH ==> mel[i, j] == 0
      ensures this.aes == aes && this.pairedEncoder == pairedEncoder && this.thresholdMode == thresholdMode
    {
      bufferReady := false;
      currentProcBuf := 0;
      packetCnt := 0;
      halted := false;
      working := seq(ADC_BUF_SIZE, _ => 0);
      mel := new int16[MEL_NUM_VEC, MEL_VEC_LENGTH]((_, _) => 0);
      sent := [];
      this.aes := aes;
      this.pairedEncoder := pairedEncoder;
      this.thresholdMode := thresholdMode;
    }

    /** StartADCAcq: the flag, the half index and the packet counter restart at 0. */
    method StartADCAcq() returns (status: int)
      modifies this
      requires Valid()
      ensures Valid()
      ensures !bufferReady && currentProcBuf == 0 && packetCnt == 0 && status == HAL_OK
      ensures halted == old(halted) && working == old(working) && sent == old(sent)
    {
      bufferReady := false;
      currentProcBuf := 0;
      packetCnt := 0;
      status := HAL_OK;
    }

    /** HAL_ADC_ConvHalfCpltCallback: the first half is taken unless a half still waits. */
    method HalfComplete(firstHalf: seq<int>)
      modifies this
      requires Valid()
      ensures Valid()
      ensures old(bufferReady) ==> working == old(working) && bufferReady && currentProcBuf == old(currentProcBuf)
      ensures !old(bufferReady) ==> working == firstHalf && bufferReady && currentProcBuf == 0
      ensures packetCnt == old(packetCnt) && halted == old(halted) && sent == old(sent)
    {
      if bufferReady {
        return;
      }
      working := firstHalf;
      bufferReady := true;
      currentProcBuf := 0;
    }

    /** HAL_ADC_ConvCpltCallback: the same for the second half. */
    method Complete(secondHalf: seq<int>)
      modifies this
      requires Valid()
      ensures Valid()
      ensures old(bufferReady) ==> working == old(working) && bufferReady && currentProcBuf == old(currentProcBuf)
      ensures !old(bufferReady) ==> working == secondHalf && bufferReady && currentProcBuf == 1
      ensures packetCnt == old(packetCnt) && halted == old(halted) && sent == old(sent)
    {
      if bufferReady {
        return;
      }
      working := secondHalf;
      bufferReady := true;
      currentProcBuf := 1;
    }

    /** Full_spectrogram_compute's effect: MELWorkingBuf holds the spectrogram spec. */
    method LoadMel(spec: seq<seq<int16>>)
      modifies mel
      requires Valid() && Shaped(spec)
      ensures Rows(mel) == spec
    {
      for i := 0 to MEL_NUM_VEC
        invariant Rows(mel) == spec[..i] + old(Rows(mel))[i..]
      {
        ghost var before := Rows(mel);
        SetRow(mel, i, spec[i]);
        SpliceStep(spec, old(Rows(mel)), before, i);
      }
    }

    /** encode_packet, as in the optimized build. */
    method EncodePacket(packet: array<byte>)
      modifies packet, this
      requires Valid() && packet.Length == PACKET_LENGTH
      ensures Valid()
      ensures packet[..] == Packet.Framed(MelPayload(Rows(mel)), SENDER_ID, old(packetCnt), aes)
      ensures packetCnt == old(packetCnt) + 1 && halted == (old(halted) || packetCnt == 0)
      ensures bufferReady == old(bufferReady) && working == old(working) && sent == old(sent)
      ensures currentProcBuf == old(currentProcBuf)
    {
      AdcDblbuf.FrameMelPacket(packet, mel, pairedEncoder, SENDER_ID, packetCnt, aes);
      packetCnt := packetCnt + 1;
      if packetCnt == 0 {
        halted := true;
      }
    }

    /** send_spectrogram */
    method SendSpectrogram()
      modifies this
      requires Valid() && !halted
      ensures Valid()
      ensures packetCnt == old(packetCnt) + 1 && halted == (packetCnt == 0)
      ensures !halted ==> sent == old(sent) + [Packet.Framed(MelPayload(Rows(mel)), SENDER_ID, old(packetCnt), aes)]
      ensures halted ==> sent == old(sent)
      ensures bufferReady == old(bufferReady) && working == old(working) && currentProcBuf == old(currentProcBuf)
    {
      var packet := new byte[PACKET_LENGTH];
      EncodePacket(packet);
      if halted {
        return;
      }
      sent := sent + [packet[..]];
    }

    /**
     * ProcessADCData, with compute standing for Full_spectrogram_compute:
     * nothing happens without a waiting half; otherwise the flag is cleared
     * first, and since the threshold always holds the spectrogram is sent.
     */
    method ProcessADCData(compute: seq<int> -> seq<seq<int16>>)
      modifies this, mel
      requires Valid() && !halted
      requires bufferReady ==> Shaped(compute(working))
      ensures Valid()
      ensures !old(bufferReady) ==>
                && !bufferReady && unchanged(mel) && sent == old(sent)
                && packetCnt == old(packetCnt) && !halted
      ensures old(bufferReady) ==>
                && !bufferReady && Rows(mel) == compute(old(working))
                && packetCnt == old(packetCnt) + 1 && halted == (packetCnt == 0)
                && (halted ==> sent == old(sent))
                && (!halted ==> sent == old(sent) + [Packet.Framed(MelPayload(compute(old(working))), SENDER_ID, old(packetCnt), aes)])
      ensures working == old(working) && currentProcBuf == old(currentProcBuf)
    {
      if bufferReady {
        bufferReady := false;
        LoadMel(compute(working));
        var reached := ThresholdMelWorkingBuf(mel, thresholdMode);
        if reached == 0 {
          return;
        }
        SendSpectrogram();
      }
    }
  }

  /** One more row of spec spliced in front of the old rows. */
  lemma SpliceStep(spec: seq<seq<int16>>, old0: seq<seq<int16>>, before: seq<seq<int16>>, i: nat)
    requires i < |spec| == |old0|
    requires before == spec[..i] + old0[i..]
    ensures before[i := spec[i]] == spec[..i + 1] + old0[i + 1..]
  {
  }
}
