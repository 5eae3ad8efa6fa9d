/**
 * The acquisition loop of the optimized sensor build: each completed half of
 * the ADC double buffer yields one mel vector; once the requested number of
 * buffers is in, the spectrogram is thresholded and, when loud enough, encoded
 * into a packet and sent. Callbacks run one after another.
 */
module AdcDblbuf {
  import opened Wrappers
  import opened Bits
  import opened MelEncoding
  import Packet

  const N_MELVECS: nat := 20
  const MELVEC_LENGTH: nat := 20
  const THRESHOLD_VALUE: int := 1
  /** Two bytes per mel coefficient. */
  const PAYLOAD_LENGTH: nat := 2 * (N_MELVECS * MELVEC_LENGTH)
  const PACKET_LENGTH: nat := Packet.PACKET_HEADER_LENGTH + PAYLOAD_LENGTH + Packet.PACKET_TAG_LENGTH
  const HAL_OK: int := 0

  /** THRESHOLD_MODE; any other value compiles to "never send". */
  datatype ThresholdMode = HardFull | HardPerMelvec | Loose | OtherMode

  // ---------------------------------------------------------------------
  // Threshold decision on the mel vectors
  // ---------------------------------------------------------------------

  /** arm_abs_q15: the magnitude, saturated so that -32768 gives 32767. */
  function AbsQ15(v: int16): (r: int16)
    ensures 0 <= r && r == Sat16(Abs(v))
  {
    if v > 0 then v else Sat16(-(v as int))
  }

  /** The sum of the saturated magnitudes of one vector. */
  function RowAbsSum(row: seq<int16>): (s: int)
    ensures s >= 0
  {
    if row == [] then 0 else RowAbsSum(row[..|row| - 1]) + AbsQ15(row[|row| - 1])
  }

  /** The sum over all vectors, vector after vector. */
  function TotalAbs(rows: seq<seq<int16>>): (s: int)
    ensures s >= 0
  {
    if rows == [] then 0 else TotalAbs(rows[..|rows| - 1]) + RowAbsSum(rows[|rows| - 1])
  }

  /** arm_absmax_q15: the largest saturated magnitude (0 for no value). */
  function MaxAbs(row: seq<int16>): (m: int16)
    ensures 0 <= m
  {
    if row == [] then 0
    else
      var front, last := MaxAbs(row[..|row| - 1]), AbsQ15(row[|row| - 1]);
      if last > front then last else front
  }

  /** corrected_threshold: THRESHOLD_VALUE scaled to the quantity compared, stored as q15_t. */
  function CorrectedThreshold(mode: ThresholdMode): int16
  {
    match mode
    case HardFull => Wrap16(THRESHOLD_VALUE * N_MELVECS * MELVEC_LENGTH)
    case HardPerMelvec => Wrap16(THRESHOLD_VALUE * MELVEC_LENGTH)
    case Loose => Wrap16(THRESHOLD_VALUE)
    case OtherMode => 0
  }

  /** When threshold_mel_vectors returns 1. */
  ghost predicate Reached(mode: ThresholdMode, rows: seq<seq<int16>>)
  {
    var t := CorrectedThreshold(mode);
    match mode
    case HardFull => TotalAbs(rows) > t
    case HardPerMelvec => exists i :: 0 <= i < |rows| && RowAbsSum(rows[i]) > t
    case Loose => exists i :: 0 <= i < |rows| && MaxAbs(rows[i]) > t
    case OtherMode => false
  }

  lemma TotalAbsPrefix(rows: seq<seq<int16>>, i: nat)
    requires i < |rows|
    ensures TotalAbs(rows[..i + 1]) == TotalAbs(rows[..i]) + RowAbsSum(rows[i])
  {
    assert rows[..i + 1][..i] == rows[..i];
  }

  lemma RowAbsSumPrefix(row: seq<int16>, j: nat)
    requires j < |row|
    ensures RowAbsSum(row[..j + 1]) == RowAbsSum(row[..j]) + AbsQ15(row[j])
  {
    assert row[..j + 1][..j] == row[..j];
  }

  lemma MaxAbsPrefix(row: seq<int16>, j: nat)
    requires j < |row|
    ensures MaxAbs(row[..j + 1]) == if AbsQ15(row[j]) > MaxAbs(row[..j]) then AbsQ15(row[j]) else MaxAbs(row[..j])
  {
    assert row[..j + 1][..j] == row[..j];
  }

  /** The running sum never decreases: a prefix sums to at most the whole. */
  lemma {:induction false} TotalAbsMonotone(rows: seq<seq<int16>>, k: nat)
    requires k <= |rows|
    ensures TotalAbs(rows[..k]) <= TotalAbs(rows)
  {
    if k < |rows| {
      var front := rows[..|rows| - 1];
      assert rows[..k] == front[..k];
      TotalAbsMonotone(front, k);
    } else {
      assert rows[..k] == rows;
    }
  }

  /**
   * The early return of HARD_FULL (after any vector whose running sum exceeds
   * the threshold) decides the same as comparing the total once.
   */
  lemma HardFullEarlyExit(rows: seq<seq<int16>>, t: int)
    requires t >= 0
    ensures (exists k :: 1 <= k <= |rows| && TotalAbs(rows[..k]) > t) <==> TotalAbs(rows) > t
  {
    if exists k :: 1 <= k <= |rows| && TotalAbs(rows[..k]) > t {
      var k :| 1 <= k <= |rows| && TotalAbs(rows[..k]) > t;
      TotalAbsMonotone(rows, k);
    }
    if TotalAbs(rows) > t {
      assert rows[..|rows|] == rows;
    }
  }

  /** The largest saturated magnitude exceeds a non-negative threshold iff some value does. */
  lemma {:induction false} MaxAbsExceeds(row: seq<int16>, t: int)
    requires t >= 0
    ensures MaxAbs(row) > t <==> exists j :: 0 <= j < |row| && AbsQ15(row[j]) > t
  {
    if row != [] {
      var front := row[..|row| - 1];
      MaxAbsExceeds(front, t);
      if exists j :: 0 <= j < |front| && AbsQ15(front[j]) > t {
        var j :| 0 <= j < |front| && AbsQ15(front[j]) > t;
        assert row[j] == front[j];
      }
      if exists j :: 0 <= j < |row| && AbsQ15(row[j]) > t {
        var j :| 0 <= j < |row| && AbsQ15(row[j]) > t;
        if j < |front| {
          assert front[j] == row[j];
        }
      }
    }
  }

  /** LOOSE sends iff some single coefficient has a magnitude above THRESHOLD_VALUE. */
  lemma LooseReached(rows: seq<seq<int16>>)
    ensures Reached(Loose, rows) <==>
            exists i, j :: 0 <= i < |rows| && 0 <= j < |rows[i]| && AbsQ15(rows[i][j]) > THRESHOLD_VALUE
  {
    forall i | 0 <= i < |rows| {
      MaxAbsExceeds(rows[i], THRESHOLD_VALUE);
    }
  }

  lemma {:induction false} RowAbsSumBound(row: seq<int16>)
    ensures RowAbsSum(row) <= 32767 * |row|
  {
    if row != [] {
      RowAbsSumBound(row[..|row| - 1]);
    }
  }

  lemma {:induction false} TotalAbsBound(rows: seq<seq<int16>>, len: nat)
    requires AllLength(rows, len)
    ensures TotalAbs(rows) <= 32767 * (|rows| * len)
  {
    if rows != [] {
      var n := |rows|;
      TotalAbsBound(rows[..n - 1], len);
      RowAbsSumBound(rows[n - 1]);
      MulSucc(n - 1, len);
    }
  }

  /** The q31_t accumulators of HARD_FULL and HARD_PER_MELVEC cannot overflow on the 20 x 20 buffer. */
  lemma ThresholdSumsFit(rows: seq<seq<int16>>)
    requires |rows| == N_MELVECS && AllLength(rows, MELVEC_LENGTH)
    ensures TotalAbs(rows) < 0x8000_0000
    ensures forall i :: 0 <= i < |rows| ==> RowAbsSum(rows[i]) < 0x8000_0000
  {
    TotalAbsBound(rows, MELVEC_LENGTH);
    forall i | 0 <= i < |rows| {
      RowAbsSumBound(rows[i]);
    }
  }

  /** The copy, arm_abs_q15 and summing loop over vector i, added to acc0. */
  method AccumulateRow(mel: array2<int16>, i: nat, acc0: int, ghost row: seq<int16>) returns (acc: int)
    requires i < mel.Length0
    requires |row| == mel.Length1 && forall j :: 0 <= j < |row| ==> row[j] == mel[i, j]
    ensures acc == acc0 + RowAbsSum(row)
  {
    acc := acc0;
    for j := 0 to mel.Length1
      invariant acc == acc0 + RowAbsSum(row[..j])
    {
      RowAbsSumPrefix(row, j);
      acc := acc + AbsQ15(mel[i, j]);
    }
    assert row[..mel.Length1] == row;
  }

  /** arm_absmax_q15 over vector i. */
  method RowAbsMax(mel: array2<int16>, i: nat, ghost row: seq<int16>) returns (vmax: int16)
    requires i < mel.Length0
    requires |row| == mel.Length1 && forall j :: 0 <= j < |row| ==> row[j] == mel[i, j]
    ensures vmax == MaxAbs(row)
  {
    vmax := 0;
    for j := 0 to mel.Length1
      invariant vmax == MaxAbs(row[..j])
    {
      MaxAbsPrefix(row, j);
      var a := AbsQ15(mel[i, j]);
      if a > vmax {
        vmax := a;
      }
    }
    assert row[..mel.Length1] == row;
  }

  /** HARD_FULL: one running total, checked after every vector. */
  method ThresholdHardFull(mel: array2<int16>) returns (r: int)
    ensures r == if Reached(HardFull, Rows(mel)) then 1 else 0
  {
    ghost var rows := Rows(mel);
    var t := CorrectedThreshold(HardFull);
    var total := 0;
    for i := 0 to mel.Length0
      invariant total == TotalAbs(rows[..i]) && total <= t
    {
      TotalAbsPrefix(rows, i);
      total := AccumulateRow(mel, i, total, rows[i]);
      if total > t {
        TotalAbsMonotone(rows, i + 1);
        return 1;
      }
    }
    assert rows[..mel.Length0] == rows;
    return 0;
  }

  /** HARD_PER_MELVEC: a fresh sum per vector. */
  method ThresholdPerMelvec(mel: array2<int16>) returns (r: int)
    ensures r == if Reached(HardPerMelvec, Rows(mel)) then 1 else 0
  {
    ghost var rows := Rows(mel);
    var t := CorrectedThreshold(HardPerMelvec);
    for i := 0 to mel.Length0
      invariant forall k :: 0 <= k < i ==> RowAbsSum(rows[k]) <= t
    {
      var blockSum := AccumulateRow(mel, i, 0, rows[i]);
      if blockSum > t {
        return 1;
      }
    }
    return 0;
  }

  /** LOOSE: the largest magnitude per vector. */
  method ThresholdLoose(mel: array2<int16>) returns (r: int)
    ensures r == if Reached(Loose, Rows(mel)) then 1 else 0
  {
    ghost var rows := Rows(mel);
    var t := CorrectedThreshold(Loose);
    for i := 0 to mel.Length0
      invariant forall k :: 0 <= k < i ==> MaxAbs(rows[k]) <= t
    {
      var vmax := RowAbsMax(mel, i, rows[i]);
      if vmax > t {
        return 1;
      }
    }
    return 0;
  }

  /** threshold_mel_vectors for the configured mode. */
  method ThresholdMelVectors(mel: array2<int16>, mode: ThresholdMode) returns (r: int)
    ensures r == if Reached(mode, Rows(mel)) then 1 else 0
  {
    match mode
    case HardFull => r := ThresholdHardFull(mel);
    case HardPerMelvec => r := ThresholdPerMelvec(mel);
    case Loose => r := ThresholdLoose(mel);
    case OtherMode => r := 0;
  }

  // ---------------------------------------------------------------------
  // The acquisition state
  // ---------------------------------------------------------------------

  /** What follows the out-of-bounds store into mel_vectors is not modelled. */
  datatype CallbackError = MelvecOutOfRange

  /**
   * The body of `encode_packet` on the packet buffer alone: the mel payload by
   * the selected encoder, then header and tag by `make_packet`.
   */
  method FrameMelPacket(packet: array<byte>, mel: array2<int16>, paired: bool,
                        senderId: byte, serial: bv32, aes: Packet.Block -> Packet.Block)
    modifies packet
    requires mel.Length1 >= 1
    requires packet.Length == Packet.PACKET_HEADER_LENGTH + 2 * (mel.Length0 * mel.Length1) + Packet.PACKET_TAG_LENGTH
    ensures packet[..] == Packet.Framed(MelPayload(Rows(mel)), senderId, serial, aes)
  {
    var payloadLen := 2 * (mel.Length0 * mel.Length1);
    if paired {
      EncodePaired(packet, mel);
    } else {
      EncodeIndexed(packet, mel);
    }
    ghost var payload := MelPayload(Rows(mel));
    assert packet[Packet.PACKET_HEADER_LENGTH .. Packet.PACKET_HEADER_LENGTH + payloadLen] == payload;
    var _ := Packet.MakePacket(packet, payloadLen, senderId, serial, aes);
    Packet.FramedParts(packet[..], payloadLen, senderId, serial, aes);
  }

  class Acquisition {
    /** rem_n_bufs: buffers still to acquire; -1 means "forever". */
    var remNBufs: int32
    /** cur_melvec: the row the next mel vector goes to. */
    var curMelvec: nat
    /** mel_vectors */
    const mel: array2<int16>
    var packetCnt: bv32
    /** Error_Handler was entered: the core spins with interrupts off. */
    var halted: bool
    /** The packets handed to S2LP_Send, in order. */
    var sent: seq<seq<byte>>
    const senderId: byte
    const aes: Packet.Block -> Packet.Block
    /** PACKET_OPT_LEVEL 1 (word-packing encoder) rather than 0 (indexed). */
    const pairedEncoder: bool
    const useThreshold: bool
    const mode: ThresholdMode

    ghost predicate Valid()
      reads this
    {
      mel.Length0 == N_MELVECS && mel.Length1 == MELVEC_LENGTH && curMelvec <= N_MELVECS
    }

    /** A running acquisition of N_MELVECS buffers: every buffer still due has a free row. */
    ghost predicate Steady()
      reads this
    {
      1 <= remNBufs && curMelvec + remNBufs == N_MELVECS
    }

    /** The static storage starts zeroed. */
    constructor (senderId: byte, aes: Packet.Block -> Packet.Block, pairedEncoder: bool,
                 useThreshold: bool, mode: ThresholdMode)
      ensures Valid()
      ensures remNBufs == 0 && curMelvec == 0 && packetCnt == 0 && !halted && sent == []
      ensures fresh(mel) && forall i, j :: 0 <= i < N_MELVECS && 0 <= j < MELVEC_LENGTH ==> mel[i, j] == 0
      ensures this.senderId == senderId && this.aes == aes && this.pairedEncoder == pairedEncoder
      ensures this.useThreshold == useThreshold && this.mode == mode
    {
      remNBufs := 0;
      curMelvec := 0;
      mel := new int16[N_MELVECS, MELVEC_LENGTH]((_, _) => 0);
      packetCnt := 0;
      halted := false;
      sent := [];
      this.senderId := senderId;
      this.aes := aes;
      this.pairedEncoder := pairedEncoder;
      this.useThreshold := useThreshold;
      this.mode := mode;
    }

    /** StartADCAcq: the DMA is started (its HAL status returned) only for a non-zero count. */
    method StartADCAcq(nBufs: int32, dmaStatus: int) returns (status: int)
      modifies this
      requires Valid()
      ensures Valid()
      ensures remNBufs == nBufs && curMelvec == 0
      ensures status == if nBufs != 0 then dmaStatus else HAL_OK
      ensures packetCnt == old(packetCnt) && halted == old(halted) && sent == old(sent)
      ensures nBufs == N_MELVECS as int ==> Steady()
    {
      remNBufs := nBufs;
      curMelvec := 0;
      if remNBufs != 0 {
        status := dmaStatus;
      } else {
        status := HAL_OK;
      }
    }

    method IsADCFinished() returns (finished: bool)
      ensures finished <==> remNBufs == 0
    {
      finished := remNBufs == 0;
    }

    /**
     * encode_packet: the payload by the configured encoder, then header and tag,
     * then the counter; a counter that wraps to 0 ends in Error_Handler.
     */
    method EncodePacket(packet: array<byte>)
      modifies packet, this
      requires Valid() && packet.Length == PACKET_LENGTH
      ensures Valid()
      ensures packet[..] == Packet.Framed(MelPayload(Rows(mel)), senderId, old(packetCnt), aes)
      ensures packetCnt == old(packetCnt) + 1 && halted == (old(halted) || packetCnt == 0)
      ensures remNBufs == old(remNBufs) && curMelvec == old(curMelvec) && sent == old(sent)
    {
      FrameMelPacket(packet, mel, pairedEncoder, senderId, packetCnt, aes);
      packetCnt := packetCnt + 1;
      if packetCnt == 0 {
        halted := true;
      }
    }

    /** send_spectrogram: a fresh packet buffer, encoded and handed to the radio. */
    method SendSpectrogram()
      modifies this
      requires Valid() && !halted
      ensures Valid()
      ensures packetCnt == old(packetCnt) + 1 && halted == (packetCnt == 0)
      ensures !halted ==> sent == old(sent) + [Packet.Framed(MelPayload(Rows(mel)), senderId, old(packetCnt), aes)]
      ensures halted ==> sent == old(sent)
      ensures remNBufs == old(remNBufs) && curMelvec == old(curMelvec)
    {
      var packet := new byte[PACKET_LENGTH];
      EncodePacket(packet);
      if halted {
        return;
      }
      sent := sent + [packet[..]];
    }

    /** Whether a completed spectrogram goes out: always without USE_THRESHOLD, else when the threshold is reached. */
    ghost predicate SendsSpectrogram()
      reads this, mel
    {
      !useThreshold || Reached(mode, Rows(mel))
    }

    /**
     * The end of an acquisition (rem_n_bufs reached 0): threshold, maybe send,
     * and restart the counts for the next spectrogram (ACQ_OVERLAP).
     */
    method CompleteSpectrogram()
      modifies this
      requires Valid() && !halted
      ensures Valid()
      ensures !SendsSpectrogram() ==>
                && remNBufs == N_MELVECS as int && curMelvec == 0
                && sent == old(sent) && packetCnt == old(packetCnt) && !halted
      ensures SendsSpectrogram() ==>
                && packetCnt == old(packetCnt) + 1 && halted == (packetCnt == 0)
                && (halted ==> sent == old(sent) && remNBufs == old(remNBufs) && curMelvec == old(curMelvec))
                && (!halted ==>
                      && sent == old(sent) + [Packet.Framed(MelPayload(Rows(mel)), senderId, old(packetCnt), aes)]
                      && remNBufs == N_MELVECS as int && curMelvec == 0)
    {
      var send := ShouldSend();
      if send {
        SendAndReset();
      } else {
        ResetAcquisition();
      }
    }

    /** The threshold decision of the completion: without USE_THRESHOLD always send. */
    method ShouldSend() returns (send: bool)
      requires Valid()
      ensures send == SendsSpectrogram()
    {
      send := true;
      if useThreshold {
        var t := ThresholdMelVectors(mel, mode);
        send := t != 0;
      }
    }

    /** The sending branch of the completion: send, then start over unless the send halted. */
    method SendAndReset()
      modifies this
      requires Valid() && !halted
      ensures Valid()
      ensures packetCnt == old(packetCnt) + 1 && halted == (packetCnt == 0)
      ensures halted ==> sent == old(sent) && remNBufs == old(remNBufs) && curMelvec == old(curMelvec)
      ensures !halted ==>
                && sent == old(sent) + [Packet.Framed(MelPayload(Rows(mel)), senderId, old(packetCnt), aes)]
                && remNBufs == N_MELVECS as int && curMelvec == 0
    {
      SendSpectrogram();
      if halted {
        return;
      }
      ResetAcquisition();
    }

    /** The next acquisition starts at row 0 with N_MELVECS buffers due. */
    method ResetAcquisition()
      modifies this
      requires Valid()
      ensures Valid()
      ensures remNBufs == N_MELVECS as int && curMelvec == 0
      ensures sent == old(sent) && packetCnt == old(packetCnt) && halted == old(halted)
    {
      curMelvec := 0;
      remNBufs := N_MELVECS as int32;
    }

    /**
     * ADC_Callback for the completed half bufCplt, whose samples give the mel
     * vector melvec. The count of buffers still due drops (unless it is -1),
     * the vector is stored in row cur_melvec, and after the last buffer the
     * spectrogram is completed.
     */
    method AdcCallback(bufCplt: int, melvec: seq<int16>) returns (r: Result<(), CallbackError>)
      modifies this, mel
      requires Valid() && !halted
      requires bufCplt == 0 || bufCplt == 1
      requires |melvec| == MELVEC_LENGTH
      ensures Valid()
      ensures var rem := if old(remNBufs) != -1 then Wrap32(old(remNBufs) - 1) else -1;
              && (old(curMelvec) >= N_MELVECS ==>
                    && r == Failure(MelvecOutOfRange) && remNBufs == rem
                    && curMelvec == old(curMelvec) && unchanged(mel)
                    && sent == old(sent) && packetCnt == old(packetCnt) && !halted)
              && (old(curMelvec) < N_MELVECS ==>
                    && r.Success?
                    && Rows(mel) == old(Rows(mel))[old(curMelvec) := melvec]
                    && (rem != 0 ==>
                          && remNBufs == rem && curMelvec == old(curMelvec) + 1
                          && sent == old(sent) && packetCnt == old(packetCnt) && !halted)
                    && (rem == 0 && !SendsSpectrogram() ==>
                          && remNBufs == N_MELVECS as int && curMelvec == 0
                          && sent == old(sent) && packetCnt == old(packetCnt) && !halted)
                    && (rem == 0 && SendsSpectrogram() ==>
                          && packetCnt == old(packetCnt) + 1 && halted == (packetCnt == 0)
                          && (halted ==> sent == old(sent))
                          && (!halted ==>
                                && sent == old(sent) + [Packet.Framed(MelPayload(Rows(mel)), senderId, old(packetCnt), aes)]
                                && remNBufs == N_MELVECS as int && curMelvec == 0)))
      ensures old(Steady()) ==> r.Success? && (halted || Steady())
    {
      if remNBufs != -1 {
        remNBufs := Wrap32(remNBufs - 1);
      }
      if curMelvec >= N_MELVECS {
        return Failure(MelvecOutOfRange);
      }
      SetRow(mel, curMelvec, melvec);
      curMelvec := curMelvec + 1;
      r := Success(());
      if remNBufs == 0 {
        CompleteSpectrogram();
      }
    }
  }
}
