/**
 * The receiver's synchronization block: a two-state machine that searches for a
 * preamble (estimating the carrier frequency offset and the symbol timing
 * offset) and then passes the samples of one packet on to the demodulator.
 * Only the integer sample accounting and the selection of the timing offset
 * among the oversampling phases are modelled; the estimators themselves are
 * floating-point signal processing and enter as parameters.
 */
module Synchronization {
  import opened Wrappers

  // ---------------------------------------------------------------------
  // Symbol timing: choice of the phase with the largest strided sum
  // ---------------------------------------------------------------------

  /** np.sum(d[i::r]): the sum of every r-th derivative value, starting at i. */
  function StridedSum(d: seq<real>, i: nat, r: nat): real
    requires r > 0
    decreases |d| - i
  {
    if i >= |d| then 0.0 else d[i] + StridedSum(d, i + r, r)
  }

  /** The strided sums of the r phases. */
  function PhaseSums(d: seq<real>, r: nat): (sums: seq<real>)
    requires r > 0
    ensures |sums| == r
    ensures forall i :: 0 <= i < r ==> sums[i] == StridedSum(d, i, r)
  {
    seq(r, i requires 0 <= i < r => StridedSum(d, i, r))
  }

  /** i is the first index holding the strict maximum of s: everything before is smaller, nothing after is larger. */
  predicate IsFirstMax(s: seq<real>, i: nat)
  {
    && i < |s|
    && (forall j :: 0 <= j < i ==> s[j] < s[i])
    && (forall j :: i < j < |s| ==> s[j] <= s[i])
  }

  /**
   * The phase selection loop shared by sto_estimation and old_sto_estimation:
   * a running maximum that starts below every sum (-inf) and moves only on a
   * strictly larger sum; the result is the chosen phase plus one, modulo r.
   * The derivative sequence d is what the estimator computed from the samples.
   */
  method SelectSto(d: seq<real>, r: nat) returns (sto: nat, ghost best: nat)
    requires r > 0
    ensures IsFirstMax(PhaseSums(d, r), best)
    ensures sto == (best + 1) % r
    ensures sto < r
  {
    var saved: Option<real> := None;   // sum_der_saved, None standing for -inf
    var saveI := 0;
    ghost var sums := PhaseSums(d, r);
    for i := 0 to r
      invariant saveI < r
      invariant i == 0 <==> saved.None?
      invariant i > 0 ==> saveI < i && saved == Some(sums[saveI])
      invariant i > 0 ==> forall j :: 0 <= j < saveI ==> sums[j] < sums[saveI]
      invariant i > 0 ==> forall j :: saveI < j < i ==> sums[j] <= sums[saveI]
    {
      var sumDer := StridedSum(d, i, r);
      if saved.None? || sumDer > saved.value {
        saved := Some(sumDer);
        saveI := i;
      }
    }
    best := saveI;
    sto := (saveI + 1) % r;
  }

  // ---------------------------------------------------------------------
  // Sample accounting of the tracking state
  // ---------------------------------------------------------------------

  function Min(a: int, b: int): int { if a < b then a else b }

  /** The samples forwarded by one tracking step: win_size = min(output capacity, rem_samples). */
  function Window(capacity: nat, rem: nat): (win: nat)
    ensures win <= rem && win <= capacity
    ensures win == rem || win == capacity
  {
    Min(capacity, rem)
  }

  /**
   * The samples one tracking step consumes: the window, plus, on the step that
   * finishes the packet, the osr - sto samples left over from the search step.
   */
  function TrackConsumption(win: nat, rem: nat, osr: nat, sto: nat): nat
    requires sto < osr
  {
    if rem == win then win + osr - sto else win
  }

  /** The result of a run of tracking steps: samples consumed and samples still to forward. */
  datatype Run = Run(consumed: nat, rem: nat)

  /** Tracking steps with the given output capacities, from rem_samples = rem, stopping once rem reaches 0. */
  function Track(rem: nat, capacities: seq<nat>, osr: nat, sto: nat): (r: Run)
    requires sto < osr
    ensures r.rem <= rem
  {
    if capacities == [] || rem == 0 then Run(0, rem)
    else
      var win := Window(capacities[0], rem);
      var rest := Track(rem - win, capacities[1..], osr, sto);
      Run(TrackConsumption(win, rem, osr, sto) + rest.consumed, rest.rem)
  }

  /**
   * Whatever the window sizes, a packet that is still being tracked has consumed
   * exactly what it forwarded, and a finished one has consumed the forwarded
   * samples plus osr - sto.
   */
  lemma {:induction false} TrackAccounting(rem: nat, capacities: seq<nat>, osr: nat, sto: nat)
    requires sto < osr
    ensures var r := Track(rem, capacities, osr, sto);
      && (r.rem > 0 ==> r.consumed == rem - r.rem)
      && (r.rem == 0 && rem > 0 ==> r.consumed == rem + osr - sto)
  {
    if capacities != [] && rem != 0 {
      var win := Window(capacities[0], rem);
      TrackAccounting(rem - win, capacities[1..], osr, sto);
    }
  }

  /**
   * With the sto samples dropped by the search step, one whole packet consumes
   * (packet_len + 1) * 8 * osr + osr samples, independently of sto.
   */
  lemma PacketConsumption(packetLen: nat, osr: nat, sto: nat, capacities: seq<nat>)
    requires sto < osr
    requires Track((packetLen + 1) * 8 * osr, capacities, osr, sto).rem == 0
    ensures sto + Track((packetLen + 1) * 8 * osr, capacities, osr, sto).consumed
            == (packetLen + 1) * 8 * osr + osr
  {
    TrackAccounting((packetLen + 1) * 8 * osr, capacities, osr, sto);
  }

  // ---------------------------------------------------------------------
  // The synchronization block
  // ---------------------------------------------------------------------

  /** The syncMetrics dictionary: preamble_start, cfo and sto. */
  datatype SyncMetrics = SyncMetrics(preambleStart: int, cfo: real, sto: nat)

  /**
   * The powerMetrics dictionary. snr and rxp are 10 log10 of expressions in the
   * estimated signal power and noise power; the model keeps those inputs.
   */
  datatype PowerMetrics = PowerMetrics(powerEst: real, noisePower: real, txp: real)

  /** The largest sample count requested while searching. */
  const SEARCH_WINDOW_MAX: nat := 8000

  /** The smallest window on which the signal power is estimated. */
  const POWER_WINDOW_MIN: nat := 256

  class Synchronizer {
    const drate: real
    const fsamp: real
    /** The oversampling factor int(fsamp / drate). */
    const osr: nat
    const hdrLen: nat
    /** Packet length in bytes. */
    const packetLen: nat
    /** Chooses the old CFO / STO estimators; both share the phase selection. */
    const oldSync: bool
    var txPower: real
    var estimatedNoisePower: real
    /** Samples of the current packet still to forward; 0 means SEARCHING, anything else TRACKING. */
    var remSamples: nat
    var sto: nat
    var cfo: real
    var powerEst: Option<real>
    /** nitems_read(0): input samples consumed so far. */
    var consumed: nat
    var syncPublished: seq<SyncMetrics>
    var powerPublished: seq<PowerMetrics>
    /** Samples consumed since the last search step started. */
    ghost var packetConsumed: nat

    /** Samples forwarded per packet: one spare byte beyond the packet, eight bits a byte, osr samples a bit. */
    function PacketSamples(): nat
      reads this
    {
      (packetLen + 1) * 8 * osr
    }

    ghost predicate Valid()
      reads this
    {
      && osr >= 1
      && sto < osr
      && remSamples <= PacketSamples()
      && (remSamples > 0 ==> |syncPublished| > 0)
      && (remSamples > 0 ==> packetConsumed == sto + (PacketSamples() - remSamples))
      && (remSamples == 0 && |syncPublished| > 0 ==> packetConsumed == PacketSamples() + osr)
      // at most one power report per packet, and none before the first packet
      && |powerPublished| + (if powerEst.None? && |syncPublished| > 0 then 1 else 0) <= |syncPublished|
    }

    constructor (drate: real, fdev: real, fsamp: real, hdrLen: nat, packetLen: nat, txPower: real, oldSync: bool)
      requires drate > 0.0 && fsamp >= drate
      ensures Valid()
      ensures osr == (fsamp / drate).Floor && this.hdrLen == hdrLen && this.packetLen == packetLen
      ensures this.oldSync == oldSync
      ensures remSamples == 0 && sto == 0 && cfo == 0.0 && powerEst.None?
      ensures consumed == 0 && syncPublished == [] && powerPublished == []
      ensures this.txPower == txPower && estimatedNoisePower == 0.00001
    {
      this.drate := drate;
      this.fsamp := fsamp;
      assert fsamp / drate >= 1.0;
      this.osr := (fsamp / drate).Floor;
      this.hdrLen := hdrLen;
      this.packetLen := packetLen;
      this.oldSync := oldSync;
      this.estimatedNoisePower := 0.00001;
      this.txPower := txPower;
      this.remSamples := 0;
      this.sto := 0;
      this.cfo := 0.0;
      this.powerEst := None;
      this.consumed := 0;
      this.syncPublished := [];
      this.powerPublished := [];
      this.packetConsumed := 0;
    }

    /** The input samples requested, while searching, to be sure a header lies inside. */
    function SearchRequest(): nat
      reads this
    {
      Min(SEARCH_WINDOW_MAX, 8 * osr * (packetLen + 1) + osr)
    }

    /** forecast_v310: one requirement per input; forecast_v38 is the case of one input. */
    method Forecast(noutput: nat, ninputs: nat) returns (required: seq<nat>)
      requires Valid()
      ensures |required| == ninputs
      ensures remSamples == 0 ==> forall i :: 0 <= i < ninputs ==> required[i] == SearchRequest()
      ensures remSamples > 0 ==> forall i :: 0 <= i < ninputs ==> required[i] == noutput
    {
      required := [];
      for i := 0 to ninputs
        invariant |required| == i
        invariant forall k :: 0 <= k < i ==> required[k] == (if remSamples == 0 then SearchRequest() else noutput)
      {
        if remSamples == 0 {
          required := required + [Min(SEARCH_WINDOW_MAX, 8 * osr * (packetLen + 1) + osr)];
        } else {
          required := required + [noutput];
        }
      }
    }

    /** While searching, the request covers a whole packet and the osr samples that end it, up to 8000. */
    lemma SearchRequestCoversPacket()
      requires Valid()
      ensures SearchRequest() <= SEARCH_WINDOW_MAX
      ensures PacketSamples() + osr <= SEARCH_WINDOW_MAX ==> SearchRequest() == PacketSamples() + osr
    {
      assert 8 * osr * (packetLen + 1) == (packetLen + 1) * 8 * osr;
    }

    method HandleMsg(meanNoisePower: real)
      modifies this
      requires Valid()
      ensures Valid()
      ensures estimatedNoisePower == meanNoisePower
      ensures remSamples == old(remSamples) && sto == old(sto) && cfo == old(cfo) && powerEst == old(powerEst)
      ensures consumed == old(consumed) && txPower == old(txPower)
      ensures syncPublished == old(syncPublished) && powerPublished == old(powerPublished)
      ensures packetConsumed == old(packetConsumed)
    {
      estimatedNoisePower := meanNoisePower;
    }

    method SetTxPower(p: real)
      modifies this
      requires Valid()
      ensures Valid()
      ensures txPower == p
      ensures remSamples == old(remSamples) && sto == old(sto) && cfo == old(cfo) && powerEst == old(powerEst)
      ensures consumed == old(consumed) && estimatedNoisePower == old(estimatedNoisePower)
      ensures syncPublished == old(syncPublished) && powerPublished == old(powerPublished)
      ensures packetConsumed == old(packetConsumed)
    {
      txPower := p;
    }

    /**
     * One call of general_work. The estimators are not modelled: cfoEst is what
     * the CFO estimator returns on the header samples, stoDerivative the derivative
     * sequence from which the STO estimator picks its phase, and variance the
     * power estimate np.var of the window. The forwarded (CFO corrected) samples
     * are not modelled; produced is their number.
     */
    method GeneralWork(noutput: nat, cfoEst: real, stoDerivative: seq<real>, variance: real) returns (produced: nat)
      modifies this
      requires Valid()
      ensures Valid()
      ensures txPower == old(txPower) && estimatedNoisePower == old(estimatedNoisePower)
      // SEARCHING: estimate, publish, drop sto samples, forward nothing
      ensures old(remSamples) == 0 ==>
        && produced == 0
        && cfo == cfoEst
        && (exists best: nat :: IsFirstMax(PhaseSums(stoDerivative, osr), best) && sto == (best + 1) % osr)
        && powerEst.None?
        && remSamples == PacketSamples()
        && syncPublished == old(syncPublished) + [SyncMetrics(old(consumed) + sto, cfoEst, sto)]
        && powerPublished == old(powerPublished)
        && consumed == old(consumed) + sto
      // TRACKING: forward one window, publish the power once per packet
      ensures old(remSamples) > 0 ==>
        && produced == Window(noutput, old(remSamples))
        && sto == old(sto) && cfo == old(cfo)
        && remSamples == old(remSamples) - produced
        && consumed == old(consumed) + TrackConsumption(produced, old(remSamples), osr, sto)
        && syncPublished == old(syncPublished)
        && (if old(powerEst).None? && produced >= POWER_WINDOW_MIN
            then powerEst == Some(variance)
                 && powerPublished == old(powerPublished) + [PowerMetrics(variance, estimatedNoisePower, txPower)]
            else powerEst == old(powerEst) && powerPublished == old(powerPublished))
    {
      if remSamples == 0 {
        cfo := cfoEst;
        ghost var best;
        sto, best := SelectSto(stoDerivative, osr);
        powerEst := None;
        remSamples := (packetLen + 1) * 8 * osr;
        syncPublished := syncPublished + [SyncMetrics(consumed + sto, cfo, sto)];
        consumed := consumed + sto;
        packetConsumed := sto;
        produced := 0;
      } else {
        var win := Min(noutput, remSamples);
        if powerEst.None? && win >= POWER_WINDOW_MIN {
          powerEst := Some(variance);
          powerPublished := powerPublished + [PowerMetrics(variance, estimatedNoisePower, txPower)];
        }
        remSamples := remSamples - win;
        var step := if remSamples == 0 then win + osr - sto else win;
        consumed := consumed + step;
        packetConsumed := packetConsumed + step;
        produced := win;
      }
    }
  }
}
