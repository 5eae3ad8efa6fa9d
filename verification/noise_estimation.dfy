/**
 * The on-query noise estimation block: idle until queried, it then records one
 * noise power estimate per call in fixed-size vectors and, after n_est calls,
 * publishes their mean together with the vectors and goes back to idle.
 * The estimates themselves (np.var, np.abs(np.mean)) enter as parameters.
 */
module NoiseEstimation {
  import opened Wrappers

  /** The sum of a sequence of estimates, accumulated front to back. */
  function Sum(s: seq<real>): real
  {
    if s == [] then 0.0 else Sum(s[..|s| - 1]) + s[|s| - 1]
  }

  /**
   * The noisePow message. The three vectors are the block's own pmt vectors,
   * not copies: a later query overwrites what an earlier message refers to.
   */
  datatype NoiseReport = NoiseReport(
    nEst: nat,
    noiseEstVec: array<real>,
    meanNoisePower: real,
    dcOffsetVec: array<real>,
    nSamplesVec: array<int>)

  /** pmt.vector_set outside the vector raises; with n_est == 0 the first queried call does. */
  datatype WorkError = SlotOutOfRange

  class NoiseEstimator {
    const nSamples: nat
    const nEst: nat
    var meanNoiseEst: real
    var estCounter: nat
    var noiseEst: real
    var doAQuery: bool
    const estVec: array<real>
    const dcOffsetVec: array<real>
    const nSamplesVec: array<int>
    /** Input items consumed so far. */
    var consumed: nat
    var published: seq<NoiseReport>

    ghost predicate Valid()
      reads this, estVec
    {
      && estVec.Length == nEst && dcOffsetVec.Length == nEst && nSamplesVec.Length == nEst
      && estVec != dcOffsetVec
      && 1 <= estCounter
      && (nEst >= 1 ==> estCounter <= nEst)
      // idle: counter at 1, accumulator at 0
      && (!doAQuery ==> estCounter == 1 && meanNoiseEst == 0.0)
      // querying: the accumulator holds the estimates recorded so far in this query
      && (doAQuery ==> estCounter - 1 <= nEst && meanNoiseEst == Sum(estVec[..estCounter - 1]))
    }

    constructor (nSamples: nat, nEst: nat)
      ensures Valid()
      ensures this.nSamples == nSamples && this.nEst == nEst
      ensures meanNoiseEst == 0.0 && estCounter == 1 && noiseEst == 0.0 && !doAQuery
      ensures fresh(estVec) && fresh(dcOffsetVec) && fresh(nSamplesVec)
      ensures estVec[..] == seq(nEst, _ => 0.0) && dcOffsetVec[..] == seq(nEst, _ => 0.0)
      ensures nSamplesVec[..] == seq(nEst, _ => 0)
      ensures consumed == 0 && published == []
    {
      this.nSamples := nSamples;
      this.nEst := nEst;
      meanNoiseEst := 0.0;
      estCounter := 1;
      noiseEst := 0.0;
      doAQuery := false;
      estVec := new real[nEst](_ => 0.0);
      dcOffsetVec := new real[nEst](_ => 0.0);
      nSamplesVec := new int[nEst](_ => 0);
      consumed := 0;
      published := [];
    }

    /** query_estimation: the argument 1 starts a fresh query; any other value changes nothing. */
    method QueryEstimation(query: int)
      modifies this
      requires Valid()
      ensures Valid()
      ensures query == 1 ==> estCounter == 1 && meanNoiseEst == 0.0 && doAQuery
      ensures query != 1 ==>
        estCounter == old(estCounter) && meanNoiseEst == old(meanNoiseEst) && doAQuery == old(doAQuery)
      ensures noiseEst == old(noiseEst) && consumed == old(consumed) && published == old(published)
    {
      if query == 1 {
        estCounter := 1;
        meanNoiseEst := 0.0;
        doAQuery := true;
      }
    }

    /** forecast_v310: n_samples items on every input (forecast_v38 is the one-input case). */
    method Forecast(noutput: nat, ninputs: nat) returns (required: seq<nat>)
      ensures |required| == ninputs
      ensures forall i :: 0 <= i < ninputs ==> required[i] == nSamples
    {
      required := seq(ninputs, _ => nSamples);
    }

    /**
     * One call of general_work on ninput samples whose variance and absolute
     * mean are variance and dcOffset. Always returns 0 items produced.
     */
    method GeneralWork(ninput: nat, variance: real, dcOffset: real) returns (r: Result<nat, WorkError>)
      modifies this, estVec, dcOffsetVec, nSamplesVec
      requires Valid()
      ensures Valid()
      ensures r.Success? ==> r.value == 0
      // idle: consume everything, nothing else
      ensures !old(doAQuery) ==>
        && r.Success?
        && consumed == old(consumed) + ninput
        && unchanged(estVec, dcOffsetVec, nSamplesVec)
        && estCounter == old(estCounter) && meanNoiseEst == old(meanNoiseEst) && !doAQuery
        && noiseEst == old(noiseEst) && published == old(published)
      // queried with no slot to write: the estimate is taken, then vector_set fails
      ensures old(doAQuery) && nEst == 0 ==>
        && r == Failure(SlotOutOfRange)
        && noiseEst == variance
        && consumed == old(consumed) && unchanged(estVec, dcOffsetVec, nSamplesVec)
        && estCounter == old(estCounter) && meanNoiseEst == old(meanNoiseEst) && doAQuery
        && published == old(published)
      // queried: record in slot est_counter - 1, publish after the n_est-th estimate
      ensures old(doAQuery) && nEst > 0 ==>
        && r.Success?
        && noiseEst == variance
        && consumed == old(consumed) + ninput
        && estVec[..] == old(estVec[..])[old(estCounter) - 1 := variance]
        && dcOffsetVec[..] == old(dcOffsetVec[..])[old(estCounter) - 1 := dcOffset]
        && nSamplesVec[..] == old(nSamplesVec[..])[old(estCounter) - 1 := ninput]
        && (if old(estCounter) == nEst then
              && published == old(published) + [NoiseReport(nEst, estVec, Sum(estVec[..]) / (nEst as real), dcOffsetVec, nSamplesVec)]
              && estCounter == 1 && meanNoiseEst == 0.0 && !doAQuery
            else
              && published == old(published)
              && estCounter == old(estCounter) + 1 && doAQuery)
    {
      if !doAQuery {
        consumed := consumed + ninput;
        return Success(0);
      }
      noiseEst := variance;
      if estCounter - 1 >= estVec.Length {
        return Failure(SlotOutOfRange);
      }
      RecordEstimate(ninput, dcOffset);
      return Success(0);
    }

    /**
     * The queried branch of general_work once the slot est_counter - 1 exists:
     * record the current estimate there, add it to the accumulator and publish
     * the mean after the n_est-th estimate.
     */
    method RecordEstimate(ninput: nat, dcOffset: real)
      modifies this, estVec, dcOffsetVec, nSamplesVec
      requires Valid() && doAQuery && estCounter - 1 < estVec.Length
      ensures Valid()
      ensures noiseEst == old(noiseEst) && consumed == old(consumed) + ninput
      ensures estVec[..] == old(estVec[..])[old(estCounter) - 1 := noiseEst]
      ensures dcOffsetVec[..] == old(dcOffsetVec[..])[old(estCounter) - 1 := dcOffset]
      ensures nSamplesVec[..] == old(nSamplesVec[..])[old(estCounter) - 1 := ninput]
      ensures if old(estCounter) == nEst then
                && published == old(published) + [NoiseReport(nEst, estVec, Sum(estVec[..]) / (nEst as real), dcOffsetVec, nSamplesVec)]
                && estCounter == 1 && meanNoiseEst == 0.0 && !doAQuery
              else
                && published == old(published)
                && estCounter == old(estCounter) + 1 && doAQuery
    {
      ghost var before := estVec[..];
      RecordSlot(estCounter - 1, noiseEst, dcOffset, ninput);
      consumed := consumed + ninput;
      SumPrefixUpdate(before, estCounter - 1, noiseEst);
      meanNoiseEst := meanNoiseEst + noiseEst;
      AdvanceCounter();
    }

    /**
     * After the estimate of slot est_counter - 1 is in the accumulator: publish the
     * mean and go idle when that was slot n_est - 1, otherwise move to the next slot.
     */
    method AdvanceCounter()
      modifies this
      requires estVec.Length == nEst && dcOffsetVec.Length == nEst && nSamplesVec.Length == nEst
      requires estVec != dcOffsetVec
      requires doAQuery && 1 <= estCounter <= nEst && meanNoiseEst == Sum(estVec[..estCounter])
      ensures Valid()
      ensures noiseEst == old(noiseEst) && consumed == old(consumed)
      ensures if old(estCounter) == nEst then
                && published == old(published) + [NoiseReport(nEst, estVec, Sum(estVec[..]) / (nEst as real), dcOffsetVec, nSamplesVec)]
                && estCounter == 1 && meanNoiseEst == 0.0 && !doAQuery
              else
                && published == old(published)
                && estCounter == old(estCounter) + 1 && doAQuery
    {
      if estCounter == nEst {
        assert estVec[..estCounter] == estVec[..];
        var meanNoisP := meanNoiseEst / (estCounter as real);
        published := published + [NoiseReport(nEst, estVec, meanNoisP, dcOffsetVec, nSamplesVec)];
        estCounter := 1;
        meanNoiseEst := 0.0;
        doAQuery := false;
      } else {
        estCounter := estCounter + 1;
      }
    }

    /** The three pmt.vector_set calls on slot k. */
    method RecordSlot(k: nat, est: real, dcOffset: real, n: nat)
      modifies estVec, dcOffsetVec, nSamplesVec
      requires k < estVec.Length && k < dcOffsetVec.Length && k < nSamplesVec.Length
      requires estVec != dcOffsetVec
      ensures estVec[..] == old(estVec[..])[k := est]
      ensures dcOffsetVec[..] == old(dcOffsetVec[..])[k := dcOffset]
      ensures nSamplesVec[..] == old(nSamplesVec[..])[k := n]
    {
      estVec[k] := est;
      dcOffsetVec[k] := dcOffset;
      nSamplesVec[k] := n;
    }
  }

  /**
   * Writing slot k right after the first k slots extends their sum by the value
   * written: the accumulator and the vector stay in step.
   */
  lemma SumPrefixUpdate(s: seq<real>, k: nat, v: real)
    requires k < |s|
    ensures Sum(s[k := v][..k + 1]) == Sum(s[..k]) + v
  {
    var t := s[k := v][..k + 1];
    assert t[..|t| - 1] == s[..k];
  }
}
