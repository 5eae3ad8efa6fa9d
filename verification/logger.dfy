/**
 * The logger block: it keeps the latest packet metadata and pairs every
 * received packet with the oldest synchronization and power metrics still
 * waiting in two FIFO queues. Its logging output is not modelled.
 */
module Logger {

  /** (preamble_start, cfo, sto) as queued by the syncMetrics handler. */
  datatype SyncEntry = SyncEntry(preambleStart: int, cfo: real, sto: int)

  /** (snr, rxp, txp) as queued by the powerMetrics handler. */
  datatype PowerEntry = PowerEntry(snr: real, rxp: real, txp: real)

  /** The noiseMetrics message: the vectors are kept as received. */
  datatype NoiseMetrics = NoiseMetrics(
    nEst: int,
    noiseEstVec: seq<real>,
    meanNoisePower: real,
    dcOffsetVec: seq<real>,
    nSamplesVec: seq<int>)

  /** The payloadMetaData message. */
  datatype PayloadMetadata = PayloadMetadata(nbPacket: int, isCorrect: bool, nbError: int, crc: int)

  function Syncs(paired: seq<(SyncEntry, PowerEntry)>): (r: seq<SyncEntry>)
    ensures |r| == |paired|
    ensures forall k :: 0 <= k < |paired| ==> r[k] == paired[k].0
  {
    seq(|paired|, k requires 0 <= k < |paired| => paired[k].0)
  }

  function Powers(paired: seq<(SyncEntry, PowerEntry)>): (r: seq<PowerEntry>)
    ensures |r| == |paired|
    ensures forall k :: 0 <= k < |paired| ==> r[k] == paired[k].1
  {
    seq(|paired|, k requires 0 <= k < |paired| => paired[k].1)
  }

  /**
   * FIFO pairing: when every metric received so far is either paired or still
   * queued, in order, the k-th pairing joins the k-th sync metric with the k-th
   * power metric.
   */
  lemma FifoPairing(paired: seq<(SyncEntry, PowerEntry)>, syncs: seq<SyncEntry>, powers: seq<PowerEntry>,
                    syncQueue: seq<SyncEntry>, powerQueue: seq<PowerEntry>)
    requires syncs == Syncs(paired) + syncQueue && powers == Powers(paired) + powerQueue
    ensures forall k :: 0 <= k < |paired| ==> paired[k] == (syncs[k], powers[k])
  {
    forall k | 0 <= k < |paired|
      ensures paired[k] == (syncs[k], powers[k])
    {
      assert syncs[k] == Syncs(paired)[k];
      assert powers[k] == Powers(paired)[k];
    }
  }

  /** Popping a pair off both queues keeps every received metric accounted for. */
  lemma PairStep(paired: seq<(SyncEntry, PowerEntry)>, syncQueue: seq<SyncEntry>, powerQueue: seq<PowerEntry>)
    requires |syncQueue| > 0 && |powerQueue| > 0
    ensures Syncs(paired + [(syncQueue[0], powerQueue[0])]) + syncQueue[1..] == Syncs(paired) + syncQueue
    ensures Powers(paired + [(syncQueue[0], powerQueue[0])]) + powerQueue[1..] == Powers(paired) + powerQueue
  {
    var p := paired + [(syncQueue[0], powerQueue[0])];
    assert Syncs(p) == Syncs(paired) + [syncQueue[0]];
    assert Powers(p) == Powers(paired) + [powerQueue[0]];
    assert syncQueue == [syncQueue[0]] + syncQueue[1..];
    assert powerQueue == [powerQueue[0]] + powerQueue[1..];
  }

  class Logger {
    var noise: NoiseMetrics
    var sync: SyncEntry
    var power: PowerEntry
    var metadata: PayloadMetadata
    var syncQueue: seq<SyncEntry>
    var powerQueue: seq<PowerEntry>
    var printPayload: bool
    var printMetrics: bool
    var saveMeasurements: bool
    /** Input items (payloads) consumed so far. */
    var consumed: nat
    /** Every sync metric and power metric received, in order. */
    ghost var syncs: seq<SyncEntry>
    ghost var powers: seq<PowerEntry>
    /** The (sync, power) pairs taken off the queues so far, in order. */
    ghost var paired: seq<(SyncEntry, PowerEntry)>

    ghost predicate Valid()
      reads this
    {
      && syncs == Syncs(paired) + syncQueue
      && powers == Powers(paired) + powerQueue
    }

    constructor (printPayload: bool, printMetrics: bool, saveMeasurements: bool)
      ensures Valid()
      ensures noise == NoiseMetrics(0, [], 0.0, [], [])
      ensures sync == SyncEntry(0, 0.0, 0) && power == PowerEntry(0.0, 0.0, 0.0)
      ensures metadata == PayloadMetadata(0, false, 0, 0)
      ensures syncQueue == [] && powerQueue == [] && consumed == 0
      ensures this.printPayload == printPayload && this.printMetrics == printMetrics
      ensures this.saveMeasurements == saveMeasurements
    {
      noise := NoiseMetrics(0, [], 0.0, [], []);
      sync := SyncEntry(0, 0.0, 0);
      power := PowerEntry(0.0, 0.0, 0.0);
      metadata := PayloadMetadata(0, false, 0, 0);
      syncQueue := [];
      powerQueue := [];
      this.printPayload := printPayload;
      this.printMetrics := printMetrics;
      this.saveMeasurements := saveMeasurements;
      consumed := 0;
      syncs := [];
      powers := [];
      paired := [];
    }

    /** parse_noise_metrics: the fields are overwritten by the message. */
    method ParseNoiseMetrics(msg: NoiseMetrics)
      modifies this
      requires Valid()
      ensures Valid()
      ensures noise == msg
      ensures sync == old(sync) && power == old(power) && metadata == old(metadata)
      ensures syncQueue == old(syncQueue) && powerQueue == old(powerQueue) && consumed == old(consumed)
      ensures printPayload == old(printPayload) && printMetrics == old(printMetrics) && saveMeasurements == old(saveMeasurements)
      ensures syncs == old(syncs) && powers == old(powers) && paired == old(paired)
    {
      noise := msg;
    }

    /** parse_sync_metrics: one entry at the back of the sync queue. */
    method ParseSyncMetrics(e: SyncEntry)
      modifies this
      requires Valid()
      ensures Valid()
      ensures syncQueue == old(syncQueue) + [e] && syncs == old(syncs) + [e]
      ensures powerQueue == old(powerQueue) && paired == old(paired)
      ensures noise == old(noise) && sync == old(sync) && power == old(power) && metadata == old(metadata)
      ensures consumed == old(consumed)
      ensures printPayload == old(printPayload) && printMetrics == old(printMetrics) && saveMeasurements == old(saveMeasurements)
    {
      syncQueue := syncQueue + [e];
      syncs := syncs + [e];
    }

    /** parse_power_metrics: one entry at the back of the power queue. */
    method ParsePowerMetrics(e: PowerEntry)
      modifies this
      requires Valid()
      ensures Valid()
      ensures powerQueue == old(powerQueue) + [e] && powers == old(powers) + [e]
      ensures syncQueue == old(syncQueue) && paired == old(paired)
      ensures noise == old(noise) && sync == old(sync) && power == old(power) && metadata == old(metadata)
      ensures consumed == old(consumed)
      ensures printPayload == old(printPayload) && printMetrics == old(printMetrics) && saveMeasurements == old(saveMeasurements)
    {
      powerQueue := powerQueue + [e];
      powers := powers + [e];
    }

    /**
     * parse_payload_metadata: the metadata is always overwritten; the oldest
     * sync and power entries are taken only when both queues hold one, and
     * otherwise the queues and the current metrics are left as they were.
     */
    method ParsePayloadMetadata(msg: PayloadMetadata)
      modifies this
      requires Valid()
      ensures Valid()
      ensures metadata == msg
      ensures syncs == old(syncs) && powers == old(powers)
      ensures old(syncQueue) != [] && old(powerQueue) != [] ==>
        && sync == old(syncQueue)[0] && power == old(powerQueue)[0]
        && syncQueue == old(syncQueue)[1..] && powerQueue == old(powerQueue)[1..]
        && paired == old(paired) + [(sync, power)]
      ensures old(syncQueue) == [] || old(powerQueue) == [] ==>
        && sync == old(sync) && power == old(power)
        && syncQueue == old(syncQueue) && powerQueue == old(powerQueue) && paired == old(paired)
      ensures |syncQueue| - |powerQueue| == |old(syncQueue)| - |old(powerQueue)|
      ensures noise == old(noise) && consumed == old(consumed)
      ensures printPayload == old(printPayload) && printMetrics == old(printMetrics) && saveMeasurements == old(saveMeasurements)
    {
      metadata := msg;
      if syncQueue != [] && powerQueue != [] {
        PairStep(paired, syncQueue, powerQueue);
        sync := syncQueue[0];
        syncQueue := syncQueue[1..];
        power := powerQueue[0];
        powerQueue := powerQueue[1..];
        paired := paired + [(sync, power)];
      }
    }

    /** Every pairing so far joined the metrics received in the same position. */
    lemma PairedInOrder()
      requires Valid()
      ensures forall k :: 0 <= k < |paired| ==> paired[k] == (syncs[k], powers[k])
    {
      FifoPairing(paired, syncs, powers, syncQueue, powerQueue);
    }

    method SetPrintPayload(b: bool)
      modifies this
      requires Valid()
      ensures Valid()
      ensures printPayload == b && printMetrics == old(printMetrics) && saveMeasurements == old(saveMeasurements)
      ensures syncQueue == old(syncQueue) && powerQueue == old(powerQueue) && metadata == old(metadata)
      ensures noise == old(noise) && sync == old(sync) && power == old(power) && consumed == old(consumed)
      ensures syncs == old(syncs) && powers == old(powers) && paired == old(paired)
    {
      printPayload := b;
    }

    method SetPrintMetrics(b: bool)
      modifies this
      requires Valid()
      ensures Valid()
      ensures printMetrics == b && printPayload == old(printPayload) && saveMeasurements == old(saveMeasurements)
      ensures syncQueue == old(syncQueue) && powerQueue == old(powerQueue) && metadata == old(metadata)
      ensures noise == old(noise) && sync == old(sync) && power == old(power) && consumed == old(consumed)
      ensures syncs == old(syncs) && powers == old(powers) && paired == old(paired)
    {
      printMetrics := b;
    }

    method SetSaveMeasurements(b: bool)
      modifies this
      requires Valid()
      ensures Valid()
      ensures saveMeasurements == b && printPayload == old(printPayload) && printMetrics == old(printMetrics)
      ensures syncQueue == old(syncQueue) && powerQueue == old(powerQueue) && metadata == old(metadata)
      ensures noise == old(noise) && sync == old(sync) && power == old(power) && consumed == old(consumed)
      ensures syncs == old(syncs) && powers == old(powers) && paired == old(paired)
    {
      saveMeasurements := b;
    }

    /** forecast_v310: one item on every input (forecast_v38 is the one-input case). */
    method Forecast(noutput: nat, ninputs: nat) returns (required: seq<nat>)
      ensures |required| == ninputs
      ensures forall i :: 0 <= i < ninputs ==> required[i] == 1
    {
      required := [];
      for i := 0 to ninputs
        invariant |required| == i
        invariant forall k :: 0 <= k < i ==> required[k] == 1
      {
        required := required + [1];
      }
    }

    /**
     * general_work: reads the first payload (the forecast guarantees one),
     * consumes every available item and returns 0; the rest is logging.
     */
    method GeneralWork(input: seq<seq<int>>) returns (produced: nat)
      modifies this
      requires Valid()
      requires |input| >= 1
      ensures Valid()
      ensures produced == 0
      ensures consumed == old(consumed) + |input|
      ensures syncQueue == old(syncQueue) && powerQueue == old(powerQueue)
      ensures sync == old(sync) && power == old(power) && metadata == old(metadata) && noise == old(noise)
      ensures printPayload == old(printPayload) && printMetrics == old(printMetrics) && saveMeasurements == old(saveMeasurements)
      ensures syncs == old(syncs) && powers == old(powers) && paired == old(paired)
    {
      var payload := input[0];
      consumed := consumed + |input|;
      produced := 0;
    }
  }
}
