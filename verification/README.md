# LELEC210X sensor-to-receiver chain in Dafny

This project models, and proves properties of, the integer and byte-level core of
an audio-classification system built around a low-power radio link:

- **Receiver (GNU Radio FSK blocks, Python).**
  - The packet parser: bit reflection, the bit-serial CRC-8, sync-word alignment by correlation, and the packet and error counters.
  - The synchronizer's SEARCHING/TRACKING sample accounting and its timing-offset phase selection.
  - The on-query noise estimator.
  - The logger that pairs packets with queued synchronization and power metrics.
- **Sensor firmware (STM32, C).**
  - Packet framing with a big-endian header and a CBC-MAC tag.
  - The two mel-coefficient payload encoders of each build.
  - The threshold deciders.
  - The ADC double-buffer acquisition state of the optimised and re-optimised builds.
  - The fixed-point spectrogram front end: sample formatting, the mel filter bank, normalisation and magnitude approximations.
  - The hexadecimal encoder, the cycle-counter guard and the battery-level classifier.
- **Compression prototypes (Python).**
  - The identity, run-length and delta coders with their decoders.
  - The column peak finder and its byte accounting.

Each source file is one Dafny module; the single-bit error detection of the
parser's CRC-8 has a module of its own. Code that updates state in place becomes a
class or a method over arrays:

- the parser, synchronizer, estimator and logger blocks;
- the acquisition state;
- the canvas;
- the in-place buffer loops.

Each such method is proved against a specification function, and the properties
the code promises are lemmas about those functions. Fixed-width C and numpy
arithmetic (wrap-around, saturation, truncating division, uint8 arithmetic) is
written out in the `Bits` module.

Level 0 of the re-optimised `Spectrogram_Format` and variant 0 of its
`mel_filter_apply` are the same code as in the optimised build
(mcu/reoptimization_main_app/Core/Src/spectrogram.c:18-36 and 81-112). They are
modelled once, as `SpectrogramOpt.FormatNoOpt` and `SpectrogramOpt.MelFilterApply`.

## Model

| member | source | states |
|---|---|---|
| PacketParser.ReflectData | telecom/gnuradio/gr-fsk/python/packet_parser.py:28-47 | fails (ValueError) exactly when the width is not 8, 16 or 32; otherwise the result fits in the width |
| PacketParser.ReflectByteReverses | telecom/gnuradio/gr-fsk/python/packet_parser.py:30-33 | with width 8, bit k of the result is bit 7 - k of the input |
| PacketParser.ReflectLowBits | telecom/gnuradio/gr-fsk/python/packet_parser.py:31-33 | the three swap stages move bit 7 - k to bit k for k < 4 |
| PacketParser.ReflectHighBits | telecom/gnuradio/gr-fsk/python/packet_parser.py:31-33 | the three swap stages move bit 7 - k to bit k for 4 <= k < 8 |
| PacketParser.ReflectByteInvolution | telecom/gnuradio/gr-fsk/python/packet_parser.py:30-33 | reflecting a byte twice gives it back |
| PacketParser.ReflectWideInvolution | telecom/gnuradio/gr-fsk/python/packet_parser.py:34-44 | reflecting a 16-bit or 32-bit value twice gives it back |
| PacketParser.CrcInput | telecom/gnuradio/gr-fsk/python/packet_parser.py:57-61 | XORing a byte (optionally reflected) into a register below 2^8 keeps it below 2^8 |
| PacketParser.ShiftStepBound | telecom/gnuradio/gr-fsk/python/packet_parser.py:66-70 | one shift-and-reduce step keeps an 8-bit register below 2^8 |
| PacketParser.ShiftStepsBound | telecom/gnuradio/gr-fsk/python/packet_parser.py:64-70 | any number of shift steps keeps the register below 2^8 |
| PacketParser.CrcByteBound | telecom/gnuradio/gr-fsk/python/packet_parser.py:55-70 | processing one byte keeps the register below 2^8 |
| PacketParser.CrcFoldBound | telecom/gnuradio/gr-fsk/python/packet_parser.py:55-70 | started below 256, the register stays below 256 over the whole data |
| PacketParser.CrcFoldAppend | telecom/gnuradio/gr-fsk/python/packet_parser.py:55-70 | the CRC is a left fold: crc(a ++ b, c) == crc(b, crc(a, c)) |
| PacketParser.CrcEmpty | telecom/gnuradio/gr-fsk/python/packet_parser.py:55-77 | empty data without reflection returns the initial value XOR xor_out |
| PacketParser.CrcPolySpecBound | telecom/gnuradio/gr-fsk/python/packet_parser.py:50-77 | with n = 8, an initial value and final XOR below 2^8, the result is a byte |
| PacketParser.ShiftByte | telecom/gnuradio/gr-fsk/python/packet_parser.py:64-70 | the inner bit loop computes eight shift-and-reduce steps |
| PacketParser.CrcRegister | telecom/gnuradio/gr-fsk/python/packet_parser.py:55-70 | the nested data loop computes the fold of the per-byte update over the data |
| PacketParser.CrcPoly | telecom/gnuradio/gr-fsk/python/packet_parser.py:50-77 | crc_poly with n = 8 equals its specification: fold, optional output reflection, final XOR |
| PacketParser.Crc8IsCrcPoly | telecom/gnuradio/gr-fsk/python/packet_parser.py:152-160 | the parser's CRC-8 (poly 0x07, init 0xFF, no reflection, no final XOR) is crc_poly with those arguments and is a byte |
| CrcErrorDetection.ShiftStepInverse | telecom/gnuradio/gr-fsk/python/packet_parser.py:66-73 | with an odd generator, one shift-and-reduce step on a register below 2^8 is undone by UnshiftStep, which reads from the low bit whether the generator was XORed in |
| CrcErrorDetection.ShiftStepInjective | telecom/gnuradio/gr-fsk/python/packet_parser.py:66-73 | with an odd generator the shift-and-reduce step maps distinct registers below 2^8 to distinct registers |
| CrcErrorDetection.ShiftStepsInjective | telecom/gnuradio/gr-fsk/python/packet_parser.py:66-73 | any number of shift steps keeps distinct registers below 2^8 distinct |
| CrcErrorDetection.CrcInputInverse | telecom/gnuradio/gr-fsk/python/packet_parser.py:61-62 | without input reflection, XORing the byte into the register is undone by XORing with the byte, and the byte is recovered by XORing with the old register |
| CrcErrorDetection.CrcByteInjective | telecom/gnuradio/gr-fsk/python/packet_parser.py:55-73 | with an odd generator and registers below 2^8, one pass of the data loop is one-to-one in the register for a fixed byte and in the byte for a fixed register |
| CrcErrorDetection.CrcFoldInjective | telecom/gnuradio/gr-fsk/python/packet_parser.py:55-73 | the same data run from two different registers below 2^8 ends in two different registers |
| CrcErrorDetection.CrcFoldOneByteDiffers | telecom/gnuradio/gr-fsk/python/packet_parser.py:55-73 | two payloads of the same length that differ in exactly one byte give different registers from the same initial register |
| CrcErrorDetection.Crc8DetectsSingleBitError | telecom/gnuradio/gr-fsk/python/packet_parser.py:152-167 | flipping any one bit of the payload (bits numbered as np.unpackbits does) changes its CRC-8, so a frame whose payload took a single bit error but whose CRC byte did not is counted in nb_error |
| PacketParser.BitsOfValue | telecom/gnuradio/gr-fsk/python/packet_parser.py:136 | the n bits of a value below 2^n read back to that value |
| PacketParser.ValueBitsOf | telecom/gnuradio/gr-fsk/python/packet_parser.py:136 | a bit string is the bits of its own value |
| PacketParser.Unpack | telecom/gnuradio/gr-fsk/python/packet_parser.py:136 | unpackbits yields eight bits per byte |
| PacketParser.Pack | telecom/gnuradio/gr-fsk/python/packet_parser.py:145 | packbits yields ceil(bits / 8) bytes |
| PacketParser.ByteBitsRoundTrip | telecom/gnuradio/gr-fsk/python/packet_parser.py:136-145 | the eight bits of a byte pack back to the byte |
| PacketParser.BitsByteRoundTrip | telecom/gnuradio/gr-fsk/python/packet_parser.py:136-145 | eight bits packed into a byte unpack back to the same bits |
| PacketParser.PackUnpack | telecom/gnuradio/gr-fsk/python/packet_parser.py:136-145 | packbits undoes unpackbits |
| PacketParser.UnpackPack | telecom/gnuradio/gr-fsk/python/packet_parser.py:136-145 | unpackbits undoes packbits on a whole number of bytes |
| PacketParser.UnpackAppend | telecom/gnuradio/gr-fsk/python/packet_parser.py:136 | unpacking distributes over concatenation |
| PacketParser.UnpackDrop | telecom/gnuradio/gr-fsk/python/packet_parser.py:136-144 | the bits after the first q bytes are the bits of the remaining bytes |
| PacketParser.UnpackTake | telecom/gnuradio/gr-fsk/python/packet_parser.py:136-138 | the first 8n bits are the bits of the first n bytes |
| PacketParser.UnpackSlice | telecom/gnuradio/gr-fsk/python/packet_parser.py:136-144 | bits 8q .. 8(q + len) are the bits of bytes q .. q + len |
| PacketParser.PackByteAligned | telecom/gnuradio/gr-fsk/python/packet_parser.py:144-145 | repacking a byte-aligned bit range gives the original bytes |
| PacketParser.FullCorrelation | telecom/gnuradio/gr-fsk/python/packet_parser.py:139-141 | full-mode correlation has one entry per overlapping lag, |a| + |v| - 1 of them |
| PacketParser.AbsSeq | telecom/gnuradio/gr-fsk/python/packet_parser.py:139 | np.abs keeps the length and takes each magnitude |
| PacketParser.FirstArgMax | telecom/gnuradio/gr-fsk/python/packet_parser.py:142 | np.argmax returns an index of a maximum with every earlier entry strictly smaller |
| PacketParser.Bipolar | telecom/gnuradio/gr-fsk/python/packet_parser.py:140 | `x * 2 - 1` on signed values maps each bit to +1 / -1 |
| PacketParser.Alignment | telecom/gnuradio/gr-fsk/python/packet_parser.py:138-142 | the offset is 1 plus a lag, so it lies in 1 .. hdr bits + sync bits - 1 |
| PacketParser.CorrSumBound | telecom/gnuradio/gr-fsk/python/packet_parser.py:139-141 | a correlation of +1 / -1 sequences over n terms has magnitude at most n |
| PacketParser.CorrSumMatch | telecom/gnuradio/gr-fsk/python/packet_parser.py:139-141 | where the header holds a copy of the sync word the correlation reaches n |
| PacketParser.BipolarIsBipolar | telecom/gnuradio/gr-fsk/python/packet_parser.py:140 | the mapped bits are all +1 or -1 |
| PacketParser.BipolarSlice | telecom/gnuradio/gr-fsk/python/packet_parser.py:140 | mapping commutes with slicing |
| PacketParser.SyncWordFound | telecom/gnuradio/gr-fsk/python/packet_parser.py:138-142 | with signed +1 / -1 values, a sync word present in the header drives the peak to its largest value and the offset to at most one bit past it |
| PacketParser.Uint8Bipolar | telecom/gnuradio/gr-fsk/python/packet_parser.py:140 | on uint8 header bits, `b * 2 - 1` maps 1 to 1 and 0 to 255 |
| PacketParser.AlignmentAsWritten | telecom/gnuradio/gr-fsk/python/packet_parser.py:138-142 | the offset computed from the wrapped uint8 header also lies in 1 .. hdr bits + sync bits - 1 |
| PacketParser.AlignmentExample | telecom/gnuradio/gr-fsk/python/packet_parser.py:138-144 | header 0x80 with sync word 10: the signed computation starts the payload at bit 2 |
| PacketParser.AlignmentAsWrittenMisses | telecom/gnuradio/gr-fsk/python/packet_parser.py:138-144 | the same header with the wrapped uint8 values starts the payload at bit 9 |
| PacketParser.PairCorrelation | telecom/gnuradio/gr-fsk/python/packet_parser.py:139-141 | with a two-bit sync word, lag j combines header bits j - 1 and j |
| PacketParser.SyncHeaderBits | telecom/gnuradio/gr-fsk/python/packet_parser.py:136 | the example header is the unpacked byte 0x80 |
| PacketParser.Slice | telecom/gnuradio/gr-fsk/python/packet_parser.py:144-148 | Python slicing clamps to the sequence: its length is min(hi, len) - lo or 0 |
| PacketParser.SliceInRange | telecom/gnuradio/gr-fsk/python/packet_parser.py:144-148 | inside the bounds a Python slice is the plain subsequence |
| PacketParser.Row | telecom/gnuradio/gr-fsk/python/packet_parser.py:150-176 | the written row has payload_len bytes and is the payload itself when their lengths agree |
| PacketParser.FrameAtCases | telecom/gnuradio/gr-fsk/python/packet_parser.py:144-162 | extraction fails exactly when the payload does not fit a row; otherwise payload and CRC are the two slices of the repacked packet and the verdict holds iff every CRC byte equals CRC-8 of the payload |
| PacketParser.ParseFrameCases | telecom/gnuradio/gr-fsk/python/packet_parser.py:136-162 | an empty header or sync word fails (argmax of an empty array); otherwise extraction starts at the alignment offset |
| PacketParser.ExtractByteAligned | telecom/gnuradio/gr-fsk/python/packet_parser.py:136-145 | repacking from bit 8q gives bytes q .. q + len of the input |
| PacketParser.AlignedBits | telecom/gnuradio/gr-fsk/python/packet_parser.py:144-145 | repacking from bit 8q reads exactly bits 8q .. 8(q + len) |
| PacketParser.FrameAtByteAligned | telecom/gnuradio/gr-fsk/python/packet_parser.py:144-148 | extracting right after an hdr_len-byte header yields the payload and CRC bytes that follow the header |
| PacketParser.FrameAtPacket | telecom/gnuradio/gr-fsk/python/packet_parser.py:144-148 | payload is the first payload_len bytes of the repacked packet and the CRC the rest |
| PacketParser.ParseByteAligned | telecom/gnuradio/gr-fsk/python/packet_parser.py:136-148 | when the alignment lands on the byte after the header, the parser returns exactly the payload and CRC bytes of the input |
| PacketParser.Parser.constructor | telecom/gnuradio/gr-fsk/python/packet_parser.py:85-95 | counters start at 0 and packet_len = hdr_len + payload_len + crc_len |
| PacketParser.Parser.Forecast | telecom/gnuradio/gr-fsk/python/packet_parser.py:114-126 | every input port requires packet_len + 1 bytes |
| PacketParser.Parser.SetLogPayload | telecom/gnuradio/gr-fsk/python/packet_parser.py:128-129 | sets the flag and changes nothing else |
| PacketParser.Parser.GeneralWork | telecom/gnuradio/gr-fsk/python/packet_parser.py:131-178 | consumes packet_len + 1 bytes whatever follows; on a parsed frame nb_packet rises by 1 and nb_error by 1 exactly when the CRC is wrong (so nb_error <= nb_packet), the metadata is published, the payload row goes to both ports and 1 is returned; EmptyCorrelation and PayloadShapeMismatch leave the counters unchanged; MissingCrcByte is raised after both counters are updated |
| PacketParser.Parser.Record | telecom/gnuradio/gr-fsk/python/packet_parser.py:150-178 | counts the packet and its failure, publishes {nb_packet, is_correct, nb_error, crc[0]} (an empty CRC raises IndexError) and writes the rows |
| Synchronization.PhaseSums | telecom/gnuradio/gr-fsk/python/synchronization.py:106-107 | one strided sum np.sum(d[i::R]) per phase i < R |
| Synchronization.SelectSto | telecom/gnuradio/gr-fsk/python/synchronization.py:103-134 | the running maximum from -inf selects the first phase holding the strict maximum, and the result (i + 1) mod R lies in [0, R) |
| Synchronization.Window | telecom/gnuradio/gr-fsk/python/synchronization.py:249 | win_size = min(output capacity, rem_samples): it never exceeds either and equals one of them |
| Synchronization.Track | telecom/gnuradio/gr-fsk/python/synchronization.py:248-278 | a run of tracking steps never raises rem_samples |
| Synchronization.TrackAccounting | telecom/gnuradio/gr-fsk/python/synchronization.py:249-276 | whatever the window sizes, a packet still tracked has consumed exactly what it forwarded, and a finished one that plus osr - sto |
| Synchronization.PacketConsumption | telecom/gnuradio/gr-fsk/python/synchronization.py:238-276 | with the sto samples dropped by the search step, a whole packet consumes (packet_len + 1) * 8 * osr + osr samples whatever sto is |
| Synchronization.Synchronizer.constructor | telecom/gnuradio/gr-fsk/python/synchronization.py:142-166 | starts SEARCHING (rem_samples = 0, sto = 0, cfo = 0, no power estimate) with osr = int(fsamp / drate) and noise power 1e-5 |
| Synchronization.Synchronizer.Forecast | telecom/gnuradio/gr-fsk/python/synchronization.py:186-216 | one requirement per input: min(8000, 8 * osr * (packet_len + 1) + osr) while searching, noutput_items while tracking |
| Synchronization.Synchronizer.SearchRequestCoversPacket | telecom/gnuradio/gr-fsk/python/synchronization.py:191-194 | the search request never exceeds 8000 and, below that cap, covers a whole packet and the osr samples that end it |
| Synchronization.Synchronizer.HandleMsg | telecom/gnuradio/gr-fsk/python/synchronization.py:218-219 | stores the mean noise power and changes nothing else |
| Synchronization.Synchronizer.SetTxPower | telecom/gnuradio/gr-fsk/python/synchronization.py:221-222 | stores the transmit power and changes nothing else |
| Synchronization.Synchronizer.GeneralWork | telecom/gnuradio/gr-fsk/python/synchronization.py:225-278 | searching: publishes one syncMetrics with preamble_start = nitems_read + sto, resets the power estimate, sets rem_samples to a whole packet, consumes sto and returns 0; tracking: returns win_size, lowers rem_samples by it, consumes win_size (plus osr - sto on the last step) and publishes powerMetrics once per packet, on the first window of at least 256 samples; the accounting invariant is kept |
| NoiseEstimation.NoiseEstimator.constructor | telecom/gnuradio/gr-fsk/python/onQuery_noise_estimation.py:39-57 | starts idle with est_counter = 1, a zero accumulator and three zeroed vectors of n_est slots |
| NoiseEstimation.NoiseEstimator.QueryEstimation | telecom/gnuradio/gr-fsk/python/onQuery_noise_estimation.py:33-37 | the argument 1 sets est_counter = 1, the accumulator to 0 and starts a query; any other argument changes nothing |
| NoiseEstimation.NoiseEstimator.Forecast | telecom/gnuradio/gr-fsk/python/onQuery_noise_estimation.py:66-76 | requests n_samples items on every input |
| NoiseEstimation.NoiseEstimator.GeneralWork | telecom/gnuradio/gr-fsk/python/onQuery_noise_estimation.py:78-108 | idle: consumes everything and publishes nothing; queried: writes estimate, DC offset and sample count into slot est_counter - 1, consumes its input, and on the n_est-th call publishes one message with mean = sum / n_est and returns to idle; always returns 0; with n_est = 0 the slot write raises; est_counter stays in 1..n_est |
| NoiseEstimation.NoiseEstimator.RecordEstimate | telecom/gnuradio/gr-fsk/python/onQuery_noise_estimation.py:85-106 | the queried branch once the slot exists: the three slot writes, the accumulation and the publish-or-advance step |
| NoiseEstimation.NoiseEstimator.AdvanceCounter | telecom/gnuradio/gr-fsk/python/onQuery_noise_estimation.py:91-106 | after the n_est-th estimate publishes the vectors and their mean and goes idle with counter 1 and accumulator 0; otherwise moves to the next slot |
| NoiseEstimation.NoiseEstimator.RecordSlot | telecom/gnuradio/gr-fsk/python/onQuery_noise_estimation.py:85-87 | each of the three vectors changes in slot k only |
| NoiseEstimation.SumPrefixUpdate | telecom/gnuradio/gr-fsk/python/onQuery_noise_estimation.py:85-89 | writing slot k after the first k slots extends their sum by the written value, so the accumulator equals the sum of the recorded estimates |
| Logger.Syncs | telecom/gnuradio/gr-fsk/python/logger.py:129-132 | the sync halves of the pairs taken so far, in order |
| Logger.Powers | telecom/gnuradio/gr-fsk/python/logger.py:129-132 | the power halves of the pairs taken so far, in order |
| Logger.FifoPairing | telecom/gnuradio/gr-fsk/python/logger.py:111-134 | when every received metric is paired or still queued in order, the k-th pair joins the k-th sync metric with the k-th power metric |
| Logger.PairStep | telecom/gnuradio/gr-fsk/python/logger.py:129-132 | popping the oldest entry of both queues keeps every received metric accounted for, in order |
| Logger.Logger.constructor | telecom/gnuradio/gr-fsk/python/logger.py:23-60 | all metrics at their initial values and both queues empty |
| Logger.Logger.ParseNoiseMetrics | telecom/gnuradio/gr-fsk/python/logger.py:80-85 | the noise fields are overwritten by the message; every other metric, flag and queue is unchanged |
| Logger.Logger.ParseSyncMetrics | telecom/gnuradio/gr-fsk/python/logger.py:111-115 | appends exactly one entry to the sync queue; every metric, flag and other queue is unchanged |
| Logger.Logger.ParsePowerMetrics | telecom/gnuradio/gr-fsk/python/logger.py:117-121 | appends exactly one entry to the power queue; every metric, flag and other queue is unchanged |
| Logger.Logger.ParsePayloadMetadata | telecom/gnuradio/gr-fsk/python/logger.py:123-134 | always overwrites the metadata; pops the oldest entry of both queues into the current metrics only when both are non-empty, otherwise leaves queues and metrics alone; the difference of the queue lengths never changes |
| Logger.Logger.PairedInOrder | telecom/gnuradio/gr-fsk/python/logger.py:111-134 | every pairing so far joined the sync and power metrics received in the same position (FIFO) |
| Logger.Logger.SetPrintPayload | telecom/gnuradio/gr-fsk/python/logger.py:137-138 | sets its flag; the other flags, every metric and both queues are unchanged |
| Logger.Logger.SetPrintMetrics | telecom/gnuradio/gr-fsk/python/logger.py:140-141 | sets its flag; the other flags, every metric and both queues are unchanged |
| Logger.Logger.SetSaveMeasurements | telecom/gnuradio/gr-fsk/python/logger.py:143-144 | sets its flag; the other flags, every metric and both queues are unchanged |
| Logger.Logger.Forecast | telecom/gnuradio/gr-fsk/python/logger.py:146-158 | requests one item on every input |
| Logger.Logger.GeneralWork | telecom/gnuradio/gr-fsk/python/logger.py:160-205 | consumes every available item, returns 0 and changes no queue or metric |
| CompressorV2.NoneRoundTrip | mcu/src_optimization_prototypes/compresssion/compressorV2.py:16-69 | decompress_none(compress_none(d)) == d |
| Seqs.Repeat | mcu/src_optimization_prototypes/compresssion/compressorV2.py:80 | [value] * n holds n copies of the value; the packet parser uses it for the rows a slice assignment fills with one payload row |
| Seqs.RepeatAdd | mcu/src_optimization_prototypes/compresssion/compressorV2.py:29-80 | a run split into chunks expands to the whole run |
| CompressorV2.RunsMaximal | mcu/src_optimization_prototypes/compresssion/compressorV2.py:23-40 | the runs the scan closes are non-empty, neighbouring runs differ in value, and the last run holds the last byte |
| CompressorV2.ExpandSnoc | mcu/src_optimization_prototypes/compresssion/compressorV2.py:80 | expanding one more run appends its copies |
| CompressorV2.RunsSnoc | mcu/src_optimization_prototypes/compresssion/compressorV2.py:25-40 | one more byte extends the current run or starts a new one |
| CompressorV2.RunsStep | mcu/src_optimization_prototypes/compresssion/compressorV2.py:25-40 | one loop iteration: an equal byte extends the current run, a different byte closes it and opens a run of length 1 |
| CompressorV2.ExpandRunsSnoc | mcu/src_optimization_prototypes/compresssion/compressorV2.py:25-40 | expanding the runs stays equal to the data when one byte is added |
| CompressorV2.RunsExpand | mcu/src_optimization_prototypes/compresssion/compressorV2.py:20-52 | the runs expand back to the data: no byte lost, added or reordered |
| CompressorV2.EmitRunShape | mcu/src_optimization_prototypes/compresssion/compressorV2.py:29-48 | a run becomes Chunks(n) pairs that all hold the value: full chunks of 127 first, the remainder last |
| CompressorV2.EncodeRunsSnoc | mcu/src_optimization_prototypes/compresssion/compressorV2.py:26-34 | closing one more run appends that run's pairs |
| CompressorV2.PrependPrepend | mcu/src_optimization_prototypes/compresssion/compressorV2.py:73-85 | prefixing two decoded pieces is prefixing their concatenation |
| CompressorV2.DecodeEmitRun | mcu/src_optimization_prototypes/compresssion/compressorV2.py:29-81 | decoding the pairs of one run, then anything, yields the run then the decoding of the rest |
| CompressorV2.DecodeEncodeRuns | mcu/src_optimization_prototypes/compresssion/compressorV2.py:20-85 | decoding the encoding of runs, then anything, yields their expansion then the rest |
| CompressorV2.RleRoundTrip | mcu/src_optimization_prototypes/compresssion/compressorV2.py:20-85 | decompress_rle(compress_rle(d)) == d for every non-empty d |
| CompressorV2.PairsAppend | mcu/src_optimization_prototypes/compresssion/compressorV2.py:26-48 | two pair-only texts concatenate to a pair-only text whose lengths add up |
| CompressorV2.EmitRunPairs | mcu/src_optimization_prototypes/compresssion/compressorV2.py:29-48 | one run's output is pairs only, with lengths in 1..127 summing to the run length |
| CompressorV2.EncodeRunsPairs | mcu/src_optimization_prototypes/compresssion/compressorV2.py:20-52 | the encoding of runs is pairs only and its lengths sum to the number of bytes the runs stand for |
| CompressorV2.CompressedPairs | mcu/src_optimization_prototypes/compresssion/compressorV2.py:20-52 | with MIN_RUN_LENGTH = 1 the output is only (0x80 \| len, value) pairs with 1 <= len <= 127 whose lengths sum to len(data); the literal branches never run |
| CompressorV2.AppendRun | mcu/src_optimization_prototypes/compresssion/compressorV2.py:29-48 | the chunking loop and closing pair append exactly the run's pairs |
| CompressorV2.CompressRle | mcu/src_optimization_prototypes/compresssion/compressorV2.py:20-52 | fails (None) exactly on an empty input; otherwise returns the pair encoding of the maximal runs of the input |
| CompressorV2.CloseRun | mcu/src_optimization_prototypes/compresssion/compressorV2.py:26-51 | closing a run at a value change or at the end appends that run's pairs to the encoding of the runs closed so far |
| CompressorV2.DecompressRle | mcu/src_optimization_prototypes/compresssion/compressorV2.py:71-85 | the scan equals the decoder specification: a byte without the high bit is copied, a marker b expands into b & 0x7F copies of the next byte, a trailing marker fails |
| CompressorV2.DeltaEncode | mcu/src_optimization_prototypes/compresssion/compressorV2.py:55-63 | the delta encoding keeps the length |
| CompressorV2.DeltaEncodeBytes | mcu/src_optimization_prototypes/compresssion/compressorV2.py:57-62 | byte 0 is data[0], and byte k is the difference that added to data[k-1] modulo 256 gives data[k] |
| CompressorV2.DeltaDecode | mcu/src_optimization_prototypes/compresssion/compressorV2.py:87-93 | decoding keeps the length and starts with the first byte |
| CompressorV2.DeltaDecodeStep | mcu/src_optimization_prototypes/compresssion/compressorV2.py:91-92 | each decoded byte after the first is its predecessor plus the difference, modulo 256 |
| CompressorV2.CompressDelta | mcu/src_optimization_prototypes/compresssion/compressorV2.py:55-63 | fails (None) exactly on an empty input; otherwise returns the delta encoding |
| CompressorV2.DecompressDelta | mcu/src_optimization_prototypes/compresssion/compressorV2.py:87-93 | the loop equals the decoder specification; the empty input gives [] |
| CompressorV2.ModAddSub | mcu/src_optimization_prototypes/compresssion/compressorV2.py:60-92 | adding back a difference taken modulo 256 restores the byte, and the other way round |
| CompressorV2.DeltaRoundTrip | mcu/src_optimization_prototypes/compresssion/compressorV2.py:55-93 | decompress_delta(compress_delta(d)) == d |
| CompressorV2.DeltaRoundTripAt | mcu/src_optimization_prototypes/compresssion/compressorV2.py:55-93 | the round trip restores each position |
| CompressorV2.DeltaRoundTripInverse | mcu/src_optimization_prototypes/compresssion/compressorV2.py:55-93 | encoding a decoding gives back the encoded text |
| CompressorV2.DeltaInverseAt | mcu/src_optimization_prototypes/compresssion/compressorV2.py:55-93 | the inverse round trip restores each position |
| CompressorV1.CenterBetween | mcu/optimization_prototypes/compresssion/compressorV1.py:129-133 | the centre round((start + last) / 2) lies between the ends of the rise; it is their midpoint when whole, otherwise the even neighbour (half-to-even) |
| CompressorV1.WeightValue | mcu/optimization_prototypes/compresssion/compressorV1.py:130-134 | ceil((len + 0.1) / 2) is len / 2 + 1, so every weight is at least 1 |
| CompressorV1.MakePeakFacts | mcu/optimization_prototypes/compresssion/compressorV1.py:129-130 | a peak lies in its column, between the first and last rows of its rise, with weight (y - start_rise) / 2 + 1 |
| CompressorV1.ScanFacts | mcu/optimization_prototypes/compresssion/compressorV1.py:121-131 | an open rise started at a row already scanned; every peak found lies in the column below the top row with weight at least 1; each peak used a rising and a falling row |
| CompressorV1.ColumnPeaksFacts | mcu/optimization_prototypes/compresssion/compressorV1.py:119-134 | the peaks of a column lie in it, below the top row, with weight at least 1, and there are at most height / 2 of them |
| CompressorV1.FlatColumnNoPeaks | mcu/optimization_prototypes/compresssion/compressorV1.py:124-128 | equal neighbours neither start nor end a rise: a flat column has no peak |
| CompressorV1.FlatScan | mcu/optimization_prototypes/compresssion/compressorV1.py:123-131 | scanning a flat column never opens a rise |
| CompressorV1.IncreasingColumnOnePeak | mcu/optimization_prototypes/compresssion/compressorV1.py:132-134 | a rise still open at the bottom yields one peak ending at row height - 1 |
| CompressorV1.IncreasingScan | mcu/optimization_prototypes/compresssion/compressorV1.py:123-131 | a strictly increasing column holds one rise opened at row 1 that never closes |
| CompressorV1.HalfEvenExample | mcu/optimization_prototypes/compresssion/compressorV1.py:129-130 | a rise over rows 1..4 closed at row 5 has centre round(2.5) = 2 and weight ceil(4.1 / 2) = 3 |
| CompressorV1.PlateauExample | mcu/optimization_prototypes/compresssion/compressorV1.py:124-131 | a plateau inside a rise does not close it |
| CompressorV1.AppendColumnOrdered | mcu/optimization_prototypes/compresssion/compressorV1.py:119-134 | the peaks of a later column follow those of earlier columns in column order |
| CompressorV1.AllPeaksInColumns | mcu/optimization_prototypes/compresssion/compressorV1.py:117-135 | every peak of the grid lies in one of the scanned columns, below the top row, with weight at least 1 |
| CompressorV1.AllPeaksOrdered | mcu/optimization_prototypes/compresssion/compressorV1.py:117-135 | peaks are listed column by column, left to right |
| CompressorV1.AllPeaksCount | mcu/optimization_prototypes/compresssion/compressorV1.py:117-135 | at most height / 2 peaks per column |
| CompressorV1.Canvas.constructor | mcu/optimization_prototypes/compresssion/compressorV1.py:31-39 | a blank 28 x 40 canvas of zero cells without peaks |
| CompressorV1.Canvas.ComputePeaks | mcu/optimization_prototypes/compresssion/compressorV1.py:117-136 | replaces the peak list wholesale with the peaks of every column, left to right; the grid is unchanged |
| CompressorV1.Canvas.ClearPeaks | mcu/optimization_prototypes/compresssion/compressorV1.py:138-140 | empties the peak list; the grid is unchanged |
| CompressorV1.AppendColumnPeaks | mcu/optimization_prototypes/compresssion/compressorV1.py:120-134 | the scan of one column appends exactly that column's peaks |
| CompressorV1.MaxDerivative | mcu/optimization_prototypes/compresssion/compressorV1.py:242-253 | returns no row (and 0.0) exactly when every central difference is 0; otherwise the first row of largest absolute difference and that difference |
| CompressorV1.NonzeroColumns | mcu/optimization_prototypes/compresssion/compressorV1.py:240-250 | the count of columns with a nonzero first derivative is at most the number of columns |
| CompressorV1.EqualRowsNoDerivative | mcu/optimization_prototypes/compresssion/compressorV1.py:244-250 | a grid of equal rows has no column with a nonzero derivative |
| CompressorV1.CompressionSizes | mcu/optimization_prototypes/compresssion/compressorV1.py:257-263 | full = width * height bytes, peaks = 3 * #peaks, first derivative = 2 * #columns with a nonzero derivative, at most 2 * width |
| CompressorV1.PeakBytesBound | mcu/optimization_prototypes/compresssion/compressorV1.py:259-261 | after compute_peaks the peak encoding takes at most 3 * width * (height / 2) bytes |
| Packet.XorBlock | mcu/optimization_main_app/Core/Src/packet.c:46 | the state XORed with a block, byte by byte |
| Packet.MsgBlock | mcu/optimization_main_app/Core/Src/packet.c:43-48 | block i of the message, with the bytes beyond the message read as 0 (the bounds check) |
| Packet.ZeroPad | mcu/optimization_main_app/Core/Src/packet.c:41-48 | the zero-padded message: a multiple of 16 bytes, fewer than 16 added, the message as prefix |
| Packet.Blocks | mcu/optimization_main_app/Core/Src/packet.c:41 | ceil(len / 16) consecutive 16-byte blocks of the padded message |
| Packet.ChainSnoc | mcu/optimization_main_app/Core/Src/packet.c:41-52 | one more block is XORed into the chained state and encrypted |
| Packet.PaddedBlock | mcu/optimization_main_app/Core/Src/packet.c:43-48 | the in-range XOR reads block i of the zero-padded message |
| Packet.MacStateIsChain | mcu/optimization_main_app/Core/Src/packet.c:32-52 | after n blocks the loop state is CBC chaining with a zero IV over the first n padded blocks |
| Packet.CbcMacIsReference | mcu/optimization_main_app/Core/Src/packet.c:29-57 | tag_cbc_mac is CBC-MAC (ISO/IEC 9797-1 MAC algorithm 1, zero IV, zero padding) of the message; a zero-length message gives the all-zero tag |
| Packet.MacStateExtensional | mcu/optimization_main_app/Core/Src/packet.c:41-52 | the tag depends only on the message blocks and the cipher |
| Packet.XorMsgBlock | mcu/optimization_main_app/Core/Src/packet.c:43-48 | the inner loop XORs exactly block i of the message (zero beyond its end) into the state |
| Packet.Encrypt | mcu/optimization_main_app/Core/Src/packet.c:51 | the state is replaced by its encryption |
| Packet.TagCbcMac | mcu/optimization_main_app/Core/Src/packet.c:29-57 | the tag of the first msg_len bytes is written to the 16 bytes at the tag offset and nothing else changes |
| Packet.Header | mcu/optimization_main_app/Core/Src/packet.c:128-139 | the header is 8 bytes |
| Packet.ParseHeader | mcu/optimization_main_app/Core/Src/packet.c:133-134 | the length read back from bytes 2-3 is below 2^16 |
| Packet.SerialBytes | mcu/optimization_main_app/Core/Src/packet.c:136-139 | the four serial bytes reassemble to the serial |
| Packet.HeaderRoundTrip | mcu/optimization_main_app/Core/Src/packet.c:128-139 | byte 0 is 0 and the header reads back as emitter id, payload length modulo 2^16 (big endian) and serial (big endian) |
| Packet.LengthBytes | mcu/optimization_main_app/Core/Src/packet.c:133-134 | the two length bytes hold payload_len modulo 2^16, high byte first |
| Packet.WriteHeader | mcu/optimization_main_app/Core/Src/packet.c:122-139 | the 8 header bytes are written and the rest of the buffer is untouched |
| Packet.MakePacket | mcu/optimization_main_app/Core/Src/packet.c:119-169 | returns payload_len + 8 + 16; writes the header, leaves the payload in place, writes the tag over header and payload right after the payload and leaves the rest of the buffer alone |
| Packet.Framed | mcu/optimization_main_app/Core/Src/packet.c:119-169 | a frame is 8 + payload + 16 bytes long |
| Packet.FramedParts | mcu/optimization_main_app/Core/Src/packet.c:119-169 | a buffer with that header and tag is the frame of the payload it carries |
| Packet.FramedRoundTrip | mcu/optimization_main_app/Core/Src/packet.c:119-169 | a receiver recovers from a frame the header fields, the payload and a tag that checks against header and payload |
| MelEncoding.ValueBytes | mcu/optimization_main_app/Core/Src/adc_dblbuf.c:130-131 | a coefficient takes two bytes |
| MelEncoding.RowBytes | mcu/optimization_main_app/Core/Src/adc_dblbuf.c:129-132 | a vector of n coefficients takes 2n bytes |
| MelEncoding.MelPayloadLength | mcu/optimization_main_app/Core/Src/adc_dblbuf.c:128-133 | N vectors of length L take 2 * N * L payload bytes |
| MelEncoding.RowBytesIndex | mcu/optimization_main_app/Core/Src/adc_dblbuf.c:130-131 | coefficient j of a vector is at offsets 2j (high byte, v >> 8) and 2j + 1 (low byte, v & 0xFF) |
| MelEncoding.MelPayloadIndex | mcu/optimization_main_app/Core/Src/adc_dblbuf.c:128-133 | mel_vectors[i][j] is written big endian at payload offset 2 * (i * MELVEC_LENGTH + j) |
| MelEncoding.RowsPrefix | mcu/optimization_main_app/Core/Src/adc_dblbuf.c:128-133 | the payload of the first i + 1 vectors extends that of the first i by the bytes of vector i |
| MelEncoding.RowPrefix | mcu/optimization_main_app/Core/Src/adc_dblbuf.c:129-132 | the bytes of the first j + 1 coefficients extend those of the first j by coefficient j |
| MelEncoding.RowPrefix2 | mcu/optimization_main_app/Core/Src/adc_dblbuf.c:154-163 | two coefficients at a time extend the bytes by both coefficients |
| MelEncoding.SetRow | mcu/optimization_main_app/Core/Src/adc_dblbuf.c:286 | storing a vector replaces exactly one row of the 2-D buffer |
| MelEncoding.Written | mcu/optimization_main_app/Core/Src/adc_dblbuf.c:126-171 | a write of bs at an offset leaves the bytes before and after it unchanged |
| MelEncoding.WrittenTwice | mcu/optimization_main_app/Core/Src/adc_dblbuf.c:147-171 | writing a and then b right after it is writing a + b |
| MelEncoding.StoreValue | mcu/optimization_main_app/Core/Src/adc_dblbuf.c:130-131 | the two byte stores of one coefficient write its big-endian bytes |
| MelEncoding.EncodeIndexed | mcu/optimization_main_app/Core/Src/adc_dblbuf.c:126-133 | level 0 writes exactly the big-endian payload of all vectors after the 8-byte header and nothing else |
| MelEncoding.EncodeRowIndexed | mcu/optimization_main_app/Core/Src/adc_dblbuf.c:129-132 | the inner loop writes vector i's bytes at offset 8 + 2 * i * MELVEC_LENGTH |
| MelEncoding.BytesValue | mcu/optimization_main_app/Core/Src/adc_dblbuf.c:156-162 | a high and a low byte form the 16-bit value h * 256 + l |
| MelEncoding.U16Value | mcu/optimization_main_app/Core/Src/adc_dblbuf.c:156 | v & 0xFFFF is v modulo 2^16 |
| MelEncoding.SplitLow16 | mcu/optimization_main_app/Core/Src/adc_dblbuf.c:156-162 | the low 16 bits are the second-lowest byte times 256 plus the lowest byte |
| MelEncoding.PatternBytes | mcu/optimization_main_app/Core/Src/adc_dblbuf.c:156-162 | the four bytes of a packed word are its two halves, high byte first |
| MelEncoding.PairBytes | mcu/optimization_main_app/Core/Src/adc_dblbuf.c:156-162 | the four bytes taken from (a << 16) \| (b & 0xFFFF) are a and b big endian |
| MelEncoding.EncodePaired | mcu/optimization_main_app/Core/Src/adc_dblbuf.c:145-171 | the level-1 word-packing encoder writes the same bytes as level 0, odd-length tail included |
| MelEncoding.EncodeRowPaired | mcu/optimization_main_app/Core/Src/adc_dblbuf.c:151-170 | one vector of the word-packing encoder writes its big-endian bytes and advances the write position by 2 * MELVEC_LENGTH |
| MelEncoding.EncodePairs | mcu/optimization_main_app/Core/Src/adc_dblbuf.c:154-163 | the paired loop writes the bytes of every coefficient below the odd last one |
| MelEncoding.EncodePairAt | mcu/optimization_main_app/Core/Src/adc_dblbuf.c:156-162 | one step stores coefficients j and j + 1 big endian at the write position |
| MelEncoding.StorePair | mcu/optimization_main_app/Core/Src/adc_dblbuf.c:159-162 | the four stores write the packed word most significant byte first |
| AdcDblbuf.AbsQ15 | mcu/optimization_main_app/Core/Src/adc_dblbuf.c:220 | arm_abs_q15 gives the magnitude saturated to q15 (-32768 gives 32767) |
| AdcDblbuf.RowAbsSum | mcu/optimization_main_app/Core/Src/adc_dblbuf.c:237-242 | the sum of saturated magnitudes of a vector is non-negative |
| AdcDblbuf.TotalAbs | mcu/optimization_main_app/Core/Src/adc_dblbuf.c:214-224 | the sum over all vectors is non-negative |
| AdcDblbuf.MaxAbs | mcu/optimization_main_app/Core/Src/adc_dblbuf.c:255 | arm_absmax_q15 yields a non-negative magnitude |
| AdcDblbuf.TotalAbsPrefix | mcu/optimization_main_app/Core/Src/adc_dblbuf.c:217-224 | the running total after vector i adds that vector's sum |
| AdcDblbuf.RowAbsSumPrefix | mcu/optimization_main_app/Core/Src/adc_dblbuf.c:240-242 | the per-vector sum grows by each saturated magnitude |
| AdcDblbuf.MaxAbsPrefix | mcu/optimization_main_app/Core/Src/adc_dblbuf.c:255 | the running maximum takes each new magnitude that is larger |
| AdcDblbuf.TotalAbsMonotone | mcu/optimization_main_app/Core/Src/adc_dblbuf.c:217-230 | the running total of magnitudes never decreases |
| AdcDblbuf.HardFullEarlyExit | mcu/optimization_main_app/Core/Src/adc_dblbuf.c:213-231 | returning 1 once the running total exceeds the threshold at a vector boundary decides the same as comparing the whole total |
| AdcDblbuf.MaxAbsExceeds | mcu/optimization_main_app/Core/Src/adc_dblbuf.c:250-261 | the maximum magnitude exceeds a non-negative threshold iff some coefficient's does |
| AdcDblbuf.LooseReached | mcu/optimization_main_app/Core/Src/adc_dblbuf.c:250-262 | LOOSE returns 1 iff some coefficient's magnitude exceeds THRESHOLD_VALUE |
| AdcDblbuf.RowAbsSumBound | mcu/optimization_main_app/Core/Src/adc_dblbuf.c:237-242 | a vector's sum is at most 32767 per coefficient |
| AdcDblbuf.TotalAbsBound | mcu/optimization_main_app/Core/Src/adc_dblbuf.c:214-224 | the total is at most 32767 per coefficient |
| AdcDblbuf.ThresholdSumsFit | mcu/optimization_main_app/Core/Src/adc_dblbuf.c:214-242 | the q31_t accumulators cannot overflow on the 20 x 20 buffer |
| AdcDblbuf.AccumulateRow | mcu/optimization_main_app/Core/Src/adc_dblbuf.c:219-224 | the copy, abs and summing loop add the vector's sum of saturated magnitudes |
| AdcDblbuf.RowAbsMax | mcu/optimization_main_app/Core/Src/adc_dblbuf.c:255 | the absmax loop computes the vector's largest saturated magnitude |
| AdcDblbuf.ThresholdHardFull | mcu/optimization_main_app/Core/Src/adc_dblbuf.c:213-231 | HARD_FULL returns 1 iff the running total exceeds THRESHOLD_VALUE * N_MELVECS * MELVEC_LENGTH (stored as q15_t), else 0 |
| AdcDblbuf.ThresholdPerMelvec | mcu/optimization_main_app/Core/Src/adc_dblbuf.c:232-249 | HARD_PER_MELVEC returns 1 iff some vector's sum exceeds THRESHOLD_VALUE * MELVEC_LENGTH, else 0 |
| AdcDblbuf.ThresholdLoose | mcu/optimization_main_app/Core/Src/adc_dblbuf.c:250-262 | LOOSE returns 1 iff some vector's maximum magnitude exceeds THRESHOLD_VALUE, else 0 |
| AdcDblbuf.ThresholdMelVectors | mcu/optimization_main_app/Core/Src/adc_dblbuf.c:200-266 | the configured mode's decision; any other mode returns 0 |
| AdcDblbuf.FrameMelPacket | mcu/optimization_main_app/Core/Src/adc_dblbuf.c:126-181 | either encoder followed by make_packet leaves the frame of the big-endian mel payload |
| AdcDblbuf.Acquisition.constructor | mcu/optimization_main_app/Core/Src/adc_dblbuf.c:64-74 | counters at 0, zeroed mel buffer, nothing sent |
| AdcDblbuf.Acquisition.StartADCAcq | mcu/optimization_main_app/Core/Src/adc_dblbuf.c:77-85 | rem_n_bufs = n and cur_melvec = 0; the DMA status is returned only for a non-zero count |
| AdcDblbuf.Acquisition.IsADCFinished | mcu/optimization_main_app/Core/Src/adc_dblbuf.c:88-90 | holds iff rem_n_bufs == 0 |
| AdcDblbuf.Acquisition.EncodePacket | mcu/optimization_main_app/Core/Src/adc_dblbuf.c:126-181 | the buffer holds the frame of the mel payload under the current counter; packet_cnt rises by 1 and a wrap to 0 enters Error_Handler |
| AdcDblbuf.Acquisition.SendSpectrogram | mcu/optimization_main_app/Core/Src/adc_dblbuf.c:185-197 | one encoded frame is handed to the radio, unless the counter wrapped |
| AdcDblbuf.Acquisition.CompleteSpectrogram | mcu/optimization_main_app/Core/Src/adc_dblbuf.c:292-311 | with USE_THRESHOLD a spectrogram is sent only when the threshold is reached; then ACQ_OVERLAP restarts with cur_melvec = 0 and rem_n_bufs = N_MELVECS |
| AdcDblbuf.Acquisition.ShouldSend | mcu/optimization_main_app/Core/Src/adc_dblbuf.c:293-302 | sends iff the threshold is off or reached |
| AdcDblbuf.Acquisition.SendAndReset | mcu/optimization_main_app/Core/Src/adc_dblbuf.c:295-310 | sends, then restarts the counts unless the send halted |
| AdcDblbuf.Acquisition.ResetAcquisition | mcu/optimization_main_app/Core/Src/adc_dblbuf.c:306-310 | cur_melvec = 0 and rem_n_bufs = N_MELVECS; nothing else changes |
| AdcDblbuf.Acquisition.AdcCallback | mcu/optimization_main_app/Core/Src/adc_dblbuf.c:269-313 | rem_n_bufs drops by one (32-bit wrap) unless it is -1; the vector is stored in row cur_melvec, which then rises; at 0 the spectrogram is completed; a row beyond the buffer is an error; a steady acquisition stays steady |
| AdcDblbufReopt.AbsSum | mcu/reoptimization_main_app/Core/Src/adc_dblbuf.c:155-164 | the sum of exact magnitudes is non-negative |
| AdcDblbufReopt.AbsSumPrefix | mcu/reoptimization_main_app/Core/Src/adc_dblbuf.c:162-165 | the sum grows by each magnitude |
| AdcDblbufReopt.AbsSumStep4 | mcu/reoptimization_main_app/Core/Src/adc_dblbuf.c:146-159 | the unrolled body adds exactly the branchless magnitudes of entries j .. j + 3 |
| AdcDblbufReopt.AbsSumStep1 | mcu/reoptimization_main_app/Core/Src/adc_dblbuf.c:162-165 | the remainder body adds the branchless magnitude of entry j |
| AdcDblbufReopt.SumAbsInclusive | mcu/reoptimization_main_app/Core/Src/adc_dblbuf.c:145-165 | the mode-1 loops (four at a time while j <= len - 4, then one at a time) add every entry's magnitude exactly once |
| AdcDblbufReopt.SumAbsStrict | mcu/reoptimization_main_app/Core/Src/adc_dblbuf.c:179-197 | the mode-2 loops (four at a time while j < len - 4, then one at a time) sum every entry's magnitude exactly once |
| AdcDblbufReopt.AnyAboveStep | mcu/reoptimization_main_app/Core/Src/adc_dblbuf.c:216-224 | one more entry is above the threshold iff an earlier one was or it is |
| AdcDblbufReopt.AnyAboveUnrolled | mcu/reoptimization_main_app/Core/Src/adc_dblbuf.c:207-225 | the mode-3 loops find a magnitude above the threshold iff there is one |
| AdcDblbufReopt.ThresholdMelWorkingBuf | mcu/reoptimization_main_app/Core/Src/adc_dblbuf.c:128-234 | returns 1 on every path, early returns included |
| AdcDblbufReopt.Pipeline.constructor | mcu/reoptimization_main_app/Core/Src/adc_dblbuf.c:15 | flags and counters at 0, buffers zeroed, nothing sent |
| AdcDblbufReopt.Pipeline.StartADCAcq | mcu/reoptimization_main_app/Core/Src/adc_dblbuf.c:23-35 | buffer_ready, current_proc_buf and packet_cnt restart at 0 and HAL_OK is returned |
| AdcDblbufReopt.Pipeline.HalfComplete | mcu/reoptimization_main_app/Core/Src/adc_dblbuf.c:257-263 | ignored while buffer_ready is set; otherwise copies the first half, sets buffer_ready and current_proc_buf = 0 |
| AdcDblbufReopt.Pipeline.Complete | mcu/reoptimization_main_app/Core/Src/adc_dblbuf.c:265-271 | ignored while buffer_ready is set; otherwise copies the second half, sets buffer_ready and current_proc_buf = 1 |
| AdcDblbufReopt.Pipeline.LoadMel | mcu/reoptimization_main_app/Core/Src/adc_dblbuf.c:244 | after the computation MELWorkingBuf holds the spectrogram |
| AdcDblbufReopt.Pipeline.EncodePacket | mcu/reoptimization_main_app/Core/Src/adc_dblbuf.c:48-103 | either encoder leaves the frame of the big-endian MELWorkingBuf payload; packet_cnt rises by 1 and a wrap to 0 enters Error_Handler |
| AdcDblbufReopt.Pipeline.SendSpectrogram | mcu/reoptimization_main_app/Core/Src/adc_dblbuf.c:107-125 | one encoded frame is handed to the radio, unless the counter wrapped |
| AdcDblbufReopt.Pipeline.ProcessADCData | mcu/reoptimization_main_app/Core/Src/adc_dblbuf.c:237-255 | a no-op without a waiting half; otherwise clears the flag, computes and (the threshold always holding) sends the spectrogram |
| AdcDblbufReopt.SpliceStep | mcu/reoptimization_main_app/Core/Src/adc_dblbuf.c:244 | storing row i of the new spectrogram extends the spliced prefix by one row |
| SpectrogramOpt.Zip | mcu/optimization_main_app/Core/Src/spectrogram.c:96-106 | a per-sample pass keeps the buffer length and makes sample k depend on input k and table entry k only |
| SpectrogramOpt.FormatNoOptSpec | mcu/optimization_main_app/Core/Src/spectrogram.c:198-214 | the CHAIN_NO_OPT buffer has the input's length and holds the saturating shift by 3 minus 2^14 (q15 wrap) at each index |
| SpectrogramOpt.ProductBound | mcu/optimization_main_app/Core/Src/spectrogram.c:99-102 | a DC-removed 12-bit sample times any q15 coefficient lies within plus or minus 2^29 |
| SpectrogramOpt.WindowedSampleExact | mcu/optimization_main_app/Core/Src/spectrogram.c:96-106 | for a 12-bit reading the shifted, DC-removed value lies in [-16384, 16376], the 32-bit product does not overflow and the SSAT never clips |
| SpectrogramOpt.NoOptSampleExact | mcu/optimization_main_app/Core/Src/spectrogram.c:191-213 | for a 12-bit reading CHAIN_NO_OPT gives exactly 8x - 16384: the shift does not saturate and the subtraction does not wrap |
| SpectrogramOpt.ChainOptIsNoOptThenWindow | mcu/optimization_main_app/Core/Src/spectrogram.c:88-225 | on 12-bit readings the fused CHAIN_OPT pass equals the CHAIN_NO_OPT formatting followed by Hamming windowing with arm_mult_q15 |
| SpectrogramOpt.FormatChainOpt | mcu/optimization_main_app/Core/Src/spectrogram.c:86-108 | Spectrogram_Format (CHAIN_OPT) leaves in every cell the fused shift, DC removal, windowing and saturation of that cell's old value |
| SpectrogramOpt.ShiftQ15InPlace | mcu/optimization_main_app/Core/Src/spectrogram.c:199 | every cell becomes its old value shifted left by 3 with saturation |
| SpectrogramOpt.FormatNoOpt | mcu/optimization_main_app/Core/Src/spectrogram.c:184-215 | Spectrogram_Format (CHAIN_NO_OPT) leaves the saturating shift followed by the q15 subtraction of 2^14 in every cell |
| SpectrogramOpt.MelVector | mcu/optimization_main_app/Core/Src/spectrogram.c:74-81 | the mel vector has one entry per triangle, entry i being the clipped dot product of triangle i with the spectrum under it |
| SpectrogramOpt.MelVectorPrefix | mcu/optimization_main_app/Core/Src/spectrogram.c:64-81 | when every triangle fits in the first fftLen samples, the samples beyond fftLen do not affect the mel vector |
| SpectrogramOpt.MelVectorTake | mcu/optimization_main_app/Core/Src/spectrogram.c:74-81 | computing fewer mel coefficients gives a prefix of the longer vector |
| SpectrogramOpt.MelFilterApply | mcu/optimization_main_app/Core/Src/spectrogram.c:64-82 | mel_filter_apply writes nothing when any of the first mel_len triangles reaches past fft_len; otherwise entries 0 .. mel_len - 1 become the mel vector and the rest of the array is unchanged |
| SpectrogramOpt.Normalize | mcu/optimization_main_app/Core/Src/spectrogram.c:146-162 | the first half of the buffer is scaled by invVmax with saturation; the second half is unchanged |
| SpectrogramOpt.InvVmaxSaturates | mcu/optimization_main_app/Core/Src/spectrogram.c:154-155 | for every positive vmax the q15 reciprocal is at least 2^15 and saturates to 0x7FFF |
| SpectrogramOpt.NormalizeNeverScalesUp | mcu/optimization_main_app/Core/Src/spectrogram.c:154-161 | as written, normalisation never enlarges a non-negative sample |
| SpectrogramOpt.NormalizeHalfScaleExample | mcu/optimization_main_app/Core/Src/spectrogram.c:154-161 | a sample at half of vmax = 16384 becomes 8191 as written, against 16384 when divided by vmax |
| SpectrogramOpt.IntendedNormalizedScales | mcu/optimization_main_app/Core/Src/spectrogram.c:150-153 | dividing by vmax in q15 never shrinks a sample in [0, vmax] and maps vmax itself to full scale |
| SpectrogramReopt.FormatLevel1 | mcu/reoptimization_main_app/Core/Src/spectrogram.c:113-134 | Spectrogram_Format (level 1) leaves in every cell the two-store computation (q15 store of the shifted, DC-removed value, then unsaturated q15 store of the windowed product) of that cell's old value |
| SpectrogramReopt.FormatLevel2 | mcu/reoptimization_main_app/Core/Src/spectrogram.c:135-175 | Spectrogram_Format (level 2), four samples per iteration then the remainder, leaves the same buffer as the one-pass CHAIN_OPT format |
| SpectrogramReopt.Level1MatchesLevel2 | mcu/reoptimization_main_app/Core/Src/spectrogram.c:125-171 | on 12-bit readings levels 1 and 2 produce the same buffer: no intermediate value needs truncation or saturation |
| SpectrogramReopt.RoundUp4 | mcu/reoptimization_main_app/Core/Src/spectrogram.c:40-65 | the end of the unrolled loop's writes is a multiple of 4 in [mel_len, mel_len + 4), equal to mel_len exactly when 4 divides mel_len |
| SpectrogramReopt.MelFilterApplyUnrolled | mcu/reoptimization_main_app/Core/Src/spectrogram.c:38-75 | variant 1 writes the mel vector over entries 0 .. mel_len rounded up to a multiple of 4 and leaves the rest unchanged |
| SpectrogramReopt.ApplyFour | mcu/reoptimization_main_app/Core/Src/spectrogram.c:40-65 | one unrolled iteration sets entries i .. i + 3 to the mel entries of triangles i .. i + 3 and nothing else |
| SpectrogramReopt.MelVariantsAgree | mcu/reoptimization_main_app/Core/Src/spectrogram.c:18-75 | for mel_len a multiple of 4 with every triangle inside fft_len, the unrolled variant gives the checked variant's vector |
| SpectrogramReopt.MelUnrolledOverruns | mcu/reoptimization_main_app/Core/Src/spectrogram.c:40-65 | for mel_len not a multiple of 4 the unrolled loop writes 1 to 3 entries past mel_len |
| SpectrogramReopt.WrapAbs | mcu/reoptimization_main_app/Core/Src/spectrogram.c:275-276 | the conditional absolute value stored in q15 is the magnitude, except that -32768 stays -32768 |
| SpectrogramReopt.BranchlessWrapAbs | mcu/reoptimization_main_app/Core/Src/spectrogram.c:316-333 | the branchless absolute value stored in q15 equals the conditional one for every q15 input |
| SpectrogramReopt.BranchlessMagSampleSame | mcu/reoptimization_main_app/Core/Src/spectrogram.c:266-390 | magnitude mode 2 (branchless) computes the same value as mode 1 for every MAG_APPROX setting and every input |
| SpectrogramReopt.MagSampleMeaning | mcu/reoptimization_main_app/Core/Src/spectrogram.c:273-290 | ABS_MAX is max(abs re, abs im); ABS_SUM is abs re + abs im when it fits; PURE_MAX is abs max(re, im); PURE_SUM is abs(re + im) when it fits |
| SpectrogramReopt.AbsMagnitudeNonNegative | mcu/reoptimization_main_app/Core/Src/spectrogram.c:273-286 | the ABS settings give a non-negative magnitude when no part is -32768 and, for the sum, it fits in q15 |
| SpectrogramReopt.Magnitudes | mcu/reoptimization_main_app/Core/Src/spectrogram.c:266-292 | the magnitude vector has one entry per complex sample, each the mode-1 magnitude of that sample's real and imaginary parts |
| SpectrogramReopt.MagnitudeOf | mcu/reoptimization_main_app/Core/Src/spectrogram.c:270-291 | the mode-1 loop body yields the magnitude of one complex sample |
| SpectrogramReopt.MagnitudeApprox | mcu/reoptimization_main_app/Core/Src/spectrogram.c:261-293 | magnitude mode 1 writes the magnitude vector into the first half and leaves the rest unchanged |
| SpectrogramReopt.MagnitudeFour | mcu/reoptimization_main_app/Core/Src/spectrogram.c:302-362 | one unrolled iteration writes the magnitudes of complex samples i .. i + 3 and nothing else |
| SpectrogramReopt.MagnitudeLane | mcu/reoptimization_main_app/Core/Src/spectrogram.c:305-388 | one lane of the unrolled loop writes the magnitude of complex sample k and nothing else |
| SpectrogramReopt.MagnitudeApproxUnrolled | mcu/reoptimization_main_app/Core/Src/spectrogram.c:295-391 | magnitude mode 2 writes the same magnitude vector as mode 1 and leaves the rest unchanged |
| BatteryLevel.LevelThreshold | mcu/reoptimization_main_app/Core/Src/main.c:122-124 | the scaled, truncated threshold plus 48 lies in [48, 60) for a fraction in [0, 1) |
| BatteryLevel.ThresholdValues | mcu/reoptimization_main_app/Core/Src/main.c:122-124 | the two thresholds are 54 and 57 |
| BatteryLevel.CapaLvl | mcu/reoptimization_main_app/Core/Src/main.c:103-129 | analogRead_CapaLvl returns a level in 0 .. 2 |
| BatteryLevel.CapaLvlBands | mcu/reoptimization_main_app/Core/Src/main.c:111-128 | level 0 exactly below 54, level 1 exactly in [54, 57), level 2 exactly from 57, for the low byte of the reading |
| BatteryLevel.CapaLvlTruncates | mcu/reoptimization_main_app/Core/Src/main.c:111 | only the low byte of the reading matters |
| BatteryLevel.CapaLvlMonotone | mcu/reoptimization_main_app/Core/Src/main.c:122-128 | within one byte the level never decreases as the reading grows |
| BatteryLevel.CapaLvlWraps | mcu/reoptimization_main_app/Core/Src/main.c:111 | a reading of 256 wraps to 0 and reads as level 0 while 255 reads as level 2 |
| Utils.HexPair | mcu/reoptimization_main_app/Core/Src/utils.c:50-51 | one byte gives exactly two characters |
| Utils.Nibbles | mcu/reoptimization_main_app/Core/Src/utils.c:50-51 | b >> 4 and b & 0xF are the high and low nibbles of the byte |
| Utils.HexString | mcu/reoptimization_main_app/Core/Src/utils.c:47-53 | the encoding has two characters per byte |
| Utils.HexStringIndex | mcu/reoptimization_main_app/Core/Src/utils.c:49-52 | characters 2i and 2i + 1 are the table digits of the high and low nibbles of byte i |
| Utils.HexStringDigits | mcu/reoptimization_main_app/Core/Src/utils.c:47-53 | every character is a lower-case hexadecimal digit, and no bytes give no text |
| Utils.DigitValue | mcu/reoptimization_main_app/Core/Src/utils.c:50-51 | a digit's value is below 16 |
| Utils.DigitValueCorrect | mcu/reoptimization_main_app/Core/Src/utils.c:50-51 | exactly the table's characters have a value, and the value is the character's position in the table |
| Utils.DigitValueOf | mcu/reoptimization_main_app/Core/Src/utils.c:50-51 | the table character at position n has value n |
| Utils.ByteOfNibbles | mcu/reoptimization_main_app/Core/Src/utils.c:50-51 | a byte is rebuilt from its high and low nibbles |
| Utils.HexDecodePair | mcu/reoptimization_main_app/Core/Src/utils.c:49-52 | decoding text followed by one byte's two digits yields the text's bytes followed by that byte |
| Utils.HexRoundTrip | mcu/reoptimization_main_app/Core/Src/utils.c:47-53 | decoding the encoding of any bytes gives those bytes back |
| Utils.HexEncode | mcu/reoptimization_main_app/Core/Src/utils.c:45-53 | hex_encode writes the terminator at s[2 len], the hexadecimal text of the first len bytes before it, and nothing after it |
| Utils.CycleCounter.constructor | mcu/reoptimization_main_app/Core/Src/utils.c:12 | the counter starts idle and not halted |
| Utils.CycleCounter.StartCycleCount | mcu/reoptimization_main_app/Core/Src/utils.c:14-28 | a start marks a count in progress and halts exactly when one already was or the counter had halted |
| Utils.CycleCounter.StopCycleCount | mcu/reoptimization_main_app/Core/Src/utils.c:29-35 | a stop ends the count and leaves the halted state unchanged |
| Utils.GuardStep | mcu/reoptimization_main_app/Core/Src/utils.c:14-35 | one start or stop has the same effect on the guard as the class's methods, whose ensures state their new State() as GuardStep of the old one, so the trace lemmas below apply to the counter |
| Utils.AlternatingNeverHalts | mcu/reoptimization_main_app/Core/Src/utils.c:14-31 | start, stop, start, ... from an idle guard never halts, and a count is in progress exactly after an odd number of events |
| Utils.NestedStartHalts | mcu/reoptimization_main_app/Core/Src/utils.c:17-19 | two starts without a stop between them end in the error handler whatever follows |
| Utils.HaltedStays | mcu/reoptimization_main_app/Core/Src/utils.c:17-19 | once halted, the guard stays halted |
| Bits.Wrap16 | mcu/optimization_main_app/Core/Src/adc_dblbuf.c:204-209 | the conversion to int16 (here of the corrected threshold stored in a q15_t) keeps the value modulo 2^16 and leaves values in range unchanged |
| Bits.Sat16 | mcu/optimization_main_app/Core/Src/spectrogram.c:105 | __SSAT(x, 16) keeps values in range and clamps values above and below to 32767 and -32768 |
| Bits.BranchlessAbsIsAbs | mcu/reoptimization_main_app/Core/Src/adc_dblbuf.c:155-158 | the branchless absolute value (v ^ (v >> 15)) - (v >> 15) is the exact magnitude of every int16, 32768 included |

## Left out

- Floating-point signal processing is not modelled. This covers:
  - the CFO estimators;
  - the Savitzky-Golay and phase-unwrap front ends of the STO estimators;
  - CFO derotation and the `t0` phase continuity;
  - SNR and power in dB;
  - `np.var` and the DC mean of the noise estimator.

  Their results enter the model as parameters; the CFO-corrected samples themselves are not modelled.
- The FFT, the q15 library kernels and the DSP intrinsics of the spectrogram files are not modelled:
  - `arm_rfft_q15`, `arm_cmplx_mag_q15`, `arm_absmax_q15`, the mel matrix product, `__SMUAD` and `__QADD`.
  - As a result, the magnitude-and-maximum loop of the optimised `Spectrogram_Compute` and magnitude mode 0 of the re-optimised build are left out.
  - The mel dot product with its clip to q15 is a function parameter.
  - The threshold deciders of the optimised acquisition build are the exception: `arm_abs_q15` and `arm_absmax_q15` are modelled there (`AdcDblbuf.AbsQ15`, `AdcDblbuf.MaxAbs`). The CMSIS-DSP library source is not part of the repository, so its documented semantics are assumed: the magnitude saturates, and -32768 gives 32767.
- Hardware AES (`tag_cbc_mac_hardware`) and the AES-128 cipher itself are not modelled. The software CBC-MAC is modelled over any block function `aes`.
- Interrupt concurrency is not modelled. DMA callbacks and the main loop are sequential events, and the `ADCDataRdy` flags of the optimised build are left out.
- Serial output, `printf`, `DEBUG_PRINT`, the radio send, logging and the DWT cycle register are not modelled. The cycle-counter guard models the `NO_PERF == 0` build.
- The GNU Radio message and stream plumbing is reduced to published-message lists and item counts.
- GUI code and the canvas painting of the compression prototypes are left out.
- Only the configured sizes and thresholds of the two acquisition builds are modelled. They are constants:
  - `N_MELVECS`, `MELVEC_LENGTH` and `THRESHOLD_VALUE` in `AdcDblbuf`;
  - `MEL_NUM_VEC`, `MEL_VEC_LENGTH`, `SAMPLES_NUM`, `SENDER_ID` and the three threshold levels in `AdcDblbufReopt`.

  The packet and spectrogram functions take the payload length and the mel dimensions as arguments, as the C functions do. The other compile-time choices are constructor parameters: the sender id of the optimised build, the encoder variant, and the threshold switch and mode.
- An out-of-range `cur_melvec` store, which C leaves undefined, is an error result in the model with no continuation.
- Signed overflow, which C also leaves undefined, is taken as two's-complement wrap-around (`Bits.Wrap16`, `Bits.Wrap32`), as the Cortex-M core behaves.
- Python's `round` and `math.ceil` are modelled on exact reals; the binary floating-point operands are not.
- BatteryLevel.LevelThreshold: the product `CAPA_LVL * 12.0f` is exact here, not single precision. This gives the same thresholds, 54 and 57, for the configured fractions.
- CompressorV2.CompressRle: the literal branches are unreachable with `MIN_RUN_LENGTH = 1` and are proved dead rather than modelled.
- AdcDblbufReopt.SumAbsInclusive: requires at least 4 coefficients per mel vector, because below 4 the unsigned bound `MEL_VEC_LENGTH - 4` wraps. The configured length is 18.
- AdcDblbufReopt.SumAbsStrict: requires at least 4 coefficients per mel vector, for the same reason.
- Synchronization.Synchronizer.constructor: requires `drate > 0` and `fsamp >= drate`, so the model starts from an oversampling factor `osr = int(fsamp / drate)` of at least 1. The source also accepts a slower sampling rate. There osr is 0, and the block fails only later, in its first search step: the header window is empty and the timing search slices with step `R = 0`. A zero rate makes the source raise at once.
- AdcDblbuf.Acquisition.CompleteSpectrogram: only the configured `ACQ_OVERLAP` restart (counters reset, ADC left running) is modelled. The `ACQ_STOP_START` branch of the same `#if`, which calls `StopADCAcq`, is not.
- PacketParser.Parser.GeneralWork: aligns the frame with the corrected alignment (`PacketParser.Alignment`, header bits mapped to +1 and -1), not with the uint8 arithmetic the source evaluates (`PacketParser.AlignmentAsWritten`). The difference is the first row of the Findings table. `PacketParser.ParseFrame` is built the same way.
- PacketParser.CrcPoly: models `crc_poly` for n = 8 only, the width the parser uses, on a 64-bit register. Python's register is unbounded: from an initial value of 2^8 or more, the bits above bit 7 are never reduced and Python keeps shifting them up, while the 64-bit register drops them past bit 63. Initial values below 2^8, such as the parser's 0xFF, agree, as do final XOR values below 2^64.
- PacketParser.CrcPolySpec: the same restriction to n = 8 and a 64-bit register.
- SpectrogramReopt.MelFilterApplyUnrolled: requires the mel length rounded up to a multiple of 4 to fit within the triangle table and the mel output array. The overrun past the last coefficient, which `SpectrogramReopt.MelUnrolledOverruns` describes, is not modelled as a write past the arrays.
- AdcDblbufReopt.AnyAboveUnrolled: requires at least 4 coefficients per mel vector, because the unrolled loop bound `MEL_VEC_LENGTH - 4` is unsigned and wraps below 4. The configured length is 18.
- AdcDblbufReopt.ThresholdMelWorkingBuf: requires at least 4 coefficients per mel vector, for the same reason.
- SpectrogramOpt.Normalize: requires `vmax != 0`. The source divides by `vmax` without a check, and the truncation of the q31 magnitude maximum into the q15 `vmax` is not modelled.

## Findings

| source | as written | input that shows it | evidently intended | confidence | as-written member | corrected member |
|---|---|---|---|---|---|---|
| telecom/gnuradio/gr-fsk/python/packet_parser.py:139-141 | `b_hdr * 2 - 1` is evaluated on a uint8 array, so header bit 0 becomes 255 instead of -1 and the correlation no longer peaks at the sync word | one header byte 0x80 with sync word [1, 0]: the offset is 9 as written, against 2 | map every header bit to +1 or -1, as is done for the address, so the offset ends right after the sync word | high, not executed | PacketParser.AlignmentAsWrittenMisses | PacketParser.SyncWordFound |
| mcu/optimization_main_app/Core/Src/spectrogram.c:154-161 | the q15 "reciprocal" `(0x7FFF << 15) / vmax` is at least 2^15 for every positive q15 vmax and always saturates to 0x7FFF, so normalisation never scales a sample up | vmax = 16384, sample 8192: the result is 8191, against 16384 | scale each sample by 1 / vmax (`(x << 15) / vmax`, saturated), so that vmax maps to full scale | medium, not executed | SpectrogramOpt.NormalizeHalfScaleExample | SpectrogramOpt.IntendedNormalizedScales |
