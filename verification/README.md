# HM-LD1 SDK: from bytes to frames

The SDK turns what an HM-LD1 depth camera sends over a serial port, UDP or UVC into numbered,
time-stamped frames. This project models that pipeline in Dafny and proves what it promises over
whole runs:

- **Serial framing** (`frame_format.dfy`, `frame_parser.dfy`, `frame_parser_runs.dfy`,
  `greedy_tokenization.dfy`, `discarded_bytes.dfy`, `frame_round_trip.dfy`, `serial_delivery.dfy`,
  `failure_counts.dfy`, `serial_events.dfy`). `FrameParsing.FrameParser` is the resynchronising parser with its
  buffer and counters. A run is any interleaving of appends and pops. `FrameFormat.Run` tokenizes a complete stream
  at once, with no buffer, and is what every run is measured against.
- **Checksums** (`crc8.dfy`, `gf2.dfy`, `crc8_algebra.dfy`, `crc8_check_values.dfy`). The bit-by-bit
  register, long division of polynomials over GF(2), which says what the register computes, and the check values by
  which the four profiles are known.
- **Timestamps** (`timestamp_normalizer.dfy`, `timeline_runs.dfy`, `timeline_exact.dfy`,
  `serial_timeline_runs.dfy`, `monotone_clamp.dfy`). The three normalizer classes. Their specification splits a
  call into a judgement of the sample (first, advance, late, restart) and its effect.
- **Geometry** (`mirror.dfy`, `frame_event.dfy`, `mirror_square.dfy`, `undistortion.dfy`). The in-place mirror
  loops, the undistortion iteration against the forward model of the lens, and the two conversions between depth and
  point cloud, over the reals.
- **Packet sources** (`packet_source_serial.dfy`, `packet_source_udp.dfy`, `packet_source_uvc.dfy`,
  `udp_clock.dfy`, `uvc_fusion.dfy`, `uvc_mispairing.dfy`, `uvc_clock.dfy`, `event_order.dfy`) and the **camera**
  (`camera.dfy`, `camera_runs.dfy`, `camera_frames.dfy`, `wire_to_frame.dfy`, with the values
  that flow between them in `frame_model.dfy`).

What the source updates in place is a class, and its methods are proved against pure step functions;
the theorems are about all runs of those functions. Clocks, bytes read, parsed payloads and decoders are
parameters. `dafny verify dfyconfig.toml` checks everything.

Five expectations one may have of the code are false of it. Each is settled by an exact condition, with an
input that fails it:

- `discardedBytes` can depend on how the stream was split into reads (its sum with the buffer size cannot).
  `DiscardedBytes.DiscardedVariesExactly` says for which streams: those with a prefix after which everything
  is decided that ever will be, that leaves at least 6 bytes undecided, and at whose end the parser gives up
  fewer bytes than the whole stream does, with at most 5 bytes of the stream still to come.
- In `auto` mode a stream is received intact if and only if every checksum sent is also the checksum under
  the profile the first frame locks, which is not always the sender's.
- A burst of up to 8 flipped bits in a frame is always caught, except exactly when the receiver is in `auto`
  mode, has not locked a profile yet, and some other profile fits the corrupted frame.
- PPS time is unwrapped exactly at every phase if and only if the gaps are at most 100 ms; at a given phase,
  exactly the gaps of `SerialTimelineRuns.PhaseFits` are.
- A fused UVC frame joins the cloud of a capture with the depth of a later one exactly when the earlier depth,
  the later cloud and everything between them are lost (`UvcMispairing.JoinsAcrossLosses`).

The mirrored calibration has a property of its structure beside these: mirroring commutes with building a
cloud if and only if the validity flag is the one the focal lengths give. Every calibration the SDK makes has
it so, hence no received input is affected.

## Model

| member | source | states |
|---|---|---|
| ByteUtils.Le16RoundTrip | src/protocol/byte_utils.hpp:9-11 | The 16-bit length field read little-endian is the number that was written, for all 65536 values. |
| Crc8.ShiftByte | src/protocol/frame_parser.cpp:45-51 | The bit loop shifts the register eight times. |
| Crc8.ComputeCrc8 | src/protocol/frame_parser.cpp:37-57 | The nested loops compute `Crc` for every profile and input; `CrcIsRemainder` says what that number is. |
| Crc8Algebra.ReflectReverses | src/protocol/frame_parser.cpp:30-35 | The mask-and-shift reflection reverses the bits of every byte. |
| Crc8Algebra.ReflectInvolution | src/protocol/frame_parser.cpp:30-35 | Reflecting twice restores the byte. |
| Gf2.RemainderIsResidue | src/protocol/frame_parser.cpp:44-52 | Shifting coefficients one at a time through the feedback register is long division: the remainder exists, is unique, and is the register. |
| Crc8Algebra.RegisterIsResidue | src/protocol/frame_parser.cpp:38-52 | After any message the register holds the residue of (message * x^8 + initial value under the leading coefficients). |
| Crc8Algebra.CrcIsRemainder | src/protocol/frame_parser.cpp:23-57 | A byte is the checksum if and only if, with output reflection and xorOut undone, it is the GF(2) remainder of the dividend modulo x^8 + poly, for every profile. |
| Gf2.BurstChangesResidue | src/protocol/frame_parser.cpp:44-52 | When x does not divide the generator, dividends that differ only in a burst no longer than the generator's degree have different remainders. |
| Crc8Algebra.BurstChangesCrc | src/protocol/frame_parser.cpp:37-57 | Equal-length inputs differing only in a non-empty burst of at most 8 consecutive bits, in the profile's bit order, have different checksums. |
| Crc8Algebra.TableDetectsBursts | src/protocol/frame_parser.cpp:23-28 | Every profile in the table satisfies the condition of the burst theorem. |
| Crc8CheckValues.TableCheckValues | src/protocol/frame_parser.cpp:23-28 | The four profiles give the digits 123456789 their catalogued check values F4, A1, A1 and D0, which fixes polynomial, reflections, initial value and final xor. |
| FrameFormat.ProfileIndex | src/protocol/frame_parser.cpp:59-66 | The result is the first table entry with the name, and -1 means no entry has it. |
| FrameFormat.FirstMatch | src/protocol/frame_parser.cpp:180-188 | The result matches the received checksum, and no earlier profile does; -1 means none does. |
| FrameFormat.HeadStable | src/protocol/frame_parser.cpp:111-137 | Once the bytes at the head of a stream are decided, bytes that arrive later cannot change the decision. |
| FrameParsing.FindSync | src/protocol/frame_parser.cpp:89-90 | The result is the first sync pair, or the length when there is none. |
| FrameParsing.FrameParser.constructor | src/protocol/frame_parser.cpp:70 | A new parser is empty, unlocked, and all counters are zero. |
| FrameParsing.FrameParser.Append | src/protocol/frame_parser.cpp:79-81 | Appending extends the buffer and touches nothing else. |
| FrameParsing.FrameParser.FindProfileIndex | src/protocol/frame_parser.cpp:59-66 | The table search finds the first profile with the name, or -1. |
| FrameParsing.FrameParser.ValidateCrc | src/protocol/frame_parser.cpp:161-189 | The verdict, the lock and the reported name after a check, in every mode, with everything else unchanged. |
| FrameParsing.FrameParser.TryPop | src/protocol/frame_parser.cpp:83-139 | The erase-and-retry loop terminates and its frame and whole new state are those of the recursive specification `Pop`, whose runs the theorems below are about. |
| FrameParsing.FrameParser.TakeHead | src/protocol/frame_parser.cpp:111-137 | With sync at the front: exactly the verdict of the stream tokenizer decides whether nothing, one byte or one frame is removed, and which counter moves. |
| FrameParserRuns.ExecInv | src/protocol/frame_parser.cpp:79-139 | In every run, whatever bytes follow, the frames emitted so far plus what the buffer will give are the tokenization of the whole stream. |
| FrameParserRuns.DrainedParserTokenizes | src/protocol/frame_parser.cpp:79-139 | After a pop that found nothing, emitted frames, their offsets, failure counts, lock and undecided bytes are a function of the bytes appended alone. |
| FrameParserRuns.ChunkingIndependence | src/protocol/frame_parser.cpp:79-139 | Any two ways of chunking the same bytes, with pops interleaved anyhow and ending drained, agree on frames, okFrames, crcFailures, badLengths, lock, the buffer from its first possible sync, and discarded + buffered bytes. |
| FrameParserRuns.DiscardedDependsOnChunking | src/protocol/frame_parser.cpp:89-100 | The shortest failing input of the independence of discardedBytes: the same seven bytes discard 7 or 6. |
| DiscardedBytes.DrainedRunStands | src/protocol/frame_parser.cpp:83-139 | Where a drained parser can stand over a given stream: at its undecided bytes, at an exposed prefix, or at the last decision when fewer than 6 bytes follow it. |
| DiscardedBytes.DiscardedVariesExactly | src/protocol/frame_parser.cpp:83-139 | Two drained runs over a stream can have discarded different numbers of bytes if and only if the stream has an exposed prefix, a condition on the stream alone. |
| DiscardedBytes.DiscardedNearlyAgrees | src/protocol/frame_parser.cpp:83-139 | They differ by at most 5, and not at all when at least 5 bytes stay undecided or fewer than 6 follow the last decision. |
| DiscardedBytes.VerdictComesLate | src/protocol/frame_parser.cpp:118-129 | A stop only counts after every byte that decides: a stream whose last byte fails a checksum never varies, although an earlier stop meets the other clauses. |
| FrameParserRuns.ByteConservation | src/protocol/frame_parser.cpp:79-139 | At every point of every run, bytes appended = buffered + discarded + badLengths + crcFailures + the sizes of the emitted frames, and the buffer is the unconsumed suffix of the stream. |
| FrameParserRuns.StuckIsDrained | src/protocol/frame_parser.cpp:85-121 | A further pop does nothing if and only if fewer than 6 bytes or one incomplete frame is at the front. |
| FrameParserRuns.BoundedBuffer | src/protocol/frame_parser.cpp:112-121 | A pop that returns no frame leaves at most 16387 bytes, and a second pop would change nothing. |
| FrameParserRuns.ProfileIsReported | src/protocol/frame_parser.cpp:157-189 | In every run the reported profile is the one frames are checked with, once a checksum was looked at. |
| GreedyTokenization.RunIsGreedy | src/protocol/frame_parser.cpp:83-138 | The tokenization takes exactly the leftmost valid frames. |
| GreedyTokenization.EmitsGreedily | src/protocol/frame_parser.cpp:83-138 | At every point of every run, a consumed position started an emitted frame if and only if sync, a legal length and a checksum valid under the profile in force stand there and it is not strictly inside an earlier emitted frame. |
| GreedyTokenization.DecidedInTime | src/protocol/frame_parser.cpp:85-121 | Once a drained parser was fed 16 KiB + 4 bytes from a position on, that position is consumed, and started an emitted frame exactly when a valid one stands there. |
| GreedyTokenization.OneProfileForAll | src/protocol/frame_parser.cpp:175-187 | In auto mode every frame ever emitted, the first included, checks under the one locked profile. |
| GreedyTokenization.TokensConsumed | src/protocol/frame_parser.cpp:132-137 | Emitted frames do not overlap, are in stream order, and lie in the consumed part. |
| FailureCounts.RunCountsFailures | src/protocol/frame_parser.cpp:83-138 | The tokenization counts each position it passes over where an illegal length, or a checksum that is wrong under the profile in force, begins outside the frames. |
| FailureCounts.FailuresAreCounted | src/protocol/frame_parser.cpp:83-138 | At every point of every run each failure counter is the number of consumed positions, not strictly inside an emitted frame, where sync is followed by a length outside 2..16384, or by a legal length and a wrong checksum. |
| FrameRoundTrip.HeadOfEncoded | src/protocol/frame_parser.cpp:111-137 | An encoded frame is decided at its head by its checksum alone, giving back id, data and lock. |
| FrameRoundTrip.RoundTrip | src/protocol/frame_parser.cpp:83-138 | For any list of frames with up to 16382 data bytes, any sync-free noise before each, and any chunking: all frames come out in order and in place with no failures, nothing left and exactly the noise discarded, if and only if the sender's checksums agree with the receiver's profile. |
| FrameRoundTrip.AllAcceptedMeans | src/protocol/frame_parser.cpp:161-189 | Checking each frame with the lock left by its predecessors succeeds throughout exactly when all checksums agree under one profile. |
| FrameRoundTrip.AgreementIsUsual | src/protocol/frame_parser.cpp:161-189 | The condition of the round trip holds when the receiver names the sender's profile, checks nothing, or is in auto mode and no earlier profile matches the first frame. |
| FrameRoundTrip.AutoModeCanMislock | src/protocol/frame_parser.cpp:180-187 | The condition can fail in auto mode: of a maxim sender whose first frame is also valid under crc8, for every chunking only the first frame is emitted, crc8 is locked and one checksum failure is counted. |
| FrameRoundTrip.BurstIsRejected | src/protocol/frame_parser.cpp:123-130 | For every receiver that checks: a burst of at most 8 flipped bits in the checksummed bytes makes the frame a checksum failure at its head, except exactly when the receiver is in auto mode, unlocked, and another profile fits the corrupted frame, which is then accepted. |
| FrameRoundTrip.UnlockedBurstCanPass | src/protocol/frame_parser.cpp:180-187 | The exception is real: one corrupted byte of a six-byte crc8 frame is accepted by an unlocked auto receiver and locks crc8_itu. |
| FrameRoundTrip.UncheckedBurstPasses | src/protocol/frame_parser.cpp:162-165 | In mode none any bytes of the right length are accepted in a frame's place. |
| TimestampNormalizer.RelativeMillisecondNormalizer.constructor | src/internal/timestamp_normalizer.cpp:37-39 | A new normalizer has no sample and keeps only the anchor. |
| TimestampNormalizer.RelativeMillisecondNormalizer.Reset | src/internal/timestamp_normalizer.cpp:41-50 | Reset forgets everything but the anchor. |
| TimestampNormalizer.RelativeMillisecondNormalizer.Restart | src/internal/timestamp_normalizer.cpp:81-88 | Both restart sites re-anchor above every earlier output. |
| TimestampNormalizer.RelativeMillisecondNormalizer.Advance | src/internal/timestamp_normalizer.cpp:119-125 | Accepting a sample moves the logical clock and yields the later of base plus logical time and the next microsecond. |
| TimestampNormalizer.RelativeMillisecondNormalizer.Normalize | src/internal/timestamp_normalizer.cpp:56-126 | All branches of a call are one step of the shared timeline, and the result is its last output. |
| TimestampNormalizer.RelativeSecondNormalizer.constructor | src/internal/timestamp_normalizer.cpp:132-134 | A new normalizer has no sample and keeps only the anchor. |
| TimestampNormalizer.RelativeSecondNormalizer.Reset | src/internal/timestamp_normalizer.cpp:136-146 | Reset forgets everything but the anchor. |
| TimestampNormalizer.RelativeSecondNormalizer.Restart | src/internal/timestamp_normalizer.cpp:190-222 | Both restart sites re-anchor above every earlier output. |
| TimestampNormalizer.RelativeSecondNormalizer.Advance | src/internal/timestamp_normalizer.cpp:225-232 | Accepting a sample moves the logical clock and yields the later of base plus logical time and the next microsecond. |
| TimestampNormalizer.RelativeSecondNormalizer.Normalize | src/internal/timestamp_normalizer.cpp:152-233 | All branches of a call are one step of the same timeline, judged on seconds and nanoseconds. |
| TimestampNormalizer.SerialTimestampNormalizer.constructor | src/internal/timestamp_normalizer.cpp:235-236 | Inner and outer state start fresh. |
| TimestampNormalizer.SerialTimestampNormalizer.Reset | src/internal/timestamp_normalizer.cpp:238-243 | Inner and outer state are fresh again. |
| TimestampNormalizer.SerialTimestampNormalizer.Normalize | src/internal/timestamp_normalizer.cpp:245-273 | Reset detection, the inner step and the outer clamp are one step of the serial timeline. |
| TimelineRuns.OutputsIncrease | src/internal/timestamp_normalizer.cpp:56-126 | For both normalizers, all samples and all host times, even non-monotone ones, outputs strictly increase. |
| TimelineRuns.LateSamplesBarelyMatter | src/internal/timestamp_normalizer.cpp:56-126 | Two runs: k late samples inserted anywhere change no decision about the other samples and raise each of their outputs by 0 to k microseconds, across restarts. |
| TimelineRuns.LateMilliseconds | src/internal/timestamp_normalizer.cpp:91-106 | A millisecond sample is late if and only if it is 1 to 500 ms behind. |
| TimelineRuns.LateSeconds | src/internal/timestamp_normalizer.cpp:176-211 | With legal nanoseconds, a sample is late if and only if it is one second behind, or a microsecond or more behind within the second. |
| TimelineRuns.AdvanceBound | src/internal/timestamp_normalizer.cpp:25-28 | No accepted advance exceeds the larger of what the jump test lets through and, for milliseconds only, half the counter range. |
| TimelineRuns.BoundedAdvance | src/internal/timestamp_normalizer.cpp:72-125 | With non-decreasing host times, n samples move the output at most 5 s each plus four times the elapsed host time plus 2^31 ms per millisecond wrap. |
| TimelineRuns.NoOverflow | src/internal/timestamp_normalizer.cpp:119-125 | From a fresh normalizer, under stated limits on host time and run length, no 64-bit quantity wraps. |
| TimelineRuns.SecondsRecovered | src/internal/timestamp_normalizer.cpp:176-184 | The true number of elapsed seconds is recovered from 32-bit readings across the wrap. |
| TimelineRuns.TickAdvance | src/internal/timestamp_normalizer.cpp:205-232 | A forward device step is either a restart or an advance within 999 ns of the true one, exact on whole microseconds. |
| TimelineRuns.SecondDrift | src/internal/timestamp_normalizer.cpp:176-232 | Between restarts, after n accepted samples with any number of late ones among them, the logical clock is within 999*n ns of the true elapsed time, and exact when the accepted readings are whole microseconds. |
| ExactTimelines.MillisecondRestartsExactly | src/internal/timestamp_normalizer.cpp:76-116 | A millisecond sample restarts the timeline if and only if it jumps ahead by more than 5 s and more than 4 times the host time with half a second of slack, or lies more than 500 ms behind without being a 32-bit or PPS rollover. |
| ExactTimelines.MillisecondAdvancesExactly | src/internal/timestamp_normalizer.cpp:76-119 | An accepted millisecond sample advances the timeline by the difference of the readings, modulo the rollover it crosses. |
| ExactTimelines.MillisecondForwardExactly | src/internal/timestamp_normalizer.cpp:76-119 | A forward step of the true counter, wrapping or not, is taken as it is unless it is much faster than the host. |
| ExactTimelines.SecondForwardExactly | src/internal/timestamp_normalizer.cpp:176-225 | A forward step of a device clock, however its seconds wrap, restarts the timeline if and only if it is more than 5 s and much faster than the host; otherwise the timeline advances by its length. |
| ExactTimelines.SecondBackwardExactly | src/internal/timestamp_normalizer.cpp:180-203 | A step back restarts the timeline if and only if it is 2 seconds or more, short of the 32-bit wrap. |
| ExactTimelines.DecisionOutcome | src/internal/timestamp_normalizer.cpp:56-126 | The output, anchor, logical clock and predecessor after each of the four decisions. |
| ExactTimelines.ShortGapsAreSteady | src/internal/timestamp_normalizer.cpp:25-28 | A second clock whose gaps are at most 5 seconds meets the condition of exact reproduction whatever the host clock does. |
| ExactTimelines.SecondsReproduced | src/internal/timestamp_normalizer.cpp:152-233 | A device clock in whole microseconds, never much faster than the host, is reproduced exactly: every output is the first plus the true elapsed time, through any number of wraps, with the anchor kept. |
| ExactTimelines.ShortMillisecondGapsAreSteady | src/internal/timestamp_normalizer.cpp:25-28 | A millisecond counter whose gaps are at most 5000 ms meets the condition of exact reproduction whatever the host clock does. |
| ExactTimelines.MillisecondsReproduced | src/internal/timestamp_normalizer.cpp:56-126 | A 32-bit millisecond counter, never much faster than the host, is reproduced exactly through any number of wraps. |
| SerialTimelineRuns.CoupledStep | src/internal/timestamp_normalizer.cpp:245-273 | Each call keeps outer and inner predecessor equal and the outer output at or above the inner one, and strictly increases it. |
| SerialTimelineRuns.ExcessNeverGrows | src/internal/timestamp_normalizer.cpp:264-272 | Unless a reset happens, the outer clamp's excess over the inner output never grows. |
| SerialTimelineRuns.ExcessShrinksAway | src/internal/timestamp_normalizer.cpp:264-272 | Over any run without a reset the excess ends between zero and where it started. |
| SerialTimelineRuns.SerialRun | src/internal/timestamp_normalizer.cpp:245-273 | Over all runs, through resets and restarts, outputs strictly increase and the coupling holds. |
| SerialTimelineRuns.SerialLateSamplesBarelyMatter | src/internal/timestamp_normalizer.cpp:245-273 | The two-run property of late samples carries over to the serial normalizer: the resets and decisions of the other samples are unchanged, and their outputs raised by at most the number of late ones. |
| SerialTimelineRuns.GapIsAdvance | src/internal/timestamp_normalizer.cpp:76-105 | Gaps of 1..500 ms of a 32-bit counter, or 1..100 ms of PPS time, are taken as they are at every phase of either wrap. |
| SerialTimelineRuns.ExactUnwrapping | src/internal/timestamp_normalizer.cpp:76-125 | For every run whose gaps fit where they occur, every output is the first plus 1000 times the true elapsed milliseconds, through any number of wraps and whatever the host clock does, with the first anchor kept. |
| SerialTimelineRuns.LongGapIsAdvanceExactly | src/internal/timestamp_normalizer.cpp:252-262 | For counter gaps up to 4096 ms a reset happens if and only if the counter goes from at most 1000 to above 1500; the inner timeline always advances by exactly the gap. |
| SerialTimelineRuns.ResetsExactly | src/internal/timestamp_normalizer.cpp:246-262 | The readings that reset the inner timeline, both ways and in plain numbers. |
| SerialTimelineRuns.ResetOutcome | src/internal/timestamp_normalizer.cpp:252-272 | After a reset the output is the host time, or the next microsecond if that is behind, and the inner timeline counts from the host time. |
| SerialTimelineRuns.ChangeIsReproduced | src/internal/timestamp_normalizer.cpp:245-273 | A device that changes between PPS time and a counter is reproduced exactly again, from the host time of the change on. |
| SerialTimelineRuns.PpsGapExactly | src/internal/timestamp_normalizer.cpp:76-116 | For every phase and gap of PPS time, when exactly the gap is read as it is. |
| SerialTimelineRuns.PpsGapLimitIsSharp | src/internal/timestamp_normalizer.cpp:76-116 | A PPS gap is read exactly in every state if and only if it is at most 100 ms. |
| SerialTimelineRuns.FittingGapIsAdvance | src/internal/timestamp_normalizer.cpp:76-116 | Every gap that fits where it occurs is taken as it is, without reset or restart. |
| SerialTimelineRuns.UniformGapsFit | src/internal/timestamp_normalizer.cpp:76-116 | Gaps of 1..500 ms of a counter, and of 1..100 ms of PPS time, fit at every phase. |
| MonotoneClamp.ClampAbove | src/internal/uvc_timestamp.cpp:24-28 | The clamp's outputs strictly increase and lie at or above the values. |
| MonotoneClamp.ClampLeast | src/internal/uvc_timestamp.cpp:24-28 | Every strictly increasing sequence above the values lies above the clamp's outputs. |
| MonotoneClamp.ClampClosedForm | src/internal/uvc_timestamp.cpp:24-28 | The n-th output is the maximum over i <= n of v_i + (n - i), and the sequence is the least increasing one above its values. |
| FrameModel.MergeAssociative | src/internal/frame_event.cpp:145-165 | Merging device info is associative with the empty info as unit. |
| Mirror.ReverseRow | src/internal/frame_event.cpp:89-96 | The swap loop reverses one row and touches nothing else. |
| Mirror.MirrorImageRows | src/internal/frame_event.cpp:83-97 | The in-place loops give the row reversal of the frame, or leave a frame of unexpected geometry alone. |
| Mirror.MirrorRowsInvolution | src/internal/frame_event.cpp:83-97 | Mirroring twice restores the frame. |
| Mirror.SwapGroups | src/internal/frame_event.cpp:123-125 | Two pixel groups are exchanged bin by bin, nothing else changes. |
| Mirror.SwapMirroredGroups | src/internal/frame_event.cpp:119-125 | Swapping a group with its mirror group extends the mirrored part of the row by one group at each end. |
| Mirror.ReverseGroups | src/internal/frame_event.cpp:119-126 | The group loop reverses the 40 groups of one row, keeping bins in order. |
| Mirror.MirrorHistogramPixelGroups | src/internal/frame_event.cpp:99-128 | The in-place loops reverse the order of the 40 groups in every row and keep the bins inside each, or leave the histogram alone. |
| Mirror.MirrorGroupsInvolution | src/internal/frame_event.cpp:99-128 | Mirroring a histogram twice restores it. |
| FrameGeometry.UndistortPixelToRay | src/internal/frame_event.cpp:26-67 | The loop is the 8-fold iteration, failing as soon as any round degenerates. |
| FrameGeometry.BuildPointCloudFromDepth | src/internal/frame_event.cpp:259-299 | The cloud has one point per sample, or is refused untouched, or is cleared when any measured pixel has no ray. |
| FrameGeometry.BuildRow | src/internal/frame_event.cpp:276-296 | One row is built completely, or some pixel of it has no ray. |
| FrameGeometry.BuildDepthFromPointCloud | src/internal/frame_event.cpp:301-324 | The loop clamps and rounds every z, or gives the empty image for unexpected geometry. |
| FrameGeometry.NegateRow | src/internal/frame_event.cpp:232-235 | The first loop over a row negates x there and nowhere else. |
| FrameGeometry.MirrorCloudRow | src/internal/frame_event.cpp:230-241 | One row of the cloud becomes the mirrored row, and no other row changes. |
| FrameGeometry.MirrorPointCloud | src/internal/frame_event.cpp:224-242 | Negating x and swapping in place is the row reversal of the negated cloud. |
| FrameGeometry.NormalizeMeasurementOrientation | src/internal/frame_event.cpp:244-257 | Every part of a measurement is replaced by its mirror image, and nothing else changes. |
| MirrorSquare.MirrorKeepsRawInStep | src/internal/frame_event.cpp:172-204 | A mirrored calibration is still the one its raw parameters describe, and mirroring twice restores it. |
| MirrorSquare.StepFlips | src/internal/frame_event.cpp:42-57 | One undistortion round under the mirrored calibration negates x and keeps y, failing in the same cases. |
| MirrorSquare.RayFlips | src/internal/frame_event.cpp:26-67 | The mirrored pixel under the mirrored calibration has the mirrored ray. |
| MirrorSquare.MirrorCommutesWithBuild | src/internal/frame_event.cpp:191-299 | The cloud built from the mirrored depth with the mirrored calibration is the mirror of the original cloud, markers included, and fails exactly when the original fails. |
| MirrorSquare.SquareCommutesExactly | src/internal/frame_event.cpp:191-204 | For each frame size the square commutes on all frames if and only if the calibration's validity flag is that of its focal lengths. |
| MirrorSquare.DepthSurvives | src/internal/frame_event.cpp:259-324 | Depth to cloud to depth is the identity whenever the cloud is built. |
| MirrorSquare.MarkersPreserved | src/internal/frame_event.cpp:279-283 | Device markers 0, 1, 2 keep their value and lie on the axis. |
| MirrorSquare.MirrorCommutesWithRebuild | src/internal/frame_event.cpp:224-324 | Rebuilding depth from a mirrored cloud gives the mirrored depth. |
| MirrorSquare.MirrorCloudInvolution | src/internal/frame_event.cpp:224-242 | Mirroring a cloud twice restores it. |
| Undistortion.CalibrationHoldsParameters | src/internal/frame_event.cpp:172-189 | A calibration holds the twelve raw parameters in the device order, and is valid if and only if both focal lengths exceed 1e-6 in magnitude. |
| Undistortion.MirroredParameters | src/internal/frame_event.cpp:191-204 | Mirroring a calibration for 40 columns replaces cx by 39 - cx and p2 by -p2 and nothing else. |
| Undistortion.RoundMeans | src/internal/frame_event.cpp:41-58 | A round fails if and only if a radial polynomial is negligible, and gives a ray if and only if the lens, with factor and displacement taken at the previous ray, moves that ray to the distorted one. |
| Undistortion.FixedPointIsUndistorted | src/internal/frame_event.cpp:41-58 | The iteration stands still at a ray if and only if the forward model of the lens (rational radial factor and tangential terms) maps that ray to the distorted one. |
| Undistortion.RayMeans | src/internal/frame_event.cpp:26-67 | A pixel gets a ray if and only if the calibration is valid and nine rays lead to it, from the normalized pixel through eight rounds, each undone by the lens. |
| Undistortion.PinholeRay | src/internal/frame_event.cpp:36-57 | Without distortion the ray of pixel (px, py) is ((px - cx) / fx, (py - cy) / fy). |
| Undistortion.PointsMean | src/internal/frame_event.cpp:276-296 | In a built cloud a marker lies on the axis, and a measured depth z at pixel (x, y) is z times the ray of (x, y). |
| Undistortion.BuildsExactly | src/internal/frame_event.cpp:263-299 | An invalid calibration or a depth of wrong size leaves the previous cloud; otherwise a cloud is built if and only if every measured pixel has a ray, and an empty one is left if not. |
| Undistortion.PinholePoints | src/internal/frame_event.cpp:259-299 | With a pinhole calibration the cloud is always built and its points are ((x - cx) / fx * z, (y - cy) / fy * z, z). |
| Undistortion.DepthIsNearest | src/internal/frame_event.cpp:301-324 | Rebuilt depth is the whole number nearest to z, halves up, within 0..65535. |
| UvcSource.UvcPacketSource.constructor | src/transport/packet_source_uvc.cpp:153-165 | A new source has nothing ready, nothing pending and an unused timeline. |
| UvcSource.UvcPacketSource.NormalizeTimestamp | src/internal/uvc_timestamp.cpp:5-30 | A measurement is stamped from the timeline or the host clock, clamped, with raw fields zeroed when the device gave none. |
| UvcSource.UvcPacketSource.PopReadyEvent | src/transport/packet_source_uvc.cpp:140-143 | The queue loses its front and nothing else. |
| UvcSource.UvcPacketSource.HandleParsedFrame | src/transport/packet_source_uvc.cpp:93-138 | The pairing step on pending slot, queue and stamper, on every profile. |
| UvcSource.UvcPacketSource.Poll | src/transport/packet_source_uvc.cpp:39-66 | One poll for every outcome of reading and parsing: the whole new state and the event. |
| UvcFusion.MixedRefinesFusion | src/transport/packet_source_uvc.cpp:39-143 | Over any history of the mixed stream the emitted measurements, the pending cloud and the stamper are those of a greedy fold over the clouds and depths alone, info frames pass through in order, and the ready queue is empty between polls. |
| UvcFusion.FusionConserves | src/transport/packet_source_uvc.cpp:105-131 | Every cloud is emitted once or is the one pending, and every depth is emitted once with its own confidence and histogram, in order. |
| UvcFusion.LoneCloudsAreUnfollowed | src/transport/packet_source_uvc.cpp:105-131 | A cloud is emitted alone, with its own confidence and histogram, if and only if no depth directly follows it; otherwise the depth's replace them. |
| UvcFusion.FusionKeepsReports | src/transport/packet_source_uvc.cpp:118-131 | Fusing loses nothing the frames say about the device: merged info and last calibration are those of the arrivals. |
| UvcFusion.FusionAscends | src/transport/packet_source_uvc.cpp:105-137 | Emitted stamps strictly increase and a pending cloud holds the newest stamp of all. |
| UvcMispairing.EventsHaveOrigins | src/transport/packet_source_uvc.cpp:105-138 | Every event of the mixed stream carries the cloud and the device time of one arrival, with the depth, confidence and histogram of that arrival or of the one after it, and the profile, calibration and device info that follow from the two. |
| UvcMispairing.JoinedExactly | src/transport/packet_source_uvc.cpp:105-131 | Two arrivals are joined if and only if a depth directly follows a cloud. |
| UvcMispairing.JoinsAcrossLosses | src/transport/packet_source_uvc.cpp:105-131 | Of a device that sends a cloud and a depth per capture, an event joins cloud i with depth j if and only if both get through and everything sent between them is lost. |
| UvcMispairing.NoLossNoMispairing | src/transport/packet_source_uvc.cpp:105-131 | Without losses, exactly the cloud and depth of each capture are joined. |
| UvcFusion.UvcStampsIncrease | src/transport/packet_source_uvc.cpp:93-143 | On every profile, over every history, measurements come out in strictly increasing stamp order although clouds are held back. |
| UvcFusion.UntimedStampsAreClamped | src/internal/uvc_timestamp.cpp:14-29 | Without device timestamps the stamps are the clamp of the host times, hence the least increasing sequence above them. |
| UvcFusion.UntimedFramesAreClamped | src/internal/uvc_timestamp.cpp:14-29 | On a profile without device timestamps the stamps of the session's measurements are the clamp of the host times of its frames. |
| UvcClock.FusionStamps | src/transport/packet_source_uvc.cpp:105-137 | The stamps of the fused events and the waiting cloud are those of the frames in turn, a joining depth having none of its own. |
| UvcClock.FoldReproduces | src/internal/uvc_timestamp.cpp:14-29 | Frames that carry a steady 32-bit counter are stamped with the stamp before them plus the true elapsed time. |
| UvcClock.CounterIsReproduced | src/transport/packet_source_uvc.cpp:39-150 | End to end on every profile, held-back clouds included: frames that carry a steady millisecond counter, as any with gaps of at most 5000 ms, come out stamped with the host time of the first plus the true elapsed time, host times arbitrary. |
| UvcClock.DirectEventsShowFrames | src/transport/packet_source_uvc.cpp:97-103 | On a direct profile the measurements of a session are the frames that arrived, each once, in order, with only the timestamp filled in. |
| UvcClock.DirectInfos | src/transport/packet_source_uvc.cpp:97-103 | On a direct profile info frames are passed on in order. |
| UvcClock.FailuresAreReported | src/transport/packet_source_uvc.cpp:39-66 | Each poll gives one result, a failure if and only if reading the device failed. |
| UvcClock.PayloadsAreCounted | src/transport/packet_source_uvc.cpp:55-66 | Every parsed and every unparseable payload is counted, and the reported error is that of the last one. |
| UdpSource.UdpPacketSource.constructor | src/transport/packet_source_udp.cpp:180-194 | A new source has no timestamp mode and no last stamp. |
| UdpSource.UdpPacketSource.NormalizeTimestamp | src/transport/packet_source_udp.cpp:144-178 | Mode choice, the three value branches and the clamp are one step of the stamper; unstamped measurements pass. |
| UdpSource.UdpPacketSource.Poll | src/transport/packet_source_udp.cpp:82-114 | One poll for every outcome of receiving and parsing: the whole new state and the event. |
| UdpSource.ModeIsSticky | src/transport/packet_source_udp.cpp:152-161 | The first packet fixes the mode for the session. |
| UdpSource.EpochRunIsClamp | src/transport/packet_source_udp.cpp:162-175 | In epoch mode the stamps are the clamp of the packet times, an out-of-range packet being no constraint. |
| UdpSource.RelativeRunIsTimeline | src/transport/packet_source_udp.cpp:164-175 | In relative mode with legal fields the outer clamp never acts. |
| UdpSource.StampsAreOfPackets | src/transport/packet_source_udp.cpp:82-178 | The stamps of a session are those of its accepted datagrams, in order. |
| UdpSource.SessionStamps | src/transport/packet_source_udp.cpp:144-178 | In epoch mode the session's stamps are the clamp of the packet times; in relative mode with legal fields, the second normalizer's outputs. |
| UdpSource.UdpStampsIncrease | src/transport/packet_source_udp.cpp:144-178 | In either mode, over every history, stamps strictly increase. |
| UdpClock.EpochLegalExactly | src/internal/timestamp_normalizer.cpp:275-280 | Fields form an epoch time if and only if the seconds are 946684800 to 4102444800 and the nanoseconds below 10^9. |
| UdpClock.EpochOfTrueTime | src/internal/timestamp_normalizer.cpp:275-283 | The fields of every true time from 2000 to 2100 give that time in whole microseconds. |
| UdpClock.EpochModeExactly | src/transport/packet_source_udp.cpp:152-157 | Epoch mode is chosen if and only if the first packet carries an epoch time within 5 s of the host clock; otherwise relative mode is. |
| UdpClock.UnusableFields | src/transport/packet_source_udp.cpp:162-175 | Fields the mode cannot use are stamped with the next microsecond, or the host time when nothing was stamped yet, and do not reach the second normalizer. |
| UdpClock.EpochSessionIsExact | src/transport/packet_source_udp.cpp:82-178 | A session that begins within 5 s of the host clock stamps every datagram with its own time in microseconds, when they are at least a microsecond apart. |
| UdpClock.RelativeSessionIsExact | src/transport/packet_source_udp.cpp:82-178 | A session in relative mode reproduces a steady device clock exactly from the host time of the first datagram, through any number of wraps. |
| UdpClock.EventsShowDatagrams | src/transport/packet_source_udp.cpp:82-114 | The measurements of a session are its accepted datagrams, each once, in order, with only value and unit of a valid timestamp filled in. |
| UdpClock.FailuresAreReported | src/transport/packet_source_udp.cpp:82-114 | Each poll gives one result, a failure if and only if receiving failed. |
| UdpClock.DatagramsAreCounted | src/transport/packet_source_udp.cpp:94-113 | Every accepted and every rejected datagram is counted, and the reported error is that of the last one. |
| SerialSource.SerialPacketSource.constructor | src/transport/packet_source_serial.cpp:20-21 | Parser and normalizer start fresh. |
| SerialSource.SerialPacketSource.Emit | src/transport/packet_source_serial.cpp:82-126 | A frame becomes an info or measurement event, a counted parse failure, or nothing, by its message id. |
| SerialSource.SerialPacketSource.Poll | src/transport/packet_source_serial.cpp:35-57 | Drain before read: the port's bytes matter only when the parser had no frame. |
| SerialSource.BufferStaysBounded | src/transport/packet_source_serial.cpp:39-57 | Between polls the parser never holds more than 20483 bytes, and after any poll at most 20477. |
| SerialDelivery.BufferBoundedThroughout | src/transport/packet_source_serial.cpp:39-57 | In no history of reads, at no point of any poll, does the parser hold more than 20483 bytes. |
| SerialSource.SerialStampsIncrease | src/transport/packet_source_serial.cpp:82-126 | For every checksum mode, all decoders and every history of reads, stamps strictly increase. |
| SerialSource.StampsAreOutputs | src/transport/packet_source_serial.cpp:118-126 | The stamps of a session are the normalizer's outputs on the counter readings of its measurements. |
| SerialSource.DeviceClockIsReproduced | src/transport/packet_source_serial.cpp:118-126 | End to end, a device clock whose gaps fit where they occur is reproduced exactly by the stamps, from the host time of the first measurement. |
| SerialDelivery.PollsAreParserRun | src/transport/packet_source_serial.cpp:35-57 | A history of polls is a run of the parser, and the frames the polls take are exactly the frames of that run. |
| SerialDelivery.HandledIsDelivered | src/transport/packet_source_serial.cpp:35-57 | Every poll that does not fail returns the event of exactly the frame it took from the parser. |
| SerialDelivery.PollsReport | src/transport/packet_source_serial.cpp:35-108 | Over any history of reads the events returned say exactly what the frames taken decode to, in order, every frame that cannot be decoded is counted as a parse failure, and the reported error is that of the last frame. |
| SerialDelivery.EverythingSentIsHandled | src/transport/packet_source_serial.cpp:35-108 | Whatever the reads split a sender's bytes into, once drained: exactly the frames sent were taken, with no failure, if and only if the checksums agree, and the events returned then say exactly what the sent frames decode to, in order. |
| SerialEventForm.EventsAreWellFormed | src/transport/packet_source_serial.cpp:35-126 | Over any history every event has the form of its kind, serial transport and microsecond stamp included, and names the profile that all frames of the session are checked with. |
| CameraModel.Camera.constructor | src/camera.cpp:208-213 | An opened camera has the bootstrapped caches and starts numbering at zero. |
| CameraModel.Camera.NormalizeEventOrientation | src/camera.cpp:68-77 | Calibration update and measurement are mirrored, the rest of the event is kept. |
| CameraModel.Camera.CompleteFrame | src/camera.cpp:266-271 | Missing depth is rebuilt from the cloud, then a missing cloud from depth and calibration. |
| CameraModel.Camera.AbsorbEvent | src/camera.cpp:235-271 | One event updates caches and numbering and yields a frame exactly for measurements. |
| CameraModel.Camera.Poll | src/camera.cpp:218-276 | The loop passes over info updates and stops at the first other result, failure or end; until then the call has not ended. |
| CameraRuns.PollIsSessionStep | src/camera.cpp:230-275 | A call of Poll is a segment of the session: it leaves the state the events it took leave, returns the only frame among them, and has not ended exactly while all of them are info updates. |
| CameraRuns.CallsReturnSession | src/camera.cpp:230-275 | The non-empty frames that successive calls of Poll return are those of the session, whichever results each call takes. |
| CameraRuns.FramesFollowMeasurements | src/camera.cpp:249-252 | One frame per measurement, numbered consecutively and carrying its timestamp. |
| CameraRuns.SerialSession | src/camera.cpp:230-275 | End to end on serial: the frames successive calls of Poll return carry 1, 2, 3, ... and strictly increasing device timestamps. |
| CameraRuns.UdpSession | src/camera.cpp:230-275 | The same on UDP, in either timestamp mode. |
| CameraRuns.UvcSession | src/camera.cpp:230-275 | The same on UVC, on every profile, clouds held back included. |
| CameraRuns.InfoIsLatest | src/camera.cpp:51-59 | The info snapshot is the merge of the whole history: each field is the last one that was present. |
| CameraRuns.CalibrationIsLatestValid | src/camera.cpp:61-66 | The cached calibration is the last valid one offered; invalid ones never replace it. |
| CameraRuns.UsuallyInForce | src/camera.cpp:61-66 | A measurement's own valid calibration is in force for it; without any, the bootstrapped or cached one is. |
| CameraRuns.DepthIsCompleted | src/camera.cpp:235-271 | A depth-only measurement, with its own calibration or the cached one, is delivered with the mirror image of the cloud its raw depth and the device's calibration give. |
| CameraRuns.CloudIsCompleted | src/camera.cpp:266-268 | A cloud-only measurement is delivered with the mirror image of the depth of its raw cloud. |
| CameraFrames.RowsAreMirrored | src/internal/frame_event.cpp:83-97 | Column x of every mirrored row is column w - 1 - x of the original row. |
| CameraFrames.GroupsAreMirrored | src/internal/frame_event.cpp:99-128 | Bin b of group g in every mirrored row is bin b of group 39 - g of the original row. |
| CameraFrames.MeasurementIsShown | src/camera.cpp:235-271 | Every measurement event gives a frame with its transport, profile and clock, and, sample by sample, its mirrored confidence, histogram, depth and cloud with dimensions, validity and bit depth kept, and the info and calibration then in the caches. |
| CameraFrames.SessionShown | src/camera.cpp:230-275 | The frames of a session show its measurements one to one, in order. |
| CameraFrames.SessionKnown | src/camera.cpp:241-264 | Each frame has the merged info and the last valid calibration of what the session offered up to it. |
| CameraFrames.ReturnedFramesShow | src/camera.cpp:218-276 | The non-empty frames successive calls of Poll return show the measurements one to one, sample by sample, each with the info and calibration known by then. |
| CameraFrames.NoEventGivesEmptyFrame | src/camera.cpp:223-239 | A call that finds no event after any number of info updates returns an unnumbered frame without samples in which nothing is valid. |
| CameraFrames.OfferedParameters | src/camera.cpp:68-77 | A calibration that reaches the application has the parameters of one the device sent, with cx counted from the other side of the 40 columns and p2 negated. |
| CameraFrames.EveryFieldIsLast | src/internal/frame_event.cpp:145-165 | Each of the ten fields of the merged info is the last one any event said; an empty blob says nothing. |
| WireToFrame.SessionViews | src/camera.cpp:230-275 | The frames of a serial session show, in order, the device times and mirrored depths of the data decoded. |
| WireToFrame.SentDepthsAreSeen | src/camera.cpp:218-276 | Wire to frame: with agreeing checksums, successive calls of Poll return one non-empty frame per decodable data frame sent, in order, each with its device time and mirrored depth. |

## Left out

- Serial port, UDP socket, V4L2 device, interface probing and configuration: their results are inputs.
- Clocks: each reading is a parameter. `ResolveAnchor`, which the serial normalizer calls twice in one call, is given one value per call; `hostMonotonicTimeNs` is not kept.
- CameraModel.Camera.Poll: takes what its packet source returns, call after call, as a finite sequence, because the source behind it is chosen at run time; a source that returns info updates for ever is seen through its finite beginnings, after each of which the call has not ended.
- The stamp-order theorems assume a positive host clock, as any clock after 1970 is, and for UDP that the payload parser marked the timestamp fields valid, which it always does.
- Payload decoders and text trimming: the serial ones are arbitrary functions that may fail, UVC and UDP payloads arrive already parsed. Of a UVC result the model takes the three frame types the parser produces, with the event type that goes with each; the measurement left half-filled by a failed decode, which the camera ignores, is empty.
- IEEE rounding, NaN and infinity: geometry is over the reals, so `isfinite` always holds and the constants 1e-12 and 1e-6 are exact.
- 64-bit wrap-around of the normalizers and counters: integers are unbounded; `TimelineRuns.NoOverflow` shows when the normalizers' quantities cannot wrap.
- Vectors handed over by pointer (depth, cloud, confidence, histogram) are values that the measurement's method copies into arrays for the in-place loops; aliasing between them is not modelled. Null checks have no counterpart.
- `restartAnchorUs_` is written but never read by the source; it is a field of the classes and not part of the timeline.
- Restart, Advance, ShiftByte, TakeHead, BuildRow, NegateRow, MirrorCloudRow, ReverseRow, SwapGroups, SwapMirroredGroups, ReverseGroups, CompleteFrame and AbsorbEvent are parts of longer source functions, named here to keep each proof small.
- Open and Close, which put back the initial states the runs start from, the bootstrap retry loop (its caches are arbitrary), capabilities, statistics accessors, description strings and `IsSupportedCrcMode`, which would only add single-branch claims. The theorems about the parser hold for every mode string, supported or not.
- The state code, temperature and text fields of device info are carried as values; beyond which event said them last nothing is proved about their content.
