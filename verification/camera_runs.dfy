/** Whole sessions: from source inputs to the frames an application sees. */
module CameraRuns {
  import opened Wrappers
  import opened TimelineRuns
  import opened FrameModel
  import opened FrameGeometry
  import opened MirrorSquare
  import opened EventOrder
  import opened CameraModel
  import Uvc = UvcSource
  import UvcFusion
  import Udp = UdpSource
  import Serial' = SerialSource

  function AbsorbPolled(s: CameraState, p: Polled): (CameraState, Option<FrameSet>) {
    if p.Failed? then (s, None) else Absorb(s, p.event)
  }

  function FinalCamera(s: CameraState, polled: seq<Polled>): CameraState
    decreases |polled|
  {
    if polled == [] then s else FinalCamera(AbsorbPolled(s, polled[0]).0, polled[1..])
  }

  /** The non-empty frames of a session, in order. */
  function FramesOf(s: CameraState, polled: seq<Polled>): seq<FrameSet>
    decreases |polled|
  {
    if polled == [] then []
    else
      var (next, frame) := AbsorbPolled(s, polled[0]);
      (if frame.Some? then [frame.value] else []) + FramesOf(next, polled[1..])
  }

  /** The frame a call of Poll gives the application, unless it is empty. */
  function Delivered(result: PollResult): seq<FrameSet> {
    if result.PollFrame? && result.frame != EmptyFrame() then [result.frame] else []
  }

  /** One call of Poll handles the results it takes from the source like the session does, and returns the one
      frame among them, if there is one; it does not end before the source has returned something else than
      info updates. */
  lemma {:induction false} PollIsSessionStep(s: CameraState, source: seq<Polled>)
    ensures var (end, result, taken) := PollCamera(s, source);
            && taken <= |source| && (source != [] ==> taken > 0)
            && end == FinalCamera(s, source[..taken]) && FramesOf(s, source[..taken]) == Delivered(result)
            && (result == StillPolling <==> forall p :: p in source ==> Passed(p))
            && (result == StillPolling ==> taken == |source|)
    decreases |source|
  {
    hide Absorb, EmptyFrame, Passed;
    if source != [] {
      if Passed(source[0]) {
        var next := AbsorbPolled(s, source[0]).0;
        PollIsSessionStep(next, source[1..]);
        PassedOver(s, source, PollCamera(next, source[1..]).2);
        assert forall p :: p in source <==> p == source[0] || p in source[1..];
      } else {
        LastTaken(s, source[0]);
        assert source[..1] == [source[0]] && source[0] in source;
      }
    }
  }

  lemma PassedOver(s: CameraState, source: seq<Polled>, taken: nat)
    requires source != [] && Passed(source[0]) && taken < |source|
    ensures source[0].Event?
    ensures var next := AbsorbPolled(s, source[0]).0;
            && FinalCamera(s, source[..taken + 1]) == FinalCamera(next, source[1..][..taken])
            && FramesOf(s, source[..taken + 1]) == FramesOf(next, source[1..][..taken])
  {
    FrameOnlyForMeasurement(s, source[0]);
    hide AbsorbPolled;
    var next := AbsorbPolled(s, source[0]).0;
    assert source[..taken + 1][1..] == source[1..][..taken];
    assert [] + FramesOf(next, source[1..][..taken]) == FramesOf(next, source[1..][..taken]);
  }

  lemma LastTaken(s: CameraState, p: Polled)
    ensures var (next, frame) := AbsorbPolled(s, p);
            && FinalCamera(s, [p]) == next
            && FramesOf(s, [p]) == (if frame.Some? then [frame.value] else [])
            && (frame.Some? ==> frame.value != EmptyFrame())
  {
    FrameOnlyForMeasurement(s, p);
    hide AbsorbPolled, EmptyFrame;
    assert [p][1..] == [];
  }

  // ---- Call after call

  /** The non-empty frames that successive calls of Poll return while the source gives these results. */
  ghost function Returned(s: CameraState, source: seq<Polled>): seq<FrameSet>
    decreases |source|
  {
    if source == [] then []
    else
      PollIsSessionStep(s, source);
      var (next, result, taken) := PollCamera(s, source);
      Delivered(result) + Returned(next, source[taken..])
  }

  lemma {:induction false} SessionSplits(s: CameraState, a: seq<Polled>, b: seq<Polled>)
    ensures FinalCamera(s, a + b) == FinalCamera(FinalCamera(s, a), b)
    ensures FramesOf(s, a + b) == FramesOf(s, a) + FramesOf(FinalCamera(s, a), b)
    decreases |a|
  {
    if a == [] {
      assert a + b == b;
      assert [] + FramesOf(s, b) == FramesOf(s, b);
    } else {
      hide AbsorbPolled;
      assert (a + b)[1..] == a[1..] + b;
      SessionSplits(AbsorbPolled(s, a[0]).0, a[1..], b);
    }
  }

  /** The frames successive calls return are those of the session, whichever results each call takes. */
  lemma {:induction false} CallsReturnSession(s: CameraState, source: seq<Polled>)
    ensures Returned(s, source) == FramesOf(s, source)
    decreases |source|
  {
    if source != [] {
      PollIsSessionStep(s, source);
      hide PollCamera, FramesOf, Delivered;
      var (next, result, taken) := PollCamera(s, source);
      CallsReturnSession(next, source[taken..]);
      SessionSplits(s, source[..taken], source[taken..]);
      assert source[..taken] + source[taken..] == source;
    }
  }

  lemma FrameOnlyForMeasurement(s: CameraState, p: Polled)
    ensures var (next, frame) := AbsorbPolled(s, p);
            && (frame.Some? <==> p.Event? && p.event.kind == MeasurementEvent)
            && next.nextSequence == s.nextSequence + (if frame.Some? then 1 else 0)
            && (frame.Some? ==>
                  && frame.value.sequence == next.nextSequence && frame.value != EmptyFrame()
                  && frame.value.clock == p.event.measurement.clock)
  {
    hide MirrorCalibration, DepthFromCloud, CloudFromDepth, MirrorDepth, MirrorCloud, MirrorConfidence, MirrorHistogram;
  }

  // ---- Sequence numbers and timestamps

  predicate Numbered(first: nat, frames: seq<FrameSet>) {
    forall i :: 0 <= i < |frames| ==> frames[i].sequence == first + i
  }

  function ClockValues(frames: seq<FrameSet>): (vs: seq<nat>)
    ensures |vs| == |frames|
  {
    seq(|frames|, i requires 0 <= i < |frames| => frames[i].clock.value)
  }

  /** There is one frame for each measurement, numbered consecutively and carrying its timestamp. */
  lemma {:induction false} FramesFollowMeasurements(s: CameraState, polled: seq<Polled>)
    ensures var frames := FramesOf(s, polled);
            Numbered(s.nextSequence + 1, frames) && ClockValues(frames) == StampsOf(polled)
    decreases |polled|
  {
    if polled != [] {
      hide AbsorbPolled, StampsOf, Numbered, ClockValues, EmptyFrame;
      var (next, frame) := AbsorbPolled(s, polled[0]);
      var frames := FramesOf(next, polled[1..]);
      FrameOnlyForMeasurement(s, polled[0]);
      FramesFollowMeasurements(next, polled[1..]);
      MeasurementInFront(polled[0], polled[1..]);
      assert [polled[0]] + polled[1..] == polled;
      if frame.Some? {
        assert FramesOf(s, polled) == [frame.value] + frames;
        hide FramesOf;
        FrameInFront(frame.value, frames);
      } else {
        assert FramesOf(s, polled) == [] + frames == frames;
        hide FramesOf;
        assert [] + StampsOf(polled[1..]) == StampsOf(polled[1..]);
      }
    } else {
      assert StampsOf(polled) == [] && FramesOf(s, polled) == [];
    }
  }

  lemma FrameInFront(f: FrameSet, frames: seq<FrameSet>)
    ensures ClockValues([f] + frames) == [f.clock.value] + ClockValues(frames)
    ensures Numbered(f.sequence + 1, frames) ==> Numbered(f.sequence, [f] + frames)
  {
  }

  /** Frames that carry 1, 2, 3, ... and strictly increasing device timestamps. */
  predicate WellOrdered(frames: seq<FrameSet>) {
    Numbered(1, frames) && StrictlyIncreasing(ClockValues(frames))
  }

  /** The camera as Open leaves it, with whatever the bootstrap put into the caches. */
  predicate JustOpened(s: CameraState) {
    s.nextSequence == 0
  }

  lemma OrderedSession(s: CameraState, polled: seq<Polled>, low: nat)
    requires JustOpened(s) && Ascends(low, StampsOf(polled))
    ensures WellOrdered(Returned(s, polled))
  {
    CallsReturnSession(s, polled);
    FramesFollowMeasurements(s, polled);
    AscendsIncreases(low, StampsOf(polled));
  }

  /** The frames successive calls of Poll return, on serial: for every checksum mode, all decoders and every history
      of reads. */
  lemma {:induction false} SerialSession(s: CameraState, mode: string, decode: Serial'.Decoders,
                                         inputs: seq<Serial'.SerialInput>)
    requires JustOpened(s) && Serial'.Readable(inputs)
    ensures WellOrdered(Returned(s, Serial'.SerialEvents(mode, decode, Serial'.FRESH_SERIAL, inputs)))
  {
    hide Returned, Serial'.SerialEvents, Serial'.Readable;
    Serial'.SerialStampsIncrease(mode, decode, Serial'.FRESH_SERIAL, inputs);
    OrderedSession(s, Serial'.SerialEvents(mode, decode, Serial'.FRESH_SERIAL, inputs), 0);
  }

  /** UDP: in either timestamp mode and for every history of datagrams. */
  lemma {:induction false} UdpSession(s: CameraState, inputs: seq<Udp.UdpInput>)
    requires JustOpened(s) && Udp.Timed(inputs)
    ensures WellOrdered(Returned(s, Udp.UdpEvents(Udp.FRESH_UDP, inputs)))
  {
    hide Returned, Udp.UdpEvents, Udp.Timed;
    Udp.UdpStampsIncrease(Udp.FRESH_UDP, inputs);
    OrderedSession(s, Udp.UdpEvents(Udp.FRESH_UDP, inputs), 0);
  }

  /** UVC: on every profile, although clouds of the mixed stream are held back. */
  lemma {:induction false} UvcSession(s: CameraState, profile: UvcStreamProfile, inputs: seq<UvcFusion.UvcInput>)
    requires JustOpened(s) && UvcFusion.WellParsed(inputs) && UvcFusion.HostsPositive(inputs)
    ensures WellOrdered(Returned(s, UvcFusion.UvcEvents(profile, Uvc.FRESH_UVC, inputs)))
  {
    hide Returned, UvcFusion.UvcEvents;
    UvcFusion.UvcStampsIncrease(profile, inputs);
    OrderedSession(s, UvcFusion.UvcEvents(profile, Uvc.FRESH_UVC, inputs), 0);
  }

  // ---- Caches

  function InfoOr(info: Option<DeviceInfo>): DeviceInfo {
    if info.Some? then info.value else NO_INFO
  }

  /** Everything a session's events said about the device, later fields over earlier ones. */
  function AllInfo(polled: seq<Polled>): DeviceInfo {
    if polled == [] then NO_INFO
    else
      MergeDeviceInfo(AllInfo(polled[1..]),
                      if polled[0].Event? && polled[0].event.kind != NoEvent then polled[0].event.info else NO_INFO)
  }

  lemma InfoStep(s: CameraState, p: Polled)
    ensures InfoOr(AbsorbPolled(s, p).0.latestInfo) ==
            MergeDeviceInfo(if p.Event? && p.event.kind != NoEvent then p.event.info else NO_INFO, InfoOr(s.latestInfo))
  {
    hide Assemble, MirrorMeasurement, MergeDeviceInfo;
    MergeAssociative(NO_INFO, NO_INFO, InfoOr(s.latestInfo));
  }

  /** The info snapshot is the merge of the whole history: each field is the last one that was present. */
  lemma {:induction false} InfoIsLatest(s: CameraState, polled: seq<Polled>)
    ensures InfoOr(FinalCamera(s, polled).latestInfo) == MergeDeviceInfo(AllInfo(polled), InfoOr(s.latestInfo))
    decreases |polled|
  {
    if polled == [] {
      MergeAssociative(NO_INFO, NO_INFO, InfoOr(s.latestInfo));
    } else {
      var next := AbsorbPolled(s, polled[0]).0;
      InfoStep(s, polled[0]);
      hide AbsorbPolled, MergeDeviceInfo;
      InfoIsLatest(next, polled[1..]);
      MergeAssociative(AllInfo(polled[1..]),
                       if polled[0].Event? && polled[0].event.kind != NoEvent then polled[0].event.info else NO_INFO,
                       InfoOr(s.latestInfo));
    }
  }

  /** The valid calibration an event offers, as the application sees it: a measurement's own comes first. */
  function Offered(p: Polled): Option<Calibration> {
    if p.Failed? || p.event.kind == NoEvent then None
    else
      var e := MirrorEvent(p.event);
      if e.kind == MeasurementEvent && e.measurement.calibration.Some? && e.measurement.calibration.value.valid
      then e.measurement.calibration
      else if e.calibration.Some? && e.calibration.value.valid then e.calibration
      else None
  }

  function LastOffered(polled: seq<Polled>): Option<Calibration> {
    if polled == [] then None
    else
      var later := LastOffered(polled[1..]);
      if later.Some? then later else Offered(polled[0])
  }

  /** The cached calibration is the last valid one offered; an invalid one never replaces it. */
  lemma {:induction false} CalibrationIsLatestValid(s: CameraState, polled: seq<Polled>)
    ensures FinalCamera(s, polled).latestCalibration ==
            if LastOffered(polled).Some? then LastOffered(polled) else s.latestCalibration
    ensures LastOffered(polled).Some? ==> LastOffered(polled).value.valid
    decreases |polled|
  {
    if polled != [] {
      hide Assemble, MirrorMeasurement, MirrorCalibration;
      CalibrationIsLatestValid(AbsorbPolled(s, polled[0]).0, polled[1..]);
    }
  }

  // ---- Completion

  /** The device's calibration in force for a measurement is c: the last valid one offered, with this event or
      before it, is the mirror image of c. */
  predicate InForce(s: CameraState, raw: SourceEvent, c: Calibration) {
    var offered := Offered(Event(raw));
    (if offered.Some? then offered else s.latestCalibration) == Some(MirrorCalibration(c, DEPTH_WIDTH))
  }

  lemma InForceIsUsed(s: CameraState, raw: SourceEvent, c: Calibration)
    requires raw.kind == MeasurementEvent && InForce(s, raw, c)
    ensures Cache(s, MirrorEvent(raw)).latestCalibration == Some(MirrorCalibration(c, DEPTH_WIDTH))
  {
    hide MirrorMeasurement, MirrorCalibration, MergeInfoIfPresent;
  }

  /** A measurement that brings its own valid calibration has it in force; one that brings none, on a profile
      whose calibration was bootstrapped, has the cached one. */
  lemma UsuallyInForce(s: CameraState, raw: SourceEvent, c: Calibration)
    requires raw.kind == MeasurementEvent && c == CalibrationFromRaw(c.raw) && c.valid
    requires raw.measurement.calibration == Some(c) ||
             (raw.measurement.calibration == None && raw.calibration == None &&
              s.latestCalibration == Some(MirrorCalibration(c, DEPTH_WIDTH)))
    ensures InForce(s, raw, c)
  {
  }

  /** A depth-only measurement is delivered mirrored and completed: the cloud is the mirror image of the one the
      raw depth and the device's calibration in force give, and depth can be read back from it. */
  lemma {:induction false} DepthIsCompleted(s: CameraState, raw: SourceEvent, c: Calibration)
    requires raw.kind == MeasurementEvent && raw.measurement.cloud == NO_CLOUD
    requires InForce(s, raw, c) && c == CalibrationFromRaw(c.raw) && c.valid
    requires raw.measurement.depth.width == DEPTH_WIDTH && raw.measurement.depth.height > 0
    requires |raw.measurement.depth.data| == DEPTH_WIDTH * raw.measurement.depth.height
    ensures var frame := Absorb(s, raw).1;
            var (ok, cloud) := CloudFromDepth(raw.measurement.depth, c, NO_CLOUD);
            && frame.Some? && frame.value.depth == MirrorDepth(raw.measurement.depth)
            && frame.value.calibration == MirrorCalibration(c, DEPTH_WIDTH)
            && frame.value.cloud == (if ok then MirrorCloud(cloud) else NO_CLOUD)
            && (ok ==> DepthFromCloud(frame.value.cloud) == frame.value.depth)
  {
    var depth := raw.measurement.depth;
    var m := MirrorCalibration(c, DEPTH_WIDTH);
    assert MirrorCloud(NO_CLOUD) == NO_CLOUD;
    assert c.valid == HasCalibrationNumbers(c.fx, c.fy) && m.valid;
    assert |MirrorDepth(depth).data| == |depth.data| > 0;
    MirrorCommutesWithBuild(depth, c, NO_CLOUD);
    DepthSurvives(MirrorDepth(depth), m, NO_CLOUD);
    FailedCloud(depth, c);
    InForceIsUsed(s, raw, c);
    hide InForce, Cache, MirrorCalibration, CalibrationFromRaw, DepthFromCloud, CloudFromDepth, MirrorDepth,
         MirrorCloud, MirrorConfidence, MirrorHistogram, MergeInfoIfPresent;
  }

  lemma FailedCloud(depth: ImageFrame, c: Calibration)
    ensures !CloudFromDepth(depth, c, NO_CLOUD).0 ==> CloudFromDepth(depth, c, NO_CLOUD).1 == NO_CLOUD
  {
  }

  /** A measurement with a cloud and no depth gets the mirror image of the depth of its raw cloud. */
  lemma {:induction false} CloudIsCompleted(s: CameraState, raw: SourceEvent)
    requires raw.kind == MeasurementEvent && raw.measurement.depth == NO_DEPTH && raw.measurement.cloud.points != []
    ensures var frame := Absorb(s, raw).1;
            && frame.Some? && frame.value.depth == MirrorDepth(DepthFromCloud(raw.measurement.cloud))
            && frame.value.cloud == MirrorCloud(raw.measurement.cloud)
  {
    assert MirrorDepth(NO_DEPTH) == NO_DEPTH;
    assert MirrorCloud(raw.measurement.cloud).points != [];
    MirrorCommutesWithRebuild(raw.measurement.cloud);
    hide MirrorCalibration, DepthFromCloud, CloudFromDepth, MirrorDepth, MirrorCloud,
         MirrorConfidence, MirrorHistogram, MergeInfoIfPresent;
  }
}
