/** The camera: one frame per measurement, with sequence numbers, caches and completion. */
module CameraModel {
  import opened Wrappers
  import opened FrameModel
  import opened FrameGeometry

  datatype FrameSet = FrameSet(
    sequence: nat, transport: TransportType, profile: UvcStreamProfile, clock: DeviceTimestamp,
    calibration: Calibration, info: DeviceInfo, depth: ImageFrame, cloud: PointCloudFrame,
    confidence: ConfidenceFrame, histogram: HistogramFrame)

  function EmptyFrame(): FrameSet {
    FrameSet(0, SerialTransport, Auto, NO_MEASUREMENT.clock, NO_CALIBRATION, NO_INFO,
             NO_DEPTH, NO_CLOUD, NO_CONFIDENCE, NO_HISTOGRAM)
  }

  datatype CameraState = CameraState(
    latestInfo: Option<DeviceInfo>, latestCalibration: Option<Calibration>, nextSequence: nat)

  function MergeInfoIfPresent(update: DeviceInfo, cached: Option<DeviceInfo>): Option<DeviceInfo> {
    if !HasAnyDeviceInfo(update) then cached
    else Some(MergeDeviceInfo(update, if cached.Some? then cached.value else NO_INFO))
  }

  function MergeCalibrationIfPresent(update: Option<Calibration>, cached: Option<Calibration>): Option<Calibration> {
    if update.None? || !update.value.valid then cached else update
  }

  function MirrorEvent(e: SourceEvent): SourceEvent {
    e.(calibration := if e.calibration.Some? then Some(MirrorCalibration(e.calibration.value, DEPTH_WIDTH)) else None,
       measurement := MirrorMeasurement(e.measurement))
  }

  /** The caches after an oriented event. */
  function Cache(s: CameraState, e: SourceEvent): CameraState {
    if e.kind == NoEvent then s
    else
      var calibration := MergeCalibrationIfPresent(e.calibration, s.latestCalibration);
      s.(latestInfo := MergeInfoIfPresent(e.info, s.latestInfo),
         latestCalibration := if e.kind == MeasurementEvent
                              then MergeCalibrationIfPresent(e.measurement.calibration, calibration)
                              else calibration)
  }

  /** Fill in the depth from the cloud, then the cloud from the depth. */
  function Complete(f: FrameSet): FrameSet {
    var depth := if f.depth.data == [] && f.cloud.points != [] then DepthFromCloud(f.cloud) else f.depth;
    var cloud := if f.cloud.points == [] && depth.data != [] && f.calibration.valid
                 then CloudFromDepth(depth, f.calibration, f.cloud).1 else f.cloud;
    f.(depth := depth, cloud := cloud)
  }

  /** The frame of an oriented measurement under the caches. */
  function Assemble(s: CameraState, sequence: nat, m: Measurement): FrameSet {
    Complete(FrameSet(
      sequence, m.transport, m.profile, m.clock,
      if s.latestCalibration.Some? then s.latestCalibration.value else NO_CALIBRATION,
      if s.latestInfo.Some? then s.latestInfo.value else NO_INFO,
      m.depth, m.cloud, m.confidence, m.histogram))
  }

  /** One event of the source: the new state, and the frame it produces, if it is a measurement. */
  function Absorb(s: CameraState, raw: SourceEvent): (CameraState, Option<FrameSet>) {
    var e := MirrorEvent(raw);
    var cached := Cache(s, e);
    if e.kind != MeasurementEvent then (cached, None)
    else
      var next := cached.(nextSequence := cached.nextSequence + 1);
      (next, Some(Assemble(next, next.nextSequence, e.measurement)))
  }

  /** StillPolling: the source has returned nothing but info updates so far, and the call has not ended. */
  datatype PollResult = PollFailed | PollFrame(frame: FrameSet) | StillPolling

  /** One call of Poll against what the source returns from now on: it passes over info updates. The last
      component is how many of the source's results it takes. */
  ghost function PollCamera(s: CameraState, source: seq<Polled>): (CameraState, PollResult, nat)
    decreases |source|
  {
    if source == [] then (s, StillPolling, 0)
    else if source[0].Failed? then (s, PollFailed, 1)
    else
      var (next, frame) := Absorb(s, source[0].event);
      if Passed(source[0]) then Later(PollCamera(next, source[1..]), 1)
      else (next, PollFrame(if frame.Some? then frame.value else EmptyFrame()), 1)
  }

  /** The same outcome, n results later. */
  function Later(outcome: (CameraState, PollResult, nat), n: nat): (CameraState, PollResult, nat) {
    (outcome.0, outcome.1, outcome.2 + n)
  }

  /** An info update is passed over. */
  predicate Passed(p: Polled) {
    p.Event? && p.event.kind == InfoUpdate
  }

  class Camera {
    var latestDeviceInfo: Option<DeviceInfo>
    var latestCalibration: Option<Calibration>
    var nextSequence: nat

    function State(): CameraState
      reads this
    {
      CameraState(latestDeviceInfo, latestCalibration, nextSequence)
    }

    /** The camera as Open leaves it, with what the bootstrap found out. */
    constructor (info: Option<DeviceInfo>, calibration: Option<Calibration>)
      ensures State() == CameraState(info, calibration, 0)
    {
      latestDeviceInfo, latestCalibration, nextSequence := info, calibration, 0;
    }

    method NormalizeEventOrientation(e: SourceEvent) returns (r: SourceEvent)
      ensures r == MirrorEvent(e)
    {
      hide MirrorCalibration, MirrorMeasurement;
      var m := NormalizeMeasurementOrientation(e.measurement);
      r := e.(calibration := if e.calibration.Some? then Some(MirrorCalibration(e.calibration.value, DEPTH_WIDTH))
                             else None,
              measurement := m);
    }

    method CompleteFrame(f: FrameSet) returns (r: FrameSet)
      ensures r == Complete(f)
    {
      hide DepthFromCloud, CloudFromDepth;
      r := f;
      if r.depth.data == [] && r.cloud.points != [] {
        var depth := BuildDepthFromPointCloud(r.cloud);
        r := r.(depth := depth);
      }
      if r.cloud.points == [] && r.depth.data != [] && r.calibration.valid {
        var ok, cloud := BuildPointCloudFromDepth(r.depth, r.calibration, r.cloud);
        r := r.(cloud := cloud);
      }
    }

    /** The body of the polling loop: orient, cache, and assemble a frame for a measurement. */
    method AbsorbEvent(raw: SourceEvent) returns (frame: Option<FrameSet>)
      modifies this
      ensures (State(), frame) == Absorb(old(State()), raw)
    {
      hide MirrorEvent, Complete, MergeInfoIfPresent, MergeCalibrationIfPresent;
      var event := NormalizeEventOrientation(raw);
      if event.kind == NoEvent {
        return None;
      }
      latestDeviceInfo := MergeInfoIfPresent(event.info, latestDeviceInfo);
      latestCalibration := MergeCalibrationIfPresent(event.calibration, latestCalibration);
      if event.kind == InfoUpdate {
        return None;
      }
      latestCalibration := MergeCalibrationIfPresent(event.measurement.calibration, latestCalibration);
      nextSequence := nextSequence + 1;
      var m := event.measurement;
      var f := FrameSet(nextSequence, m.transport, m.profile, m.clock, NO_CALIBRATION, NO_INFO,
                        m.depth, m.cloud, m.confidence, m.histogram);
      if latestCalibration.Some? {
        f := f.(calibration := latestCalibration.value);
      }
      if latestDeviceInfo.Some? {
        f := f.(info := latestDeviceInfo.value);
      }
      f := CompleteFrame(f);
      return Some(f);
    }

    /** source is what the packet source returns, call after call, until the call of Poll ends. */
    method Poll(source: seq<Polled>) returns (result: PollResult, ghost taken: nat)
      modifies this
      ensures (State(), result, taken) == PollCamera(old(State()), source)
    {
      hide Absorb, Passed;
      for i := 0 to |source|
        invariant PollCamera(old(State()), source) == Later(PollCamera(State(), source[i..]), i)
      {
        var polled := source[i];
        assert polled == source[i..][0] && source[i..][1..] == source[i + 1..];
        if polled.Failed? {
          return PollFailed, i + 1;
        }
        var frame := AbsorbEvent(polled.event);
        if !Passed(polled) {
          return PollFrame(if frame.Some? then frame.value else EmptyFrame()), i + 1;
        }
      }
      return StillPolling, |source|;
    }
  }
}
