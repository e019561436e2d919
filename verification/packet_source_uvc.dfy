/** The UVC source: stamping, and fusing the point clouds and depth frames of the mixed stream. */
module UvcSource {
  import opened Wrappers
  import opened TimestampNormalizer
  import opened MonotoneClamp
  import opened FrameModel

  datatype ParsedType = ParsedInfo | ParsedDepth | ParsedCloud
  datatype ParsedFrame = ParsedFrame(kind: ParsedType, event: SourceEvent)

  /** What reading the device and parsing the payload gave. */
  datatype DeviceRead = ReadError | NoData | Unparseable(error: string) | Parsed(frame: ParsedFrame)

  /** The timeline and the last stamp given out. */
  datatype Stamper = Stamper(timeline: Timeline, last: nat)

  const FRESH_STAMPER := Stamper(Fresh(0), 0)

  function Stamp(s: Stamper, m: Measurement, hostUs: nat): (Stamper, Measurement) {
    var timeline := if m.clock.valid
                    then Observe(Millisecond, s.timeline, Observed(Sample(m.clock.raw0, 0), hostUs))
                    else s.timeline;
    var raw := if m.clock.valid then m.clock else m.clock.(valid := true, raw0 := 0, raw1 := 0);
    var value := ClampTo(s.last, if m.clock.valid then timeline.lastOutputUs else hostUs);
    (Stamper(timeline, value), m.(clock := raw.(value := value, unit := Microseconds)))
  }

  function StampEvent(s: Stamper, e: SourceEvent, hostUs: nat): (Stamper, SourceEvent) {
    var (next, m) := Stamp(s, e.measurement, hostUs);
    (next, e.(measurement := m))
  }

  /** A point cloud and the depth frame that follows it, as one event under the cloud's stamp. */
  function Combine(cloud: SourceEvent, depth: SourceEvent): SourceEvent {
    var m := depth.measurement;
    cloud.(info := MergeDeviceInfo(depth.info, cloud.info),
           measurement := cloud.measurement.(
             calibration := if m.calibration.Some? then m.calibration else cloud.measurement.calibration,
             depth := m.depth, confidence := m.confidence, histogram := m.histogram, profile := Mixed120x90))
  }

  datatype UvcState = UvcState(
    ready: seq<SourceEvent>, pending: Option<SourceEvent>, stamper: Stamper,
    okPackets: nat, parseFailures: nat, lastError: string)

  const FRESH_UVC := UvcState([], None, FRESH_STAMPER, 0, 0, "")

  function HandleParsed(profile: UvcStreamProfile, u: UvcState, f: ParsedFrame, hostUs: nat): (UvcState, SourceEvent) {
    var (stamper, stamped) := StampEvent(u.stamper, f.event, hostUs);
    if f.kind == ParsedInfo then (u, f.event)
    else if profile != Mixed120x90 then (u.(stamper := stamper), stamped)
    else if f.kind == ParsedCloud then
      var ready := if u.pending.Some? then u.ready + [u.pending.value] else u.ready;
      var v := u.(stamper := stamper, pending := Some(stamped));
      if ready == [] then (v.(ready := []), NOTHING) else (v.(ready := ready[1..]), ready[0])
    else if u.pending.Some? then (u.(pending := None), Combine(u.pending.value, f.event))
    else (u.(stamper := stamper), stamped)
  }

  function PollUvc(profile: UvcStreamProfile, u: UvcState, read: DeviceRead, hostUs: nat): (UvcState, Polled) {
    if u.ready != [] then (u.(ready := u.ready[1..]), Event(u.ready[0]))
    else match read
      case ReadError => (u, Failed)
      case NoData => (u, Event(NOTHING))
      case Unparseable(error) => (u.(parseFailures := u.parseFailures + 1, lastError := error), Event(NOTHING))
      case Parsed(f) =>
        var (v, event) := HandleParsed(profile, u.(okPackets := u.okPackets + 1, lastError := ""), f, hostUs);
        (v, Event(event))
  }

  class UvcPacketSource {
    const resolvedProfile: UvcStreamProfile
    const timestampNormalizer: RelativeMillisecondNormalizer
    var readyEvents: seq<SourceEvent>
    var pendingPointCloud: Option<SourceEvent>
    var lastTimestampUs: nat
    var okPacketCount: nat
    var parseFailureCount: nat
    var lastError: string

    ghost predicate Valid()
      reads this, timestampNormalizer
    {
      timestampNormalizer.Valid()
    }

    function Stamping(): Stamper
      reads this, timestampNormalizer
    {
      Stamper(timestampNormalizer.State(), lastTimestampUs)
    }

    function State(): UvcState
      reads this, timestampNormalizer
    {
      UvcState(readyEvents, pendingPointCloud, Stamping(), okPacketCount, parseFailureCount, lastError)
    }

    constructor (profile: UvcStreamProfile)
      ensures Valid() && State() == FRESH_UVC && resolvedProfile == profile && fresh(timestampNormalizer)
    {
      resolvedProfile := profile;
      timestampNormalizer := new RelativeMillisecondNormalizer(0);
      readyEvents, pendingPointCloud, lastTimestampUs := [], None, 0;
      okPacketCount, parseFailureCount, lastError := 0, 0, "";
    }

    method NormalizeTimestamp(m: Measurement, hostObservationUs: nat) returns (r: Measurement)
      requires Valid()
      modifies this`lastTimestampUs, timestampNormalizer
      ensures Valid()
      ensures (Stamping(), r) == Stamp(old(Stamping()), m, hostObservationUs)
    {
      var clock := m.clock;
      var valueUs := hostObservationUs;
      if clock.valid {
        valueUs := timestampNormalizer.Normalize(clock.raw0, hostObservationUs, hostObservationUs);
      } else {
        clock := clock.(valid := true, raw0 := 0, raw1 := 0);
      }
      if lastTimestampUs != 0 && valueUs <= lastTimestampUs {
        valueUs := lastTimestampUs + 1;
      }
      lastTimestampUs := valueUs;
      return m.(clock := clock.(value := valueUs, unit := Microseconds));
    }

    method PopReadyEvent() returns (event: SourceEvent)
      requires readyEvents != []
      modifies this`readyEvents
      ensures event == old(readyEvents)[0] && readyEvents == old(readyEvents)[1..]
    {
      event := readyEvents[0];
      readyEvents := readyEvents[1..];
    }

    method HandleParsedFrame(f: ParsedFrame, hostObservationUs: nat) returns (event: SourceEvent)
      requires Valid()
      modifies this, timestampNormalizer
      ensures Valid()
      ensures (State(), event) == HandleParsed(resolvedProfile, old(State()), f, hostObservationUs)
    {
      hide Stamp, Combine;
      var e := f.event;
      if resolvedProfile != Mixed120x90 || f.kind == ParsedInfo {
        if f.kind == ParsedDepth || f.kind == ParsedCloud {
          var m := NormalizeTimestamp(e.measurement, hostObservationUs);
          e := e.(measurement := m);
        }
        return e;
      }
      if f.kind == ParsedCloud {
        var m := NormalizeTimestamp(e.measurement, hostObservationUs);
        if pendingPointCloud.Some? {
          readyEvents := readyEvents + [pendingPointCloud.value];
          pendingPointCloud := None;
        }
        pendingPointCloud := Some(e.(measurement := m));
        if readyEvents != [] {
          event := PopReadyEvent();
          return event;
        }
        return NOTHING;
      }
      if pendingPointCloud.Some? {
        var combined := Combine(pendingPointCloud.value, e);
        pendingPointCloud := None;
        return combined;
      }
      var m := NormalizeTimestamp(e.measurement, hostObservationUs);
      return e.(measurement := m);
    }

    method Poll(read: DeviceRead, hostObservationUs: nat) returns (polled: Polled)
      requires Valid()
      modifies this, timestampNormalizer
      ensures Valid()
      ensures (State(), polled) == PollUvc(resolvedProfile, old(State()), read, hostObservationUs)
    {
      if readyEvents != [] {
        var event := PopReadyEvent();
        return Event(event);
      }
      match read
      case ReadError => return Failed;
      case NoData => return Event(NOTHING);
      case Unparseable(error) =>
        parseFailureCount := parseFailureCount + 1;
        lastError := error;
        return Event(NOTHING);
      case Parsed(f) =>
        okPacketCount := okPacketCount + 1;
        lastError := "";
        hide HandleParsed;
        var event := HandleParsedFrame(f, hostObservationUs);
        return Event(event);
    }
  }
}
