/** The mixed UVC stream refines a greedy pairing of clouds with depths, and keeps the stamp order. */
module UvcFusion {
  import opened Wrappers
  import opened TimestampNormalizer
  import opened TimelineRuns
  import opened MonotoneClamp
  import opened FrameModel
  import opened UvcSource
  import opened EventOrder

  datatype UvcInput = UvcInput(read: DeviceRead, hostUs: nat)

  function FinalUvc(profile: UvcStreamProfile, u: UvcState, inputs: seq<UvcInput>): UvcState
    decreases |inputs|
  {
    if inputs == [] then u
    else FinalUvc(profile, PollUvc(profile, u, inputs[0].read, inputs[0].hostUs).0, inputs[1..])
  }

  function UvcEvents(profile: UvcStreamProfile, u: UvcState, inputs: seq<UvcInput>): seq<Polled>
    decreases |inputs|
  {
    if inputs == [] then []
    else
      var (v, polled) := PollUvc(profile, u, inputs[0].read, inputs[0].hostUs);
      [polled] + UvcEvents(profile, v, inputs[1..])
  }

  /** What the payload parsers return: the event type that goes with the frame type. */
  predicate WellParsed(inputs: seq<UvcInput>) {
    forall i :: i in inputs && i.read.Parsed? ==>
      i.read.frame.event.kind == if i.read.frame.kind == ParsedInfo then InfoUpdate else MeasurementEvent
  }

  predicate HostsPositive(inputs: seq<UvcInput>) {
    forall i :: i in inputs ==> i.hostUs > 0
  }

  function Infos(polled: seq<Polled>): seq<SourceEvent> {
    if polled == [] then []
    else
      (if polled[0].Event? && polled[0].event.kind == InfoUpdate then [polled[0].event] else [])
      + Infos(polled[1..])
  }

  // ---- The specification: clouds and depths in order of arrival, paired greedily

  datatype Arrival = Arrival(cloud: bool, event: SourceEvent, hostUs: nat)

  function Arrivals(inputs: seq<UvcInput>): seq<Arrival> {
    if inputs == [] then []
    else
      var i := inputs[0];
      (if i.read.Parsed? && i.read.frame.kind != ParsedInfo
       then [Arrival(i.read.frame.kind == ParsedCloud, i.read.frame.event, i.hostUs)] else [])
      + Arrivals(inputs[1..])
  }

  function InfoArrivals(inputs: seq<UvcInput>): seq<SourceEvent> {
    if inputs == [] then []
    else
      var i := inputs[0];
      (if i.read.Parsed? && i.read.frame.kind == ParsedInfo then [i.read.frame.event] else [])
      + InfoArrivals(inputs[1..])
  }

  /** A cloud directly followed by a depth becomes one event with it; every other frame stands alone; the
      last cloud waits. */
  function Fuse(s: Stamper, arrivals: seq<Arrival>): (seq<SourceEvent>, Option<SourceEvent>, Stamper)
    decreases |arrivals|
  {
    if arrivals == [] then ([], None, s)
    else
      var (next, e) := StampEvent(s, arrivals[0].event, arrivals[0].hostUs);
      var rest := arrivals[1..];
      if arrivals[0].cloud && rest == [] then ([], Some(e), next)
      else if arrivals[0].cloud && !rest[0].cloud then
        var (out, pending, end) := Fuse(next, rest[1..]);
        ([Combine(e, rest[0].event)] + out, pending, end)
      else
        var (out, pending, end) := Fuse(next, rest);
        ([e] + out, pending, end)
  }

  /** The same with a cloud already waiting. */
  function FuseAfter(pending: Option<SourceEvent>, s: Stamper, arrivals: seq<Arrival>)
    : (seq<SourceEvent>, Option<SourceEvent>, Stamper)
  {
    if pending == None then Fuse(s, arrivals)
    else if arrivals == [] then ([], pending, s)
    else if !arrivals[0].cloud then
      var (out, p, end) := Fuse(s, arrivals[1..]);
      ([Combine(pending.value, arrivals[0].event)] + out, p, end)
    else
      var (out, p, end) := Fuse(s, arrivals);
      ([pending.value] + out, p, end)
  }

  lemma FuseUnfold(s: Stamper, arrivals: seq<Arrival>)
    requires arrivals != []
    ensures var (next, e) := StampEvent(s, arrivals[0].event, arrivals[0].hostUs);
            Fuse(s, arrivals) ==
              if arrivals[0].cloud then FuseAfter(Some(e), next, arrivals[1..])
              else
                var (out, p, end) := Fuse(next, arrivals[1..]);
                ([e] + out, p, end)
  {
    hide StampEvent;
  }

  predicate FusedFrom(u: UvcState, inputs: seq<UvcInput>, polled: seq<Polled>, end: UvcState) {
    && (Measurements(polled), end.pending, end.stamper) == FuseAfter(u.pending, u.stamper, Arrivals(inputs))
    && Infos(polled) == InfoArrivals(inputs)
    && end.ready == []
  }

  /** A waiting cloud is a measurement. */
  predicate Waiting(u: UvcState) {
    u.ready == [] && (u.pending.Some? ==> u.pending.value.kind == MeasurementEvent)
  }

  lemma StampKeepsKind(s: Stamper, e: SourceEvent, hostUs: nat)
    ensures StampEvent(s, e, hostUs).1.kind == e.kind
    ensures forall other: SourceEvent :: Combine(e, other).kind == e.kind
  {
  }

  /** What one poll adds: at most one measurement and one info, and a stamper to go on with. */
  lemma MixedStep(u: UvcState, i: UvcInput, later: seq<Arrival>)
    requires Waiting(u) && WellParsed([i])
    ensures var (v, polled) := PollUvc(Mixed120x90, u, i.read, i.hostUs);
            var (out, p, end) := FuseAfter(v.pending, v.stamper, later);
            && Waiting(v)
            && FuseAfter(u.pending, u.stamper, Arrivals([i]) + later) == (Measurements([polled]) + out, p, end)
            && Infos([polled]) == InfoArrivals([i])
  {
    assert i in [i] && [i][1..] == [];
    var (v, polled) := PollUvc(Mixed120x90, u, i.read, i.hostUs);
    var out := FuseAfter(v.pending, v.stamper, later).0;
    assert [] + out == out;
    SingleLists(polled);
    if i.read.Parsed? && i.read.frame.kind != ParsedInfo {
      var a := Arrival(i.read.frame.kind == ParsedCloud, i.read.frame.event, i.hostUs);
      assert Arrivals([i]) == [a] && ([a] + later)[1..] == later;
      FuseUnfold(u.stamper, [a] + later);
      StampKeepsKind(u.stamper, a.event, a.hostUs);
    } else {
      assert Arrivals([i]) + later == later;
    }
    hide Combine, StampEvent, Fuse;
  }

  lemma SingleLists(polled: Polled)
    ensures Measurements([polled]) ==
            if polled.Event? && polled.event.kind == MeasurementEvent then [polled.event] else []
    ensures Infos([polled]) == if polled.Event? && polled.event.kind == InfoUpdate then [polled.event] else []
  {
    assert [polled][1..] == [];
  }

  lemma {:induction false} MixedRun(u: UvcState, inputs: seq<UvcInput>)
    requires Waiting(u) && WellParsed(inputs)
    ensures FusedFrom(u, inputs, UvcEvents(Mixed120x90, u, inputs), FinalUvc(Mixed120x90, u, inputs))
    decreases |inputs|
  {
    if inputs != [] {
      hide PollUvc, FuseAfter, Waiting;
      var i, rest := inputs[0], inputs[1..];
      assert i in inputs;
      assert WellParsed([i]);
      var (v, polled) := PollUvc(Mixed120x90, u, i.read, i.hostUs);
      MixedStep(u, i, Arrivals(rest));
      MixedRun(v, rest);
      ListsUnfold(inputs, polled, UvcEvents(Mixed120x90, v, rest));
    }
  }

  lemma ListsUnfold(inputs: seq<UvcInput>, first: Polled, others: seq<Polled>)
    requires inputs != []
    ensures Arrivals(inputs) == Arrivals([inputs[0]]) + Arrivals(inputs[1..])
    ensures InfoArrivals(inputs) == InfoArrivals([inputs[0]]) + InfoArrivals(inputs[1..])
    ensures Measurements([first] + others) == Measurements([first]) + Measurements(others)
    ensures Infos([first] + others) == Infos([first]) + Infos(others)
  {
    InputsUnfold(inputs[0], inputs[1..]);
    assert [inputs[0]] + inputs[1..] == inputs;
    SingleLists(first);
    assert ([first] + others)[1..] == others;
    hide Arrivals, InfoArrivals;
  }

  lemma InputsUnfold(i: UvcInput, rest: seq<UvcInput>)
    ensures Arrivals([i] + rest) == Arrivals([i]) + Arrivals(rest)
    ensures InfoArrivals([i] + rest) == InfoArrivals([i]) + InfoArrivals(rest)
  {
    assert [i][1..] == [] && ([i] + rest)[1..] == rest;
    var a := Arrivals([i]);
    var e := InfoArrivals([i]);
    assert a + [] == a && e + [] == e;
  }

  /** Over any history of the mixed stream, the measurements emitted are the greedy fusion of the clouds and
      depths that arrived, the info events are passed on in order, the waiting cloud is the fusion's, and the
      ready queue is empty between polls. */
  lemma {:induction false} MixedRefinesFusion(inputs: seq<UvcInput>)
    requires WellParsed(inputs)
    ensures var polled, end := UvcEvents(Mixed120x90, FRESH_UVC, inputs), FinalUvc(Mixed120x90, FRESH_UVC, inputs);
            && (Measurements(polled), end.pending, end.stamper) == Fuse(FRESH_STAMPER, Arrivals(inputs))
            && Infos(polled) == InfoArrivals(inputs)
            && end.ready == []
  {
    MixedRun(FRESH_UVC, inputs);
  }

  // ---- Nothing is lost or repeated

  function WithPending(out: seq<SourceEvent>, pending: Option<SourceEvent>): seq<SourceEvent> {
    out + if pending.Some? then [pending.value] else []
  }

  function Clouds(events: seq<SourceEvent>): seq<PointCloudFrame> {
    if events == [] then []
    else
      (if events[0].measurement.cloud.points != [] then [events[0].measurement.cloud] else []) + Clouds(events[1..])
  }

  /** What a depth frame brings: its depth with the confidence and histogram that belong to it. */
  datatype DepthImages = DepthImages(depth: ImageFrame, confidence: ConfidenceFrame, histogram: HistogramFrame)

  function DepthPart(m: Measurement): DepthImages {
    DepthImages(m.depth, m.confidence, m.histogram)
  }

  function Depths(events: seq<SourceEvent>): seq<DepthImages> {
    if events == [] then []
    else
      (if events[0].measurement.depth.data != [] then [DepthPart(events[0].measurement)] else []) + Depths(events[1..])
  }

  function Arrived(arrivals: seq<Arrival>): seq<SourceEvent> {
    seq(|arrivals|, i requires 0 <= i < |arrivals| => arrivals[i].event)
  }

  /** Cloud frames carry a cloud and no depth, depth frames a depth and no cloud. */
  predicate Unmixed(arrivals: seq<Arrival>) {
    forall a :: a in arrivals ==>
      && (a.event.measurement.cloud.points != [] <==> a.cloud)
      && (a.event.measurement.depth.data != [] <==> !a.cloud)
  }

  lemma StampKeepsImages(s: Stamper, e: SourceEvent, hostUs: nat)
    ensures var stamped := StampEvent(s, e, hostUs).1;
            && stamped.measurement.cloud == e.measurement.cloud
            && DepthPart(stamped.measurement) == DepthPart(e.measurement)
    ensures forall d: SourceEvent ::
              && Combine(StampEvent(s, e, hostUs).1, d).measurement.cloud == e.measurement.cloud
              && DepthPart(Combine(StampEvent(s, e, hostUs).1, d).measurement) == DepthPart(d.measurement)
  {
  }

  lemma ImagesCons(e: SourceEvent, rest: seq<SourceEvent>)
    ensures Clouds([e] + rest) ==
            (if e.measurement.cloud.points != [] then [e.measurement.cloud] else []) + Clouds(rest)
    ensures Depths([e] + rest) ==
            (if e.measurement.depth.data != [] then [DepthPart(e.measurement)] else []) + Depths(rest)
  {
    assert ([e] + rest)[1..] == rest;
  }

  lemma ArrivedCons(arrivals: seq<Arrival>)
    requires arrivals != [] && Unmixed(arrivals)
    ensures Arrived(arrivals) == [arrivals[0].event] + Arrived(arrivals[1..]) && Unmixed(arrivals[1..])
    ensures arrivals[0].event.measurement.cloud.points != [] <==> arrivals[0].cloud
    ensures arrivals[0].event.measurement.depth.data != [] <==> !arrivals[0].cloud
  {
    assert arrivals[0] in arrivals;
  }

  predicate Conserved(out: seq<SourceEvent>, pending: Option<SourceEvent>, events: seq<SourceEvent>) {
    && Clouds(WithPending(out, pending)) == Clouds(events)
    && Depths(WithPending(out, pending)) == Depths(events)
  }

  predicate SameImages(a: SourceEvent, b: SourceEvent) {
    a.measurement.cloud == b.measurement.cloud && DepthPart(a.measurement) == DepthPart(b.measurement)
  }

  lemma WithPendingCons(e: SourceEvent, out: seq<SourceEvent>, pending: Option<SourceEvent>)
    ensures WithPending([e] + out, pending) == [e] + WithPending(out, pending)
  {
  }

  lemma ConservesAlone(e: SourceEvent, a: SourceEvent, out: seq<SourceEvent>, pending: Option<SourceEvent>,
                       events: seq<SourceEvent>)
    requires SameImages(e, a) && Conserved(out, pending, events)
    ensures Conserved([e] + out, pending, [a] + events)
  {
    WithPendingCons(e, out, pending);
    ImagesCons(e, WithPending(out, pending));
    ImagesCons(a, events);
    hide WithPending;
  }

  lemma ConservesPair(e: SourceEvent, c: SourceEvent, d: SourceEvent, out: seq<SourceEvent>,
                      pending: Option<SourceEvent>, events: seq<SourceEvent>)
    requires Conserved(out, pending, events)
    requires e.measurement.cloud == c.measurement.cloud && DepthPart(e.measurement) == DepthPart(d.measurement)
    requires c.measurement.depth.data == [] && d.measurement.cloud.points == []
    ensures Conserved([e] + out, pending, [c] + ([d] + events))
  {
    WithPendingCons(e, out, pending);
    ImagesCons(e, WithPending(out, pending));
    ImagesCons(c, [d] + events);
    ImagesCons(d, events);
    hide WithPending, Clouds, Depths;
  }

  lemma ConservesWaiting(e: SourceEvent, a: SourceEvent)
    requires SameImages(e, a)
    ensures Conserved([], Some(e), [a])
  {
    assert [] + [e] == [e] + [] && [a] == [a] + [];
    ImagesCons(e, []);
    ImagesCons(a, []);
  }

  /** Every cloud that arrived is emitted exactly once, or is the one waiting, and every depth is emitted exactly
      once with its confidence and histogram, each in order of arrival. */
  lemma {:induction false} FusionConserves(s: Stamper, arrivals: seq<Arrival>)
    requires Unmixed(arrivals)
    ensures var (out, pending, end) := Fuse(s, arrivals);
            Conserved(out, pending, Arrived(arrivals))
    decreases |arrivals|
  {
    if arrivals != [] {
      var a, rest := arrivals[0], arrivals[1..];
      var (next, e) := StampEvent(s, a.event, a.hostUs);
      ArrivedCons(arrivals);
      StampKeepsImages(s, a.event, a.hostUs);
      hide StampEvent, Combine, Conserved, Arrived, Unmixed;
      if a.cloud && rest == [] {
        ConservesWaiting(e, a.event);
        assert Arrived(rest) == [] && [a.event] + [] == [a.event];
      } else if a.cloud && !rest[0].cloud {
        var (out, pending, end) := Fuse(next, rest[1..]);
        ArrivedCons(rest);
        FusionConserves(next, rest[1..]);
        ConservesPair(Combine(e, rest[0].event), a.event, rest[0].event, out, pending, Arrived(rest[1..]));
      } else {
        var (out, pending, end) := Fuse(next, rest);
        FusionConserves(next, rest);
        ConservesAlone(e, a.event, out, pending, Arrived(rest));
      }
    }
  }

  // ---- What the frames say about the device

  /** Device info, later fields over earlier ones. */
  function MergedInfo(events: seq<SourceEvent>): DeviceInfo {
    if events == [] then NO_INFO else MergeDeviceInfo(MergedInfo(events[1..]), events[0].info)
  }

  function LastCalibration(events: seq<SourceEvent>): Option<Calibration> {
    if events == [] then None
    else
      var later := LastCalibration(events[1..]);
      if later.Some? then later else events[0].measurement.calibration
  }

  predicate SameReports(a: seq<SourceEvent>, b: seq<SourceEvent>) {
    MergedInfo(a) == MergedInfo(b) && LastCalibration(a) == LastCalibration(b)
  }

  lemma ReportsCons(e: SourceEvent, rest: seq<SourceEvent>)
    ensures MergedInfo([e] + rest) == MergeDeviceInfo(MergedInfo(rest), e.info)
    ensures LastCalibration([e] + rest) ==
            if LastCalibration(rest).Some? then LastCalibration(rest) else e.measurement.calibration
  {
    assert ([e] + rest)[1..] == rest;
  }

  lemma ReportsAlone(e: SourceEvent, a: SourceEvent, out: seq<SourceEvent>, events: seq<SourceEvent>)
    requires e.info == a.info && e.measurement.calibration == a.measurement.calibration
    requires SameReports(out, events)
    ensures SameReports([e] + out, [a] + events)
  {
    ReportsCons(e, out);
    ReportsCons(a, events);
    hide MergedInfo, LastCalibration, MergeDeviceInfo;
  }

  lemma ReportsPair(e: SourceEvent, c: SourceEvent, d: SourceEvent, out: seq<SourceEvent>, events: seq<SourceEvent>)
    requires e.info == c.info && e.measurement.calibration == c.measurement.calibration
    requires SameReports(out, events)
    ensures SameReports([Combine(e, d)] + out, [c] + ([d] + events))
  {
    ReportsCons(Combine(e, d), out);
    ReportsCons(c, [d] + events);
    ReportsCons(d, events);
    hide MergedInfo, LastCalibration, MergeDeviceInfo;
    MergeAssociative(MergedInfo(events), d.info, c.info);
  }

  /** Fusing changes nothing in what the frames say about the device: the merged info and the last calibration
      are those of the frames as they arrived. */
  lemma {:induction false} FusionKeepsReports(s: Stamper, arrivals: seq<Arrival>)
    ensures var (out, pending, end) := Fuse(s, arrivals);
            SameReports(WithPending(out, pending), Arrived(arrivals))
    decreases |arrivals|
  {
    if arrivals != [] {
      var a, rest := arrivals[0], arrivals[1..];
      var (next, e) := StampEvent(s, a.event, a.hostUs);
      assert e.info == a.event.info && e.measurement.calibration == a.event.measurement.calibration;
      hide StampEvent, SameReports;
      assert Arrived(arrivals) == [a.event] + Arrived(rest);
      if a.cloud && rest == [] {
        assert SameReports([], Arrived(rest)) by {
          NoReports(Arrived(rest));
        }
        ReportsAlone(e, a.event, [], Arrived(rest));
        assert [] + [e] == [e] + [];
      } else if a.cloud && !rest[0].cloud {
        var (out, pending, end) := Fuse(next, rest[1..]);
        FusionKeepsReports(next, rest[1..]);
        assert Arrived(rest) == [rest[0].event] + Arrived(rest[1..]);
        ReportsPair(e, a.event, rest[0].event, WithPending(out, pending), Arrived(rest[1..]));
        WithPendingCons(Combine(e, rest[0].event), out, pending);
      } else {
        var (out, pending, end) := Fuse(next, rest);
        FusionKeepsReports(next, rest);
        ReportsAlone(e, a.event, WithPending(out, pending), Arrived(rest));
        WithPendingCons(e, out, pending);
      }
    } else {
      NoReports(Arrived(arrivals));
    }
  }

  lemma NoReports(events: seq<SourceEvent>)
    requires events == []
    ensures SameReports([], events)
  {
  }

  // ---- Stamp order

  lemma StampAdvances(s: Stamper, e: SourceEvent, hostUs: nat)
    requires hostUs > 0
    ensures var (next, stamped) := StampEvent(s, e, hostUs);
            s.last < next.last == stamped.measurement.clock.value
    ensures forall d: SourceEvent :: Combine(StampEvent(s, e, hostUs).1, d).measurement.clock ==
                                     StampEvent(s, e, hostUs).1.measurement.clock
  {
    FirstIsFirst(Millisecond, s.timeline, Sample(e.measurement.clock.raw0, 0), hostUs);
    hide Judge;
  }

  predicate ArrivalsDated(arrivals: seq<Arrival>) {
    forall a :: a in arrivals ==> a.hostUs > 0
  }

  /** The emitted stamps ascend, and a waiting cloud holds the newest stamp of all. */
  lemma {:induction false} FusionAscends(s: Stamper, arrivals: seq<Arrival>)
    requires ArrivalsDated(arrivals)
    ensures var (out, pending, end) := Fuse(s, arrivals);
            && Ascends(s.last, StampValues(WithPending(out, pending)))
            && (pending.Some? ==> pending.value.measurement.clock.value == end.last)
    decreases |arrivals|
  {
    if arrivals != [] {
      var a, rest := arrivals[0], arrivals[1..];
      var (next, e) := StampEvent(s, a.event, a.hostUs);
      assert a in arrivals;
      StampAdvances(s, a.event, a.hostUs);
      hide StampEvent, Combine;
      if a.cloud && rest == [] {
        assert [] + [e] == [e] + [];
        StampValuesCons(e, []);
        assert ([e.measurement.clock.value] + StampValues([]))[1..] == [];
      } else if a.cloud && !rest[0].cloud {
        var (out, pending, end) := Fuse(next, rest[1..]);
        FusionAscends(next, rest[1..]);
        PrependAscends(s.last, Combine(e, rest[0].event), out, pending);
      } else {
        var (out, pending, end) := Fuse(next, rest);
        FusionAscends(next, rest);
        PrependAscends(s.last, e, out, pending);
      }
    }
  }

  lemma PrependAscends(low: nat, e: SourceEvent, out: seq<SourceEvent>, pending: Option<SourceEvent>)
    requires low < e.measurement.clock.value
    requires Ascends(e.measurement.clock.value, StampValues(WithPending(out, pending)))
    ensures Ascends(low, StampValues(WithPending([e] + out, pending)))
  {
    assert WithPending([e] + out, pending) == [e] + WithPending(out, pending);
    StampValuesCons(e, WithPending(out, pending));
    assert ([e.measurement.clock.value] + StampValues(WithPending(out, pending)))[1..] ==
           StampValues(WithPending(out, pending));
  }

  lemma {:induction false} ArrivalsAreDated(inputs: seq<UvcInput>)
    requires HostsPositive(inputs)
    ensures ArrivalsDated(Arrivals(inputs))
  {
    if inputs != [] {
      ArrivalsAreDated(inputs[1..]);
    }
  }

  /** The other profiles stamp and emit each frame as it arrives. */
  lemma {:induction false} DirectAscends(profile: UvcStreamProfile, u: UvcState, inputs: seq<UvcInput>)
    requires profile != Mixed120x90 && u.ready == [] && WellParsed(inputs) && HostsPositive(inputs)
    ensures Ascends(u.stamper.last, StampsOf(UvcEvents(profile, u, inputs)))
    decreases |inputs|
  {
    if inputs != [] {
      var i, rest := inputs[0], inputs[1..];
      assert i in inputs;
      var (v, polled) := PollUvc(profile, u, i.read, i.hostUs);
      DirectStep(profile, u, i);
      hide PollUvc;
      DirectAscends(profile, v, rest);
      AscendsCons(u.stamper.last, polled, UvcEvents(profile, v, rest), v.stamper.last);
    }
  }

  lemma DirectStep(profile: UvcStreamProfile, u: UvcState, i: UvcInput)
    requires profile != Mixed120x90 && u.ready == [] && i.hostUs > 0
    requires WellParsed([i])
    ensures var (v, polled) := PollUvc(profile, u, i.read, i.hostUs);
            && v.ready == []
            && if polled.Event? && polled.event.kind == MeasurementEvent
               then u.stamper.last < v.stamper.last == polled.event.measurement.clock.value
               else v.stamper == u.stamper
  {
    assert i in [i];
    if i.read.Parsed? {
      StampAdvances(u.stamper, i.read.frame.event, i.hostUs);
      StampKeepsKind(u.stamper, i.read.frame.event, i.hostUs);
    }
    hide StampEvent, Combine;
  }

  /** On every profile and over every history, the measurements come out in strictly increasing stamp order. */
  lemma {:induction false} UvcStampsIncrease(profile: UvcStreamProfile, inputs: seq<UvcInput>)
    requires WellParsed(inputs) && HostsPositive(inputs)
    ensures Ascends(0, StampsOf(UvcEvents(profile, FRESH_UVC, inputs)))
  {
    if profile == Mixed120x90 {
      MixedRefinesFusion(inputs);
      ArrivalsAreDated(inputs);
      var (out, pending, end) := Fuse(FRESH_STAMPER, Arrivals(inputs));
      FusionAscends(FRESH_STAMPER, Arrivals(inputs));
      var all := StampValues(WithPending(out, pending));
      AscendsPrefix(0, all, |out|);
      assert all[..|out|] == StampValues(out);
    } else {
      DirectAscends(profile, FRESH_UVC, inputs);
    }
  }

  // ---- Profiles without a device timestamp

  function Hosts(hosts: seq<nat>): seq<Option<nat>> {
    seq(|hosts|, i requires 0 <= i < |hosts| => Some(hosts[i]))
  }

  function StampAll(s: Stamper, ms: seq<Measurement>, hosts: seq<nat>): seq<nat>
    requires |ms| == |hosts|
    decreases |ms|
  {
    if ms == [] then []
    else
      var (next, m) := Stamp(s, ms[0], hosts[0]);
      [m.clock.value] + StampAll(next, ms[1..], hosts[1..])
  }

  /** Without device timestamps the stamps are the host times put through the clamp. */
  lemma {:induction false} UntimedStampsAreClamped(s: Stamper, ms: seq<Measurement>, hosts: seq<nat>)
    requires |ms| == |hosts| && forall m :: m in ms ==> !m.clock.valid
    ensures StampAll(s, ms, hosts) == Clamp(s.last, Hosts(hosts))
    decreases |ms|
  {
    if ms != [] {
      assert ms[0] in ms;
      UntimedStampsAreClamped(Stamp(s, ms[0], hosts[0]).0, ms[1..], hosts[1..]);
      assert Hosts(hosts)[1..] == Hosts(hosts[1..]);
    }
  }

  function HostValues(arrivals: seq<Arrival>): (vs: seq<Option<nat>>)
    ensures |vs| == |arrivals|
  {
    seq(|arrivals|, i requires 0 <= i < |arrivals| => Some(arrivals[i].hostUs))
  }

  predicate Untimed(inputs: seq<UvcInput>) {
    forall i :: i in inputs && i.read.Parsed? && i.read.frame.kind != ParsedInfo ==>
      !i.read.frame.event.measurement.clock.valid
  }

  lemma UntimedStep(profile: UvcStreamProfile, u: UvcState, i: UvcInput)
    requires profile != Mixed120x90 && u.ready == [] && WellParsed([i]) && Untimed([i])
    ensures var (v, polled) := PollUvc(profile, u, i.read, i.hostUs);
            && v.ready == []
            && if Arrivals([i]) == [] then StampsOf([polled]) == [] && v.stamper == u.stamper
               else && HostValues(Arrivals([i])) == [Some(i.hostUs)]
                    && v.stamper.last == ClampTo(u.stamper.last, i.hostUs) && StampsOf([polled]) == [v.stamper.last]
  {
    assert i in [i] && [i][1..] == [];
    SingleLists(PollUvc(profile, u, i.read, i.hostUs).1);
    hide Combine;
  }

  /** On a profile whose frames carry no device timestamp, the stamps an application sees are the host times of
      the frames put through the clamp. */
  lemma {:induction false} UntimedFramesAreClamped(profile: UvcStreamProfile, u: UvcState, inputs: seq<UvcInput>)
    requires profile != Mixed120x90 && u.ready == [] && WellParsed(inputs) && Untimed(inputs)
    ensures StampsOf(UvcEvents(profile, u, inputs)) == Clamp(u.stamper.last, HostValues(Arrivals(inputs)))
    decreases |inputs|
  {
    if inputs != [] {
      var i, rest := inputs[0], inputs[1..];
      assert i in inputs;
      var (v, polled) := PollUvc(profile, u, i.read, i.hostUs);
      UntimedStep(profile, u, i);
      hide PollUvc;
      UntimedFramesAreClamped(profile, v, rest);
      ListsUnfold(inputs, polled, UvcEvents(profile, v, rest));
      MeasurementInFront(polled, UvcEvents(profile, v, rest));
      MeasurementInFront(polled, []);
      hide Arrivals, StampsOf;
      ClampUnfold(u.stamper.last, Arrivals([i]), Arrivals(rest));
    } else {
      hide Arrivals;
      assert HostValues(Arrivals(inputs)) == [] by {
        NoArrivals(inputs);
      }
    }
  }

  lemma NoArrivals(inputs: seq<UvcInput>)
    requires inputs == []
    ensures Arrivals(inputs) == []
  {
  }

  lemma ClampUnfold(last: nat, first: seq<Arrival>, rest: seq<Arrival>)
    requires |first| <= 1
    ensures Clamp(last, HostValues(first + rest)) ==
            if first == [] then Clamp(last, HostValues(rest))
            else
              var out := ClampTo(last, first[0].hostUs);
              [out] + Clamp(out, HostValues(rest))
  {
    if first == [] {
      assert first + rest == rest;
    } else {
      assert HostValues(first + rest)[1..] == HostValues(rest);
    }
  }

  // ---- Clouds that stay alone

  datatype CloudImages = CloudImages(cloud: PointCloudFrame, confidence: ConfidenceFrame, histogram: HistogramFrame)

  function CloudPart(m: Measurement): CloudImages {
    CloudImages(m.cloud, m.confidence, m.histogram)
  }

  /** The clouds among events that came without a depth, with what else they carry. */
  function LoneClouds(events: seq<SourceEvent>): seq<CloudImages> {
    if events == [] then []
    else
      var m := events[0].measurement;
      (if m.cloud.points != [] && m.depth.data == [] then [CloudPart(m)] else []) + LoneClouds(events[1..])
  }

  /** The clouds no depth directly follows. */
  function Unfollowed(arrivals: seq<Arrival>): seq<CloudImages> {
    if arrivals == [] then []
    else
      (if arrivals[0].cloud && (|arrivals| == 1 || arrivals[1].cloud)
       then [CloudPart(arrivals[0].event.measurement)] else [])
      + Unfollowed(arrivals[1..])
  }

  lemma LoneCloudsCons(e: SourceEvent, rest: seq<SourceEvent>)
    ensures LoneClouds([e] + rest) ==
            (if e.measurement.cloud.points != [] && e.measurement.depth.data == [] then [CloudPart(e.measurement)]
             else []) + LoneClouds(rest)
  {
    assert ([e] + rest)[1..] == rest;
  }

  lemma StampKeepsCloud(s: Stamper, e: SourceEvent, hostUs: nat)
    ensures CloudPart(StampEvent(s, e, hostUs).1.measurement) == CloudPart(e.measurement)
  {
  }

  /** A cloud comes out alone, with its own confidence and histogram, if and only if no depth directly follows it;
      by FusionConserves the others come out with those of the depth. */
  lemma {:induction false} LoneCloudsAreUnfollowed(s: Stamper, arrivals: seq<Arrival>)
    requires Unmixed(arrivals)
    ensures var (out, pending, end) := Fuse(s, arrivals);
            LoneClouds(WithPending(out, pending)) == Unfollowed(arrivals)
    decreases |arrivals|
  {
    if arrivals != [] {
      var a, rest := arrivals[0], arrivals[1..];
      var (next, e) := StampEvent(s, a.event, a.hostUs);
      ArrivedCons(arrivals);
      StampKeepsImages(s, a.event, a.hostUs);
      StampKeepsCloud(s, a.event, a.hostUs);
      hide StampEvent, Combine, Arrived, Unmixed;
      if a.cloud && rest == [] {
        assert [] + [e] == [e] + [];
        LoneCloudsCons(e, []);
      } else if a.cloud && !rest[0].cloud {
        var (out, pending, end) := Fuse(next, rest[1..]);
        ArrivedCons(rest);
        LoneCloudsAreUnfollowed(next, rest[1..]);
        WithPendingCons(Combine(e, rest[0].event), out, pending);
        LoneCloudsCons(Combine(e, rest[0].event), WithPending(out, pending));
      } else {
        var (out, pending, end) := Fuse(next, rest);
        LoneCloudsAreUnfollowed(next, rest);
        WithPendingCons(e, out, pending);
        LoneCloudsCons(e, WithPending(out, pending));
      }
    }
  }
}
