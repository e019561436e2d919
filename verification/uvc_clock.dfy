/** What a UVC session shows of the device's clock, and that on the direct profiles its events are its frames. */
module UvcClock {
  import opened Wrappers
  import opened TimestampNormalizer
  import opened SerialTimelineRuns
  import opened ExactTimelines
  import opened MonotoneClamp
  import opened FrameModel
  import opened UvcSource
  import opened UvcFusion
  import opened EventOrder

  // ---- The frames that are stamped

  /** Every frame but a depth that joins the cloud before it. */
  function Stamped(arrivals: seq<Arrival>): seq<Arrival>
    decreases |arrivals|
  {
    if arrivals == [] then []
    else if arrivals[0].cloud && |arrivals| > 1 && !arrivals[1].cloud then [arrivals[0]] + Stamped(arrivals[2..])
    else [arrivals[0]] + Stamped(arrivals[1..])
  }

  /** The stamps given to frames in turn. */
  function StampFold(s: Stamper, arrivals: seq<Arrival>): (vs: seq<nat>)
    ensures |vs| == |arrivals|
    decreases |arrivals|
  {
    if arrivals == [] then []
    else
      var (next, e) := StampEvent(s, arrivals[0].event, arrivals[0].hostUs);
      [e.measurement.clock.value] + StampFold(next, arrivals[1..])
  }

  lemma CombineKeepsStamp(e: SourceEvent, d: SourceEvent)
    ensures Combine(e, d).measurement.clock == e.measurement.clock
  {
  }

  lemma WithPendingStamps(e: SourceEvent, out: seq<SourceEvent>, pending: Option<SourceEvent>)
    ensures StampValues(WithPending([e] + out, pending)) ==
            [e.measurement.clock.value] + StampValues(WithPending(out, pending))
  {
    WithPendingCons(e, out, pending);
    StampValuesCons(e, WithPending(out, pending));
  }

  /** The stamps of the fused events, and of the waiting cloud after them, are those of the stamped frames. */
  lemma {:induction false} FusionStamps(s: Stamper, arrivals: seq<Arrival>)
    ensures var (out, pending, end) := Fuse(s, arrivals);
            StampValues(WithPending(out, pending)) == StampFold(s, Stamped(arrivals))
    decreases |arrivals|
  {
    if arrivals != [] {
      var a, rest := arrivals[0], arrivals[1..];
      var (next, e) := StampEvent(s, a.event, a.hostUs);
      hide StampEvent, Combine;
      if a.cloud && rest == [] {
        assert [] + [e] == [e] + [];
        StampValuesCons(e, []);
        assert ([a] + Stamped(rest))[1..] == Stamped(rest) == [];
      } else if a.cloud && !rest[0].cloud {
        var (out, pending, end) := Fuse(next, rest[1..]);
        assert rest[1..] == arrivals[2..];
        FusionStamps(next, rest[1..]);
        CombineKeepsStamp(e, rest[0].event);
        WithPendingStamps(Combine(e, rest[0].event), out, pending);
        assert ([a] + Stamped(rest[1..]))[1..] == Stamped(rest[1..]);
      } else {
        var (out, pending, end) := Fuse(next, rest);
        FusionStamps(next, rest);
        WithPendingStamps(e, out, pending);
        assert ([a] + Stamped(rest))[1..] == Stamped(rest);
      }
    } else {
      assert WithPending([], None) == [];
    }
  }

  // ---- A steady device counter

  /** The frames carry these readings of a 32-bit millisecond counter. */
  predicate CarryReadings(arrivals: seq<Arrival>, rs: seq<Reading>) {
    && |arrivals| == |rs|
    && forall i :: 0 <= i < |arrivals| ==> CarriesReading(arrivals[i], rs[i])
  }

  predicate CarriesReading(a: Arrival, r: Reading) {
    && a.event.measurement.clock.valid && a.event.measurement.clock.raw0 == Raw(Counter, r.ms)
    && a.hostUs == r.hostUs
  }

  /** The clamp has not acted: the last stamp is the timeline's. */
  predicate Level(s: Stamper) {
    OnTime(s.timeline) && s.last == s.timeline.lastOutputUs > 0
  }

  lemma StampOnTime(s: Stamper, from: Reading, a: Arrival, r: Reading)
    requires Level(s) && s.timeline.previous.major == Raw(Counter, from.ms) && s.timeline.lastHostUs == from.hostUs
    requires SteadyMilliseconds(from, [r]) && CarriesReading(a, r)
    ensures var (next, e) := StampEvent(s, a.event, a.hostUs);
            && Level(next) && next.last == e.measurement.clock.value == s.last + 1000 * (r.ms - from.ms)
            && next.timeline.previous.major == Raw(Counter, r.ms) && next.timeline.lastHostUs == r.hostUs
  {
    ReadingOnTime(s.timeline, from, r);
    hide Observe, SteadyMilliseconds, Raw, OnTime;
    assert Observation(Counter, r) == Observed(Sample(a.event.measurement.clock.raw0, 0), a.hostUs);
    SteadyStep(from, r);
  }

  lemma SteadyStep(from: Reading, r: Reading)
    requires SteadyMilliseconds(from, [r])
    ensures r.ms > from.ms
  {
  }

  lemma FirstStampOnTime(a: Arrival, r: Reading)
    requires CarriesReading(a, r) && r.hostUs > 0
    ensures var (next, e) := StampEvent(FRESH_STAMPER, a.event, a.hostUs);
            && Level(next) && next.last == e.measurement.clock.value == r.hostUs
            && next.timeline.previous.major == Raw(Counter, r.ms) && next.timeline.lastHostUs == r.hostUs
  {
    hide Raw;
  }

  lemma SteadyReadings(from: Reading, rs: seq<Reading>)
    requires rs != [] && SteadyMilliseconds(from, rs)
    ensures SteadyMilliseconds(from, [rs[0]]) && SteadyMilliseconds(rs[0], rs[1..])
  {
    assert [rs[0]][1..] == [];
  }

  lemma {:induction false} FoldReproduces(s: Stamper, from: Reading, arrivals: seq<Arrival>, rs: seq<Reading>)
    requires Level(s) && s.timeline.previous.major == Raw(Counter, from.ms) && s.timeline.lastHostUs == from.hostUs
    requires SteadyMilliseconds(from, rs) && CarryReadings(arrivals, rs)
    ensures forall i :: 0 <= i < |rs| ==> StampFold(s, arrivals)[i] == s.last + 1000 * (rs[i].ms - from.ms)
    decreases |rs|
  {
    if rs != [] {
      var (next, e) := StampEvent(s, arrivals[0].event, arrivals[0].hostUs);
      SteadyReadings(from, rs);
      assert CarriesReading(arrivals[0], rs[0]);
      StampOnTime(s, from, arrivals[0], rs[0]);
      hide StampEvent, Level, Raw, SteadyMilliseconds, CarriesReading;
      FoldReproduces(next, rs[0], arrivals[1..], rs[1..]);
    }
  }

  /** What a steady counter should be stamped: the host time of the first frame plus the true elapsed time. */
  predicate StampedExactly(stamps: seq<nat>, rs: seq<Reading>) {
    |stamps| <= |rs| && forall i :: 0 <= i < |stamps| ==> stamps[i] == rs[0].hostUs + 1000 * (rs[i].ms - rs[0].ms)
  }

  lemma {:induction false} FreshFoldReproduces(arrivals: seq<Arrival>, rs: seq<Reading>)
    requires rs != [] && rs[0].hostUs > 0 && SteadyMilliseconds(rs[0], rs[1..]) && CarryReadings(arrivals, rs)
    ensures StampedExactly(StampFold(FRESH_STAMPER, arrivals), rs)
  {
    var (next, e) := StampEvent(FRESH_STAMPER, arrivals[0].event, arrivals[0].hostUs);
    assert CarriesReading(arrivals[0], rs[0]);
    FirstStampOnTime(arrivals[0], rs[0]);
    assert StampFold(FRESH_STAMPER, arrivals) == [e.measurement.clock.value] + StampFold(next, arrivals[1..]);
    hide StampEvent, Level, Raw, SteadyMilliseconds, CarriesReading, StampFold;
    FoldReproduces(next, rs[0], arrivals[1..], rs[1..]);
    forall i | 0 < i < |rs|
      ensures StampFold(FRESH_STAMPER, arrivals)[i] == rs[0].hostUs + 1000 * (rs[i].ms - rs[0].ms)
    {
      assert rs[i] == rs[1..][i - 1];
    }
  }

  // ---- Sessions

  lemma {:induction false} DirectStamps(profile: UvcStreamProfile, u: UvcState, inputs: seq<UvcInput>)
    requires profile != Mixed120x90 && u.ready == [] && WellParsed(inputs)
    ensures StampsOf(UvcEvents(profile, u, inputs)) == StampFold(u.stamper, Arrivals(inputs))
    decreases |inputs|
  {
    if inputs != [] {
      var i, rest := inputs[0], inputs[1..];
      assert i in inputs;
      var (v, polled) := PollUvc(profile, u, i.read, i.hostUs);
      DirectPoll(profile, u, i);
      hide PollUvc, StampEvent;
      DirectStamps(profile, v, rest);
      MeasurementInFront(polled, UvcEvents(profile, v, rest));
      if i.read.Parsed? && i.read.frame.kind != ParsedInfo {
        var a := Arrival(i.read.frame.kind == ParsedCloud, i.read.frame.event, i.hostUs);
        assert ([a] + Arrivals(rest))[1..] == Arrivals(rest);
      } else {
        assert [] + Arrivals(rest) == Arrivals(rest);
        assert [] + StampsOf(UvcEvents(profile, v, rest)) == StampsOf(UvcEvents(profile, v, rest));
      }
    }
  }

  lemma DirectPoll(profile: UvcStreamProfile, u: UvcState, i: UvcInput)
    requires profile != Mixed120x90 && u.ready == [] && WellParsed([i])
    ensures var (v, polled) := PollUvc(profile, u, i.read, i.hostUs);
            && v.ready == []
            && if i.read.Parsed? && i.read.frame.kind != ParsedInfo then
                 var (next, e) := StampEvent(u.stamper, i.read.frame.event, i.hostUs);
                 v.stamper == next && polled == Event(e) && e.kind == MeasurementEvent
               else v.stamper == u.stamper && !(polled.Event? && polled.event.kind == MeasurementEvent)
  {
    assert i in [i];
    if i.read.Parsed? {
      StampKeepsKind(u.stamper, i.read.frame.event, i.hostUs);
    }
    hide StampEvent, Combine;
  }

  /** End to end on UVC: when the frames that are stamped carry a steady 32-bit millisecond counter, the stamps of the
      session reproduce it exactly from the host time of the first one, on the direct profiles for every frame, and on
      the mixed stream for every fused event and the cloud still waiting. By ShortMillisecondGapsAreSteady, gaps of at
      most 5 seconds are steady whatever the host clock does. */
  lemma {:induction false} CounterIsReproduced(profile: UvcStreamProfile, inputs: seq<UvcInput>, rs: seq<Reading>)
    requires WellParsed(inputs) && rs != [] && rs[0].hostUs > 0 && SteadyMilliseconds(rs[0], rs[1..])
    ensures var stamps := StampsOf(UvcEvents(profile, FRESH_UVC, inputs));
            var pending := FinalUvc(profile, FRESH_UVC, inputs).pending;
            if profile == Mixed120x90 then
              CarryReadings(Stamped(Arrivals(inputs)), rs) ==>
                && StampedExactly(stamps, rs)
                && |stamps| == (if pending.Some? then |rs| - 1 else |rs|)
                && (pending.Some? ==> StampedExactly(stamps + [pending.value.measurement.clock.value], rs))
            else
              CarryReadings(Arrivals(inputs), rs) ==> |stamps| == |rs| && StampedExactly(stamps, rs)
  {
    if profile == Mixed120x90 {
      if CarryReadings(Stamped(Arrivals(inputs)), rs) {
        MixedRefinesFusion(inputs);
        var (out, pending, end) := Fuse(FRESH_STAMPER, Arrivals(inputs));
        hide Fuse, UvcEvents, FinalUvc, Arrivals, Stamped, StampFold, CarryReadings, SteadyMilliseconds;
        FusionStamps(FRESH_STAMPER, Arrivals(inputs));
        FreshFoldReproduces(Stamped(Arrivals(inputs)), rs);
        PendingLast(out, pending);
      }
    } else if CarryReadings(Arrivals(inputs), rs) {
      DirectStamps(profile, FRESH_UVC, inputs);
      FreshFoldReproduces(Arrivals(inputs), rs);
    }
  }

  lemma PendingLast(out: seq<SourceEvent>, pending: Option<SourceEvent>)
    ensures StampValues(WithPending(out, pending)) ==
            StampValues(out) + if pending.Some? then [pending.value.measurement.clock.value] else []
  {
  }

  // ---- On the direct profiles events are frames

  /** The event shows the frame, with its timestamp filled in. */
  predicate ShowsFrame(e: SourceEvent, f: SourceEvent) {
    && e.(measurement := f.measurement) == f
    && e.measurement.(clock := f.measurement.clock) == f.measurement
    && e.measurement.clock.valid && e.measurement.clock.unit == Microseconds
    && e.measurement.clock.raw0 == (if f.measurement.clock.valid then f.measurement.clock.raw0 else 0)
    && e.measurement.clock.raw1 == (if f.measurement.clock.valid then f.measurement.clock.raw1 else 0)
  }

  lemma StampShows(s: Stamper, f: SourceEvent, hostUs: nat)
    ensures ShowsFrame(StampEvent(s, f, hostUs).1, f)
  {
    hide Observe;
  }

  predicate AllShow(ms: seq<SourceEvent>, arrivals: seq<Arrival>) {
    |ms| == |arrivals| && forall i :: 0 <= i < |ms| ==> ShowsFrame(ms[i], arrivals[i].event)
  }

  lemma AllShowAppend(ms: seq<SourceEvent>, arrivals: seq<Arrival>, ms': seq<SourceEvent>, arrivals': seq<Arrival>)
    requires AllShow(ms, arrivals) && AllShow(ms', arrivals')
    ensures AllShow(ms + ms', arrivals + arrivals')
  {
    hide ShowsFrame;
  }

  /** On a direct profile the measurements are the frames that arrived, each once, in order. */
  lemma {:induction false} DirectEventsShowFrames(profile: UvcStreamProfile, u: UvcState, inputs: seq<UvcInput>)
    requires profile != Mixed120x90 && u.ready == [] && WellParsed(inputs)
    ensures AllShow(Measurements(UvcEvents(profile, u, inputs)), Arrivals(inputs))
    decreases |inputs|
  {
    if inputs != [] {
      var i, rest := inputs[0], inputs[1..];
      assert i in inputs;
      assert WellParsed([i]) && WellParsed(rest);
      var (v, polled) := PollUvc(profile, u, i.read, i.hostUs);
      var others := UvcEvents(profile, v, rest);
      assert UvcEvents(profile, u, inputs) == [polled] + others;
      DirectPoll(profile, u, i);
      hide *;
      DirectPollShows(profile, u, i);
      DirectEventsShowFrames(profile, v, rest);
      ListsUnfold(inputs, polled, others);
      AllShowAppend(Measurements([polled]), Arrivals([i]), Measurements(others), Arrivals(rest));
    }
  }

  lemma DirectPollShows(profile: UvcStreamProfile, u: UvcState, i: UvcInput)
    requires profile != Mixed120x90 && u.ready == [] && WellParsed([i])
    ensures AllShow(Measurements([PollUvc(profile, u, i.read, i.hostUs).1]), Arrivals([i]))
  {
    assert [i][1..] == [];
    DirectPoll(profile, u, i);
    SingleLists(PollUvc(profile, u, i.read, i.hostUs).1);
    if i.read.Parsed? {
      StampShows(u.stamper, i.read.frame.event, i.hostUs);
    }
    hide PollUvc, StampEvent, ShowsFrame;
  }

  /** Info frames are passed on in order. */
  lemma {:induction false} DirectInfos(profile: UvcStreamProfile, u: UvcState, inputs: seq<UvcInput>)
    requires profile != Mixed120x90 && u.ready == [] && WellParsed(inputs)
    ensures Infos(UvcEvents(profile, u, inputs)) == InfoArrivals(inputs)
    decreases |inputs|
  {
    if inputs != [] {
      var i, rest := inputs[0], inputs[1..];
      assert i in inputs;
      var (v, polled) := PollUvc(profile, u, i.read, i.hostUs);
      DirectInfo(profile, u, i);
      hide PollUvc;
      DirectInfos(profile, v, rest);
      var others := UvcEvents(profile, v, rest);
      assert ([polled] + others)[1..] == others;
    }
  }

  lemma DirectInfo(profile: UvcStreamProfile, u: UvcState, i: UvcInput)
    requires profile != Mixed120x90 && u.ready == [] && WellParsed([i])
    ensures var (v, polled) := PollUvc(profile, u, i.read, i.hostUs);
            && v.ready == []
            && if i.read.Parsed? && i.read.frame.kind == ParsedInfo then polled == Event(i.read.frame.event)
               else !(polled.Event? && polled.event.kind == InfoUpdate)
    ensures i.read.Parsed? && i.read.frame.kind == ParsedInfo ==> i.read.frame.event.kind == InfoUpdate
  {
    assert i in [i];
    if i.read.Parsed? {
      StampKeepsKind(u.stamper, i.read.frame.event, i.hostUs);
    }
    hide StampEvent, Combine;
  }

  /** On every profile each poll gives one result, a failure exactly when reading the device failed. */
  lemma {:induction false} FailuresAreReported(profile: UvcStreamProfile, u: UvcState, inputs: seq<UvcInput>)
    requires u.ready == []
    ensures var polled := UvcEvents(profile, u, inputs);
            |polled| == |inputs| &&
            forall i :: 0 <= i < |inputs| ==> (polled[i].Failed? <==> inputs[i].read == ReadError)
    decreases |inputs|
  {
    if inputs != [] {
      PollCounts(profile, u, inputs[0]);
      hide StampEvent, Combine;
      FailuresAreReported(profile, PollUvc(profile, u, inputs[0].read, inputs[0].hostUs).0, inputs[1..]);
    }
  }

  // ---- Counters

  function ParsedCount(inputs: seq<UvcInput>): nat {
    if inputs == [] then 0 else (if inputs[0].read.Parsed? then 1 else 0) + ParsedCount(inputs[1..])
  }

  function UnparseableCount(inputs: seq<UvcInput>): nat {
    if inputs == [] then 0 else (if inputs[0].read.Unparseable? then 1 else 0) + UnparseableCount(inputs[1..])
  }

  /** The error of the last payload, none if that was parsed. */
  function LastUvcError(error: string, inputs: seq<UvcInput>): string {
    if inputs == [] then error
    else
      var last := inputs[|inputs| - 1].read;
      if last.Parsed? then "" else if last.Unparseable? then last.error
      else LastUvcError(error, inputs[..|inputs| - 1])
  }

  lemma {:induction false} LastUvcErrorCons(error: string, inputs: seq<UvcInput>)
    requires inputs != []
    ensures LastUvcError(error, inputs) == LastUvcError(LastUvcError(error, [inputs[0]]), inputs[1..])
    decreases |inputs|
  {
    var n := |inputs| - 1;
    if n == 0 {
      assert inputs == [inputs[0]];
    } else {
      LastUvcErrorCons(error, inputs[..n]);
      assert inputs[..n][1..] == inputs[1..][..n - 1] && inputs[1..][n - 1] == inputs[n];
    }
  }

  lemma PollCounts(profile: UvcStreamProfile, u: UvcState, i: UvcInput)
    requires u.ready == []
    ensures var v := PollUvc(profile, u, i.read, i.hostUs).0;
            && v.ready == []
            && v.okPackets == u.okPackets + (if i.read.Parsed? then 1 else 0)
            && v.parseFailures == u.parseFailures + (if i.read.Unparseable? then 1 else 0)
            && v.lastError == LastUvcError(u.lastError, [i])
  {
    assert [i][..0] == [];
    hide StampEvent, Combine;
  }

  /** Every parsed and every unparseable payload is counted, on every profile, and the reported error is that of the
      last one. */
  lemma {:induction false} PayloadsAreCounted(profile: UvcStreamProfile, u: UvcState, inputs: seq<UvcInput>)
    requires u.ready == []
    ensures var end := FinalUvc(profile, u, inputs);
            && end.okPackets == u.okPackets + ParsedCount(inputs)
            && end.parseFailures == u.parseFailures + UnparseableCount(inputs)
            && end.lastError == LastUvcError(u.lastError, inputs)
    decreases |inputs|
  {
    if inputs != [] {
      PollCounts(profile, u, inputs[0]);
      hide PollUvc;
      PayloadsAreCounted(profile, PollUvc(profile, u, inputs[0].read, inputs[0].hostUs).0, inputs[1..]);
      LastUvcErrorCons(u.lastError, inputs);
    }
  }
}
