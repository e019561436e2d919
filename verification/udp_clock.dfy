/** What a UDP session shows of the device's clock, and that its events are its datagrams. */
module UdpClock {
  import opened Wrappers
  import opened TimestampNormalizer
  import opened TimelineRuns
  import opened ExactTimelines
  import opened MonotoneClamp
  import opened FrameModel
  import opened EventOrder
  import opened UdpSource

  // ---- Epoch times

  /** Fields form an epoch time exactly from 2000-01-01 through the first second of 2100, with legal nanoseconds. */
  predicate EpochFields(seconds: U32, nanoseconds: U32) {
    946_684_800 <= seconds <= 4_102_444_800 && nanoseconds <= 999_999_999
  }

  lemma {:induction false} EpochLegalExactly(seconds: U32, nanoseconds: U32)
    ensures EpochSecondsNanosecondsToUs(seconds, nanoseconds).Some? <==> EpochFields(seconds, nanoseconds)
  {
  }

  predicate EpochTime(ns: nat) {
    946_684_800_000_000_000 <= ns < 4_102_444_801_000_000_000
  }

  /** The fields of a true epoch time give that time in whole microseconds. */
  lemma {:induction false} EpochOfTrueTime(ns: nat)
    requires EpochTime(ns)
    ensures var x := DeviceSample(ns);
            EpochSecondsNanosecondsToUs(x.major, x.minor) == Some(ns / 1000)
  {
    var seconds, minor := ns / 1_000_000_000, ns % 1_000_000_000;
    assert ns == seconds * 1_000_000_000 + minor;
    assert 946_684_800 <= seconds <= 4_102_444_800;
    MicrosOfFields(seconds, minor);
  }

  lemma MicrosOfFields(seconds: int, minor: int)
    ensures (seconds * 1_000_000_000 + minor) / 1000 == seconds * 1_000_000 + minor / 1000
  {
  }

  /** Epoch mode is chosen exactly when the first packet's fields form an epoch time within 5 seconds of the host's. */
  lemma {:induction false} EpochModeExactly(p: Packet)
    ensures NextMode(Unknown, p) == Epoch <==>
            && EpochFields(p.seconds, p.nanoseconds)
            && -5_000_000 <= p.seconds * 1_000_000 + p.nanoseconds / 1000 - p.nowUs <= 5_000_000
    ensures NextMode(Unknown, p) != Unknown
  {
    EpochLegalExactly(p.seconds, p.nanoseconds);
  }

  /** Fields that the mode cannot use ask for the next microsecond, or the clock when nothing was stamped yet, and leave
      the second normalizer alone. */
  lemma {:induction false} UnusableFields(s: UdpStamper, p: Packet)
    requires if NextMode(s.mode, p) == Epoch then !EpochFields(p.seconds, p.nanoseconds)
             else p.nanoseconds >= 1_000_000_000
    ensures var next := StampPacket(s, p);
            && next.last == (if s.last == 0 then p.laterUs else s.last + 1)
            && next.timeline == s.timeline && next.mode == NextMode(s.mode, p)
  {
    EpochLegalExactly(p.seconds, p.nanoseconds);
    hide EpochSecondsNanosecondsToUs, Observe, IsNearHostEpoch;
  }

  // ---- The stamps of a session

  /** The packets carry these true times. */
  predicate CarryTimes(ps: seq<Packet>, times: seq<nat>) {
    && |ps| == |times|
    && forall i :: 0 <= i < |ps| ==> Sample(ps[i].seconds, ps[i].nanoseconds) == DeviceSample(times[i])
  }

  predicate EpochTimes(times: seq<nat>) {
    && (forall i :: 0 <= i < |times| ==> EpochTime(times[i]))
    && forall i :: 0 < i < |times| ==> times[i] >= times[i - 1] + 1000
  }

  function Micros(times: seq<nat>): (us: seq<nat>)
    ensures |us| == |times|
  {
    seq(|times|, i requires 0 <= i < |times| => times[i] / 1000)
  }

  /** The clamp leaves an increasing sequence alone. */
  lemma {:induction false} ClampOfIncreasing(last: nat, vs: seq<Option<nat>>, us: seq<nat>)
    requires |vs| == |us| && forall i :: 0 <= i < |vs| ==> vs[i] == Some(us[i])
    requires us != [] ==> last < us[0]
    requires forall i :: 0 < i < |us| ==> us[i - 1] < us[i]
    ensures Clamp(last, vs) == us
    decreases |vs|
  {
    if vs != [] {
      assert |us| > 1 ==> us[1 - 1] < us[1];
      ClampOfIncreasing(us[0], vs[1..], us[1..]);
    }
  }

  lemma MicrosIncrease(a: nat, b: nat)
    requires b >= a + 1000
    ensures a / 1000 < b / 1000
  {
  }

  lemma EpochRunIsExact(ps: seq<Packet>, times: seq<nat>)
    requires ps != [] && CarryTimes(ps, times) && EpochTimes(times)
    ensures Clamp(0, EpochValues(ps)) == Micros(times)
  {
    var us := Micros(times);
    forall i | 0 <= i < |ps|
      ensures EpochValues(ps)[i] == Some(us[i])
    {
      EpochOfTrueTime(times[i]);
      hide EpochSecondsNanosecondsToUs, DeviceSample;
      assert Sample(ps[i].seconds, ps[i].nanoseconds) == DeviceSample(times[i]);
    }
    forall i | 0 < i < |us|
      ensures us[i - 1] < us[i]
    {
      MicrosIncrease(times[i - 1], times[i]);
    }
    ClampOfIncreasing(0, EpochValues(ps), us);
  }

  /** A session that begins within 5 seconds of the host's clock stamps every datagram with its own time, when they are
      at least a microsecond apart. */
  lemma {:induction false} EpochSessionIsExact(inputs: seq<UdpInput>, times: seq<nat>)
    requires Timed(inputs) && times != [] && EpochTimes(times)
    ensures var ps := PacketsOf(inputs);
            CarryTimes(ps, times) && -5_000_000 <= times[0] / 1000 - ps[0].nowUs <= 5_000_000 ==>
              StampsOf(UdpEvents(FRESH_UDP, inputs)) == Micros(times)
  {
    var ps := PacketsOf(inputs);
    if CarryTimes(ps, times) && -5_000_000 <= times[0] / 1000 - ps[0].nowUs <= 5_000_000 {
      EpochOfTrueTime(times[0]);
      FirstIsEpoch(ps[0], times[0]);
      hide *;
      CarriesSome(ps, times);
      SessionStamps(inputs);
      EpochRunIsExact(ps, times);
    }
  }

  lemma CarriesSome(ps: seq<Packet>, times: seq<nat>)
    requires CarryTimes(ps, times) && times != []
    ensures ps != []
  {
  }

  lemma FirstIsEpoch(p: Packet, ns: nat)
    requires Sample(p.seconds, p.nanoseconds) == DeviceSample(ns) && EpochTime(ns)
    requires -5_000_000 <= ns / 1000 - p.nowUs <= 5_000_000
    ensures NextMode(Unknown, p) == Epoch
  {
    EpochOfTrueTime(ns);
    hide EpochSecondsNanosecondsToUs, DeviceSample;
  }

  /** The packets carry the ticks of a device clock. */
  predicate CarryTicks(ps: seq<Packet>, ts: seq<Tick>) {
    && |ps| == |ts|
    && forall i :: 0 <= i < |ps| ==>
         Sample(ps[i].seconds, ps[i].nanoseconds) == DeviceSample(ts[i].ns) && ps[i].laterUs == ts[i].hostUs
  }

  lemma {:induction false} TicksOfPackets(ps: seq<Packet>, ts: seq<Tick>)
    requires CarryTicks(ps, ts)
    ensures Ticks(ts) == seq(|ps|, i requires 0 <= i < |ps| =>
              Observed(Sample(ps[i].seconds, ps[i].nanoseconds), ps[i].laterUs))
    decreases |ps|
  {
    hide DeviceSample;
    if ps != [] {
      TicksOfPackets(ps[1..], ts[1..]);
    }
  }

  lemma LegalNanoseconds(ps: seq<Packet>, ts: seq<Tick>)
    requires CarryTicks(ps, ts)
    ensures forall p :: p in ps ==> p.nanoseconds < 1_000_000_000
  {
    forall p | p in ps
      ensures p.nanoseconds < 1_000_000_000
    {
      var i :| 0 <= i < |ps| && ps[i] == p;
      assert Sample(ps[i].seconds, ps[i].nanoseconds) == DeviceSample(ts[i].ns);
    }
  }

  lemma FirstTickOnTime(t: Tick)
    requires t.hostUs > 0
    ensures var s := Observe(Second, Fresh(0), Observed(DeviceSample(t.ns), t.hostUs));
            && OnTime(s) && s.lastOutputUs == t.hostUs
            && s.previous == DeviceSample(t.ns) && s.lastHostUs == t.hostUs
  {
    hide DeviceSample;
  }

  /** A run of a fresh second normalizer over a steady clock. */
  lemma {:induction false} FreshTicksReproduced(ts: seq<Tick>)
    requires ts != [] && ts[0].hostUs > 0 && SteadySeconds(ts[0], ts[1..])
    ensures var outputs := Outputs(Second, Fresh(0), Ticks(ts));
            && |outputs| == |ts|
            && forall i :: 0 <= i < |ts| ==> outputs[i] == ts[0].hostUs + ElapsedUs(ts[0].ns, ts[i].ns)
  {
    var s := Observe(Second, Fresh(0), Observed(DeviceSample(ts[0].ns), ts[0].hostUs));
    FirstTickOnTime(ts[0]);
    FreshUnfold(ts);
    hide Observe, DeviceSample, SteadySeconds, Ticks, Outputs;
    SecondsReproduced(s, ts[0], ts[1..]);
    forall i | 0 < i < |ts|
      ensures Outputs(Second, Fresh(0), Ticks(ts))[i] == ts[0].hostUs + ElapsedUs(ts[0].ns, ts[i].ns)
    {
      assert ts[i] == ts[1..][i - 1];
    }
  }

  lemma FreshUnfold(ts: seq<Tick>)
    requires ts != []
    ensures var next := Observe(Second, Fresh(0), Observed(DeviceSample(ts[0].ns), ts[0].hostUs));
            Outputs(Second, Fresh(0), Ticks(ts)) == [next.lastOutputUs] + Outputs(Second, next, Ticks(ts[1..]))
  {
    TicksUnfold(Fresh(0), ts);
  }

  /** A session in relative mode reproduces a steady device clock exactly from the host time of the first datagram,
      through any number of wraps of the seconds; by ShortGapsAreSteady, whatever the host clock does when the gaps
      are at most 5 seconds. */
  lemma {:induction false} RelativeSessionIsExact(inputs: seq<UdpInput>, ts: seq<Tick>)
    requires Timed(inputs) && ts != [] && SteadySeconds(ts[0], ts[1..])
    ensures var ps, stamps := PacketsOf(inputs), StampsOf(UdpEvents(FRESH_UDP, inputs));
            CarryTicks(ps, ts) && NextMode(Unknown, ps[0]) == Relative ==>
              && |stamps| == |ts|
              && forall i :: 0 <= i < |ts| ==> stamps[i] == ts[0].hostUs + ElapsedUs(ts[0].ns, ts[i].ns)
  {
    var ps := PacketsOf(inputs);
    if CarryTicks(ps, ts) && NextMode(Unknown, ps[0]) == Relative {
      PacketsTimed(inputs);
      assert ps[0] in ps && ps[0].laterUs == ts[0].hostUs > 0;
      hide *;
      TicksOfPackets(ps, ts);
      LegalNanoseconds(ps, ts);
      CarriesTicks(ps, ts);
      SessionStamps(inputs);
      FreshTicksReproduced(ts);
    }
  }

  lemma CarriesTicks(ps: seq<Packet>, ts: seq<Tick>)
    requires CarryTicks(ps, ts) && ts != []
    ensures ps != []
  {
  }

  // ---- Events are datagrams

  function AcceptedOf(inputs: seq<UdpInput>): seq<(Measurement, DeviceInfo)> {
    if inputs == [] then []
    else
      var d := inputs[0].datagram;
      (if d.Accepted? then [(d.measurement, d.info)] else []) + AcceptedOf(inputs[1..])
  }

  /** The event shows the datagram, with only the value and unit of a valid timestamp filled in. */
  predicate ShowsDatagram(e: SourceEvent, d: (Measurement, DeviceInfo)) {
    && e.kind == MeasurementEvent && e.info == d.1 && e.calibration == None && e.integrityName == "udp"
    && e.measurement.(clock := d.0.clock) == d.0
    && e.measurement.clock.valid == d.0.clock.valid
    && e.measurement.clock.raw0 == d.0.clock.raw0 && e.measurement.clock.raw1 == d.0.clock.raw1
    && (if d.0.clock.valid then e.measurement.clock.unit == Microseconds else e.measurement.clock == d.0.clock)
  }

  lemma PollShows(u: UdpState, i: UdpInput)
    ensures var polled := PollUdp(u, i.datagram, i.nowUs, i.laterUs).1;
            if i.datagram.Accepted?
            then polled.Event? && ShowsDatagram(polled.event, (i.datagram.measurement, i.datagram.info))
            else polled.Failed? || polled.event.kind == NoEvent
  {
    hide StampPacket;
  }

  /** The measurements of a session are its accepted datagrams, each once, in order. */
  lemma {:induction false} EventsShowDatagrams(u: UdpState, inputs: seq<UdpInput>)
    ensures var ms, ds := Measurements(UdpEvents(u, inputs)), AcceptedOf(inputs);
            |ms| == |ds| && forall i :: 0 <= i < |ms| ==> ShowsDatagram(ms[i], ds[i])
    decreases |inputs|
  {
    if inputs != [] {
      var i := inputs[0];
      var (v, polled) := PollUdp(u, i.datagram, i.nowUs, i.laterUs);
      PollShows(u, i);
      hide PollUdp, ShowsDatagram;
      EventsShowDatagrams(v, inputs[1..]);
      MeasurementsCons(polled, UdpEvents(v, inputs[1..]));
    }
  }

  /** Each poll gives one result, a failure exactly when receiving failed. */
  lemma {:induction false} FailuresAreReported(u: UdpState, inputs: seq<UdpInput>)
    ensures var polled := UdpEvents(u, inputs);
            |polled| == |inputs| &&
            forall i :: 0 <= i < |inputs| ==> (polled[i].Failed? <==> inputs[i].datagram == ReceiveError)
    decreases |inputs|
  {
    if inputs != [] {
      hide StampPacket;
      FailuresAreReported(PollUdp(u, inputs[0].datagram, inputs[0].nowUs, inputs[0].laterUs).0, inputs[1..]);
    }
  }

  // ---- Counters

  function FinalUdp(u: UdpState, inputs: seq<UdpInput>): UdpState
    decreases |inputs|
  {
    if inputs == [] then u
    else FinalUdp(PollUdp(u, inputs[0].datagram, inputs[0].nowUs, inputs[0].laterUs).0, inputs[1..])
  }

  function RejectedCount(inputs: seq<UdpInput>): nat {
    if inputs == [] then 0 else (if inputs[0].datagram.Rejected? then 1 else 0) + RejectedCount(inputs[1..])
  }

  /** The error of the last datagram, none if that was accepted. */
  function LastUdpError(error: string, inputs: seq<UdpInput>): string {
    if inputs == [] then error
    else
      var last := inputs[|inputs| - 1].datagram;
      if last.Accepted? then "" else if last.Rejected? then last.error
      else LastUdpError(error, inputs[..|inputs| - 1])
  }

  lemma {:induction false} LastErrorCons(error: string, inputs: seq<UdpInput>)
    requires inputs != []
    ensures LastUdpError(error, inputs) == LastUdpError(LastUdpError(error, [inputs[0]]), inputs[1..])
    decreases |inputs|
  {
    var n := |inputs| - 1;
    if n == 0 {
      assert inputs == [inputs[0]];
    } else {
      LastErrorCons(error, inputs[..n]);
      assert inputs[..n][1..] == inputs[1..][..n - 1] && inputs[1..][n - 1] == inputs[n];
    }
  }

  /** Every accepted and every rejected datagram is counted, and the reported error is that of the last one. */
  lemma {:induction false} DatagramsAreCounted(u: UdpState, inputs: seq<UdpInput>)
    ensures var end := FinalUdp(u, inputs);
            && end.okPackets == u.okPackets + |AcceptedOf(inputs)|
            && end.parseFailures == u.parseFailures + RejectedCount(inputs)
            && end.lastError == LastUdpError(u.lastError, inputs)
    decreases |inputs|
  {
    if inputs != [] {
      var i := inputs[0];
      var v := PollUdp(u, i.datagram, i.nowUs, i.laterUs).0;
      hide StampPacket;
      assert [i][..0] == [];
      assert v.lastError == LastUdpError(u.lastError, [i]);
      DatagramsAreCounted(v, inputs[1..]);
      LastErrorCons(u.lastError, inputs);
    }
  }
}
