/** The UDP source: a timestamp mode chosen by the first packet and kept for the session. */
module UdpSource {
  import opened Wrappers
  import opened TimestampNormalizer
  import opened TimelineRuns
  import opened MonotoneClamp
  import opened FrameModel
  import opened EventOrder

  const MAX_TRUSTED_EPOCH_SKEW_US := 5 * US_PER_SECOND

  datatype UdpMode = Unknown | Epoch | Relative

  datatype UdpStamper = UdpStamper(mode: UdpMode, timeline: Timeline, last: nat)

  const FRESH_UDP_STAMPER := UdpStamper(Unknown, Fresh(0), 0)

  /** A packet's timestamp fields, with the system clock read for the epoch test and the one read afterwards. */
  datatype Packet = Packet(seconds: U32, nanoseconds: U32, nowUs: nat, laterUs: nat)

  function NextMode(mode: UdpMode, p: Packet): UdpMode {
    if mode != Unknown then mode
    else
      var epoch := EpochSecondsNanosecondsToUs(p.seconds, p.nanoseconds);
      if epoch.Some? && IsNearHostEpoch(epoch.value, p.nowUs, MAX_TRUSTED_EPOCH_SKEW_US) then Epoch else Relative
  }

  function StampPacket(s: UdpStamper, p: Packet): UdpStamper {
    var mode := NextMode(s.mode, p);
    var epoch := EpochSecondsNanosecondsToUs(p.seconds, p.nanoseconds);
    if mode == Epoch && epoch.Some? then UdpStamper(mode, s.timeline, ClampTo(s.last, epoch.value))
    else if mode == Relative && p.nanoseconds < 1_000_000_000 then
      var timeline := Observe(Second, s.timeline, Observed(Sample(p.seconds, p.nanoseconds), p.laterUs));
      UdpStamper(mode, timeline, ClampTo(s.last, timeline.lastOutputUs))
    else UdpStamper(mode, s.timeline, if s.last == 0 then p.laterUs else s.last + 1)
  }

  /** What receiving and parsing a datagram gave. */
  datatype Datagram =
    ReceiveError | NoDatagram | Rejected(error: string) | Accepted(measurement: Measurement, info: DeviceInfo)

  datatype UdpState = UdpState(stamper: UdpStamper, okPackets: nat, parseFailures: nat, lastError: string)

  const FRESH_UDP := UdpState(FRESH_UDP_STAMPER, 0, 0, "")

  function PacketOf(m: Measurement, nowUs: nat, laterUs: nat): Packet {
    Packet(m.clock.raw0, m.clock.raw1, nowUs, laterUs)
  }

  function PollUdp(u: UdpState, d: Datagram, nowUs: nat, laterUs: nat): (UdpState, Polled) {
    match d
    case ReceiveError => (u, Failed)
    case NoDatagram => (u, Event(NOTHING))
    case Rejected(error) => (u.(parseFailures := u.parseFailures + 1, lastError := error), Event(NOTHING))
    case Accepted(m, info) =>
      var stamper := if m.clock.valid then StampPacket(u.stamper, PacketOf(m, nowUs, laterUs)) else u.stamper;
      var stamped := if m.clock.valid then m.(clock := m.clock.(value := stamper.last, unit := Microseconds)) else m;
      (UdpState(stamper, u.okPackets + 1, u.parseFailures, ""),
       Event(SourceEvent(MeasurementEvent, info, None, stamped, "udp")))
  }

  class UdpPacketSource {
    const relativeTimestampNormalizer: RelativeSecondNormalizer
    var timestampMode: UdpMode
    var lastTimestampUs: nat
    var okPacketCount: nat
    var parseFailureCount: nat
    var lastError: string

    ghost predicate Valid()
      reads this, relativeTimestampNormalizer
    {
      relativeTimestampNormalizer.Valid()
    }

    function Stamping(): UdpStamper
      reads this, relativeTimestampNormalizer
    {
      UdpStamper(timestampMode, relativeTimestampNormalizer.State(), lastTimestampUs)
    }

    function State(): UdpState
      reads this, relativeTimestampNormalizer
    {
      UdpState(Stamping(), okPacketCount, parseFailureCount, lastError)
    }

    constructor ()
      ensures Valid() && State() == FRESH_UDP && fresh(relativeTimestampNormalizer)
    {
      relativeTimestampNormalizer := new RelativeSecondNormalizer(0);
      timestampMode, lastTimestampUs, okPacketCount, parseFailureCount, lastError := Unknown, 0, 0, 0, "";
    }

    /** nowUs and laterUs are the readings of the system clock, in order. */
    method NormalizeTimestamp(m: Measurement, nowUs: nat, laterUs: nat) returns (r: Measurement)
      requires Valid()
      modifies this`timestampMode, this`lastTimestampUs, relativeTimestampNormalizer
      ensures Valid()
      ensures if m.clock.valid
              then && Stamping() == StampPacket(old(Stamping()), PacketOf(m, nowUs, laterUs))
                   && r == m.(clock := m.clock.(value := lastTimestampUs, unit := Microseconds))
              else Stamping() == old(Stamping()) && r == m
    {
      if !m.clock.valid {
        return m;
      }
      var seconds, nanoseconds := m.clock.raw0, m.clock.raw1;
      var safeNanoseconds := if nanoseconds < 1_000_000_000 then nanoseconds else 0;
      var valueUs;
      var epochTimestamp := EpochSecondsNanosecondsToUs(seconds, nanoseconds);
      var nearHostEpoch := epochTimestamp.Some?
        && IsNearHostEpoch(epochTimestamp.value, nowUs, MAX_TRUSTED_EPOCH_SKEW_US);
      hide Observe, EpochSecondsNanosecondsToUs, IsNearHostEpoch;
      if timestampMode == Unknown {
        timestampMode := if nearHostEpoch then Epoch else Relative;
      }
      if timestampMode == Epoch && epochTimestamp.Some? {
        valueUs := epochTimestamp.value;
      } else if timestampMode == Relative && nanoseconds < 1_000_000_000 {
        valueUs := relativeTimestampNormalizer.Normalize(seconds, safeNanoseconds, laterUs, laterUs);
      } else {
        valueUs := if lastTimestampUs == 0 then laterUs else lastTimestampUs + 1;
      }
      if lastTimestampUs != 0 && valueUs <= lastTimestampUs {
        valueUs := lastTimestampUs + 1;
      }
      lastTimestampUs := valueUs;
      return m.(clock := m.clock.(value := valueUs, unit := Microseconds));
    }

    method Poll(d: Datagram, nowUs: nat, laterUs: nat) returns (polled: Polled)
      requires Valid()
      modifies this, relativeTimestampNormalizer
      ensures Valid()
      ensures (State(), polled) == PollUdp(old(State()), d, nowUs, laterUs)
    {
      hide StampPacket;
      match d
      case ReceiveError => return Failed;
      case NoDatagram => return Event(NOTHING);
      case Rejected(error) =>
        parseFailureCount := parseFailureCount + 1;
        lastError := error;
        return Event(NOTHING);
      case Accepted(m, info) =>
        var stamped := NormalizeTimestamp(m, nowUs, laterUs);
        okPacketCount := okPacketCount + 1;
        lastError := "";
        return Event(SourceEvent(MeasurementEvent, info, None, stamped, "udp"));
    }
  }

  // ---- Runs

  datatype UdpInput = UdpInput(datagram: Datagram, nowUs: nat, laterUs: nat)

  function UdpEvents(u: UdpState, inputs: seq<UdpInput>): seq<Polled>
    decreases |inputs|
  {
    if inputs == [] then []
    else
      var (v, polled) := PollUdp(u, inputs[0].datagram, inputs[0].nowUs, inputs[0].laterUs);
      [polled] + UdpEvents(v, inputs[1..])
  }

  /** The clock is positive, and an accepted datagram has its timestamp fields, as the parser leaves them. */
  predicate Timed(inputs: seq<UdpInput>) {
    forall i :: i in inputs ==> i.laterUs > 0 && (i.datagram.Accepted? ==> i.datagram.measurement.clock.valid)
  }

  /** In every mode and over every history the measurements come out in strictly increasing stamp order. */
  lemma {:induction false} UdpStampsIncrease(u: UdpState, inputs: seq<UdpInput>)
    requires Timed(inputs)
    ensures Ascends(u.stamper.last, StampsOf(UdpEvents(u, inputs)))
    decreases |inputs|
  {
    if inputs != [] {
      var i := inputs[0];
      assert i in inputs;
      var (v, polled) := PollUdp(u, i.datagram, i.nowUs, i.laterUs);
      if i.datagram.Accepted? {
        StampPacketAdvances(u.stamper, PacketOf(i.datagram.measurement, i.nowUs, i.laterUs));
      }
      hide StampPacket;
      UdpStampsIncrease(v, inputs[1..]);
      AscendsCons(u.stamper.last, polled, UdpEvents(v, inputs[1..]), v.stamper.last);
    }
  }

  function Stamps(s: UdpStamper, ps: seq<Packet>): (r: seq<nat>)
    ensures |r| == |ps|
    decreases |ps|
  {
    if ps == [] then [] else [StampPacket(s, ps[0]).last] + Stamps(StampPacket(s, ps[0]), ps[1..])
  }

  function FinalStamper(s: UdpStamper, ps: seq<Packet>): UdpStamper
    decreases |ps|
  {
    if ps == [] then s else FinalStamper(StampPacket(s, ps[0]), ps[1..])
  }

  predicate ClocksPositive(ps: seq<Packet>) {
    forall p :: p in ps ==> p.laterUs > 0
  }

  /** The first packet chooses the mode: epoch exactly when its fields form an epoch time near the host's. */
  lemma {:induction false} ModeIsSticky(s: UdpStamper, ps: seq<Packet>)
    requires ps != []
    ensures FinalStamper(s, ps).mode == NextMode(s.mode, ps[0]) != Unknown
    decreases |ps|
  {
    hide EpochSecondsNanosecondsToUs, IsNearHostEpoch, Observe;
    if |ps| > 1 {
      ModeIsSticky(StampPacket(s, ps[0]), ps[1..]);
    }
  }

  function EpochValues(ps: seq<Packet>): (vs: seq<Option<nat>>)
    ensures |vs| == |ps|
  {
    seq(|ps|, i requires 0 <= i < |ps| => EpochSecondsNanosecondsToUs(ps[i].seconds, ps[i].nanoseconds))
  }

  lemma EpochIsPositive(seconds: U32, nanoseconds: U32)
    ensures var e := EpochSecondsNanosecondsToUs(seconds, nanoseconds);
            e.Some? ==> e.value > 0
  {
  }

  lemma {:induction false} EpochRunFrom(s: UdpStamper, ps: seq<Packet>)
    requires s.mode == Epoch && s.last > 0
    ensures Stamps(s, ps) == Clamp(s.last, EpochValues(ps))
    decreases |ps|
  {
    if ps != [] {
      var next := StampPacket(s, ps[0]);
      EpochIsPositive(ps[0].seconds, ps[0].nanoseconds);
      hide EpochSecondsNanosecondsToUs, IsNearHostEpoch, Observe;
      EpochRunFrom(next, ps[1..]);
      assert EpochValues(ps)[1..] == EpochValues(ps[1..]);
    }
  }

  /** In epoch mode the stamps are the packet times put through the clamp, an out-of-range packet asking for
      nothing: by the closed form of the clamp, the least increasing sequence above the packet times. */
  lemma {:induction false} EpochRunIsClamp(ps: seq<Packet>)
    requires ps != [] && NextMode(Unknown, ps[0]) == Epoch
    ensures Stamps(FRESH_UDP_STAMPER, ps) == Clamp(0, EpochValues(ps))
    ensures Positive(EpochValues(ps)) && EpochValues(ps)[0].Some?
  {
    var next := StampPacket(FRESH_UDP_STAMPER, ps[0]);
    EpochIsPositive(ps[0].seconds, ps[0].nanoseconds);
    forall v | v in EpochValues(ps) && v.Some?
      ensures v.value > 0
    {
      var i :| 0 <= i < |ps| && EpochValues(ps)[i] == v;
      EpochIsPositive(ps[i].seconds, ps[i].nanoseconds);
    }
    hide EpochSecondsNanosecondsToUs, IsNearHostEpoch, Observe;
    EpochRunFrom(next, ps[1..]);
    assert EpochValues(ps)[1..] == EpochValues(ps[1..]);
  }

  lemma StampPacketAdvances(s: UdpStamper, p: Packet)
    requires p.laterUs > 0
    ensures s.last < StampPacket(s, p).last
  {
    EpochIsPositive(p.seconds, p.nanoseconds);
    TimelineOutputPositive(s.timeline, Observed(Sample(p.seconds, p.nanoseconds), p.laterUs));
    hide EpochSecondsNanosecondsToUs, NextMode, Observe;
  }

  lemma TimelineOutputPositive(t: Timeline, o: Observed)
    requires o.hostUs > 0
    ensures Observe(Second, t, o).lastOutputUs > 0
  {
    FirstIsFirst(Second, t, o.sample, o.hostUs);
    hide Judge;
  }

  /** In relative mode with legal fields the clamp never acts: the stamps are the second normalizer's outputs. */
  lemma {:induction false} RelativeRunIsTimeline(s: UdpStamper, ps: seq<Packet>)
    requires ps != [] ==> NextMode(s.mode, ps[0]) == Relative
    requires s.last == s.timeline.lastOutputUs && (s.last != 0 ==> s.timeline.initialized)
    requires ClocksPositive(ps) && forall p :: p in ps ==> p.nanoseconds < 1_000_000_000
    ensures Stamps(s, ps) ==
            Outputs(Second, s.timeline, seq(|ps|, i requires 0 <= i < |ps| =>
              Observed(Sample(ps[i].seconds, ps[i].nanoseconds), ps[i].laterUs)))
    decreases |ps|
  {
    if ps != [] {
      var os := seq(|ps|, i requires 0 <= i < |ps| =>
                  Observed(Sample(ps[i].seconds, ps[i].nanoseconds), ps[i].laterUs));
      assert ps[0] in ps;
      var next := StampPacket(s, ps[0]);
      RelativeStep(s, ps[0]);
      hide StampPacket, NextMode, Observe;
      assert os[1..] == seq(|ps| - 1, i requires 0 <= i < |ps| - 1 =>
                          Observed(Sample(ps[1..][i].seconds, ps[1..][i].nanoseconds), ps[1..][i].laterUs));
      RelativeRunIsTimeline(next, ps[1..]);
    }
  }

  lemma RelativeStep(s: UdpStamper, p: Packet)
    requires NextMode(s.mode, p) == Relative && p.laterUs > 0 && p.nanoseconds < 1_000_000_000
    requires s.last == s.timeline.lastOutputUs && (s.last != 0 ==> s.timeline.initialized)
    ensures var next := StampPacket(s, p);
            && next.timeline == Observe(Second, s.timeline, Observed(Sample(p.seconds, p.nanoseconds), p.laterUs))
            && next.last == next.timeline.lastOutputUs && next.timeline.initialized
            && forall q: Packet :: NextMode(next.mode, q) == Relative
  {
    FirstIsFirst(Second, s.timeline, Sample(p.seconds, p.nanoseconds), p.laterUs);
    hide Judge, EpochSecondsNanosecondsToUs, IsNearHostEpoch;
  }

  // ---- Sessions

  /** The timestamp fields of the accepted datagrams. */
  function PacketsOf(inputs: seq<UdpInput>): seq<Packet> {
    if inputs == [] then []
    else
      var i := inputs[0];
      (if i.datagram.Accepted? then [PacketOf(i.datagram.measurement, i.nowUs, i.laterUs)] else [])
      + PacketsOf(inputs[1..])
  }

  lemma PollStamps(u: UdpState, i: UdpInput)
    requires i.datagram.Accepted? ==> i.datagram.measurement.clock.valid
    ensures var (v, polled) := PollUdp(u, i.datagram, i.nowUs, i.laterUs);
            if i.datagram.Accepted? then
              && v.stamper == StampPacket(u.stamper, PacketOf(i.datagram.measurement, i.nowUs, i.laterUs))
              && polled.Event? && polled.event.kind == MeasurementEvent
              && polled.event.measurement.clock.value == v.stamper.last
            else v.stamper == u.stamper && (polled.Failed? || polled.event.kind == NoEvent)
  {
    hide StampPacket;
  }

  /** The stamps of a session are those of its accepted datagrams, in order. */
  lemma {:induction false} StampsAreOfPackets(u: UdpState, inputs: seq<UdpInput>)
    requires Timed(inputs)
    ensures StampsOf(UdpEvents(u, inputs)) == Stamps(u.stamper, PacketsOf(inputs))
    decreases |inputs|
  {
    if inputs != [] {
      var i, rest := inputs[0], inputs[1..];
      assert i in inputs;
      var (v, polled) := PollUdp(u, i.datagram, i.nowUs, i.laterUs);
      PollStamps(u, i);
      hide PollUdp, StampPacket;
      StampsAreOfPackets(v, rest);
      MeasurementInFront(polled, UdpEvents(v, rest));
      if i.datagram.Accepted? {
        var p := PacketOf(i.datagram.measurement, i.nowUs, i.laterUs);
        assert ([p] + PacketsOf(rest))[1..] == PacketsOf(rest);
      } else {
        assert [] + PacketsOf(rest) == PacketsOf(rest);
        assert [] + StampsOf(UdpEvents(v, rest)) == StampsOf(UdpEvents(v, rest));
      }
    }
  }

  /** What an application sees: with a first packet near the host's epoch, the stamps of the session are the packet
      times put through the clamp; otherwise, with legal fields, the outputs of the second normalizer. */
  lemma {:induction false} SessionStamps(inputs: seq<UdpInput>)
    requires Timed(inputs) && PacketsOf(inputs) != []
    ensures var ps, stamps := PacketsOf(inputs), StampsOf(UdpEvents(FRESH_UDP, inputs));
            && (NextMode(Unknown, ps[0]) == Epoch ==> stamps == Clamp(0, EpochValues(ps)))
            && (NextMode(Unknown, ps[0]) == Relative && (forall p :: p in ps ==> p.nanoseconds < 1_000_000_000) ==>
                  stamps == Outputs(Second, Fresh(0), seq(|ps|, i requires 0 <= i < |ps| =>
                    Observed(Sample(ps[i].seconds, ps[i].nanoseconds), ps[i].laterUs))))
  {
    var ps := PacketsOf(inputs);
    StampsAreOfPackets(FRESH_UDP, inputs);
    PacketsTimed(inputs);
    hide NextMode, Stamps, UdpEvents, PacketsOf, Timed, EpochValues, Outputs;
    if NextMode(Unknown, ps[0]) == Epoch {
      EpochRunIsClamp(ps);
    } else if NextMode(Unknown, ps[0]) == Relative && forall p :: p in ps ==> p.nanoseconds < 1_000_000_000 {
      RelativeRunIsTimeline(FRESH_UDP_STAMPER, ps);
    }
  }

  lemma {:induction false} PacketsTimed(inputs: seq<UdpInput>)
    requires Timed(inputs)
    ensures ClocksPositive(PacketsOf(inputs))
  {
    if inputs != [] {
      PacketsTimed(inputs[1..]);
    }
  }
}
