/** What the events of the serial source say besides their payload: the transport, the timestamp's form, and the name of
    the checksum profile they were checked with. */
module SerialEventForm {
  import opened Wrappers
  import opened TimestampNormalizer
  import opened Crc8
  import opened FrameFormat
  import opened FrameParsing
  import opened FrameParserRuns
  import opened FrameModel
  import opened SerialSource
  import opened SerialDelivery

  /** The profile frames are checked with: none, the one named, or in auto mode the locked one. */
  function CheckedName(mode: string, lock: Lock): string {
    if mode != "auto" then mode
    else if lock == 0 then "crc8" else if lock == 1 then "crc8_itu" else if lock == 2 then "maxim"
    else if lock == 3 then "rohc" else "unknown"
  }

  predicate WellFormed(polled: Polled, name: string) {
    polled.Event? && polled.event.kind != NoEvent ==>
      var e := polled.event;
      && e.integrityName == name && e.calibration == None
      && (e.kind == InfoUpdate ==> e.measurement == NO_MEASUREMENT)
      && (e.kind == MeasurementEvent ==>
            var m := e.measurement;
            && m.transport == SerialTransport && m.profile == Auto && m.calibration.Some?
            && m.clock.valid && m.clock.unit == Microseconds && m.clock.raw1 == 0
            && m.cloud == NO_CLOUD && m.confidence == NO_CONFIDENCE && m.histogram == NO_HISTOGRAM)
  }

  /** A parser that has found a frame knows what it checks with. */
  predicate Knowing(mode: string, p: ParserState) {
    if mode == "auto" then p.lock >= 0
    else p.okFrames > 0 && (mode != "none" ==> ProfileIndex(mode) >= 0)
  }

  lemma GoodHeadKnows(mode: string, lock: Lock, s: Bytes)
    requires Head(mode, lock, s).Good?
    ensures if mode == "auto" then Head(mode, lock, s).lock >= 0 && (lock >= 0 ==> Head(mode, lock, s).lock == lock)
            else mode != "none" ==> ProfileIndex(mode) >= 0
  {
    hide Crc;
  }

  lemma {:induction false} PopKnows(mode: string, p: ParserState)
    ensures var (q, frame) := Pop(mode, p);
            && (frame.Some? ==> Knowing(mode, q))
            && (p.lock >= 0 && mode == "auto" ==> q.lock == p.lock)
    decreases |p.buffer|
  {
    if |p.buffer| < 6 {
      PopShort(mode, p);
    } else if FindSync(p.buffer) == |p.buffer| {
      PopUnsynced(mode, p);
    } else {
      hide Pop, FindSync, ActiveName, Head, ProfileIndex;
      PopUnfold(mode, p);
      var q := Synced(p);
      var v := Head(mode, q.lock, q.buffer);
      if v.BadLength? || v.BadCrc? {
        PopKnows(mode, Rejected(mode, q));
      } else if v.Good? {
        GoodHeadKnows(mode, q.lock, q.buffer);
      }
    }
  }

  lemma ReportedName(mode: string, p: ParserState)
    requires Reported(mode, p) && Knowing(mode, p)
    ensures p.activeName == CheckedName(mode, p.lock)
  {
    hide ProfileIndex;
  }

  lemma DeliveryForm(decode: Decoders, s: SerialState, frame: Option<Frame>, hostUs: nat)
    ensures WellFormed(Deliver(decode, s, frame, hostUs).1, s.parser.activeName)
    ensures frame.None? ==> Deliver(decode, s, frame, hostUs) == (s, Event(NOTHING))
  {
    hide ObserveSerial;
  }

  lemma PollForm(mode: string, decode: Decoders, s: SerialState, i: SerialInput)
    requires Reported(mode, s.parser)
    ensures var (t, polled) := PollSerial(mode, decode, s, i.read, i.hostUs);
            && Reported(mode, t.parser)
            && WellFormed(polled, CheckedName(mode, t.parser.lock))
            && (polled.Event? && polled.event.kind != NoEvent ==> Knowing(mode, t.parser))
            && (mode == "auto" && s.parser.lock >= 0 ==> t.parser.lock == s.parser.lock)
  {
    hide Pop, Deliver, Reported, Knowing, CheckedName;
    var (p, frame) := Pop(mode, s.parser);
    PopReports(mode, s.parser);
    PopKnows(mode, s.parser);
    PopForm(mode, decode, s.(parser := p), frame, i.hostUs);
    if i.read.PortBytes? {
      var more := p.(buffer := p.buffer + i.read.data);
      var (q, next) := Pop(mode, more);
      MoreReported(mode, p, i.read.data);
      PopReports(mode, more);
      PopKnows(mode, more);
      PopForm(mode, decode, s.(parser := q), next, i.hostUs);
    }
  }

  lemma MoreReported(mode: string, p: ParserState, data: Bytes)
    requires Reported(mode, p)
    ensures Reported(mode, p.(buffer := p.buffer + data))
  {
  }

  lemma PopForm(mode: string, decode: Decoders, s: SerialState, frame: Option<Frame>, hostUs: nat)
    requires Reported(mode, s.parser) && (frame.Some? ==> Knowing(mode, s.parser))
    ensures var (t, polled) := Deliver(decode, s, frame, hostUs);
            && t.parser == s.parser && WellFormed(polled, CheckedName(mode, s.parser.lock))
            && (polled.Event? && polled.event.kind != NoEvent ==> frame.Some?)
  {
    DeliverKeepsParser(decode, s, frame, hostUs);
    DeliveryForm(decode, s, frame, hostUs);
    hide Deliver, Reported, Knowing, CheckedName;
    if frame.Some? {
      ReportedName(mode, s.parser);
    }
  }

  lemma {:induction false} LockStays(mode: string, decode: Decoders, s: SerialState, inputs: seq<SerialInput>)
    requires Reported(mode, s.parser) && mode == "auto" && s.parser.lock >= 0
    ensures FinalSerial(mode, decode, s, inputs).parser.lock == s.parser.lock
    decreases |inputs|
  {
    if inputs != [] {
      PollForm(mode, decode, s, inputs[0]);
      hide PollSerial, Reported;
      LockStays(mode, decode, PollSerial(mode, decode, s, inputs[0].read, inputs[0].hostUs).0, inputs[1..]);
    }
  }

  /** Over any history of reads every event of the serial source has the serial form, and names the profile that all
      frames of the session are checked with. */
  lemma {:induction false} EventsAreWellFormed(mode: string, decode: Decoders, s: SerialState, inputs: seq<SerialInput>)
    requires Reported(mode, s.parser)
    ensures var name := CheckedName(mode, FinalSerial(mode, decode, s, inputs).parser.lock);
            forall p :: p in SerialEvents(mode, decode, s, inputs) ==> WellFormed(p, name)
    decreases |inputs|
  {
    if inputs != [] {
      var (t, polled) := PollSerial(mode, decode, s, inputs[0].read, inputs[0].hostUs);
      PollForm(mode, decode, s, inputs[0]);
      EventsAreWellFormed(mode, decode, t, inputs[1..]);
      var end := FinalSerial(mode, decode, t, inputs[1..]);
      if mode == "auto" && polled.Event? && polled.event.kind != NoEvent {
        LockStays(mode, decode, t, inputs[1..]);
      }
      hide PollSerial, Reported;
      assert WellFormed(polled, CheckedName(mode, end.parser.lock));
      hide WellFormed, CheckedName;
    }
  }
}
