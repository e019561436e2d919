/** The serial source: drain the parser before reading, then turn frames into events. */
module SerialSource {
  import opened Wrappers
  import opened Crc8
  import opened FrameFormat
  import opened FrameParsing
  import opened FrameParserRuns
  import opened GreedyTokenization
  import opened TimestampNormalizer
  import opened SerialTimelineRuns
  import opened FrameModel
  import opened EventOrder

  const INFO_MSG_ID: Byte := 0x21
  const DATA_MSG_ID: Byte := 0x22
  const READ_BUFFER_SIZE := 4096

  /** The fields a data frame carries. */
  datatype DataPacket = DataPacket(rawMs: U32, calibration: Calibration, depth: ImageFrame, info: DeviceInfo)

  /** The payload decoders; they fail on short payloads. */
  datatype Decoders = Decoders(info: Bytes -> Option<DeviceInfo>, data: Bytes -> Option<DataPacket>)

  datatype PortRead = PortError | PortBytes(data: Bytes)

  datatype SerialState = SerialState(parser: ParserState, normalizer: Serial, parseFailures: nat, lastError: string)

  const FRESH_SERIAL := SerialState(INITIAL, FreshSerial(0), 0, "")

  function DataMeasurement(d: DataPacket, valueUs: nat): Measurement {
    NO_MEASUREMENT.(clock := DeviceTimestamp(true, valueUs, Microseconds, d.rawMs, 0),
                    calibration := Some(d.calibration), depth := d.depth)
  }

  function EmitFrame(decode: Decoders, s: SerialState, f: Frame, hostUs: nat): (SerialState, SourceEvent) {
    var event := NOTHING.(integrityName := s.parser.activeName);
    if f.msgId == INFO_MSG_ID then
      match decode.info(f.msgData)
      case None =>
        (s.(parseFailures := s.parseFailures + 1, lastError := "Failed to parse serial info packet"), event)
      case Some(info) => (s.(lastError := ""), event.(kind := InfoUpdate, info := info))
    else if f.msgId == DATA_MSG_ID then
      match decode.data(f.msgData)
      case None =>
        (s.(parseFailures := s.parseFailures + 1, lastError := "Failed to parse serial data packet"), event)
      case Some(d) =>
        var normalizer := ObserveSerial(s.normalizer, d.rawMs, hostUs);
        (s.(normalizer := normalizer, lastError := ""),
         event.(kind := MeasurementEvent, info := d.info, measurement := DataMeasurement(d, normalizer.lastOutputUs)))
    else (s, event)
  }

  /** Hand on a popped frame, or nothing. */
  function Deliver(decode: Decoders, s: SerialState, frame: Option<Frame>, hostUs: nat): (SerialState, Polled) {
    match frame
    case None => (s, Event(NOTHING))
    case Some(f) =>
      var (t, event) := EmitFrame(decode, s, f, hostUs);
      (t, Event(event))
  }

  function PollSerial(mode: string, decode: Decoders, s: SerialState, read: PortRead, hostUs: nat)
    : (SerialState, Polled)
  {
    var (p, frame) := Pop(mode, s.parser);
    var t := s.(parser := p);
    if frame.Some? then Deliver(decode, t, frame, hostUs)
    else match read
      case PortError => (t, Failed)
      case PortBytes(data) =>
        if data == [] then (t, Event(NOTHING))
        else
          var (q, next) := Pop(mode, p.(buffer := p.buffer + data));
          Deliver(decode, s.(parser := q), next, hostUs)
  }

  class SerialPacketSource {
    const decode: Decoders
    const parser: FrameParser
    const timestampNormalizer: SerialTimestampNormalizer
    var parseFailureCount: nat
    var lastError: string

    ghost predicate Valid()
      reads this, timestampNormalizer, timestampNormalizer.relativeNormalizer
    {
      timestampNormalizer.Valid()
    }

    function State(): SerialState
      reads this, parser, timestampNormalizer, timestampNormalizer.relativeNormalizer
    {
      SerialState(parser.State(), timestampNormalizer.State(), parseFailureCount, lastError)
    }

    constructor (crcMode: string, decode: Decoders)
      ensures Valid() && State() == FRESH_SERIAL && parser.crcMode == crcMode && this.decode == decode
      ensures fresh(parser) && fresh(timestampNormalizer) && fresh(timestampNormalizer.relativeNormalizer)
    {
      this.decode := decode;
      parser := new FrameParser(crcMode);
      timestampNormalizer := new SerialTimestampNormalizer(0);
      parseFailureCount, lastError := 0, "";
    }

    method Emit(f: Frame, hostUs: nat) returns (event: SourceEvent)
      requires Valid()
      modifies this, timestampNormalizer, timestampNormalizer.relativeNormalizer
      ensures Valid()
      ensures (State(), event) == EmitFrame(decode, old(State()), f, hostUs)
    {
      hide ObserveSerial;
      event := NOTHING.(integrityName := parser.activeCrcName);
      if f.msgId == INFO_MSG_ID {
        var info := decode.info(f.msgData);
        if info.None? {
          parseFailureCount := parseFailureCount + 1;
          lastError := "Failed to parse serial info packet";
          return event;
        }
        lastError := "";
        return event.(kind := InfoUpdate, info := info.value);
      }
      if f.msgId == DATA_MSG_ID {
        var data := decode.data(f.msgData);
        if data.None? {
          parseFailureCount := parseFailureCount + 1;
          lastError := "Failed to parse serial data packet";
          return event;
        }
        var valueUs := timestampNormalizer.Normalize(data.value.rawMs, hostUs, hostUs);
        lastError := "";
        return event.(kind := MeasurementEvent, info := data.value.info,
                      measurement := DataMeasurement(data.value, valueUs));
      }
    }

    /** hostUs is the system clock when a frame is emitted. */
    method Poll(read: PortRead, hostUs: nat) returns (polled: Polled)
      requires Valid()
      modifies this, parser, timestampNormalizer, timestampNormalizer.relativeNormalizer
      ensures Valid()
      ensures (State(), polled) == PollSerial(parser.crcMode, decode, old(State()), read, hostUs)
    {
      hide Pop, EmitFrame;
      var frame := parser.TryPop();
      if frame.Some? {
        var event := Emit(frame.value, hostUs);
        return Event(event);
      }
      if read.PortError? {
        return Failed;
      }
      if read.data == [] {
        return Event(NOTHING);
      }
      parser.Append(read.data);
      frame := parser.TryPop();
      if frame.None? {
        return Event(NOTHING);
      }
      var event := Emit(frame.value, hostUs);
      return Event(event);
    }
  }

  // ---- Runs

  datatype SerialInput = SerialInput(read: PortRead, hostUs: nat)

  function FinalSerial(mode: string, decode: Decoders, s: SerialState, inputs: seq<SerialInput>): SerialState
    decreases |inputs|
  {
    if inputs == [] then s
    else FinalSerial(mode, decode, PollSerial(mode, decode, s, inputs[0].read, inputs[0].hostUs).0, inputs[1..])
  }

  function SerialEvents(mode: string, decode: Decoders, s: SerialState, inputs: seq<SerialInput>): (r: seq<Polled>)
    ensures |r| == |inputs|
    decreases |inputs|
  {
    if inputs == [] then []
    else
      var (t, polled) := PollSerial(mode, decode, s, inputs[0].read, inputs[0].hostUs);
      [polled] + SerialEvents(mode, decode, t, inputs[1..])
  }

  /** The clock is positive and a read fills at most the read buffer. */
  predicate Readable(inputs: seq<SerialInput>) {
    forall i :: i in inputs ==>
      i.hostUs > 0 && (i.read.PortBytes? ==> |i.read.data| <= READ_BUFFER_SIZE)
  }

  const LARGEST_BUFFER := 4 + MAX_LENGTH - 1 + READ_BUFFER_SIZE

  lemma PollBounded(mode: string, decode: Decoders, s: SerialState, i: SerialInput)
    requires |s.parser.buffer| <= LARGEST_BUFFER
    requires i.read.PortBytes? ==> |i.read.data| <= READ_BUFFER_SIZE
    ensures |PollSerial(mode, decode, s, i.read, i.hostUs).0.parser.buffer| <= LARGEST_BUFFER - 6
  {
    hide Pop, Stuck, Drained, Deliver;
    var (p, frame) := Pop(mode, s.parser);
    PopShrinks(mode, s.parser);
    DeliverKeepsParser(decode, s.(parser := p), frame, i.hostUs);
    if frame.None? {
      BoundedBuffer(mode, s.parser);
      if i.read.PortBytes? {
        var (q, next) := Pop(mode, p.(buffer := p.buffer + i.read.data));
        PopShrinks(mode, p.(buffer := p.buffer + i.read.data));
        if next.None? {
          BoundedBuffer(mode, p.(buffer := p.buffer + i.read.data));
        }
        DeliverKeepsParser(decode, s.(parser := q), next, i.hostUs);
      }
    }
  }

  lemma DeliverKeepsParser(decode: Decoders, s: SerialState, frame: Option<Frame>, hostUs: nat)
    ensures Deliver(decode, s, frame, hostUs).0.parser == s.parser
  {
    hide ObserveSerial;
  }

  /** Because a read happens only after a pop that found nothing, the parser holds no more than one frame short of
      a byte plus one read; between polls a further 6 bytes, the smallest frame, are gone. */
  lemma {:induction false} BufferStaysBounded(mode: string, decode: Decoders, s: SerialState, inputs: seq<SerialInput>)
    requires Readable(inputs) && |s.parser.buffer| <= LARGEST_BUFFER
    ensures |FinalSerial(mode, decode, s, inputs).parser.buffer| <= LARGEST_BUFFER == 20483
    ensures inputs != [] ==> |FinalSerial(mode, decode, s, inputs).parser.buffer| <= 20477
    decreases |inputs|
  {
    if inputs != [] {
      assert inputs[0] in inputs;
      PollBounded(mode, decode, s, inputs[0]);
      hide PollSerial;
      var t := PollSerial(mode, decode, s, inputs[0].read, inputs[0].hostUs).0;
      assert inputs[1..] == [] ==> FinalSerial(mode, decode, t, inputs[1..]) == t;
      BufferStaysBounded(mode, decode, t, inputs[1..]);
    }
  }

  lemma DeliverAdvances(decode: Decoders, s: SerialState, frame: Option<Frame>, hostUs: nat)
    requires Coupled(s.normalizer) && hostUs > 0
    ensures var (t, polled) := Deliver(decode, s, frame, hostUs);
            && Coupled(t.normalizer)
            && if polled.Event? && polled.event.kind == MeasurementEvent
               then s.normalizer.lastOutputUs < t.normalizer.lastOutputUs == polled.event.measurement.clock.value
               else t.normalizer == s.normalizer
  {
    if frame.Some? {
      var data := decode.data(frame.value.msgData);
      if data.Some? {
        CoupledStep(s.normalizer, Observed(Sample(data.value.rawMs, 0), hostUs));
      }
    }
    hide ObserveSerial, Coupled;
  }

  /** Over every history of reads the measurements come out in strictly increasing stamp order. */
  lemma {:induction false} SerialStampsIncrease(mode: string, decode: Decoders, s: SerialState,
                                                inputs: seq<SerialInput>)
    requires Readable(inputs) && Coupled(s.normalizer)
    ensures Ascends(s.normalizer.lastOutputUs, StampsOf(SerialEvents(mode, decode, s, inputs)))
    decreases |inputs|
  {
    if inputs != [] {
      var i := inputs[0];
      assert i in inputs;
      var (t, polled) := PollSerial(mode, decode, s, i.read, i.hostUs);
      PollAdvances(mode, decode, s, i);
      hide PollSerial, Coupled;
      SerialStampsIncrease(mode, decode, t, inputs[1..]);
      AscendsCons(s.normalizer.lastOutputUs, polled, SerialEvents(mode, decode, t, inputs[1..]),
                  t.normalizer.lastOutputUs);
    }
  }

  lemma PollAdvances(mode: string, decode: Decoders, s: SerialState, i: SerialInput)
    requires Coupled(s.normalizer) && i.hostUs > 0
    ensures var (t, polled) := PollSerial(mode, decode, s, i.read, i.hostUs);
            && Coupled(t.normalizer)
            && if polled.Event? && polled.event.kind == MeasurementEvent
               then s.normalizer.lastOutputUs < t.normalizer.lastOutputUs == polled.event.measurement.clock.value
               else t.normalizer == s.normalizer
  {
    hide Pop, Deliver, Coupled;
    var (p, frame) := Pop(mode, s.parser);
    DeliverAdvances(decode, s.(parser := p), frame, i.hostUs);
    if i.read.PortBytes? {
      var (q, next) := Pop(mode, p.(buffer := p.buffer + i.read.data));
      DeliverAdvances(decode, s.(parser := q), next, i.hostUs);
    }
  }

  // ---- Stamps and the device clock

  /** The counter readings of the measurements emitted, with the clock at each. */
  function Samples(inputs: seq<SerialInput>, polled: seq<Polled>): seq<Observed>
    requires |inputs| == |polled|
  {
    if inputs == [] then []
    else
      (if polled[0].Event? && polled[0].event.kind == MeasurementEvent
       then [Observed(Sample(polled[0].event.measurement.clock.raw0, 0), inputs[0].hostUs)] else [])
      + Samples(inputs[1..], polled[1..])
  }

  lemma DeliverObserves(decode: Decoders, s: SerialState, frame: Option<Frame>, hostUs: nat)
    ensures var (t, polled) := Deliver(decode, s, frame, hostUs);
            if polled.Event? && polled.event.kind == MeasurementEvent
            then var clock := polled.event.measurement.clock;
                 && t.normalizer == SerialStep(s.normalizer, Observed(Sample(clock.raw0, 0), hostUs))
                 && clock.value == t.normalizer.lastOutputUs
            else t.normalizer == s.normalizer
  {
    hide ObserveSerial;
  }

  lemma PollObserves(mode: string, decode: Decoders, s: SerialState, i: SerialInput)
    ensures var (t, polled) := PollSerial(mode, decode, s, i.read, i.hostUs);
            if polled.Event? && polled.event.kind == MeasurementEvent
            then var clock := polled.event.measurement.clock;
                 && t.normalizer == SerialStep(s.normalizer, Observed(Sample(clock.raw0, 0), i.hostUs))
                 && clock.value == t.normalizer.lastOutputUs
            else t.normalizer == s.normalizer
  {
    hide Pop, Deliver, SerialStep;
    var (p, frame) := Pop(mode, s.parser);
    DeliverObserves(decode, s.(parser := p), frame, i.hostUs);
    if i.read.PortBytes? {
      var (q, next) := Pop(mode, p.(buffer := p.buffer + i.read.data));
      DeliverObserves(decode, s.(parser := q), next, i.hostUs);
    }
  }

  /** The stamps of a session are the serial normalizer's outputs on the readings of its measurements. */
  lemma {:induction false} StampsAreOutputs(mode: string, decode: Decoders, s: SerialState, inputs: seq<SerialInput>)
    ensures var polled := SerialEvents(mode, decode, s, inputs);
            StampsOf(polled) == SerialOutputs(s.normalizer, Samples(inputs, polled))
    decreases |inputs|
  {
    if inputs != [] {
      var i, rest := inputs[0], inputs[1..];
      var (t, first) := PollSerial(mode, decode, s, i.read, i.hostUs);
      PollObserves(mode, decode, s, i);
      hide PollSerial, SerialStep;
      StampsAreOutputs(mode, decode, t, rest);
      var others := SerialEvents(mode, decode, t, rest);
      MeasurementInFront(first, others);
      assert ([first] + others)[1..] == others;
      if first.Event? && first.event.kind == MeasurementEvent {
        var o := Observed(Sample(first.event.measurement.clock.raw0, 0), i.hostUs);
        assert ([o] + Samples(rest, others))[1..] == Samples(rest, others);
      } else {
        assert [] + Samples(rest, others) == Samples(rest, others);
        assert [] + StampsOf(others) == StampsOf(others);
      }
    }
  }

  /** End to end: when the data frames that get through carry a device clock whose gaps fit where they occur, the
      stamps reproduce that clock exactly from the host time of the first one. */
  lemma {:induction false} DeviceClockIsReproduced(mode: string, decode: Decoders, inputs: seq<SerialInput>,
                                                   c: Clock, first: Reading, rs: seq<Reading>)
    requires first.hostUs > 0 && GapsFit(c, first.ms, rs)
    ensures var polled := SerialEvents(mode, decode, FRESH_SERIAL, inputs);
            var stamps := StampsOf(polled);
            Samples(inputs, polled) == [Observation(c, first)] + Readings(c, rs) ==>
              && |stamps| == |rs| + 1 && stamps[0] == first.hostUs
              && forall i :: 0 <= i < |rs| ==> stamps[i + 1] == first.hostUs + 1000 * (rs[i].ms - first.ms)
  {
    hide SerialEvents, Samples, GapsFit, Observation, Readings, SerialOutputs;
    StampsAreOutputs(mode, decode, FRESH_SERIAL, inputs);
    ExactUnwrapping(0, c, first, rs);
  }
}
