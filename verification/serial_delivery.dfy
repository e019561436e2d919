/** The polls of the serial source as a run of its parser: what a sender puts on the wire is what arrives. */
module SerialDelivery {
  import opened Wrappers
  import opened Crc8
  import opened FrameFormat
  import opened FrameParsing
  import opened FrameParserRuns
  import opened FrameRoundTrip
  import opened FrameModel
  import opened SerialSource

  /** The parser operations one poll performs. */
  function PollOps(mode: string, p: ParserState, read: PortRead): seq<Op> {
    if Pop(mode, p).1.None? && read.PortBytes? && read.data != [] then [TryPop, Append(read.data), TryPop]
    else [TryPop]
  }

  function Ops(mode: string, decode: Decoders, s: SerialState, inputs: seq<SerialInput>): seq<Op>
    decreases |inputs|
  {
    if inputs == [] then []
    else
      PollOps(mode, s.parser, inputs[0].read)
      + Ops(mode, decode, PollSerial(mode, decode, s, inputs[0].read, inputs[0].hostUs).0, inputs[1..])
  }

  /** The frame one poll hands to EmitFrame. */
  function Handled(mode: string, p: ParserState, read: PortRead): Option<Frame> {
    var (q, frame) := Pop(mode, p);
    if frame.Some? || read.PortError? || read.data == [] then frame
    else Pop(mode, q.(buffer := q.buffer + read.data)).1
  }

  function OneFrame(frame: Option<Frame>): seq<Frame> {
    if frame.Some? then [frame.value] else []
  }

  function HandledFrames(mode: string, decode: Decoders, s: SerialState, inputs: seq<SerialInput>): seq<Frame>
    decreases |inputs|
  {
    if inputs == [] then []
    else
      var frame := Handled(mode, s.parser, inputs[0].read);
      OneFrame(frame)
      + HandledFrames(mode, decode, PollSerial(mode, decode, s, inputs[0].read, inputs[0].hostUs).0, inputs[1..])
  }

  lemma FramesAppend(ts: seq<Token>, t: Token)
    ensures Frames(ts + [t]) == Frames(ts) + [t.frame]
  {
  }

  lemma PopOutcome(mode: string, h: History)
    ensures var next := Step(mode, h, TryPop);
            && next.parser == Pop(mode, h.parser).0
            && Frames(next.emitted) == Frames(h.emitted) + OneFrame(Pop(mode, h.parser).1)
  {
    hide Pop;
    var (p, frame) := Pop(mode, h.parser);
    if frame.Some? {
      FramesAppend(h.emitted, Token(|h.stream| - |p.buffer| - frame.value.Size(), frame.value));
    }
  }

  lemma PollIsParserRun(mode: string, decode: Decoders, h: History, s: SerialState, i: SerialInput)
    requires h.parser == s.parser
    ensures var next := Exec(mode, h, PollOps(mode, s.parser, i.read));
            var frame := Handled(mode, s.parser, i.read);
            && next.parser == PollSerial(mode, decode, s, i.read, i.hostUs).0.parser
            && Frames(next.emitted) == Frames(h.emitted) + OneFrame(frame)
  {
    PopOutcome(mode, h);
    hide Pop, Deliver, Frames;
    var h1 := Step(mode, h, TryPop);
    var ops := PollOps(mode, s.parser, i.read);
    var (p, frame) := Pop(mode, s.parser);
    DeliverKeepsParser(decode, s.(parser := p), frame, i.hostUs);
    if frame.None? && i.read.PortBytes? && i.read.data != [] {
      var h2 := Step(mode, h1, Append(i.read.data));
      PopOutcome(mode, h2);
      var (q, later) := Pop(mode, p.(buffer := p.buffer + i.read.data));
      DeliverKeepsParser(decode, s.(parser := q), later, i.hostUs);
      assert Frames(h.emitted) + [] == Frames(h.emitted);
      ThreeSteps(mode, h, i.read.data);
    } else {
      assert ops == [TryPop] && ops[1..] == [];
    }
  }

  lemma ThreeSteps(mode: string, h: History, data: Bytes)
    ensures Exec(mode, h, [TryPop, Append(data), TryPop]) ==
            Step(mode, Step(mode, Step(mode, h, TryPop), Append(data)), TryPop)
  {
    hide Step;
    var ops := [TryPop, Append(data), TryPop];
    var h1 := Step(mode, h, TryPop);
    var h2 := Step(mode, h1, Append(data));
    assert ops[1..] == [Append(data), TryPop] && ops[1..][1..] == [TryPop] && ops[1..][1..][1..] == [];
    assert Exec(mode, h2, [TryPop]) == Step(mode, h2, TryPop);
    assert Exec(mode, h1, ops[1..]) == Exec(mode, h2, [TryPop]);
  }

  /** A run of polls performs a run of the parser, and hands on exactly the frames that run emits. */
  lemma {:induction false} PollsAreParserRun(mode: string, decode: Decoders, h: History, s: SerialState,
                                             inputs: seq<SerialInput>)
    requires h.parser == s.parser
    ensures var end := Exec(mode, h, Ops(mode, decode, s, inputs));
            && end.parser == FinalSerial(mode, decode, s, inputs).parser
            && Frames(end.emitted) == Frames(h.emitted) + HandledFrames(mode, decode, s, inputs)
    decreases |inputs|
  {
    if inputs == [] {
      assert Frames(h.emitted) + [] == Frames(h.emitted);
    } else {
      var i, rest := inputs[0], inputs[1..];
      var t := PollSerial(mode, decode, s, i.read, i.hostUs).0;
      PollsUnfold(mode, decode, s, inputs);
      hide *;
      var ops := PollOps(mode, s.parser, i.read);
      PollIsParserRun(mode, decode, h, s, i);
      PollsAreParserRun(mode, decode, Exec(mode, h, ops), t, rest);
      ExecAppend(mode, h, ops, Ops(mode, decode, t, rest));
      Associate(Frames(h.emitted), OneFrame(Handled(mode, s.parser, i.read)), HandledFrames(mode, decode, t, rest));
    }
  }

  lemma PollsUnfold(mode: string, decode: Decoders, s: SerialState, inputs: seq<SerialInput>)
    requires inputs != []
    ensures var i, rest := inputs[0], inputs[1..];
            var t := PollSerial(mode, decode, s, i.read, i.hostUs).0;
            && Ops(mode, decode, s, inputs) == PollOps(mode, s.parser, i.read) + Ops(mode, decode, t, rest)
            && FinalSerial(mode, decode, s, inputs) == FinalSerial(mode, decode, t, rest)
            && HandledFrames(mode, decode, s, inputs) ==
               OneFrame(Handled(mode, s.parser, i.read)) + HandledFrames(mode, decode, t, rest)
  {
    hide PollSerial, PollOps, Handled;
  }

  lemma Associate<T>(a: seq<T>, b: seq<T>, c: seq<T>)
    ensures (a + b) + c == a + (b + c)
  {
  }

  // ---- The parser's buffer inside a poll

  /** At each of the points of one poll: before it, after the first pop, after the read, after the second pop. */
  lemma OnePollBounded(mode: string, h: History, p: ParserState, read: PortRead, k: nat)
    requires h.parser == p && |p.buffer| <= LARGEST_BUFFER && k <= |PollOps(mode, p, read)|
    requires read.PortBytes? ==> |read.data| <= READ_BUFFER_SIZE
    ensures |Exec(mode, h, PollOps(mode, p, read)[..k]).parser.buffer| <= LARGEST_BUFFER
  {
    var ops := PollOps(mode, p, read);
    var h1 := Step(mode, h, TryPop);
    FailedPopSticks(mode, p);
    hide Pop, Stuck;
    if k == 1 {
      assert ops[..1] == [TryPop] && [TryPop][1..] == [];
    } else if k > 1 {
      var h2 := Step(mode, h1, Append(read.data));
      BoundedBuffer(mode, p);
      FailedPopSticks(mode, h2.parser);
      if k == 2 {
        assert ops[..2] == [TryPop, Append(read.data)];
        TwoSteps(mode, h, read.data);
      } else {
        assert ops[..3] == [TryPop, Append(read.data), TryPop];
        ThreeSteps(mode, h, read.data);
      }
    }
  }

  lemma TwoSteps(mode: string, h: History, data: Bytes)
    ensures Exec(mode, h, [TryPop, Append(data)]) == Step(mode, Step(mode, h, TryPop), Append(data))
  {
    hide Step;
    var ops := [TryPop, Append(data)];
    var h1 := Step(mode, h, TryPop);
    assert ops[1..] == [Append(data)] && ops[1..][1..] == [];
    assert Exec(mode, h1, ops[1..]) == Step(mode, h1, Append(data));
  }

  /** In no history of reads, at no point of any poll, does the parser hold more than 20483 bytes. */
  lemma {:induction false} BufferBoundedThroughout(mode: string, decode: Decoders, h: History, s: SerialState,
                                                   inputs: seq<SerialInput>, k: nat)
    requires h.parser == s.parser && Readable(inputs) && |s.parser.buffer| <= LARGEST_BUFFER
    requires k <= |Ops(mode, decode, s, inputs)|
    ensures |Exec(mode, h, Ops(mode, decode, s, inputs)[..k]).parser.buffer| <= LARGEST_BUFFER == 20483
    decreases |inputs|
  {
    hide *;
    var all := Ops(mode, decode, s, inputs);
    BoundValue();
    if inputs == [] {
      NoOps(mode, decode, h, s, inputs);
      assert all[..k] == [];
    } else {
      var i, rest := inputs[0], inputs[1..];
      var t := PollSerial(mode, decode, s, i.read, i.hostUs).0;
      var ops := PollOps(mode, s.parser, i.read);
      ReadableUnfold(inputs);
      PollsUnfold(mode, decode, s, inputs);
      if k <= |ops| {
        assert all[..k] == ops[..k];
        OnePollBounded(mode, h, s.parser, i.read, k);
      } else {
        var later := Ops(mode, decode, t, rest)[..k - |ops|];
        assert all[..k] == ops + later;
        PollIsParserRun(mode, decode, h, s, i);
        PollBounded(mode, decode, s, i);
        ExecAppend(mode, h, ops, later);
        BufferBoundedThroughout(mode, decode, Exec(mode, h, ops), t, rest, k - |ops|);
      }
    }
  }

  lemma BoundValue()
    ensures LARGEST_BUFFER == 20483
  {
  }

  lemma NoOps(mode: string, decode: Decoders, h: History, s: SerialState, inputs: seq<SerialInput>)
    requires inputs == []
    ensures Ops(mode, decode, s, inputs) == [] && Exec(mode, h, []) == h
  {
  }

  lemma ReadableUnfold(inputs: seq<SerialInput>)
    requires inputs != [] && Readable(inputs)
    ensures Readable(inputs[1..]) && (inputs[0].read.PortBytes? ==> |inputs[0].read.data| <= READ_BUFFER_SIZE)
  {
    assert inputs[0] in inputs;
  }

  function SentFrames(msgs: seq<Message>): seq<Frame> {
    seq(|msgs|, i requires 0 <= i < |msgs| => msgs[i].frame)
  }

  lemma {:induction false} PlacedFrames(base: int, msgs: seq<Message>)
    ensures Frames(Placed(base, msgs)) == SentFrames(msgs)
    decreases |msgs|
  {
    if msgs != [] {
      var start := base + |msgs[0].garbage|;
      var first, rest := Token(start, msgs[0].frame), Placed(start + msgs[0].frame.Size(), msgs[1..]);
      PlacedFrames(start + msgs[0].frame.Size(), msgs[1..]);
      assert Frames([first] + rest) == [first.frame] + Frames(rest);
      assert SentFrames(msgs) == [msgs[0].frame] + SentFrames(msgs[1..]);
    }
  }

  // ---- From frames to events

  /** What an event says, apart from its stamp and the name of the checksum profile. */
  datatype Report = InfoReport(info: DeviceInfo) | DataReport(data: DataPacket)

  function ReportOf(polled: Polled): seq<Report> {
    if polled.Failed? || polled.event.kind == NoEvent then []
    else if polled.event.kind == InfoUpdate then [InfoReport(polled.event.info)]
    else
      var m := polled.event.measurement;
      if m.calibration.None? then []
      else [DataReport(DataPacket(m.clock.raw0, m.calibration.value, m.depth, polled.event.info))]
  }

  function Reports(polled: seq<Polled>): seq<Report> {
    if polled == [] then [] else ReportOf(polled[0]) + Reports(polled[1..])
  }

  /** What one frame should say; nothing when its id is unknown or its payload cannot be decoded. */
  function Decoded(decode: Decoders, f: Frame): seq<Report> {
    if f.msgId == 0x21 && decode.info(f.msgData).Some? then [InfoReport(decode.info(f.msgData).value)]
    else if f.msgId == 0x22 && decode.data(f.msgData).Some? then [DataReport(decode.data(f.msgData).value)]
    else []
  }

  predicate Undecodable(decode: Decoders, f: Frame) {
    (f.msgId == 0x21 && decode.info(f.msgData).None?) || (f.msgId == 0x22 && decode.data(f.msgData).None?)
  }

  function AllDecoded(decode: Decoders, frames: seq<Frame>): seq<Report> {
    if frames == [] then [] else Decoded(decode, frames[0]) + AllDecoded(decode, frames[1..])
  }

  function UndecodableCount(decode: Decoders, frames: seq<Frame>): nat {
    if frames == [] then 0
    else (if Undecodable(decode, frames[0]) then 1 else 0) + UndecodableCount(decode, frames[1..])
  }

  /** The error reported after a frame: its own, none after one that was decoded, and otherwise the one before. */
  function ErrorAfter(decode: Decoders, error: string, f: Frame): string {
    if f.msgId == 0x21 then
      if decode.info(f.msgData).Some? then "" else "Failed to parse serial info packet"
    else if f.msgId == 0x22 then
      if decode.data(f.msgData).Some? then "" else "Failed to parse serial data packet"
    else error
  }

  function ErrorAfterAll(decode: Decoders, error: string, frames: seq<Frame>): string
    decreases |frames|
  {
    if frames == [] then error else ErrorAfterAll(decode, ErrorAfter(decode, error, frames[0]), frames[1..])
  }

  /** A poll that does not fail delivers exactly the frame it took from the parser. */
  lemma {:induction false} HandledIsDelivered(mode: string, decode: Decoders, s: SerialState, i: SerialInput)
    ensures var (t, polled) := PollSerial(mode, decode, s, i.read, i.hostUs);
            var frame := Handled(mode, s.parser, i.read);
            || (frame == None && polled == Failed && t == s.(parser := t.parser))
            || (t, polled) == Deliver(decode, s.(parser := t.parser), frame, i.hostUs)
  {
    hide Pop, Deliver;
    var (p, frame) := Pop(mode, s.parser);
    DeliverKeepsParser(decode, s.(parser := p), frame, i.hostUs);
    if i.read.PortBytes? {
      EmptyDelivery(decode, s.(parser := p), i.hostUs);
      var (q, next) := Pop(mode, p.(buffer := p.buffer + i.read.data));
      DeliverKeepsParser(decode, s.(parser := q), next, i.hostUs);
    }
  }

  lemma EmptyDelivery(decode: Decoders, s: SerialState, hostUs: nat)
    ensures Deliver(decode, s, None, hostUs) == (s, Event(NOTHING))
  {
  }

  lemma DeliverReports(decode: Decoders, s: SerialState, frame: Option<Frame>, hostUs: nat)
    ensures var (t, polled) := Deliver(decode, s, frame, hostUs);
            && ReportOf(polled) == AllDecoded(decode, OneFrame(frame))
            && t.parseFailures == s.parseFailures + UndecodableCount(decode, OneFrame(frame))
            && t.lastError == ErrorAfterAll(decode, s.lastError, OneFrame(frame))
  {
    if frame.Some? {
      assert [frame.value][1..] == [];
    }
  }

  lemma FailsExactly(mode: string, decode: Decoders, s: SerialState, i: SerialInput)
    ensures PollSerial(mode, decode, s, i.read, i.hostUs).1 == Failed <==>
            i.read == PortError && Pop(mode, s.parser).1 == None
  {
    hide Pop, EmitFrame;
  }

  lemma PollReports(mode: string, decode: Decoders, s: SerialState, i: SerialInput)
    ensures var (t, polled) := PollSerial(mode, decode, s, i.read, i.hostUs);
            var frames := OneFrame(Handled(mode, s.parser, i.read));
            && ReportOf(polled) == AllDecoded(decode, frames)
            && t.parseFailures == s.parseFailures + UndecodableCount(decode, frames)
            && t.lastError == ErrorAfterAll(decode, s.lastError, frames)
            && (polled == Failed <==> i.read == PortError && Pop(mode, s.parser).1 == None)
  {
    FailsExactly(mode, decode, s, i);
    var (t, polled) := PollSerial(mode, decode, s, i.read, i.hostUs);
    HandledIsDelivered(mode, decode, s, i);
    hide PollSerial, Handled, Deliver;
    DeliverReports(decode, s.(parser := t.parser), Handled(mode, s.parser, i.read), i.hostUs);
  }

  lemma AllDecodedAppend(decode: Decoders, f: Option<Frame>, frames: seq<Frame>)
    ensures AllDecoded(decode, OneFrame(f) + frames) == AllDecoded(decode, OneFrame(f)) + AllDecoded(decode, frames)
    ensures UndecodableCount(decode, OneFrame(f) + frames) ==
            UndecodableCount(decode, OneFrame(f)) + UndecodableCount(decode, frames)
    ensures forall error: string ::
              ErrorAfterAll(decode, error, OneFrame(f) + frames) ==
              ErrorAfterAll(decode, ErrorAfterAll(decode, error, OneFrame(f)), frames)
  {
    hide Decoded, Undecodable, ErrorAfter;
    if f.Some? {
      assert [f.value][1..] == [] && ([f.value] + frames)[1..] == frames;
    } else {
      assert [] + frames == frames;
    }
  }

  /** The events of a run of polls say exactly what the frames handed on decode to, in order, and every frame
      that cannot be decoded is counted. */
  lemma {:induction false} PollsReport(mode: string, decode: Decoders, s: SerialState, inputs: seq<SerialInput>)
    ensures var frames := HandledFrames(mode, decode, s, inputs);
            && Reports(SerialEvents(mode, decode, s, inputs)) == AllDecoded(decode, frames)
            && FinalSerial(mode, decode, s, inputs).parseFailures ==
               s.parseFailures + UndecodableCount(decode, frames)
            && FinalSerial(mode, decode, s, inputs).lastError == ErrorAfterAll(decode, s.lastError, frames)
    decreases |inputs|
  {
    if inputs != [] {
      var i, rest := inputs[0], inputs[1..];
      var (t, polled) := PollSerial(mode, decode, s, i.read, i.hostUs);
      PollReports(mode, decode, s, i);
      hide PollSerial, Handled, Decoded, Undecodable, ErrorAfter, ReportOf;
      PollsReport(mode, decode, t, rest);
      AllDecodedAppend(decode, Handled(mode, s.parser, i.read), HandledFrames(mode, decode, t, rest));
      var others := SerialEvents(mode, decode, t, rest);
      assert ([polled] + others)[1..] == others;
    }
  }

  // ---- Main result

  /** Whatever the reads split the sender's bytes into, once the parser is drained: exactly the frames sent were
      handed on, in order, with no failure, nothing left and only the noise discarded, if and only if the checksums
      agree; and the events then say exactly what the frames sent decode to, in order. */
  lemma {:induction false} EverythingSentIsHandled(mode: string, decode: Decoders, sent: Profile, msgs: seq<Message>,
                                                   inputs: seq<SerialInput>)
    requires Legal(msgs) && Fed(Ops(mode, decode, FRESH_SERIAL, inputs)) == Wire(sent, msgs)
    requires Drained(mode, FinalSerial(mode, decode, FRESH_SERIAL, inputs).parser)
    ensures var end := FinalSerial(mode, decode, FRESH_SERIAL, inputs);
            Agrees(mode, sent, msgs) <==>
              && HandledFrames(mode, decode, FRESH_SERIAL, inputs) == SentFrames(msgs)
              && end.parser.crcFailures == 0 && end.parser.badLengths == 0
              && end.parser.buffer == [] && end.parser.discarded == Noise(msgs)
    ensures Agrees(mode, sent, msgs) ==>
              && Reports(SerialEvents(mode, decode, FRESH_SERIAL, inputs)) == AllDecoded(decode, SentFrames(msgs))
              && FinalSerial(mode, decode, FRESH_SERIAL, inputs).parseFailures ==
                 UndecodableCount(decode, SentFrames(msgs))
  {
    hide *;
    var ops := Ops(mode, decode, FRESH_SERIAL, inputs);
    NothingEmitted();
    PollsAreParserRun(mode, decode, START, FRESH_SERIAL, inputs);
    var handled := HandledFrames(mode, decode, FRESH_SERIAL, inputs);
    assert [] + handled == handled;
    RoundTrip(mode, sent, msgs, ops);
    DisagreementIsCounted(mode, sent, msgs, ops);
    PlacedFrames(0, msgs);
    PollsReport(mode, decode, FRESH_SERIAL, inputs);
  }

  lemma NothingEmitted()
    ensures Frames(START.emitted) == [] && FRESH_SERIAL.parser == START.parser && FRESH_SERIAL.parseFailures == 0
  {
  }
}
