/** From a sender's wire to an application: what the frames of a serial session show. */
module WireToFrame {
  import opened Wrappers
  import opened TimestampNormalizer
  import opened Crc8
  import opened FrameParserRuns
  import opened FrameRoundTrip
  import opened FrameModel
  import opened FrameGeometry
  import opened SerialSource
  import opened SerialDelivery
  import opened CameraModel
  import opened CameraRuns

  /** The device's own time and the depth image, as an application sees them. */
  datatype View = View(rawMs: U32, depth: ImageFrame)

  function Views(frames: seq<FrameSet>): seq<View> {
    if frames == [] then [] else [View(frames[0].clock.raw0, frames[0].depth)] + Views(frames[1..])
  }

  /** What a report should show: data the mirror image of its depth, info nothing. */
  function DataView(report: Report): seq<View> {
    if report.DataReport? then [View(report.data.rawMs, MirrorDepth(report.data.depth))] else []
  }

  function DataViews(reports: seq<Report>): seq<View> {
    if reports == [] then [] else DataView(reports[0]) + DataViews(reports[1..])
  }

  /** A serial measurement has a calibration and no cloud of its own. */
  predicate DepthOnly(p: Polled) {
    p.Event? && p.event.kind == MeasurementEvent ==>
      p.event.measurement.cloud == NO_CLOUD && p.event.measurement.calibration.Some?
  }

  lemma DeliversDepthOnly(decode: Decoders, s: SerialState, frame: Option<FrameFormat.Frame>, hostUs: nat)
    ensures DepthOnly(Deliver(decode, s, frame, hostUs).1)
  {
    hide ObserveSerial;
  }

  lemma PollsDepthOnly(mode: string, decode: Decoders, s: SerialState, i: SerialInput)
    ensures DepthOnly(PollSerial(mode, decode, s, i.read, i.hostUs).1)
  {
    var (t, polled) := PollSerial(mode, decode, s, i.read, i.hostUs);
    HandledIsDelivered(mode, decode, s, i);
    hide PollSerial, Handled, Deliver;
    DeliversDepthOnly(decode, s.(parser := t.parser), Handled(mode, s.parser, i.read), i.hostUs);
  }

  /** A depth-only measurement gives a frame with its mirrored depth, whatever the caches hold. */
  lemma AbsorbedView(s: CameraState, p: Polled)
    requires DepthOnly(p)
    ensures var frame := AbsorbPolled(s, p).1;
            Views(if frame.Some? then [frame.value] else []) == DataViews(ReportOf(p))
  {
    var frame := AbsorbPolled(s, p).1;
    assert MirrorCloud(NO_CLOUD) == NO_CLOUD;
    hide MirrorCalibration, DepthFromCloud, CloudFromDepth, MirrorDepth, MirrorCloud, MirrorConfidence, MirrorHistogram;
    if frame.Some? {
      assert [frame.value][1..] == [] && ReportOf(p)[1..] == [];
    }
  }

  lemma {:induction false} ViewsAppend(a: seq<FrameSet>, b: seq<FrameSet>)
    ensures Views(a + b) == Views(a) + Views(b)
  {
    if a == [] {
      assert a + b == b;
    } else {
      assert (a + b)[1..] == a[1..] + b;
      ViewsAppend(a[1..], b);
    }
  }

  lemma {:induction false} DataViewsAppend(a: seq<Report>, b: seq<Report>)
    ensures DataViews(a + b) == DataViews(a) + DataViews(b)
  {
    hide DataView;
    if a == [] {
      assert a + b == b;
    } else {
      assert (a + b)[1..] == a[1..] + b;
      DataViewsAppend(a[1..], b);
    }
  }

  lemma {:induction false} SessionViews(s: CameraState, mode: string, decode: Decoders, source: SerialState,
                                        inputs: seq<SerialInput>)
    ensures var polled := SerialEvents(mode, decode, source, inputs);
            Views(FramesOf(s, polled)) == DataViews(Reports(polled))
    decreases |inputs|
  {
    if inputs != [] {
      var i := inputs[0];
      var (t, p) := PollSerial(mode, decode, source, i.read, i.hostUs);
      var others := SerialEvents(mode, decode, t, inputs[1..]);
      PollsDepthOnly(mode, decode, source, i);
      AbsorbedView(s, p);
      SessionViews(AbsorbPolled(s, p).0, mode, decode, t, inputs[1..]);
      hide PollSerial, AbsorbPolled, ReportOf, DepthOnly, Views, DataViews;
      var (next, frame) := AbsorbPolled(s, p);
      assert ([p] + others)[1..] == others;
      ViewsAppend(if frame.Some? then [frame.value] else [], FramesOf(next, others));
      DataViewsAppend(ReportOf(p), Reports(others));
    }
  }

  /** Wire to frame: whatever the reads split a sender's bytes into, and however the calls of Poll fall, once the
      parser is drained the non-empty frames that successive calls returned are one for each decodable data frame
      sent, in order, each with that frame's device time and the mirror image of its depth. */
  lemma {:induction false} SentDepthsAreSeen(s: CameraState, mode: string, decode: Decoders, sent: Profile,
                                             msgs: seq<Message>, inputs: seq<SerialInput>)
    requires Legal(msgs) && Fed(Ops(mode, decode, FRESH_SERIAL, inputs)) == Wire(sent, msgs)
    requires Drained(mode, FinalSerial(mode, decode, FRESH_SERIAL, inputs).parser)
    ensures Agrees(mode, sent, msgs) ==>
              Views(Returned(s, SerialEvents(mode, decode, FRESH_SERIAL, inputs))) ==
              DataViews(AllDecoded(decode, SentFrames(msgs)))
  {
    hide *;
    EverythingSentIsHandled(mode, decode, sent, msgs, inputs);
    SessionViews(s, mode, decode, FRESH_SERIAL, inputs);
    CallsReturnSession(s, SerialEvents(mode, decode, FRESH_SERIAL, inputs));
  }
}
