/** What every delivered frame shows of the measurement behind it, sample by sample, and of the session before it. */
module CameraFrames {
  import opened Wrappers
  import opened TimestampNormalizer
  import opened FrameModel
  import opened Mirror
  import opened FrameGeometry
  import opened Undistortion
  import opened EventOrder
  import opened CameraModel
  import opened CameraRuns

  // ---- Samples by column and row

  function At<T>(s: seq<T>, i: int): Option<T> {
    if 0 <= i < |s| then Some(s[i]) else None
  }

  function Index(w: int, x: int, y: int): int {
    y * w + x
  }

  predicate Filled(width: int, height: int, size: int) {
    width > 0 && height > 0 && size == width * height
  }

  /** Column x of each row of a is column w - 1 - x of that row of b. */
  predicate RowsMirrored<T(==)>(a: seq<T>, b: seq<T>, w: nat, h: nat) {
    && |a| == |b| == w * h
    && forall x: nat, y: nat :: x < w && y < h ==> At(a, Index(w, x, y)) == At(b, Index(w, w - 1 - x, y))
  }

  function GroupBin(gw: int, g: int, b: int, y: int): int {
    y * (40 * gw) + g * gw + b
  }

  /** Bin b of group g in each row of 40 groups is bin b of group 39 - g. */
  predicate GroupsMirrored<T(==)>(a: seq<T>, b: seq<T>, gw: nat, h: nat) {
    && |a| == |b| == 40 * gw * h
    && forall g: nat, bin: nat, y: nat :: g < 40 && bin < gw && y < h ==>
         At(a, GroupBin(gw, g, bin, y)) == At(b, GroupBin(gw, 39 - g, bin, y))
  }

  lemma {:induction false} RowsAreMirrored<T>(w: nat, h: nat, s: seq<T>)
    requires w > 0 && |s| == w * h
    ensures RowsMirrored(MirrorRows(w, h, s), s, w, h)
  {
    forall x: nat, y: nat | x < w && y < h
      ensures At(MirrorRows(w, h, s), Index(w, x, y)) == At(s, Index(w, w - 1 - x, y))
    {
      SampleIndex(w, h, x, y);
      SampleIndex(w, h, w - 1 - x, y);
      MirrorIndexOf(w, y, x);
    }
  }

  lemma {:induction false} GroupsAreMirrored<T>(gw: nat, h: nat, s: seq<T>)
    requires gw > 0 && |s| == DEPTH_WIDTH * gw * h
    ensures GroupsMirrored(MirrorGroups(gw, h, s), s, gw, h)
  {
    forall g: nat, bin: nat, y: nat | g < 40 && bin < gw && y < h
      ensures At(MirrorGroups(gw, h, s), GroupBin(gw, g, bin, y)) == At(s, GroupBin(gw, 39 - g, bin, y))
    {
      GroupInside(gw, h, g, bin, y);
      GroupInside(gw, h, 39 - g, bin, y);
      GroupIndexOf(gw, y, g, bin);
      hide GroupIndex;
    }
  }

  lemma GroupInside(gw: nat, h: nat, g: nat, bin: nat, y: nat)
    requires g < 40 && bin < gw && y < h
    ensures 0 <= GroupBin(gw, g, bin, y) < DEPTH_WIDTH * gw * h
    ensures GroupBin(gw, g, bin, y) == GroupStart(y * (DEPTH_WIDTH * gw), gw, g) + bin
  {
    BlockBound(g, 40, gw, bin);
    BlockBound(y, h, 40 * gw, g * gw + bin);
    assert h * (40 * gw) == 40 * gw * h;
  }

  // ---- What a frame shows of its measurement

  predicate DepthShown(f: ImageFrame, m: ImageFrame) {
    && f.width == m.width && f.height == m.height
    && if Filled(m.width, m.height, |m.data|) then RowsMirrored(f.data, m.data, m.width, m.height)
       else f.data == m.data
  }

  predicate ConfidenceShown(f: ConfidenceFrame, m: ConfidenceFrame) {
    && f.valid == m.valid && f.width == m.width && f.height == m.height && f.bitDepth == m.bitDepth
    && if m.valid && Filled(m.width, m.height, |m.values|) then RowsMirrored(f.values, m.values, m.width, m.height)
       else f.values == m.values
  }

  predicate HistogramShown(f: HistogramFrame, m: HistogramFrame) {
    && f.valid == m.valid && f.width == m.width && f.height == m.height
    && if m.valid && Filled(m.width, m.height, |m.bins|) && m.width % 40 == 0
       then GroupsMirrored(f.bins, m.bins, m.width / 40, m.height)
       else f.bins == m.bins
  }

  function Negated(points: seq<Point>): (r: seq<Point>)
    ensures |r| == |points|
  {
    seq(|points|, i requires 0 <= i < |points| => Point(-points[i].x, points[i].y, points[i].z))
  }

  predicate CloudShown(f: PointCloudFrame, m: PointCloudFrame) {
    && f.width == m.width && f.height == m.height && f.source == m.source
    && if Filled(m.width, m.height, |m.points|) then RowsMirrored(f.points, Negated(m.points), m.width, m.height)
       else f.points == m.points
  }

  lemma MirrorDepthShows(m: ImageFrame)
    ensures DepthShown(MirrorDepth(m), m)
  {
    if Filled(m.width, m.height, |m.data|) {
      RowsAreMirrored(m.width, m.height, m.data);
      hide MirrorRows, RowsMirrored;
    }
  }

  lemma MirrorConfidenceShows(m: ConfidenceFrame)
    ensures ConfidenceShown(MirrorConfidence(m), m)
  {
    if Filled(m.width, m.height, |m.values|) {
      RowsAreMirrored(m.width, m.height, m.values);
      hide MirrorRows, RowsMirrored;
    }
  }

  lemma MirrorHistogramShows(m: HistogramFrame)
    ensures HistogramShown(MirrorHistogram(m), m)
  {
    if Filled(m.width, m.height, |m.bins|) && m.width % 40 == 0 {
      assert m.width == 40 * (m.width / 40);
      GroupsAreMirrored(m.width / 40, m.height, m.bins);
      hide MirrorGroups, GroupsMirrored;
    }
  }

  lemma MirrorCloudShows(m: PointCloudFrame)
    ensures CloudShown(MirrorCloud(m), m)
  {
    if Filled(m.width, m.height, |m.points|) {
      assert OppositeAll(m.points) == Negated(m.points);
      RowsAreMirrored(m.width, m.height, Negated(m.points));
      hide MirrorRows, RowsMirrored;
    }
  }

  /** The frame carries the measurement's transport, profile, timestamp, confidence and histogram, and its depth and
      cloud where it has them; a missing depth is rebuilt from the frame's cloud, and a missing cloud from the frame's
      depth and calibration, when those allow it. */
  predicate Shows(f: FrameSet, m: Measurement) {
    && f.transport == m.transport && f.profile == m.profile && f.clock == m.clock
    && ConfidenceShown(f.confidence, m.confidence) && HistogramShown(f.histogram, m.histogram)
    && (m.depth.data != [] || m.cloud.points == [] ==> DepthShown(f.depth, m.depth))
    && (m.depth.data == [] && m.cloud.points != [] ==> f.depth == DepthFromCloud(f.cloud))
    && (m.cloud.points != [] || f.depth.data == [] || !f.calibration.valid ==> CloudShown(f.cloud, m.cloud))
    && (m.cloud.points == [] && f.depth.data != [] && f.calibration.valid ==>
          f.cloud == CloudFromDepth(f.depth, f.calibration, MirrorCloud(m.cloud)).1)
  }

  lemma MirrorKeepsEmpty(m: Measurement)
    ensures MirrorDepth(m.depth).data == [] <==> m.depth.data == []
    ensures MirrorCloud(m.cloud).points == [] <==> m.cloud.points == []
  {
    hide MirrorRows;
  }

  /** Every measurement event gives a frame that shows it. */
  lemma {:induction false} MeasurementIsShown(s: CameraState, raw: SourceEvent)
    requires raw.kind == MeasurementEvent
    ensures var (next, f) := Absorb(s, raw);
            f.Some? && Shows(f.value, raw.measurement)
    ensures var (next, f) := Absorb(s, raw);
            && f.value.info == InfoOr(next.latestInfo)
            && f.value.calibration == (if next.latestCalibration.Some? then next.latestCalibration.value
                                       else NO_CALIBRATION)
  {
    var m := raw.measurement;
    MirrorDepthShows(m.depth);
    MirrorCloudShows(m.cloud);
    MirrorConfidenceShows(m.confidence);
    MirrorHistogramShows(m.histogram);
    MirrorKeepsEmpty(m);
    hide MirrorCalibration, DepthFromCloud, CloudFromDepth, MirrorDepth, MirrorCloud, MirrorConfidence, MirrorHistogram,
         DepthShown, CloudShown, ConfidenceShown, HistogramShown, MergeInfoIfPresent, MergeCalibrationIfPresent;
  }

  // ---- All frames of a session

  lemma AbsorbedShown(s: CameraState, p: Polled)
    ensures var (next, frame) := AbsorbPolled(s, p);
            && (frame.Some? <==> p.Event? && p.event.kind == MeasurementEvent)
            && (frame.Some? ==> Shows(frame.value, p.event.measurement))
  {
    FrameOnlyForMeasurement(s, p);
    if p.Event? && p.event.kind == MeasurementEvent {
      MeasurementIsShown(s, p.event);
    }
    hide Absorb, Shows;
  }

  lemma {:induction false} SessionShown(s: CameraState, polled: seq<Polled>)
    ensures var frames, ms := FramesOf(s, polled), Measurements(polled);
            |frames| == |ms| && forall i :: 0 <= i < |frames| ==> Shows(frames[i], ms[i].measurement)
    decreases |polled|
  {
    if polled != [] {
      AbsorbedShown(s, polled[0]);
      hide AbsorbPolled, Shows;
      SessionShown(AbsorbPolled(s, polled[0]).0, polled[1..]);
    }
  }

  /** The beginnings of a session that end with a measurement. */
  function Measured(polled: seq<Polled>): seq<seq<Polled>>
    decreases |polled|
  {
    if polled == [] then []
    else
      var n := |polled| - 1;
      Measured(polled[..n])
      + if polled[n].Event? && polled[n].event.kind == MeasurementEvent then [polled] else []
  }

  /** The info and calibration of a frame are those the session had offered by then. */
  predicate Knows(s: CameraState, f: FrameSet, before: seq<Polled>) {
    && f.info == MergeDeviceInfo(AllInfo(before), InfoOr(s.latestInfo))
    && f.calibration == (if LastOffered(before).Some? then LastOffered(before).value
                         else if s.latestCalibration.Some? then s.latestCalibration.value
                         else NO_CALIBRATION)
  }

  lemma LastKnows(s: CameraState, before: seq<Polled>)
    requires before != []
    ensures var n := |before| - 1;
            var (next, frame) := AbsorbPolled(FinalCamera(s, before[..n]), before[n]);
            && FramesOf(s, before) == FramesOf(s, before[..n]) + (if frame.Some? then [frame.value] else [])
            && (frame.Some? ==> Knows(s, frame.value, before))
            && (frame.Some? <==> before[n].Event? && before[n].event.kind == MeasurementEvent)
  {
    var n := |before| - 1;
    var t, p := FinalCamera(s, before[..n]), before[n];
    assert before == before[..n] + [p];
    SessionSplits(s, before[..n], [p]);
    LastTaken(t, p);
    FrameOnlyForMeasurement(t, p);
    if p.Event? && p.event.kind == MeasurementEvent {
      MeasurementIsShown(t, p.event);
      InfoIsLatest(s, before);
      CalibrationIsLatestValid(s, before);
    }
    hide Absorb, FramesOf, FinalCamera, Shows, AllInfo, LastOffered, MergeDeviceInfo, InfoOr, EmptyFrame;
  }

  lemma {:induction false} SessionKnown(s: CameraState, polled: seq<Polled>)
    ensures var frames, befores := FramesOf(s, polled), Measured(polled);
            |frames| == |befores| && forall i :: 0 <= i < |frames| ==> Knows(s, frames[i], befores[i])
    decreases |polled|
  {
    if polled != [] {
      LastKnows(s, polled);
      hide FramesOf, Knows, AbsorbPolled;
      SessionKnown(s, polled[..|polled| - 1]);
    }
  }

  /** The non-empty frames that successive calls of Poll return are one for each measurement, in order; each shows its
      measurement sample by sample, and the device info and calibration offered up to it. */
  lemma {:induction false} ReturnedFramesShow(s: CameraState, polled: seq<Polled>)
    ensures var frames, ms, befores := Returned(s, polled), Measurements(polled), Measured(polled);
            && |frames| == |ms| == |befores|
            && forall i :: 0 <= i < |frames| ==> Shows(frames[i], ms[i].measurement) && Knows(s, frames[i], befores[i])
  {
    hide *;
    CallsReturnSession(s, polled);
    SessionShown(s, polled);
    SessionKnown(s, polled);
  }

  /** The frame of a call that had nothing to deliver: no number, no samples, and nothing valid. */
  predicate IsEmpty(f: FrameSet) {
    && f.sequence == 0 && f.transport == SerialTransport && f.profile == Auto
    && !f.clock.valid && f.clock.value == f.clock.raw0 == f.clock.raw1 == 0 && !f.calibration.valid
    && f.info == DeviceInfo(None, None, None, None, None, None, None, None, [], [])
    && f.depth == ImageFrame(0, 0, []) && f.cloud.points == [] && f.cloud.width == f.cloud.height == 0
    && !f.confidence.valid && f.confidence.values == [] && !f.histogram.valid && f.histogram.bins == []
  }

  /** A call whose source runs out of events after some info updates gives an empty frame, and leaves what the updates
      left. */
  lemma {:induction false} NoEventGivesEmptyFrame(s: CameraState, source: seq<Polled>, n: nat)
    requires n < |source| && source[n].Event? && source[n].event.kind == NoEvent
    requires forall i :: 0 <= i < n ==> Passed(source[i])
    ensures var (end, result, taken) := PollCamera(s, source);
            && result.PollFrame? && IsEmpty(result.frame)
            && taken == n + 1 && end == FinalCamera(s, source[..n])
    decreases n
  {
    if n == 0 {
      assert source[..0] == [];
    } else {
      hide IsEmpty, Absorb;
      NoEventGivesEmptyFrame(AbsorbPolled(s, source[0]).0, source[1..], n - 1);
      assert source[..n][1..] == source[1..][..n - 1];
    }
  }

  /** The calibration an application sees is the device's with the principal point counted from the other side of the
      40 pixel row and p2 negated. */
  lemma {:induction false} OfferedParameters(p: Polled)
    ensures Offered(p).Some? ==>
              p.Event? && exists c ::
                && (p.event.measurement.calibration == Some(c) || p.event.calibration == Some(c))
                && Parameters(Offered(p).value) == Parameters(c)[2 := 39.0 - c.cx][7 := -c.p2]
  {
    if Offered(p).Some? {
      var own := p.event.measurement.calibration;
      if own.Some? {
        MirroredParameters(own.value);
      }
      if p.event.calibration.Some? {
        MirroredParameters(p.event.calibration.value);
      }
      hide MirrorDepth, MirrorCloud, MirrorConfidence, MirrorHistogram, MirrorCalibration, Parameters;
    }
  }

  // ---- Device info, field by field

  function LastPresent<T>(xs: seq<Option<T>>): Option<T> {
    if xs == [] then None
    else if xs[|xs| - 1].Some? then xs[|xs| - 1]
    else LastPresent(xs[..|xs| - 1])
  }

  function SaidBy(p: Polled): DeviceInfo {
    if p.Event? && p.event.kind != NoEvent then p.event.info else NO_INFO
  }

  /** What a session's events said about one field, in order. */
  function Said<T>(field: DeviceInfo -> Option<T>, polled: seq<Polled>): seq<Option<T>> {
    if polled == [] then [] else [field(SaidBy(polled[0]))] + Said(field, polled[1..])
  }

  ghost predicate UpdateWins<T(!new)>(field: DeviceInfo -> Option<T>) {
    && field(NO_INFO) == None
    && forall u: DeviceInfo, t: DeviceInfo ::
         field(MergeDeviceInfo(u, t)) == if field(u).Some? then field(u) else field(t)
  }

  lemma {:induction false} LastPresentCons<T>(x: Option<T>, xs: seq<Option<T>>)
    ensures LastPresent([x] + xs) == if LastPresent(xs).Some? then LastPresent(xs) else x
  {
    if xs == [] {
      assert ([x] + xs)[..0] == [];
    } else {
      assert ([x] + xs)[..|xs|] == [x] + xs[..|xs| - 1];
      LastPresentCons(x, xs[..|xs| - 1]);
    }
  }

  lemma {:induction false} FieldIsLast<T(!new)>(field: DeviceInfo -> Option<T>, polled: seq<Polled>)
    requires UpdateWins(field)
    ensures field(AllInfo(polled)) == LastPresent(Said(field, polled))
    decreases |polled|
  {
    if polled != [] {
      hide MergeDeviceInfo;
      FieldIsLast(field, polled[1..]);
      LastPresentCons(field(SaidBy(polled[0])), Said(field, polled[1..]));
      assert AllInfo(polled) == MergeDeviceInfo(AllInfo(polled[1..]), SaidBy(polled[0]));
    }
  }

  function Blob(b: seq<bv8>): Option<seq<bv8>> {
    if b == [] then None else Some(b)
  }

  /** Every field of the merged info is the last one any event said; an empty blob says nothing. */
  lemma {:induction false} EveryFieldIsLast(polled: seq<Polled>)
    ensures var all := AllInfo(polled);
            && all.protocolVersion == LastPresent(Said((i: DeviceInfo) => i.protocolVersion, polled))
            && all.socVersion == LastPresent(Said((i: DeviceInfo) => i.socVersion, polled))
            && all.socSerialNumber == LastPresent(Said((i: DeviceInfo) => i.socSerialNumber, polled))
            && all.sensorVersion == LastPresent(Said((i: DeviceInfo) => i.sensorVersion, polled))
            && all.sensorSerialNumber == LastPresent(Said((i: DeviceInfo) => i.sensorSerialNumber, polled))
            && all.stateCode == LastPresent(Said((i: DeviceInfo) => i.stateCode, polled))
            && all.sensorTemperature == LastPresent(Said((i: DeviceInfo) => i.sensorTemperature, polled))
            && all.versionText == LastPresent(Said((i: DeviceInfo) => i.versionText, polled))
            && Blob(all.vendorBlob) == LastPresent(Said((i: DeviceInfo) => Blob(i.vendorBlob), polled))
            && Blob(all.eeprom) == LastPresent(Said((i: DeviceInfo) => Blob(i.eeprom), polled))
  {
    FieldIsLast((i: DeviceInfo) => i.protocolVersion, polled);
    FieldIsLast((i: DeviceInfo) => i.socVersion, polled);
    FieldIsLast((i: DeviceInfo) => i.socSerialNumber, polled);
    FieldIsLast((i: DeviceInfo) => i.sensorVersion, polled);
    FieldIsLast((i: DeviceInfo) => i.sensorSerialNumber, polled);
    FieldIsLast((i: DeviceInfo) => i.stateCode, polled);
    FieldIsLast((i: DeviceInfo) => i.sensorTemperature, polled);
    FieldIsLast((i: DeviceInfo) => i.versionText, polled);
    FieldIsLast((i: DeviceInfo) => Blob(i.vendorBlob), polled);
    FieldIsLast((i: DeviceInfo) => Blob(i.eeprom), polled);
  }
}
