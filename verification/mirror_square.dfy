/** Mirroring commutes with both conversions, and the conversions undo each other. */
module MirrorSquare {
  import opened Wrappers
  import opened TimestampNormalizer
  import opened FrameModel
  import opened Mirror
  import opened FrameGeometry

  // ---- Calibration

  /** The mirrored calibration is still the one its raw parameters describe. */
  lemma {:induction false} MirrorKeepsRawInStep(c: Calibration, width: U32)
    requires c == CalibrationFromRaw(c.raw)
    ensures MirrorCalibration(c, width) == CalibrationFromRaw(MirrorCalibration(c, width).raw)
    ensures MirrorCalibration(MirrorCalibration(c, width), width) == c
  {
    assert c.raw[2 := c.cx][7 := c.p2] == c.raw;
    if width > 0 {
      assert c.raw[2 := c.cx][7 := c.p2] == MirrorCalibration(c, width).raw[2 := c.cx][7 := c.p2];
    }
  }

  // ---- Rays

  function Flip(r: Ray): Ray {
    (-r.0, r.1)
  }

  function FlipResult(r: Option<Ray>): Option<Ray> {
    if r.Some? then Some(Flip(r.value)) else None
  }

  /** m undistorts like the mirrored c. */
  predicate Mirrored(c: Calibration, m: Calibration) {
    m == c.(cx := m.cx, p2 := -c.p2, raw := m.raw, valid := m.valid)
  }

  /** The displacement along x is odd in x under q -> -q; along y it is even. */
  lemma TangentialFlips(p: real, q: real, x: real, y: real, r2: real)
    ensures Tangential(p, -q, -x, y, r2) == -Tangential(p, q, x, y, r2)
    ensures Tangential(-p, q, y, -x, r2) == Tangential(p, q, y, x, r2)
  {
  }

  lemma CorrectedFlips(distorted: real, delta: real, radial: real)
    requires radial != 0.0
    ensures Corrected(-distorted, -delta, radial) == -Corrected(distorted, delta, radial)
  {
  }

  lemma ScaledFlips(offset: real, focalLength: real)
    ensures Scaled(-offset, focalLength) == -Scaled(offset, focalLength)
  {
  }

  lemma AtDepthFlips(ray: Ray, z: real)
    ensures AtDepth(Flip(ray), z) == Opposite(AtDepth(ray, z))
  {
  }

  lemma SquaredRadiusFlips(x: real, y: real)
    ensures SquaredRadius(-x, y) == SquaredRadius(x, y)
  {
  }

  /** One round of the iteration: negating x on the way in negates it on the way out. */
  lemma {:induction false} StepFlips(c: Calibration, m: Calibration, d: Ray, r: Ray)
    requires Mirrored(c, m)
    ensures UndistortStep(m, Flip(d), Flip(r)) == FlipResult(UndistortStep(c, d, r))
  {
    var (x, y) := r;
    var r2 := SquaredRadius(x, y);
    SquaredRadiusFlips(x, y);
    RadialKept(c, m, r2);
    TangentialFlips(c.p1, c.p2, x, y, r2);
    TangentialFlips(c.p2, c.p1, x, y, r2);
    hide Radial, Tangential, Corrected, SquaredRadius;
    var radial := Radial(c, r2);
    if radial.Some? {
      CorrectedFlips(d.0, Tangential(c.p1, c.p2, x, y, r2), radial.value);
    }
  }

  lemma RadialKept(c: Calibration, m: Calibration, r2: real)
    requires Mirrored(c, m)
    ensures Radial(m, r2) == Radial(c, r2)
  {
    hide RadialPolynomial;
  }

  lemma {:induction false} StepsFlip(c: Calibration, m: Calibration, d: Ray, r: Ray, n: nat)
    requires Mirrored(c, m)
    ensures UndistortSteps(m, Flip(d), Flip(r), n) == FlipResult(UndistortSteps(c, d, r, n))
  {
    hide UndistortStep;
    if n > 0 {
      StepsFlip(c, m, d, r, n - 1);
      var s := UndistortSteps(c, d, r, n - 1);
      if s.Some? {
        StepFlips(c, m, d, s.value);
      }
    }
  }

  /** The ray of the mirrored pixel under the mirrored calibration is the mirrored ray. */
  lemma {:induction false} RayFlips(c: Calibration, width: U32, pixelX: real, pixelY: real)
    requires width > 0 && c.valid == HasCalibrationNumbers(c.fx, c.fy)
    ensures PixelToRay(MirrorCalibration(c, width), (width - 1) as real - pixelX, pixelY) ==
            FlipResult(PixelToRay(c, pixelX, pixelY))
  {
    var m := MirrorCalibration(c, width);
    var d := Distorted(c, pixelX, pixelY);
    assert (width - 1) as real - pixelX - m.cx == -(pixelX - c.cx);
    ScaledFlips(pixelX - c.cx, c.fx);
    hide UndistortSteps, Scaled;
    assert Distorted(m, (width - 1) as real - pixelX, pixelY) == Flip(d);
    StepsFlip(c, m, d, d, 8);
  }

  // ---- The commuting square

  lemma PointFlips(c: Calibration, depth: ImageFrame, i: int)
    requires HasExpectedGeometry(depth.width, depth.height, |depth.data|) && 0 <= i < |depth.data|
    requires c.valid == HasCalibrationNumbers(c.fx, c.fy)
    ensures var j := MirrorIndex(depth.width, i);
            && 0 <= j < |depth.data|
            && var p := PointAt(c, depth.width, j, depth.data[j]);
               PointAt(MirrorCalibration(c, depth.width), depth.width, i, depth.data[j]) ==
               if p.Some? then Some(Opposite(p.value)) else None
  {
    var w := depth.width;
    var j := MirrorIndex(w, i);
    MirrorIndexFacts(w, depth.height, i);
    var column, row := j % w, j / w;
    ColumnFlips(w, i % w, column);
    hide MirrorIndex;
    RayFlips(c, w, column as real, row as real);
    SampleFlips(c, MirrorCalibration(c, w), column as real, (i % w) as real, row as real, depth.data[j]);
    PointAtSample(c, w, j, depth.data[j]);
    PointAtSample(MirrorCalibration(c, w), w, i, depth.data[j]);
  }

  lemma ColumnFlips(w: int, x: int, column: int)
    requires column == w - 1 - x
    ensures (w - 1) as real - column as real == x as real
  {
  }

  /** A sample at pixel coordinates. */
  function SampleAt(c: Calibration, pixelX: real, pixelY: real, z: U16): Option<Point> {
    if z <= 2 then Some(Point(0.0, 0.0, z as real))
    else
      match PixelToRay(c, pixelX, pixelY)
      case None => None
      case Some(ray) => Some(AtDepth(ray, z as real))
  }

  lemma PointAtSample(c: Calibration, w: nat, i: nat, z: U16)
    requires w > 0
    ensures PointAt(c, w, i, z) == SampleAt(c, (i % w) as real, (i / w) as real, z)
  {
    hide PixelToRay;
  }

  lemma SampleFlips(c: Calibration, m: Calibration, x: real, mirroredX: real, y: real, z: U16)
    requires PixelToRay(m, mirroredX, y) == FlipResult(PixelToRay(c, x, y))
    ensures var p := SampleAt(c, x, y, z);
            SampleAt(m, mirroredX, y, z) == if p.Some? then Some(Opposite(p.value)) else None
  {
    hide PixelToRay;
    var ray := PixelToRay(c, x, y);
    if ray.Some? {
      AtDepthFlips(ray.value, z as real);
      hide AtDepth;
    }
  }

  lemma AllPointsFlip(c: Calibration, depth: ImageFrame)
    requires HasExpectedGeometry(depth.width, depth.height, |depth.data|)
    requires c.valid == HasCalibrationNumbers(c.fx, c.fy)
    ensures var m, mirrored := MirrorCalibration(c, depth.width), MirrorDepth(depth);
            && (AllPoints(mirrored, m, |depth.data|) <==> AllPoints(depth, c, |depth.data|))
            && (AllPoints(depth, c, |depth.data|) ==>
                  Points(mirrored, m) == MirrorRows(depth.width, depth.height, OppositeAll(Points(depth, c))))
  {
    var m, mirrored := MirrorCalibration(c, depth.width), MirrorDepth(depth);
    hide PointAt, MirrorCalibration, MirrorIndex;
    forall i | 0 <= i < |depth.data|
      ensures var j := MirrorIndex(depth.width, i);
              && 0 <= j < |depth.data| && MirrorIndex(depth.width, j) == i
              && PointAt(m, depth.width, i, mirrored.data[i]) ==
                 var p := PointAt(c, depth.width, j, depth.data[j]);
                 if p.Some? then Some(Opposite(p.value)) else None
    {
      MirrorIndexFacts(depth.width, depth.height, i);
      PointFlips(c, depth, i);
    }
    if AllPoints(depth, c, |depth.data|) {
      var lhs := Points(mirrored, m);
      var rhs := MirrorRows(depth.width, depth.height, OppositeAll(Points(depth, c)));
      forall i | 0 <= i < |depth.data|
        ensures lhs[i] == rhs[i]
      {
        var j := MirrorIndex(depth.width, i);
        MirrorIndexFacts(depth.width, depth.height, i);
        assert rhs[i] == OppositeAll(Points(depth, c))[j] == Opposite(Points(depth, c)[j]);
      }
      assert lhs == rhs;
    } else {
      var j :| 0 <= j < |depth.data| && PointAt(c, depth.width, j, depth.data[j]).None?;
      var i := MirrorIndex(depth.width, j);
      assert MirrorIndex(depth.width, i) == j;
      assert PointAt(m, depth.width, i, mirrored.data[i]).None?;
    }
  }

  /** For a calibration whose validity is that of its numbers, building a cloud from the mirrored depth with the
      mirrored calibration succeeds exactly when building from the original does, and gives the mirrored cloud. */
  lemma {:induction false} MirrorCommutesWithBuild(depth: ImageFrame, c: Calibration, previous: PointCloudFrame)
    requires c.valid == HasCalibrationNumbers(c.fx, c.fy)
    ensures var (ok, cloud) := CloudFromDepth(depth, c, previous);
            CloudFromDepth(MirrorDepth(depth), MirrorCalibration(c, depth.width), previous) ==
              (ok, if ok then MirrorCloud(cloud) else cloud)
  {
    if HasExpectedGeometry(depth.width, depth.height, |depth.data|) {
      AllPointsFlip(c, depth);
      hide AllPoints, Points, MirrorRows;
    }
  }

  /** The square commutes on every frame of a given size if and only if the calibration's validity flag is the
      one its numbers give, as CalibrationFromRaw sets it. */
  lemma {:induction false} SquareCommutesExactly(c: Calibration, width: U32, height: U32)
    requires width > 0 && height > 0
    ensures (forall depth: ImageFrame :: depth.width == width && depth.height == height ==> Commutes(depth, c))
            <==> c.valid == HasCalibrationNumbers(c.fx, c.fy)
  {
    if c.valid == HasCalibrationNumbers(c.fx, c.fy) {
      forall depth: ImageFrame | depth.width == width && depth.height == height
        ensures Commutes(depth, c)
      {
        MirrorCommutesWithBuild(depth, c, NO_CLOUD);
      }
    } else {
      var blank := ImageFrame(width, height, seq(width * height, _ => 0));
      BlankIsBuilt(blank, c);
      BlankMirrors(blank);
      BlankIsBuilt(MirrorDepth(blank), MirrorCalibration(c, width));
      hide AllPoints, Points, MirrorRows;
      assert !Commutes(blank, c);
    }
  }

  predicate Blank(depth: ImageFrame) {
    forall i :: 0 <= i < |depth.data| ==> depth.data[i] == 0
  }

  /** Markers need no undistortion. */
  lemma BlankIsBuilt(blank: ImageFrame, c: Calibration)
    requires Blank(blank) && HasExpectedGeometry(blank.width, blank.height, |blank.data|)
    ensures AllPoints(blank, c, |blank.data|)
  {
    hide PixelToRay;
  }

  lemma BlankMirrors(blank: ImageFrame)
    requires Blank(blank) && HasExpectedGeometry(blank.width, blank.height, |blank.data|)
    ensures Blank(MirrorDepth(blank)) && |MirrorDepth(blank).data| == |blank.data|
  {
    forall i | 0 <= i < |blank.data|
      ensures MirrorDepth(blank).data[i] == 0
    {
      MirrorIndexFacts(blank.width, blank.height, i);
    }
  }

  predicate Commutes(depth: ImageFrame, c: Calibration) {
    var (ok, cloud) := CloudFromDepth(depth, c, NO_CLOUD);
    CloudFromDepth(MirrorDepth(depth), MirrorCalibration(c, depth.width), NO_CLOUD) ==
      (ok, if ok then MirrorCloud(cloud) else cloud)
  }

  // ---- Depth from cloud

  lemma WholeDepthSurvives(d: U16)
    ensures DepthOf(d as real) == d
  {
  }

  /** Depth -> cloud -> depth is the identity whenever the cloud is built, markers included. */
  lemma {:induction false} DepthSurvives(depth: ImageFrame, c: Calibration, previous: PointCloudFrame)
    ensures var (ok, cloud) := CloudFromDepth(depth, c, previous);
            ok ==> DepthFromCloud(cloud) == depth
  {
    var (ok, cloud) := CloudFromDepth(depth, c, previous);
    if ok {
      hide PixelToRay;
      forall i | 0 <= i < |depth.data|
        ensures DepthOf(cloud.points[i].z) == depth.data[i]
      {
        WholeDepthSurvives(depth.data[i]);
        assert cloud.points[i].z == depth.data[i] as real;
      }
      assert DepthFromCloud(cloud).data == depth.data;
    }
  }

  /** Device marker samples keep their value in z and lie on the axis. */
  lemma MarkersPreserved(depth: ImageFrame, c: Calibration, previous: PointCloudFrame, i: nat)
    requires i < |depth.data| && depth.data[i] <= 2
    ensures var (ok, cloud) := CloudFromDepth(depth, c, previous);
            ok ==> i < |cloud.points| && cloud.points[i] == Point(0.0, 0.0, depth.data[i] as real)
  {
  }

  /** Rebuilding depth commutes with mirroring the cloud. */
  lemma {:induction false} MirrorCommutesWithRebuild(cloud: PointCloudFrame)
    ensures DepthFromCloud(MirrorCloud(cloud)) == MirrorDepth(DepthFromCloud(cloud))
  {
    if HasExpectedGeometry(cloud.width, cloud.height, |cloud.points|) {
      var d := DepthFromCloud(MirrorCloud(cloud)).data;
      var e := MirrorDepth(DepthFromCloud(cloud)).data;
      forall i | 0 <= i < |cloud.points|
        ensures d[i] == e[i]
      {
        MirrorIndexFacts(cloud.width, cloud.height, i);
      }
      assert d == e;
    }
  }

  /** Mirroring a cloud twice restores it. */
  lemma {:induction false} MirrorCloudInvolution(cloud: PointCloudFrame)
    ensures MirrorCloud(MirrorCloud(cloud)) == cloud
  {
    if HasExpectedGeometry(cloud.width, cloud.height, |cloud.points|) {
      var once := MirrorCloud(cloud);
      var twice := MirrorCloud(once);
      forall i | 0 <= i < |cloud.points|
        ensures twice.points[i] == cloud.points[i]
      {
        MirrorIndexFacts(cloud.width, cloud.height, i);
        assert twice.points[i] == Opposite(once.points[MirrorIndex(cloud.width, i)]);
      }
      assert twice.points == cloud.points;
    }
  }
}
