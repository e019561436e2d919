/** Calibration, undistortion and the two conversions between depth and point cloud, over the reals. */
module FrameGeometry {
  import opened Wrappers
  import opened TimestampNormalizer
  import opened FrameModel
  import opened Mirror

  const TINY := 0.000000000001
  const SMALLEST_FOCAL_LENGTH := 0.000001

  function Abs(x: real): real {
    if x >= 0.0 then x else -x
  }

  function SafeReciprocal(x: real): real {
    if Abs(x) <= TINY then 0.0 else 1.0 / x
  }

  predicate HasCalibrationNumbers(fx: real, fy: real) {
    Abs(fx) > SMALLEST_FOCAL_LENGTH && Abs(fy) > SMALLEST_FOCAL_LENGTH
  }

  function CalibrationFromRaw(raw: RawCalibration): Calibration {
    Calibration(raw[0], raw[1], raw[2], raw[3], raw[4], raw[5], raw[6], raw[7],
                raw[8], raw[9], raw[10], raw[11], raw, HasCalibrationNumbers(raw[0], raw[1]))
  }

  /** The calibration of the mirrored image: the principal point and one tangential term change. */
  function MirrorCalibration(c: Calibration, width: U32): Calibration {
    if width == 0 then c
    else
      var cx := (width - 1) as real - c.cx;
      c.(cx := cx, p2 := -c.p2, raw := c.raw[2 := cx][7 := -c.p2], valid := HasCalibrationNumbers(c.fx, c.fy))
  }

  // ---- Undistortion

  type Ray = (real, real)

  function SquaredRadius(x: real, y: real): real {
    x * x + y * y
  }

  function RadialPolynomial(a: real, b: real, c: real, r2: real): real {
    var r4 := r2 * r2;
    var r6 := r4 * r2;
    1.0 + a * r2 + b * r4 + c * r6
  }

  /** The rational radial factor at squared radius r2, unless it degenerates. */
  function Radial(c: Calibration, r2: real): (f: Option<real>)
    ensures f.Some? ==> f.value != 0.0
  {
    var numerator := RadialPolynomial(c.k1, c.k2, c.k3, r2);
    var denominator := RadialPolynomial(c.k4, c.k5, c.k6, r2);
    if Abs(numerator) <= TINY || Abs(denominator) <= TINY then None
    else
      QuotientNonZero(numerator, denominator);
      Some(numerator / denominator)
  }

  /** The tangential displacement along x; along y it is the same with the coefficients exchanged. */
  function Tangential(p: real, q: real, x: real, y: real, r2: real): real {
    2.0 * p * x * y + q * (r2 + 2.0 * x * x)
  }

  function Corrected(distorted: real, delta: real, radial: real): real
    requires radial != 0.0
  {
    (distorted - delta) / radial
  }

  /** One round of the fixed-point iteration from r towards the ray of the distorted d. */
  function UndistortStep(c: Calibration, d: Ray, r: Ray): Option<Ray> {
    var (x, y) := r;
    var r2 := SquaredRadius(x, y);
    match Radial(c, r2)
    case None => None
    case Some(radial) =>
      Some((Corrected(d.0, Tangential(c.p1, c.p2, x, y, r2), radial),
            Corrected(d.1, Tangential(c.p2, c.p1, y, x, r2), radial)))
  }

  lemma QuotientNonZero(a: real, b: real)
    requires a != 0.0 && b != 0.0
    ensures a / b != 0.0
  {
    assert (a / b) * b == a;
  }

  function UndistortSteps(c: Calibration, d: Ray, r: Ray, n: nat): Option<Ray> {
    if n == 0 then Some(r)
    else
      match UndistortSteps(c, d, r, n - 1)
      case None => None
      case Some(s) => UndistortStep(c, d, s)
  }

  function Scaled(offset: real, focalLength: real): real {
    offset * SafeReciprocal(focalLength)
  }

  function Distorted(c: Calibration, pixelX: real, pixelY: real): Ray {
    (Scaled(pixelX - c.cx, c.fx), Scaled(pixelY - c.cy, c.fy))
  }

  function PixelToRay(c: Calibration, pixelX: real, pixelY: real): Option<Ray> {
    if !c.valid then None
    else
      var d := Distorted(c, pixelX, pixelY);
      UndistortSteps(c, d, d, 8)
  }

  method UndistortPixelToRay(c: Calibration, pixelX: real, pixelY: real) returns (ray: Option<Ray>)
    ensures ray == PixelToRay(c, pixelX, pixelY)
  {
    if !c.valid {
      return None;
    }
    var d := Distorted(c, pixelX, pixelY);
    var r := d;
    for iteration := 0 to 8
      invariant UndistortSteps(c, d, d, iteration) == Some(r)
    {
      hide Radial, Tangential, Corrected, SquaredRadius;
      var (x, y) := r;
      var r2 := SquaredRadius(x, y);
      var radial := Radial(c, r2);
      if radial.None? {
        FailureStays(c, d, d, iteration + 1, 8);
        return None;
      }
      var deltaX, deltaY := Tangential(c.p1, c.p2, x, y, r2), Tangential(c.p2, c.p1, y, x, r2);
      r := (Corrected(d.0, deltaX, radial.value), Corrected(d.1, deltaY, radial.value));
    }
    return Some(r);
  }

  lemma {:induction false} FailureStays(c: Calibration, d: Ray, r: Ray, m: nat, n: nat)
    requires m <= n && UndistortSteps(c, d, r, m) == None
    ensures UndistortSteps(c, d, r, n) == None
    decreases n
  {
    hide UndistortStep;
    if m < n {
      FailureStays(c, d, r, m, n - 1);
    }
  }

  // ---- Depth to point cloud

  /** One sample: a device marker keeps its value, a measured depth scales the ray of its pixel. */
  function PointAt(c: Calibration, width: nat, i: nat, depth: U16): Option<Point>
    requires width > 0
  {
    var z := depth as real;
    if z <= 2.0 then Some(Point(0.0, 0.0, z))
    else
      match PixelToRay(c, (i % width) as real, (i / width) as real)
      case None => None
      case Some(ray) => Some(AtDepth(ray, z))
  }

  function AtDepth(ray: Ray, z: real): Point {
    Point(ray.0 * z, ray.1 * z, z)
  }

  predicate Buildable(depth: ImageFrame, c: Calibration) {
    c.valid && HasExpectedGeometry(depth.width, depth.height, |depth.data|)
  }

  predicate AllPoints(depth: ImageFrame, c: Calibration, n: nat)
    requires depth.width > 0 && n <= |depth.data|
  {
    forall i :: 0 <= i < n ==> PointAt(c, depth.width, i, depth.data[i]).Some?
  }

  function Points(depth: ImageFrame, c: Calibration): (p: seq<Point>)
    requires depth.width > 0 && AllPoints(depth, c, |depth.data|)
  {
    seq(|depth.data|, i requires 0 <= i < |depth.data| => PointAt(c, depth.width, i, depth.data[i]).value)
  }

  /** The cloud left in place of old, and whether it was built. */
  function CloudFromDepth(depth: ImageFrame, c: Calibration, previous: PointCloudFrame): (bool, PointCloudFrame) {
    if !Buildable(depth, c) then (false, previous)
    else if AllPoints(depth, c, |depth.data|) then
      (true, PointCloudFrame(depth.width, depth.height, DerivedFromDepth, Points(depth, c)))
    else (false, NO_CLOUD)
  }

  method BuildPointCloudFromDepth(depth: ImageFrame, c: Calibration, previous: PointCloudFrame)
    returns (ok: bool, cloud: PointCloudFrame)
    ensures (ok, cloud) == CloudFromDepth(depth, c, previous)
  {
    if !c.valid || depth.width == 0 || depth.height == 0 || |depth.data| != depth.width * depth.height {
      return false, previous;
    }
    hide PointAt;
    var points := new Point[|depth.data|](_ => Point(0.0, 0.0, 0.0));
    for y := 0 to depth.height
      invariant y * depth.width <= |depth.data| && AllPoints(depth, c, y * depth.width)
      invariant forall i :: 0 <= i < y * depth.width ==>
                  points[i] == PointAt(c, depth.width, i, depth.data[i]).value
    {
      MulMono(y + 1, depth.height, depth.width);
      assert (y + 1) * depth.width == y * depth.width + depth.width;
      var built := BuildRow(depth, c, y, y * depth.width, points);
      if !built {
        return false, NO_CLOUD;
      }
    }
    assert points[..] == Points(depth, c);
    return true, PointCloudFrame(depth.width, depth.height, DerivedFromDepth, points[..]);
  }

  /** The samples of one row, in order, until one cannot be undistorted. */
  method BuildRow(depth: ImageFrame, c: Calibration, y: nat, base: nat, points: array<Point>) returns (ok: bool)
    requires c.valid && depth.width > 0 && base == y * depth.width
    requires base + depth.width <= |depth.data| == points.Length
    modifies points
    ensures forall i :: 0 <= i < base ==> points[i] == old(points[i])
    ensures ok ==> forall i :: base <= i < base + depth.width ==>
              && PointAt(c, depth.width, i, depth.data[i]).Some?
              && points[i] == PointAt(c, depth.width, i, depth.data[i]).value
    ensures !ok ==> exists i :: base <= i < base + depth.width && PointAt(c, depth.width, i, depth.data[i]) == None
  {
    hide PixelToRay;
    for x := 0 to depth.width
      invariant forall i :: 0 <= i < base ==> points[i] == old(points[i])
      invariant forall i :: base <= i < base + x ==>
                  && PointAt(c, depth.width, i, depth.data[i]).Some?
                  && points[i] == PointAt(c, depth.width, i, depth.data[i]).value
    {
      DivModOf(y, x, depth.width);
      var index := base + x;
      var z := depth.data[index] as real;
      if z <= 2.0 {
        points[index] := Point(0.0, 0.0, z);
      } else {
        var ray := UndistortPixelToRay(c, x as real, y as real);
        if ray.None? {
          assert PointAt(c, depth.width, index, depth.data[index]) == None;
          return false;
        }
        points[index] := AtDepth(ray.value, z);
      }
    }
    return true;
  }

  // ---- Point cloud to depth

  /** Clamp to 16 bits and round half away from zero; nothing at or behind the sensor. */
  function DepthOf(z: real): U16 {
    if z <= 0.0 then 0
    else if z >= 65535.0 then 65535
    else (z + 0.5).Floor
  }

  function DepthFromCloud(cloud: PointCloudFrame): ImageFrame {
    if !HasExpectedGeometry(cloud.width, cloud.height, |cloud.points|) then NO_DEPTH
    else ImageFrame(cloud.width, cloud.height,
                    seq(|cloud.points|, i requires 0 <= i < |cloud.points| => DepthOf(cloud.points[i].z)))
  }

  method BuildDepthFromPointCloud(cloud: PointCloudFrame) returns (depth: ImageFrame)
    ensures depth == DepthFromCloud(cloud)
  {
    if cloud.width == 0 || cloud.height == 0 || |cloud.points| != cloud.width * cloud.height {
      return NO_DEPTH;
    }
    var data := new U16[|cloud.points|](_ => 0);
    for i := 0 to |cloud.points|
      invariant forall k :: 0 <= k < i ==> data[k] == DepthOf(cloud.points[k].z)
      invariant forall k :: i <= k < |cloud.points| ==> data[k] == 0
    {
      var z := cloud.points[i].z;
      if z > 0.0 {
        var clamped := if z < 65535.0 then z else 65535.0;
        data[i] := (clamped + 0.5).Floor;
      }
    }
    return ImageFrame(cloud.width, cloud.height, data[..]);
  }

  // ---- Mirrored frames

  function MirrorDepth(depth: ImageFrame): ImageFrame {
    if HasExpectedGeometry(depth.width, depth.height, |depth.data|)
    then depth.(data := MirrorRows(depth.width, depth.height, depth.data)) else depth
  }

  function Opposite(p: Point): Point {
    p.(x := -p.x)
  }

  function OppositeAll(ps: seq<Point>): (r: seq<Point>)
    ensures |r| == |ps|
  {
    seq(|ps|, i requires 0 <= i < |ps| => Opposite(ps[i]))
  }

  function MirrorCloud(cloud: PointCloudFrame): PointCloudFrame {
    if HasExpectedGeometry(cloud.width, cloud.height, |cloud.points|)
    then cloud.(points := MirrorRows(cloud.width, cloud.height, OppositeAll(cloud.points))) else cloud
  }

  function MirrorConfidence(c: ConfidenceFrame): ConfidenceFrame {
    if c.valid && HasExpectedGeometry(c.width, c.height, |c.values|)
    then c.(values := MirrorRows(c.width, c.height, c.values)) else c
  }

  function MirrorHistogram(h: HistogramFrame): HistogramFrame {
    if h.valid && HasExpectedGeometry(h.width, h.height, |h.bins|) && h.width % DEPTH_WIDTH == 0
    then h.(bins := MirrorGroups(h.width / DEPTH_WIDTH, h.height, h.bins)) else h
  }

  function MirrorMeasurement(m: Measurement): Measurement {
    m.(calibration := if m.calibration.Some? then Some(MirrorCalibration(m.calibration.value, DEPTH_WIDTH)) else None,
       depth := MirrorDepth(m.depth), cloud := MirrorCloud(m.cloud),
       confidence := MirrorConfidence(m.confidence), histogram := MirrorHistogram(m.histogram))
  }

  /** The first loop over a row: negate x. */
  method NegateRow(points: array<Point>, base: nat, w: nat)
    requires base + w <= points.Length
    modifies points
    ensures forall i :: base <= i < base + w ==> points[i] == Opposite(old(points[i]))
    ensures forall i :: 0 <= i < points.Length && !(base <= i < base + w) ==> points[i] == old(points[i])
  {
    for x := 0 to w
      invariant forall i :: base <= i < base + x ==> points[i] == Opposite(old(points[i]))
      invariant forall i :: 0 <= i < points.Length && !(base <= i < base + x) ==> points[i] == old(points[i])
    {
      points[base + x] := Opposite(points[base + x]);
    }
  }

  /** The body of the loop over a cloud: negate x along the row, then reverse the row. */
  method MirrorCloudRow(points: array<Point>, ghost was: seq<Point>, ghost h: nat, ghost y: nat, base: nat, w: nat)
    requires w > 0 && |was| == w * h == points.Length && base == y * w && base + w <= points.Length
    requires forall i :: base <= i < base + w ==> points[i] == was[i]
    modifies points
    ensures forall i :: base <= i < base + w ==> points[i] == MirrorRows(w, h, OppositeAll(was))[i]
    ensures forall i :: 0 <= i < points.Length && !(base <= i < base + w) ==> points[i] == old(points[i])
  {
    NegateRow(points, base, w);
    ReverseRow(points, base, w);
    forall i | base <= i < base + w
      ensures points[i] == MirrorRows(w, h, OppositeAll(was))[i]
    {
      MirrorIndexOf(w, y, i - base);
    }
  }

  /** The loop over a cloud. */
  method MirrorPointCloud(cloud: PointCloudFrame) returns (mirrored: PointCloudFrame)
    ensures mirrored == MirrorCloud(cloud)
  {
    if !HasExpectedGeometry(cloud.width, cloud.height, |cloud.points|) {
      return cloud;
    }
    var w := cloud.width;
    var points := new Point[|cloud.points|](i requires 0 <= i < |cloud.points| => cloud.points[i]);
    ghost var result := MirrorRows(w, cloud.height, OppositeAll(cloud.points));
    hide MirrorRows, OppositeAll;
    for y := 0 to cloud.height
      invariant forall i :: 0 <= i < y * w && i < points.Length ==> points[i] == result[i]
      invariant forall i :: y * w <= i < points.Length ==> points[i] == cloud.points[i]
    {
      MulMono(y + 1, cloud.height, w);
      var base := y * w;
      assert (y + 1) * w == base + w;
      MirrorCloudRow(points, cloud.points, cloud.height, y, base, w);
    }
    assert points[..] == result;
    return cloud.(points := points[..]);
  }

  method NormalizeMeasurementOrientation(m: Measurement) returns (r: Measurement)
    ensures r == MirrorMeasurement(m)
  {
    hide MirrorRows, MirrorGroups, MirrorCalibration;
    var depth := new U16[|m.depth.data|](i requires 0 <= i < |m.depth.data| => m.depth.data[i]);
    assert depth[..] == m.depth.data;
    MirrorImageRows(m.depth.width, m.depth.height, depth);
    var cloud := MirrorPointCloud(m.cloud);
    var values := new U16[|m.confidence.values|](i requires 0 <= i < |m.confidence.values| => m.confidence.values[i]);
    assert values[..] == m.confidence.values;
    if m.confidence.valid {
      MirrorImageRows(m.confidence.width, m.confidence.height, values);
    }
    var bins := new U16[|m.histogram.bins|](i requires 0 <= i < |m.histogram.bins| => m.histogram.bins[i]);
    assert bins[..] == m.histogram.bins;
    MirrorHistogramPixelGroups(m.histogram.valid, m.histogram.width, m.histogram.height, bins);
    r := m.(calibration := if m.calibration.Some? then Some(MirrorCalibration(m.calibration.value, DEPTH_WIDTH))
                           else None,
            depth := m.depth.(data := depth[..]), cloud := cloud,
            confidence := m.confidence.(values := values[..]),
            histogram := m.histogram.(bins := bins[..]));
  }
}
