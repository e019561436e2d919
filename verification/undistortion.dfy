/** What ray a pixel gets and what point a sample gets, in the arithmetic of the camera model. */
module Undistortion {
  import opened Wrappers
  import opened TimestampNormalizer
  import opened FrameModel
  import opened Mirror
  import opened FrameGeometry

  // ---- The calibration's numbers

  /** The twelve parameters in the device's order. */
  function Parameters(c: Calibration): (raw: seq<real>)
    ensures |raw| == 12
  {
    [c.fx, c.fy, c.cx, c.cy, c.k1, c.k2, c.p1, c.p2, c.k3, c.k4, c.k5, c.k6]
  }

  /** A calibration made from raw parameters holds them in the device's order, and is valid exactly when both focal
      lengths exceed 1e-6 in magnitude. */
  lemma {:induction false} CalibrationHoldsParameters(raw: RawCalibration)
    ensures var c := CalibrationFromRaw(raw);
            && c.raw == raw == Parameters(c)
            && (c.valid <==> (c.fx > 0.000001 || c.fx < -0.000001) && (c.fy > 0.000001 || c.fy < -0.000001))
  {
  }

  /** Seen from the other side of a 40 pixel row only cx and p2 change. */
  lemma {:induction false} MirroredParameters(c: Calibration)
    ensures Parameters(MirrorCalibration(c, 40)) == Parameters(c)[2 := 39.0 - c.cx][7 := -c.p2]
  {
    assert (40 - 1) as real == 39.0;
  }

  // ---- One round

  /** 1 + a*s + b*s^2 + c*s^3. */
  function Cubic(a: real, b: real, c: real, s: real): real {
    1.0 + a * s + b * (s * s) + c * (s * s * s)
  }

  lemma PolynomialIsCubic(a: real, b: real, c: real, s: real)
    ensures RadialPolynomial(a, b, c, s) == Cubic(a, b, c, s)
  {
    assert s * s * s == (s * s) * s;
  }

  function NormSquared(r: Ray): real {
    r.0 * r.0 + r.1 * r.1
  }

  predicate Negligible(x: real) {
    -0.000000000001 <= x <= 0.000000000001
  }

  /** The factor by which the lens stretches a ray of squared length s. */
  function Stretch(c: Calibration, s: real): real
    requires Cubic(c.k4, c.k5, c.k6, s) != 0.0
  {
    Cubic(c.k1, c.k2, c.k3, s) / Cubic(c.k4, c.k5, c.k6, s)
  }

  /** The ray v stretched by f and displaced by e. */
  function Moved(v: Ray, f: real, e: Ray): Ray {
    (v.0 * f + e.0, v.1 * f + e.1)
  }

  /** The tangential displacement at a ray. */
  function Displacement(c: Calibration, at: Ray): Ray {
    var (x, y) := at;
    var s := NormSquared(at);
    (2.0 * c.p1 * x * y + c.p2 * (s + 2.0 * x * x), c.p1 * (s + 2.0 * y * y) + 2.0 * c.p2 * x * y)
  }

  /** Where the forward model of the lens puts the ray r: radially by the rational factor at r, tangentially by p1, p2,
      with the factor and the displacement taken at at. */
  function Forward(c: Calibration, r: Ray, at: Ray): Ray
    requires Cubic(c.k4, c.k5, c.k6, NormSquared(at)) != 0.0
  {
    Moved(r, Stretch(c, NormSquared(at)), Displacement(c, at))
  }

  /** Neither polynomial degenerates at r. */
  predicate Regular(c: Calibration, r: Ray) {
    var s := NormSquared(r);
    !Negligible(Cubic(c.k1, c.k2, c.k3, s)) && !Negligible(Cubic(c.k4, c.k5, c.k6, s))
  }

  lemma Undivide(x: real, q: real, t: real)
    requires q != 0.0
    ensures t == x / q <==> t * q == x
  {
    if t * q == x {
      assert x / q == t;
    }
  }

  lemma CorrectedCoordinate(distorted: real, delta: real, f: real, t: real)
    requires f != 0.0
    ensures t == Corrected(distorted, delta, f) <==> t * f + delta == distorted
  {
    var offset := distorted - delta;
    assert Corrected(distorted, delta, f) == offset / f;
    hide Corrected;
    Undivide(offset, f, t);
  }

  lemma CorrectedMeans(d: Ray, e: Ray, f: real, t: Ray)
    requires f != 0.0
    ensures t == (Corrected(d.0, e.0, f), Corrected(d.1, e.1, f)) <==> Moved(t, f, e) == d
  {
    CorrectedCoordinate(d.0, e.0, f, t.0);
    CorrectedCoordinate(d.1, e.1, f, t.1);
    hide Corrected;
    assert t == (t.0, t.1) && d == (d.0, d.1);
  }

  lemma RadialMeans(c: Calibration, s: real)
    ensures var n, d := Cubic(c.k1, c.k2, c.k3, s), Cubic(c.k4, c.k5, c.k6, s);
            && (Radial(c, s).None? <==> Negligible(n) || Negligible(d))
            && (Radial(c, s).Some? ==> d != 0.0 && Radial(c, s).value == Stretch(c, s))
  {
    PolynomialIsCubic(c.k1, c.k2, c.k3, s);
    PolynomialIsCubic(c.k4, c.k5, c.k6, s);
    hide RadialPolynomial, Cubic;
  }

  lemma TangentialMeans(c: Calibration, r: Ray)
    ensures var s := NormSquared(r);
            Displacement(c, r) == (Tangential(c.p1, c.p2, r.0, r.1, s), Tangential(c.p2, c.p1, r.1, r.0, s))
  {
    hide NormSquared;
    var (x, y) := r;
    var s := NormSquared(r);
    var d := Displacement(c, r);
    assert d.0 == 2.0 * c.p1 * x * y + c.p2 * (s + 2.0 * x * x) == Tangential(c.p1, c.p2, x, y, s);
    assert d.1 == c.p1 * (s + 2.0 * y * y) + 2.0 * c.p2 * x * y;
    assert Tangential(c.p2, c.p1, y, x, s) == 2.0 * c.p2 * y * x + c.p1 * (s + 2.0 * y * y);
    assert d == (d.0, d.1);
  }

  /** One round of the iteration, in both directions: it fails exactly where a polynomial degenerates, and otherwise
      gives exactly the ray that the lens, taken at the previous one, moves to the distorted one. */
  lemma {:induction false} RoundMeans(c: Calibration, d: Ray, r: Ray, t: Ray)
    ensures UndistortStep(c, d, r) == None <==> !Regular(c, r)
    ensures Regular(c, r) ==> Cubic(c.k4, c.k5, c.k6, NormSquared(r)) != 0.0
    ensures Regular(c, r) ==> (UndistortStep(c, d, r) == Some(t) <==> Forward(c, t, r) == d)
  {
    hide *;
    var (x, y) := r;
    var s := SquaredRadius(x, y);
    StepUnfold(c, d, r);
    RegularUnfold(c, r);
    RadialMeans(c, s);
    var radial := Radial(c, s);
    if radial.Some? {
      ForwardUnfold(c, t, r);
      CorrectedMeans(d, (Tangential(c.p1, c.p2, x, y, s), Tangential(c.p2, c.p1, y, x, s)), radial.value, t);
    }
  }

  lemma StepUnfold(c: Calibration, d: Ray, r: Ray)
    ensures var (x, y) := r;
            var s := SquaredRadius(x, y);
            var radial := Radial(c, s);
            UndistortStep(c, d, r) ==
              if radial.None? then None
              else Some((Corrected(d.0, Tangential(c.p1, c.p2, x, y, s), radial.value),
                         Corrected(d.1, Tangential(c.p2, c.p1, y, x, s), radial.value)))
  {
    hide Radial, Tangential, Corrected, SquaredRadius;
  }

  lemma NormMeans(r: Ray)
    ensures SquaredRadius(r.0, r.1) == NormSquared(r)
  {
  }

  lemma RegularUnfold(c: Calibration, r: Ray)
    ensures var s := SquaredRadius(r.0, r.1);
            && s == NormSquared(r)
            && (Regular(c, r) <==> !Negligible(Cubic(c.k1, c.k2, c.k3, s)) && !Negligible(Cubic(c.k4, c.k5, c.k6, s)))
  {
    NormMeans(r);
    hide Cubic, SquaredRadius, NormSquared, Negligible;
  }

  lemma ForwardUnfold(c: Calibration, t: Ray, r: Ray)
    requires Cubic(c.k4, c.k5, c.k6, NormSquared(r)) != 0.0
    ensures var (x, y) := r;
            var s := SquaredRadius(x, y);
            && s == NormSquared(r)
            && Forward(c, t, r) ==
               Moved(t, Stretch(c, s), (Tangential(c.p1, c.p2, x, y, s), Tangential(c.p2, c.p1, y, x, s)))
  {
    var (x, y) := r;
    var s := NormSquared(r);
    NormMeans(r);
    TangentialMeans(c, r);
    hide Tangential, Displacement, Stretch, Moved, Cubic, SquaredRadius, NormSquared;
  }

  /** The iteration stands still at a ray exactly when the lens moves that ray to the distorted one. */
  lemma {:induction false} FixedPointIsUndistorted(c: Calibration, d: Ray, r: Ray)
    requires Regular(c, r)
    ensures Cubic(c.k4, c.k5, c.k6, NormSquared(r)) != 0.0
    ensures UndistortStep(c, d, r) == Some(r) <==> Forward(c, r, r) == d
  {
    RoundMeans(c, d, r, r);
  }

  // ---- The ray of a pixel

  /** The offset from the principal point over the focal length; a negligible focal length gives none. */
  function Normalized(p: real, center: real, focal: real): real {
    if Negligible(focal) then 0.0 else (p - center) / focal
  }

  lemma DistortedMeans(c: Calibration, px: real, py: real)
    ensures Distorted(c, px, py) == (Normalized(px, c.cx, c.fx), Normalized(py, c.cy, c.fy))
  {
    ScaledMeans(px - c.cx, c.fx);
    ScaledMeans(py - c.cy, c.fy);
    hide Scaled;
  }

  lemma ScaledMeans(offset: real, focal: real)
    ensures Scaled(offset, focal) == if Negligible(focal) then 0.0 else offset / focal
  {
    if Negligible(focal) {
      assert SafeReciprocal(focal) == 0.0;
      assert Scaled(offset, focal) == offset * SafeReciprocal(focal);
    } else {
      assert SafeReciprocal(focal) == 1.0 / focal;
      assert Scaled(offset, focal) == offset * (1.0 / focal);
      TimesReciprocal(offset, focal);
    }
  }

  lemma TimesReciprocal(x: real, q: real)
    requires q != 0.0
    ensures x * (1.0 / q) == x / q
  {
    var r := 1.0 / q;
    assert r * q == 1.0;
    assert (x * r) * q == x * (r * q);
    Undivide(x, q, x * r);
  }

  /** Nine rays: the distorted one of the pixel, and after it each round's, undone by the lens at the one before. */
  ghost predicate Rounds(c: Calibration, px: real, py: real, rays: seq<Ray>) {
    && |rays| == 9
    && rays[0] == (Normalized(px, c.cx, c.fx), Normalized(py, c.cy, c.fy))
    && forall k :: 0 <= k < 8 ==> RoundLeads(c, rays[0], rays[k], rays[k + 1])
  }

  predicate RoundLeads(c: Calibration, d: Ray, r: Ray, t: Ray) {
    Regular(c, r) && Cubic(c.k4, c.k5, c.k6, NormSquared(r)) != 0.0 && Forward(c, t, r) == d
  }

  lemma LeadsMeans(c: Calibration, d: Ray, r: Ray, t: Ray)
    ensures UndistortStep(c, d, r) == Some(t) <==> RoundLeads(c, d, r, t)
  {
    RoundMeans(c, d, r, t);
    hide UndistortStep, Regular, Cubic, Forward;
  }

  lemma {:induction false} StepsToRays(c: Calibration, d: Ray, n: nat) returns (rays: seq<Ray>)
    requires UndistortSteps(c, d, d, n).Some?
    ensures |rays| == n + 1 && rays[0] == d && rays[n] == UndistortSteps(c, d, d, n).value
    ensures forall k :: 0 <= k < n ==> RoundLeads(c, d, rays[k], rays[k + 1])
  {
    hide UndistortStep, RoundLeads;
    if n == 0 {
      rays := [d];
    } else {
      var before := StepsToRays(c, d, n - 1);
      var t := UndistortSteps(c, d, d, n).value;
      LeadsMeans(c, d, before[n - 1], t);
      rays := before + [t];
    }
  }

  lemma {:induction false} RaysToSteps(c: Calibration, d: Ray, rays: seq<Ray>, n: nat)
    requires n < |rays| && rays[0] == d
    requires forall k :: 0 <= k < |rays| - 1 ==> RoundLeads(c, d, rays[k], rays[k + 1])
    ensures UndistortSteps(c, d, d, n) == Some(rays[n])
  {
    hide UndistortStep, RoundLeads;
    if n > 0 {
      RaysToSteps(c, d, rays, n - 1);
      LeadsMeans(c, d, rays[n - 1], rays[n]);
    }
  }

  /** The ray of a pixel is the one eight rounds lead to, and there is none exactly when the calibration is invalid or
      a round degenerates. */
  lemma {:induction false} RayMeans(c: Calibration, px: real, py: real, t: Ray)
    ensures PixelToRay(c, px, py) == Some(t) <==>
            c.valid && exists rays :: Rounds(c, px, py, rays) && rays[8] == t
  {
    var d := Distorted(c, px, py);
    DistortedMeans(c, px, py);
    hide Distorted, Normalized, UndistortSteps, RoundLeads;
    if PixelToRay(c, px, py) == Some(t) {
      var rays := StepsToRays(c, d, 8);
      assert Rounds(c, px, py, rays);
    }
    if c.valid && exists rays :: Rounds(c, px, py, rays) && rays[8] == t {
      var rays :| Rounds(c, px, py, rays) && rays[8] == t;
      RaysToSteps(c, d, rays, 8);
    }
  }

  predicate NoDistortion(c: Calibration) {
    c.k1 == c.k2 == c.k3 == c.k4 == c.k5 == c.k6 == c.p1 == c.p2 == 0.0
  }

  lemma UndistortedRound(c: Calibration, d: Ray, r: Ray)
    requires NoDistortion(c)
    ensures UndistortStep(c, d, r) == Some(d)
  {
    RoundMeans(c, d, r, d);
    hide UndistortStep;
    assert Cubic(0.0, 0.0, 0.0, NormSquared(r)) == 1.0;
  }

  lemma {:induction false} UndistortedSteps(c: Calibration, d: Ray, n: nat)
    requires NoDistortion(c)
    ensures UndistortSteps(c, d, d, n) == Some(d)
  {
    if n > 0 {
      UndistortedSteps(c, d, n - 1);
      UndistortedRound(c, d, d);
      hide UndistortStep;
    }
  }

  /** Without distortion the ray is that of a pinhole camera. */
  lemma {:induction false} PinholeRay(c: Calibration, px: real, py: real)
    requires NoDistortion(c) && c.valid
    requires (c.fx > 0.000001 || c.fx < -0.000001) && (c.fy > 0.000001 || c.fy < -0.000001)
    ensures PixelToRay(c, px, py) == Some(((px - c.cx) / c.fx, (py - c.cy) / c.fy))
  {
    DistortedMeans(c, px, py);
    UndistortedSteps(c, Distorted(c, px, py), 8);
    hide Distorted, UndistortSteps;
  }

  // ---- Points and depths

  lemma SampleIndex(w: nat, h: nat, x: nat, y: nat)
    requires x < w && y < h
    ensures 0 <= y * w + x < w * h && (y * w + x) % w == x && (y * w + x) / w == y
  {
    DivModOf(y, x, w);
    BlockBound(y, h, w, x);
  }

  /** A built cloud, sample by sample: a marker keeps its value on the axis, and any other depth z at column x and row y
      is z times the ray of pixel (x, y). */
  lemma {:induction false} PointsMean(depth: ImageFrame, c: Calibration, previous: PointCloudFrame, x: nat, y: nat)
    requires x < depth.width && y < depth.height
    ensures var (ok, cloud) := CloudFromDepth(depth, c, previous);
            var i := y * depth.width + x;
            ok ==>
              && cloud.width == depth.width && cloud.height == depth.height && cloud.source == DerivedFromDepth
              && 0 <= i < |depth.data| == |cloud.points|
              && var z := depth.data[i] as real;
                 if depth.data[i] <= 2 then cloud.points[i] == Point(0.0, 0.0, z)
                 else
                   var ray := PixelToRay(c, x as real, y as real);
                   ray.Some? && cloud.points[i] == Point(ray.value.0 * z, ray.value.1 * z, z)
  {
    SampleIndex(depth.width, depth.height, x, y);
    hide PixelToRay;
  }

  /** When a cloud is built: never from an invalid calibration or a depth of wrong size, which leave the previous cloud;
      otherwise exactly when every measured sample has a ray, and a single one without leaves an empty cloud. */
  lemma {:induction false} BuildsExactly(depth: ImageFrame, c: Calibration, previous: PointCloudFrame)
    ensures var (ok, cloud) := CloudFromDepth(depth, c, previous);
            var w: nat, h: nat := depth.width, depth.height;
            var accepted := c.valid && w > 0 && h > 0 && |depth.data| == w * h;
            && (!accepted ==> !ok && cloud == previous)
            && (accepted ==> (ok <==> EveryPixel(depth, c)))
            && (accepted && !ok ==>
                  cloud.width == cloud.height == 0 && cloud.source == DerivedFromDepth && cloud.points == [])
  {
    if Buildable(depth, c) {
      PointsOfPixels(depth, c);
    }
    hide AllPoints, EveryPixel, Points;
  }

  lemma PointsOfPixels(depth: ImageFrame, c: Calibration)
    requires depth.width > 0 && |depth.data| == depth.width * depth.height
    ensures AllPoints(depth, c, |depth.data|) <==> EveryPixel(depth, c)
  {
    if AllPoints(depth, c, |depth.data|) {
      forall x: nat, y: nat | x < depth.width && y < depth.height
        ensures HasPoint(depth, c, x, y)
      {
        PixelOfPoints(depth, c, x, y);
      }
    }
    if EveryPixel(depth, c) {
      forall i | 0 <= i < |depth.data|
        ensures PointAt(c, depth.width, i, depth.data[i]).Some?
      {
        hide EveryPixel;
        PointOfPixels(depth, c, i);
      }
    }
    hide PointAt, HasPoint;
  }

  lemma PixelOfPoints(depth: ImageFrame, c: Calibration, x: nat, y: nat)
    requires x < depth.width && y < depth.height && |depth.data| == depth.width * depth.height
    requires AllPoints(depth, c, |depth.data|)
    ensures HasPoint(depth, c, x, y)
  {
    SampleIndex(depth.width, depth.height, x, y);
    hide PixelToRay;
  }

  lemma PointOfPixels(depth: ImageFrame, c: Calibration, i: nat)
    requires i < |depth.data| == depth.width * depth.height && depth.width > 0
    requires EveryPixel(depth, c)
    ensures PointAt(c, depth.width, i, depth.data[i]).Some?
  {
    RowOf(i, depth.height, depth.width);
    var x, y := i % depth.width, i / depth.width;
    assert HasPoint(depth, c, x, y);
    hide PixelToRay, EveryPixel;
  }

  lemma RowOf(i: nat, h: nat, w: nat)
    requires w > 0 && i < w * h
    ensures i / w < h && (i / w) * w + i % w == i
  {
    if i / w >= h {
      MulMono(h, i / w, w);
    }
  }

  ghost predicate EveryPixel(depth: ImageFrame, c: Calibration) {
    forall x: nat, y: nat :: x < depth.width && y < depth.height ==> HasPoint(depth, c, x, y)
  }

  /** The sample of pixel (x, y) is a marker or the pixel has a ray. */
  predicate HasPoint(depth: ImageFrame, c: Calibration, x: nat, y: nat) {
    var i := y * depth.width + x;
    i < |depth.data| && (depth.data[i] <= 2 || PixelToRay(c, x as real, y as real).Some?)
  }

  /** With a pinhole calibration the cloud is always built, and the point of pixel (x, y) at depth z is
      ((x - cx) / fx * z, (y - cy) / fy * z, z). */
  lemma {:induction false} PinholePoints(depth: ImageFrame, c: Calibration, previous: PointCloudFrame, x: nat, y: nat)
    requires NoDistortion(c) && c == CalibrationFromRaw(c.raw) && c.valid
    requires x < depth.width && y < depth.height && |depth.data| == depth.width * depth.height
    ensures var (ok, cloud) := CloudFromDepth(depth, c, previous);
            var i := y * depth.width + x;
            && ok && 0 <= i < |depth.data| == |cloud.points|
            && var z := depth.data[i] as real;
               depth.data[i] > 2 ==>
                 cloud.points[i] == Point(((x as real) - c.cx) / c.fx * z, ((y as real) - c.cy) / c.fy * z, z)
  {
    CalibrationHoldsParameters(c.raw);
    forall i | 0 <= i < |depth.data|
      ensures PointAt(c, depth.width, i, depth.data[i]).Some?
    {
      PinholeRay(c, (i % depth.width) as real, (i / depth.width) as real);
    }
    hide PointAt, PixelToRay;
    SampleIndex(depth.width, depth.height, x, y);
    PointsMean(depth, c, previous, x, y);
    PinholeRay(c, x as real, y as real);
  }

  /** Rebuilt depth is the nearest whole number to z, halves up, within 0..65535. */
  lemma {:induction false} DepthIsNearest(cloud: PointCloudFrame, i: nat)
    requires cloud.width > 0 && cloud.height > 0 && |cloud.points| == cloud.width * cloud.height && i < |cloud.points|
    ensures var depth, z := DepthFromCloud(cloud), cloud.points[i].z;
            && depth.width == cloud.width && depth.height == cloud.height && i < |depth.data|
            && var d := depth.data[i] as real;
               if z <= 0.0 then d == 0.0
               else if z >= 65535.0 then d == 65535.0
               else z - 0.5 < d <= z + 0.5
  {
  }
}
