/**
 * `resamplePoints` of the Fourier utilities: a closed polyline is resampled to N
 * points spaced evenly by arclength, each interpolated linearly inside its edge,
 * and the result is re-centred on the origin. Lengths come from an arbitrary
 * `Math.hypot`; floating-point arithmetic is exact real arithmetic here.
 */
module Resample {
  import opened Points
  import opened Trig

  /** `Math.hypot(b.x - a.x, b.y - a.y)`, the length of the edge from `a` to `b`. */
  function EdgeLength(hypot: (real, real) -> real, a: Point, b: Point): real {
    hypot(b.x - a.x, b.y - a.y)
  }

  /** The `dists` array: the arclength from the first point to each point along the
      open polyline. One entry per point, starting at 0, and non-decreasing because
      lengths are never negative. */
  function CumulativeLengths(hypot: (real, real) -> real, pts: seq<Point>): (d: seq<real>)
    requires |pts| >= 1
    ensures |d| == |pts| && d[0] == 0.0
    ensures forall i :: 0 < i < |d| ==> d[i] == d[i - 1] + EdgeLength(hypot, pts[i - 1], pts[i])
    ensures HypotNonNegative(hypot) ==> forall i, j :: 0 <= i <= j < |d| ==> d[i] <= d[j]
    decreases |pts|
  {
    if |pts| == 1 then [0.0]
    else
      var d := CumulativeLengths(hypot, pts[..|pts| - 1]);
      d + [d[|d| - 1] + EdgeLength(hypot, pts[|pts| - 2], pts[|pts| - 1])]
  }

  /** `L`: the length of the polyline closed by the edge from the last point back to the first. */
  function TotalLength(hypot: (real, real) -> real, pts: seq<Point>): real
    requires |pts| >= 1
  {
    var d := CumulativeLengths(hypot, pts);
    d[|d| - 1] + EdgeLength(hypot, pts[|pts| - 1], pts[0])
  }

  lemma MulMonotone(u: real, v: real, b: real)
    requires u <= v && b > 0.0
    ensures u * b <= v * b && (u < v ==> u * b < v * b)
  {
  }

  /** `f * b` and `g * b` bracket `a` when `f` and `g` bracket `a / b`. */
  lemma Bracket(f: real, g: real, a: real, b: real)
    requires b > 0.0 && f <= a / b < g
    ensures f * b <= a < g * b
  {
    var d := a / b;
    assert d * b == a;
    MulMonotone(f, d, b);
    MulMonotone(d, g, b);
  }

  lemma FloorOf(d: real)
    ensures (d.Floor as real) <= d < (d.Floor as real) + 1.0
  {
  }

  /** The whole number of times `b` fits into `a`, and what it leaves. */
  lemma FloorBounds(a: real, b: real)
    requires a >= 0.0 && b > 0.0
    ensures var f := (a / b).Floor as real; f * b <= a < f * b + b
    ensures a < b ==> (a / b).Floor == 0
  {
    var q := (a / b).Floor;
    var f := q as real;
    var g := f + 1.0;
    FloorOf(a / b);
    Bracket(f, g, a, b);
    assert g * b == f * b + b;
    if a < b {
      MulSign(q, f, g, b);
    }
  }

  /** A whole number `q` of `b` that lies below `b` and whose successor lies above zero is zero. */
  lemma MulSign(q: int, f: real, g: real, b: real)
    requires f == q as real && g == f + 1.0 && b > 0.0
    ensures f * b < b ==> q <= 0
    ensures g * b > 0.0 ==> q >= 0
  {
    if q >= 1 {
      MulMonotone(1.0, f, b);
    } else if q <= -1 {
      MulMonotone(g, 0.0, b);
    }
  }

  /** JavaScript's `a % b` for `a >= 0` and `b > 0`: what is left of `a` after taking
      out as many whole `b` as fit. */
  function FloatMod(a: real, b: real): (r: real)
    requires a >= 0.0 && b > 0.0
    ensures 0.0 <= r < b
    ensures a < b ==> r == a
  {
    FloorBounds(a, b);
    a - b * ((a / b).Floor as real)
  }

  /** The inner scan `while (i < dists.length - 1 && dists[i + 1] < tt) i++`: the index
      only grows, stays in range, and stops at the last entry or before the first
      entry not below `tt`. */
  function Advance(dists: seq<real>, i: nat, tt: real): (j: nat)
    requires i < |dists|
    ensures i <= j < |dists|
    ensures j == |dists| - 1 || dists[j + 1] >= tt
    ensures j == i || dists[j] < tt
    decreases |dists| - i
  {
    if i < |dists| - 1 && dists[i + 1] < tt then Advance(dists, i + 1, tt) else i
  }

  /** The interpolated point for arclength `tt` on edge `i`: from `pts[i]` towards the
      next point (the first one after the last), with a zero-length edge counted as
      length 1 (`|| 1`). */
  function SegmentPoint(pts: seq<Point>, dists: seq<real>, total: real, i: nat, tt: real): Point
    requires |dists| == |pts| && i < |pts|
  {
    var a := pts[i];
    var b := if i + 1 < |pts| then pts[i + 1] else pts[0];
    var segEnd := if i + 1 < |dists| then dists[i + 1] else total;
    var segLen := if segEnd - dists[i] == 0.0 then 1.0 else segEnd - dists[i];
    Lerp(a, b, (tt - dists[i]) / segLen)
  }

  /** The edge after vertex `i` of the closed polyline. */
  function NextVertex(pts: seq<Point>, i: nat): nat
    requires i < |pts|
  {
    if i + 1 < |pts| then i + 1 else 0
  }

  /** `p` is the point at parameter `t` of the edge leaving vertex `i`. */
  predicate OnEdgeAt(pts: seq<Point>, p: Point, i: nat, t: real) {
    i < |pts| && 0.0 <= t <= 1.0 && p == Lerp(pts[i], pts[NextVertex(pts, i)], t)
  }

  /** `p` lies on one of the edges of the closed polyline `pts`. */
  ghost predicate OnPolygon(pts: seq<Point>, p: Point) {
    exists i: nat, t: real :: OnEdgeAt(pts, p, i, t)
  }

  /** What `dists` and `L` satisfy when lengths are never negative. */
  ghost predicate LengthsFit(dists: seq<real>, total: real) {
    && |dists| >= 1 && dists[0] == 0.0
    && (forall i, j :: 0 <= i <= j < |dists| ==> dists[i] <= dists[j])
    && dists[|dists| - 1] <= total
  }

  /** An arclength between the start of edge `i` and the start of the next edge maps
      to a point of that edge. */
  lemma SegmentPointOnPolygon(pts: seq<Point>, dists: seq<real>, total: real, i: nat, tt: real)
    requires |dists| == |pts| && i < |pts| && LengthsFit(dists, total)
    requires dists[i] <= tt < total
    requires i == |dists| - 1 || dists[i + 1] >= tt
    ensures OnPolygon(pts, SegmentPoint(pts, dists, total, i, tt))
  {
    var segEnd := if i + 1 < |dists| then dists[i + 1] else total;
    var segLen := if segEnd - dists[i] == 0.0 then 1.0 else segEnd - dists[i];
    var t := (tt - dists[i]) / segLen;
    assert 0.0 <= tt - dists[i] <= segEnd - dists[i];
    if segEnd - dists[i] == 0.0 {
      assert t == 0.0;
    } else {
      FractionInUnit(tt - dists[i], segLen);
    }
    assert OnEdgeAt(pts, SegmentPoint(pts, dists, total, i, tt), i, t);
  }

  /** The arclength the k-th sample (counting from 0) is taken at: `target` after
      k + 1 rounds of `target += step`, wrapped by `% L`. */
  function SampleArclength(k: nat, step: real, total: real): (tt: real)
    requires step > 0.0 && total > 0.0
    ensures 0.0 <= tt < total
    ensures Rounds(k + 1, step) < total ==> tt == Rounds(k + 1, step)
  {
    FloatMod(Rounds(k + 1, step), total)
  }

  /** `target` after `m` rounds of `target += step` from 0, which is `m * step`. */
  function Rounds(m: nat, step: real): (target: real)
    requires step > 0.0
    ensures target >= 0.0
  {
    if m == 0 then 0.0 else Rounds(m - 1, step) + step
  }

  lemma {:induction false} RoundsIsProduct(m: nat, step: real)
    requires step > 0.0
    ensures Rounds(m, step) == (m as real) * step
  {
    if m > 0 {
      RoundsIsProduct(m - 1, step);
      NextTarget(m - 1, m, step, Rounds(m - 1, step));
    }
  }

  /** A whole lap: `L % L` is 0. */
  lemma FullLap(total: real)
    requires total > 0.0
    ensures FloatMod(total, total) == 0.0
  {
    DivSelf(total);
  }

  lemma DivSelf(a: real)
    requires a > 0.0
    ensures a / a == 1.0
  {
  }

  /** `p` is where the walk along the closed polyline is at arclength `tt`: on the edge
      whose stretch of `dists` holds `tt`, at the share of that edge `tt` has covered. */
  ghost predicate AtArclength(pts: seq<Point>, dists: seq<real>, total: real, p: Point, tt: real) {
    exists j: nat :: OnStretch(pts, dists, total, p, tt, j)
  }

  /** `tt` lies in edge `j`'s stretch of `dists`, and `p` is the point interpolated there. */
  predicate OnStretch(pts: seq<Point>, dists: seq<real>, total: real, p: Point, tt: real, j: nat) {
    && |dists| == |pts| && j < |pts| && dists[j] <= tt
    && (j == |dists| - 1 || dists[j + 1] >= tt)
    && p == SegmentPoint(pts, dists, total, j, tt)
  }

  /** One more round of `target += step`. */
  lemma NextTarget(m: nat, m': nat, step: real, target: real)
    requires target == (m as real) * step && m' == m + 1
    ensures target + step == (m' as real) * step
  {
  }

  lemma FractionInUnit(x: real, y: real)
    requires 0.0 <= x <= y && y > 0.0
    ensures 0.0 <= x / y <= 1.0
  {
    assert x / y * y == x;
  }

  /** The sampling loop exactly as the source has it: each round advances `target` by
      `step`, wraps it with `% L`, moves the edge index forward and emits one point.
      The index is never moved back. */
  function EmitAsWritten(pts: seq<Point>, dists: seq<real>, total: real, step: real, n: nat,
                         out: seq<Point>, target: real, i: nat): (r: seq<Point>)
    requires |dists| == |pts| && i < |pts|
    requires total > 0.0 && step > 0.0 && target >= 0.0 && |out| <= n
    ensures |r| == n && r[..|out|] == out
    decreases n - |out|
  {
    if |out| >= n then out
    else
      var target' := target + step;
      var tt := FloatMod(target', total);
      var i' := Advance(dists, i, tt);
      EmitAsWritten(pts, dists, total, step, n, out + [SegmentPoint(pts, dists, total, i', tt)], target', i')
  }

  /** The sampling loop with the evidently intended edge search: when `target % L` wraps
      round to the start, the scan restarts from the first edge. Every point emitted
      lies on the closed polyline, and the k-th is the point at arclength
      `(k + 1) * step % L`. */
  function Emit(pts: seq<Point>, dists: seq<real>, total: real, step: real, n: nat,
                out: seq<Point>, target: real, i: nat): (r: seq<Point>)
    requires |dists| == |pts| && i < |pts| && LengthsFit(dists, total)
    requires total > 0.0 && step > 0.0 && target >= 0.0 && |out| <= n
    requires target == Rounds(|out|, step)
    ensures |r| == n && r[..|out|] == out
    ensures forall k :: |out| <= k < n ==> OnPolygon(pts, r[k])
    ensures forall k :: |out| <= k < n ==> AtArclength(pts, dists, total, r[k], SampleArclength(k, step, total))
    decreases n - |out|
  {
    if |out| >= n then out
    else
      var target' := target + step;
      var tt := FloatMod(target', total);
      var start := if tt < dists[i] then 0 else i;
      var i' := Advance(dists, start, tt);
      var p := SegmentPoint(pts, dists, total, i', tt);
      SegmentPointOnPolygon(pts, dists, total, i', tt);
      SegmentPointAt(pts, dists, total, i', tt);
      var out' := out + [p];
      var r := Emit(pts, dists, total, step, n, out', target', i');
      ExtendOnPolygon(pts, out, p, r);
      ExtendAtArclength(pts, dists, total, step, out, p, r);
      r
  }

  /** A result that extends `out + [p]` with points on the polygon extends `out` with
      points on the polygon, when `p` is on it. */
  lemma ExtendOnPolygon(pts: seq<Point>, out: seq<Point>, p: Point, r: seq<Point>)
    requires |out| < |r| && r[..|out| + 1] == out + [p] && OnPolygon(pts, p)
    requires forall k :: |out| + 1 <= k < |r| ==> OnPolygon(pts, r[k])
    ensures r[..|out|] == out
    ensures forall k :: |out| <= k < |r| ==> OnPolygon(pts, r[k])
  {
    assert r[|out|] == (out + [p])[|out|];
    assert r[..|out|] == r[..|out| + 1][..|out|];
  }

  /** The point interpolated on an edge whose stretch holds `tt` is the point at `tt`. */
  lemma SegmentPointAt(pts: seq<Point>, dists: seq<real>, total: real, j: nat, tt: real)
    requires |dists| == |pts| && j < |pts| && dists[j] <= tt
    requires j == |dists| - 1 || dists[j + 1] >= tt
    ensures AtArclength(pts, dists, total, SegmentPoint(pts, dists, total, j, tt), tt)
  {
    assert OnStretch(pts, dists, total, SegmentPoint(pts, dists, total, j, tt), tt, j);
  }

  /** A result that extends `out + [p]` with points at their sample arclengths extends
      `out` so, when `p` is at the arclength of sample `|out|`. */
  lemma ExtendAtArclength(pts: seq<Point>, dists: seq<real>, total: real, step: real,
                          out: seq<Point>, p: Point, r: seq<Point>)
    requires step > 0.0 && total > 0.0
    requires |out| < |r| && r[..|out| + 1] == out + [p]
    requires AtArclength(pts, dists, total, p, SampleArclength(|out|, step, total))
    requires forall k :: |out| + 1 <= k < |r| ==> AtArclength(pts, dists, total, r[k], SampleArclength(k, step, total))
    ensures forall k :: |out| <= k < |r| ==> AtArclength(pts, dists, total, r[k], SampleArclength(k, step, total))
  {
    assert r[|out|] == (out + [p])[|out|];
  }

  /** The raw samples as the source computes them, before centring. */
  function EvenSamplesAsWritten(hypot: (real, real) -> real, pts: seq<Point>, n: nat): (r: seq<Point>)
    requires |pts| >= 2 && TotalLength(hypot, pts) > 0.0 && n > 0
    ensures |r| == n
  {
    var dists := CumulativeLengths(hypot, pts);
    var total := TotalLength(hypot, pts);
    EmitAsWritten(pts, dists, total, total / (n as real), n, [], 0.0, 0)
  }

  /** The unit square, walked counter-clockwise from the origin. */
  const UnitSquare: seq<Point> := [Point(0.0, 0.0), Point(1.0, 0.0), Point(1.0, 1.0), Point(0.0, 1.0)]

  /** `Math.hypot` of a unit step along an axis is exactly 1. */
  ghost predicate UnitAxisSteps(hypot: (real, real) -> real) {
    hypot(1.0, 0.0) == 1.0 && hypot(0.0, 1.0) == 1.0 && hypot(-1.0, 0.0) == 1.0 && hypot(0.0, -1.0) == 1.0
  }

  lemma UnitSquareLengths(hypot: (real, real) -> real)
    requires UnitAxisSteps(hypot)
    ensures CumulativeLengths(hypot, UnitSquare) == [0.0, 1.0, 2.0, 3.0]
    ensures TotalLength(hypot, UnitSquare) == 4.0
  {
    var d := CumulativeLengths(hypot, UnitSquare);
    assert d[1] == 1.0 && d[2] == 2.0 && d[3] == 3.0;
  }

  /** Every point of an edge of the unit square has its x in [0, 1]. */
  lemma UnitSquareEdgeX(i: nat, t: real)
    requires i < 4 && 0.0 <= t <= 1.0
    ensures var p := Lerp(UnitSquare[i], UnitSquare[NextVertex(UnitSquare, i)], t); 0.0 <= p.x <= 1.0
  {
  }

  /** The point (3, 1) is not on the unit square: its x lies outside [0, 1]. */
  lemma OffUnitSquare()
    ensures !OnPolygon(UnitSquare, Point(3.0, 1.0))
  {
    forall i: nat, t: real | i < 4 && 0.0 <= t <= 1.0
      ensures Lerp(UnitSquare[i], UnitSquare[NextVertex(UnitSquare, i)], t).x <= 1.0
    {
      UnitSquareEdgeX(i, t);
    }
  }

  /** The arclengths of the unit square's vertices, for a unit-step `Math.hypot`. */
  const SquareDists: seq<real> := [0.0, 1.0, 2.0, 3.0]

  /** The edge search and the interpolated points for the four targets 1, 2, 3 and
      4 % 4 = 0 on the unit square. */
  lemma SquareSteps()
    ensures FloatMod(1.0, 4.0) == 1.0 && FloatMod(2.0, 4.0) == 2.0 && FloatMod(3.0, 4.0) == 3.0
    ensures FloatMod(4.0, 4.0) == 0.0
    ensures Advance(SquareDists, 0, 1.0) == 0 && Advance(SquareDists, 0, 2.0) == 1
    ensures Advance(SquareDists, 1, 3.0) == 2 && Advance(SquareDists, 2, 0.0) == 2
    ensures Advance(SquareDists, 0, 0.0) == 0
    ensures SegmentPoint(UnitSquare, SquareDists, 4.0, 0, 1.0) == Point(1.0, 0.0)
    ensures SegmentPoint(UnitSquare, SquareDists, 4.0, 1, 2.0) == Point(1.0, 1.0)
    ensures SegmentPoint(UnitSquare, SquareDists, 4.0, 2, 3.0) == Point(0.0, 1.0)
    ensures SegmentPoint(UnitSquare, SquareDists, 4.0, 2, 0.0) == Point(3.0, 1.0)
    ensures SegmentPoint(UnitSquare, SquareDists, 4.0, 0, 0.0) == Point(0.0, 0.0)
  {
    FloorBounds(4.0, 4.0);
    assert (4.0 / 4.0).Floor == 1;
  }

  /** Resampling the unit square to four points as the source does: the fourth target
      wraps to arclength 0, the edge index stays on the third edge, and the emitted
      point (3, 1) is extrapolated off the polygon. */
  lemma WrapLeavesPolygonAsWritten(hypot: (real, real) -> real)
    requires UnitAxisSteps(hypot)
    ensures var raw := EvenSamplesAsWritten(hypot, UnitSquare, 4);
            raw == [Point(1.0, 0.0), Point(1.0, 1.0), Point(0.0, 1.0), Point(3.0, 1.0)]
            && !OnPolygon(UnitSquare, raw[3])
  {
    UnitSquareLengths(hypot);
    OffUnitSquare();
    SquareSteps();
    var pts, d := UnitSquare, SquareDists;
    var p1, p2, p3, p4 := Point(1.0, 0.0), Point(1.0, 1.0), Point(0.0, 1.0), Point(3.0, 1.0);
    assert [] + [p1] == [p1] && [p1] + [p2] == [p1, p2];
    assert [p1, p2] + [p3] == [p1, p2, p3] && [p1, p2, p3] + [p4] == [p1, p2, p3, p4];
    calc {
      EvenSamplesAsWritten(hypot, UnitSquare, 4);
      EmitAsWritten(pts, d, 4.0, 1.0, 4, [], 0.0, 0);
      EmitAsWritten(pts, d, 4.0, 1.0, 4, [p1], 1.0, 0);
      EmitAsWritten(pts, d, 4.0, 1.0, 4, [p1, p2], 2.0, 1);
      EmitAsWritten(pts, d, 4.0, 1.0, 4, [p1, p2, p3], 3.0, 2);
      EmitAsWritten(pts, d, 4.0, 1.0, 4, [p1, p2, p3, p4], 4.0, 2);
      [p1, p2, p3, p4];
    }
  }

  /** The same input with the intended edge search: the fourth point is the origin,
      where the walk started. */
  lemma WrapReturnsToStart(hypot: (real, real) -> real)
    requires UnitAxisSteps(hypot) && HypotNonNegative(hypot)
    ensures EvenSamples(hypot, UnitSquare, 4) == [Point(1.0, 0.0), Point(1.0, 1.0), Point(0.0, 1.0), Point(0.0, 0.0)]
  {
    UnitSquareLengths(hypot);
    SquareSteps();
    var pts, d := UnitSquare, SquareDists;
    var p1, p2, p3, p4 := Point(1.0, 0.0), Point(1.0, 1.0), Point(0.0, 1.0), Point(0.0, 0.0);
    assert [] + [p1] == [p1] && [p1] + [p2] == [p1, p2];
    assert [p1, p2] + [p3] == [p1, p2, p3] && [p1, p2, p3] + [p4] == [p1, p2, p3, p4];
    assert LengthsFit(d, 4.0);
    calc {
      EvenSamples(hypot, UnitSquare, 4);
      Emit(pts, d, 4.0, 1.0, 4, [], 0.0, 0);
      Emit(pts, d, 4.0, 1.0, 4, [p1], 1.0, 0);
      Emit(pts, d, 4.0, 1.0, 4, [p1, p2], 2.0, 1);
      Emit(pts, d, 4.0, 1.0, 4, [p1, p2, p3], 3.0, 2);
      Emit(pts, d, 4.0, 1.0, 4, [p1, p2, p3, p4], 4.0, 0);
      [p1, p2, p3, p4];
    }
  }

  /** The arithmetic mean of a non-empty point list. */
  function Centroid(ps: seq<Point>): Point
    requires |ps| > 0
  {
    Point(SumX(ps) / (|ps| as real), SumY(ps) / (|ps| as real))
  }

  /** The re-centring step: every point moved by minus the centroid, so the coordinate
      sums become zero while the shape (all differences between points) is kept. */
  function Center(ps: seq<Point>): (r: seq<Point>)
    ensures |r| == |ps|
    ensures SumX(r) == 0.0 && SumY(r) == 0.0
    ensures |ps| > 0 ==> forall j :: 0 <= j < |ps| ==> Add(r[j], Centroid(ps)) == ps[j]
  {
    if |ps| == 0 then []
    else
      var c := Centroid(ps);
      var d := Point(-c.x, -c.y);
      var r := Translate(ps, d);
      SumsOfTranslate(ps, d);
      var n := |ps| as real;
      assert n * (SumX(ps) / n) == SumX(ps);
      assert n * (SumY(ps) / n) == SumY(ps);
      r
  }

  /** The uncentred samples: N points at arclengths L/N, 2L/N, ..., L % L = 0, every
      one on the closed polyline. */
  function EvenSamples(hypot: (real, real) -> real, pts: seq<Point>, n: nat): (r: seq<Point>)
    requires HypotNonNegative(hypot)
    requires |pts| >= 2 && TotalLength(hypot, pts) > 0.0 && n > 0
    ensures |r| == n
    ensures forall k :: 0 <= k < n ==> OnPolygon(pts, r[k])
    ensures EvenlySpaced(hypot, pts, r)
  {
    var dists := CumulativeLengths(hypot, pts);
    var total := TotalLength(hypot, pts);
    Emit(pts, dists, total, total / (n as real), n, [], 0.0, 0)
  }

  /** The step `L / N` between consecutive samples. */
  function Step(hypot: (real, real) -> real, pts: seq<Point>, n: nat): (step: real)
    requires |pts| >= 1 && TotalLength(hypot, pts) > 0.0 && n > 0
    ensures step > 0.0
  {
    TotalLength(hypot, pts) / (n as real)
  }

  /** Sample k of `samples` is the point at arclength `(k + 1) * L / N % L` of the closed
      polyline, N being the number of samples. */
  ghost predicate EvenlySpaced(hypot: (real, real) -> real, pts: seq<Point>, samples: seq<Point>)
    requires |pts| >= 1
  {
    && TotalLength(hypot, pts) > 0.0 && |samples| > 0
    && forall k :: 0 <= k < |samples| ==>
         AtArclength(pts, CumulativeLengths(hypot, pts), TotalLength(hypot, pts), samples[k],
                     SampleArclength(k, Step(hypot, pts, |samples|), TotalLength(hypot, pts)))
  }

  /** The sample arclengths are L/N, 2L/N, ..., (N-1)L/N and, for the last sample, 0. */
  lemma SampleArclengths(total: real, n: nat, k: nat)
    requires total > 0.0 && n > 0 && k < n
    ensures k + 1 < n ==> SampleArclength(k, total / (n as real), total) == ((k + 1) as real) * (total / (n as real))
    ensures k + 1 == n ==> SampleArclength(k, total / (n as real), total) == 0.0
  {
    var step := total / (n as real);
    assert (n as real) * step == total;
    RoundsIsProduct(k + 1, step);
    if k + 1 < n {
      MulMonotone((k + 1) as real, n as real, step);
    } else {
      FullLap(total);
    }
  }

  /** A shift of `out` that makes it the polyline's even samples. */
  ghost predicate ShiftedEvenly(hypot: (real, real) -> real, pts: seq<Point>, out: seq<Point>, shift: Point)
    requires |pts| >= 1
  {
    EvenlySpaced(hypot, pts, Translate(out, shift))
  }

  /** The outcome of `resamplePoints`: the input itself, a list of points, or N points
      whose coordinates are NaN (the closed length is zero, so `target % L` is NaN). */
  datatype Resampled = Unchanged(points: seq<Point>) | Sampled(points: seq<Point>) | NotANumber(count: nat)

  /** The resampled point list lies on the polyline after undoing one common shift. */
  ghost predicate ShiftedOntoPolygon(pts: seq<Point>, out: seq<Point>, shift: Point) {
    forall k :: 0 <= k < |out| ==> OnPolygon(pts, Add(out[k], shift))
  }

  /** `resamplePoints(pts, N)`: fewer than two points come back unchanged; a
      non-positive N gives an empty list; a zero closed length gives NaN points;
      otherwise exactly N points, centred on the origin, that are the polyline's
      even samples shifted by one common offset. */
  function ResamplePoints(hypot: (real, real) -> real, pts: seq<Point>, n: int): (r: Resampled)
    requires HypotNonNegative(hypot)
    ensures |pts| < 2 <==> r.Unchanged?
    ensures r.Unchanged? ==> r.points == pts
    ensures r.NotANumber? <==> (|pts| >= 2 && n > 0 && TotalLength(hypot, pts) == 0.0)
    ensures r.NotANumber? ==> r.count == n
    ensures r.Sampled? ==> |r.points| == (if n > 0 then n else 0)
    ensures r.Sampled? ==> SumX(r.points) == 0.0 && SumY(r.points) == 0.0
    ensures r.Sampled? ==> exists shift: Point :: ShiftedOntoPolygon(pts, r.points, shift)
    ensures r.Sampled? && n > 0 ==> exists shift: Point :: ShiftedEvenly(hypot, pts, r.points, shift)
  {
    if |pts| < 2 then Unchanged(pts)
    else if n <= 0 then
      assert ShiftedOntoPolygon(pts, [], Point(0.0, 0.0));
      Sampled([])
    else
      var total := TotalLength(hypot, pts);
      if total == 0.0 then NotANumber(n)
      else
        assert total >= 0.0;
        var raw := EvenSamples(hypot, pts, n);
        var out := Center(raw);
        assert ShiftedOntoPolygon(pts, out, Centroid(raw));
        assert Translate(out, Centroid(raw)) == raw;
        assert ShiftedEvenly(hypot, pts, out, Centroid(raw));
        Sampled(out)
  }
}
