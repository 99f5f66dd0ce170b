/**
 * `signedArea` of the Fourier utilities: half the shoelace sum over consecutive
 * vertex pairs. The edge from the last vertex back to the first is not added, so a
 * caller who wants the area of a closed polygon repeats the first vertex at the end.
 */
module Polygon {
  import opened Points

  /** The shoelace term of the edge from `a` to `b`. */
  function EdgeTerm(a: Point, b: Point): real {
    a.x * b.y - b.x * a.y
  }

  /** The sum of the edge terms of the open polyline `p`. */
  function Shoelace(p: seq<Point>): real
    decreases |p|
  {
    if |p| < 2 then 0.0 else Shoelace(p[..|p| - 1]) + EdgeTerm(p[|p| - 2], p[|p| - 1])
  }

  /** Twice the signed area swept by the polyline: positive for counter-clockwise. */
  function SignedArea(p: seq<Point>): (a: real)
    ensures |p| < 2 ==> a == 0.0
  {
    Shoelace(p) / 2.0
  }

  /** The loop `for (i = 0; i < poly.length - 1; i++) a += …; return a / 2`. */
  method SignedAreaLoop(poly: seq<Point>) returns (area: real)
    ensures area == SignedArea(poly)
  {
    var a := 0.0;
    var i := 0;
    while i < |poly| - 1
      invariant 0 <= i <= if |poly| == 0 then 0 else |poly| - 1
      invariant |poly| == 0 ==> a == 0.0
      invariant |poly| > 0 ==> a == Shoelace(poly[..i + 1])
    {
      assert poly[..i + 2][..i + 1] == poly[..i + 1];
      a := a + (poly[i].x * poly[i + 1].y - poly[i + 1].x * poly[i].y);
      i := i + 1;
    }
    if |poly| > 0 {
      assert poly[..i + 1] == poly;
    }
    area := a / 2.0;
  }

  /** The shoelace sum read from the front: the first edge, then the rest. */
  lemma {:induction false} ShoelaceFront(a: Point, q: seq<Point>)
    requires |q| >= 1
    ensures Shoelace([a] + q) == EdgeTerm(a, q[0]) + Shoelace(q)
    decreases |q|
  {
    if |q| > 1 {
      var init := q[..|q| - 1];
      assert ([a] + q)[..|q|] == [a] + init;
      ShoelaceFront(a, init);
    }
  }

  function Reverse(p: seq<Point>): (r: seq<Point>)
    ensures |r| == |p|
    ensures forall i :: 0 <= i < |p| ==> r[i] == p[|p| - 1 - i]
  {
    seq(|p|, i requires 0 <= i < |p| => p[|p| - 1 - i])
  }

  /** Walking the vertices in the opposite order negates the signed area. */
  lemma {:induction false} ReverseNegates(p: seq<Point>)
    ensures SignedArea(Reverse(p)) == -SignedArea(p)
    decreases |p|
  {
    if |p| >= 2 {
      var init := p[..|p| - 1];
      var r := Reverse(p);
      assert r == [p[|p| - 1]] + Reverse(init);
      ShoelaceFront(p[|p| - 1], Reverse(init));
      ReverseNegates(init);
    }
  }

  lemma EdgeTermScale(a: Point, b: Point, c: real)
    ensures EdgeTerm(Point(c * a.x, c * a.y), Point(c * b.x, c * b.y)) == c * c * EdgeTerm(a, b)
  {
    assert (c * a.x) * (c * b.y) == c * c * (a.x * b.y);
    assert (c * b.x) * (c * a.y) == c * c * (b.x * a.y);
  }

  lemma EdgeTermShift(a: Point, b: Point, d: Point)
    ensures EdgeTerm(Add(a, d), Add(b, d)) == EdgeTerm(a, b) + d.x * (b.y - a.y) - d.y * (b.x - a.x)
  {
    assert (a.x + d.x) * (b.y + d.y) == a.x * b.y + a.x * d.y + d.x * b.y + d.x * d.y;
    assert (b.x + d.x) * (a.y + d.y) == b.x * a.y + b.x * d.y + d.x * a.y + d.x * d.y;
  }

  lemma StripsAdd(k: real, u: real, v: real)
    ensures k * u + k * v == k * (u + v)
  {
  }

  /** The shoelace terms of the edges of `p`, in order. */
  function Edges(p: seq<Point>): (e: seq<real>)
    ensures |e| == if |p| < 2 then 0 else |p| - 1
    ensures forall i :: 0 <= i < |e| ==> e[i] == EdgeTerm(p[i], p[i + 1])
  {
    if |p| < 2 then [] else seq(|p| - 1, i requires 0 <= i < |p| - 1 => EdgeTerm(p[i], p[i + 1]))
  }

  function Sum(v: seq<real>): real {
    if |v| == 0 then 0.0 else Sum(v[..|v| - 1]) + v[|v| - 1]
  }

  /** The shoelace sum is the plain sum of the edge terms. */
  lemma {:induction false} ShoelaceIsSum(p: seq<Point>)
    ensures Shoelace(p) == Sum(Edges(p))
    decreases |p|
  {
    if |p| >= 2 {
      var init := p[..|p| - 1];
      ShoelaceIsSum(init);
      var e, ei := Edges(p), Edges(init);
      assert |e[..|e| - 1]| == |ei|;
      forall i | 0 <= i < |ei| ensures e[..|e| - 1][i] == ei[i] {
        assert init[i] == p[i] && init[i + 1] == p[i + 1];
      }
      assert e[..|e| - 1] == ei;
    }
  }

  /** Every entry of `w` is `k` times the entry of `v` at the same position. */
  predicate ScaledBy(w: seq<real>, v: seq<real>, k: real) {
    |w| == |v| && forall i :: 0 <= i < |v| ==> w[i] == k * v[i]
  }

  /** Each edge term of a scaled polyline is `c * c` times the original one. */
  lemma EdgesScale(p: seq<Point>, c: real)
    ensures ScaledBy(Edges(Scale(p, c)), Edges(p), c * c)
  {
    forall i | 0 <= i < |Edges(p)| ensures Edges(Scale(p, c))[i] == c * c * Edges(p)[i] {
      EdgeScaleAt(p, c, i);
    }
  }

  lemma EdgeScaleAt(p: seq<Point>, c: real, i: nat)
    requires i + 1 < |p|
    ensures Edges(Scale(p, c))[i] == c * c * Edges(p)[i]
  {
    var s := Scale(p, c);
    EdgeTermScale(p[i], p[i + 1], c);
    assert s[i] == Point(c * p[i].x, c * p[i].y);
    assert s[i + 1] == Point(c * p[i + 1].x, c * p[i + 1].y);
  }

  /** A sum whose every term is `k` times another's is `k` times that sum. */
  lemma {:induction false} SumScale(v: seq<real>, w: seq<real>, k: real)
    requires ScaledBy(w, v, k)
    ensures Sum(w) == k * Sum(v)
    decreases |v|
  {
    if |v| > 0 {
      var n := |v| - 1;
      SumScale(v[..n], w[..n], k);
      StripsAdd(k, Sum(v[..n]), v[n]);
    }
  }

  lemma Halve(k: real, u: real)
    ensures (k * u) / 2.0 == k * (u / 2.0)
  {
  }

  /** Scaling every coordinate by `c` scales the signed area by `c * c`. */
  lemma ScaleSquares(p: seq<Point>, c: real)
    ensures SignedArea(Scale(p, c)) == c * c * SignedArea(p)
  {
    ShoelaceIsSum(p);
    ShoelaceIsSum(Scale(p, c));
    EdgesScale(p, c);
    SumScale(Edges(p), Edges(Scale(p, c)), c * c);
    Halve(c * c, Shoelace(p));
  }

  /** Twice the area of the parallelogram spanned by the offset `d` and the chord from
      `first` to `last`. */
  function Strip(d: Point, first: Point, last: Point): real {
    d.x * (last.y - first.y) - d.y * (last.x - first.x)
  }

  /** The chord from a vertex to itself sweeps nothing. */
  lemma StripOfPoint(d: Point, f: Point)
    ensures Strip(d, f, f) == 0.0
  {
  }

  lemma StripSplit(d: Point, f: Point, a: Point, b: Point)
    ensures Strip(d, f, a) + (d.x * (b.y - a.y) - d.y * (b.x - a.x)) == Strip(d, f, b)
  {
    StripsAdd(d.x, a.y - f.y, b.y - a.y);
    StripsAdd(d.y, a.x - f.x, b.x - a.x);
  }

  /** Moving every vertex by `d` adds the strip between the offset and the chord from
      the first vertex to the last. */
  lemma {:induction false} TranslateShifts(p: seq<Point>, d: Point)
    requires |p| >= 1
    ensures Shoelace(Translate(p, d)) == Shoelace(p) + Strip(d, p[0], p[|p| - 1])
    decreases |p|
  {
    if |p| >= 2 {
      var init := p[..|p| - 1];
      var t := Translate(p, d);
      var ti := Translate(init, d);
      assert |t[..|t| - 1]| == |ti|;
      forall k | 0 <= k < |ti| ensures t[..|t| - 1][k] == ti[k] {
        assert t[k] == Add(p[k], d);
        assert init[k] == p[k];
      }
      assert t[..|t| - 1] == ti;
      TranslateShifts(init, d);
      var f, a, b := p[0], p[|p| - 2], p[|p| - 1];
      assert init[0] == f && init[|init| - 1] == a;
      assert t[|t| - 2] == Add(a, d) && t[|t| - 1] == Add(b, d);
      EdgeTermShift(a, b, d);
      StripSplit(d, f, a, b);
    }
  }
  /** A polygon whose last vertex repeats its first has the same signed area wherever
      it is moved. */
  lemma ClosedTranslationInvariant(p: seq<Point>, d: Point)
    requires |p| >= 1 && p[|p| - 1] == p[0]
    ensures SignedArea(Translate(p, d)) == SignedArea(p)
  {
    TranslateShifts(p, d);
    StripOfPoint(d, p[0]);
  }

  /** The closed counter-clockwise unit square. */
  const ClosedUnitSquare: seq<Point> :=
    [Point(0.0, 0.0), Point(1.0, 0.0), Point(1.0, 1.0), Point(0.0, 1.0), Point(0.0, 0.0)]

  /** The shoelace sum of a closed quadrilateral is its four edge terms. */
  lemma ClosedQuad(a: Point, b: Point, c: Point, e: Point)
    ensures Shoelace([a, b, c, e, a]) == EdgeTerm(a, b) + EdgeTerm(b, c) + EdgeTerm(c, e) + EdgeTerm(e, a)
  {
    var p := [a, b, c, e, a];
    assert p[..4] == [a, b, c, e] && [a, b, c, e][..3] == [a, b, c];
    assert [a, b, c][..2] == [a, b] && [a, b][..1] == [a];
    assert Shoelace([a, b]) == EdgeTerm(a, b);
    assert Shoelace([a, b, c]) == Shoelace([a, b]) + EdgeTerm(b, c);
    assert Shoelace([a, b, c, e]) == Shoelace([a, b, c]) + EdgeTerm(c, e);
    assert Shoelace(p) == Shoelace([a, b, c, e]) + EdgeTerm(e, a);
  }

  /** Counter-clockwise winding gives a positive area: the closed unit square has
      area 1, and walked the other way round, -1. */
  lemma UnitSquareArea()
    ensures SignedArea(ClosedUnitSquare) == 1.0
    ensures SignedArea(Reverse(ClosedUnitSquare)) == -1.0
  {
    ClosedQuad(Point(0.0, 0.0), Point(1.0, 0.0), Point(1.0, 1.0), Point(0.0, 1.0));
    ReverseNegates(ClosedUnitSquare);
  }
}
