/** Points of the plane with exact real coordinates, `{x, y}` in the scripts. */
module Points {

  datatype Point = Point(x: real, y: real)

  function Add(p: Point, q: Point): Point {
    Point(p.x + q.x, p.y + q.y)
  }

  function Sub(p: Point, q: Point): Point {
    Point(p.x - q.x, p.y - q.y)
  }

  /** The z component of `(p2 - p1) × (p3 - p1)`: positive when `p1, p2, p3` turn left. */
  function Cross(p1: Point, p2: Point, p3: Point): real {
    (p2.x - p1.x) * (p3.y - p1.y) - (p2.y - p1.y) * (p3.x - p1.x)
  }

  /** `a + (b - a) * t` in each coordinate. */
  function Lerp(a: Point, b: Point, t: real): Point {
    Point(a.x + (b.x - a.x) * t, a.y + (b.y - a.y) * t)
  }

  function SumX(ps: seq<Point>): real {
    if |ps| == 0 then 0.0 else SumX(ps[..|ps| - 1]) + ps[|ps| - 1].x
  }

  function SumY(ps: seq<Point>): real {
    if |ps| == 0 then 0.0 else SumY(ps[..|ps| - 1]) + ps[|ps| - 1].y
  }

  /** Every point moved by `d`. */
  function Translate(ps: seq<Point>, d: Point): (r: seq<Point>)
    ensures |r| == |ps|
    ensures forall i :: 0 <= i < |ps| ==> r[i] == Add(ps[i], d)
  {
    seq(|ps|, i requires 0 <= i < |ps| => Add(ps[i], d))
  }

  /** Every coordinate multiplied by `c`. */
  function Scale(ps: seq<Point>, c: real): (r: seq<Point>)
    ensures |r| == |ps|
    ensures forall i :: 0 <= i < |ps| ==> r[i] == Point(c * ps[i].x, c * ps[i].y)
  {
    seq(|ps|, i requires 0 <= i < |ps| => Point(c * ps[i].x, c * ps[i].y))
  }

  /** Translating a point set moves its coordinate sums by `|ps|` times the offset. */
  lemma {:induction false} SumsOfTranslate(ps: seq<Point>, d: Point)
    ensures SumX(Translate(ps, d)) == SumX(ps) + (|ps| as real) * d.x
    ensures SumY(Translate(ps, d)) == SumY(ps) + (|ps| as real) * d.y
    decreases |ps|
  {
    if |ps| > 0 {
      var init := ps[..|ps| - 1];
      var t := Translate(ps, d);
      assert t[..|t| - 1] == Translate(init, d);
      SumsOfTranslate(init, d);
    }
  }
}
