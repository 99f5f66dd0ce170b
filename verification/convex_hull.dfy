/**
 * `convexHull` of the Fourier utilities: Graham's scan. The lowest (then leftmost)
 * point is swapped to the front, the points are sorted by polar angle about it (ties
 * by distance) and a stack keeps only strict left turns.
 */
module ConvexHull {
  import opened Points
  import opened Trig

  /** `p` is strictly lower than `q`, or level with it and further left. */
  predicate LowerLeft(p: Point, q: Point) {
    p.y < q.y || (p.y == q.y && p.x < q.x)
  }

  /** The search for the pivot: the first index whose point no other point is lower-left of. */
  method BottomIndex(pts: seq<Point>) returns (b: nat)
    requires |pts| > 0
    ensures b < |pts|
    ensures forall i :: 0 <= i < |pts| ==> !LowerLeft(pts[i], pts[b])
    ensures forall i :: 0 <= i < b ==> LowerLeft(pts[b], pts[i])
  {
    b := 0;
    var i := 1;
    while i < |pts|
      invariant 1 <= i <= |pts| && b < i
      invariant forall k :: 0 <= k < i ==> !LowerLeft(pts[k], pts[b])
      invariant forall k :: 0 <= k < b ==> LowerLeft(pts[b], pts[k])
    {
      if LowerLeft(pts[i], pts[b]) {
        b := i;
      }
      i := i + 1;
    }
  }

  /** The destructuring swap `[pts[0], pts[b]] = [pts[b], pts[0]]`. */
  function SwapToFront(pts: seq<Point>, b: nat): (r: seq<Point>)
    requires b < |pts|
    ensures |r| == |pts| && r[0] == pts[b] && r[b] == pts[0]
    ensures forall k :: 0 < k < |pts| && k != b ==> r[k] == pts[k]
    ensures multiset(r) == multiset(pts)
  {
    pts[0 := pts[b]][b := pts[0]]
  }

  /** The polar angle of `p` about the pivot, `Math.atan2(dy, dx)`. */
  function AngleOf(m: JsMath, pivot: Point, p: Point): real {
    m.atan2(p.y - pivot.y, p.x - pivot.x)
  }

  /** The distance of `p` from the pivot, `Math.hypot(dx, dy)`. */
  function DistOf(m: JsMath, pivot: Point, p: Point): real {
    m.hypot(p.x - pivot.x, p.y - pivot.y)
  }

  /** The comparator is negative: a smaller angle, or the same angle and nearer. */
  predicate Before(m: JsMath, pivot: Point, p: Point, q: Point) {
    if AngleOf(m, pivot, p) != AngleOf(m, pivot, q) then AngleOf(m, pivot, p) < AngleOf(m, pivot, q)
    else DistOf(m, pivot, p) < DistOf(m, pivot, q)
  }

  /** The comparator is not positive. */
  predicate NotAfter(m: JsMath, pivot: Point, p: Point, q: Point) {
    !Before(m, pivot, q, p)
  }

  predicate SortedAbout(m: JsMath, pivot: Point, s: seq<Point>) {
    forall i, j :: 0 <= i < j < |s| ==> NotAfter(m, pivot, s[i], s[j])
  }

  /** Appending an element that no earlier element compares greater than keeps a
      list sorted. */
  lemma SortedAppend(m: JsMath, pivot: Point, s: seq<Point>, x: Point)
    requires SortedAbout(m, pivot, s)
    requires forall e :: e in s ==> NotAfter(m, pivot, e, x)
    ensures SortedAbout(m, pivot, s + [x])
  {
    var r := s + [x];
    forall i, j | 0 <= i < j < |r| ensures NotAfter(m, pivot, r[i], r[j]) {
      if j == |s| {
        assert r[i] in s;
      }
    }
  }

  /** Inserting into a sorted list after every element that does not compare greater,
      which keeps equal elements in their original order. */
  function Insert(m: JsMath, pivot: Point, s: seq<Point>, x: Point): (r: seq<Point>)
    requires SortedAbout(m, pivot, s)
    ensures SortedAbout(m, pivot, r)
    ensures multiset(r) == multiset(s) + multiset{x}
    ensures |r| == |s| + 1
    decreases |s|
  {
    if |s| == 0 then [x]
    else
      var init, last := s[..|s| - 1], s[|s| - 1];
      assert s == init + [last];
      if Before(m, pivot, x, last) then
        var front := Insert(m, pivot, init, x);
        assert forall e :: e in front ==> NotAfter(m, pivot, e, last) by {
          forall e | e in front ensures NotAfter(m, pivot, e, last) {
            assert e in multiset(front);
            if e != x {
              assert e in init;
              assert init[..] == s[..|s| - 1];
            }
          }
        }
        SortedAppend(m, pivot, front, last);
        front + [last]
      else
        assert forall e :: e in s ==> NotAfter(m, pivot, e, x) by {
          forall e | e in s ensures NotAfter(m, pivot, e, x) {
            var k :| 0 <= k < |s| && s[k] == e;
            if k < |s| - 1 {
              assert NotAfter(m, pivot, s[k], s[|s| - 1]);
            }
          }
        }
        SortedAppend(m, pivot, s, x);
        s + [x]
  }

  /** `pts.sort(compare)`: a stable sort by (angle, distance) about the pivot, here an
      insertion sort. */
  function SortByAngle(m: JsMath, pivot: Point, s: seq<Point>): (r: seq<Point>)
    ensures SortedAbout(m, pivot, r)
    ensures multiset(r) == multiset(s)
    ensures |r| == |s|
    decreases |s|
  {
    if |s| == 0 then []
    else
      assert s == s[..|s| - 1] + [s[|s| - 1]];
      Insert(m, pivot, SortByAngle(m, pivot, s[..|s| - 1]), s[|s| - 1])
  }

  /** Consecutive hull points always turn strictly left. */
  predicate LeftTurns(hull: seq<Point>) {
    forall k :: 0 <= k < |hull| - 2 ==> Cross(hull[k], hull[k + 1], hull[k + 2]) > 0.0
  }

  /** `sub[k] == s[idx[k]]` for strictly increasing indices `idx`. */
  predicate PicksInOrder(sub: seq<Point>, s: seq<Point>, idx: seq<nat>) {
    && |idx| == |sub|
    && (forall k :: 0 <= k < |idx| ==> idx[k] < |s| && sub[k] == s[idx[k]])
    && (forall k, l :: 0 <= k < l < |idx| ==> idx[k] < idx[l])
  }

  /** `sub` is `s` with some elements left out, the rest in their order. */
  ghost predicate Subsequence(sub: seq<Point>, s: seq<Point>) {
    exists idx :: PicksInOrder(sub, s, idx)
  }

  /** Popping the last hull point keeps the hull a left-turning pick of the input. */
  lemma PopKeeps(hull: seq<Point>, pts: seq<Point>, idx: seq<nat>)
    requires |hull| >= 2 && PicksInOrder(hull, pts, idx) && LeftTurns(hull)
    ensures PicksInOrder(hull[..|hull| - 1], pts, idx[..|idx| - 1])
    ensures LeftTurns(hull[..|hull| - 1])
  {
    var h := hull[..|hull| - 1];
    forall k | 0 <= k < |h| - 2 ensures Cross(h[k], h[k + 1], h[k + 2]) > 0.0 {
      assert h[k] == hull[k] && h[k + 1] == hull[k + 1] && h[k + 2] == hull[k + 2];
    }
  }

  /** Pushing a later input point that turns left from the last two hull points keeps
      the hull a left-turning pick of the input. */
  lemma PushKeeps(hull: seq<Point>, pts: seq<Point>, idx: seq<nat>, i: nat)
    requires |hull| >= 1 && PicksInOrder(hull, pts, idx) && LeftTurns(hull)
    requires idx[|idx| - 1] < i < |pts|
    requires |hull| > 1 ==> Cross(hull[|hull| - 2], hull[|hull| - 1], pts[i]) > 0.0
    ensures PicksInOrder(hull + [pts[i]], pts, idx + [i])
    ensures LeftTurns(hull + [pts[i]])
  {
    var h := hull + [pts[i]];
    forall k | 0 <= k < |h| - 2 ensures Cross(h[k], h[k + 1], h[k + 2]) > 0.0 {
      if k < |hull| - 2 {
        assert h[k] == hull[k] && h[k + 1] == hull[k + 1] && h[k + 2] == hull[k + 2];
      } else {
        assert h[k] == hull[|hull| - 2] && h[k + 1] == hull[|hull| - 1] && h[k + 2] == pts[i];
      }
    }
    var id := idx + [i];
    forall k, l | 0 <= k < l < |id| ensures id[k] < id[l] {
      if l == |id| - 1 && k < |idx| - 1 {
        assert idx[k] < idx[|idx| - 1];
      }
    }
  }

  /** The scan over the sorted points: pop while the last two hull points and the
      next point do not turn strictly left, then push. The result keeps the first
      and last points, is a subsequence of the input, and turns left everywhere. */
  method Scan(pts: seq<Point>) returns (hull: seq<Point>)
    requires |pts| >= 2
    ensures 2 <= |hull| <= |pts|
    ensures hull[0] == pts[0] && hull[|hull| - 1] == pts[|pts| - 1]
    ensures Subsequence(hull, pts)
    ensures LeftTurns(hull)
  {
    hull := [pts[0], pts[1]];
    ghost var idx: seq<nat> := [0, 1];
    var i := 2;
    while i < |pts|
      invariant 2 <= i <= |pts|
      invariant 2 <= |hull| <= i
      invariant hull[0] == pts[0] && hull[|hull| - 1] == pts[i - 1]
      invariant PicksInOrder(hull, pts, idx) && idx[|idx| - 1] == i - 1
      invariant LeftTurns(hull)
    {
      while |hull| > 1 && Cross(hull[|hull| - 2], hull[|hull| - 1], pts[i]) <= 0.0
        invariant 1 <= |hull| <= i
        invariant hull[0] == pts[0]
        invariant PicksInOrder(hull, pts, idx) && idx[|idx| - 1] < i
        invariant LeftTurns(hull)
        decreases |hull|
      {
        PopKeeps(hull, pts, idx);
        hull := hull[..|hull| - 1];
        idx := idx[..|idx| - 1];
      }
      PushKeeps(hull, pts, idx, i);
      hull := hull + [pts[i]];
      idx := idx + [i];
      i := i + 1;
    }
  }

  /** `convexHull(points)`: fewer than three points are returned as they are;
      otherwise the hull starts at the lowest, then leftmost, point (for a `Math` whose
      `atan2` and `hypot` behave as stated), uses only input points and turns strictly
      left at every vertex. */
  method Hull(m: JsMath, points: seq<Point>) returns (hull: seq<Point>)
    ensures |points| < 3 ==> hull == points
    ensures |points| >= 3 ==> 2 <= |hull| <= |points| && LeftTurns(hull)
    ensures forall p :: p in hull ==> p in points
    ensures |points| >= 3 && Atan2UpperHalf(m.atan2) && HypotNonNegative(m.hypot)
            && HypotZeroOnlyAtOrigin(m.hypot) ==>
              forall p :: p in points ==> !LowerLeft(p, hull[0])
  {
    if |points| < 3 {
      return points;
    }
    var b := BottomIndex(points);
    var pts := SwapToFront(points, b);
    var pivot := pts[0];
    var sorted := SortByAngle(m, pivot, pts);
    hull := Scan(sorted);
    assert forall p :: p in hull ==> p in sorted by {
      forall p | p in hull ensures p in sorted {
        var idx :| PicksInOrder(hull, sorted, idx);
        var k :| 0 <= k < |hull| && hull[k] == p;
        assert sorted[idx[k]] == p;
      }
    }
    assert forall p :: p in sorted ==> p in points by {
      forall p | p in sorted ensures p in points {
        assert p in multiset(sorted);
      }
    }
    if Atan2UpperHalf(m.atan2) && HypotNonNegative(m.hypot) && HypotZeroOnlyAtOrigin(m.hypot) {
      assert pivot in multiset(pts);
      PivotSortsFirst(m, pivot, points, sorted);
    }
  }

  /** With `atan2` non-negative on the upper half-plane and `hypot` zero only at the
      origin, the pivot has the least key of all points, and only the pivot has it,
      so the sort puts (a copy of) the pivot first. */
  lemma PivotSortsFirst(m: JsMath, pivot: Point, points: seq<Point>, sorted: seq<Point>)
    requires Atan2UpperHalf(m.atan2) && HypotNonNegative(m.hypot) && HypotZeroOnlyAtOrigin(m.hypot)
    requires pivot in points && forall p :: p in points ==> !LowerLeft(p, pivot)
    requires SortedAbout(m, pivot, sorted) && multiset(sorted) == multiset(points)
    ensures |sorted| > 0 && sorted[0] == pivot
  {
    assert pivot in multiset(sorted);
    var j :| 0 <= j < |sorted| && sorted[j] == pivot;
    var first := sorted[0];
    assert first in multiset(points);
    assert first in points;
    assert first.y - pivot.y >= 0.0;
    assert AngleOf(m, pivot, pivot) == 0.0 && DistOf(m, pivot, pivot) == 0.0;
    assert AngleOf(m, pivot, first) >= 0.0;
    assert DistOf(m, pivot, first) >= 0.0;
    if j > 0 {
      assert NotAfter(m, pivot, first, pivot);
    }
    assert DistOf(m, pivot, first) == 0.0;
  }
}
