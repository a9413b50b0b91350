/** Plane geometry used by the clockwise sorter: points, sums of coordinates,
    the centroid (arithmetic mean) and the 2D cross product. */
module Geometry {

  /** A point of the UTM plane, a pair (x, y) of real coordinates. */
  datatype Point = Point(x: real, y: real)

  /** Sum of the x coordinates of `ps` (the `sum(p[0] for p in points)` of the sorter). */
  function SumX(ps: seq<Point>): real
  {
    if ps == [] then 0.0 else ps[0].x + SumX(ps[1..])
  }

  /** Sum of the y coordinates of `ps`. */
  function SumY(ps: seq<Point>): real
  {
    if ps == [] then 0.0 else ps[0].y + SumY(ps[1..])
  }

  /** The centroid of a non-empty point list: the mean of the x and of the y
      coordinates, computed exactly. */
  function Centroid(ps: seq<Point>): (c: Point)
    requires |ps| > 0
    ensures c.x * (|ps| as real) == SumX(ps)
    ensures c.y * (|ps| as real) == SumY(ps)
  {
    Point(SumX(ps) / (|ps| as real), SumY(ps) / (|ps| as real))
  }

  lemma {:induction false} SumAppend(a: seq<Point>, b: seq<Point>)
    ensures SumX(a + b) == SumX(a) + SumX(b)
    ensures SumY(a + b) == SumY(a) + SumY(b)
  {
    if a == [] {
      assert a + b == b;
    } else {
      assert (a + b)[1..] == a[1..] + b;
      SumAppend(a[1..], b);
    }
  }

  /** Taking one point out of a list takes its coordinates out of the sums. */
  lemma SumRemove(t: seq<Point>, i: nat)
    requires i < |t|
    ensures SumX(t) == t[i].x + SumX(t[..i] + t[i + 1..])
    ensures SumY(t) == t[i].y + SumY(t[..i] + t[i + 1..])
  {
    var before, after := t[..i], t[i + 1..];
    var tail := [t[i]] + after;
    assert t == before + tail;
    assert tail[0] == t[i] && tail[1..] == after;
    SumAppend(before, tail);
    SumAppend(before, after);
  }

  /** Removing the same point from two lists with the same multiset leaves
      lists with the same multiset. */
  lemma MultisetRemoveFirst(s: seq<Point>, t: seq<Point>, i: nat)
    requires s != [] && i < |t| && t[i] == s[0]
    requires multiset(s) == multiset(t)
    ensures multiset(s[1..]) == multiset(t[..i] + t[i + 1..])
  {
    assert s == [s[0]] + s[1..];
    assert t == t[..i] + [t[i]] + t[i + 1..];
    assert multiset(s[1..]) == multiset(s) - multiset{s[0]};
    assert multiset(t[..i] + t[i + 1..]) == multiset(t) - multiset{t[i]};
  }

  /** The coordinate sums depend only on the multiset of points, not on their order. */
  lemma {:induction false} SumPermutation(s: seq<Point>, t: seq<Point>)
    requires multiset(s) == multiset(t)
    ensures SumX(s) == SumX(t) && SumY(s) == SumY(t)
    decreases |s|
  {
    if s == [] {
      assert |t| == |multiset(t)| == 0;
    } else {
      var p := s[0];
      assert p in multiset(s);
      var i :| 0 <= i < |t| && t[i] == p;
      var rest := t[..i] + t[i + 1..];
      MultisetRemoveFirst(s, t, i);
      SumPermutation(s[1..], rest);
      SumRemove(t, i);
    }
  }

  /** Reordering the input does not move the centroid, so the angle keys of the
      sorter depend only on which points are given. */
  lemma CentroidPermutation(s: seq<Point>, t: seq<Point>)
    requires |s| > 0
    requires multiset(s) == multiset(t)
    ensures |t| == |s| && Centroid(t) == Centroid(s)
  {
    assert |t| == |multiset(t)| == |multiset(s)| == |s|;
    SumPermutation(s, t);
  }

  /** The cross product (p2 - p1) x (p3 - p1); positive when p1, p2, p3 turn
      counter-clockwise. */
  function Cross(p1: Point, p2: Point, p3: Point): real
  {
    (p2.x - p1.x) * (p3.y - p1.y) - (p2.y - p1.y) * (p3.x - p1.x)
  }

  /** Swapping the last two points flips the sign of the cross product. */
  lemma CrossSwap(p1: Point, p2: Point, p3: Point)
    ensures Cross(p1, p3, p2) == -Cross(p1, p2, p3)
  {
  }

  /** Rotating the three arguments leaves the cross product unchanged. */
  lemma CrossRotate(p1: Point, p2: Point, p3: Point)
    ensures Cross(p2, p3, p1) == Cross(p1, p2, p3)
  {
  }

  /** The cross product of three points two of which coincide is zero. */
  lemma CrossDegenerate(p1: Point, p2: Point, p3: Point)
    requires p1 == p2 || p2 == p3 || p1 == p3
    ensures Cross(p1, p2, p3) == 0.0
  {
  }

  /** Reading three points backwards flips the sign of the cross product. */
  lemma CrossReversed(p1: Point, p2: Point, p3: Point)
    ensures Cross(p3, p2, p1) == -Cross(p1, p2, p3)
  {
  }
}
