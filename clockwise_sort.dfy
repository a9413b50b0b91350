/** `sort_clockwise` of scripts/sort_utm_clockwise.py: orders 2D points by their
    angle around the centroid, rotates the smallest angle to the front and
    reverses the list when its first three points turn counter-clockwise.

    The angle key `(atan2(dy, dx) + 2π) % 2π` is floating-point arithmetic; it is
    the parameter `normalizedAtan2`, an arbitrary deterministic function of
    (dy, dx), about which nothing else is assumed. */
module ClockwiseSort {
  import opened Geometry
  import opened ListOps
  import opened StableSort

  /** The sort key of a point: the normalised angle of the vector from the
      centroid `c` to the point, given as (dy, dx). */
  function AngleKey(c: Point, normalizedAtan2: (real, real) -> real): Point -> real
  {
    (p: Point) => normalizedAtan2(p.y - c.y, p.x - c.x)
  }

  /** The key used for the points `ps`: angles around their centroid. */
  function KeyOf(ps: seq<Point>, normalizedAtan2: (real, real) -> real): Point -> real
    requires |ps| > 0
  {
    AngleKey(Centroid(ps), normalizedAtan2)
  }

  /** The points sorted by ascending angle key (`sorted(..., reverse=False)`). */
  function SortedByAngle(ps: seq<Point>, normalizedAtan2: (real, real) -> real): seq<Point>
    requires |ps| > 0
  {
    SortByKey(ps, KeyOf(ps, normalizedAtan2))
  }

  /** The first three points of `s` make a counter-clockwise turn. */
  predicate TurnsCounterClockwise(s: seq<Point>)
    requires |s| >= 3
  {
    Cross(s[0], s[1], s[2]) > 0.0
  }

  /** What `sort_clockwise` returns for the points `ps`. Lists shorter than three
      come back as they are; longer ones are sorted by angle and reversed when
      they start with a counter-clockwise turn. The rotation of the source is
      absent here: SmallestKeyIndexOfSorted shows that it always rotates by 0. */
  function ClockwiseOrder(ps: seq<Point>, normalizedAtan2: (real, real) -> real): seq<Point>
  {
    if |ps| < 3 then ps
    else
      var s := SortedByAngle(ps, normalizedAtan2);
      if TurnsCounterClockwise(s) then Reversed(s) else s
  }

  /** `i` is the first index of `s` holding the smallest key. */
  predicate IsFirstMin<T>(s: seq<T>, key: T -> real, i: nat)
  {
    i < |s|
    && (forall j :: 0 <= j < |s| ==> key(s[i]) <= key(s[j]))
    && (forall j :: 0 <= j < i ==> key(s[j]) > key(s[i]))
  }

  /** The loop that looks for the smallest angle: it keeps the first index at
      which a strictly smaller key was seen. */
  method SmallestKeyIndex<T>(s: seq<T>, key: T -> real) returns (smallestIndex: nat)
    requires |s| > 0
    ensures IsFirstMin(s, key, smallestIndex)
  {
    smallestIndex := 0;
    var smallest := key(s[0]);
    for i := 1 to |s|
      invariant smallestIndex < i
      invariant smallest == key(s[smallestIndex])
      invariant forall j :: 0 <= j < i ==> smallest <= key(s[j])
      invariant forall j :: 0 <= j < smallestIndex ==> key(s[j]) > smallest
    {
      var angle := key(s[i]);
      if angle < smallest {
        smallest := angle;
        smallestIndex := i;
      }
    }
  }

  /** At most one index is the first index of the smallest key, so the loop's
      result is determined by its postcondition. */
  lemma FirstMinUnique<T>(s: seq<T>, key: T -> real, i: nat, j: nat)
    requires IsFirstMin(s, key, i) && IsFirstMin(s, key, j)
    ensures i == j
  {
    assert key(s[i]) <= key(s[j]) && key(s[j]) <= key(s[i]);
  }

  /** On a list already sorted by the same key, the first smallest key is at
      index 0, so the rotation `s[0:] + s[:0]` leaves the list unchanged. */
  lemma SmallestKeyIndexOfSorted<T>(s: seq<T>, key: T -> real, i: nat)
    requires SortedByKey(s, key)
    requires IsFirstMin(s, key, i)
    ensures i == 0 && Rotate(s, i) == s
  {
    assert key(s[0]) <= key(s[i]);
    RotateByZero(s);
  }

  /** `sort_clockwise(points)`: `null` stands for `None`. The result is always a
      new list; `points` itself is not modified. */
  method SortClockwise(points: array?<Point>, normalizedAtan2: (real, real) -> real)
    returns (result: array<Point>)
    ensures fresh(result)
    ensures points == null ==> result[..] == []
    ensures points != null ==> result[..] == ClockwiseOrder(points[..], normalizedAtan2)
  {
    if points == null || points.Length == 0 {
      result := NewList([]);
      return;
    }
    if points.Length < 3 {
      result := NewList(points[..]);
      return;
    }
    var ps := points[..];
    var key := AngleKey(Centroid(ps), normalizedAtan2);
    var sortedPoints := SortByKey(ps, key);
    var smallestIndex := SmallestKeyIndex(sortedPoints, key);
    SortByKeySorted(ps, key);
    SmallestKeyIndexOfSorted(sortedPoints, key, smallestIndex);
    result := NewList(Rotate(sortedPoints, smallestIndex));
    if Cross(result[0], result[1], result[2]) > 0.0 {
      ReverseInPlace(result);
    }
  }

  /** Fewer than three points come back unchanged, in their input order. */
  lemma ClockwiseOrderShortInput(ps: seq<Point>, normalizedAtan2: (real, real) -> real)
    requires |ps| < 3
    ensures ClockwiseOrder(ps, normalizedAtan2) == ps
  {
  }

  /** The result has the input's length and is a permutation of it. */
  lemma ClockwiseOrderPermutation(ps: seq<Point>, normalizedAtan2: (real, real) -> real)
    ensures |ClockwiseOrder(ps, normalizedAtan2)| == |ps|
    ensures multiset(ClockwiseOrder(ps, normalizedAtan2)) == multiset(ps)
  {
    if |ps| >= 3 {
      ReversedMultiset(SortedByAngle(ps, normalizedAtan2));
    }
  }

  /** For three or more points the result is the angle-sorted list, read
      backwards exactly when that list starts with a counter-clockwise turn; so
      its keys either ascend, or descend after a reversal. */
  lemma ClockwiseOrderReversal(ps: seq<Point>, normalizedAtan2: (real, real) -> real)
    requires |ps| >= 3
    ensures var s := SortedByAngle(ps, normalizedAtan2);
            var r := ClockwiseOrder(ps, normalizedAtan2);
            var key := KeyOf(ps, normalizedAtan2);
            SortedByKey(s, key)
            && (TurnsCounterClockwise(s) ==> r == Reversed(s) && DescendingByKey(r, key))
            && (!TurnsCounterClockwise(s) ==> r == s && SortedByKey(r, key))
  {
    var key := KeyOf(ps, normalizedAtan2);
    SortByKeySorted(ps, key);
    ReversedSortedDescends(SortedByAngle(ps, normalizedAtan2), key);
  }

  /** Points with equal angle keep their input order in the result, or appear
      in reverse input order when the list was reversed. */
  lemma ClockwiseOrderTies(ps: seq<Point>, normalizedAtan2: (real, real) -> real, k: real)
    requires |ps| >= 3
    ensures var key := KeyOf(ps, normalizedAtan2);
            var r := ClockwiseOrder(ps, normalizedAtan2);
            WithKey(r, key, k)
              == if TurnsCounterClockwise(SortedByAngle(ps, normalizedAtan2))
                 then Reversed(WithKey(ps, key, k))
                 else WithKey(ps, key, k)
  {
    var key := KeyOf(ps, normalizedAtan2);
    var s := SortedByAngle(ps, normalizedAtan2);
    SortByKeyStable(ps, key, k);
    WithKeyReversed(s, key, k);
  }

  /** When no two different points share an angle key, the result depends only
      on which points are given, not on the order they come in. With shared
      keys it does depend on it: `ClockwiseOrderTies` shows that tied points
      keep their input order. */
  lemma ClockwiseOrderInputOrder(ps: seq<Point>, qs: seq<Point>, normalizedAtan2: (real, real) -> real)
    requires multiset(ps) == multiset(qs)
    requires |ps| >= 3 && KeyInjective(ps, KeyOf(ps, normalizedAtan2))
    ensures ClockwiseOrder(ps, normalizedAtan2) == ClockwiseOrder(qs, normalizedAtan2)
  {
    CentroidPermutation(ps, qs);
    var key := KeyOf(ps, normalizedAtan2);
    assert KeyOf(qs, normalizedAtan2) == key;
    var s, t := SortByKey(ps, key), SortByKey(qs, key);
    SortByKeySorted(ps, key);
    SortByKeySorted(qs, key);
    assert KeyInjective(s, key) by {
      forall x, y | x in s && y in s && key(x) == key(y)
        ensures x == y
      {
        assert x in multiset(s) && y in multiset(s);
        assert x in multiset(ps) && y in multiset(ps);
      }
    }
    SortedUnique(s, t, key);
  }

  /** With exactly three points the result always turns clockwise (or is
      degenerate): the cross product of its points is never positive. */
  lemma ThreePointsEndClockwise(ps: seq<Point>, normalizedAtan2: (real, real) -> real)
    requires |ps| == 3
    ensures var r := ClockwiseOrder(ps, normalizedAtan2);
            |r| == 3 && Cross(r[0], r[1], r[2]) <= 0.0
  {
    var s := SortedByAngle(ps, normalizedAtan2);
    if TurnsCounterClockwise(s) {
      var r := Reversed(s);
      ReversedAt(s, 0);
      ReversedAt(s, 1);
      ReversedAt(s, 2);
      assert r[0] == s[2] && r[1] == s[1] && r[2] == s[0];
      CrossReversed(s[0], s[1], s[2]);
    }
  }
}
