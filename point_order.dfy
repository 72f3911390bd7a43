/** Ordering the corners of a quadrilateral by their angle around the centroid
    (`sort_quad_points`). The angle function (`np.arctan2`) is a parameter. */
module PointOrder {
  import opened Points

  /** Sum of the x and of the y coordinates. */
  function SumX(pts: seq<Point>): int
  {
    if |pts| == 0 then 0 else pts[0].x + SumX(pts[1..])
  }

  function SumY(pts: seq<Point>): int
  {
    if |pts| == 0 then 0 else pts[0].y + SumY(pts[1..])
  }

  /** `np.mean(pts, axis=0)`: the centroid `(cx, cy)`, exactly. */
  function Centroid(pts: seq<Point>): (c: (real, real))
    requires |pts| > 0
    ensures c.0 * |pts| as real == SumX(pts) as real && c.1 * |pts| as real == SumY(pts) as real
  {
    (SumX(pts) as real / |pts| as real, SumY(pts) as real / |pts| as real)
  }

  /** `s` is non-decreasing under `key`. */
  predicate SortedBy(s: seq<Point>, key: Point -> real)
  {
    forall i, j :: 0 <= i < j < |s| ==> key(s[i]) <= key(s[j])
  }

  /** Insert `p` before the first element whose key is not smaller, so that among equal
      keys the inserted point comes first. */
  function Insert(p: Point, s: seq<Point>, key: Point -> real): (r: seq<Point>)
    requires SortedBy(s, key)
    ensures |r| == |s| + 1 && (r[0] == p || (|s| > 0 && r[0] == s[0]))
    ensures multiset(r) == multiset(s) + multiset{p}
    ensures SortedBy(r, key)
  {
    if |s| == 0 then [p]
    else if key(p) <= key(s[0]) then
      ConsSorted(p, s, key);
      [p] + s
    else
      var rest := Insert(p, s[1..], key);
      assert s == [s[0]] + s[1..];
      assert |s| > 1 ==> key(s[0]) <= key(s[1]);
      ConsSorted(s[0], rest, key);
      [s[0]] + rest
  }

  /** A point whose key is at most the head's can be put in front of a sorted sequence. */
  lemma ConsSorted(h: Point, s: seq<Point>, key: Point -> real)
    requires SortedBy(s, key) && (|s| == 0 || key(h) <= key(s[0]))
    ensures SortedBy([h] + s, key)
  {
    forall i, j | 0 <= i < j < |[h] + s| ensures key(([h] + s)[i]) <= key(([h] + s)[j]) {
      if i == 0 {
        assert key(s[0]) <= key(s[j - 1]);
      }
    }
  }

  /** Python's `sorted(pts, key=key)`: a stable insertion sort. */
  function SortByKey(s: seq<Point>, key: Point -> real): (r: seq<Point>)
    ensures multiset(r) == multiset(s)
    ensures SortedBy(r, key)
  {
    if |s| == 0 then []
    else
      assert s == [s[0]] + s[1..];
      Insert(s[0], SortByKey(s[1..], key), key)
  }

  /** The angle of `p` seen from the centroid: `atan2(p.y - cy, p.x - cx)`. */
  function AngleFrom(c: (real, real), atan2: (real, real) -> real): Point -> real
  {
    (p: Point) => atan2(p.y as real - c.1, p.x as real - c.0)
  }

  /** `sort_quad_points`: the points ordered by their angle around the centroid. */
  function SortQuadPoints(pts: seq<Point>, atan2: (real, real) -> real): (r: seq<Point>)
    ensures multiset(r) == multiset(pts)
    ensures |pts| > 0 ==> SortedBy(r, AngleFrom(Centroid(pts), atan2))
  {
    if |pts| == 0 then [] else SortByKey(pts, AngleFrom(Centroid(pts), atan2))
  }

  /** No two points of `s` share a key. */
  predicate KeysDistinct(s: seq<Point>, key: Point -> real)
  {
    forall i, j :: 0 <= i < j < |s| ==> key(s[i]) != key(s[j])
  }

  /** When no two points share a key, a sequence sorted by the key is determined by its
      points alone: the order depends on nothing but the angles. */
  lemma {:induction false} SortedPermutationUnique(s: seq<Point>, t: seq<Point>, key: Point -> real)
    requires multiset(s) == multiset(t)
    requires SortedBy(s, key) && SortedBy(t, key) && KeysDistinct(s, key)
    ensures s == t
    decreases |s|
  {
    assert |s| == |multiset(s)| == |multiset(t)| == |t|;
    if |s| > 0 {
      SortedHeadsAgree(s, t, key);
      DropHead(s, t);
      SortedTail(s, key);
      SortedTail(t, key);
      assert KeysDistinct(s[1..], key) by {
        forall a, b | 0 <= a < b < |s[1..]| ensures key(s[1..][a]) != key(s[1..][b]) {
          assert s[1..][a] == s[a + 1] && s[1..][b] == s[b + 1];
        }
      }
      SortedPermutationUnique(s[1..], t[1..], key);
      assert s == [s[0]] + s[1..] && t == [t[0]] + t[1..];
    }
  }

  /** Both sequences start with the point of least key. */
  lemma SortedHeadsAgree(s: seq<Point>, t: seq<Point>, key: Point -> real)
    requires |s| > 0 && |t| > 0 && multiset(s) == multiset(t)
    requires SortedBy(s, key) && SortedBy(t, key) && KeysDistinct(s, key)
    ensures s[0] == t[0]
  {
    assert s[0] in multiset(t) && t[0] in multiset(s);
    var i :| 0 <= i < |t| && t[i] == s[0];
    var j :| 0 <= j < |s| && s[j] == t[0];
    assert key(t[0]) <= key(s[0]) by {
      if i > 0 { assert key(t[0]) <= key(t[i]); }
    }
    if j > 0 {
      assert false;
    }
  }

  lemma DropHead(s: seq<Point>, t: seq<Point>)
    requires |s| > 0 && |t| > 0 && multiset(s) == multiset(t) && s[0] == t[0]
    ensures multiset(s[1..]) == multiset(t[1..])
  {
    assert s == [s[0]] + s[1..] && t == [t[0]] + t[1..];
    assert multiset(s[1..]) == multiset(s) - multiset{s[0]};
    assert multiset(t[1..]) == multiset(t) - multiset{t[0]};
  }

  lemma SortedTail(s: seq<Point>, key: Point -> real)
    requires |s| > 0 && SortedBy(s, key)
    ensures SortedBy(s[1..], key)
  {
    forall a, b | 0 <= a < b < |s[1..]| ensures key(s[1..][a]) <= key(s[1..][b]) {
      assert s[1..][a] == s[a + 1] && s[1..][b] == s[b + 1];
    }
  }

  /** The square of the tests: with any angle function that ranks the four diagonal
      directions as `atan2` does (from -3 pi / 4 up to 3 pi / 4), the corners come out
      anticlockwise from the origin. */
  lemma ExampleSquareOrder(pts: seq<Point>, atan2: (real, real) -> real)
    requires pts == [Point(0, 0), Point(0, 5), Point(5, 5), Point(5, 0)]
    requires atan2(-2.5, -2.5) < atan2(-2.5, 2.5) < atan2(2.5, 2.5) < atan2(2.5, -2.5)
    ensures SortQuadPoints(pts, atan2) == [Point(0, 0), Point(5, 0), Point(5, 5), Point(0, 5)]
  {
    var expected := [Point(0, 0), Point(5, 0), Point(5, 5), Point(0, 5)];
    SquareCentroid(pts);
    SquareCornersByAngle(expected, atan2);
    TailReversed(pts[0], pts[1], pts[2], pts[3]);
    SortedPermutationUnique(expected, SortQuadPoints(pts, atan2), AngleFrom((2.5, 2.5), atan2));
  }

  lemma SquareCentroid(pts: seq<Point>)
    requires pts == [Point(0, 0), Point(0, 5), Point(5, 5), Point(5, 0)]
    ensures Centroid(pts) == (2.5, 2.5)
  {
    var s1 := pts[1..];
    var s2 := s1[1..];
    var s3 := s2[1..];
    assert s3 == [Point(5, 0)] && s3[1..] == [];
    assert SumX(s3) == 5 && SumY(s3) == 0;
    assert SumX(s2) == 10 && SumY(s2) == 5;
    assert SumX(s1) == 10 && SumY(s1) == 10;
    assert SumX(pts) == 10 && SumY(pts) == 10;
  }

  lemma SquareCornersByAngle(expected: seq<Point>, atan2: (real, real) -> real)
    requires expected == [Point(0, 0), Point(5, 0), Point(5, 5), Point(0, 5)]
    requires atan2(-2.5, -2.5) < atan2(-2.5, 2.5) < atan2(2.5, 2.5) < atan2(2.5, -2.5)
    ensures SortedBy(expected, AngleFrom((2.5, 2.5), atan2))
    ensures KeysDistinct(expected, AngleFrom((2.5, 2.5), atan2))
  {
    var key := AngleFrom((2.5, 2.5), atan2);
    assert key(expected[0]) == atan2(-2.5, -2.5);
    assert key(expected[1]) == atan2(-2.5, 2.5);
    assert key(expected[2]) == atan2(2.5, 2.5);
    assert key(expected[3]) == atan2(2.5, -2.5);
  }

  lemma TailReversed(a: Point, b: Point, c: Point, d: Point)
    ensures multiset([a, b, c, d]) == multiset([a, d, c, b])
  {
    forall p: Point
      ensures multiset([a, b, c, d])[p] == multiset([a, d, c, b])[p]
    {
    }
  }
}
