/** Polygon area by the shoelace formula with wrap-around indexing (`cal_quad_area`). */
module QuadArea {
  import opened Points

  /** z-component of the cross product of `a` and `b`. */
  function Cross(a: Point, b: Point): int
  {
    a.x * b.y - a.y * b.x
  }

  /** The column `points[:, 0]`. */
  function Xs(pts: seq<Point>): (r: seq<int>)
    ensures |r| == |pts| && forall i :: 0 <= i < |pts| ==> r[i] == pts[i].x
  {
    seq(|pts|, i requires 0 <= i < |pts| => pts[i].x)
  }

  /** The column `points[:, 1]`. */
  function Ys(pts: seq<Point>): (r: seq<int>)
    ensures |r| == |pts| && forall i :: 0 <= i < |pts| ==> r[i] == pts[i].y
  {
    seq(|pts|, i requires 0 <= i < |pts| => pts[i].y)
  }

  /** `np.roll(s, 1)`: element `i` of the result is element `i - 1` of `s`,
      where index -1 wraps to the last element. */
  function Roll(s: seq<int>): (r: seq<int>)
    requires |s| > 0
    ensures |r| == |s| && r[0] == s[|s| - 1]
    ensures forall i :: 1 <= i < |s| ==> r[i] == s[i - 1]
  {
    [s[|s| - 1]] + s[..|s| - 1]
  }

  /** `np.dot` of two vectors of equal length. */
  function Dot(a: seq<int>, b: seq<int>): int
    requires |a| == |b|
  {
    if |a| == 0 then 0 else a[0] * b[0] + Dot(a[1..], b[1..])
  }

  /** Twice the signed area: `dot(x, roll(y, 1)) - dot(y, roll(x, 1))`. */
  function TwiceSignedArea(pts: seq<Point>): int
    requires |pts| > 0
  {
    Dot(Xs(pts), Roll(Ys(pts))) - Dot(Ys(pts), Roll(Xs(pts)))
  }

  /** `cal_quad_area`: half the absolute value of the shoelace sum. */
  function Area(pts: seq<Point>): (a: real)
    requires |pts| > 0
    ensures a >= 0.0
    ensures 2.0 * a == Abs(TwiceSignedArea(pts)) as real
  {
    0.5 * Abs(TwiceSignedArea(pts)) as real
  }

  // ---------------------------------------------------------------------------
  // Reference definition: the sum over the polygon's edges.

  /** Sum of `Cross(s[i + 1], s[i])` over consecutive pairs of the open chain. */
  function Chain(s: seq<Point>): int
  {
    if |s| < 2 then 0 else Cross(s[1], s[0]) + Chain(s[1..])
  }

  /** Sum over all edges of the closed polygon, the closing edge last-to-first included. */
  function EdgeSum(s: seq<Point>): int
    requires |s| > 0
  {
    Chain(s) + Cross(s[0], s[|s| - 1])
  }

  lemma {:induction false} DotsAreChain(s: seq<Point>)
    requires |s| > 0
    ensures Dot(Xs(s[1..]), Ys(s[..|s| - 1])) - Dot(Ys(s[1..]), Xs(s[..|s| - 1])) == Chain(s)
    decreases |s|
  {
    if |s| > 1 {
      var t := s[1..];
      assert t[1..] == s[2..];
      assert s[..|s| - 1][1..] == t[..|t| - 1];
      assert Xs(t)[1..] == Xs(t[1..]);
      assert Ys(t)[1..] == Ys(t[1..]);
      assert Xs(s[..|s| - 1])[1..] == Xs(t[..|t| - 1]);
      assert Ys(s[..|s| - 1])[1..] == Ys(t[..|t| - 1]);
      DotsAreChain(t);
    }
  }

  /** The rolled-dot-product form computed by `cal_quad_area` is the sum of the
      cross products of the polygon's edges, wrap-around edge included. */
  lemma ShoelaceIsEdgeSum(pts: seq<Point>)
    requires |pts| > 0
    ensures TwiceSignedArea(pts) == EdgeSum(pts)
  {
    var n := |pts|;
    var xs, ys := Xs(pts), Ys(pts);
    assert Roll(ys)[1..] == Ys(pts[..n - 1]);
    assert Roll(xs)[1..] == Xs(pts[..n - 1]);
    assert xs[1..] == Xs(pts[1..]);
    assert ys[1..] == Ys(pts[1..]);
    DotsAreChain(pts);
  }

  lemma {:induction false} ChainSnoc(s: seq<Point>, a: Point)
    requires |s| > 0
    ensures Chain(s + [a]) == Chain(s) + Cross(a, s[|s| - 1])
    decreases |s|
  {
    if |s| > 1 {
      assert (s + [a])[1..] == s[1..] + [a];
      ChainSnoc(s[1..], a);
    }
  }

  // ---------------------------------------------------------------------------
  // Invariance under rotation and reversal of the point list.

  /** Rotate by one place: the first point moves to the end. */
  function RotateLeft(s: seq<Point>): (r: seq<Point>)
    requires |s| > 0
    ensures |r| == |s| && r[|s| - 1] == s[0]
    ensures forall i :: 0 <= i < |s| - 1 ==> r[i] == s[i + 1]
  {
    s[1..] + [s[0]]
  }

  lemma EdgeSumRotateLeft(s: seq<Point>)
    requires |s| > 0
    ensures EdgeSum(RotateLeft(s)) == EdgeSum(s)
  {
    if |s| > 1 {
      ChainSnoc(s[1..], s[0]);
    }
  }

  /** Starting the polygon at any vertex gives the same area. */
  lemma {:induction false} AreaRotationInvariant(s: seq<Point>, k: nat)
    requires k < |s|
    ensures Area(s[k..] + s[..k]) == Area(s)
    decreases k
  {
    if k == 0 {
      assert s[k..] + s[..k] == s;
    } else {
      var u := s[k - 1..] + s[..k - 1];
      AreaRotationInvariant(s, k - 1);
      assert s[k..] + s[..k] == RotateLeft(u);
      EdgeSumRotateLeft(u);
      ShoelaceIsEdgeSum(u);
      ShoelaceIsEdgeSum(RotateLeft(u));
    }
  }

  function Reverse(s: seq<Point>): (r: seq<Point>)
    ensures |r| == |s| && forall i :: 0 <= i < |s| ==> r[i] == s[|s| - 1 - i]
  {
    if s == [] then [] else Reverse(s[1..]) + [s[0]]
  }

  lemma {:induction false} ChainReverse(s: seq<Point>)
    ensures Chain(Reverse(s)) == -Chain(s)
    decreases |s|
  {
    if |s| >= 2 {
      var t := s[1..];
      ChainReverse(t);
      ChainSnoc(Reverse(t), s[0]);
    } else if |s| == 1 {
      assert Reverse(s) == s;
    }
  }

  /** Traversing the vertices in the opposite direction flips the sign of the
      shoelace sum. */
  lemma ReversalNegatesSignedArea(s: seq<Point>)
    requires |s| > 0
    ensures TwiceSignedArea(Reverse(s)) == -TwiceSignedArea(s)
  {
    var r := Reverse(s);
    ChainReverse(s);
    var first, last := s[0], s[|s| - 1];
    assert r[0] == last && r[|r| - 1] == first;
    assert Cross(last, first) == -Cross(first, last);
    assert EdgeSum(r) == -EdgeSum(s);
    ShoelaceIsEdgeSum(s);
    ShoelaceIsEdgeSum(r);
  }

  /** Traversing the vertices in the opposite direction keeps the area. */
  lemma AreaReversalInvariant(s: seq<Point>)
    requires |s| > 0
    ensures Area(Reverse(s)) == Area(s)
  {
    ReversalNegatesSignedArea(s);
  }

  // ---------------------------------------------------------------------------
  // Degenerate polygons.

  /** The point `a + t * d`. */
  function Along(a: Point, d: Point, t: int): Point
  {
    Point(a.x + t * d.x, a.y + t * d.y)
  }

  lemma CrossAlong(a: Point, d: Point, t: int, u: int)
    ensures Cross(Along(a, d, t), Along(a, d, u)) == (u - t) * Cross(a, d)
  {
    var c := Cross(a, d);
    ProductOfSums(a.x, t * d.x, a.y, u * d.y);
    ProductOfSums(a.y, t * d.y, a.x, u * d.x);
    assert (t * d.x) * (u * d.y) == (t * d.y) * (u * d.x);
    assert a.x * (u * d.y) - a.y * (u * d.x) == u * c;
    assert (t * d.x) * a.y - (t * d.y) * a.x == -(t * c);
  }

  lemma ProductOfSums(p: int, q: int, r: int, s: int)
    ensures (p + q) * (r + s) == p * r + p * s + q * r + q * s
  {
  }

  lemma {:induction false} ChainAlong(s: seq<Point>, a: Point, d: Point, ts: seq<int>)
    requires |s| == |ts| > 0
    requires forall i :: 0 <= i < |s| ==> s[i] == Along(a, d, ts[i])
    ensures Chain(s) == (ts[0] - ts[|ts| - 1]) * Cross(a, d)
    decreases |s|
  {
    if |s| >= 2 {
      ChainAlong(s[1..], a, d, ts[1..]);
      CrossAlong(a, d, ts[1], ts[0]);
    }
  }

  /** Points that all lie on one line (`a + t * d` for integers `t`) enclose area 0. */
  lemma CollinearAreaZero(s: seq<Point>, a: Point, d: Point, ts: seq<int>)
    requires |s| == |ts| > 0
    requires forall i :: 0 <= i < |s| ==> s[i] == Along(a, d, ts[i])
    ensures TwiceSignedArea(s) == 0 && Area(s) == 0.0
  {
    var c, t0, tn := Cross(a, d), ts[0], ts[|ts| - 1];
    ChainAlong(s, a, d, ts);
    CrossAlong(a, d, tn, t0);
    assert EdgeSum(s) == (t0 - tn) * c + (t0 - tn) * -c;
    ShoelaceIsEdgeSum(s);
  }

  /** Any number of copies of one point enclose area 0. */
  lemma IdenticalPointsAreaZero(s: seq<Point>)
    requires |s| > 0
    requires forall i :: 0 <= i < |s| ==> s[i] == s[0]
    ensures Area(s) == 0.0
  {
    var ts := seq(|s|, i => 0);
    CollinearAreaZero(s, s[0], Point(0, 0), ts);
  }

  // ---------------------------------------------------------------------------
  // Translation.

  /** Every point moved by the offset `t`. */
  function Translate(s: seq<Point>, t: Point): (r: seq<Point>)
    ensures |r| == |s| && forall i :: 0 <= i < |s| ==> r[i] == Point(s[i].x + t.x, s[i].y + t.y)
  {
    seq(|s|, i requires 0 <= i < |s| => Point(s[i].x + t.x, s[i].y + t.y))
  }

  lemma CrossShift(a: Point, b: Point, t: Point)
    ensures Cross(Point(a.x + t.x, a.y + t.y), Point(b.x + t.x, b.y + t.y))
         == Cross(a, b) + Cross(t, b) - Cross(t, a)
  {
    calc {
      Cross(Point(a.x + t.x, a.y + t.y), Point(b.x + t.x, b.y + t.y));
      (a.x + t.x) * (b.y + t.y) - (a.y + t.y) * (b.x + t.x);
      a.x * b.y + a.x * t.y + t.x * b.y + t.x * t.y - a.y * b.x - a.y * t.x - t.y * b.x - t.y * t.x;
      Cross(a, b) + Cross(t, b) - Cross(t, a);
    }
  }

  lemma {:induction false} ChainTranslate(s: seq<Point>, t: Point)
    requires |s| > 0
    ensures Chain(Translate(s, t)) == Chain(s) + Cross(t, s[0]) - Cross(t, s[|s| - 1])
    decreases |s|
  {
    if |s| >= 2 {
      ChainTranslate(s[1..], t);
      assert Translate(s, t)[1..] == Translate(s[1..], t);
      CrossShift(s[1], s[0], t);
    }
  }

  // ---------------------------------------------------------------------------
  // The values the repository's tests expect.

  /** The area of a quadrilateral from its four edge cross products. */
  lemma QuadAreaFromEdges(s: seq<Point>, v: int)
    requires |s| == 4
    requires Cross(s[1], s[0]) + Cross(s[2], s[1]) + Cross(s[3], s[2]) + Cross(s[0], s[3]) == v
    ensures Area(s) == 0.5 * Abs(v) as real
  {
    assert s[1..][1..] == s[2..];
    assert Chain(s[2..]) == Cross(s[3], s[2]);
    assert Chain(s[1..]) == Cross(s[2], s[1]) + Chain(s[2..]);
    assert EdgeSum(s) == v;
    ShoelaceIsEdgeSum(s);
  }

  /** Moving every vertex by the same offset keeps the area. */
  lemma AreaTranslationInvariant(s: seq<Point>, t: Point)
    requires |s| > 0
    ensures Area(Translate(s, t)) == Area(s)
  {
    var u := Translate(s, t);
    ChainTranslate(s, t);
    CrossShift(s[0], s[|s| - 1], t);
    assert EdgeSum(u) == EdgeSum(s);
    ShoelaceIsEdgeSum(s);
    ShoelaceIsEdgeSum(u);
  }

  // The three examples below evaluate the shifted polygon and carry the area back with
  // `AreaTranslationInvariant`: the shift has no meaning of its own, it only keeps the solver
  // away from the zero coordinates, on which `QuadAreaFromEdges` applied directly is too costly.
  lemma ExampleSquare()
    ensures Area([Point(0, 0), Point(5, 0), Point(5, 5), Point(0, 5)]) == 25.0
  {
    var s := [Point(0, 0), Point(5, 0), Point(5, 5), Point(0, 5)];
    assert Translate(s, Point(1, 1)) == [Point(1, 1), Point(6, 1), Point(6, 6), Point(1, 6)];
    QuadAreaFromEdges(Translate(s, Point(1, 1)), -50);
    AreaTranslationInvariant(s, Point(1, 1));
  }

  lemma ExampleRectangle()
    ensures Area([Point(0, 0), Point(5, 0), Point(5, 2), Point(0, 2)]) == 10.0
  {
    var s := [Point(0, 0), Point(5, 0), Point(5, 2), Point(0, 2)];
    assert Translate(s, Point(1, 1)) == [Point(1, 1), Point(6, 1), Point(6, 3), Point(1, 3)];
    QuadAreaFromEdges(Translate(s, Point(1, 1)), -20);
    AreaTranslationInvariant(s, Point(1, 1));
  }

  lemma ExampleIrregular()
    ensures Area([Point(0, 0), Point(2, 0), Point(2, 3), Point(0, 1)]) == 4.0
  {
    var s := [Point(0, 0), Point(2, 0), Point(2, 3), Point(0, 1)];
    assert Translate(s, Point(1, 1)) == [Point(1, 1), Point(3, 1), Point(3, 4), Point(1, 2)];
    QuadAreaFromEdges(Translate(s, Point(1, 1)), -8);
    AreaTranslationInvariant(s, Point(1, 1));
  }

  lemma ExampleNonConvex()
    ensures Area([Point(100, 100), Point(300, 50), Point(250, 250), Point(150, 200)]) == 22500.0
  {
    QuadAreaFromEdges([Point(100, 100), Point(300, 50), Point(250, 250), Point(150, 200)], -45000);
  }

  lemma ExampleDegenerate()
    ensures Area([Point(0, 0), Point(0, 0), Point(0, 0), Point(0, 0)]) == 0.0
    ensures Area([Point(0, 0), Point(1, 1), Point(2, 2), Point(3, 3)]) == 0.0
  {
    IdenticalPointsAreaZero([Point(0, 0), Point(0, 0), Point(0, 0), Point(0, 0)]);
    CollinearAreaZero([Point(0, 0), Point(1, 1), Point(2, 2), Point(3, 3)], Point(0, 0), Point(1, 1), [0, 1, 2, 3]);
  }
}
