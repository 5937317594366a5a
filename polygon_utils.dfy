/** The geometry kernel: a strict segment-crossing test, the two checks a
    polygon under construction must pass, even-odd point-in-polygon and the
    vertex-only "polygon inside polygon" test. Coordinates are exact reals in
    the map's normalised 0..100 space. */
module PolygonUtils {

  /** A point, in percentages of the map's width and height. */
  datatype Point = Point(x: real, y: real)

  /** The point `t` of the way from `p` towards `q`, on the line through both. */
  function Along(p: Point, q: Point, t: real): Point {
    Point(p.x + t * (q.x - p.x), p.y + t * (q.y - p.y))
  }

  // ---------------------------------------------------------------------------
  // linesIntersect
  // ---------------------------------------------------------------------------

  /** Cross product of the directions b - a and d - c: zero exactly when the
      two segments are parallel or collinear. */
  function Det(a: Point, b: Point, c: Point, d: Point): real {
    (b.x - a.x) * (d.y - c.y) - (d.x - c.x) * (b.y - a.y)
  }

  /** Where the crossing lies on ab: 0 at a, 1 at b. */
  function Lambda(a: Point, b: Point, c: Point, d: Point): real
    requires Det(a, b, c, d) != 0.0
  {
    ((d.y - c.y) * (d.x - a.x) + (c.x - d.x) * (d.y - a.y)) / Det(a, b, c, d)
  }

  /** Where the crossing lies on cd, measured from d: 0 at d, 1 at c. */
  function Gamma(a: Point, b: Point, c: Point, d: Point): real
    requires Det(a, b, c, d) != 0.0
  {
    ((a.y - b.y) * (d.x - a.x) + (b.x - a.x) * (d.y - a.y)) / Det(a, b, c, d)
  }

  /** The source's segment test: false for parallel or collinear segments,
      otherwise true when both crossing parameters lie strictly in (0, 1). */
  predicate LinesIntersect(a: Point, b: Point, c: Point, d: Point) {
    if Det(a, b, c, d) == 0.0 then false
    else
      var lambda := Lambda(a, b, c, d);
      var gamma := Gamma(a, b, c, d);
      (0.0 < lambda && lambda < 1.0) && (0.0 < gamma && gamma < 1.0)
  }

  /** The open segments ab and cd share a point that is interior to both. */
  ghost predicate CrossAtInteriorPoint(a: Point, b: Point, c: Point, d: Point) {
    exists l: real, g: real :: 0.0 < l < 1.0 && 0.0 < g < 1.0 && Along(a, b, l) == Along(d, c, g)
  }

  /** Cramer's rule, uniqueness half: a solution (l, g) of the 2x2 system
      l * u + g * v == w with a non-zero determinant is the quotient pair. */
  lemma CramerUnique(ux: real, uy: real, vx: real, vy: real, wx: real, wy: real, l: real, g: real)
    requires ux * vy - vx * uy != 0.0
    requires l * ux + g * vx == wx && l * uy + g * vy == wy
    ensures l == (vy * wx - vx * wy) / (ux * vy - vx * uy)
    ensures g == (ux * wy - uy * wx) / (ux * vy - vx * uy)
  {
    var det := ux * vy - vx * uy;
    assert l * det == vy * wx - vx * wy by {
      calc {
        l * det;
        (l * ux) * vy - vx * (l * uy);
        (wx - g * vx) * vy - vx * (wy - g * vy);
        vy * wx - vx * wy;
      }
    }
    assert g * det == ux * wy - uy * wx by {
      calc {
        g * det;
        ux * (g * vy) - uy * (g * vx);
        ux * (wy - l * uy) - uy * (wx - l * ux);
        ux * wy - uy * wx;
      }
    }
  }

  /** Cramer's rule, existence half: the pair whose products with the
      determinant are the two numerators solves the system. */
  lemma CramerSolves(ux: real, uy: real, vx: real, vy: real, wx: real, wy: real, l: real, g: real)
    requires ux * vy - vx * uy != 0.0
    requires l * (ux * vy - vx * uy) == vy * wx - vx * wy
    requires g * (ux * vy - vx * uy) == ux * wy - uy * wx
    ensures l * ux + g * vx == wx && l * uy + g * vy == wy
  {
    var det := ux * vy - vx * uy;
    assert (l * ux + g * vx) * det == wx * det by {
      calc {
        (l * ux + g * vx) * det;
        (l * det) * ux + (g * det) * vx;
        (vy * wx - vx * wy) * ux + (ux * wy - uy * wx) * vx;
        wx * det;
      }
    }
    assert (l * uy + g * vy) * det == wy * det by {
      calc {
        (l * uy + g * vy) * det;
        (l * det) * uy + (g * det) * vy;
        (vy * wx - vx * wy) * uy + (ux * wy - uy * wx) * vy;
        wy * det;
      }
    }
  }

  /** For non-parallel segments the two lines meet in exactly one point, and
      Lambda and Gamma are its parameters on ab and on dc. */
  lemma CrossingParametersUnique(a: Point, b: Point, c: Point, d: Point, l: real, g: real)
    requires Det(a, b, c, d) != 0.0
    requires Along(a, b, l) == Along(d, c, g)
    ensures l == Lambda(a, b, c, d) && g == Gamma(a, b, c, d)
  {
    var ux, uy := b.x - a.x, b.y - a.y;
    var vx, vy := d.x - c.x, d.y - c.y;
    var wx, wy := d.x - a.x, d.y - a.y;
    assert Along(a, b, l).x == Along(d, c, g).x && Along(a, b, l).y == Along(d, c, g).y;
    CramerUnique(ux, uy, vx, vy, wx, wy, l, g);
  }

  /** For non-parallel segments, Lambda and Gamma do name a common point. */
  lemma CrossingParametersMeet(a: Point, b: Point, c: Point, d: Point)
    requires Det(a, b, c, d) != 0.0
    ensures Along(a, b, Lambda(a, b, c, d)) == Along(d, c, Gamma(a, b, c, d))
  {
    var ux, uy := b.x - a.x, b.y - a.y;
    var vx, vy := d.x - c.x, d.y - c.y;
    var wx, wy := d.x - a.x, d.y - a.y;
    var det := Det(a, b, c, d);
    var l, g := Lambda(a, b, c, d), Gamma(a, b, c, d);
    assert l * det == vy * wx - vx * wy by {
      assert l * det == (d.y - c.y) * (d.x - a.x) + (c.x - d.x) * (d.y - a.y);
      assert (c.x - d.x) * (d.y - a.y) == -(vx * wy);
    }
    assert g * det == ux * wy - uy * wx by {
      assert g * det == (a.y - b.y) * (d.x - a.x) + (b.x - a.x) * (d.y - a.y);
      assert (a.y - b.y) * (d.x - a.x) == -(uy * wx);
    }
    CramerSolves(ux, uy, vx, vy, wx, wy, l, g);
    assert g * (c.x - d.x) == -(g * vx) && g * (c.y - d.y) == -(g * vy);
  }

  /** What the segment test means: it reports a crossing exactly when the
      segments are not parallel and meet at a point interior to both. */
  lemma LinesIntersectMeaning(a: Point, b: Point, c: Point, d: Point)
    ensures LinesIntersect(a, b, c, d) <==> Det(a, b, c, d) != 0.0 && CrossAtInteriorPoint(a, b, c, d)
  {
    if Det(a, b, c, d) != 0.0 {
      CrossingParametersMeet(a, b, c, d);
      if CrossAtInteriorPoint(a, b, c, d) {
        var l, g :| 0.0 < l < 1.0 && 0.0 < g < 1.0 && Along(a, b, l) == Along(d, c, g);
        CrossingParametersUnique(a, b, c, d, l, g);
      }
    }
  }

  /** Parallel, collinear and exactly overlapping segments are never reported:
      when cd runs in the direction k * (b - a) the determinant is 0. */
  lemma ParallelNeverIntersect(a: Point, b: Point, c: Point, d: Point, k: real)
    requires d.x - c.x == k * (b.x - a.x) && d.y - c.y == k * (b.y - a.y)
    ensures !LinesIntersect(a, b, c, d)
  {
    calc {
      Det(a, b, c, d);
      (b.x - a.x) * (k * (b.y - a.y)) - (k * (b.x - a.x)) * (b.y - a.y);
      0.0;
    }
  }

  lemma OverlapSharesInteriorPoint(a: Point, b: Point, c: Point, d: Point)
    requires a == Point(0.0, 0.0) && b == Point(2.0, 0.0) && c == Point(1.0, 0.0) && d == Point(3.0, 0.0)
    ensures CrossAtInteriorPoint(a, b, c, d)
  {
    var l, g := 0.75, 0.75;
    assert Along(a, b, l) == Point(1.5, 0.0);
    assert Along(d, c, g) == Point(1.5, 0.0);
    assert 0.0 < l < 1.0 && 0.0 < g < 1.0 && Along(a, b, l) == Along(d, c, g);
  }

  /** The precision gap: two collinear segments that overlap along a stretch
      do share interior points, yet the test reports no crossing. */
  lemma OverlapIsNotReported(a: Point, b: Point, c: Point, d: Point)
    requires a == Point(0.0, 0.0) && b == Point(2.0, 0.0) && c == Point(1.0, 0.0) && d == Point(3.0, 0.0)
    ensures CrossAtInteriorPoint(a, b, c, d) && !LinesIntersect(a, b, c, d)
  {
    OverlapSharesInteriorPoint(a, b, c, d);
    ParallelNeverIntersect(a, b, c, d, 1.0);
  }

  /** Touching is not crossing: when an endpoint of one segment lies anywhere on
      the line through the other, the test is false. This covers segments that
      share an endpoint and T-junctions. */
  lemma TouchingNeverIntersects(a: Point, b: Point, c: Point, d: Point, s: real)
    requires c == Along(a, b, s) || d == Along(a, b, s) || a == Along(d, c, s) || b == Along(d, c, s)
    ensures !LinesIntersect(a, b, c, d)
  {
    if Det(a, b, c, d) != 0.0 {
      if c == Along(a, b, s) {
        assert Along(d, c, 1.0) == c;
        CrossingParametersUnique(a, b, c, d, s, 1.0);
      } else if d == Along(a, b, s) {
        assert Along(d, c, 0.0) == d;
        CrossingParametersUnique(a, b, c, d, s, 0.0);
      } else if a == Along(d, c, s) {
        assert Along(a, b, 0.0) == a;
        CrossingParametersUnique(a, b, c, d, 0.0, s);
      } else {
        assert Along(a, b, 1.0) == b;
        CrossingParametersUnique(a, b, c, d, 1.0, s);
      }
    }
  }

  /** Segments sharing an endpoint never cross. */
  lemma SharedEndpointNeverIntersects(a: Point, b: Point, c: Point, d: Point)
    requires a == c || a == d || b == c || b == d
    ensures !LinesIntersect(a, b, c, d)
  {
    if a == c {
      assert Along(a, b, 0.0) == c;
      TouchingNeverIntersects(a, b, c, d, 0.0);
    } else if a == d {
      assert Along(a, b, 0.0) == d;
      TouchingNeverIntersects(a, b, c, d, 0.0);
    } else if b == c {
      assert Along(a, b, 1.0) == c;
      TouchingNeverIntersects(a, b, c, d, 1.0);
    } else {
      assert Along(a, b, 1.0) == d;
      TouchingNeverIntersects(a, b, c, d, 1.0);
    }
  }

  lemma CrossAtInteriorPointSwap(a: Point, b: Point, c: Point, d: Point)
    requires CrossAtInteriorPoint(a, b, c, d)
    ensures CrossAtInteriorPoint(c, d, a, b)
  {
    var l, g :| 0.0 < l < 1.0 && 0.0 < g < 1.0 && Along(a, b, l) == Along(d, c, g);
    assert Along(c, d, 1.0 - g) == Along(d, c, g);
    assert Along(b, a, 1.0 - l) == Along(a, b, l);
  }

  /** The test does not depend on which segment comes first. */
  lemma LinesIntersectSymmetric(a: Point, b: Point, c: Point, d: Point)
    ensures LinesIntersect(a, b, c, d) == LinesIntersect(c, d, a, b)
  {
    assert Det(c, d, a, b) == -Det(a, b, c, d);
    LinesIntersectMeaning(a, b, c, d);
    LinesIntersectMeaning(c, d, a, b);
    if CrossAtInteriorPoint(a, b, c, d) { CrossAtInteriorPointSwap(a, b, c, d); }
    if CrossAtInteriorPoint(c, d, a, b) { CrossAtInteriorPointSwap(c, d, a, b); }
  }

  // ---------------------------------------------------------------------------
  // doesSelfIntersect
  // ---------------------------------------------------------------------------

  /** Edge i of a point list runs from point i to point i + 1. */
  predicate EdgesCross(pts: seq<Point>, i: nat, j: nat)
    requires i < |pts| - 1 && j < |pts| - 1
  {
    LinesIntersect(pts[i], pts[i + 1], pts[j], pts[j + 1])
  }

  /** The scan over an open polyline of n points tests edge i against edge j
      unless they are equal or adjacent, or i is the first edge and j the last. */
  predicate Examined(i: int, j: int, n: int) {
    !(i - j <= 1 && j - i <= 1) && !(i == 0 && j == n - 2)
  }

  /** Some examined pair of edges of the open polyline crosses. */
  predicate SelfIntersects(pts: seq<Point>) {
    exists i: nat, j: nat :: i < |pts| - 1 && j < |pts| - 1 && Examined(i, j, |pts|) && EdgesCross(pts, i, j)
  }

  /** The same, with only equal and adjacent edges skipped. */
  predicate NonAdjacentEdgesCross(pts: seq<Point>) {
    exists i: nat, j: nat :: i < |pts| - 1 && j < |pts| - 1 && (i - j > 1 || j - i > 1) && EdgesCross(pts, i, j)
  }

  /** With fewer than four points no two edges are non-adjacent. */
  lemma ShortPolylineNeverSelfIntersects(pts: seq<Point>)
    requires |pts| < 4
    ensures !NonAdjacentEdgesCross(pts) && !SelfIntersects(pts)
  {
  }

  /** The skipped pair (first edge, last edge) is still tested the other way
      round, (last edge, first edge), and the segment test is symmetric; so the
      skip never changes the answer. */
  lemma ExclusionNeverMatters(pts: seq<Point>)
    ensures SelfIntersects(pts) <==> NonAdjacentEdgesCross(pts)
  {
    if NonAdjacentEdgesCross(pts) {
      var i: nat, j: nat :| i < |pts| - 1 && j < |pts| - 1 && (i - j > 1 || j - i > 1) && EdgesCross(pts, i, j);
      if i == 0 && j == |pts| - 2 {
        LinesIntersectSymmetric(pts[i], pts[i + 1], pts[j], pts[j + 1]);
        assert Examined(j, i, |pts|) && EdgesCross(pts, j, i);
      } else {
        assert Examined(i, j, |pts|);
      }
    }
  }

  /** Prefix monotonicity: once a polyline self-intersects, appending points
      cannot undo it. So checking only the extended list on each click is
      enough, and removing the last point of a simple polyline keeps it simple. */
  lemma SelfIntersectsExtends(pts: seq<Point>, more: seq<Point>)
    requires SelfIntersects(pts)
    ensures SelfIntersects(pts + more)
  {
    var i: nat, j: nat :| i < |pts| - 1 && j < |pts| - 1 && Examined(i, j, |pts|) && EdgesCross(pts, i, j);
    var ext := pts + more;
    assert ext[i] == pts[i] && ext[i + 1] == pts[i + 1] && ext[j] == pts[j] && ext[j + 1] == pts[j + 1];
    assert Examined(i, j, |ext|) && EdgesCross(ext, i, j);
  }

  /** The bowtie crosses itself through its third and first edges. */
  lemma BowtieSelfIntersects()
    ensures SelfIntersects([Point(0.0, 0.0), Point(10.0, 10.0), Point(10.0, 0.0), Point(0.0, 10.0)])
  {
    var pts := [Point(0.0, 0.0), Point(10.0, 10.0), Point(10.0, 0.0), Point(0.0, 10.0)];
    assert Det(pts[2], pts[3], pts[0], pts[1]) == -200.0;
    assert Lambda(pts[2], pts[3], pts[0], pts[1]) == 0.5;
    assert Gamma(pts[2], pts[3], pts[0], pts[1]) == 0.5;
    assert Examined(2, 0, 4) && EdgesCross(pts, 2, 0);
  }

  /** A square drawn in order does not self-intersect. */
  lemma SquareDoesNotSelfIntersect()
    ensures !SelfIntersects([Point(0.0, 0.0), Point(10.0, 0.0), Point(10.0, 10.0), Point(0.0, 10.0)])
  {
    var pts := [Point(0.0, 0.0), Point(10.0, 0.0), Point(10.0, 10.0), Point(0.0, 10.0)];
    forall i: nat, j: nat | i < 3 && j < 3 && Examined(i, j, 4)
      ensures !EdgesCross(pts, i, j)
    {
      assert i == 2 && j == 0;
      assert Det(pts[2], pts[3], pts[0], pts[1]) == 0.0;
    }
  }

  /** Which side of the directed line a -> b the point v lies on: positive
      to the left (counter-clockwise), negative to the right, zero on it. */
  function Side(a: Point, b: Point, v: Point): real {
    (b.x - a.x) * (v.y - a.y) - (b.y - a.y) * (v.x - a.x)
  }

  lemma SideAlongSegment(a: Point, b: Point, l: real)
    ensures Side(a, b, Along(a, b, l)) == 0.0
  {
    assert (b.x - a.x) * (l * (b.y - a.y)) == (b.y - a.y) * (l * (b.x - a.x));
  }

  /** Side is affine in the point: a point g of the way from d to c has the
      matching mix of the two sides. */
  lemma SideAlongOther(a: Point, b: Point, d: Point, c: Point, g: real)
    ensures Side(a, b, Along(d, c, g)) == (1.0 - g) * Side(a, b, d) + g * Side(a, b, c)
  {
    var ux, uy := b.x - a.x, b.y - a.y;
    calc {
      Side(a, b, Along(d, c, g));
      ux * (d.y - a.y + g * (c.y - d.y)) - uy * (d.x - a.x + g * (c.x - d.x));
      Side(a, b, d) + g * (ux * (c.y - d.y) - uy * (c.x - d.x));
      Side(a, b, d) + g * (Side(a, b, c) - Side(a, b, d));
      (1.0 - g) * Side(a, b, d) + g * Side(a, b, c);
    }
  }

  /** A strict mix of two positive numbers is positive. */
  lemma PositiveMix(g: real, x: real, y: real)
    requires 0.0 < g < 1.0 && x > 0.0 && y > 0.0
    ensures (1.0 - g) * x + g * y > 0.0
  {
    assert (1.0 - g) * x > 0.0;
    assert g * y > 0.0;
  }

  /** A segment cd with both ends strictly on the same side of the line
      through a and b never crosses ab. */
  lemma OneSideNeverIntersects(a: Point, b: Point, c: Point, d: Point)
    requires (Side(a, b, c) > 0.0 && Side(a, b, d) > 0.0) || (Side(a, b, c) < 0.0 && Side(a, b, d) < 0.0)
    ensures !LinesIntersect(a, b, c, d)
  {
    LinesIntersectMeaning(a, b, c, d);
    forall l: real, g: real | 0.0 < l < 1.0 && 0.0 < g < 1.0
      ensures Along(a, b, l) != Along(d, c, g)
    {
      SideAlongSegment(a, b, l);
      SideAlongOther(a, b, d, c, g);
      if Side(a, b, c) > 0.0 {
        PositiveMix(g, Side(a, b, d), Side(a, b, c));
      } else {
        PositiveMix(g, -Side(a, b, d), -Side(a, b, c));
      }
    }
  }

  /** Every vertex other than the ends of edge i lies strictly to the left
      of edge i, for every edge of the open polyline (or strictly to the
      right of every edge): the points trace a strictly convex polygon. */
  predicate StrictlyConvex(pts: seq<Point>) {
    || (forall i, m :: 0 <= i < |pts| - 1 && 0 <= m < |pts| && m != i && m != i + 1 ==> Side(pts[i], pts[i + 1], pts[m]) > 0.0)
    || (forall i, m :: 0 <= i < |pts| - 1 && 0 <= m < |pts| && m != i && m != i + 1 ==> Side(pts[i], pts[i + 1], pts[m]) < 0.0)
  }

  /** A strictly convex polygon passes both of the drawing checks: no two
      examined edges cross, and the closing edge crosses no edge. */
  lemma ConvexNeverSelfIntersects(pts: seq<Point>)
    requires StrictlyConvex(pts)
    ensures !SelfIntersects(pts) && !ClosingEdgeIntersects(pts)
  {
    forall i: nat, j: nat | i < |pts| - 1 && j < |pts| - 1 && Examined(i, j, |pts|)
      ensures !EdgesCross(pts, i, j)
    {
      OneSideNeverIntersects(pts[i], pts[i + 1], pts[j], pts[j + 1]);
    }
    var n := |pts|;
    forall i: nat | n >= 3 && i < n - 2
      ensures !LinesIntersect(pts[i], pts[i + 1], pts[n - 1], pts[0])
    {
      if i == 0 {
        SharedEndpointNeverIntersects(pts[i], pts[i + 1], pts[n - 1], pts[0]);
      } else {
        OneSideNeverIntersects(pts[i], pts[i + 1], pts[n - 1], pts[0]);
      }
    }
  }

  /** The source's nested scan, returning on the first crossing found. */
  method DoesSelfIntersect(points: seq<Point>) returns (r: bool)
    ensures r == SelfIntersects(points)
  {
    var len := |points|;
    if len < 4 {
      ShortPolylineNeverSelfIntersects(points);
      return false;
    }
    for i := 0 to len - 1
      invariant forall i': nat, j: nat :: i' < i && j < len - 1 && Examined(i', j, len) ==> !EdgesCross(points, i', j)
    {
      for j := 0 to len - 1
        invariant forall i': nat, j': nat ::
          (i' < i || (i' == i && j' < j)) && j' < len - 1 && Examined(i', j', len) ==> !EdgesCross(points, i', j')
      {
        if (i - j <= 1 && j - i <= 1) || (i == 0 && j == len - 2) {
          continue;
        }
        if LinesIntersect(points[i], points[i + 1], points[j], points[j + 1]) {
          assert Examined(i, j, len) && EdgesCross(points, i, j);
          return true;
        }
      }
    }
    return false;
  }

  // ---------------------------------------------------------------------------
  // doesClosingEdgeIntersect
  // ---------------------------------------------------------------------------

  /** The edge from the last point back to the first crosses one of the edges
      0 .. n-3 of the open polyline. */
  predicate ClosingEdgeIntersects(pts: seq<Point>) {
    |pts| >= 3 &&
    exists i: nat :: i < |pts| - 2 && LinesIntersect(pts[i], pts[i + 1], pts[|pts| - 1], pts[0])
  }

  /** The source's loop, including its skip of an edge equal to the closing
      edge (object identity there, value equality here: identical objects are
      equal values). The postcondition shows the skip never matters. */
  method DoesClosingEdgeIntersect(points: seq<Point>) returns (r: bool)
    ensures r == ClosingEdgeIntersects(points)
  {
    var len := |points|;
    if len < 3 {
      return false;
    }
    var closingStart := points[len - 1];
    var closingEnd := points[0];
    for i := 0 to len - 2
      invariant forall i': nat :: i' < i ==> !LinesIntersect(points[i'], points[i' + 1], closingStart, closingEnd)
    {
      var segStart := points[i];
      var segEnd := points[i + 1];
      if (segStart == closingStart && segEnd == closingEnd) || (segEnd == closingStart && segStart == closingEnd) {
        SharedEndpointNeverIntersects(segStart, segEnd, closingStart, closingEnd);
        continue;
      }
      if LinesIntersect(segStart, segEnd, closingStart, closingEnd) {
        return true;
      }
    }
    return false;
  }

  // ---------------------------------------------------------------------------
  // pointInPolygon and polygonFullyInsidePolygon
  // ---------------------------------------------------------------------------

  /** The vertex paired with vertex i: the previous one, cyclically. */
  function Prev(i: nat, n: nat): int {
    if i == 0 then n - 1 else i - 1
  }

  /** Where the line through vi and vj meets the horizontal line at height y. */
  function XAt(y: real, vi: Point, vj: Point): real
    requires vi.y != vj.y
  {
    (vj.x - vi.x) * (y - vi.y) / (vj.y - vi.y) + vi.x
  }

  /** The edge (vi, vj) straddles the horizontal line through p and meets it
      to the right of p. The first conjunct makes vi.y != vj.y, so the
      division is defined. */
  predicate Crosses(p: Point, vi: Point, vj: Point) {
    ((vi.y > p.y) != (vj.y > p.y)) && p.x < XAt(p.y, vi, vj)
  }

  /** How many of the edges (i, Prev(i)) with i < k the rightward ray from p crosses. */
  function CrossingCount(p: Point, poly: seq<Point>, k: nat): nat
    requires k <= |poly|
  {
    if k == 0 then 0
    else CrossingCount(p, poly, k - 1) + (if Crosses(p, poly[k - 1], poly[Prev(k - 1, |poly|)]) then 1 else 0)
  }

  /** Even-odd rule: p is inside when the ray crosses the boundary an odd number of times. */
  predicate Inside(p: Point, poly: seq<Point>) {
    CrossingCount(p, poly, |poly|) % 2 == 1
  }

  /** The source's loop, which toggles `inside` on every crossing edge. */
  method PointInPolygon(point: Point, polygon: seq<Point>) returns (inside: bool)
    ensures inside == Inside(point, polygon)
  {
    inside := false;
    var n := |polygon|;
    var i, j := 0, n - 1;
    while i < n
      invariant 0 <= i <= n
      invariant j == Prev(i, n)
      invariant inside == OddCrossings(point, polygon, i)
    {
      var vi, vj := polygon[i], polygon[j];
      var intersect := ((vi.y > point.y) != (vj.y > point.y)) && point.x < XAt(point.y, vi, vj);
      if intersect {
        inside := !inside;
      }
      j, i := i, i + 1;
    }
    OddCrossingsParity(point, polygon, n);
  }

  /** Whether the ray crosses an odd number of the edges (i, Prev(i)) with
      i < k: the value `inside` holds after k rounds. */
  predicate OddCrossings(p: Point, poly: seq<Point>, k: nat)
    requires k <= |poly|
  {
    if k == 0 then false
    else OddCrossings(p, poly, k - 1) != Crosses(p, poly[k - 1], poly[Prev(k - 1, |poly|)])
  }

  lemma {:induction false} OddCrossingsParity(p: Point, poly: seq<Point>, k: nat)
    requires k <= |poly|
    ensures OddCrossings(p, poly, k) == (CrossingCount(p, poly, k) % 2 == 1)
  {
    if k > 0 {
      OddCrossingsParity(p, poly, k - 1);
      ParityStep(CrossingCount(p, poly, k - 1), Crosses(p, poly[k - 1], poly[Prev(k - 1, |poly|)]));
    }
  }

  /** Adding one flips the parity; adding zero keeps it. */
  lemma ParityStep(c: nat, b: bool)
    ensures ((c + (if b then 1 else 0)) % 2 == 1) == ((c % 2 == 1) != b)
  {
  }

  /** When no vertex lies above p's horizontal line, or every vertex lies
      strictly above it, no edge straddles the line. */
  lemma {:induction false} NoStraddleNoCrossing(p: Point, poly: seq<Point>, k: nat)
    requires k <= |poly|
    requires (forall v :: v in poly ==> v.y <= p.y) || (forall v :: v in poly ==> v.y > p.y)
    ensures CrossingCount(p, poly, k) == 0
  {
    if k > 0 {
      NoStraddleNoCrossing(p, poly, k - 1);
      assert poly[k - 1] in poly && poly[Prev(k - 1, |poly|)] in poly;
    }
  }

  /** A point level with or above every vertex, or below every vertex, is outside. */
  lemma OutsideBeyondVertices(p: Point, poly: seq<Point>)
    requires (forall v :: v in poly ==> v.y <= p.y) || (forall v :: v in poly ==> v.y > p.y)
    ensures !Inside(p, poly)
  {
    NoStraddleNoCrossing(p, poly, |poly|);
  }

  /** Where a straddling edge meets the horizontal line lies between the
      edge's two endpoints. */
  lemma XAtBetween(y: real, vi: Point, vj: Point)
    requires (vi.y > y) != (vj.y > y)
    ensures XAt(y, vi, vj) <= vi.x || XAt(y, vi, vj) <= vj.x
    ensures XAt(y, vi, vj) >= vi.x || XAt(y, vi, vj) >= vj.x
  {
    var t := (y - vi.y) / (vj.y - vi.y);
    UnitQuotient(y - vi.y, vj.y - vi.y);
    ProductQuotient(vj.x - vi.x, y - vi.y, vj.y - vi.y);
    assert XAt(y, vi, vj) == vi.x + (vj.x - vi.x) * t;
    BetweenEnds(vi.x, vj.x, t);
  }

  /** n / d lies in [0, 1] when n lies between 0 and d. */
  lemma UnitQuotient(n: real, d: real)
    requires (0.0 <= n < d) || (d <= n < 0.0)
    ensures 0.0 <= n / d <= 1.0
  {
  }

  lemma ProductQuotient(a: real, n: real, d: real)
    requires d != 0.0
    ensures a * n / d == a * (n / d)
  {
  }

  /** a + (b - a) * t lies between a and b for t in [0, 1]. */
  lemma BetweenEnds(a: real, b: real, t: real)
    requires 0.0 <= t <= 1.0
    ensures a + (b - a) * t <= a || a + (b - a) * t <= b
    ensures a + (b - a) * t >= a || a + (b - a) * t >= b
  {
    var c := b - a;
    var m := c * t;
    assert a + (b - a) * t == a + m;
    if c >= 0.0 {
      ScaledPart(c, t);
      assert 0.0 <= m <= c;
    } else {
      ScaledPart(-c, t);
      assert (-c) * t == -m;
      assert 0.0 <= -m <= -c;
    }
  }

  /** A fraction t in [0, 1] of a non-negative c lies between 0 and c. */
  lemma ScaledPart(c: real, t: real)
    requires c >= 0.0 && 0.0 <= t <= 1.0
    ensures 0.0 <= c * t <= c
  {
    NonNegativeProduct(c, t);
    NonNegativeProduct(c, 1.0 - t);
    assert c * t + c * (1.0 - t) == c;
  }

  lemma NonNegativeProduct(a: real, b: real)
    requires a >= 0.0 && b >= 0.0
    ensures a * b >= 0.0
  {
  }

  /** When no vertex lies to the right of p, no edge meets p's line to its right. */
  lemma {:induction false} NothingRightNoCrossing(p: Point, poly: seq<Point>, k: nat)
    requires k <= |poly|
    requires forall v :: v in poly ==> v.x <= p.x
    ensures CrossingCount(p, poly, k) == 0
  {
    if k > 0 {
      NothingRightNoCrossing(p, poly, k - 1);
      var vi, vj := poly[k - 1], poly[Prev(k - 1, |poly|)];
      assert vi in poly && vj in poly;
      if (vi.y > p.y) != (vj.y > p.y) {
        XAtBetween(p.y, vi, vj);
      }
    }
  }

  /** A point level with or right of every vertex is outside. */
  lemma OutsideRightOfVertices(p: Point, poly: seq<Point>)
    requires forall v :: v in poly ==> v.x <= p.x
    ensures !Inside(p, poly)
  {
    NothingRightNoCrossing(p, poly, |poly|);
  }

  /** Left of both endpoints, an edge is crossed exactly when it straddles p's line. */
  lemma CrossesLeftOfEnds(p: Point, vi: Point, vj: Point)
    requires p.x < vi.x && p.x < vj.x
    ensures Crosses(p, vi, vj) == ((vi.y > p.y) != (vj.y > p.y))
  {
    if (vi.y > p.y) != (vj.y > p.y) {
      XAtBetween(p.y, vi, vj);
    }
  }

  /** Left of every vertex, the crossings of the first k edges telescope:
      their parity says whether vertex k-1 and the last vertex lie on
      different sides of p's line. */
  lemma {:induction false} LeftOfVerticesTelescopes(p: Point, poly: seq<Point>, k: nat)
    requires 0 < k <= |poly|
    requires forall v :: v in poly ==> p.x < v.x
    ensures OddCrossings(p, poly, k) == ((poly[k - 1].y > p.y) != (poly[|poly| - 1].y > p.y))
  {
    var vi, vj := poly[k - 1], poly[Prev(k - 1, |poly|)];
    assert vi in poly && vj in poly;
    CrossesLeftOfEnds(p, vi, vj);
    if k > 1 {
      LeftOfVerticesTelescopes(p, poly, k - 1);
    }
  }

  /** A point strictly left of every vertex is outside: the closed boundary
      straddles its line an even number of times. */
  lemma OutsideLeftOfVertices(p: Point, poly: seq<Point>)
    requires forall v :: v in poly ==> p.x < v.x
    ensures !Inside(p, poly)
  {
    if |poly| > 0 {
      LeftOfVerticesTelescopes(p, poly, |poly|);
    }
    OddCrossingsParity(p, poly, |poly|);
  }

  /** A point outside the polygon's bounding box is outside the polygon; on
      the box's right and top edges the even-odd rule already counts it out. */
  lemma OutsideBoundingBox(p: Point, poly: seq<Point>)
    requires || (forall v :: v in poly ==> v.x <= p.x)
             || (forall v :: v in poly ==> p.x < v.x)
             || (forall v :: v in poly ==> v.y <= p.y)
             || (forall v :: v in poly ==> p.y < v.y)
    ensures !Inside(p, poly)
  {
    if forall v :: v in poly ==> v.x <= p.x {
      OutsideRightOfVertices(p, poly);
    } else if forall v :: v in poly ==> p.x < v.x {
      OutsideLeftOfVertices(p, poly);
    } else {
      OutsideBeyondVertices(p, poly);
    }
  }

  /** Uniform scaling by a positive factor followed by a translation. */
  function Transform(p: Point, s: real, tx: real, ty: real): Point {
    Point(s * p.x + tx, s * p.y + ty)
  }

  function TransformAll(poly: seq<Point>, s: real, tx: real, ty: real): (r: seq<Point>)
    ensures |r| == |poly|
    ensures forall i :: 0 <= i < |poly| ==> r[i] == Transform(poly[i], s, tx, ty)
  {
    seq(|poly|, i requires 0 <= i < |poly| => Transform(poly[i], s, tx, ty))
  }

  lemma ScaledComparison(s: real, t: real, a: real, b: real)
    requires s > 0.0
    ensures (s * a + t > s * b + t) == (a > b)
    ensures (s * a + t < s * b + t) == (a < b)
  {
    if a > b { assert s * a - s * b == s * (a - b); }
    if a < b { assert s * b - s * a == s * (b - a); }
  }

  /** Scaling all three terms of a * b / c by s scales the quotient by s. */
  lemma ScaledQuotient(s: real, a: real, b: real, c: real)
    requires s > 0.0 && c != 0.0
    ensures s * c != 0.0
    ensures (s * a) * (s * b) / (s * c) == s * (a * b / c)
  {
    var q := a * b / c;
    assert q * c == a * b;
    assert (s * q) * (s * c) == (s * a) * (s * b) by {
      assert (s * q) * (s * c) == (s * s) * (q * c);
      assert (s * a) * (s * b) == (s * s) * (a * b);
    }
  }

  lemma XAtTransformed(y: real, vi: Point, vj: Point, s: real, tx: real, ty: real)
    requires s > 0.0 && vi.y != vj.y
    ensures Transform(vi, s, tx, ty).y != Transform(vj, s, tx, ty).y
    ensures XAt(s * y + ty, Transform(vi, s, tx, ty), Transform(vj, s, tx, ty)) == s * XAt(y, vi, vj) + tx
  {
    var vi', vj' := Transform(vi, s, tx, ty), Transform(vj, s, tx, ty);
    var a, b, c := vj.x - vi.x, y - vi.y, vj.y - vi.y;
    assert vj'.x - vi'.x == s * a;
    assert (s * y + ty) - vi'.y == s * b;
    assert vj'.y - vi'.y == s * c;
    ScaledQuotient(s, a, b, c);
  }

  lemma StraddleTransformed(p: Point, vi: Point, vj: Point, s: real, tx: real, ty: real)
    requires s > 0.0
    ensures ((Transform(vi, s, tx, ty).y > Transform(p, s, tx, ty).y) != (Transform(vj, s, tx, ty).y > Transform(p, s, tx, ty).y))
            == ((vi.y > p.y) != (vj.y > p.y))
  {
    var p', vi', vj' := Transform(p, s, tx, ty), Transform(vi, s, tx, ty), Transform(vj, s, tx, ty);
    assert p'.y == s * p.y + ty && vi'.y == s * vi.y + ty && vj'.y == s * vj.y + ty;
    ScaledComparison(s, ty, vi.y, p.y);
    ScaledComparison(s, ty, vj.y, p.y);
  }

  lemma CrossesTransformedStraddling(p: Point, vi: Point, vj: Point, s: real, tx: real, ty: real)
    requires s > 0.0 && (vi.y > p.y) != (vj.y > p.y)
    ensures Crosses(Transform(p, s, tx, ty), Transform(vi, s, tx, ty), Transform(vj, s, tx, ty)) == Crosses(p, vi, vj)
  {
    var p', vi', vj' := Transform(p, s, tx, ty), Transform(vi, s, tx, ty), Transform(vj, s, tx, ty);
    StraddleTransformed(p, vi, vj, s, tx, ty);
    var x, x' := XAt(p.y, vi, vj), XAt(p'.y, vi', vj');
    assert p'.y == s * p.y + ty;
    XAtTransformed(p.y, vi, vj, s, tx, ty);
    ScaledComparison(s, tx, p.x, x);
    assert x' == s * x + tx;
    assert p'.x == s * p.x + tx;
    assert Crosses(p', vi', vj') == (p'.x < x');
  }

  lemma CrossesTransformed(p: Point, vi: Point, vj: Point, s: real, tx: real, ty: real)
    requires s > 0.0
    ensures Crosses(Transform(p, s, tx, ty), Transform(vi, s, tx, ty), Transform(vj, s, tx, ty)) == Crosses(p, vi, vj)
  {
    if (vi.y > p.y) != (vj.y > p.y) {
      CrossesTransformedStraddling(p, vi, vj, s, tx, ty);
    } else {
      StraddleTransformed(p, vi, vj, s, tx, ty);
    }
  }

  lemma {:induction false} CrossingCountTransformed(p: Point, poly: seq<Point>, k: nat, s: real, tx: real, ty: real)
    requires k <= |poly| && s > 0.0
    ensures CrossingCount(Transform(p, s, tx, ty), TransformAll(poly, s, tx, ty), k) == CrossingCount(p, poly, k)
  {
    if k > 0 {
      CrossingCountTransformed(p, poly, k - 1, s, tx, ty);
      CrossesTransformed(p, poly[k - 1], poly[Prev(k - 1, |poly|)], s, tx, ty);
    }
  }

  /** Point-in-polygon is invariant under uniform positive scaling and
      translation applied to both the point and the polygon. */
  lemma InsideTransformed(p: Point, poly: seq<Point>, s: real, tx: real, ty: real)
    requires s > 0.0
    ensures Inside(Transform(p, s, tx, ty), TransformAll(poly, s, tx, ty)) == Inside(p, poly)
  {
    CrossingCountTransformed(p, poly, |poly|, s, tx, ty);
  }

  /** Every vertex of the child satisfies the point-in-polygon test against the
      parent's vertices (the source passes the parent region and reads its
      `points`). Edges are not examined. */
  predicate PolygonFullyInsidePolygon(childPoints: seq<Point>, parentPoints: seq<Point>) {
    forall k :: 0 <= k < |childPoints| ==> Inside(childPoints[k], parentPoints)
  }

  /** Containment of a concatenation is containment of both parts; in
      particular an empty child is contained in anything. */
  lemma FullyInsideAppend(c1: seq<Point>, c2: seq<Point>, parent: seq<Point>)
    ensures PolygonFullyInsidePolygon(c1 + c2, parent) <==>
            PolygonFullyInsidePolygon(c1, parent) && PolygonFullyInsidePolygon(c2, parent)
    ensures PolygonFullyInsidePolygon([], parent)
  {
    if PolygonFullyInsidePolygon(c1, parent) && PolygonFullyInsidePolygon(c2, parent) {
      forall k | 0 <= k < |c1 + c2| ensures Inside((c1 + c2)[k], parent) {
        if k >= |c1| { assert (c1 + c2)[k] == c2[k - |c1|]; }
      }
    }
    if PolygonFullyInsidePolygon(c1 + c2, parent) {
      forall k | 0 <= k < |c1| ensures Inside(c1[k], parent) {
        assert c1[k] == (c1 + c2)[k];
      }
      forall k | 0 <= k < |c2| ensures Inside(c2[k], parent) {
        assert c2[k] == (c1 + c2)[k + |c1|];
      }
    }
  }

  /** A U-shaped polygon: two arms of width 10 rising from a base, with a
      notch 10 < x < 20, 10 < y <= 30 between them. */
  function UShape(): seq<Point> {
    [Point(0.0, 0.0), Point(30.0, 0.0), Point(30.0, 30.0), Point(20.0, 30.0),
     Point(20.0, 10.0), Point(10.0, 10.0), Point(10.0, 30.0), Point(0.0, 30.0)]
  }

  /** 1 when the ray from `p` crosses the edge ending at vertex `i`, else 0. */
  function EdgeCrossed(p: Point, poly: seq<Point>, i: nat): nat
    requires i < |poly|
  {
    if Crosses(p, poly[i], poly[Prev(i, |poly|)]) then 1 else 0
  }

  /** The crossing count of an eight-vertex polygon, edge by edge. */
  lemma CrossingCountOfOctagon(p: Point, poly: seq<Point>)
    requires |poly| == 8
    ensures CrossingCount(p, poly, 8) ==
            EdgeCrossed(p, poly, 0) + EdgeCrossed(p, poly, 1) + EdgeCrossed(p, poly, 2) + EdgeCrossed(p, poly, 3) +
            EdgeCrossed(p, poly, 4) + EdgeCrossed(p, poly, 5) + EdgeCrossed(p, poly, 6) + EdgeCrossed(p, poly, 7)
  {
    assert CrossingCount(p, poly, 1) == EdgeCrossed(p, poly, 0);
    assert CrossingCount(p, poly, 2) == CrossingCount(p, poly, 1) + EdgeCrossed(p, poly, 1);
    assert CrossingCount(p, poly, 3) == CrossingCount(p, poly, 2) + EdgeCrossed(p, poly, 2);
    assert CrossingCount(p, poly, 4) == CrossingCount(p, poly, 3) + EdgeCrossed(p, poly, 3);
    assert CrossingCount(p, poly, 5) == CrossingCount(p, poly, 4) + EdgeCrossed(p, poly, 4);
    assert CrossingCount(p, poly, 6) == CrossingCount(p, poly, 5) + EdgeCrossed(p, poly, 5);
    assert CrossingCount(p, poly, 7) == CrossingCount(p, poly, 6) + EdgeCrossed(p, poly, 6);
  }

  /** (5, 20) in the left arm: the ray crosses the edges at x = 10, 20 and 30. */
  lemma UShapeLeftArmInside()
    ensures Inside(Point(5.0, 20.0), UShape())
  {
    var u, p := UShape(), Point(5.0, 20.0);
    CrossingCountOfOctagon(p, u);
    assert EdgeCrossed(p, u, 0) == 0 && EdgeCrossed(p, u, 1) == 0 && EdgeCrossed(p, u, 2) == 1;
    assert EdgeCrossed(p, u, 3) == 0 && EdgeCrossed(p, u, 4) == 1 && EdgeCrossed(p, u, 5) == 0;
    assert EdgeCrossed(p, u, 6) == 1 && EdgeCrossed(p, u, 7) == 0;
  }

  /** (25, 20) in the right arm: only the edge at x = 30 is crossed. */
  lemma UShapeRightArmInside()
    ensures Inside(Point(25.0, 20.0), UShape())
  {
    var u, p := UShape(), Point(25.0, 20.0);
    CrossingCountOfOctagon(p, u);
    assert EdgeCrossed(p, u, 0) == 0 && EdgeCrossed(p, u, 1) == 0 && EdgeCrossed(p, u, 2) == 1;
    assert EdgeCrossed(p, u, 3) == 0 && EdgeCrossed(p, u, 4) == 0 && EdgeCrossed(p, u, 5) == 0;
    assert EdgeCrossed(p, u, 6) == 0 && EdgeCrossed(p, u, 7) == 0;
  }

  /** (15, 5) in the base: only the edge at x = 30 is crossed. */
  lemma UShapeBaseInside()
    ensures Inside(Point(15.0, 5.0), UShape())
  {
    var u, p := UShape(), Point(15.0, 5.0);
    CrossingCountOfOctagon(p, u);
    assert EdgeCrossed(p, u, 0) == 0 && EdgeCrossed(p, u, 1) == 0 && EdgeCrossed(p, u, 2) == 1;
    assert EdgeCrossed(p, u, 3) == 0 && EdgeCrossed(p, u, 4) == 0 && EdgeCrossed(p, u, 5) == 0;
    assert EdgeCrossed(p, u, 6) == 0 && EdgeCrossed(p, u, 7) == 0;
  }

  /** (15, 20) in the notch: the edges at x = 20 and 30 are crossed. */
  lemma UShapeNotchOutside()
    ensures !Inside(Point(15.0, 20.0), UShape())
  {
    var u, p := UShape(), Point(15.0, 20.0);
    CrossingCountOfOctagon(p, u);
    assert EdgeCrossed(p, u, 0) == 0 && EdgeCrossed(p, u, 1) == 0 && EdgeCrossed(p, u, 2) == 1;
    assert EdgeCrossed(p, u, 3) == 0 && EdgeCrossed(p, u, 4) == 1 && EdgeCrossed(p, u, 5) == 0;
    assert EdgeCrossed(p, u, 6) == 0 && EdgeCrossed(p, u, 7) == 0;
  }

  /** The vertex-only test accepts a triangle with one vertex in each arm and
      one in the base of the U although its top edge runs through the notch:
      the midpoint (15, 20) of that edge is outside. */
  lemma VertexOnlyContainment()
    ensures PolygonFullyInsidePolygon([Point(5.0, 20.0), Point(25.0, 20.0), Point(15.0, 5.0)], UShape())
    ensures !Inside(Point(15.0, 20.0), UShape())
  {
    var child := [Point(5.0, 20.0), Point(25.0, 20.0), Point(15.0, 5.0)];
    UShapeLeftArmInside();
    UShapeRightArmInside();
    UShapeBaseInside();
    UShapeNotchOutside();
    assert Inside(child[0], UShape()) && Inside(child[1], UShape()) && Inside(child[2], UShape());
  }
}
