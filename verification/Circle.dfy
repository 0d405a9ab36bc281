/** The midpoint circle: which pixels the octant loop visits, and that the rounded box visits the same. */
module Circle {
  import opened Words
  import opened Line

  function Sq(a: int): int { a * a }

  /** How far inside (negative) or outside (positive) a circle of radius r a point is: x^2 + y^2 - r^2. */
  function Excess(r: int, x: int, y: int): int { Sq(x) + Sq(y) - Sq(r) }

  /** The band the loop keeps to: less than a pixel inside, less than half a pixel outside. */
  predicate OnRing(r: int, x: int, y: int) {
    -(y + 1) <= Excess(r, x, y) <= y - 2
  }

  /** The true circle crosses the column of a ring point less than a pixel above or below it. */
  lemma RingNearCircle(r: int, x: int, y: int)
    requires OnRing(r, x, y) && y > 0
    ensures x * x + (y - 1) * (y - 1) < r * r < x * x + (y + 1) * (y + 1)
    ensures -(y + 1) <= x * x + y * y - r * r <= y - 2
  {
    SqStep(y);
    SqStep(y - 1);
  }

  /** C's division of a possibly negative number: the quotient is cut towards zero. */
  function TruncatedQuotient(a: int, b: nat): int
    requires b > 0
  {
    if a >= 0 then a / b else -(-a / b)
  }

  function InitialP(radius: int): int { TruncatedQuotient(5 - radius * 4, 4) }

  lemma InitialPValue(r: int)
    requires r >= 2
    ensures InitialP(r) == 2 - r
  {
    assert -(5 - r * 4) == (r - 2) * 4 + 3;
  }

  lemma SqStep(a: int)
    ensures Sq(a + 1) == Sq(a) + 2 * a + 1
  {
  }

  /** The invariant of the loop at (x, y): the value of p, and the band the point lies in. */
  predicate Kept(r: int, x: int, y: int, p: int) {
    && r >= 2 && 0 <= x && x <= y + 1 && 0 < y <= r
    && p == Excess(r, x + 1, y) - y + 1
    && (x <= y ==> OnRing(r, x, y))
    && -(y + 1) <= Excess(r, x, y) <= y - 1
  }

  lemma KeptAtStart(r: int)
    requires r >= 2
    ensures Kept(r, 0, r, InitialP(r))
  {
    InitialPValue(r);
    SqStep(0);
  }

  /** One pass of the loop keeps the invariant. */
  lemma KeptByStep(r: int, x: int, y: int, p: int)
    requires Kept(r, x, y, p) && x < y
    ensures if p < 0 then Kept(r, x + 1, y, p + 2 * (x + 1) + 1) else Kept(r, x + 1, y - 1, p + 2 * (x + 1 - (y - 1)) + 1)
  {
    SqStep(x);
    SqStep(x + 1);
    SqStep(y - 1);
  }

  /** In each column at most one point lies on the ring. */
  lemma RingUnique(r: int, x: int, y: int, z: int)
    requires OnRing(r, x, y) && OnRing(r, x, z) && 0 <= y && 0 <= z
    ensures y == z
  {
    if y < z { SquaresApart(y, z); }
    if z < y { SquaresApart(z, y); }
  }

  lemma {:induction false} SquaresApart(y: int, z: int)
    requires 0 <= y < z
    ensures Sq(z) >= Sq(y) + y + z
  {
    hide Sq;
    SqStep(z - 1);
    if y < z - 1 {
      SquaresApart(y, z - 1);
    }
  }

  /** Beyond the column where the loop stops no point above the diagonal lies on the ring. */
  lemma RingEnds(r: int, x: int, y: int, u: int, v: int)
    requires 0 < y <= x && -(y + 1) <= Excess(r, x, y) && x < u <= v
    ensures !OnRing(r, u, v)
  {
    SqStep(x);
    SquaresUp(x + 1, u);
    SquaresUp(x + 1, v);
    SquaresUp(y, x);
    assert Sq(v) - v >= Sq(x + 1) - (x + 1) by {
      if v > x + 1 { SquaresApart(x + 1, v); }
    }
  }

  lemma SquaresUp(a: int, b: int)
    requires 0 <= a <= b
    ensures Sq(a) <= Sq(b)
  {
    if a < b { SquaresApart(a, b); }
  }

  // ----- the points passed to vid_round_corner_points -----

  /** Everything the corner routine does with a point: nothing once it is below the diagonal. */
  predicate Plotted(q: Point) { q.x == 0 || q.x <= q.y }

  /** The points plotted are those on the ring above the diagonal, each once, from column 0 on. */
  ghost predicate Octant(r: int, points: seq<Point>) {
    && (forall i :: 0 <= i < |points| ==> points[i].x == i)
    && forall q: Point :: 0 <= q.x <= q.y && OnRing(r, q.x, q.y) <==> q in points && Plotted(q)
  }

  /** The points so far, while the loop stands at (x, y). */
  ghost predicate OctantTo(r: int, x: int, y: int, points: seq<Point>) {
    && 0 <= x && |points| == x + 1 && points[x] == Point(x, y)
    && (forall i :: 0 <= i < |points| ==> points[i].x == i)
    && forall i :: 0 <= i < x ==> i <= points[i].y && OnRing(r, i, points[i].y)
  }

  lemma OctantDone(r: int, x: int, y: int, p: int, points: seq<Point>)
    requires Kept(r, x, y, p) && OctantTo(r, x, y, points) && x >= y
    ensures Octant(r, points)
  {
    forall q: Point
      ensures 0 <= q.x <= q.y && OnRing(r, q.x, q.y) <==> q in points && Plotted(q)
    {
      if 0 <= q.x <= q.y && OnRing(r, q.x, q.y) {
        if q.x > x {
          RingEnds(r, x, y, q.x, q.y);
        } else if q.x < x {
          RingUnique(r, q.x, q.y, points[q.x].y);
          assert q == points[q.x];
        } else if x <= y {
          RingUnique(r, q.x, q.y, y);
          assert q == points[x];
        } else {
          NotBelowDiagonal(r, x, y, q.y);
        }
      }
    }
  }

  /** When the last point has slipped below the diagonal its column has no ring point above it. */
  lemma NotBelowDiagonal(r: int, x: int, y: int, v: int)
    requires x == y + 1 && 0 < y && -(y + 1) <= Excess(r, x, y) && x <= v
    ensures !OnRing(r, x, v)
  {
    SquaresApart(y, v);
  }

  lemma Starts(r: int)
    ensures r >= 2 ==> Kept(r, 0, r, InitialP(r)) && OctantTo(r, 0, r, [Point(0, r)])
    ensures r == 1 ==> InitialP(r) == 0
  {
    if r >= 2 {
      KeptAtStart(r);
    }
  }

  lemma Grows(r: int, x: int, y: int, p: int, points: seq<Point>, nextY: int)
    requires Kept(r, x, y, p) && OctantTo(r, x, y, points) && x < y
    ensures OctantTo(r, x + 1, nextY, points + [Point(x + 1, nextY)])
  {
  }

  // ----- the pixels vid_round_corner_points sets, without filling -----

  /** The corners of a box with straight sides of the given lengths between them; a circle has none. */
  function CornerPixels(cx: int, cy: int, x: int, y: int, sw: int, sh: int): set<Point> {
    if x == 0 then
      {Point(cx, cy + y + sh), Point(cx + sw, cy + y + sh), Point(cx, cy - y), Point(cx + sw, cy - y),
       Point(cx + y + sw, cy), Point(cx + y + sw, cy + sh), Point(cx - y, cy), Point(cx - y, cy + sh)}
    else if x == y then
      {Point(cx + x + sw, cy + y + sh), Point(cx - x, cy + y + sh), Point(cx + x + sw, cy - y), Point(cx - x, cy - y)}
    else if x < y then
      {Point(cx + x + sw, cy + y + sh), Point(cx - x, cy + y + sh), Point(cx + x + sw, cy - y), Point(cx - x, cy - y),
       Point(cx + y + sw, cy + x + sh), Point(cx - y, cy + x + sh), Point(cx + y + sw, cy - x), Point(cx - y, cy - x)}
    else {}
  }

  ghost function AllCorners(cx: int, cy: int, sw: int, sh: int, points: seq<Point>): set<Point> {
    set i, p | 0 <= i < |points| && p in CornerPixels(cx, cy, points[i].x, points[i].y, sw, sh) :: p
  }

  lemma OneMoreCorner(cx: int, cy: int, sw: int, sh: int, points: seq<Point>, q: Point)
    ensures AllCorners(cx, cy, sw, sh, points + [q])
            == AllCorners(cx, cy, sw, sh, points) + CornerPixels(cx, cy, q.x, q.y, sw, sh)
  {
    hide CornerPixels;
    var more := points + [q];
    forall p | p in AllCorners(cx, cy, sw, sh, points) + CornerPixels(cx, cy, q.x, q.y, sw, sh)
      ensures p in AllCorners(cx, cy, sw, sh, more)
    {
      if p in AllCorners(cx, cy, sw, sh, points) {
        var i :| 0 <= i < |points| && p in CornerPixels(cx, cy, points[i].x, points[i].y, sw, sh);
        assert more[i] == points[i];
      } else {
        assert more[|points|] == q;
      }
    }
  }

  /** The offset from the centre, folded into the octant above the diagonal. */
  function Folded(u: int, v: int): Point {
    if Abs(u) <= Abs(v) then Point(Abs(u), Abs(v)) else Point(Abs(v), Abs(u))
  }

  lemma CornerOfCircle(cx: int, cy: int, q: Point, u: int, v: int)
    requires 0 <= q.x && 0 <= q.y
    ensures Point(cx + u, cy + v) in CornerPixels(cx, cy, q.x, q.y, 0, 0) <==> Plotted(q) && Folded(u, v) == q
  {
  }

  /** Where a coordinate of the circle comes to lie when the quadrants are moved apart by the side: what is right of
      (or below) the centre moves, the rest stays, and the column (or row) of the centre does both. */
  predicate Moved(u: int, side: int, d: int) {
    (u >= 0 && d == u + side) || (u <= 0 && d == u)
  }

  /** (dx, dy) is a pixel of the circle in the octant of q, after the quadrants have been moved apart. */
  predicate MovedCorner(q: Point, sw: int, sh: int, dx: int, dy: int, u: int, v: int) {
    Plotted(q) && Folded(u, v) == q && Moved(u, sw, dx) && Moved(v, sh, dy)
  }

  /** The corners of a box are the circle's quadrants moved apart by the lengths of the sides. */
  lemma CornersMovedApart(cx: int, cy: int, q: Point, sw: int, sh: int, dx: int, dy: int)
    requires 0 <= q.x && 0 <= q.y
    ensures Point(cx + dx, cy + dy) in CornerPixels(cx, cy, q.x, q.y, sw, sh)
            <==> exists u, v :: MovedCorner(q, sw, sh, dx, dy, u, v)
  {
    if Point(cx + dx, cy + dy) in CornerPixels(cx, cy, q.x, q.y, sw, sh) {
      CornerComesFrom(cx, cy, q, sw, sh, dx, dy);
    }
    if exists u, v :: MovedCorner(q, sw, sh, dx, dy, u, v) {
      var u, v :| MovedCorner(q, sw, sh, dx, dy, u, v);
      CornerGoesTo(cx, cy, q, sw, sh, dx, dy, u, v);
    }
  }

  lemma CornerGoesTo(cx: int, cy: int, q: Point, sw: int, sh: int, dx: int, dy: int, u: int, v: int)
    requires 0 <= q.x && 0 <= q.y && MovedCorner(q, sw, sh, dx, dy, u, v)
    ensures Point(cx + dx, cy + dy) in CornerPixels(cx, cy, q.x, q.y, sw, sh)
  {
  }

  lemma CornerComesFrom(cx: int, cy: int, q: Point, sw: int, sh: int, dx: int, dy: int)
    requires 0 <= q.x && 0 <= q.y && Point(cx + dx, cy + dy) in CornerPixels(cx, cy, q.x, q.y, sw, sh)
    ensures exists u, v :: MovedCorner(q, sw, sh, dx, dy, u, v)
  {
    var x, y := q.x, q.y;
    if x == 0 {
      assert || MovedCorner(q, sw, sh, dx, dy, 0, y) || MovedCorner(q, sw, sh, dx, dy, 0, -y)
             || MovedCorner(q, sw, sh, dx, dy, y, 0) || MovedCorner(q, sw, sh, dx, dy, -y, 0);
    } else {
      assert || MovedCorner(q, sw, sh, dx, dy, x, y) || MovedCorner(q, sw, sh, dx, dy, -x, y)
             || MovedCorner(q, sw, sh, dx, dy, x, -y) || MovedCorner(q, sw, sh, dx, dy, -x, -y)
             || MovedCorner(q, sw, sh, dx, dy, y, x) || MovedCorner(q, sw, sh, dx, dy, -y, x)
             || MovedCorner(q, sw, sh, dx, dy, y, -x) || MovedCorner(q, sw, sh, dx, dy, -y, -x);
    }
  }

  /** A ring pixel whose quadrant, moved apart, comes to (dx, dy). */
  predicate MovedRing(r: int, sw: int, sh: int, dx: int, dy: int, u: int, v: int) {
    OnRing(r, Folded(u, v).x, Folded(u, v).y) && Moved(u, sw, dx) && Moved(v, sh, dy)
  }

  ghost predicate OnBoxRing(r: int, sw: int, sh: int, dx: int, dy: int) {
    exists u, v :: MovedRing(r, sw, sh, dx, dy, u, v)
  }

  /** The round corners of a box of radius 2 or more are exactly the ring's quadrants, moved apart. */
  lemma BoxDrawn(cx: int, cy: int, r: int, sw: int, sh: int, points: seq<Point>)
    requires r >= 2 && Octant(r, points) && forall i :: 0 <= i < |points| ==> 0 <= points[i].y
    ensures forall p :: p in AllCorners(cx, cy, sw, sh, points) <==> OnBoxRing(r, sw, sh, p.x - cx, p.y - cy)
  {
    hide AllCorners, OnBoxRing, Octant;
    forall p: Point
      ensures p in AllCorners(cx, cy, sw, sh, points) <==> OnBoxRing(r, sw, sh, p.x - cx, p.y - cy)
    {
      BoxPixel(cx, cy, r, sw, sh, points, p);
    }
  }

  lemma BoxPixel(cx: int, cy: int, r: int, sw: int, sh: int, points: seq<Point>, p: Point)
    requires r >= 2 && Octant(r, points) && forall i :: 0 <= i < |points| ==> 0 <= points[i].y
    ensures p in AllCorners(cx, cy, sw, sh, points) <==> OnBoxRing(r, sw, sh, p.x - cx, p.y - cy)
  {
    hide CornerPixels, OnRing, Moved;
    var dx, dy := p.x - cx, p.y - cy;
    assert p == Point(cx + dx, cy + dy);
    if p in AllCorners(cx, cy, sw, sh, points) {
      var i :| 0 <= i < |points| && p in CornerPixels(cx, cy, points[i].x, points[i].y, sw, sh);
      CornersMovedApart(cx, cy, points[i], sw, sh, dx, dy);
      var u, v :| MovedCorner(points[i], sw, sh, dx, dy, u, v);
      assert points[i] in points;
      assert MovedRing(r, sw, sh, dx, dy, u, v);
    }
    if OnBoxRing(r, sw, sh, p.x - cx, p.y - cy) {
      var u, v :| MovedRing(r, sw, sh, dx, dy, u, v);
      var q := Folded(u, v);
      assert q in points && Plotted(q);
      var i :| 0 <= i < |points| && points[i] == q;
      assert MovedCorner(q, sw, sh, dx, dy, u, v);
      CornersMovedApart(cx, cy, q, sw, sh, dx, dy);
      assert p in CornerPixels(cx, cy, points[i].x, points[i].y, sw, sh);
    }
  }

  /** A circle of radius 2 or more is exactly the ring, in all eight octants. */
  lemma RingDrawn(cx: int, cy: int, r: int, points: seq<Point>)
    requires r >= 2 && Octant(r, points) && forall i :: 0 <= i < |points| ==> 0 <= points[i].y
    ensures forall u, v ::
              Point(cx + u, cy + v) in AllCorners(cx, cy, 0, 0, points) <==> OnRing(r, Folded(u, v).x, Folded(u, v).y)
  {
    hide CornerPixels, OnRing;
    forall u, v
      ensures Point(cx + u, cy + v) in AllCorners(cx, cy, 0, 0, points) <==> OnRing(r, Folded(u, v).x, Folded(u, v).y)
    {
      var p, q := Point(cx + u, cy + v), Folded(u, v);
      if p in AllCorners(cx, cy, 0, 0, points) {
        var i :| 0 <= i < |points| && p in CornerPixels(cx, cy, points[i].x, points[i].y, 0, 0);
        CornerOfCircle(cx, cy, points[i], u, v);
        assert q in points;
      }
      if OnRing(r, q.x, q.y) {
        assert q in points && Plotted(q);
        var i :| 0 <= i < |points| && points[i] == q;
        CornerOfCircle(cx, cy, q, u, v);
      }
    }
  }

  /** The points of an octant determine the pixels, whatever the loop that listed them. */
  lemma SamePixels(r: int, cx: int, cy: int, sw: int, sh: int, points: seq<Point>, others: seq<Point>)
    requires Octant(r, points) && Octant(r, others)
    ensures AllCorners(cx, cy, sw, sh, points) == AllCorners(cx, cy, sw, sh, others)
  {
    SomePixels(r, cx, cy, sw, sh, points, others);
    SomePixels(r, cx, cy, sw, sh, others, points);
  }

  lemma SomePixels(r: int, cx: int, cy: int, sw: int, sh: int, points: seq<Point>, others: seq<Point>)
    requires Octant(r, points) && Octant(r, others)
    ensures AllCorners(cx, cy, sw, sh, points) <= AllCorners(cx, cy, sw, sh, others)
  {
    hide CornerPixels, OnRing;
    forall p | p in AllCorners(cx, cy, sw, sh, points)
      ensures p in AllCorners(cx, cy, sw, sh, others)
    {
      var i :| 0 <= i < |points| && p in CornerPixels(cx, cy, points[i].x, points[i].y, sw, sh);
      OnlyPlotted(cx, cy, sw, sh, points[i], p);
      assert points[i] in points && points[i] in others;
      var k :| 0 <= k < |others| && others[k] == points[i];
    }
  }

  lemma OnlyPlotted(cx: int, cy: int, sw: int, sh: int, q: Point, p: Point)
    requires p in CornerPixels(cx, cy, q.x, q.y, sw, sh)
    ensures Plotted(q)
  {
  }

  lemma NoCorners(cx: int, cy: int, sw: int, sh: int)
    ensures AllCorners(cx, cy, sw, sh, []) == {}
  {
  }

  /** vid_draw_circle without filling, with plain integers. */
  method DrawCircle(hcenter: int, vcenter: int, radius: int) returns (plotted: set<Point>, points: seq<Point>)
    ensures plotted == AllCorners(hcenter, vcenter, 0, 0, points)
    ensures radius >= 2 ==>
              forall u, v :: Point(hcenter + u, vcenter + v) in plotted <==> OnRing(radius, Folded(u, v).x, Folded(u, v).y)
    ensures radius >= 2 ==> Octant(radius, points)
    ensures radius < 2 ==> points == if radius == 1 then [Point(0, 1), Point(1, 0)] else [Point(0, radius)]
  {
    hide CornerPixels, AllCorners, Kept, OctantTo, Octant, InitialP;
    var x, y := 0, radius;
    var p := InitialP(radius);
    points := [Point(x, y)];
    plotted := CornerPixels(hcenter, vcenter, x, y, 0, 0);
    OneMoreCorner(hcenter, vcenter, 0, 0, [], points[0]);
    NoCorners(hcenter, vcenter, 0, 0);
    assert [] + points == points;
    Starts(radius);
    while x < y
      invariant radius >= 2 ==> Kept(radius, x, y, p) && OctantTo(radius, x, y, points)
      invariant radius < 2 ==> if x == 0 then y == radius && points == [Point(0, radius)] && p == InitialP(radius)
                               else radius == 1 && y == 0 && points == [Point(0, 1), Point(1, 0)]
      invariant plotted == AllCorners(hcenter, vcenter, 0, 0, points)
      invariant radius >= 2 ==> forall i :: 0 <= i < |points| ==> 0 <= points[i].y
      decreases y - x
    {
      if radius >= 2 {
        KeptByStep(radius, x, y, p);
        Grows(radius, x, y, p, points, if p < 0 then y else y - 1);
      }
      x := x + 1;
      if p < 0 {
        p := p + 2 * x + 1;
      } else {
        y := y - 1;
        p := p + 2 * (x - y) + 1;
      }
      plotted := plotted + CornerPixels(hcenter, vcenter, x, y, 0, 0);
      OneMoreCorner(hcenter, vcenter, 0, 0, points, Point(x, y));
      points := points + [Point(x, y)];
    }
    if radius >= 2 {
      OctantDone(radius, x, y, p, points);
      RingDrawn(hcenter, vcenter, radius, points);
    }
  }

  /** The corner loop of vid_draw_round_corner_box: x and y are unsigned, so 2 * (x - y) + 1 wraps round before
      it is added to the signed p. */
  method DrawCorners(cx: int, cy: int, radius: int, straightWidth: int, straightHeight: int)
    returns (plotted: set<Point>, points: seq<Point>)
    requires 0 <= radius < 0x2000_0000
    ensures plotted == AllCorners(cx, cy, straightWidth, straightHeight, points)
    ensures radius >= 2 ==>
              forall p :: p in plotted <==> OnBoxRing(radius, straightWidth, straightHeight, p.x - cx, p.y - cy)
    ensures radius >= 2 ==> Octant(radius, points)
    ensures radius < 2 ==> points == if radius == 1 then [Point(0, 1), Point(1, 0)] else [Point(0, radius)]
  {
    hide CornerPixels, AllCorners, Kept, OctantTo, Octant, InitialP, U32, I32, OnBoxRing;
    var x: nat, y: nat := 0, U32(radius);
    var p := InitialP(radius);
    points := [Point(I32(x), I32(y))];
    plotted := CornerPixels(cx, cy, I32(x), I32(y), straightWidth, straightHeight);
    OneMoreCorner(cx, cy, straightWidth, straightHeight, [], points[0]);
    NoCorners(cx, cy, straightWidth, straightHeight);
    assert [] + points == points;
    Starts(radius);
    while x < y
      invariant x <= radius && y <= radius
      invariant radius >= 2 ==> Kept(radius, x, y, p) && OctantTo(radius, x, y, points)
      invariant radius < 2 ==> if x == 0 then y == radius && points == [Point(0, radius)] && p == InitialP(radius)
                               else radius == 1 && y == 0 && points == [Point(0, 1), Point(1, 0)]
      invariant plotted == AllCorners(cx, cy, straightWidth, straightHeight, points)
      invariant radius >= 2 ==> forall i :: 0 <= i < |points| ==> 0 <= points[i].y
      decreases y - x
    {
      if radius >= 2 {
        KeptByStep(radius, x, y, p);
        Grows(radius, x, y, p, points, if p < 0 then y else y - 1);
        SmallP(radius, x, y, p);
      }
      x, y, p := NextUnsigned(x, y, p);
      plotted := plotted + CornerPixels(cx, cy, I32(x), I32(y), straightWidth, straightHeight);
      OneMoreCorner(cx, cy, straightWidth, straightHeight, points, Point(I32(x), I32(y)));
      points := points + [Point(I32(x), I32(y))];
    }
    if radius >= 2 {
      OctantDone(radius, x, y, p, points);
      BoxDrawn(cx, cy, radius, straightWidth, straightHeight, points);
    }
  }

  /** One pass of the corner loop: the difference is taken in unsigned arithmetic and added to the signed p. */
  method NextUnsigned(x0: nat, y0: nat, p0: int) returns (x: nat, y: nat, p: int)
    requires x0 < y0 < 0x2000_0000 && -0x4000_0000 <= p0 <= 0x7FFF_FFFC
    ensures x == x0 + 1
    ensures if p0 < 0 then y == y0 && p == p0 + 2 * (x0 + 1) + 1 else y == y0 - 1 && p == p0 + 2 * (x0 + 1 - (y0 - 1)) + 1
  {
    x, y, p := U32(x0 + 1), y0, p0;
    if p < 0 {
      Detour(p, x);
      p := I32(p + U32(2 * U32(x) + 1));
    } else {
      y := U32(y - 1);
      Detour(p, x - y);
      p := I32(p + U32(2 * U32(x - y) + 1));
    }
  }

  /** p stays far from the limits of 32 bits. */
  lemma SmallP(r: int, x: int, y: int, p: int)
    requires Kept(r, x, y, p) && x < y && r < 0x2000_0000
    ensures -2 * r <= p <= 4 * r
  {
    SqStep(x);
  }

  /** A small difference taken through unsigned arithmetic comes out as the signed one. */
  lemma Detour(p: int, d: int)
    requires -0x8000_0000 <= p + 2 * d + 1 < 0x8000_0000
    ensures I32(p + U32(2 * U32(d) + 1)) == p + 2 * d + 1
  {
    var q := Turns(d);
    I32Sum(p, 2 * U32(d) + 1);
    WholeTurns(p + 2 * d + 1, 2 * q);
    assert I32(p + 2 * d + 1) == p + 2 * d + 1;
    hide U32, I32;
    assert p + (2 * U32(d) + 1) == p + 2 * d + 1 + 2 * q * 0x1_0000_0000;
  }
}
