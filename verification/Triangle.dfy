/** Filling a triangle: three edge scans widen a span map, one span per row, that covers the exact triangle. */
module Triangle {
  import opened Line

  // ----- the span map -----

  /** Row y of the map holds the least and greatest column of the points so far; -1 marks a row without any. */
  ghost predicate RowSpans(lo: int, hi: int, y: int, points: set<Point>) {
    if lo == -1 then hi == -1 && forall p :: p in points ==> p.y != y
    else Point(lo, y) in points && Point(hi, y) in points && forall p :: p in points && p.y == y ==> lo <= p.x <= hi
  }

  /** Rows top to bottom of the map hold the spans of a set of points in those rows and right of the left border. */
  ghost predicate Spans(map_: array<int>, top: int, bottom: int, points: set<Point>)
    reads map_
  {
    && 0 <= top <= bottom && 2 * bottom + 1 < map_.Length
    && (forall p :: p in points ==> top <= p.y <= bottom && 0 <= p.x)
    && forall y :: top <= y <= bottom ==> RowSpans(map_[2 * y], map_[2 * y + 1], y, points)
  }

  method PutPixelInSpanMap(x: int, y: int, spanArray: array<int>, ghost top: int, ghost bottom: int, ghost points: set<Point>)
    requires Spans(spanArray, top, bottom, points) && top <= y <= bottom && 0 <= x
    modifies spanArray
    ensures Spans(spanArray, top, bottom, points + {Point(x, y)})
    ensures forall k :: 0 <= k < spanArray.Length && k != 2 * y && k != 2 * y + 1 ==> spanArray[k] == old(spanArray[k])
  {
    if spanArray[y * 2] == -1 {
      spanArray[y * 2] := x;
      spanArray[y * 2 + 1] := x;
    } else if spanArray[y * 2] > x {
      spanArray[y * 2] := x;
    } else if spanArray[y * 2 + 1] < x {
      spanArray[y * 2 + 1] := x;
    }
  }

  /** The edge as it is scanned: always from left to right. */
  function LeftToRight(a: Point, b: Point): (l: Line)
    ensures l.a.x <= l.b.x && (l == Line(a, b) || l == Line(b, a))
  {
    if a.x > b.x then Line(b, a) else Line(a, b)
  }

  ghost function FirstPixels(l: Line, n: nat): set<Point> {
    set i | 0 <= i < n :: l.At(i)
  }

  /** vid_bres_scan_edges: put every pixel of the edge into the map. */
  method ScanEdges(a: Point, b: Point, spanArray: array<int>, ghost top: int, ghost bottom: int, ghost points: set<Point>)
    requires Spans(spanArray, top, bottom, points)
    requires top <= a.y <= bottom && top <= b.y <= bottom && 0 <= a.x && 0 <= b.x
    modifies spanArray
    ensures Spans(spanArray, top, bottom, points + LeftToRight(a, b).Pixels())
  {
    var x1, y1, x2, y2 := a.x, a.y, b.x, b.y;
    if x1 > x2 {
      x1, x2 := x2, x1;
      y1, y2 := y2, y1;
    }
    ghost var l := LeftToRight(a, b);
    var yDelta, xDelta: nat := Abs(y1 - y2), x2 - x1;
    var yIncr := if y1 > y2 then -1 else 1;
    if xDelta >= yDelta {
      ScanMajor(l, true, x1, y1, yIncr, xDelta, yDelta, spanArray, top, bottom, points);
    } else {
      ScanMajor(l, false, x1, y1, yIncr, yDelta, xDelta, spanArray, top, bottom, points);
    }
  }

  /** The loop over the major axis, which the C code writes out once for each axis. */
  method ScanMajor(ghost l: Line, horizontal: bool, xStart: int, yStart: int, yIncr: int, major: nat, minor: nat,
                   spanArray: array<int>, ghost top: int, ghost bottom: int, ghost points: set<Point>)
    requires Spans(spanArray, top, bottom, points)
    requires top <= l.a.y <= bottom && top <= l.b.y <= bottom && 0 <= l.a.x <= l.b.x
    requires l.a == Point(xStart, yStart) && yIncr == (if l.a.y > l.b.y then -1 else 1)
    requires horizontal == (l.Dx() >= l.Dy())
    requires (major, minor) == if horizontal then (l.Dx(), l.Dy()) else (l.Dy(), l.Dx())
    modifies spanArray
    ensures Spans(spanArray, top, bottom, points + l.Pixels())
  {
    hide Minor, Error, Line.At, Line.Pixels, Spans;
    var dPr := minor * 2;
    var dPru := dPr - major * 2;
    var P := dPr - major;
    var x, y, delta: int := xStart, yStart, major;
    ghost var i: nat := 0;
    Start(l, major, minor);
    assert points + FirstPixels(l, 0) == points;
    while delta >= 0
      invariant delta == major - i && i <= major + 1
      invariant i <= major ==> Point(x, y) == l.At(i)
      invariant 0 < major && i <= major ==> P == Error(major, minor, i, Minor(major, minor, i)) + 2 * minor - major
      invariant Spans(spanArray, top, bottom, points + FirstPixels(l, i))
      decreases delta
    {
      InBox(l, i);
      PutPixelInSpanMap(x, y, spanArray, top, bottom, points + FirstPixels(l, i));
      assert points + FirstPixels(l, i) + {l.At(i)} == points + FirstPixels(l, i + 1);
      if i < major {
        NextPixel(major, minor, i, Minor(major, minor, i), P);
        NextPoint(l, i);
      }
      if P > 0 {
        x := x + 1;
        y := y + yIncr;
        P := P + dPru;
      } else {
        if horizontal {
          x := x + 1;
        } else {
          y := y + yIncr;
        }
        P := P + dPr;
      }
      delta := delta - 1;
      i := i + 1;
    }
    AllPixels(l);
  }

  lemma Start(l: Line, major: nat, minor: nat)
    requires minor <= major
    ensures l.At(0) == l.a && Minor(major, minor, 0) == 0 && Error(major, minor, 0, 0) == 0
  {
    EndPoints(l);
    MinorAtEnds(major, minor);
  }

  lemma AllPixels(l: Line)
    ensures FirstPixels(l, l.Steps() + 1) == l.Pixels()
  {
  }

  // ----- where an edge crosses a row -----

  /** Twice the area of the triangle a, b, p, positive when p lies on one side of the directed line. */
  function Cross(a: Point, b: Point, p: Point): int {
    (b.x - a.x) * (p.y - a.y) - (b.y - a.y) * (p.x - a.x)
  }

  /** Not negative exactly when the line through a and b crosses the row of p at p or to the right of it. */
  function Gap(a: Point, b: Point, p: Point): int {
    if b.y > a.y then Cross(a, b, p) else -Cross(a, b, p)
  }

  lemma GapSymmetric(a: Point, b: Point, p: Point)
    requires a.y != b.y
    ensures Gap(a, b, p) == Gap(b, a, p)
  {
  }

  /** In every row an edge passes through, one of its pixels lies within half a pixel of the exact crossing. */
  lemma Crossing(l: Line, y: int) returns (q: Point)
    requires l.a.x <= l.b.x && l.a.y != l.b.y && Between(l.a.y, y, l.b.y)
    ensures q in l.Pixels() && q.y == y
    ensures var t := Abs(y - l.a.y);
            0 <= 2 * (l.Dy() * (q.x - l.a.x)) - 2 * (l.Dx() * t) + l.Dy() <= 2 * l.Dy()
  {
    var t := Abs(y - l.a.y);
    var dx, dy := l.Dx(), l.Dy();
    if dx >= dy {
      var i := NearestColumn(dx, dy, t);
      NearestPixel(dx, dy, i, t);
      q := l.At(i);
    } else {
      NearestPixel(dy, dx, t, Minor(dy, dx, t));
      MinorGrows(dy, dx, t, t);
      q := l.At(t);
    }
  }

  /** The multiple of d nearest to n is at most half of d away. */
  lemma NearestMultiple(n: nat, d: nat) returns (q: int)
    requires d > 0
    ensures 0 <= 2 * (d * q) - 2 * n + d <= 2 * d
  {
    Division(2 * n + d, 2 * d);
    q := (2 * n + d) / (2 * d);
    assert q * (2 * d) == 2 * (d * q);
  }

  /** A distance of at most half a pixel does not take an integer column past another one. */
  lemma NotPast(d: nat, g: int)
    requires d > 0 && 2 * (d * g) + d >= 0
    ensures g >= 0
  {
    assert d * (g + 1) == d * g + d;
  }

  /** On a flat edge: the column nearest to where the exact line reaches row t has its pixel in that row. */
  lemma NearestColumn(dx: nat, dy: nat, t: nat) returns (i: nat)
    requires dx >= dy > 0 && t <= dy
    ensures i <= dx && WithinHalf(dx, Error(dx, dy, i, t))
    ensures 0 <= 2 * (dy * i) - 2 * (dx * t) + dy <= 2 * dy
  {
    var q := NearestMultiple(dx * t, dy);
    NotPast(dy, q);
    ProductGrows(dx, t, dy);
    Distances(dy, dx, q);
    NotPast(dy, dx - q);
    i := q;
    TieBreak(dx, dy, i, t, dy * i, dx * t);
  }

  lemma TieBreak(dx: nat, dy: nat, i: nat, t: nat, m: int, n: int)
    requires dx >= dy > 0 && m == dy * i && n == dx * t && 0 <= 2 * m - 2 * n + dy <= 2 * dy
    ensures WithinHalf(dx, 2 * m - 2 * n)
  {
    if dx == dy {
      Distances(dx, i, t);
      NotPast(dx, i - t);
      ProductGrows(dx, t, i);
    }
  }

  lemma GapValue(l: Line, p: Point)
    requires l.a.x <= l.b.x && l.a.y != l.b.y && Between(l.a.y, p.y, l.b.y)
    ensures Gap(l.a, l.b, p) == l.Dx() * Abs(p.y - l.a.y) - l.Dy() * (p.x - l.a.x)
  {
  }

  /** An edge that crosses the row of p at p or right of it has a pixel of that row there; likewise left. */
  lemma EdgeSide(a: Point, b: Point, p: Point) returns (q: Point)
    requires a.y != b.y && Between(a.y, p.y, b.y)
    ensures q in LeftToRight(a, b).Pixels() && q.y == p.y
    ensures Gap(a, b, p) >= 0 ==> q.x >= p.x
    ensures Gap(a, b, p) <= 0 ==> q.x <= p.x
  {
    hide Gap, Line.Pixels;
    var l := LeftToRight(a, b);
    GapSymmetric(a, b, p);
    GapValue(l, p);
    q := Crossing(l, p.y);
    SideOf(l.Dy(), q.x - l.a.x, p.x - l.a.x, l.Dx() * Abs(p.y - l.a.y));
  }

  lemma SideOf(d: nat, m: int, n: int, k: int)
    requires d > 0 && 0 <= 2 * (d * m) - 2 * k + d <= 2 * d
    ensures (k - d * n >= 0 ==> m >= n) && (k - d * n <= 0 ==> m <= n)
  {
    Distances(d, m, n);
    if k - d * n >= 0 { NotPast(d, m - n); }
    if k - d * n <= 0 { NotPast(d, n - m); }
  }

  lemma Distances(d: nat, m: int, n: int)
    ensures d * (m - n) == d * m - d * n && d * (n - m) == d * n - d * m
  {
  }

  // ----- the exact triangle -----

  /** p is the weighted mean of the corners. */
  ghost predicate Mean(a: Point, b: Point, c: Point, p: Point, u: nat, v: nat, w: nat) {
    && u + v + w > 0
    && (u + v + w) * p.x == u * a.x + v * b.x + w * c.x
    && (u + v + w) * p.y == u * a.y + v * b.y + w * c.y
  }

  /** The closed triangle, also a degenerate one: all weighted means of its corners. */
  ghost predicate InTriangle(a: Point, b: Point, c: Point, p: Point) {
    exists u: nat, v: nat, w: nat :: Mean(a, b, c, p, u, v, w)
  }

  lemma Bilinear(s: int, ux: int, uy: int, px: int, py: int, wx: int, wy: int, v: int, w: int)
    requires s * px == v * ux + w * wx && s * py == v * uy + w * wy
    ensures s * (ux * py - uy * px) == w * (ux * wy - uy * wx)
  {
    calc {
      s * (ux * py - uy * px);
    ==
      ux * (s * py) - uy * (s * px);
    ==
      ux * (v * uy + w * wy) - uy * (v * ux + w * wx);
    ==
      w * (ux * wy - uy * wx);
    }
  }

  /** The cross product along an edge is the third corner's share of the whole area. */
  lemma ShareOfArea(a: Point, b: Point, c: Point, p: Point, u: nat, v: nat, w: nat)
    requires Mean(a, b, c, p, u, v, w)
    ensures (u + v + w) * Cross(a, b, p) == w * Cross(a, b, c)
  {
    var s := u + v + w;
    assert s * (p.x - a.x) == v * (b.x - a.x) + w * (c.x - a.x);
    assert s * (p.y - a.y) == v * (b.y - a.y) + w * (c.y - a.y);
    Bilinear(s, b.x - a.x, b.y - a.y, p.x - a.x, p.y - a.y, c.x - a.x, c.y - a.y, v, w);
  }

  lemma CrossRotates(a: Point, b: Point, c: Point)
    ensures Cross(a, b, c) == Cross(b, c, a)
  {
  }

  lemma SameSign(s: int, x: int, w: nat, d: int)
    requires s > 0 && s * x == w * d
    ensures (d >= 0 ==> x >= 0) && (d <= 0 ==> x <= 0)
  {
    if d >= 0 { assert w * d >= 0; }
    if d <= 0 { assert w * d <= 0; }
  }

  /** A point of the triangle lies on the same side of all three directed edges. */
  lemma SameSide(a: Point, b: Point, c: Point, p: Point)
    requires InTriangle(a, b, c, p)
    ensures (Cross(a, b, c) >= 0 ==> Cross(a, b, p) >= 0 && Cross(b, c, p) >= 0 && Cross(c, a, p) >= 0)
    ensures (Cross(a, b, c) <= 0 ==> Cross(a, b, p) <= 0 && Cross(b, c, p) <= 0 && Cross(c, a, p) <= 0)
  {
    hide Cross;
    var u: nat, v: nat, w: nat :| Mean(a, b, c, p, u, v, w);
    var d := Cross(a, b, c);
    CrossRotates(a, b, c);
    CrossRotates(b, c, a);
    ShareOfArea(a, b, c, p, u, v, w);
    SameSign(u + v + w, Cross(a, b, p), w, d);
    ShareOfArea(b, c, a, p, v, w, u);
    SameSign(u + v + w, Cross(b, c, p), u, d);
    ShareOfArea(c, a, b, p, w, u, v);
    SameSign(u + v + w, Cross(c, a, p), v, d);
  }

  function Min3(a: int, b: int, c: int): int {
    var a := if a > b then b else a;
    if a > c then c else a
  }

  function Max3(a: int, b: int, c: int): int {
    var a := if a < b then b else a;
    if a < c then c else a
  }

  lemma MeanBetween(s: int, p: int, a: int, b: int, c: int, u: nat, v: nat, w: nat)
    requires s == u + v + w > 0 && s * p == u * a + v * b + w * c
    ensures Min3(a, b, c) <= p <= Max3(a, b, c)
  {
    MeanAbove(s, p, Min3(a, b, c), a, b, c, u, v, w);
    MeanAbove(s, -p, -Max3(a, b, c), -a, -b, -c, u, v, w);
  }

  lemma MeanAbove(s: int, p: int, lo: int, a: int, b: int, c: int, u: nat, v: nat, w: nat)
    requires s == u + v + w > 0 && s * p == u * a + v * b + w * c && lo <= a && lo <= b && lo <= c
    ensures lo <= p
  {
    NonNegative(u, a - lo);
    NonNegative(v, b - lo);
    NonNegative(w, c - lo);
    assert s * (p - lo) == u * (a - lo) + v * (b - lo) + w * (c - lo);
    SameSign(s, p - lo, 1, s * (p - lo));
  }

  lemma NonNegative(u: nat, g: int)
    requires g >= 0
    ensures u * g >= 0
  {
  }

  lemma InBounds(a: Point, b: Point, c: Point, p: Point)
    requires InTriangle(a, b, c, p)
    ensures Min3(a.x, b.x, c.x) <= p.x <= Max3(a.x, b.x, c.x) && Min3(a.y, b.y, c.y) <= p.y <= Max3(a.y, b.y, c.y)
  {
    var u: nat, v: nat, w: nat :| Mean(a, b, c, p, u, v, w);
    MeanBetween(u + v + w, p.x, a.x, b.x, c.x, u, v, w);
    MeanBetween(u + v + w, p.y, a.y, b.y, c.y, u, v, w);
  }

  /** All pixels of the three edge scans. */
  ghost function Outline(a: Point, b: Point, c: Point): set<Point> {
    LeftToRight(a, b).Pixels() + LeftToRight(b, c).Pixels() + LeftToRight(c, a).Pixels()
  }

  /** A pixel of the outline in the row of p, at p or further towards the given side. */
  ghost predicate Bounded(points: set<Point>, p: Point, right: bool) {
    exists q :: q in points && q.y == p.y && if right then q.x >= p.x else q.x <= p.x
  }

  lemma EdgeBounds(a: Point, b: Point, p: Point, points: set<Point>, right: bool)
    requires a.y != b.y && Between(a.y, p.y, b.y) && LeftToRight(a, b).Pixels() <= points
    requires if right then Gap(a, b, p) >= 0 else Gap(a, b, p) <= 0
    ensures Bounded(points, p, right)
  {
    hide Gap, Line.Pixels;
    var q := EdgeSide(a, b, p);
    assert q in points;
  }

  /** An edge of the cycle a, b, c that goes up through the row of p, and one that goes down through it. */
  lemma SomeEdgeBounds(a: Point, b: Point, c: Point, p: Point, points: set<Point>, up: bool, right: bool)
    requires Min3(a.y, b.y, c.y) <= p.y <= Max3(a.y, b.y, c.y) && Min3(a.y, b.y, c.y) < Max3(a.y, b.y, c.y)
    requires Outline(a, b, c) <= points
    requires if up == right then Cross(a, b, p) >= 0 && Cross(b, c, p) >= 0 && Cross(c, a, p) >= 0
                            else Cross(a, b, p) <= 0 && Cross(b, c, p) <= 0 && Cross(c, a, p) <= 0
    ensures Bounded(points, p, right)
  {
    hide Cross, Line.Pixels, LeftToRight;
    if Climbs(a, b, p, up) {
      EdgeBounds(a, b, p, points, right);
    } else if Climbs(b, c, p, up) {
      EdgeBounds(b, c, p, points, right);
    } else {
      assert Climbs(c, a, p, up);
      EdgeBounds(c, a, p, points, right);
    }
  }

  predicate Climbs(a: Point, b: Point, p: Point, up: bool) {
    if up then a.y <= p.y <= b.y && a.y < b.y else b.y <= p.y <= a.y && b.y < a.y
  }

  /** In the row of every lattice point of the exact closed triangle the scans visit a pixel at it or left of
      it and one at it or right of it. */
  lemma OutlineEncloses(a: Point, b: Point, c: Point, p: Point)
    requires InTriangle(a, b, c, p)
    ensures Bounded(Outline(a, b, c), p, false) && Bounded(Outline(a, b, c), p, true)
  {
    InBounds(a, b, c, p);
    SameSide(a, b, c, p);
    var points := Outline(a, b, c);
    hide Cross, Outline, InTriangle;
    if Min3(a.y, b.y, c.y) < Max3(a.y, b.y, c.y) {
      var positive := Cross(a, b, c) >= 0;
      SomeEdgeBounds(a, b, c, p, points, positive, true);
      SomeEdgeBounds(a, b, c, p, points, !positive, false);
    } else {
      CornersVisited(a, b, c);
      assert Point(Min3(a.x, b.x, c.x), p.y) in points && Point(Max3(a.x, b.x, c.x), p.y) in points;
    }
  }

  lemma CornersVisited(a: Point, b: Point, c: Point)
    ensures a in Outline(a, b, c) && b in Outline(a, b, c) && c in Outline(a, b, c)
  {
    EndPoints(LeftToRight(a, b));
    EndPoints(LeftToRight(b, c));
  }

  // ----- filling -----

  /** The filling half of vid_draw_triangle up to the rendered spans: clear the rows, scan the three edges.
      Every row then holds the least and greatest column visited, and contains the exact triangle's row. */
  method ScanTriangle(a: Point, b: Point, c: Point, spanArray: array<int>) returns (topY: int, bottomY: int)
    requires 0 <= a.x && 0 <= b.x && 0 <= c.x && 0 <= a.y && 0 <= b.y && 0 <= c.y
    requires 2 * a.y + 1 < spanArray.Length && 2 * b.y + 1 < spanArray.Length && 2 * c.y + 1 < spanArray.Length
    modifies spanArray
    ensures topY == Min3(a.y, b.y, c.y) && bottomY == Max3(a.y, b.y, c.y)
    ensures Spans(spanArray, topY, bottomY, Outline(a, b, c))
    ensures forall y :: topY <= y <= bottomY ==> 0 <= spanArray[2 * y] <= spanArray[2 * y + 1]
    ensures forall p :: InTriangle(a, b, c, p) ==>
              topY <= p.y <= bottomY && spanArray[2 * p.y] <= p.x <= spanArray[2 * p.y + 1]
  {
    topY, bottomY := Min3(a.y, b.y, c.y), Max3(a.y, b.y, c.y);
    ClearRows(spanArray, topY, bottomY);
    ScanEdges(a, b, spanArray, topY, bottomY, {});
    ghost var first := LeftToRight(a, b).Pixels();
    ScanEdges(b, c, spanArray, topY, bottomY, {} + first);
    ScanEdges(c, a, spanArray, topY, bottomY, {} + first + LeftToRight(b, c).Pixels());
    assert {} + first + LeftToRight(b, c).Pixels() + LeftToRight(c, a).Pixels() == Outline(a, b, c);
    SpansCover(a, b, c, spanArray, topY, bottomY);
  }

  method ClearRows(spanArray: array<int>, topY: int, bottomY: int)
    requires 0 <= topY <= bottomY && 2 * bottomY + 1 < spanArray.Length
    modifies spanArray
    ensures Spans(spanArray, topY, bottomY, {})
  {
    var i := topY;
    while i <= bottomY
      invariant topY <= i <= bottomY + 1
      invariant forall y :: topY <= y < i ==> RowSpans(spanArray[2 * y], spanArray[2 * y + 1], y, {})
    {
      spanArray[i * 2] := -1;
      spanArray[i * 2 + 1] := -1;
      i := i + 1;
    }
  }

  lemma SpansCover(a: Point, b: Point, c: Point, spanArray: array<int>, topY: int, bottomY: int)
    requires topY == Min3(a.y, b.y, c.y) && bottomY == Max3(a.y, b.y, c.y)
    requires Spans(spanArray, topY, bottomY, Outline(a, b, c))
    ensures forall y :: topY <= y <= bottomY ==> 0 <= spanArray[2 * y] <= spanArray[2 * y + 1]
    ensures forall p :: InTriangle(a, b, c, p) ==>
              topY <= p.y <= bottomY && spanArray[2 * p.y] <= p.x <= spanArray[2 * p.y + 1]
  {
    hide InTriangle, Outline;
    forall y | topY <= y <= bottomY
      ensures 0 <= spanArray[2 * y] <= spanArray[2 * y + 1]
    {
      var q := PixelInRow(a, b, c, y);
      assert RowSpans(spanArray[2 * y], spanArray[2 * y + 1], y, Outline(a, b, c));
    }
    forall p | InTriangle(a, b, c, p)
      ensures topY <= p.y <= bottomY && spanArray[2 * p.y] <= p.x <= spanArray[2 * p.y + 1]
    {
      InBounds(a, b, c, p);
      OutlineEncloses(a, b, c, p);
      assert RowSpans(spanArray[2 * p.y], spanArray[2 * p.y + 1], p.y, Outline(a, b, c));
    }
  }

  /** Every row between the corners has a pixel of the outline. */
  lemma PixelInRow(a: Point, b: Point, c: Point, y: int) returns (q: Point)
    requires Min3(a.y, b.y, c.y) <= y <= Max3(a.y, b.y, c.y)
    ensures q in Outline(a, b, c) && q.y == y
  {
    CornersVisited(a, b, c);
    if a.y == y {
      q := a;
    } else if b.y == y {
      q := b;
    } else if c.y == y {
      q := c;
    } else if Between(a.y, y, b.y) {
      q := Crossing(LeftToRight(a, b), y);
    } else {
      assert Between(b.y, y, c.y);
      q := Crossing(LeftToRight(b, c), y);
    }
  }
}
