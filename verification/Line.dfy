/** Straight lines on the pixel grid: the pixels Bresenham's algorithm visits, in closed form. */
module Line {

  datatype Point = Point(x: int, y: int)

  function Abs(a: int): (n: nat)
    ensures n == a || n == -a
  {
    if a < 0 then -a else a
  }

  /** i steps from a in the direction of b. */
  function Toward(a: int, b: int, i: nat): int { if a > b then a - i else a + i }

  /** From end point a to end point b. */
  datatype Line = Line(a: Point, b: Point) {
    function Dx(): nat { Abs(b.x - a.x) }

    function Dy(): nat { Abs(b.y - a.y) }

    /** The number of steps: the extent along the major axis. */
    function Steps(): nat { if Dx() >= Dy() then Dx() else Dy() }

    /** Pixel number i of the line. */
    function At(i: nat): Point {
      if Dx() >= Dy() then Point(Toward(a.x, b.x, i), Toward(a.y, b.y, Minor(Dx(), Dy(), i)))
      else Point(Toward(a.x, b.x, Minor(Dy(), Dx(), i)), Toward(a.y, b.y, i))
    }

    ghost function Pixels(): set<Point> {
      set i | 0 <= i <= Steps() :: At(i)
    }
  }

  /** Steps along the minor axis after i steps along the major one: the exact minor coordinate minor * i / major,
      rounded to the nearest integer, halves downwards. */
  function Minor(major: nat, minor: nat, i: nat): nat {
    if major == 0 then 0 else (2 * (minor * i) + major - 1) / (2 * major)
  }

  /** Twice the distance, times the extent of the major axis, from minor coordinate j to the exact line. */
  function Error(major: nat, minor: nat, i: nat, j: nat): int {
    2 * (minor * i) - 2 * (major * j)
  }

  predicate WithinHalf(major: int, error: int) {
    -major < error <= major
  }

  /** With the larger quotient, a remainder below the divisor never makes up for the difference. */
  lemma QuotientOrder(d: nat, p: int, r: int, q: int, t: int)
    requires d > 0 && 0 <= r < d && 0 <= t < d && p * d + r <= q * d + t
    ensures p <= q
  {
    assert (p - q - 1) * d == p * d - q * d - d;
  }

  lemma Division(n: int, d: nat)
    requires d > 0
    ensures n == n / d * d + n % d && 0 <= n % d < d
  {
  }

  lemma QuotientUnique(n: int, d: nat, q: int)
    requires d > 0 && q * d <= n < q * d + d
    ensures n / d == q
  {
    Division(n, d);
    QuotientOrder(d, n / d, n % d, q, n - q * d);
    QuotientOrder(d, q, n - q * d, n / d, n % d);
  }

  /** Minor is within half a pixel of the exact line, and it is the only coordinate that is. */
  lemma NearestPixel(major: nat, minor: nat, i: nat, j: nat)
    requires major > 0
    ensures WithinHalf(major, Error(major, minor, i, j)) <==> j == Minor(major, minor, i)
  {
    var n, d := 2 * (minor * i) + major - 1, 2 * major;
    assert j * d == 2 * (major * j);
    if WithinHalf(major, Error(major, minor, i, j)) {
      QuotientUnique(n, d, j);
    }
    var m := n / d;
    Division(n, d);
    assert m * d == 2 * (major * m);
  }

  lemma MinorAtEnds(major: nat, minor: nat)
    requires minor <= major
    ensures Minor(major, minor, 0) == 0 && Minor(major, minor, major) == minor
  {
    if major > 0 {
      NearestPixel(major, minor, 0, 0);
      assert minor * major == major * minor;
      NearestPixel(major, minor, major, minor);
    }
  }

  lemma MinorGrows(major: nat, minor: nat, i: nat, k: nat)
    requires i <= k <= major && minor <= major
    ensures Minor(major, minor, i) <= Minor(major, minor, k) <= minor
  {
    if major > 0 {
      MinorAtEnds(major, minor);
      ProductGrows(minor, i, k);
      ProductGrows(minor, k, major);
      QuotientGrows(2 * (minor * i) + major - 1, 2 * (minor * k) + major - 1, 2 * major);
      QuotientGrows(2 * (minor * k) + major - 1, 2 * (minor * major) + major - 1, 2 * major);
    }
  }

  lemma ProductGrows(a: nat, i: int, k: int)
    requires i <= k
    ensures a * i <= a * k
  {
  }

  lemma QuotientGrows(m: int, n: int, d: nat)
    requires m <= n && d > 0
    ensures m / d <= n / d
  {
    Division(m, d);
    Division(n, d);
    QuotientOrder(d, m / d, m % d, n / d, n % d);
  }

  /** Both end points are visited, the last pixel is the end point, and every pixel lies in their box. */
  lemma EndPoints(l: Line)
    ensures l.At(0) == l.a && l.At(l.Steps()) == l.b
    ensures l.a in l.Pixels() && l.b in l.Pixels()
  {
    if l.Dx() >= l.Dy() { MinorAtEnds(l.Dx(), l.Dy()); } else { MinorAtEnds(l.Dy(), l.Dx()); }
  }

  predicate Between(a: int, v: int, b: int) { a <= v <= b || b <= v <= a }

  lemma InBox(l: Line, i: nat)
    requires i <= l.Steps()
    ensures Between(l.a.x, l.At(i).x, l.b.x) && Between(l.a.y, l.At(i).y, l.b.y)
  {
    if l.Dx() >= l.Dy() { MinorGrows(l.Dx(), l.Dy(), i, i); } else { MinorGrows(l.Dy(), l.Dx(), i, i); }
  }

  /** The pixels are Steps() + 1 different ones. */
  lemma PixelsDistinct(l: Line, i: nat, k: nat)
    requires i < k <= l.Steps()
    ensures l.At(i) != l.At(k)
  {
  }

  /** The decision variable P tells whether the next pixel moves along the minor axis too. */
  lemma NextPixel(major: nat, minor: nat, i: nat, j: nat, p: int)
    requires minor <= major && 0 < major && j == Minor(major, minor, i)
    requires p == Error(major, minor, i, j) + 2 * minor - major
    ensures var j' := if p > 0 then j + 1 else j;
            && Minor(major, minor, i + 1) == j'
            && Error(major, minor, i + 1, j') == Error(major, minor, i, j) + 2 * minor - (if p > 0 then 2 * major else 0)
  {
    NearestPixel(major, minor, i, j);
    assert minor * (i + 1) == minor * i + minor && major * (j + 1) == major * j + major;
    NearestPixel(major, minor, i + 1, if p > 0 then j + 1 else j);
  }

  /** One step along the major axis moves the point by one, and by one along the minor axis if Minor grows. */
  lemma NextPoint(l: Line, i: nat)
    ensures var dx, dy := if l.a.x > l.b.x then -1 else 1, if l.a.y > l.b.y then -1 else 1;
            && (l.Dx() >= l.Dy() && Minor(l.Dx(), l.Dy(), i + 1) == Minor(l.Dx(), l.Dy(), i) ==>
                  l.At(i + 1) == Point(l.At(i).x + dx, l.At(i).y))
            && (l.Dx() >= l.Dy() && Minor(l.Dx(), l.Dy(), i + 1) == Minor(l.Dx(), l.Dy(), i) + 1 ==>
                  l.At(i + 1) == Point(l.At(i).x + dx, l.At(i).y + dy))
            && (l.Dx() < l.Dy() && Minor(l.Dy(), l.Dx(), i + 1) == Minor(l.Dy(), l.Dx(), i) ==>
                  l.At(i + 1) == Point(l.At(i).x, l.At(i).y + dy))
            && (l.Dx() < l.Dy() && Minor(l.Dy(), l.Dx(), i + 1) == Minor(l.Dy(), l.Dx(), i) + 1 ==>
                  l.At(i + 1) == Point(l.At(i).x + dx, l.At(i).y + dy))
  {
    hide Minor;
  }

  /** The pixels of a line are exactly the points of its box that lie within half a pixel of the exact line,
      measured along the minor axis (an exact half counts only on the side of the start). */
  lemma PixelsAreNearest(l: Line, p: Point)
    requires l.a != l.b
    ensures p in l.Pixels() <==>
              && Between(l.a.x, p.x, l.b.x) && Between(l.a.y, p.y, l.b.y)
              && var u, v := Abs(p.x - l.a.x), Abs(p.y - l.a.y);
                 if l.Dx() >= l.Dy() then WithinHalf(l.Dx(), Error(l.Dx(), l.Dy(), u, v))
                 else WithinHalf(l.Dy(), Error(l.Dy(), l.Dx(), v, u))
  {
    hide Minor, Error;
    var horizontal := l.Dx() >= l.Dy();
    var i := if horizontal then Abs(p.x - l.a.x) else Abs(p.y - l.a.y);
    var j := if horizontal then Abs(p.y - l.a.y) else Abs(p.x - l.a.x);
    NearestPixel(l.Steps(), if horizontal then l.Dy() else l.Dx(), i, j);
    if p in l.Pixels() {
      var k :| 0 <= k <= l.Steps() && l.At(k) == p;
      InBox(l, k);
      assert k == i;
    } else if i <= l.Steps() {
      assert l.At(i) in l.Pixels();
    }
  }

  /** The same, written out: twice the distance from the exact line, times the extent of the major axis, against
      that extent. */
  lemma PixelsByDistance(l: Line, p: Point, dx: nat, dy: nat, u: nat, v: nat)
    requires l.a != l.b && (dx == l.b.x - l.a.x || dx == l.a.x - l.b.x) && (dy == l.b.y - l.a.y || dy == l.a.y - l.b.y)
    requires (u == p.x - l.a.x || u == l.a.x - p.x) && (v == p.y - l.a.y || v == l.a.y - p.y)
    ensures p in l.Pixels() <==>
              && (l.a.x <= p.x <= l.b.x || l.b.x <= p.x <= l.a.x) && (l.a.y <= p.y <= l.b.y || l.b.y <= p.y <= l.a.y)
              && if dx >= dy then 0 - dx < 2 * (dy * u) - 2 * (dx * v) <= dx else 0 - dy < 2 * (dx * v) - 2 * (dy * u) <= dy
  {
    PixelsAreNearest(l, p);
  }

  /** The first and last pixel are the end points, and the line has Steps() + 1 pixels. */
  lemma PixelCount(l: Line)
    ensures |l.Pixels()| == l.Steps() + 1
  {
    CountPrefix(l, l.Steps() + 1);
    assert l.Pixels() == set i | 0 <= i < l.Steps() + 1 :: l.At(i);
  }

  lemma {:induction false} CountPrefix(l: Line, n: nat)
    requires n <= l.Steps() + 1
    ensures |set i | 0 <= i < n :: l.At(i)| == n
  {
    if n > 0 {
      CountPrefix(l, n - 1);
      var front := set i | 0 <= i < n - 1 :: l.At(i);
      assert (set i | 0 <= i < n :: l.At(i)) == front + {l.At(n - 1)};
      forall i | 0 <= i < n - 1 ensures l.At(i) != l.At(n - 1) {
        PixelsDistinct(l, i, n - 1);
      }
    }
  }
}
