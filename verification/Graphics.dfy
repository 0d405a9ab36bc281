/** Drawing into a 16-bit frame buffer: sloped lines and the overlap-safe block move. */
module Graphics {
  import opened Words
  import opened Line

  /** A 16-bit frame: for a pixel on the screen the byte address names one element of the picture. */
  class Frame {
    const width: nat
    const height: nat
    const mem: array2<nat>

    ghost predicate Valid()
      reads this, mem
    {
      && mem.Length0 == height && mem.Length1 == width
      && forall x, y :: 0 <= x < width && 0 <= y < height ==> mem[y, x] < TWO16
    }

    predicate OnScreen(x: int, y: int) { 0 <= x < width && 0 <= y < height }

    constructor (width: nat, height: nat)
      ensures Valid() && this.width == width && this.height == height && fresh(mem)
    {
      this.width, this.height := width, height;
      mem := new nat[height, width]((_, _) => 0);
    }

    method SetPixel(x: int, y: int, color: int)
      requires Valid() && OnScreen(x, y)
      modifies mem
      ensures Valid() && mem[y, x] == U16(color)
      ensures forall p, q :: OnScreen(p, q) && (p, q) != (x, y) ==> mem[q, p] == old(mem[q, p])
    {
      mem[y, x] := U16(color);
    }

    /** The pixel as a signed short. */
    method GetPixel(x: int, y: int) returns (color: int)
      requires Valid() && OnScreen(x, y)
      ensures U16(color) == mem[y, x]
    {
      color := I16(mem[y, x]);
    }

    /** Bresenham's algorithm with the coordinates in unsigned shorts; the step past the last pixel may wrap. */
    method DrawSlopedLine(horizStart: nat, vertStart: nat, horizEnd: nat, vertEnd: nat, color: int)
      requires Valid() && width <= TWO16 && height <= TWO16
      requires OnScreen(horizStart, vertStart) && OnScreen(horizEnd, vertEnd)
      modifies mem
      ensures Valid()
      ensures var l := Line(Point(horizStart, vertStart), Point(horizEnd, vertEnd));
              forall x, y :: OnScreen(x, y) ==>
                mem[y, x] == if Point(x, y) in l.Pixels() then U16(color) else old(mem[y, x])
    {
      ghost var l := Line(Point(horizStart, vertStart), Point(horizEnd, vertEnd));
      var horizDelta, vertDelta := Abs(horizEnd - horizStart), Abs(vertEnd - vertStart);
      var horizIncr := if horizStart > horizEnd then -1 else 1;
      var vertIncr := if vertStart > vertEnd then -1 else 1;
      if horizDelta >= vertDelta {
        DrawMajor(l, true, horizStart, vertStart, horizIncr, vertIncr, horizDelta, vertDelta, color);
      } else {
        DrawMajor(l, false, horizStart, vertStart, horizIncr, vertIncr, vertDelta, horizDelta, color);
      }
    }

    /** The loop over the major axis, which the C code writes out once for each axis. */
    method DrawMajor(ghost l: Line, horizontal: bool, horizStart: nat, vertStart: nat, horizIncr: int, vertIncr: int,
                     major: nat, minor: nat, color: int)
      requires Valid() && width <= TWO16 && height <= TWO16
      requires OnScreen(l.a.x, l.a.y) && OnScreen(l.b.x, l.b.y)
      requires l.a == Point(horizStart, vertStart)
      requires horizIncr == (if l.a.x > l.b.x then -1 else 1) && vertIncr == (if l.a.y > l.b.y then -1 else 1)
      requires horizontal == (l.Dx() >= l.Dy())
      requires (major, minor) == if horizontal then (l.Dx(), l.Dy()) else (l.Dy(), l.Dx())
      modifies mem
      ensures Valid()
      ensures forall x, y :: OnScreen(x, y) ==>
                mem[y, x] == if Point(x, y) in l.Pixels() then U16(color) else old(mem[y, x])
    {
      hide Minor, Error, Drawn, Line.At, Line.Pixels;
      var dPr := minor * 2;
      var dPru := dPr - major * 2;
      var P := dPr - major;
      var horiz, vert, delta: int := horizStart, vertStart, major;
      ghost var i: nat := 0;
      Start(l, major, minor);
      while delta >= 0
        invariant delta == major - i && Valid() && i <= major + 1
        invariant i <= major ==> Point(horiz, vert) == l.At(i)
        invariant 0 < major && i <= major ==> P == Error(major, minor, i, Minor(major, minor, i)) + 2 * minor - major
        invariant forall x, y :: OnScreen(x, y) ==>
                    mem[y, x] == if Drawn(l, i, Point(x, y)) then U16(color) else old(mem[y, x])
        decreases delta
      {
        InBox(l, i);
        SetPixel(horiz, vert, color);
        DrawnStep(l, i);
        if i < major {
          NextPixel(major, minor, i, Minor(major, minor, i), P);
          NextPoint(l, i);
          InBox(l, i + 1);
        }
        if P > 0 {
          horiz := U16(horiz + horizIncr);
          vert := U16(vert + vertIncr);
          P := P + dPru;
        } else {
          if horizontal {
            horiz := U16(horiz + horizIncr);
          } else {
            vert := U16(vert + vertIncr);
          }
          P := P + dPr;
        }
        delta := delta - 1;
        i := i + 1;
      }
      AllDrawn(l);
    }

    /** The picture, row by row. */
    ghost function Picture(): (p: seq<seq<nat>>)
      requires Valid()
      reads this, mem
      ensures |p| == height && forall y :: 0 <= y < height ==> |p[y]| == width
      ensures forall x, y :: OnScreen(x, y) ==> p[y][x] == mem[y, x]
    {
      seq(height, y requires 0 <= y < height && mem.Length0 == height && mem.Length1 == width reads this, mem =>
        seq(width, x requires 0 <= x < width && 0 <= y < height && mem.Length0 == height && mem.Length1 == width
                     reads this, mem => mem[y, x]))
    }

    /** How far a block move has got: the scan stands at (readX, readY). */
    ghost predicate MovedTo(b: Block, readX: int, readY: int, before: seq<seq<nat>>)
      requires |before| == height && forall y :: 0 <= y < height ==> |before[y]| == width
      requires mem.Length0 == height && mem.Length1 == width && b.Inside(width, height)
      reads mem
    {
      forall x, y :: OnScreen(x, y) ==> mem[y, x] == b.Pixel(readX, readY, before, x, y)
    }

    method MovePixel(b: Block, readX: int, readY: int, backfill: int, ghost before: seq<seq<nat>>)
      requires Valid() && b.Inside(width, height) && b.Covers(readX, readY) && U16(backfill) == b.fill
      requires |before| == height && forall y :: 0 <= y < height ==> |before[y]| == width
      requires MovedTo(b, readX, readY, before)
      modifies mem
      ensures Valid() && MovedTo(b, readX + 1, readY, before)
    {
      var tempPixel := GetPixel(readX, readY);
      SetPixel(readX + b.dx, readY + b.dy, tempPixel);
      if readX >= b.xend + b.dx || readY >= b.yend + b.dy {
        SetPixel(readX, readY, backfill);
      }
    }

    /** The inner loop: one row of the block. */
    method MoveRow(b: Block, readY: int, backfill: int, ghost before: seq<seq<nat>>)
      requires Valid() && b.Inside(width, height) && b.ybegin <= readY < b.yend && U16(backfill) == b.fill
      requires |before| == height && forall y :: 0 <= y < height ==> |before[y]| == width
      requires MovedTo(b, b.xbegin, readY, before)
      modifies mem
      ensures Valid() && MovedTo(b, b.xbegin, readY + 1, before)
    {
      var readX := b.xbegin;
      while readX < b.xend
        invariant b.xbegin <= readX && (b.xbegin < b.xend ==> readX <= b.xend) && Valid()
        invariant MovedTo(b, readX, readY, before)
      {
        MovePixel(b, readX, readY, backfill, before);
        readX := readX + 1;
      }
    }

    /** vid_move_block. Only moves up and to the left are carried out; the pixels of the old place that the new
        one does not cover are filled. */
    method MoveBlock(xbegin: int, ybegin: int, xend: int, yend: int, xDistance: int, yDistance: int, backfill: int)
      requires Valid()
      requires xDistance <= 0 && yDistance <= 0 && xbegin < xend && ybegin < yend ==>
                 0 <= xbegin + xDistance && xend <= width && 0 <= ybegin + yDistance && yend <= height
      modifies mem
      ensures Valid()
      ensures xDistance > 0 || yDistance > 0 ==> forall x, y :: OnScreen(x, y) ==> mem[y, x] == old(mem[y, x])
      ensures xDistance <= 0 && yDistance <= 0 ==>
                forall x, y :: OnScreen(x, y) ==>
                  if xbegin <= x - xDistance < xend && ybegin <= y - yDistance < yend then
                    mem[y, x] == old(mem[y - yDistance, x - xDistance])
                  else if xbegin <= x < xend && ybegin <= y < yend then mem[y, x] == U16(backfill)
                  else mem[y, x] == old(mem[y, x])
    {
      ghost var before := Picture();
      if xDistance <= 0 && yDistance <= 0 {
        MoveRows(Block(xbegin, ybegin, xend, yend, xDistance, yDistance, U16(backfill)), backfill, before);
      }
    }

    /** The outer loop: all rows of the block. */
    method MoveRows(b: Block, backfill: int, ghost before: seq<seq<nat>>)
      requires Valid() && b.Inside(width, height) && U16(backfill) == b.fill
      requires |before| == height && forall y :: 0 <= y < height ==> |before[y]| == width
      requires forall x, y :: OnScreen(x, y) ==> mem[y, x] == before[y][x]
      modifies mem
      ensures Valid() && forall x, y :: OnScreen(x, y) ==> mem[y, x] == b.Final(before, x, y)
    {
      hide Block.Pixel;
      forall x, y | OnScreen(x, y)
        ensures mem[y, x] == b.Pixel(b.xbegin, b.ybegin, before, x, y)
      {
        PixelStart(b, before, x, y);
      }
      var readY := b.ybegin;
      while readY < b.yend
        invariant b.ybegin <= readY && (b.ybegin < b.yend ==> readY <= b.yend) && Valid()
        invariant MovedTo(b, b.xbegin, readY, before)
      {
        MoveRow(b, readY, backfill, before);
        readY := readY + 1;
      }
      forall x, y | OnScreen(x, y)
        ensures mem[y, x] == b.Final(before, x, y)
      {
        PixelDone(b, readY, before, x, y);
      }
    }
  }

  /** A block of the picture, the distance it is moved by and the colour left behind. */
  datatype Block = Block(xbegin: int, ybegin: int, xend: int, yend: int, dx: int, dy: int, fill: nat) {
    predicate Covers(x: int, y: int) { xbegin <= x < xend && ybegin <= y < yend }

    /** Moving up and to the left, with source and destination on the screen. */
    predicate Inside(width: nat, height: nat) {
      && dx <= 0 && dy <= 0
      && (xbegin < xend && ybegin < yend ==> 0 <= xbegin + dx && xend <= width && 0 <= ybegin + dy && yend <= height)
    }

    /** The scan has passed pixel (x, y) of the block when it stands at (readX, readY). */
    predicate Passed(readX: int, readY: int, x: int, y: int) {
      Covers(x, y) && (y < readY || (y == readY && x < readX))
    }

    /** Pixel (x, y) of the picture when the scan stands at (readX, readY). */
    function Pixel(readX: int, readY: int, before: seq<seq<nat>>, x: int, y: int): nat
      requires 0 <= y < |before| && 0 <= x < |before[y]| && Inside(|before[y]|, |before|)
      requires forall v :: 0 <= v < |before| ==> |before[v]| == |before[y]|
    {
      if Passed(readX, readY, x - dx, y - dy) then before[y - dy][x - dx]
      else if Passed(readX, readY, x, y) && !Covers(x - dx, y - dy) then fill
      else before[y][x]
    }

    /** Pixel (x, y) after the move. */
    function Final(before: seq<seq<nat>>, x: int, y: int): nat
      requires 0 <= y < |before| && 0 <= x < |before[y]| && Inside(|before[y]|, |before|)
      requires forall v :: 0 <= v < |before| ==> |before[v]| == |before[y]|
    {
      if Covers(x - dx, y - dy) then before[y - dy][x - dx]
      else if Covers(x, y) then fill
      else before[y][x]
    }
  }

  lemma PixelStart(b: Block, before: seq<seq<nat>>, x: int, y: int)
    requires 0 <= y < |before| && 0 <= x < |before[y]| && b.Inside(|before[y]|, |before|)
    requires forall v :: 0 <= v < |before| ==> |before[v]| == |before[y]|
    ensures b.Pixel(b.xbegin, b.ybegin, before, x, y) == before[y][x]
  {
  }

  lemma PixelDone(b: Block, readY: int, before: seq<seq<nat>>, x: int, y: int)
    requires 0 <= y < |before| && 0 <= x < |before[y]| && b.Inside(|before[y]|, |before|)
    requires (forall v :: 0 <= v < |before| ==> |before[v]| == |before[y]|) && readY >= b.yend
    ensures b.Pixel(b.xbegin, readY, before, x, y) == b.Final(before, x, y)
  {
  }

  lemma Start(l: Line, major: nat, minor: nat)
    requires minor <= major
    ensures l.At(0) == l.a && l.At(l.Steps()) == l.b && Minor(major, minor, 0) == 0 && Error(major, minor, 0, 0) == 0
    ensures forall p :: !Drawn(l, 0, p)
  {
    EndPoints(l);
    MinorAtEnds(major, minor);
  }

  /** The pixel is one of the first n of the line. */
  ghost predicate Drawn(l: Line, n: nat, p: Point) {
    exists i :: 0 <= i < n && l.At(i) == p
  }

  lemma DrawnStep(l: Line, n: nat)
    ensures forall p :: Drawn(l, n + 1, p) <==> Drawn(l, n, p) || p == l.At(n)
  {
  }

  lemma AllDrawn(l: Line)
    ensures forall p :: Drawn(l, l.Steps() + 1, p) <==> p in l.Pixels()
  {
  }
}
