/** window_put_pixel and window_draw_line in their own form: 32-bit integers and a pixel buffer, taken
    from the kernel heap, that is written in place. */
module LineCode {
  import opened Integers
  import opened Line
  import opened LineOverflow
  import opened PixelBuffer
  import opened WindowMemory
  import KernelHeap
  import KernelHeapCode
  import Windows

  type Color = x: int | 0 <= x < 256

  /** The point of the walk after `n` turns, for a line from (x0, y0) to (x1, y1). */
  function PointAt(x0: int, y0: int, x1: int, y1: int, n: nat): Point {
    var w := After(Abs(x1 - x0), Abs(y1 - y0), n);
    Point(Toward(x0, x1, w.i), Toward(y0, y1, w.j))
  }

  function Abs(x: int): int { if x < 0 then -x else x }

  /** `k` steps from `a` in the direction of `b`. */
  function Toward(a: int, b: int, k: int): int { if a < b then a + k else a - k }

  function Extent(x0: int, y0: int, x1: int, y1: int): int { Max(Abs(x1 - x0), Abs(y1 - y0)) }

  /** The line's points in drawing order. */
  function Points(x0: int, y0: int, x1: int, y1: int): (ps: seq<Point>)
    ensures |ps| == Extent(x0, y0, x1, y1) + 1
  {
    seq(Extent(x0, y0, x1, y1) + 1, n requires n >= 0 => PointAt(x0, y0, x1, y1, n))
  }

  // ----- pixels -----

  /** The points inside the window have their bytes in a buffer of `size` bytes. */
  ghost predicate PointsLand(ps: seq<Point>, width: nat, height: nat, size: nat) {
    forall p :: p in ps && Inside(p, width, height) ==> PixelIndex(p, width) < size
  }

  /** The buffer after a pixel: points outside the window do nothing. */
  function Put(buf: seq<Color>, width: nat, height: nat, p: Point, color: Color): (r: seq<Color>)
    requires Inside(p, width, height) ==> PixelIndex(p, width) < |buf|
    ensures |r| == |buf|
  {
    if Inside(p, width, height) then buf[PixelIndex(p, width) := color] else buf
  }

  ghost function PutAll(buf: seq<Color>, width: nat, height: nat, ps: seq<Point>, color: Color): (r: seq<Color>)
    requires PointsLand(ps, width, height, |buf|)
    ensures |r| == |buf|
  {
    if ps == [] then buf else Put(PutAll(buf, width, height, ps[..|ps| - 1], color), width, height, ps[|ps| - 1], color)
  }

  /** A pixel has the colour exactly when a point inside the window lies on it or it had before,
      and keeps its old one else. */
  lemma {:induction false} PutAllIs(buf: seq<Color>, width: nat, height: nat, ps: seq<Point>, color: Color, k: nat)
    requires PointsLand(ps, width, height, |buf|) && k < |buf|
    ensures PutAll(buf, width, height, ps, color)[k]
      == if exists p :: p in ps && Inside(p, width, height) && PixelIndex(p, width) == k then color else buf[k]
    decreases |ps|
  {
    hide PixelIndex;
    if ps != [] {
      var p := ps[|ps| - 1];
      PutAllIs(buf, width, height, ps[..|ps| - 1], color, k);
      assert ps == ps[..|ps| - 1] + [p];
    }
  }

  /** Where the buffer fits and the heap has it, points of whatever 32-bit coordinates land in it, and
      up to a width of 2^31 the header rows keep their bytes. */
  lemma HeaderRowsAreKept(bs: seq<KernelHeap.Block>, buf: seq<Color>, width: uint32, height: uint32,
                          ps: seq<Point>, color: Color, k: nat)
    requires KernelHeap.Inv(bs) && |buf| == BytesOf(Buffer(bs, width, height), width, height)
    requires BufferFits(width, height) && HasRoom(bs, BufferSize(width, height))
    requires forall p :: p in ps ==> Int32(p.x) && Int32(p.y)
    ensures PointsLand(ps, width, height, |buf|)
    ensures width <= TWO_31 && k < |buf| && k < U32(Windows.HEADER_OFFSET * width) ==>
      PutAll(buf, width, height, ps, color)[k] == buf[k]
  {
    hide PixelIndex, BufferSize, KernelHeap.MallocResult;
    AllLandExactlyWhen(width, height);
    BufferExactlyWhen(bs, width, height);
    forall p | p in ps && Inside(p, width, height)
      ensures PixelIndex(p, width) < |buf|
    {
      LandingNeedsBytes(p, width, height);
    }
    if width <= TWO_31 && k < |buf| && k < U32(Windows.HEADER_OFFSET * width) {
      PutAllIs(buf, width, height, ps, color, k);
      forall p | p in ps && Inside(p, width, height)
        ensures PixelIndex(p, width) != k
      {
        UnwrappedLands(p, width, height);
      }
    }
  }

  // ----- the line -----

  /** A line has max(dx, dy) + 1 points, starts and ends where it should, and is at its target
      only at the end. */
  lemma LineEnds(x0: int, y0: int, x1: int, y1: int, n: nat)
    requires n <= Extent(x0, y0, x1, y1)
    ensures var ps := Points(x0, y0, x1, y1);
      && |ps| == Max(Abs(x1 - x0), Abs(y1 - y0)) + 1
      && ps[0] == Point(x0, y0)
      && (ps[n] == Point(x1, y1) <==> n == |ps| - 1)
  {
    hide After;
    var dx, dy := Abs(x1 - x0), Abs(y1 - y0);
    NoTurnsYet(dx, dy);
    ReachesTheTarget(dx, dy, n);
    ReachesTheTarget(dx, dy, Max(dx, dy));
  }

  /** Point `n` is reached by steps towards the target, and lies within half a pixel of the ideal
      line: its distance from it, times the longer extent, is at most half that extent. */
  lemma PointIsNear(x0: int, y0: int, x1: int, y1: int, n: nat)
    requires n <= Extent(x0, y0, x1, y1)
    ensures var dx, dy := Abs(x1 - x0), Abs(y1 - y0);
      var w := After(dx, dy, n);
      && Points(x0, y0, x1, y1)[n] == Point(Toward(x0, x1, w.i), Toward(y0, y1, w.j))
      && 0 <= w.i <= dx && 0 <= w.j <= dy
      && (dx >= dy ==> w.i == n && Abs(2 * (w.j * dx - n * dy)) <= dx)
      && (dx < dy ==> w.j == n && Abs(2 * (w.i * dy - n * dx)) <= dy)
  {
    var dx, dy := Abs(x1 - x0), Abs(y1 - y0);
    hide After;
    NoTurnsYet(dx, dy);
    ReachesTheTarget(dx, dy, n);
    if Max(dx, dy) > 0 {
      WalkIsNearTheLine(dx, dy, n);
      NearMeans(dx, dy, n, After(dx, dy, n));
    }
  }

  lemma NearMeans(dx: int, dy: int, n: nat, w: Walk)
    requires NearLine(dx, dy, n, w)
    ensures dx >= dy ==> w.i == n && Abs(2 * (w.j * dx - n * dy)) <= dx
    ensures dx < dy ==> w.j == n && Abs(2 * (w.i * dy - n * dx)) <= dy
  {
  }

  // ----- the code -----

  class WindowBuffer {
    const width: uint32
    const height: uint32
    const buffer: nat
    const pixels: array<Color>

    /** The buffer of wm_create_window: its size is computed in 32 bits, and kmalloc may have no such
        block, in which case the pointer is NULL and the window has no bytes of its own. */
    constructor (heap: KernelHeapCode.Heap, width: uint32, height: uint32)
      requires heap.Valid() && KernelHeap.Inv(heap.Blocks())
      modifies heap
      ensures Valid() && fresh(pixels) && this.width == width && this.height == height
      ensures buffer == Buffer(old(heap.Blocks()), width, height)
      ensures heap.Valid() && heap.Blocks() == KernelHeap.Malloc(old(heap.Blocks()), BufferSize(width, height))
      ensures forall k :: 0 <= k < pixels.Length ==> pixels[k] == 0
    {
      this.width, this.height := width, height;
      var size := BufferSize(width, height);
      var ptr := heap.Kmalloc(size);
      buffer := ptr;
      pixels := new Color[BytesOf(ptr, width, height)](_ => 0);
    }

    predicate Valid() { pixels.Length == BytesOf(buffer, width, height) }

    /** window_put_pixel, for a point whose byte is in the buffer if it is inside the window. */
    method PutPixel(x: int32, y: int32, color: Color)
      requires Valid()
      requires PointsLand([Point(x as int, y as int)], width, height, pixels.Length)
      modifies pixels
      ensures pixels[..] == Put(old(pixels[..]), width, height, Point(x as int, y as int), color)
    {
      if x < 0 || x as int >= width || y < 0 || y as int >= height {
        return;
      }
      assert Point(x as int, y as int) in [Point(x as int, y as int)];
      pixels[U32((y as int + Windows.HEADER_OFFSET) * width + x as int)] := color;
    }

    /** window_draw_line, for every line that its 32-bit arithmetic can draw. */
    method DrawLine(xStart: int32, yStart: int32, x1: int32, y1: int32, color: Color) returns (ghost turns: nat)
      requires Valid() && NoOverflow(Abs(x1 as int - xStart as int), Abs(y1 as int - yStart as int))
      requires PointsLand(Points(xStart as int, yStart as int, x1 as int, y1 as int), width, height, pixels.Length)
      modifies pixels
      ensures pixels[..] == PutAll(old(pixels[..]), width, height,
                                   Points(xStart as int, yStart as int, x1 as int, y1 as int), color)
      ensures turns == Extent(xStart as int, yStart as int, x1 as int, y1 as int)
    {
      assert Extent(xStart as int, yStart as int, x1 as int, y1 as int) >= 0;
      assert Int32(Abs(x1 as int - xStart as int)) && Int32(Abs(y1 as int - yStart as int));
      hide PutAll, After, Drawn, Points, Max, TurnFits, NoOverflow;
      var x0, y0 := xStart, yStart;
      var dx := if x1 - x0 < 0 then -(x1 - x0) else x1 - x0;
      var dy := if y1 - y0 < 0 then -(y1 - y0) else y1 - y0;
      var sx: int32 := if x0 < x1 then 1 else -1;
      var sy: int32 := if y0 < y1 then 1 else -1;
      var error := dx - dy;
      ghost var a, b, c, d := xStart as int, yStart as int, x1 as int, y1 as int;
      ghost var ps, before := Points(a, b, c, d), pixels[..];
      turns := 0;
      NoTurnsYet(dx as int, dy as int);
      LineEnds(a, b, c, d, 0);
      NothingDrawn(ps, color);
      assert dx as int == Abs(c - a) && dy as int == Abs(d - b);
      hide Extent;
      while true
        invariant turns < |ps| == Extent(a, b, c, d) + 1
        invariant ps[turns] == Point(x0 as int, y0 as int) && error as int == After(dx as int, dy as int, turns).e
        invariant Drawn(before, ps, turns, color)
        decreases |ps| - turns
      {
        PutNext(before, ps, turns, x0, y0, color);
        LineEnds(a, b, c, d, turns);
        if x0 == x1 && y0 == y1 {
          break;
        }
        x0, y0, error := Turn(Point(a, b), Point(c, d), turns, x0, y0, error, dx, dy, sx, sy);
        turns := turns + 1;
      }
      AllDrawn(before, ps, color);
    }

    /** The first `n` points are drawn. */
    ghost predicate Drawn(before: seq<Color>, ps: seq<Point>, n: nat, color: Color)
      reads pixels
    {
      && Valid() && |before| == pixels.Length && n <= |ps|
      && PointsLand(ps, width, height, pixels.Length)
      && pixels[..] == PutAll(before, width, height, ps[..n], color)
    }

    lemma NothingDrawn(ps: seq<Point>, color: Color)
      requires Valid() && PointsLand(ps, width, height, pixels.Length)
      ensures Drawn(pixels[..], ps, 0, color)
    {
    }

    lemma AllDrawn(before: seq<Color>, ps: seq<Point>, color: Color)
      requires Drawn(before, ps, |ps|, color)
      ensures pixels[..] == PutAll(before, width, height, ps, color)
    {
      assert ps[..|ps|] == ps;
    }

    /** The start of the loop's body. */
    method PutNext(ghost before: seq<Color>, ghost ps: seq<Point>, ghost n: nat, x: int32, y: int32, color: Color)
      requires Drawn(before, ps, n, color) && n < |ps| && ps[n] == Point(x as int, y as int)
      modifies pixels
      ensures Drawn(before, ps, n + 1, color)
    {
      hide PixelIndex, BufferSize;
      assert ps[..n + 1][..n] == ps[..n];
      PutPixel(x, y, color);
    }

    /** The end of the loop's body. */
    static method Turn(ghost from: Point, ghost to: Point, ghost n: nat, x: int32, y: int32, e: int32,
                       dx: int32, dy: int32, sx: int32, sy: int32)
      returns (x0: int32, y0: int32, error: int32)
      requires Int32(from.x) && Int32(from.y) && Int32(to.x) && Int32(to.y) && n < Extent(from.x, from.y, to.x, to.y)
      requires dx as int == Abs(to.x - from.x) && dy as int == Abs(to.y - from.y) && NoOverflow(dx as int, dy as int)
      requires sx as int == Toward(from.x, to.x, 1) - from.x && sy as int == Toward(from.y, to.y, 1) - from.y
      requires Points(from.x, from.y, to.x, to.y)[n] == Point(x as int, y as int)
      requires e as int == After(dx as int, dy as int, n).e
      ensures Points(from.x, from.y, to.x, to.y)[n + 1] == Point(x0 as int, y0 as int)
      ensures error as int == After(dx as int, dy as int, n + 1).e
    {
      hide NoOverflow, After, Extent, Points, Toward;
      NextTurn(from.x, from.y, to.x, to.y, n);
      x0, y0, error := x, y, e;
      var error2 := 2 * error;
      if error2 > -dy {
        error := error - dy;
        x0 := x0 + sx;
      }
      if error2 < dx {
        error := error + dx;
        y0 := y0 + sy;
      }
    }
  }

  /** One turn, as the code makes it. */
  lemma NextTurn(x0: int, y0: int, x1: int, y1: int, n: nat)
    requires n < Extent(x0, y0, x1, y1) && NoOverflow(Abs(x1 - x0), Abs(y1 - y0))
    ensures var dx, dy, ps := Abs(x1 - x0), Abs(y1 - y0), Points(x0, y0, x1, y1);
      var p, q := ps[n], ps[n + 1];
      var e := After(dx, dy, n).e;
      && TurnFits(dx, dy, e)
      && q.x == (if 2 * e > -dy then Toward(x0, x1, 1) - x0 + p.x else p.x)
      && q.y == (if 2 * e < dx then Toward(y0, y1, 1) - y0 + p.y else p.y)
      && After(dx, dy, n + 1).e == e - (if 2 * e > -dy then dy else 0) + (if 2 * e < dx then dx else 0)
      && Between(x0, q.x, x1) && Between(y0, q.y, y1)
  {
    var dx, dy := Abs(x1 - x0), Abs(y1 - y0);
    assert After(dx, dy, n + 1) == Step(dx, dy, After(dx, dy, n));
    hide After, TurnFits;
    ReachesTheTarget(dx, dy, n + 1);
  }

  predicate Between(a: int, k: int, b: int) { a <= k <= b || b <= k <= a }
}
