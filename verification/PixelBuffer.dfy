/** The pixel buffer of a window: its size and the index of a pixel are computed in 32 bits. */
module PixelBuffer {
  import opened Integers
  import opened Windows

  datatype Point = Point(x: int, y: int)

  predicate Inside(p: Point, width: nat, height: nat) { 0 <= p.x < width && 0 <= p.y < height }

  /** The number of bytes that wm_create_window allocates. */
  function BufferSize(width: nat, height: nat): nat { U32(width * (height + HEADER_OFFSET)) }

  /** The byte that window_put_pixel writes. */
  function PixelIndex(p: Point, width: nat): nat { U32((p.y + HEADER_OFFSET) * width + p.x) }

  /** Every point with 32-bit coordinates that lies inside the window has its byte in the buffer. */
  ghost predicate AllLand(width: nat, height: nat) {
    forall p: Point :: Int32(p.x) && Int32(p.y) && Inside(p, width, height) ==> Lands(p, width, height)
  }

  predicate Lands(p: Point, width: nat, height: nat) { PixelIndex(p, width) < BufferSize(width, height) }

  /** What a caller can check: up to a width of 2^31, that the header rows wrap around as often as
      the whole buffer; beyond, where each row moves the index back by 2^32 - width bytes, that
      the last row just wraps and that all rows together move it back by no more than 2^31. */
  predicate BufferFits(width: nat, height: nat) {
    if width == 0 || height == 0 then true
    else if width <= TWO_31 then HEADER_OFFSET * width / TWO_32 == width * (height + HEADER_OFFSET) / TWO_32
    else BufferSize(width, height) >= width && height * (TWO_32 - width) <= TWO_31
  }

  /** The input that shows it: a buffer of 65536 bytes whose first pixel is at 1638425. */
  lemma WrappedWindow()
    ensures BufferSize(65537, 65511) == 65536 && PixelIndex(Point(0, 0), 65537) == 1638425
    ensures !AllLand(65537, 65511)
  {
    assert !Lands(Point(0, 0), 65537, 65511);
  }

  // ----- widths up to 2^31 -----

  lemma SameWrap(a: int, k: int, t: int)
    requires a <= k < t && a / TWO_32 == t / TWO_32
    ensures U32(a) <= U32(k) < U32(t)
  {
  }

  lemma PixelRange(p: Point, width: nat, height: nat)
    requires Inside(p, width, height)
    ensures HEADER_OFFSET * width <= (p.y + HEADER_OFFSET) * width + p.x < width * (height + HEADER_OFFSET)
  {
    Ordered(HEADER_OFFSET, p.y + HEADER_OFFSET, width);
    Ordered(p.y + HEADER_OFFSET + 1, height + HEADER_OFFSET, width);
    Multiples(p.y + HEADER_OFFSET, width);
  }

  /** Where nothing wraps between the header and the end, pixels lie behind the header rows. */
  lemma UnwrappedLands(p: Point, width: nat, height: nat)
    requires 0 < width && Inside(p, width, height)
    requires HEADER_OFFSET * width / TWO_32 == width * (height + HEADER_OFFSET) / TWO_32
    ensures U32(HEADER_OFFSET * width) <= PixelIndex(p, width) && Lands(p, width, height)
  {
    PixelRange(p, width, height);
    SameWrap(HEADER_OFFSET * width, (p.y + HEADER_OFFSET) * width + p.x, width * (height + HEADER_OFFSET));
  }

  /** Otherwise the pixel at the first wrap has the last index of 32 bits. */
  lemma WrappedMisses(width: nat, height: nat)
    requires 2 <= width <= TWO_31
    requires HEADER_OFFSET * width / TWO_32 < width * (height + HEADER_OFFSET) / TWO_32
    ensures !AllLand(width, height)
  {
    var q := HEADER_OFFSET * width / TWO_32 + 1;
    var k := q * TWO_32 - 1;
    WrapBounds(HEADER_OFFSET * width, width * (height + HEADER_OFFSET));
    var y, x := RowOf(k, width, HEADER_OFFSET, height + HEADER_OFFSET);
    var p := Point(x, y - HEADER_OFFSET);
    U32Is(k, q - 1, TWO_32 - 1);
    assert !Lands(p, width, height);
  }

  /** The last number before the first multiple of 2^32 above `a`. */
  lemma WrapBounds(a: int, t: int)
    requires 0 <= a && a / TWO_32 < t / TWO_32
    ensures a <= (a / TWO_32 + 1) * TWO_32 - 1 < t && (a / TWO_32 + 1) * TWO_32 - 1 < a + TWO_32
  {
    var q := a / TWO_32;
    assert a == q * TWO_32 + a % TWO_32 && t == t / TWO_32 * TWO_32 + t % TWO_32;
    Ordered(q + 1, t / TWO_32, TWO_32);
    Multiples(q, TWO_32);
  }

  /** Row and column of a number, which lies in the rows from `lo` on and less than 2^32 behind them. */
  lemma RowOf(k: int, width: int, lo: int, hi: int) returns (y: int, x: int)
    requires 2 <= width <= TWO_31 && lo * width <= k < width * hi && k < lo * width + TWO_32
    ensures k == y * width + x && 0 <= x < width && lo <= y < hi && y < lo + TWO_31
  {
    y, x := k / width, k % width;
    assert k == width * y + x;
    Ordered(hi, y, width);
    Ordered(y + 1, lo, width);
    Multiples(y, width);
    if y >= lo + TWO_31 {
      Ordered(lo + TWO_31, y, width);
      Distributes(lo, TWO_31, width);
      Ordered(2, width, TWO_31);
    }
  }

  // ----- widths beyond 2^31 -----

  /** The index of a pixel, counted from the end: `j` rows before it, column `x`. */
  lemma IndexFromTheEnd(width: nat, height: nat, j: int, x: int)
    ensures PixelIndex(Point(x, height - j), width) == U32(BufferSize(width, height) + j * (TWO_32 - width) + x)
  {
    var v, s, t := TWO_32 - width, BufferSize(width, height), width * (height + HEADER_OFFSET);
    var z := t / TWO_32;
    assert t == s + z * TWO_32;
    assert (height - j + HEADER_OFFSET) * width == t - j * width by {
      Distributes(height + HEADER_OFFSET, -j, width);
    }
    assert j * width == j * TWO_32 - j * v by { TimesSum(j, TWO_32, -v); }
    SameResidue((height - j + HEADER_OFFSET) * width + x, s + j * v + x, z - j);
  }

  lemma SameResidue(a: int, b: int, q: int)
    requires a == b + q * TWO_32
    ensures U32(a) == U32(b)
  {
    var r := U32(b);
    assert b == b / TWO_32 * TWO_32 + r;
    Distributes(b / TWO_32, q, TWO_32);
    U32Is(a, b / TWO_32 + q, r);
  }

  lemma WideLands(p: Point, width: nat, height: nat)
    requires TWO_31 < width < TWO_32 && BufferFits(width, height)
    requires Int32(p.x) && Int32(p.y) && Inside(p, width, height)
    ensures Lands(p, width, height)
  {
    var v, s, j := TWO_32 - width, BufferSize(width, height), height - p.y;
    IndexFromTheEnd(width, height, j, p.x);
    Ordered(1, j, v);
    Ordered(j, height, v);
    U32Is(s + j * v + p.x, 1, s + j * v + p.x - TWO_32);
  }

  /** A pixel whose way to the end is a multiple of 2^32 bytes has its byte just behind the end. */
  lemma WideMisses(width: nat, height: nat, j: int, x: int, q: int)
    requires TWO_31 < width < TWO_32 && 1 <= j <= height && height - j < TWO_31 && 0 <= x < TWO_31
    requires j * (TWO_32 - width) + x == q * TWO_32
    ensures !AllLand(width, height)
  {
    var s, p := BufferSize(width, height), Point(x, height - j);
    IndexFromTheEnd(width, height, j, x);
    U32Is(s + j * (TWO_32 - width) + x, q, s);
    assert !Lands(p, width, height);
  }

  lemma LastRowMisses(width: nat, height: nat)
    requires TWO_31 < width < TWO_32 && 1 <= height <= TWO_31 && BufferSize(width, height) < width
    ensures !AllLand(width, height)
  {
    var s := BufferSize(width, height);
    IndexFromTheEnd(width, height, 1, 0);
    U32Is(s + 1 * (TWO_32 - width) + 0, 0, s + TWO_32 - width);
    assert !Lands(Point(0, height - 1), width, height);
  }

  /** A row from which more than half of the 2^32 bytes lie before the end, modulo 2^32, misses. */
  lemma FarRowMisses(width: nat, height: nat, j: int)
    requires TWO_31 < width < TWO_32 && 1 <= j <= height && height - j < TWO_31
    requires U32(j * (TWO_32 - width)) == 0 || U32(j * (TWO_32 - width)) > TWO_31
    ensures !AllLand(width, height)
  {
    var d := j * (TWO_32 - width);
    var r, q := U32(d), d / TWO_32;
    assert d == q * TWO_32 + r;
    Multiples(q, TWO_32);
    if r == 0 {
      WideMisses(width, height, j, 0, q);
    } else {
      WideMisses(width, height, j, TWO_32 - r, q + 1);
    }
  }

  /** Rows step by less than half of the 2^32 bytes, so some row of a tall window is such a row. */
  lemma TallMisses(width: nat, height: nat)
    requires TWO_31 < width < TWO_32 && TWO_31 < height < TWO_32
    ensures !AllLand(width, height)
  {
    var v, a := TWO_32 - width, height - TWO_31 + 1;
    var r, q := U32(a * v), a * v / TWO_32;
    assert a * v == q * TWO_32 + r;
    if r == 0 || r > TWO_31 {
      FarRowMisses(width, height, a);
    } else if v == 1 {
      U32Is(height * 1, 0, height);
      FarRowMisses(width, height, height);
    } else {
      var i := (TWO_31 - r) / v + 1;
      StepOver(TWO_31 - r, v, i);
      Distributes(a, i, v);
      U32Is((a + i) * v, q, r + i * v);
      FarRowMisses(width, height, a + i);
    }
  }

  lemma StepOver(d: int, v: int, i: int)
    requires 0 <= d < TWO_31 && v >= 2 && i == d / v + 1
    ensures d < i * v <= d + v && 1 <= i < TWO_31
  {
    var k := d / v;
    assert d == k * v + d % v;
    Multiples(k, v);
    if k > 0 {
      Ordered(2, v, k);
    }
  }

  /** With all rows together moving back by more than half, a low window has such a row too. */
  lemma ManyRowsMiss(width: nat, height: nat)
    requires TWO_31 < width < TWO_32 && 1 <= height <= TWO_31 && height * (TWO_32 - width) > TWO_31
    ensures !AllLand(width, height)
  {
    var v := TWO_32 - width;
    var i := TWO_31 / v + 1;
    assert TWO_31 == TWO_31 / v * v + TWO_31 % v;
    Multiples(TWO_31 / v, v);
    Ordered(height, i - 1, v);
    U32Is(i * v, 0, i * v);
    FarRowMisses(width, height, i);
  }

  lemma WideExactlyWhen(width: nat, height: nat)
    requires TWO_31 < width < TWO_32 && 0 < height < TWO_32
    ensures AllLand(width, height) <==> BufferFits(width, height)
  {
    hide PixelIndex, BufferSize, Lands;
    if BufferFits(width, height) {
      forall p: Point | Int32(p.x) && Int32(p.y) && Inside(p, width, height)
        ensures Lands(p, width, height)
      {
        WideLands(p, width, height);
      }
    } else if height > TWO_31 {
      TallMisses(width, height);
    } else if BufferSize(width, height) < width {
      LastRowMisses(width, height);
    } else {
      ManyRowsMiss(width, height);
    }
  }

  // ----- every window -----

  lemma ThinMisses(height: nat)
    requires height < TWO_32 && (1 * (height + HEADER_OFFSET)) / TWO_32 > 0
    ensures !AllLand(1, height)
  {
    assert PixelIndex(Point(0, 0), 1) == HEADER_OFFSET;
    U32Is(1 * (height + HEADER_OFFSET), 1, height + HEADER_OFFSET - TWO_32);
    assert !Lands(Point(0, 0), 1, height);
  }

  lemma NarrowExactlyWhen(width: nat, height: nat)
    requires 0 < width <= TWO_31 && 0 < height < TWO_32
    ensures AllLand(width, height) <==> BufferFits(width, height)
  {
    hide PixelIndex, BufferSize, Lands;
    var a, t := HEADER_OFFSET * width, width * (height + HEADER_OFFSET);
    if a / TWO_32 == t / TWO_32 {
      forall p: Point | Int32(p.x) && Int32(p.y) && Inside(p, width, height)
        ensures Lands(p, width, height)
      {
        UnwrappedLands(p, width, height);
      }
    } else {
      Ordered(HEADER_OFFSET, height + HEADER_OFFSET, width);
      if width == 1 {
        ThinMisses(height);
      } else {
        WrappedMisses(width, height);
      }
    }
  }

  /** Every pixel inside a window has its byte in the buffer if and only if the buffer fits. */
  lemma AllLandExactlyWhen(width: nat, height: nat)
    requires width < TWO_32 && height < TWO_32
    ensures AllLand(width, height) <==> BufferFits(width, height)
  {
    hide Lands;
    if width > 0 && height > 0 {
      hide AllLand, BufferFits;
      if width > TWO_31 {
        WideExactlyWhen(width, height);
      } else {
        NarrowExactlyWhen(width, height);
      }
    }
  }
}
