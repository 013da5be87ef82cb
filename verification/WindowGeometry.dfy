/** Windows in pixels: where a new window is, which clicks reach it, close it or grab it, and which
    byte of its buffer a pixel is. */
module WindowGeometry {
  import opened Integers
  import opened Windows
  import opened Stacking
  import opened PixelBuffer

  // ----- a new window -----

  /** A new window is appended on top of the others, 30 pixels below the place asked for, visible and
      without focus. */
  lemma CreatePlaces(d: Desktop, block: nat, x: int, y: int, width: nat, height: nat)
    requires Inv(d) && block != 0
    ensures var r := Step(d, CreateWindow(block, x, y, width, height));
      var n := |d.windows|;
      && |r.windows| == n + 1 && r.windows[..n] == d.windows && r.grabX == d.grabX && r.grabY == d.grabY
      && var w := r.windows[n];
        && w.x == x && w.y == y + 30 && w.width == width && w.height == height
        && w.visible && !w.focused && !w.dragging && w.z == |r.windows|
        && forall i :: 0 <= i < n ==> d.windows[i].id != w.id && d.windows[i].z < w.z
  {
  }

  // ----- clicks -----

  /** The point is on the window: its title bar of 25 pixels and its `height` rows below. */
  predicate On(w: Window, px: int, py: int) { w.x <= px < w.x + w.width && w.y <= py < w.y + w.height + 25 }

  /** The point is on the close button: the right 30 pixels of the title bar. */
  predicate OnClose(w: Window, px: int, py: int) {
    w.x + w.width - 30 <= px < w.x + w.width && w.y <= py < w.y + 25
  }

  /** A click is for window `c` precisely when it is on it and no window on top of it. */
  lemma ClickedExactlyWhen(d: Desktop, px: int, py: int, c: nat)
    requires Inv(d) && c < |d.windows|
    ensures Clicked(d.windows, px, py) == Some(c) <==>
      On(d.windows[c], px, py) && forall i :: 0 <= i < |d.windows| && i != c && On(d.windows[i], px, py) ==>
        d.windows[i].z < d.windows[c].z
  {
    TopmostIs(d.windows, |d.windows|, px, py);
  }

  /** A click takes a window away precisely when it is on the close button of the topmost window
      there; and then that one. */
  lemma ClosesExactlyWhen(d: Desktop, px: int, py: int)
    requires Inv(d)
    ensures var c, r := Clicked(d.windows, px, py), Click(d, px, py);
      && (|r.windows| == |d.windows| - 1 <==> c.Some? && OnClose(d.windows[c.index], px, py))
      && (|r.windows| == |d.windows| <==> !(c.Some? && OnClose(d.windows[c.index], px, py)))
      && (c.Some? && OnClose(d.windows[c.index], px, py) ==> Find(r.windows, d.windows[c.index].id) == |r.windows|)
  {
    hide Close, Raise, Clicked;
    var c := Clicked(d.windows, px, py);
    if c.Some? {
      RaiseKeeps(d, c.index);
      RaisedIs(d, c.index, c.index, c.index);
      RaiseMoves(d, c.index, c.index);
      if OnClose(d.windows[c.index], px, py) {
        ClickCloses(d, px, py);
      }
    }
  }

  /** Raising a window moves none. */
  lemma RaiseMoves(d: Desktop, c: nat, i: nat)
    requires c < |d.windows| && i < |d.windows|
    ensures var w, r := d.windows[i], Raise(d, c).windows[i];
      r.x == w.x && r.y == w.y && r.width == w.width && r.height == w.height && r.id == w.id && r.dragging == w.dragging
  {
    hide LowerAll, Unfocused;
    LoweredAre(d.windows, d.windows[c].z);
    UnfocusedAre(LowerAll(d.windows, d.windows[c].z));
  }

  /** A click lets a window be dragged precisely when it is the topmost there and the click is on its
      title bar beside the close button, unless it is being dragged already. */
  lemma GrabsExactlyWhen(d: Desktop, px: int, py: int, i: nat)
    requires Inv(d) && i < |d.windows|
    requires var c := Clicked(d.windows, px, py); !(c.Some? && OnClose(d.windows[c.index], px, py))
    ensures var c, r := Clicked(d.windows, px, py), Click(d, px, py);
      && |r.windows| == |d.windows|
      && (r.windows[i].dragging <==> d.windows[i].dragging || (c == Some(i) && py < d.windows[i].y + 25))
  {
    hide Close, Raise, Clicked;
    var c := Clicked(d.windows, px, py);
    if c.Some? {
      RaiseMoves(d, c.index, i);
      RaiseMoves(d, c.index, c.index);
    }
  }

  // ----- pixels -----

  predicate Pixel(p: Point, width: nat, height: nat) { Int32(p.x) && Int32(p.y) && Inside(p, width, height) }

  /** No two pixels of the window are the same byte. */
  ghost predicate DistinctPixels(width: nat, height: nat) {
    forall p: Point, q: Point :: Pixel(p, width, height) && Pixel(q, width, height) ==>
      PixelIndex(p, width) == PixelIndex(q, width) ==> p == q
  }

  /** Up to a width of 2^31 the rows follow one another: from pixel to pixel the byte moves by as many
      rows and columns as the pixel does. */
  lemma RowsFollow(width: nat, height: nat, p: Point, q: Point)
    requires 0 < width <= TWO_31 && BufferFits(width, height) && Inside(p, width, height) && Inside(q, width, height)
    ensures PixelIndex(q, width) - PixelIndex(p, width) == (q.y - p.y) * width + (q.x - p.x)
  {
    PixelRange(p, width, height);
    PixelRange(q, width, height);
    SameQuotient(25 * width, (p.y + 25) * width + p.x, (q.y + 25) * width + q.x, width * (height + 25));
    Distributes(p.y, 25, width);
    Distributes(q.y, 25, width);
    Distributes(q.y, -p.y, width);
    Negative(p.y, width);
  }

  lemma Negative(a: int, b: int)
    ensures (-a) * b == -(a * b)
  {
  }

  lemma SameQuotient(lo: int, a: int, b: int, hi: int)
    requires lo <= a < hi && lo <= b < hi && lo / TWO_32 == hi / TWO_32
    ensures U32(b) - U32(a) == b - a
  {
  }

  lemma RowsApart(a: int, x: int, y: int, width: int)
    requires 0 <= x < width && 0 <= y < width && a * width + (x - y) == 0
    ensures a == 0
  {
    assert a >= 1 ==> a * width >= width;
    assert a <= -1 ==> a * width <= -width;
  }

  /** Of the windows whose pixels all land in the buffer, those with at most one row, and those of width
      at most 2^31, have a byte for each pixel; in every other two pixels share one. */
  lemma DistinctExactlyWhen(width: nat, height: nat)
    requires width < TWO_32 && height < TWO_32 && BufferFits(width, height)
    ensures DistinctPixels(width, height) <==> width <= TWO_31 || height <= 1
  {
    if width == 0 || height == 0 {
    } else if width <= TWO_31 {
      forall p: Point, q: Point | Inside(p, width, height) && Inside(q, width, height)
        && PixelIndex(p, width) == PixelIndex(q, width)
        ensures p == q
      {
        RowsFollow(width, height, p, q);
        RowsApart(q.y - p.y, q.x, p.x, width);
      }
    } else if height == 1 {
      forall p: Point, q: Point | Int32(p.x) && Int32(q.x) && Inside(p, width, 1) && Inside(q, width, 1)
        && PixelIndex(p, width) == PixelIndex(q, width)
        ensures p == q
      {
        OneRow(25 * width, p.x, q.x);
      }
    } else {
      SharedByte(width);
      assert !DistinctPixels(width, height);
    }
  }

  lemma OneRow(a: int, x: int, y: int)
    requires 0 <= x < TWO_31 && 0 <= y < TWO_31 && U32(a + x) == U32(a + y)
    ensures x == y
  {
  }

  /** The first pixel and one of the next row. */
  lemma SharedByte(width: nat)
    requires TWO_31 < width < TWO_32
    ensures PixelIndex(Point(0, 0), width) == PixelIndex(Point(TWO_32 - width, 1), width)
  {
    assert (1 + 25) * width + (TWO_32 - width) == 25 * width + TWO_32;
  }
}
