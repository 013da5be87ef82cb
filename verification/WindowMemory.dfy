/** Where the pixels of a window lie in memory: wm_create_window takes the buffer from the kernel heap
    without looking at the result, and window_put_pixel adds the index to that pointer. */
module WindowMemory {
  import opened Integers
  import opened KernelHeap
  import opened PixelBuffer

  /** The pointer of the window's buffer, 0 for NULL, when the heap is `bs`. */
  function Buffer(bs: seq<Block>, width: nat, height: nat): nat { MallocResult(bs, BufferSize(width, height)) }

  /** The bytes that the window owns behind this pointer. */
  function BytesOf(buffer: nat, width: nat, height: nat): nat { if buffer == 0 then 0 else BufferSize(width, height) }

  /** The address that window_put_pixel writes, in 32 bits. */
  function PixelAddress(buffer: nat, p: Point, width: nat): nat { U32(buffer + PixelIndex(p, width)) }

  /** Some free block is larger than the request. */
  ghost predicate HasRoom(bs: seq<Block>, size: nat) { exists b :: b in bs && b.free && b.size > size }

  /** The address lies in the block handed out, and in none that was handed out before. */
  ghost predicate OwnByte(bs: seq<Block>, buffer: nat, size: nat, a: nat) {
    && buffer != 0 && buffer <= a < buffer + size
    && forall b :: b in Used(bs) ==> !(b.addr <= a < End(b))
  }

  /** Every pixel inside the window, of whatever 32-bit coordinates, is a byte of its own buffer. */
  ghost predicate AllOwned(bs: seq<Block>, width: nat, height: nat) {
    forall p: Point :: Int32(p.x) && Int32(p.y) && Inside(p, width, height) ==>
      OwnByte(bs, Buffer(bs, width, height), BufferSize(width, height),
              PixelAddress(Buffer(bs, width, height), p, width))
  }

  /** The block handed out ends inside the heap. */
  lemma BufferInHeap(bs: seq<Block>, req: nat)
    requires Inv(bs) && req < TWO_32 && MallocResult(bs, req) != 0
    ensures HEAP_START < MallocResult(bs, req) && MallocResult(bs, req) + req < HEAP_END
  {
    FitsBounds(bs, HEAP_START, HEAP_END, FirstFit(bs, req));
  }

  /** A pixel is a byte of its own exactly when there is a buffer and its index lies in it. */
  lemma OwnByteExactlyWhen(bs: seq<Block>, width: nat, height: nat, p: Point)
    requires Inv(bs)
    ensures var buffer := Buffer(bs, width, height);
      var a := PixelAddress(buffer, p, width);
      OwnByte(bs, buffer, BufferSize(width, height), a) <==> buffer != 0 && Lands(p, width, height)
  {
    hide BufferSize, PixelIndex, MallocResult, Fits;
    var buffer, size, k := Buffer(bs, width, height), BufferSize(width, height), PixelIndex(p, width);
    if buffer != 0 {
      IndexIsSmall(p, width, height);
      MallocUses(bs, size);
      BufferInHeap(bs, size);
      if k < size {
        U32Is(buffer + k, 0, buffer + k);
      } else if buffer + k < TWO_32 {
        U32Is(buffer + k, 0, buffer + k);
      } else {
        U32Is(buffer + k, 1, buffer + k - TWO_32);
      }
    }
  }

  lemma IndexIsSmall(p: Point, width: nat, height: nat)
    ensures PixelIndex(p, width) < TWO_32 && BufferSize(width, height) < TWO_32
  {
  }

  /** Every pixel is a byte of the window's own buffer if and only if the dimensions let the indices
      fit and the heap has a free block larger than the buffer; an empty window has no pixels. */
  lemma AllOwnedExactlyWhen(bs: seq<Block>, width: uint32, height: uint32)
    requires Inv(bs)
    ensures AllOwned(bs, width, height) <==>
      width == 0 || height == 0 || (BufferFits(width, height) && HasRoom(bs, BufferSize(width, height)))
  {
    hide Lands, OwnByte, BufferFits, Fits, PixelAddress, MallocResult;
    var buffer, size := Buffer(bs, width, height), BufferSize(width, height);
    forall p: Point
      ensures OwnByte(bs, buffer, size, PixelAddress(buffer, p, width)) <==> buffer != 0 && Lands(p, width, height)
    {
      OwnByteExactlyWhen(bs, width, height, p);
    }
    AllLandExactlyWhen(width, height);
    BufferExactlyWhen(bs, width, height);
    if width > 0 && height > 0 {
      assert Inside(Point(0, 0), width, height);
      if AllLand(width, height) {
        LandingNeedsBytes(Point(0, 0), width, height);
      }
    }
  }

  lemma BufferExactlyWhen(bs: seq<Block>, width: nat, height: nat)
    requires Inv(bs)
    ensures Buffer(bs, width, height) != 0 <==> BufferSize(width, height) != 0 && HasRoom(bs, BufferSize(width, height))
  {
    IndexIsSmall(Point(0, 0), width, height);
    MallocUses(bs, BufferSize(width, height));
  }

  lemma LandingNeedsBytes(p: Point, width: nat, height: nat)
    ensures Lands(p, width, height) ==> BufferSize(width, height) > 0
  {
  }

  // ----- the dimensions alone do not decide it -----

  /** No heap ever has a block for a buffer of all its bytes. */
  lemma NeverHasRoom(bs: seq<Block>, size: nat)
    requires Inv(bs) && size >= HEAP_SIZE - HEADER
    ensures !HasRoom(bs, size)
  {
    forall b | b in bs
      ensures b.size <= size
    {
      var i :| 0 <= i < |bs| && bs[i] == b;
      FitsBounds(bs, HEAP_START, HEAP_END, i);
    }
  }

  /** A window of 2048 by 1536 fits its size, and gets no buffer from any heap. */
  lemma LargeWindow(bs: seq<Block>)
    requires Inv(bs)
    ensures BufferFits(2048, 1536) && AllLand(2048, 1536)
    ensures Buffer(bs, 2048, 1536) == 0 && !AllOwned(bs, 2048, 1536)
  {
    AllLandExactlyWhen(2048, 1536);
    NeverHasRoom(bs, BufferSize(2048, 1536));
    BufferExactlyWhen(bs, 2048, 1536);
    AllOwnedExactlyWhen(bs, 2048, 1536);
  }

  /** A request served from the one free block at the end of the heap. */
  lemma ServedFromTheEnd(used: seq<Block>, b: Block, req: nat)
    requires (forall u :: u in used ==> !u.free) && b.free && 0 < req && req + 4 * HEADER <= b.size < TWO_32
    ensures var rest := Block(b.addr + HEADER + req, b.size - req - HEADER, true);
      Malloc(used + [b], req) == used + [Block(b.addr, req, false)] + [rest]
    ensures MallocResult(used + [b], req) == Payload(b)
  {
    var bs := used + [b];
    assert FirstFit(bs, req) == |used| by {
      assert forall k :: 0 <= k < |used| ==> bs[k] in used;
      assert bs[|used|] == b;
    }
    assert bs[..|used|] == used && bs[|used| + 1..] == [];
  }

  /** A fresh heap has buffers for three windows of 1024 by 768, but not for a fourth. */
  lemma FourthWindow()
    ensures var size := BufferSize(1024, 768);
      var h1 := Malloc(InitialHeap(), size);
      var h2 := Malloc(h1, size);
      var h3 := Malloc(h2, size);
      && Inv(h3) && BufferFits(1024, 768)
      && AllOwned(InitialHeap(), 1024, 768) && AllOwned(h1, 1024, 768) && AllOwned(h2, 1024, 768)
      && !AllOwned(h3, 1024, 768)
  {
    hide Malloc, AllOwned, InitialHeap, Inv, HasRoom;
    var size := BufferSize(1024, 768);
    assert size == 812032;
    var b0 := Block(HEAP_START, HEAP_SIZE - HEADER, true);
    FreshHeap();
    OneBlock();
    var u1, b1 := Taken([], b0, size);
    var u2, b2 := Taken(u1, b1, size);
    var u3, b3 := Taken(u2, b2, size);
    assert !HasRoom(u3 + [b3], size) by { NoRoomAtTheEnd(u3, b3, size); }
    AllOwnedExactlyWhen(u3 + [b3], 1024, 768);
  }

  lemma NoRoomAtTheEnd(used: seq<Block>, b: Block, size: nat)
    requires (forall u :: u in used ==> !u.free) && b.size <= size
    ensures !HasRoom(used + [b], size)
  {
  }

  lemma OneBlock()
    ensures InitialHeap() == [] + [Block(HEAP_START, HEAP_SIZE - HEADER, true)]
  {
  }

  /** One more window of this size: it owns its pixels, and the free block shrinks. */
  lemma Taken(used: seq<Block>, b: Block, req: nat) returns (used': seq<Block>, b': Block)
    requires req == BufferSize(1024, 768) && Inv(used + [b]) && b.free && req + 4 * HEADER <= b.size < TWO_32
    requires forall u :: u in used ==> !u.free
    ensures Malloc(used + [b], req) == used' + [b'] && Inv(used' + [b']) && AllOwned(used + [b], 1024, 768)
    ensures b'.free && b'.size == b.size - req - HEADER && forall u :: u in used' ==> !u.free
  {
    hide Malloc, AllOwned, Inv;
    ServedFromTheEnd(used, b, req);
    ServedAgain(used, b, req);
    used' := used + [Block(b.addr, req, false)];
    b' := Block(b.addr + HEADER + req, b.size - req - HEADER, true);
  }

  lemma ServedAgain(used: seq<Block>, b: Block, req: nat)
    requires req == BufferSize(1024, 768) && Inv(used + [b]) && b.free && req + 4 * HEADER <= b.size < TWO_32
    requires forall u :: u in used ==> !u.free
    ensures Inv(Malloc(used + [b], req)) && AllOwned(used + [b], 1024, 768)
  {
    hide Malloc, AllOwned, Inv;
    var bs := used + [b];
    assert b in bs;
    FirstFitIsLast(used, b, req);
    MallocKeeps(bs, req);
    AllOwnedExactlyWhen(bs, 1024, 768);
  }

  lemma FirstFitIsLast(used: seq<Block>, b: Block, req: nat)
    requires (forall u :: u in used ==> !u.free) && b.free && req + HEADER <= b.size
    ensures Roomy(used + [b], req)
  {
    var bs := used + [b];
    assert forall k :: 0 <= k < |used| ==> bs[k] in used;
    assert bs[|used|] == b;
  }

  // ----- over runs of the heap -----

  /** As long as the buffer is not freed, every pixel stays in a live block and in no other one. */
  lemma PixelsStayOwned(bs: seq<Block>, width: uint32, height: uint32, rs: seq<Request>, p: Point, b: Block)
    requires Inv(bs) && Roomy(bs, BufferSize(width, height)) && AllOwned(bs, width, height)
    requires Inside(p, width, height) && Int32(p.x) && Int32(p.y)
    requires var h := Malloc(bs, BufferSize(width, height)); AllAllowed(h, rs) && b in Used(Run(h, rs))
    requires Release(Buffer(bs, width, height)) !in rs
    ensures var a := PixelAddress(Buffer(bs, width, height), p, width);
      var mine := Block(Buffer(bs, width, height) - HEADER, BufferSize(width, height), false);
      && mine in Used(Run(Malloc(bs, BufferSize(width, height)), rs))
      && (b.addr <= a < End(b) <==> b == mine)
  {
    hide BufferSize, Malloc, MallocResult, Inv, Run, AllAllowed, PixelAddress, Fits;
    var buffer, size := Buffer(bs, width, height), BufferSize(width, height);
    IndexIsSmall(p, width, height);
    assert OwnByte(bs, buffer, size, PixelAddress(buffer, p, width));
    BufferInHeap(bs, size);
    var h, mine, a := Malloc(bs, size), Block(buffer - HEADER, size, false), PixelAddress(buffer, p, width);
    assert OwnByte(bs, buffer, size, a);
    MallocKeeps(bs, size);
    MallocUses(bs, size);
    LiveBlockIsKept(h, rs, mine);
    RunKeeps(h, rs);
    UsedApart(Run(h, rs), mine, b);
  }

  lemma UsedApart(bs: seq<Block>, a: Block, b: Block)
    requires Inv(bs) && a in Used(bs) && b in Used(bs)
    ensures a == b || End(a) <= b.addr || End(b) <= a.addr
  {
    var i :| 0 <= i < |bs| && bs[i] == a;
    var j :| 0 <= j < |bs| && bs[j] == b;
    if i < j {
      FitsOrdered(bs, HEAP_START, HEAP_END, i, j);
    } else if j < i {
      FitsOrdered(bs, HEAP_START, HEAP_END, j, i);
    }
  }
}
