/** What the kernel builds out of map_page: the image of exec, the heap of sbrk, the first
    address space of a process. */
module AddressSpace {
  import opened Integers
  import opened PageTables

  type Byte = x: nat | x < 256

  const STACK_PAGE: Hi := 0x50000
  const BSS_PAGES: nat := 32
  const KERNEL_PAGES: nat := 1024

  // ----- the bytes of a page, little endian -----

  function WordByte(w: Word, k: nat): Byte
    requires k < 4
  {
    if k == 0 then w.lo % 256
    else if k == 1 then w.lo / 256 + 16 * (w.hi % 16)
    else if k == 2 then (w.hi / 16) % 256
    else w.hi / 4096
  }

  function FromBytes(b0: Byte, b1: Byte, b2: Byte, b3: Byte): Word {
    Word(b1 / 16 + 16 * b2 + 4096 * b3, b0 + 256 * (b1 % 16))
  }

  function ByteAt(p: Page, t: nat): Byte
    requires t < 4096
  {
    WordByte(p[t / 4], t % 4)
  }

  function BlitByte(p: Page, bytes: seq<Byte>, t: nat): Byte
    requires t < 4096
  {
    if t < |bytes| then bytes[t] else ByteAt(p, t)
  }

  /** memcpy of at most a page of bytes to the start of page `p`. */
  function Blit(p: Page, bytes: seq<Byte>): Page {
    seq(1024, q requires 0 <= q < 1024 => FromBytes(BlitByte(p, bytes, 4 * q), BlitByte(p, bytes, 4 * q + 1),
                                                   BlitByte(p, bytes, 4 * q + 2), BlitByte(p, bytes, 4 * q + 3)))
  }

  /** Byte 0 of a word is the lowest in value. */
  lemma WordIsLittleEndian(w: Word)
    ensures WordByte(w, 0) + 0x100 * WordByte(w, 1) + 0x1_0000 * WordByte(w, 2) + 0x100_0000 * WordByte(w, 3)
      == 4096 * w.hi + w.lo
  {
    assert w.hi == w.hi % 16 + 16 * ((w.hi / 16) % 256) + 4096 * (w.hi / 4096);
  }

  lemma WordOfBytes(b0: Byte, b1: Byte, b2: Byte, b3: Byte)
    ensures var w := FromBytes(b0, b1, b2, b3);
      WordByte(w, 0) == b0 && WordByte(w, 1) == b1 && WordByte(w, 2) == b2 && WordByte(w, 3) == b3
  {
    Divides(b1 % 16, b0, 256);
    Divides(b2 + 256 * b3, b1 / 16, 16);
    Divides(b3, b2, 256);
    Divides(b3, b1 / 16 + 16 * b2, 4096);
  }

  lemma Divides(q: nat, r: nat, d: nat)
    requires r < d
    ensures (r + d * q) / d == q && (r + d * q) % d == r
  {
    var x := r + d * q;
    assert x == d * (x / d) + x % d;
    Ordered(x / d, q, d);
    Ordered(q, x / d, d);
  }

  /** After a memcpy each byte of the page is the one copied there, or else the old one. */
  lemma BlitBytes(p: Page, bytes: seq<Byte>, t: nat)
    requires t < 4096
    ensures ByteAt(Blit(p, bytes), t) == if t < |bytes| then bytes[t] else ByteAt(p, t)
  {
    var q := t / 4;
    WordOfBytes(BlitByte(p, bytes, 4 * q), BlitByte(p, bytes, 4 * q + 1),
                BlitByte(p, bytes, 4 * q + 2), BlitByte(p, bytes, 4 * q + 3));
  }

  // ----- exec -----

  type File = f: seq<Byte> | |f| < 0x80000000 witness []

  function CodePages(file: File): nat { (|file| + 4095) / 4096 }

  /** The part of the file that page `i` of the image receives. */
  function Chunk(file: File, i: nat): seq<Byte>
    requires i < CodePages(file)
  {
    file[i * 4096..if |file| < (i + 1) * 4096 then |file| else (i + 1) * 4096]
  }

  /** allocate_frame and map_page of a user page. */
  function MapFresh(m: Mem, pd: Hi, v: Hi): Mem {
    MapPage(Alloc(m).m, pd, v, Alloc(m).f, USER_FLAGS)
  }

  /** A store through the virtual address of page `v`. */
  function WriteVirtual(m: Mem, pd: Hi, v: Hi, p: Page): Mem { PutPage(m, Pte(m, pd, v).hi, p) }

  function ReadVirtual(m: Mem, pd: Hi, v: Hi): Page { m.pages[Pte(m, pd, v).hi] }

  function LoadPage(m: Mem, pd: Hi, v: Hi, bytes: seq<Byte>): Mem {
    var m1 := MapFresh(m, pd, v);
    WriteVirtual(m1, pd, v, Blit(ReadVirtual(m1, pd, v), bytes))
  }

  function ZeroedPage(m: Mem, pd: Hi, v: Hi): Mem { WriteVirtual(MapFresh(m, pd, v), pd, v, ZeroPage()) }

  function LoadCode(m: Mem, pd: Hi, file: File, i: nat): (r: Mem)
    requires i <= CodePages(file)
    ensures m.exhausted ==> r.exhausted
    decreases CodePages(file) - i, pd
  {
    if i == CodePages(file) then m else LoadCode(LoadPage(m, pd, USER_PAGE + i, Chunk(file, i)), pd, file, i + 1)
  }

  /** Zeroed pages at page numbers `v` up to `end`. */
  function ZeroedRange(m: Mem, pd: Hi, v: nat, end: nat): (r: Mem)
    requires v <= end <= 0x100000
    ensures m.exhausted ==> r.exhausted
    decreases end - v, pd
  {
    if v == end then m else ZeroedRange(ZeroedPage(m, pd, v), pd, v + 1, end)
  }

  /** update_page_directory. */
  function UpdateDirectory(m: Mem, pd: Hi, file: File): Mem {
    var n := USER_PAGE + CodePages(file);
    MapFresh(ZeroedRange(LoadCode(m, pd, file, 0), pd, n, n + BSS_PAGES), pd, STACK_PAGE)
  }

  /** The memory part of handle_syscall_exec, once the file has been read. */
  function Exec(m: Mem, pd: Hi, file: File): Mem { UpdateDirectory(ClearDirectory(m, pd, 0), pd, file) }

  // ----- sbrk -----

  datatype Break = Break(m: Mem, brk: uint32)

  function OldBreak(brk: uint32): uint32 { if brk == 0 then 0x48000000 else brk }

  function NewBreak(brk: uint32, offset: uint32): uint32 { (OldBreak(brk) + offset) % TWO_32 }

  /** The first page sbrk considers: the old break rounded up, modulo 2^32. */
  function FirstHeapPage(brk: uint32): Hi { ((OldBreak(brk) + 4095) % TWO_32) / 4096 }

  /** The page just past the last one below the break `new`. */
  function EndHeapPage(new_: uint32): nat { (new_ + 4095) / 4096 }

  /** The mapping loop of sbrk ends unless it reaches the last page of the address space,
      whose successor is page 0 again. */
  predicate SbrkLoopEnds(brk: uint32, offset: uint32) {
    offset == 0 || NewBreak(brk, offset) <= 0xFFFFF000 || FirstHeapPage(brk) * 4096 >= NewBreak(brk, offset)
  }

  function Sbrk(m: Mem, pd: Hi, brk: uint32, offset: uint32): Break
    requires SbrkLoopEnds(brk, offset)
  {
    var p, end := FirstHeapPage(brk), EndHeapPage(NewBreak(brk, offset));
    if offset == 0 then Break(m, OldBreak(brk))
    else Break(if p < end then ZeroedRange(m, pd, p, end) else m, NewBreak(brk, offset))
  }

  // ----- create_kernel_page_directory -----

  function IdentityRange(m: Mem, pd: Hi, v: nat, end: nat): (r: Mem)
    requires v <= end <= 0x100000
    ensures m.exhausted ==> r.exhausted
    decreases end - v, pd
  {
    if v == end then m else IdentityRange(MapPage(m, pd, v, v, KERNEL_FLAGS), pd, v + 1, end)
  }

  /** The framebuffer's pages: device memory, beyond the frames of the allocator. */
  datatype Device = Device(start: nat, end: nat) {
    predicate Valid() { NUM_FRAMES <= start <= end <= 0x100000 }
  }

  function CreateKernelDirectory(m: Mem, fb: Device, code: Page): Grant
    requires fb.Valid()
  {
    var d := CreateDirectory(m);
    var m1 := IdentityRange(IdentityRange(d.m, d.f, 0, KERNEL_PAGES), d.f, fb.start, fb.end);
    var a := Alloc(m1);
    var s := Alloc(a.m);
    var m2 := MapPage(PutPage(s.m, a.f, code), d.f, USER_PAGE, a.f, USER_FLAGS);
    Grant(MapPage(m2, d.f, STACK_PAGE, s.f, USER_FLAGS), d.f)
  }
}
