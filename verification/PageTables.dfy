/** Physical memory, the frame allocator and two-level page tables of AdamOS, on values.
    A 32-bit word is kept as its upper 20 bits (a frame number) and its lower 12 bits (flags
    or a page offset); physical memory is 2^20 pages of 1024 words. */
module PageTables {
  const NUM_FRAMES: nat := 32768
  const KERNEL_FLAGS: Lo := 3
  const USER_FLAGS: Lo := 7
  /** First page number, and first directory index, of the user half (0x40000000). */
  const USER_PAGE: nat := 0x40000
  const USER_DIR: nat := 256

  type Hi = x: nat | x < 0x100000
  type Lo = x: nat | x < 0x1000
  type Idx = x: nat | x < 1024

  datatype Word = Word(hi: Hi, lo: Lo) {
    predicate Present() { lo % 2 == 1 }
    predicate User() { (lo / 4) % 2 == 1 }
  }

  const ZERO_WORD := Word(0, 0)

  type Page = p: seq<Word> | |p| == 1024 witness seq(1024, _ => Word(0, 0))
  function ZeroPage(): (p: Page)
    ensures forall j: Idx :: p[j] == ZERO_WORD
  {
    seq(1024, _ => Word(0, 0))
  }

  type Ram = r: seq<Page> | |r| == 0x100000 witness seq(0x100000, _ => seq(1024, _ => Word(0, 0)))

  /** `used` is the set of frames marked in the bitmap; `exhausted` records that some
      allocation found no free frame and returned 0. */
  datatype Mem = Mem(pages: Ram, used: set<nat>, exhausted: bool)

  /** The memory after a call that allocates, and the frame it hands out. */
  datatype Grant = Grant(m: Mem, f: Hi)

  function Get(m: Mem, f: Hi, j: Idx): Word { m.pages[f][j] }

  function Put(m: Mem, f: Hi, j: Idx, w: Word): Mem {
    m.(pages := m.pages[f := m.pages[f][j := w]])
  }

  function PutPage(m: Mem, f: Hi, p: Page): Mem { m.(pages := m.pages[f := p]) }

  // ----- frame.c -----

  /** The lowest free frame number at or above `i`, or 0 when there is none. */
  function LowestFree(used: set<nat>, i: nat): (f: nat)
    requires 1 <= i
    ensures f != 0 ==> i <= f < NUM_FRAMES && f !in used && forall g :: i <= g < f ==> g in used
    ensures f == 0 ==> forall g :: i <= g < NUM_FRAMES ==> g in used
    decreases NUM_FRAMES - i, used
  {
    if i >= NUM_FRAMES then 0 else if i !in used then i else LowestFree(used, i + 1)
  }

  /** allocate_frame: the memory after it and the frame it returns. */
  function Alloc(m: Mem): Grant {
    var f := LowestFree(m.used, 1);
    if f == 0 then Grant(m.(exhausted := true), 0) else Grant(m.(used := m.used + {f}), f)
  }

  function Free(m: Mem, f: Hi): Mem {
    if f == 0 then m else m.(used := m.used - {f})
  }

  // ----- page-table.c -----

  function IdentityMapIn(m: Mem, pd: Hi, f: Hi): Mem {
    Put(m, Get(m, pd, f / 1024).hi, f % 1024, Word(f, KERNEL_FLAGS))
  }

  function CreateTable(m: Mem): Grant {
    var a := Alloc(m);
    Grant(PutPage(a.m, a.f, ZeroPage()), a.f)
  }

  function WithPresent(flags: Lo): Lo { if flags % 2 == 1 then flags else flags + 1 }

  /** map_page, with the virtual and physical addresses given as page numbers. */
  function MapPage(m: Mem, pd: Hi, v: Hi, f: Hi, flags: Lo): (r: Mem)
    ensures m.exhausted ==> r.exhausted
  {
    var i, j := v / 1024, v % 1024;
    var e := Word(f, WithPresent(flags));
    if Get(m, pd, i).Present() then
      Put(m, Get(m, pd, i).hi, j, e)
    else
      var t := CreateTable(m);
      var m2 := Put(t.m, pd, i, Word(t.f, WithPresent(flags)));
      Put(IdentityMapIn(m2, pd, t.f), t.f, j, e)
  }

  // ----- the hardware walk (section 4.3 of Intel SDM volume 3A) -----

  function Pde(m: Mem, pd: Hi, v: Hi): Word { Get(m, pd, v / 1024) }

  function Pte(m: Mem, pd: Hi, v: Hi): Word { Get(m, Pde(m, pd, v).hi, v % 1024) }

  predicate Mapped(m: Mem, pd: Hi, v: Hi) { Pde(m, pd, v).Present() && Pte(m, pd, v).Present() }

  /** Page `v` is open to ring 3. */
  predicate UserMapped(m: Mem, pd: Hi, v: Hi) {
    Mapped(m, pd, v) && Pde(m, pd, v).User() && Pte(m, pd, v).User()
  }

  function CreateDirectory(m: Mem): Grant {
    var a := Alloc(m);
    Grant(MapPage(PutPage(a.m, a.f, ZeroPage()), a.f, a.f, a.f, KERNEL_FLAGS), a.f)
  }

  /** One iteration of the inner loop of copy_page_directory. */
  function CopyLeaf(m: Mem, src: Hi, st: Hi, dt: Hi, j: Idx): Mem {
    var e := Get(m, st, j);
    if !e.Present() then m
    else
      var a := Alloc(m);
      var m2 := IdentityMapIn(IdentityMapIn(a.m, src, a.f), src, e.hi);
      var m3 := PutPage(m2, a.f, m2.pages[e.hi]);
      Put(m3, dt, j, Word(a.f, Get(m3, st, j).lo))
  }

  function CopyLeaves(m: Mem, src: Hi, st: Hi, dt: Hi, j: nat): (r: Mem)
    requires j <= 1024
    ensures m.used <= r.used && (m.exhausted ==> r.exhausted)
    decreases 1024 - j, st
  {
    if j == 1024 then m else CopyLeaves(CopyLeaf(m, src, st, dt, j), src, st, dt, j + 1)
  }

  /** One iteration of the outer loop of copy_page_directory. */
  function CopyEntry(m: Mem, dst: Hi, src: Hi, i: Idx): Mem {
    var e := Get(m, src, i);
    if !e.Present() then m
    else if i < USER_DIR then Put(m, dst, i, e)
    else
      var a := Alloc(m);
      var m2 := PutPage(IdentityMapIn(a.m, src, a.f), a.f, ZeroPage());
      var m3 := CopyLeaves(m2, src, e.hi, a.f, 0);
      Put(m3, dst, i, Word(a.f, Get(m3, src, i).lo))
  }

  function CopyDirectory(m: Mem, dst: Hi, src: Hi, i: nat): (r: Mem)
    requires i <= 1024
    ensures m.used <= r.used && (m.exhausted ==> r.exhausted)
    decreases 1024 - i, src
  {
    if i == 1024 then m else CopyDirectory(CopyEntry(m, dst, src, i), dst, src, i + 1)
  }

  /** The memory part of handle_syscall_fork: the memory after it and the child's directory. */
  function Fork(m: Mem, pd: Hi): Grant {
    var a := Alloc(m);
    Grant(CopyDirectory(PutPage(IdentityMapIn(a.m, pd, a.f), a.f, ZeroPage()), a.f, pd, 0), a.f)
  }

  /** One iteration of the inner loop of clear_page_directory. */
  function FreeLeaf(m: Mem, t: Hi, j: Idx): Mem {
    var e := Get(m, t, j);
    if e.Present() && e.User() then Free(m, e.hi) else m
  }

  function FreeLeaves(m: Mem, t: Hi, j: nat): Mem
    requires j <= 1024
    decreases 1024 - j, t
  {
    if j == 1024 then m else FreeLeaves(FreeLeaf(m, t, j), t, j + 1)
  }

  function ClearEntry(m: Mem, pd: Hi, i: Idx): Mem {
    var e := Get(m, pd, i);
    if e.Present() && i >= USER_DIR && e.User() then
      Put(Free(FreeLeaves(m, e.hi, 0), e.hi), pd, i, ZERO_WORD)
    else m
  }

  function ClearDirectory(m: Mem, pd: Hi, i: nat): Mem
    requires i <= 1024
    decreases 1024 - i, pd
  {
    if i == 1024 then m else ClearDirectory(ClearEntry(m, pd, i), pd, i + 1)
  }
}
