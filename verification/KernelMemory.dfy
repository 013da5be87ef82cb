/** frame.c, page-table.c and the memory handlers of syscall.c and kernel.c in their own form:
    loops that write the bitmap and the page tables in place. Each method is proved against the
    function of PageTables or AddressSpace that says what it computes. */
module KernelMemory {
  import opened Integers
  import opened PageTables
  import opened AddressSpace
  import opened FrameBits
  import opened Ownership
  import opened ForkCopy
  import opened Teardown

  const WORDS: nat := NUM_FRAMES / 32

  predicate InUse(words: seq<bv32>, f: nat)
    requires |words| == WORDS && f < NUM_FRAMES
  {
    Test(words[f / 32], Mask(Position(f)))
  }

  /** Changing the bit of frame `f` in its word leaves every other frame's bit alone. */
  lemma OtherFrames(words: seq<bv32>, f: nat, w: bv32, g: nat)
    requires |words| == WORDS && f < NUM_FRAMES && g < NUM_FRAMES && g != f
    requires w == words[f / 32] | Mask(Position(f)) || w == words[f / 32] & !Mask(Position(f))
    ensures InUse(words[f / 32 := w], g) == InUse(words, g)
  {
    if g / 32 == f / 32 {
      PositionInjective(f, g);
      hide Position, Mask, Test;
      if w == words[f / 32] | Mask(Position(f)) {
        SetOther(words[f / 32], Position(f), Position(g));
      } else {
        ClearOther(words[f / 32], Position(f), Position(g));
      }
    }
  }

  lemma SetBit(words: seq<bv32>, f: nat, g: nat)
    requires |words| == WORDS && f < NUM_FRAMES && g < NUM_FRAMES
    ensures InUse(words[f / 32 := words[f / 32] | Mask(Position(f))], g) <==> g == f || InUse(words, g)
  {
    hide Mask, Test, Position;
    if g == f {
      SetSame(words[f / 32], Position(f));
    } else {
      OtherFrames(words, f, words[f / 32] | Mask(Position(f)), g);
    }
  }

  lemma ClearBit(words: seq<bv32>, f: nat, g: nat)
    requires |words| == WORDS && f < NUM_FRAMES && g < NUM_FRAMES
    ensures InUse(words[f / 32 := words[f / 32] & !Mask(Position(f))], g) <==> g != f && InUse(words, g)
  {
    hide Mask, Test, Position;
    if g == f {
      ClearSame(words[f / 32], Position(f));
    } else {
      OtherFrames(words, f, words[f / 32] & !Mask(Position(f)), g);
    }
  }

  /** Every frame that clearing table `t` frees has a bit in the bitmap. */
  ghost predicate TableInRange(m: Mem, t: Hi) {
    forall j: Idx :: Freeable(Get(m, t, j)) ==> Get(m, t, j).hi < NUM_FRAMES
  }

  /** Every frame that clearing directory `pd` frees has a bit in the bitmap. */
  ghost predicate InRange(m: Mem, pd: Hi) {
    forall i: Idx :: i >= USER_DIR && Freeable(Get(m, pd, i)) ==>
      Get(m, pd, i).hi < NUM_FRAMES && TableInRange(m, Get(m, pd, i).hi)
  }

  lemma OwnedIsInRange(m: Mem, dirs: set<Hi>, d: Hi)
    requires WellOwned(m, dirs) && d in dirs
    ensures InRange(m, d)
  {
    var own: Own :| Inv(m, own, dirs);
    assert DirOk(m, own, d);
    forall i: Idx | i >= USER_DIR && Freeable(Get(m, d, i))
      ensures Get(m, d, i).hi < NUM_FRAMES && TableInRange(m, Get(m, d, i).hi)
    {
      var t := Get(m, d, i).hi;
      assert TableOk(m, own, d, i, t);
      forall j: Idx | Freeable(Get(m, t, j))
        ensures Get(m, t, j).hi < NUM_FRAMES
      {
        assert LeafOk(own, d, i, j, Get(m, t, j));
      }
    }
  }

  lemma {:induction false} FreeLeavesKeepsPages(m: Mem, t: Hi, j: nat)
    requires j <= 1024
    ensures FreeLeaves(m, t, j).pages == m.pages && FreeLeaves(m, t, j).exhausted == m.exhausted
    decreases 1024 - j
  {
    if j < 1024 {
      FreeLeavesKeepsPages(FreeLeaf(m, t, j), t, j + 1);
    }
  }

  lemma StaysInRange(m: Mem, m': Mem, pd: Hi, i: Idx)
    requires InRange(m, pd) && m'.pages == Put(m, pd, i, ZERO_WORD).pages
    ensures InRange(m', pd)
  {
    assert forall f: Hi, k: Idx :: Get(m', f, k) == Get(m, f, k) || Get(m', f, k) == ZERO_WORD;
    forall k: Idx | k >= USER_DIR && Freeable(Get(m', pd, k))
      ensures Get(m', pd, k).hi < NUM_FRAMES && TableInRange(m', Get(m', pd, k).hi)
    {
      assert Get(m', pd, k) == Get(m, pd, k);
      assert TableInRange(m, Get(m, pd, k).hi);
    }
  }

  /** Rounding the old break up to a page. */
  lemma FirstPage(brk: uint32)
    ensures var rounded := (OldBreak(brk) + 4095) % TWO_32; rounded - rounded % 4096 == 4096 * FirstHeapPage(brk)
  {
  }

  lemma PageOfBreak(k: nat, newBreak: uint32)
    ensures 4096 * k < newBreak <==> k < EndHeapPage(newBreak)
    ensures EndHeapPage(newBreak) <= 0x100000
    ensures newBreak <= 0xFFFFF000 ==> EndHeapPage(newBreak) < 0x100000
  {
  }

  lemma ZeroedRangeStep(m: Mem, pd: Hi, v: nat, end: nat)
    requires v <= end <= 0x100000
    ensures ZeroedRange(m, pd, v, end) == if v == end then m else ZeroedRange(ZeroedPage(m, pd, v), pd, v + 1, end)
  {
  }

  class Memory {
    var pages: Ram
    const bitmap: array<bv32>
    ghost var exhausted: bool

    /** The memory at boot, with the bitmap initialised. */
    constructor (initial: Ram)
      ensures Valid() && fresh(bitmap) && State() == Mem(initial, {0}, false)
    {
      pages := initial;
      bitmap := new bv32[WORDS];
      exhausted := false;
      new;
      InitFrames();
    }

    ghost predicate Valid()
      reads this
    {
      bitmap.Length == WORDS
    }

    ghost function Used(): (used: set<nat>)
      requires Valid()
      reads this, bitmap
    {
      set f: nat | f < NUM_FRAMES && InUse(bitmap[..], f)
    }

    ghost function State(): Mem
      requires Valid()
      reads this, bitmap
    {
      Mem(pages, Used(), exhausted)
    }

    // ----- frame.c -----

    method SetFrame(f: nat)
      requires Valid() && f < NUM_FRAMES
      modifies bitmap
      ensures Valid() && Used() == old(Used()) + {f}
    {
      hide Mask, Test, Position, InUse;
      ghost var was := bitmap[..];
      bitmap[f / 32] := bitmap[f / 32] | Mask(Position(f));
      assert bitmap[..] == was[f / 32 := was[f / 32] | Mask(Position(f))];
      forall g: nat | g < NUM_FRAMES
        ensures InUse(bitmap[..], g) <==> g == f || InUse(was, g)
      {
        SetBit(was, f, g);
      }
    }

    method ClearFrame(f: nat)
      requires Valid() && f < NUM_FRAMES
      modifies bitmap
      ensures Valid() && Used() == old(Used()) - {f}
    {
      hide Mask, Test, Position, InUse;
      ghost var was := bitmap[..];
      bitmap[f / 32] := bitmap[f / 32] & !Mask(Position(f));
      assert bitmap[..] == was[f / 32 := was[f / 32] & !Mask(Position(f))];
      forall g: nat | g < NUM_FRAMES
        ensures InUse(bitmap[..], g) <==> g != f && InUse(was, g)
      {
        ClearBit(was, f, g);
      }
    }

    method TestFrame(f: nat) returns (b: bool)
      requires Valid() && f < NUM_FRAMES
      ensures b <==> f in Used()
    {
      assert bitmap[..][f / 32] == bitmap[f / 32];
      b := Test(bitmap[f / 32], Mask(Position(f)));
    }

    method InitFrames()
      requires Valid()
      modifies bitmap
      ensures Valid() && Used() == {0}
    {
      for i := 0 to NUM_FRAMES
        invariant Valid() && forall f :: f in Used() ==> f >= i
      {
        ClearFrame(i);
      }
      SetFrame(0);
    }

    method AllocateFrame() returns (f: Hi)
      requires Valid()
      modifies this`exhausted, bitmap
      ensures Valid() && State() == Alloc(old(State())).m && f == Alloc(old(State())).f
    {
      ghost var s := State();
      for i := 1 to NUM_FRAMES
        invariant State() == s && LowestFree(s.used, 1) == LowestFree(s.used, i)
      {
        var inUse := TestFrame(i);
        if !inUse {
          SetFrame(i);
          return i;
        }
      }
      exhausted := true;
      return 0;
    }

    method FreeFrame(f: Hi)
      requires Valid() && f < NUM_FRAMES
      modifies bitmap
      ensures Valid() && State() == Free(old(State()), f)
    {
      if f == 0 {
        return;
      }
      ClearFrame(f);
    }

    // ----- page-table.c -----

    method WriteWord(f: Hi, j: Idx, w: Word)
      requires Valid()
      modifies this`pages
      ensures Valid() && State() == Put(old(State()), f, j, w)
    {
      pages := pages[f := pages[f][j := w]];
    }

    method IdentityMap(pd: Hi, f: Hi)
      requires Valid()
      modifies this`pages
      ensures Valid() && State() == IdentityMapIn(old(State()), pd, f)
    {
      var t := pages[pd][f / 1024].hi;
      WriteWord(t, f % 1024, Word(f, KERNEL_FLAGS));
    }

    method ZeroFrame(f: Hi)
      requires Valid()
      modifies this`pages
      ensures Valid() && State() == PutPage(old(State()), f, ZeroPage())
    {
      ghost var old_ := pages;
      for i := 0 to 1024
        invariant Valid() && Used() == old(Used()) && exhausted == old(exhausted)
        invariant forall g: Hi :: g != f ==> pages[g] == old_[g]
        invariant forall k: Idx :: k < i ==> pages[f][k] == ZERO_WORD
      {
        pages := pages[f := pages[f][i := ZERO_WORD]];
      }
      assert pages[f] == ZeroPage();
      assert pages == old_[f := ZeroPage()];
    }

    method CreatePageTable() returns (t: Hi)
      requires Valid()
      modifies this, bitmap
      ensures Valid() && State() == CreateTable(old(State())).m && t == CreateTable(old(State())).f
    {
      t := AllocateFrame();
      ZeroFrame(t);
    }

    method MapPageAt(pd: Hi, v: Hi, f: Hi, flags: Lo)
      requires Valid()
      modifies this, bitmap
      ensures Valid() && State() == MapPage(old(State()), pd, v, f, flags)
    {
      var i, j := v / 1024, v % 1024;
      var table;
      if pages[pd][i].Present() {
        table := pages[pd][i].hi;
      } else {
        table := CreatePageTable();
        WriteWord(pd, i, Word(table, WithPresent(flags)));
        IdentityMap(pd, table);
      }
      WriteWord(table, j, Word(f, WithPresent(flags)));
    }

    method CreatePageDirectory() returns (d: Hi)
      requires Valid()
      modifies this, bitmap
      ensures Valid() && State() == CreateDirectory(old(State())).m && d == CreateDirectory(old(State())).f
    {
      d := AllocateFrame();
      ZeroFrame(d);
      MapPageAt(d, d, d, KERNEL_FLAGS);
    }

    /** The body of the inner loop of copy_page_directory. */
    method CopyOneLeaf(source: Hi, st: Hi, dt: Hi, j: Idx)
      requires Valid()
      modifies this, bitmap
      ensures Valid() && State() == CopyLeaf(old(State()), source, st, dt, j)
    {
      if pages[st][j].Present() {
        var from := pages[st][j].hi;
        var to := AllocateFrame();
        IdentityMap(source, to);
        IdentityMap(source, from);
        pages := pages[to := pages[from]];
        WriteWord(dt, j, Word(to, pages[st][j].lo));
      }
    }

    method CopyTable(source: Hi, st: Hi, dt: Hi)
      requires Valid()
      modifies this, bitmap
      ensures Valid() && State() == CopyLeaves(old(State()), source, st, dt, 0)
    {
      hide CopyLeaf;
      for j := 0 to 1024
        invariant Valid()
        invariant CopyLeaves(State(), source, st, dt, j) == CopyLeaves(old(State()), source, st, dt, 0)
      {
        CopyOneLeaf(source, st, dt, j);
      }
    }

    method CopyPageDirectory(dest: Hi, source: Hi)
      requires Valid()
      modifies this, bitmap
      ensures Valid() && State() == CopyDirectory(old(State()), dest, source, 0)
    {
      hide CopyLeaf;
      for i := 0 to 1024
        invariant Valid()
        invariant CopyDirectory(State(), dest, source, i) == CopyDirectory(old(State()), dest, source, 0)
      {
        var e := pages[source][i];
        if !e.Present() {
          continue;
        }
        if i < USER_DIR {
          WriteWord(dest, i, e);
          continue;
        }
        var table := AllocateFrame();
        IdentityMap(source, table);
        ZeroFrame(table);
        CopyTable(source, e.hi, table);
        WriteWord(dest, i, Word(table, pages[source][i].lo));
      }
    }

    method FreeTable(t: Hi)
      requires Valid() && TableInRange(State(), t)
      modifies bitmap
      ensures Valid() && State() == FreeLeaves(old(State()), t, 0)
    {
      for j := 0 to 1024
        invariant Valid()
        invariant FreeLeaves(State(), t, j) == FreeLeaves(old(State()), t, 0)
      {
        var e := pages[t][j];
        if e.Present() {
          if !e.User() {
            continue;
          }
          assert Freeable(Get(State(), t, j));
          FreeFrame(e.hi);
        }
      }
    }

    method ClearPageDirectory(pd: Hi)
      requires Valid() && InRange(State(), pd)
      modifies this`pages, bitmap
      ensures Valid() && State() == ClearDirectory(old(State()), pd, 0)
    {
      for i := 0 to 1024
        invariant Valid() && InRange(State(), pd)
        invariant ClearDirectory(State(), pd, i) == ClearDirectory(old(State()), pd, 0)
      {
        var e := pages[pd][i];
        if !e.Present() || i < USER_DIR || !e.User() {
          continue;
        }
        assert Freeable(Get(State(), pd, i));
        ghost var s := State();
        FreeTable(e.hi);
        FreeLeavesKeepsPages(s, e.hi, 0);
        FreeFrame(e.hi);
        WriteWord(pd, i, ZERO_WORD);
        StaysInRange(s, State(), pd, i);
      }
    }

    /** The memory part of handle_syscall_fork. */
    method ForkDirectory(pd: Hi) returns (child: Hi)
      requires Valid()
      modifies this, bitmap
      ensures Valid() && State() == Fork(old(State()), pd).m && child == Fork(old(State()), pd).f
    {
      child := AllocateFrame();
      IdentityMap(pd, child);
      ZeroFrame(child);
      CopyPageDirectory(child, pd);
    }

    // ----- exec, sbrk and process creation -----

    method MapFreshPage(pd: Hi, v: Hi)
      requires Valid()
      modifies this, bitmap
      ensures Valid() && State() == MapFresh(old(State()), pd, v)
    {
      var f := AllocateFrame();
      MapPageAt(pd, v, f, USER_FLAGS);
    }

    /** A store of a whole page through its virtual address. */
    method StoreVirtual(pd: Hi, v: Hi, p: Page)
      requires Valid()
      modifies this`pages
      ensures Valid() && State() == WriteVirtual(old(State()), pd, v, p)
    {
      var f := pages[pages[pd][v / 1024].hi][v % 1024].hi;
      pages := pages[f := p];
    }

    method ZeroNewPage(pd: Hi, v: Hi)
      requires Valid()
      modifies this, bitmap
      ensures Valid() && State() == ZeroedPage(old(State()), pd, v)
    {
      hide MapFresh;
      MapFreshPage(pd, v);
      StoreVirtual(pd, v, ZeroPage());
    }

    method UpdatePageDirectory(pd: Hi, file: File)
      requires Valid()
      modifies this, bitmap
      ensures Valid() && State() == UpdateDirectory(old(State()), pd, file)
    {
      hide MapFresh, ZeroedPage, Blit;
      var codePages := CodePages(file);
      for i := 0 to codePages
        invariant Valid()
        invariant LoadCode(State(), pd, file, i) == LoadCode(old(State()), pd, file, 0)
      {
        var v: Hi := USER_PAGE + i;
        MapFreshPage(pd, v);
        var f := pages[pages[pd][v / 1024].hi][v % 1024].hi;
        StoreVirtual(pd, v, Blit(pages[f], Chunk(file, i)));
      }
      ghost var loaded := State();
      for i := codePages to codePages + BSS_PAGES
        invariant Valid()
        invariant ZeroedRange(State(), pd, USER_PAGE + i, USER_PAGE + codePages + BSS_PAGES)
               == ZeroedRange(loaded, pd, USER_PAGE + codePages, USER_PAGE + codePages + BSS_PAGES)
      {
        ZeroNewPage(pd, USER_PAGE + i);
      }
      MapFreshPage(pd, STACK_PAGE);
    }

    /** handle_syscall_sbrk: maps up to the new break, and returns it with the old one. */
    method GrowHeap(pd: Hi, brk: uint32, offset: uint32) returns (oldBreak: uint32, newBreak: uint32)
      requires Valid() && SbrkLoopEnds(brk, offset)
      modifies this, bitmap
      ensures Valid() && State() == Sbrk(old(State()), pd, brk, offset).m
      ensures oldBreak == OldBreak(brk) && newBreak == Sbrk(old(State()), pd, brk, offset).brk
    {
      oldBreak := if brk == 0 then 0x48000000 else brk;
      if offset == 0 {
        newBreak := oldBreak;
        return;
      }
      newBreak := (oldBreak + offset) % TWO_32;
      var rounded := (oldBreak + 4095) % TWO_32;
      FirstPage(brk);
      ZeroPages(pd, rounded - rounded % 4096, newBreak, FirstHeapPage(brk));
    }

    /** The mapping loop of handle_syscall_sbrk. */
    method ZeroPages(pd: Hi, start: uint32, newBreak: uint32, ghost first: Hi)
      requires Valid() && start == 4096 * first && (newBreak <= 0xFFFFF000 || start >= newBreak)
      modifies this, bitmap
      ensures Valid()
      ensures var end := EndHeapPage(newBreak);
        State() == if first < end then ZeroedRange(old(State()), pd, first, end) else old(State())
    {
      hide ZeroedPage, ZeroedRange, EndHeapPage;
      var page := start;
      ghost var k: nat, end := first, EndHeapPage(newBreak);
      ghost var s := State();
      PageOfBreak(first, newBreak);
      while page < newBreak
        invariant Valid() && page == 4096 * k
        invariant if first < end then
                    k <= end && ZeroedRange(State(), pd, k, end) == ZeroedRange(s, pd, first, end)
                  else k == first && State() == s
        decreases newBreak - page
      {
        PageOfBreak(k, newBreak);
        ZeroedRangeStep(State(), pd, k, end);
        ZeroNewPage(pd, page / 4096);
        page := (page + 4096) % TWO_32;
        k := k + 1;
      }
      if first < end {
        PageOfBreak(k, newBreak);
        ZeroedRangeStep(State(), pd, k, end);
      }
    }

    method MapIdentity(pd: Hi, start: nat, end: nat)
      requires Valid() && start <= end <= 0x100000
      modifies this, bitmap
      ensures Valid() && State() == IdentityRange(old(State()), pd, start, end)
    {
      hide MapPage;
      for v := start to end
        invariant Valid()
        invariant IdentityRange(State(), pd, v, end) == IdentityRange(old(State()), pd, start, end)
      {
        MapPageAt(pd, v, v, KERNEL_FLAGS);
      }
    }

    method CreateKernelPageDirectory(fb: Device, code: Page) returns (d: Hi)
      requires Valid() && fb.Valid()
      modifies this, bitmap
      ensures Valid() && State() == CreateKernelDirectory(old(State()), fb, code).m
      ensures d == CreateKernelDirectory(old(State()), fb, code).f
    {
      hide MapPage, CreateDirectory, Alloc;
      d := CreatePageDirectory();
      MapIdentity(d, 0, KERNEL_PAGES);
      MapIdentity(d, fb.start, fb.end);
      var func := AllocateFrame();
      var stack := AllocateFrame();
      pages := pages[func := code];
      MapPageAt(d, USER_PAGE, func, USER_FLAGS);
      MapPageAt(d, STACK_PAGE, stack, USER_FLAGS);
    }
  }
}
