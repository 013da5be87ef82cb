/** What the first directory of a process translates: the kernel's memory and the framebuffer to
    themselves, one page of code, one page of stack, and nothing else for ring 3. */
module KernelSpace {
  import opened PageTables
  import opened Ownership
  import opened ForkCopy
  import opened Mapping
  import opened AddressSpace
  import opened ExecImage
  import opened Isolation
  import FiniteSets
  import KernelHeap

  /** Page `w` translates to itself, for the kernel: present, writable, not for ring 3. */
  predicate Itself(m: Mem, d: Hi, w: Hi) { Mapped(m, d, w) && Pte(m, d, w) == Word(w, 3) }

  /** Page `w` keeps its entry or, below 0x40000, gets its identity mapping. */
  ghost predicate Kept(m: Mem, m': Mem, d: Hi, w: Hi) {
    || ((Mapped(m', d, w) <==> Mapped(m, d, w)) && (Mapped(m, d, w) ==> Pte(m', d, w) == Pte(m, d, w)))
    || (w < 0x40000 && Itself(m', d, w))
  }

  lemma KeptTrans(m: Mem, m1: Mem, m2: Mem, d: Hi, w: Hi)
    requires Kept(m, m1, d, w) && Kept(m1, m2, d, w)
    ensures Kept(m, m2, d, w)
  {
  }

  // ----- one page -----

  lemma LowTable(m: Mem, own: Own, dirs: set<Hi>, d: Hi, w: Hi)
    requires Inv(m, own, dirs) && d in dirs && w < USER_PAGE
    ensures d in own && own[d] == Dir(d) && d != 0
    ensures Pde(m, d, w).Present() ==> Pde(m, d, w).hi in own && own[Pde(m, d, w).hi] == Low(w / 1024)
    ensures Pde(m, d, w).Present() ==> Pde(m, d, w).hi != 0 && Pde(m, d, w).hi != d
  {
    assert DirOk(m, own, d);
    assert LowOk(own, w / 1024, Get(m, d, w / 1024));
  }

  lemma IdentityMapKeepsPage(m: Mem, own: Own, dirs: set<Hi>, d: Hi, f: Hi, w: Hi)
    requires Inv(m, own, dirs) && d in dirs && f < NUM_FRAMES && w < USER_PAGE
    ensures Kept(m, IdentityMapIn(m, d, f), d, w)
  {
    IdentityMapKeeps(m, own, dirs, d, f);
    LowTable(m, own, dirs, d, w);
    var m' := IdentityMapIn(m, d, f);
    if Pde(m, d, w).Present() {
      var t := Pde(m, d, w).hi;
      assert IdentityMapsAdded(m.pages[t], m'.pages[t], w / 1024);
    }
  }

  lemma PutKeepsPage(m: Mem, own: Own, dirs: set<Hi>, d: Hi, v: Hi, e: Word, w: Hi)
    requires Inv(m, own, dirs) && d in dirs && Pde(m, d, v).Present() && w < USER_PAGE && w != v
    ensures Kept(m, Put(m, Pde(m, d, v).hi, v % 1024, e), d, w)
  {
    LowTable(m, own, dirs, d, w);
    var t := Pde(m, d, v).hi;
    if v < USER_PAGE {
      LowTable(m, own, dirs, d, v);
    } else {
      assert DirOk(m, own, d);
      assert TableOk(m, own, d, v / 1024, t);
    }
  }

  lemma FreshTableKeepsPage(m: Mem, own: Own, dirs: set<Hi>, d: Hi, v: Hi, lo: Lo, w: Hi)
    requires Inv(m, own, dirs) && d in dirs && !Pde(m, d, v).Present() && lo % 2 == 1 && !CreateTable(m).m.exhausted
    requires w < USER_PAGE
    ensures Kept(m, Put(CreateTable(m).m, d, v / 1024, Word(CreateTable(m).f, lo)), d, w)
  {
    hide CreateTable;
    LowTable(m, own, dirs, d, w);
    var own' := AttachFreshTable(m, own, dirs, d, v, lo);
  }

  lemma MapPageKeepsPage(m: Mem, own: Own, dirs: set<Hi>, d: Hi, v: Hi, f: Hi, flags: Lo, w: Hi)
    requires Inv(m, own, dirs) && d in dirs && !MapPage(m, d, v, f, flags).exhausted && w != v
    requires var e := Word(f, WithPresent(flags));
      if v >= USER_PAGE then LeafOk(own, d, v / 1024, v % 1024, e) else CleanEntry(own, e)
    ensures Kept(m, MapPage(m, d, v, f, flags), d, w)
  {
    var e := Word(f, WithPresent(flags));
    if w >= USER_PAGE {
      var own' := MapPageMaps(m, own, dirs, d, v, f, flags);
      assert SameEntry(m, MapPage(m, d, v, f, flags), d, w);
    } else if Pde(m, d, v).Present() {
      PutKeepsPage(m, own, dirs, d, v, e, w);
    } else {
      var t := CreateTable(m);
      var own' := AttachFreshTable(m, own, dirs, d, v, e.lo);
      var m2 := Put(t.m, d, v / 1024, Word(t.f, e.lo));
      FreshTableKeepsPage(m, own, dirs, d, v, e.lo, w);
      var m3 := IdentityMapIn(m2, d, t.f);
      IdentityMapKeepsPage(m2, own', dirs, d, t.f, w);
      IdentityMapSameEntries(m2, own', dirs, d, t.f);
      assert Pde(m3, d, v) == Word(t.f, e.lo);
      PutKeepsPage(m3, own', dirs, d, v, e, w);
      KeptTrans(m, m2, m3, d, w);
      KeptTrans(m, m3, Put(m3, t.f, v % 1024, e), d, w);
    }
  }

  /** A page table that map_page makes is on a frame that was free, maps the page as asked, and the
      kernel reaches it at its own address, if that part of the address space has a table. */
  lemma NewTableIsReached(m: Mem, own: Own, dirs: set<Hi>, d: Hi, v: Hi, f: Hi, flags: Lo)
    requires Inv(m, own, dirs) && d in dirs && !Pde(m, d, v).Present() && !MapPage(m, d, v, f, flags).exhausted
    ensures var m' := MapPage(m, d, v, f, flags);
      var t := Pde(m', d, v).hi;
      && t < 32768 && t !in m.used && m'.used == m.used + {t}
      && Mapped(m', d, v) && Pte(m', d, v).hi == f && Pte(m', d, v).lo / 2 == flags / 2
      && Pde(m', d, v).lo == Pte(m', d, v).lo
      && (t != v && Pde(m', d, t).Present() ==> Itself(m', d, t))
  {
    var lo := WithPresent(flags);
    var t := CreateTable(m);
    var own' := AttachFreshTable(m, own, dirs, d, v, lo);
    var m2 := Put(t.m, d, v / 1024, Word(t.f, lo));
    LowTable(m2, own', dirs, d, t.f);
    IdentityMapSameEntries(m2, own', dirs, d, t.f);
  }

  // ----- ranges of pages -----

  /** A range mapped for the kernel translates to itself, and other pages are kept. */
  lemma {:induction false} RangeTranslates(m: Mem, own: Own, dirs: set<Hi>, d: Hi, v: nat, end: nat, w: Hi)
    returns (own': Own)
    requires v <= end <= 0x100000 && (end <= KERNEL_PAGES || v >= NUM_FRAMES)
    requires Inv(m, own, dirs) && d in dirs && !IdentityRange(m, d, v, end).exhausted
    ensures Inv(IdentityRange(m, d, v, end), own', dirs)
    ensures v <= w < end ==> Itself(IdentityRange(m, d, v, end), d, w)
    ensures !(v <= w < end) ==> Kept(m, IdentityRange(m, d, v, end), d, w)
    decreases end - v
  {
    hide MapPage, Inv, PageMapped, Kept, Itself;
    own' := own;
    if v == end {
      KeptSelf(m, d, w);
    } else {
      var m1 := MapPage(m, d, v, v, KERNEL_FLAGS);
      own' := PageTranslates(m, own, dirs, d, v, w);
      own' := RangeTranslates(m1, own', dirs, d, v + 1, end, w);
      var m2 := IdentityRange(m1, d, v + 1, end);
      if w == v {
        ItselfIsKept(m1, m2, d, w);
      } else if !(v <= w < end) {
        KeptTrans(m, m1, m2, d, w);
      }
    }
  }

  lemma PageTranslates(m: Mem, own: Own, dirs: set<Hi>, d: Hi, v: Hi, w: Hi) returns (own': Own)
    requires v < KERNEL_PAGES || v >= NUM_FRAMES
    requires Inv(m, own, dirs) && d in dirs && !MapPage(m, d, v, v, KERNEL_FLAGS).exhausted
    ensures var m' := MapPage(m, d, v, v, KERNEL_FLAGS);
      Inv(m', own', dirs) && if w == v then Itself(m', d, w) else Kept(m, m', d, w)
  {
    hide MapPage;
    own' := MapPageMaps(m, own, dirs, d, v, v, KERNEL_FLAGS);
    if w != v {
      MapPageKeepsPage(m, own, dirs, d, v, v, KERNEL_FLAGS, w);
    }
  }

  lemma KeptSelf(m: Mem, d: Hi, w: Hi)
    ensures Kept(m, m, d, w)
  {
  }

  lemma ItselfIsKept(m: Mem, m': Mem, d: Hi, w: Hi)
    requires Itself(m, d, w) && Kept(m, m', d, w)
    ensures Itself(m', d, w)
  {
  }

  // ----- the new directory -----

  lemma NewDirectory(m: Mem, own: Own, dirs: set<Hi>, w: Hi) returns (own': Own)
    requires Inv(m, own, dirs) && !CreateDirectory(m).m.exhausted
    ensures var g := CreateDirectory(m);
      && Inv(g.m, own', dirs + {g.f}) && g.f !in m.used && m.used <= g.m.used
      && (Mapped(g.m, g.f, w) ==> w < 0x40000 && Itself(g.m, g.f, w)) && Itself(g.m, g.f, g.f)
  {
    var d := Alloc(m).f;
    var own1 := AllocKeeps(m, own, dirs, Dir(d));
    forall d' | d' in dirs
      ensures d' in own
    {
      assert DirOk(m, own, d');
    }
    var m1 := PutPage(Alloc(m).m, d, ZeroPage());
    PutPageKeeps(Alloc(m).m, own1, dirs, d, ZeroPage());
    assert DirOk(m1, own1, d) by {
      assert forall i: Idx :: Get(m1, d, i) == ZERO_WORD;
    }
    own' := MapPageMaps(m1, own1, dirs + {d}, d, d, d, KERNEL_FLAGS);
    if w != d {
      MapPageKeepsPage(m1, own1, dirs + {d}, d, d, d, KERNEL_FLAGS, w);
    }
  }

  /** Two user pages on fresh frames, mapped after both are allocated. */
  lemma UserPages(m: Mem, own: Own, dirs: set<Hi>, d: Hi, code: Page, w: Hi) returns (own': Own)
    requires Inv(m, own, dirs) && d in dirs
    requires var a, s := Alloc(m), Alloc(Alloc(m).m);
      var m1 := MapPage(PutPage(s.m, a.f, code), d, USER_PAGE, a.f, USER_FLAGS);
      !MapPage(m1, d, STACK_PAGE, s.f, USER_FLAGS).exhausted
    ensures var a, s := Alloc(m), Alloc(Alloc(m).m);
      var m1 := MapPage(PutPage(s.m, a.f, code), d, USER_PAGE, a.f, USER_FLAGS);
      var m' := MapPage(m1, d, STACK_PAGE, s.f, USER_FLAGS);
      && a.f !in m.used && s.f !in m.used && a.f != s.f
      && Mapped(m', d, USER_PAGE) && Pte(m', d, USER_PAGE) == Word(a.f, USER_FLAGS) && m'.pages[a.f] == code
      && Mapped(m', d, STACK_PAGE) && Pte(m', d, STACK_PAGE) == Word(s.f, USER_FLAGS)
      && (w != USER_PAGE && w != STACK_PAGE ==> Kept(m, m', d, w))
  {
    hide MapPage;
    var a, s := Alloc(m), Alloc(Alloc(m).m);
    MapTwiceRuns(m, d, code);
    var own1 := AllocKeeps(m, own, dirs, Leaf(d, USER_PAGE / 1024, USER_PAGE % 1024));
    var own2 := AllocKeeps(a.m, own1, dirs, Leaf(d, STACK_PAGE / 1024, STACK_PAGE % 1024));
    PutPageKeeps(s.m, own2, dirs, a.f, code);
    var m0 := PutPage(s.m, a.f, code);
    StoringKeepsWalk(m, own, dirs, s.m, own2, d, a.f, code, w);
    UserPagesMapped(m0, own2, dirs, d, a.f, s.f, w);
    own' := own2;
  }

  lemma MapTwiceRuns(m: Mem, d: Hi, code: Page)
    requires var a, s := Alloc(m), Alloc(Alloc(m).m);
      var m1 := MapPage(PutPage(s.m, a.f, code), d, USER_PAGE, a.f, USER_FLAGS);
      !MapPage(m1, d, STACK_PAGE, s.f, USER_FLAGS).exhausted
    ensures !Alloc(m).m.exhausted && !Alloc(Alloc(m).m).m.exhausted
  {
  }

  /** Allocating two frames and storing in one changes no translation. */
  lemma StoringKeepsWalk(m: Mem, own: Own, dirs: set<Hi>, m2: Mem, own2: Own, d: Hi, f: Hi, code: Page, w: Hi)
    requires Inv(m, own, dirs) && d in dirs && m2.pages == m.pages && f !in own
    ensures Kept(m, PutPage(m2, f, code), d, w)
  {
    assert DirOk(m, own, d);
    var i: Idx := w / 1024;
    if i < USER_DIR {
      LowTable(m, own, dirs, d, w);
    } else if Get(m, d, i).Present() {
      assert TableOk(m, own, d, i, Get(m, d, i).hi);
    }
  }

  lemma UserPagesMapped(m: Mem, own: Own, dirs: set<Hi>, d: Hi, f: Hi, g: Hi, w: Hi)
    requires Inv(m, own, dirs) && d in dirs
    requires f in own && own[f] == Leaf(d, USER_PAGE / 1024, USER_PAGE % 1024)
    requires g in own && own[g] == Leaf(d, STACK_PAGE / 1024, STACK_PAGE % 1024)
    requires !MapPage(MapPage(m, d, USER_PAGE, f, USER_FLAGS), d, STACK_PAGE, g, USER_FLAGS).exhausted
    ensures var m' := MapPage(MapPage(m, d, USER_PAGE, f, USER_FLAGS), d, STACK_PAGE, g, USER_FLAGS);
      && Mapped(m', d, USER_PAGE) && Pte(m', d, USER_PAGE) == Word(f, USER_FLAGS) && m'.pages[f] == m.pages[f]
      && Mapped(m', d, STACK_PAGE) && Pte(m', d, STACK_PAGE) == Word(g, USER_FLAGS)
      && (w != USER_PAGE && w != STACK_PAGE ==> Kept(m, m', d, w))
  {
    hide MapPage;
    var m1 := MapPage(m, d, USER_PAGE, f, USER_FLAGS);
    var m2 := MapPage(m1, d, STACK_PAGE, g, USER_FLAGS);
    var own1 := MapPageMaps(m, own, dirs, d, USER_PAGE, f, USER_FLAGS);
    var own2 := MapPageMaps(m1, own1, dirs, d, STACK_PAGE, g, USER_FLAGS);
    assert SameEntry(m1, m2, d, USER_PAGE);
    if w != USER_PAGE && w != STACK_PAGE {
      MapPageKeepsPage(m, own, dirs, d, USER_PAGE, f, USER_FLAGS, w);
      MapPageKeepsPage(m1, own1, dirs, d, STACK_PAGE, g, USER_FLAGS, w);
      KeptTrans(m, m1, m2, d, w);
    }
  }

  lemma {:induction false} RangeUsesMore(m: Mem, d: Hi, v: nat, end: nat)
    requires v <= end <= 0x100000
    ensures m.used <= IdentityRange(m, d, v, end).used
    decreases end - v
  {
    if v < end {
      RangeUsesMore(MapPage(m, d, v, v, KERNEL_FLAGS), d, v + 1, end);
      assert m.used <= MapPage(m, d, v, v, KERNEL_FLAGS).used;
    }
  }

  /** Up to the user pages: kernel and framebuffer translate to themselves, and so does whatever else
      is mapped. */
  lemma KernelPages(m: Mem, own: Own, dirs: set<Hi>, fb: Device, w: Hi) returns (own': Own)
    requires Inv(m, own, dirs) && fb.Valid()
    requires var g := CreateDirectory(m);
      !IdentityRange(IdentityRange(g.m, g.f, 0, KERNEL_PAGES), g.f, fb.start, fb.end).exhausted
    ensures var g := CreateDirectory(m);
      var m' := IdentityRange(IdentityRange(g.m, g.f, 0, KERNEL_PAGES), g.f, fb.start, fb.end);
      && Inv(m', own', dirs + {g.f}) && m.used <= m'.used
      && (w < KERNEL_PAGES || fb.start <= w < fb.end || w == g.f ==> Itself(m', g.f, w))
      && (Mapped(m', g.f, w) ==> Itself(m', g.f, w) && (w < 0x40000 || fb.start <= w < fb.end))
  {
    hide CreateDirectory, MapPage, Inv;
    var g := CreateDirectory(m);
    var own0 := NewDirectory(m, own, dirs, w);
    var m1 := IdentityRange(g.m, g.f, 0, KERNEL_PAGES);
    var own1 := RangeTranslates(g.m, own0, dirs + {g.f}, g.f, 0, KERNEL_PAGES, w);
    own' := RangeTranslates(m1, own1, dirs + {g.f}, g.f, fb.start, fb.end, w);
    RangeUsesMore(g.m, g.f, 0, KERNEL_PAGES);
    RangeUsesMore(m1, g.f, fb.start, fb.end);
  }

  /** The first directory of a process, page by page. Every page below the end of the kernel heap, at
      address 0x400000, every page of the framebuffer, and the directory's own page translate to
      themselves for the kernel; the pages at 0x40000000 and 0x50000000 lead to two frames that were
      free, open to ring 3, the first with the code; and whatever else is mapped translates to itself,
      for the kernel, below 0x40000000. */
  lemma FirstDirectoryTranslates(m: Mem, dirs: set<Hi>, fb: Device, code: Page, w: Hi)
    requires WellOwned(m, dirs) && fb.Valid() && !CreateKernelDirectory(m, fb, code).m.exhausted
    ensures var g := CreateKernelDirectory(m, fb, code);
      var e, s := Pte(g.m, g.f, 0x40000), Pte(g.m, g.f, 0x50000);
      && g.f !in m.used
      && Mapped(g.m, g.f, 0x40000) && e.lo == 7 && e.hi !in m.used && g.m.pages[e.hi] == code
      && Mapped(g.m, g.f, 0x50000) && s.lo == 7 && s.hi !in m.used && s.hi != e.hi
      && (w != 0x40000 && w != 0x50000 ==>
            && (w * 4096 < 0x400000 || fb.start <= w < fb.end || w == g.f ==> Itself(g.m, g.f, w))
            && (Mapped(g.m, g.f, w) ==> Itself(g.m, g.f, w) && (w * 4096 < 0x40000000 || fb.start <= w < fb.end)))
  {
    var own: Own :| Inv(m, own, dirs);
    var g := CreateDirectory(m);
    var m2 := IdentityRange(IdentityRange(g.m, g.f, 0, KERNEL_PAGES), g.f, fb.start, fb.end);
    MapTwiceMonotone(m2, g.f, code);
    hide CreateDirectory, MapPage, Alloc, Kept, Itself, IdentityRange;
    var own0 := NewDirectory(m, own, dirs, w);
    var own2 := KernelPages(m, own, dirs, fb, w);
    var own' := UserPages(m2, own2, dirs + {g.f}, g.f, code, w);
    if w != USER_PAGE && w != STACK_PAGE {
      KeptMapping(m2, CreateKernelDirectory(m, fb, code).m, g.f, w);
    }
  }

  lemma KeptMapping(m: Mem, m': Mem, d: Hi, w: Hi)
    requires Kept(m, m', d, w)
    ensures Itself(m, d, w) ==> Itself(m', d, w)
    ensures Mapped(m', d, w) ==> Mapped(m, d, w) || (w < 0x40000 && Itself(m', d, w))
    ensures Itself(m, d, w) || !Mapped(m, d, w) ==> Mapped(m', d, w) ==> Itself(m', d, w)
  {
  }

  /** So a process that has just been created in any run finds every byte of every heap block at its own
      address. */
  lemma HeapIsMapped(pages: Ram, es: seq<Event>, pid: nat, fb: Device, code: Page,
                     bs: seq<KernelHeap.Block>, b: KernelHeap.Block, a: nat)
    requires var s := Run(Boot(pages), es);
      pid !in s.procs && fb.Valid() && !Step(s, DoCreate(pid, fb, code)).mem.exhausted
    requires KernelHeap.Inv(bs) && b in bs && b.addr <= a < KernelHeap.End(b)
    ensures a / 4096 < 0x100000
    ensures var s' := Step(Run(Boot(pages), es), DoCreate(pid, fb, code));
      pid in s'.procs && Itself(s'.mem, s'.procs[pid].pd, a / 4096)
  {
    hide Run, CreateKernelDirectory, Itself;
    var i :| 0 <= i < |bs| && bs[i] == b;
    KernelHeap.FitsBounds(bs, KernelHeap.HEAP_START, KernelHeap.HEAP_END, i);
    var s := Run(Boot(pages), es);
    StepMonotone(s, DoCreate(pid, fb, code));
    RunsAreWellOwned(pages, es);
    FirstDirectoryTranslates(s.mem, s.Dirs(), fb, code, a / 4096);
  }

  // ----- the kernel's frames over runs -----

  /** The frames below the end of the kernel heap have no role but that of boot. */
  ghost predicate KernelReserved(own: Own) {
    forall f: nat :: f * 4096 <= 0x400000 ==> f in own && if f == 0 then own[f] == Kernel else own[f] == Reserved
  }

  lemma BootReserves(pages: Ram) returns (own: Own)
    ensures SysInv(Boot(pages), own) && KernelReserved(own)
  {
    hide SysInv, FiniteSets.Range;
    FiniteSets.RangeIs(0, BOOT_FRAMES);
    own := BootKeeps(pages);
  }

  lemma {:induction false} RunKeepsReserved(s: System, own: Own, es: seq<Event>) returns (own': Own)
    requires SysInv(s, own) && KernelReserved(own) && !Run(s, es).mem.exhausted
    ensures SysInv(Run(s, es), own') && KernelReserved(own')
    decreases |es|
  {
    hide Step, SysInv, KernelReserved;
    own' := own;
    if es != [] {
      RunMonotone(Step(s, es[0]), es[1..]);
      own' := StepKeeps(s, own, es[0]);
      StepKeepsReserved(s, own, es[0], own');
      own' := RunKeepsReserved(Step(s, es[0]), own', es[1..]);
    }
  }

  lemma StepKeepsReserved(s: System, own: Own, e: Event, own': Own)
    requires KernelReserved(own) && ActsFor(s, own, Step(s, e), own', Actor(e))
    ensures KernelReserved(own')
  {
    hide Step;
    assert KernelKept(own, own');
  }

  /** Over every run no page that ring 3 can use, at whatever address and of whatever process, leads to
      a frame of the kernel's memory, and these frames are never free. */
  lemma KernelMemoryIsOutOfReach(pages: Ram, es: seq<Event>, pid: nat, v: Hi, f: Hi)
    requires !Run(Boot(pages), es).mem.exhausted && pid in Run(Boot(pages), es).procs && f * 4096 <= 0x400000
    ensures var s := Run(Boot(pages), es);
      f in s.mem.used && !(UserMapped(s.mem, s.procs[pid].pd, v) && Pte(s.mem, s.procs[pid].pd, v).hi == f)
  {
    hide Run, Boot, KernelReserved;
    var own := BootReserves(pages);
    own := RunKeepsReserved(Boot(pages), own, es);
    NotReached(Run(Boot(pages), es), own, pid, v, f);
  }

  lemma NotReached(s: System, own: Own, pid: nat, v: Hi, f: Hi)
    requires SysInv(s, own) && KernelReserved(own) && pid in s.procs && f * 4096 <= 0x400000
    ensures f in s.mem.used && !(UserMapped(s.mem, s.procs[pid].pd, v) && Pte(s.mem, s.procs[pid].pd, v).hi == f)
  {
    var d := s.procs[pid].pd;
    assert d in s.Dirs() && f in own;
    if UserMapped(s.mem, d, v) {
      if v < USER_PAGE {
        LowPageIsLeaked(s.mem, own, s.Dirs(), d, v);
      } else {
        UserPageIsLeaf(s.mem, own, s.Dirs(), d, v);
      }
    }
  }
}
