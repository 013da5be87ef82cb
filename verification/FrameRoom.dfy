/** How many free frames each procedure needs, so that the allocator does not run out, and a machine
    on which exec succeeds and yet hides the image from ring 3. */
module FrameRoom {
  import opened FiniteSets
  import opened PageTables
  import opened Ownership
  import opened ForkCopy
  import opened Mapping
  import opened AddressSpace
  import opened ExecImage
  import opened Isolation

  /** Frame 0 is in use, the allocator has not run out, and at least `n` frames are free. */
  ghost predicate Room(m: Mem, n: nat) {
    !m.exhausted && 0 in m.used && (forall f :: f in m.used ==> f < NUM_FRAMES) && |m.used| + n <= NUM_FRAMES
  }

  // ----- what each procedure needs -----

  lemma AllocRoom(m: Mem, n: nat)
    requires Room(m, n + 1)
    ensures Room(Alloc(m).m, n)
  {
    if LowestFree(m.used, 1) == 0 {
      EveryFrame(m.used, NUM_FRAMES);
    }
  }

  lemma EveryFrame(used: set<nat>, n: nat)
    requires forall f: nat :: f < n ==> f in used
    ensures |used| >= n
  {
    SubsetSize(Range(0, n), used);
  }

  /** map_page needs a frame for a page table at most. */
  lemma MapPageRoom(m: Mem, d: Hi, v: Hi, f: Hi, flags: Lo, n: nat)
    requires Room(m, n + 1)
    ensures Room(MapPage(m, d, v, f, flags), n)
  {
    hide Room, Alloc;
    AllocRoom(m, n);
    SameRoom(m, MapPage(m, d, v, f, flags), n + 1);
    SameRoom(Alloc(m).m, MapPage(m, d, v, f, flags), n);
  }

  lemma SameRoom(m: Mem, m': Mem, n: nat)
    requires Room(m, n)
    ensures m'.used == m.used && m'.exhausted == m.exhausted ==> Room(m', n) && Room(m', if n > 0 then n - 1 else 0)
  {
  }

  lemma MapFreshRoom(m: Mem, d: Hi, v: Hi, n: nat)
    requires Room(m, n + 2)
    ensures Room(MapFresh(m, d, v), n)
  {
    hide Room, Alloc, MapPage;
    AllocRoom(m, n + 1);
    MapPageRoom(Alloc(m).m, d, v, Alloc(m).f, USER_FLAGS, n);
  }

  lemma {:induction false} LoadCodeRoom(m: Mem, d: Hi, file: File, i: nat, n: nat)
    requires i <= CodePages(file) && Room(m, n + 2 * (CodePages(file) - i))
    ensures Room(LoadCode(m, d, file, i), n)
    decreases CodePages(file) - i
  {
    hide Room, LoadPage, CodePages, Chunk;
    if i < CodePages(file) {
      CodeIsSmall(file);
      LoadPageRoom(m, d, USER_PAGE + i, Chunk(file, i), n + 2 * (CodePages(file) - (i + 1)));
      LoadCodeRoom(LoadPage(m, d, USER_PAGE + i, Chunk(file, i)), d, file, i + 1, n);
    }
  }

  lemma CodeIsSmall(file: File)
    ensures CodePages(file) <= 0x80000
  {
  }

  lemma LoadPageRoom(m: Mem, d: Hi, v: Hi, bytes: seq<Byte>, n: nat)
    requires Room(m, n + 2)
    ensures Room(LoadPage(m, d, v, bytes), n)
  {
    hide MapFresh, Blit;
    MapFreshRoom(m, d, v, n);
  }

  lemma {:induction false} ZeroedRangeRoom(m: Mem, d: Hi, v: nat, end: nat, n: nat)
    requires v <= end <= 0x100000 && Room(m, n + 2 * (end - v))
    ensures Room(ZeroedRange(m, d, v, end), n)
    decreases end - v
  {
    if v < end {
      ZeroedPageRoom(m, d, v, n + 2 * (end - (v + 1)));
      hide Room, ZeroedPage;
      ZeroedRangeRoom(ZeroedPage(m, d, v), d, v + 1, end, n);
    }
  }

  lemma ZeroedPageRoom(m: Mem, d: Hi, v: Hi, n: nat)
    requires Room(m, n + 2)
    ensures Room(ZeroedPage(m, d, v), n)
  {
    hide MapFresh;
    MapFreshRoom(m, d, v, n);
  }

  /** What frees frames leaves room. */
  ghost predicate Shrinks(m: Mem, m': Mem) {
    m'.exhausted == m.exhausted && m'.used <= m.used && (0 in m.used ==> 0 in m'.used)
  }

  lemma ShrinksRoom(m: Mem, m': Mem, n: nat)
    requires Room(m, n) && Shrinks(m, m')
    ensures Room(m', n)
  {
    SubsetSize(m'.used, m.used);
  }

  lemma {:induction false} FreeLeavesShrinks(m: Mem, t: Hi, j: nat)
    requires j <= 1024
    ensures Shrinks(m, FreeLeaves(m, t, j))
    decreases 1024 - j
  {
    if j < 1024 {
      FreeLeavesShrinks(FreeLeaf(m, t, j), t, j + 1);
    }
  }

  lemma {:induction false} ClearShrinks(m: Mem, d: Hi, i: nat)
    requires i <= 1024
    ensures Shrinks(m, ClearDirectory(m, d, i))
    decreases 1024 - i
  {
    if i < 1024 {
      FreeLeavesShrinks(m, Get(m, d, i).hi, 0);
      assert Shrinks(m, ClearEntry(m, d, i)) by {
        hide FreeLeaves;
      }
      hide ClearEntry;
      ClearShrinks(ClearEntry(m, d, i), d, i + 1);
    }
  }

  /** exec does not run out of frames when twice as many are free as its image has pages: each page
      takes a frame, and a page table at most. */
  lemma ExecFits(m: Mem, d: Hi, file: File, n: nat)
    requires Room(m, n + 2 * (CodePages(file) + BSS_PAGES + 1))
    ensures Room(Exec(m, d, file), n)
  {
    hide Room, LoadPage, ZeroedPage, MapFresh;
    var p, c := USER_PAGE + CodePages(file), CodePages(file);
    var m0 := ClearDirectory(m, d, 0);
    ClearShrinks(m, d, 0);
    ShrinksRoom(m, m0, n + 2 * (c + BSS_PAGES + 1));
    LoadCodeRoom(m0, d, file, 0, n + 2 * (BSS_PAGES + 1));
    ZeroedRangeRoom(LoadCode(m0, d, file, 0), d, p, p + BSS_PAGES, n + 2);
    MapFreshRoom(ZeroedRange(LoadCode(m0, d, file, 0), d, p, p + BSS_PAGES), d, STACK_PAGE, n);
  }

  lemma {:induction false} IdentityRangeRoom(m: Mem, d: Hi, v: nat, end: nat, n: nat)
    requires v <= end <= 0x100000 && Room(m, n + (end - v))
    ensures Room(IdentityRange(m, d, v, end), n)
    decreases end - v
  {
    if v < end {
      hide Room, MapPage;
      MapPageRoom(m, d, v, v, KERNEL_FLAGS, n + (end - (v + 1)));
      IdentityRangeRoom(MapPage(m, d, v, v, KERNEL_FLAGS), d, v + 1, end, n);
    }
  }

  lemma CreateDirectoryRoom(m: Mem, n: nat)
    requires Room(m, n + 2)
    ensures Room(CreateDirectory(m).m, n)
  {
    hide MapPage;
    AllocRoom(m, n + 1);
    var a := Alloc(m);
    MapPageRoom(PutPage(a.m, a.f, ZeroPage()), a.f, a.f, a.f, KERNEL_FLAGS, n);
  }

  lemma MapBothRoom(m: Mem, d: Hi, code: Page, n: nat)
    requires Room(m, n + 4)
    ensures var a, s := Alloc(m), Alloc(Alloc(m).m);
      var m1 := MapPage(PutPage(s.m, a.f, code), d, USER_PAGE, a.f, USER_FLAGS);
      Room(MapPage(m1, d, STACK_PAGE, s.f, USER_FLAGS), n)
  {
    hide MapPage, Alloc;
    AllocRoom(m, n + 3);
    AllocRoom(Alloc(m).m, n + 2);
    var a, s := Alloc(m), Alloc(Alloc(m).m);
    MapPageRoom(PutPage(s.m, a.f, code), d, USER_PAGE, a.f, USER_FLAGS, n + 1);
    MapPageRoom(MapPage(PutPage(s.m, a.f, code), d, USER_PAGE, a.f, USER_FLAGS), d, STACK_PAGE, s.f, USER_FLAGS, n);
  }

  /** Creating a process takes at most a page table for each page it maps, and four frames more. */
  lemma CreateFits(m: Mem, fb: Device, code: Page, n: nat)
    requires fb.Valid() && Room(m, n + KERNEL_PAGES + (fb.end - fb.start) + 6)
    ensures Room(CreateKernelDirectory(m, fb, code).m, n)
  {
    hide Room, MapPage, CreateDirectory, Alloc;
    var g, k := CreateDirectory(m), fb.end - fb.start;
    CreateDirectoryRoom(m, n + KERNEL_PAGES + k + 4);
    IdentityRangeRoom(g.m, g.f, 0, KERNEL_PAGES, n + k + 4);
    IdentityRangeRoom(IdentityRange(g.m, g.f, 0, KERNEL_PAGES), g.f, fb.start, fb.end, n + 4);
    MapBothRoom(IdentityRange(IdentityRange(g.m, g.f, 0, KERNEL_PAGES), g.f, fb.start, fb.end), g.f, code, n);
  }

  lemma BootRoom(pages: Ram, n: nat)
    requires BOOT_FRAMES + n <= NUM_FRAMES
    ensures Room(Boot(pages).mem, n) && Boot(pages).procs == map[]
  {
    hide Range;
    RangeIs(0, BOOT_FRAMES);
  }

  // ----- a framebuffer among the image's pages -----

  /** One page mapped for the kernel: a table that is made for it is a supervisor one. */
  lemma KernelPageCloses(m: Mem, own: Own, m': Mem, own': Own, dirs: set<Hi>, d: Hi, v: Hi, k: Idx)
    requires PageMapped(m, own, m', own', dirs, d, v, Word(v, KERNEL_FLAGS))
    ensures v / 1024 != k ==> Get(m', d, k) == Get(m, d, k)
    ensures Closed(m, d, k) || (!Get(m, d, k).Present() && v / 1024 == k) ==> Closed(m', d, k)
  {
  }

  lemma {:induction false} IdentityRangeCloses(m: Mem, own: Own, dirs: set<Hi>, d: Hi, v: nat, end: nat, k: Idx)
    returns (own': Own)
    requires v <= end <= 0x100000 && (end <= KERNEL_PAGES || v >= NUM_FRAMES)
    requires Inv(m, own, dirs) && d in dirs && !IdentityRange(m, d, v, end).exhausted
    ensures Inv(IdentityRange(m, d, v, end), own', dirs)
    ensures end <= k * 1024 ==> Get(IdentityRange(m, d, v, end), d, k) == Get(m, d, k)
    ensures Closed(m, d, k) || (!Get(m, d, k).Present() && v / 1024 == k && v < end) ==>
      Closed(IdentityRange(m, d, v, end), d, k)
    decreases end - v
  {
    hide MapPage, Inv, PageMapped, Closed;
    own' := own;
    if v < end {
      MayMapIdentity(m, own, dirs, d, v);
      own' := MapPageMaps(m, own, dirs, d, v, v, KERNEL_FLAGS);
      var m1 := MapPage(m, d, v, v, KERNEL_FLAGS);
      MappedInv(m, own, m1, own', dirs, d, v);
      KernelPageCloses(m, own, m1, own', dirs, d, v, k);
      own' := IdentityRangeCloses(m1, own', dirs, d, v + 1, end, k);
    }
  }

  lemma MayMapIdentity(m: Mem, own: Own, dirs: set<Hi>, d: Hi, v: Hi)
    requires Inv(m, own, dirs) && (v < KERNEL_PAGES || v >= NUM_FRAMES)
    ensures var e := Word(v, WithPresent(KERNEL_FLAGS));
      if v >= USER_PAGE then LeafOk(own, d, v / 1024, v % 1024, e) else CleanEntry(own, e)
  {
  }

  lemma MappedInv(m: Mem, own: Own, m': Mem, own': Own, dirs: set<Hi>, d: Hi, v: Hi)
    requires PageMapped(m, own, m', own', dirs, d, v, Word(v, KERNEL_FLAGS))
    ensures Inv(m', own', dirs)
  {
  }

  /** One page mapped for ring 3 leaves a supervisor table a supervisor one. */
  lemma UserPageKeepsClosed(m: Mem, own: Own, m': Mem, own': Own, dirs: set<Hi>, d: Hi, v: Hi, f: Hi, k: Idx)
    requires PageMapped(m, own, m', own', dirs, d, v, Word(f, USER_FLAGS)) && Closed(m, d, k)
    ensures Inv(m', own', dirs) && Closed(m', d, k)
  {
    StaysClosed(m, m', d, v, k);
  }

  lemma MapBothKeepsClosed(m: Mem, own: Own, dirs: set<Hi>, d: Hi, f: Hi, g: Hi, k: Idx)
    requires Inv(m, own, dirs) && d in dirs && Closed(m, d, k)
    requires f in own && own[f] == Leaf(d, USER_PAGE / 1024, USER_PAGE % 1024)
    requires g in own && own[g] == Leaf(d, STACK_PAGE / 1024, STACK_PAGE % 1024)
    requires !MapPage(MapPage(m, d, USER_PAGE, f, USER_FLAGS), d, STACK_PAGE, g, USER_FLAGS).exhausted
    ensures Closed(MapPage(MapPage(m, d, USER_PAGE, f, USER_FLAGS), d, STACK_PAGE, g, USER_FLAGS), d, k)
  {
    hide MapPage, Closed;
    var m1 := MapPage(m, d, USER_PAGE, f, USER_FLAGS);
    var own1 := MapPageMaps(m, own, dirs, d, USER_PAGE, f, USER_FLAGS);
    UserPageKeepsClosed(m, own, m1, own1, dirs, d, USER_PAGE, f, k);
    var own2 := MapPageMaps(m1, own1, dirs, d, STACK_PAGE, g, USER_FLAGS);
    UserPageKeepsClosed(m1, own1, MapPage(m1, d, STACK_PAGE, g, USER_FLAGS), own2, dirs, d, STACK_PAGE, g, k);
  }

  lemma UserFramesKeepClosed(m: Mem, own: Own, dirs: set<Hi>, d: Hi, code: Page, k: Idx)
    requires Inv(m, own, dirs) && d in dirs && Closed(m, d, k)
    requires var a, s := Alloc(m), Alloc(Alloc(m).m);
      var m1 := MapPage(PutPage(s.m, a.f, code), d, USER_PAGE, a.f, USER_FLAGS);
      !MapPage(m1, d, STACK_PAGE, s.f, USER_FLAGS).exhausted
    ensures var a, s := Alloc(m), Alloc(Alloc(m).m);
      var m1 := MapPage(PutPage(s.m, a.f, code), d, USER_PAGE, a.f, USER_FLAGS);
      Closed(MapPage(m1, d, STACK_PAGE, s.f, USER_FLAGS), d, k)
  {
    hide MapPage;
    var a, s := Alloc(m), Alloc(Alloc(m).m);
    var own1 := AllocKeeps(m, own, dirs, Leaf(d, USER_PAGE / 1024, USER_PAGE % 1024));
    var own2 := AllocKeeps(a.m, own1, dirs, Leaf(d, STACK_PAGE / 1024, STACK_PAGE % 1024));
    PutPageKeeps(s.m, own2, dirs, a.f, code);
    assert DirOk(m, own, d);
    assert PutPage(s.m, a.f, code).pages[d] == m.pages[d];
    MapBothKeepsClosed(PutPage(s.m, a.f, code), own2, dirs, d, a.f, s.f, k);
  }

  /** The entry of a new directory at which its own page is not mapped is empty. */
  lemma NewDirectoryIsEmpty(m: Mem, own: Own, dirs: set<Hi>, k: Idx)
    requires Inv(m, own, dirs) && !CreateDirectory(m).m.exhausted && k >= USER_DIR
    ensures var g := CreateDirectory(m); Get(g.m, g.f, k) == ZERO_WORD
  {
    var d := Alloc(m).f;
    var own1 := AllocKeeps(m, own, dirs, Dir(d));
    var m1 := PutPage(Alloc(m).m, d, ZeroPage());
    PutPageKeeps(Alloc(m).m, own1, dirs, d, ZeroPage());
    forall d' | d' in dirs
      ensures d' in own
    {
      assert DirOk(m, own, d');
    }
    assert DirOk(m1, own1, d) by {
      assert forall i: Idx :: Get(m1, d, i) == ZERO_WORD;
    }
    var own' := MapPageMaps(m1, own1, dirs + {d}, d, d, d, KERNEL_FLAGS);
    KernelPageCloses(m1, own1, MapPage(m1, d, d, d, KERNEL_FLAGS), own', dirs + {d}, d, d, k);
  }

  /** A directory made where the framebuffer begins in the 4 MB of entry `k` has a supervisor table
      there, also when these are the 4 MB of the code or of the stack. */
  lemma FramebufferCloses(m: Mem, own: Own, dirs: set<Hi>, fb: Device, code: Page, k: Idx)
    requires Inv(m, own, dirs) && fb.Valid() && !CreateKernelDirectory(m, fb, code).m.exhausted
    requires k >= USER_DIR && fb.start / 1024 == k && fb.start < fb.end
    ensures var g := CreateKernelDirectory(m, fb, code); Closed(g.m, g.f, k)
  {
    var g := CreateDirectory(m);
    var m1 := IdentityRange(g.m, g.f, 0, KERNEL_PAGES);
    var m2 := IdentityRange(m1, g.f, fb.start, fb.end);
    MapTwiceMonotone(m2, g.f, code);
    hide CreateDirectory, MapPage, Closed;
    var own0 := CreateDirectoryKeeps(m, own, dirs);
    NewDirectoryIsEmpty(m, own, dirs, k);
    var dirs1 := dirs + {g.f};
    var own1 := IdentityRangeCloses(g.m, own0, dirs1, g.f, 0, KERNEL_PAGES, k);
    var own2 := IdentityRangeCloses(m1, own1, dirs1, g.f, fb.start, fb.end, k);
    UserFramesKeepClosed(m2, own2, dirs1, g.f, code, k);
  }

  lemma CreatedOverFramebuffer(s: System, own: Own, fb: Device, code: Page) returns (own': Own)
    requires SysInv(s, own) && 1 !in s.procs && Room(s.mem, 20000 + KERNEL_PAGES + 8192 + 6)
    requires USER_PAGE <= fb.start < USER_PAGE + 1024 && fb.start < fb.end <= fb.start + 8192
    ensures var s' := Step(s, DoCreate(1, fb, code));
      && 1 in s'.procs && SysInv(s', own') && Room(s'.mem, 20000) && Closed(s'.mem, s'.procs[1].pd, USER_DIR)
  {
    hide Room, CreateKernelDirectory, Closed, SysInv;
    var n := 20000 + 8192 - (fb.end - fb.start);
    CreateFits(s.mem, fb, code, n);
    var g := CreateKernelDirectory(s.mem, fb, code);
    HasRoom(g.m, n);
    LessRoom(g.m, n, 20000);
    own' := CreateStep(s, own, 1, fb, code);
    SystemOwned(s, own);
    FramebufferCloses(s.mem, own, s.Dirs(), fb, code, USER_DIR);
  }

  lemma LessRoom(m: Mem, n: nat, k: nat)
    requires Room(m, n) && k <= n
    ensures Room(m, k)
  {
  }

  lemma SystemOwned(s: System, own: Own)
    requires SysInv(s, own)
    ensures Inv(s.mem, own, s.Dirs()) && WellOwned(s.mem, s.Dirs())
    ensures forall p :: p in s.procs ==> s.procs[p].pd in s.Dirs()
  {
  }

  lemma HasRoom(m: Mem, n: nat)
    requires Room(m, n)
    ensures !m.exhausted
  {
  }

  lemma ExecHides(s: System, own: Own, file: File, w: Hi)
    requires 1 in s.procs && SysInv(s, own) && Room(s.mem, 20000) && Closed(s.mem, s.procs[1].pd, USER_DIR)
    requires |file| <= 0x2000000 && InImage(file, w) && w < USER_PAGE + 1024
    ensures var s' := Step(s, DoExec(1, file));
      && !s'.mem.exhausted && 1 in s'.procs
      && UserEntry(s'.mem, s'.procs[1].pd, w) && !UserMapped(s'.mem, s'.procs[1].pd, w)
  {
    hide Room, Exec, Closed, SysInv, UserEntry, UserMapped, InImage;
    SystemOwned(s, own);
    ImageIsUser(file);
    var n := 20000 - 2 * (CodePages(file) + BSS_PAGES + 1);
    ExecFits(s.mem, s.procs[1].pd, file, n);
    HasRoom(Exec(s.mem, s.procs[1].pd, file), n);
    ExecPage(s.mem, s.Dirs(), s.procs[1].pd, file, w);
  }

  lemma RunTwo(s: System, a: Event, b: Event)
    ensures Run(s, [a, b]) == Step(Step(s, a), b)
  {
    hide Step;
    assert [a, b][1..] == [b] && [b][1..] == [];
    assert Run(s, [a, b]) == Run(Step(s, a), [b]) == Run(Step(Step(s, a), b), []);
  }

  /** A machine whose framebuffer begins in the first 4 MB of the image, a process on it, and any
      program of up to 32 MB: exec maps every page and does not run out of frames, yet ring 3 sees
      not one byte of the first 4 MB of the image it is about to run. */
  lemma HiddenImage(pages: Ram, fb: Device, code: Page, file: File, w: Hi)
    requires USER_PAGE <= fb.start < USER_PAGE + 1024 && fb.start < fb.end <= fb.start + 8192
    requires |file| <= 0x2000000 && InImage(file, w) && w < USER_PAGE + 1024
    ensures var s := Run(Boot(pages), [DoCreate(1, fb, code), DoExec(1, file)]);
      && !s.mem.exhausted && 1 in s.procs
      && UserEntry(s.mem, s.procs[1].pd, w) && !UserMapped(s.mem, s.procs[1].pd, w)
  {
    hide Step, Run, Room, Closed, SysInv, UserEntry, UserMapped, InImage, Boot;
    var own := BootKeeps(pages);
    BootRoom(pages, 20000 + KERNEL_PAGES + 8192 + 6);
    own := CreatedOverFramebuffer(Boot(pages), own, fb, code);
    ExecHides(Step(Boot(pages), DoCreate(1, fb, code)), own, file, w);
    RunTwo(Boot(pages), DoCreate(1, fb, code), DoExec(1, file));
  }
}
