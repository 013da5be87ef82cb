/** The kernel reaches the frames that it fills while paging is on: fork maps each frame of the child, in
    the directory of the parent, to itself. */
module ForkMapping {
  import opened PageTables
  import opened Ownership
  import opened ForkCopy
  import opened KernelSpace

  /** Where directory `d` has a table for page `f`, the page translates to itself. */
  ghost predicate SelfMapped(m: Mem, d: Hi, f: Hi) { Pde(m, d, f).Present() ==> Pte(m, d, f) == Word(f, 3) }

  /** So do the frames that are in use in `m` but were not in `m0`. */
  ghost predicate NewSelfMapped(m0: Mem, m: Mem, d: Hi) {
    forall f: Hi :: f in m.used && f !in m0.used && f < 0x40000 ==> SelfMapped(m, d, f)
  }

  /** Where `d` and the low tables get identity mappings at most, that stays so. */
  lemma SelfMappedStays(m: Mem, own: Own, dirs: set<Hi>, m': Mem, own': Own, d: Hi, f: Hi)
    requires Inv(m, own, dirs) && d in dirs && OnlyIdentityMaps(m, m', own') && f < 0x40000 && SelfMapped(m, d, f)
    requires d in own' && own'[d] == Dir(d)
    requires forall t :: t in own && own[t].Low? ==> t in own' && own'[t] == own[t]
    ensures SelfMapped(m', d, f)
  {
    LowTable(m, own, dirs, d, f);
    assert m'.pages[d] == m.pages[d];
    if Pde(m, d, f).Present() {
      var t := Pde(m, d, f).hi;
      assert IdentityMapsAdded(m.pages[t], m'.pages[t], f / 1024);
    }
  }

  lemma IdentityMapMaps(m: Mem, own: Own, dirs: set<Hi>, d: Hi, f: Hi)
    requires Inv(m, own, dirs) && d in dirs && f < 0x40000
    ensures SelfMapped(IdentityMapIn(m, d, f), d, f)
  {
    LowTable(m, own, dirs, d, f);
  }

  /** Before a page is copied both its new frame and its old one are mapped. */
  lemma BothAreMapped(m: Mem, own: Own, dirs: set<Hi>, d: Hi, c: Hi, i: Idx, j: Idx) returns (own': Own)
    requires Inv(m, own, dirs) && d in dirs && i >= USER_DIR && Get(m, d, i).Present()
    requires Get(m, Get(m, d, i).hi, j).Present() && !Alloc(m).m.exhausted
    ensures var a, f := Alloc(m), Get(m, Get(m, d, i).hi, j).hi;
      var m2 := IdentityMapIn(IdentityMapIn(a.m, d, a.f), d, f);
      && Inv(m2, own', dirs) && own' == own[a.f := Leaf(c, i, j)] && a.f !in own
      && SelfMapped(m2, d, a.f) && (f in own ==> f < 0x40000 && SelfMapped(m2, d, f))
  {
    var st := Get(m, d, i).hi;
    var e, a := Get(m, st, j), Alloc(m);
    own' := AllocKeeps(m, own, dirs, Leaf(c, i, j));
    IdentityMapKeeps(a.m, own', dirs, d, a.f);
    IdentityMapMaps(a.m, own', dirs, d, a.f);
    var m1 := IdentityMapIn(a.m, d, a.f);
    assert DirOk(m, own, d);
    assert TableOk(m, own, d, i, st);
    assert Get(m1, d, i) == Get(m, d, i) && m1.pages[st] == m.pages[st];
    IdentityMapOfLeaf(m1, own', dirs, d, i, j);
    FramesInRange(m, own, dirs);
    if e.hi in own {
      IdentityMapMaps(m1, own', dirs, d, e.hi);
    }
    SelfMappedStays(m1, own', dirs, IdentityMapIn(m1, d, e.hi), own', d, a.f);
  }

  /** Copying a page takes one frame, and maps it, and the frame that it copies. */
  lemma LeafIsMapped(m: Mem, own: Own, dirs: set<Hi>, d: Hi, c: Hi, i: Idx, dt: Hi, j: Idx)
    requires Inv(m, own, dirs) && d in dirs && c in dirs && c != d && i >= USER_DIR && Get(m, d, i).Present()
    requires dt in own && own[dt] == Table(c, i) && !CopyLeaf(m, d, Get(m, d, i).hi, dt, j).exhausted
    ensures var m' := CopyLeaf(m, d, Get(m, d, i).hi, dt, j);
      && (forall f: Hi :: f in m'.used && f !in m.used && f < 0x40000 ==> SelfMapped(m', d, f))
      && (var e := Get(m, Get(m, d, i).hi, j); e.Present() && e.hi in own ==> e.hi < 0x40000 && SelfMapped(m', d, e.hi))
  {
    var st := Get(m, d, i).hi;
    var e, a := Get(m, st, j), Alloc(m);
    if e.Present() {
      var own' := BothAreMapped(m, own, dirs, d, c, i, j);
      var m2 := IdentityMapIn(IdentityMapIn(a.m, d, a.f), d, e.hi);
      var lo := Get(PutPage(m2, a.f, m2.pages[e.hi]), st, j).lo;
      hide SelfMapped, Inv;
      CopyingKeeps(m2, own', dirs, d, a.f, m2.pages[e.hi], c, i, dt, j, lo, a.f);
      if e.hi in own {
        CopyingKeeps(m2, own', dirs, d, a.f, m2.pages[e.hi], c, i, dt, j, lo, e.hi);
      }
    }
  }

  /** Storing the copy and entering it in the new table. */
  lemma CopyingKeeps(m: Mem, own: Own, dirs: set<Hi>, d: Hi, f: Hi, p: Page, c: Hi, i: Idx, dt: Hi, j: Idx, lo: Lo,
                     g: Hi)
    requires Inv(m, own, dirs) && d in dirs && g < 0x40000 && SelfMapped(m, d, g)
    requires f in own && own[f] == Leaf(c, i, j) && dt in own && own[dt] == Table(c, i)
    ensures SelfMapped(Put(PutPage(m, f, p), dt, j, Word(f, lo)), d, g)
  {
    LowTable(m, own, dirs, d, g);
  }

  // ----- the two loops -----

  lemma {:induction false} LeavesAreMapped(m0: Mem, own0: Own, m1: Mem, own1: Own, m: Mem, own: Own, dirs: set<Hi>,
                                           d: Hi, c: Hi, i: Idx, dt: Hi, j: nat, base: Mem)
    requires j <= 1024 && LeavesCopied(m0, own0, m1, own1, m, own, dirs, d, c, i, dt, j)
    requires !CopyLeaves(m, d, Get(m0, d, i).hi, dt, j).exhausted && NewSelfMapped(base, m, d)
    ensures NewSelfMapped(base, CopyLeaves(m, d, Get(m0, d, i).hi, dt, j), d)
    decreases 1024 - j
  {
    if j < 1024 {
      var m' := CopyLeaf(m, d, Get(m0, d, i).hi, dt, j);
      var own' := LeafStep(m0, own0, m1, own1, m, own, dirs, d, c, i, dt, j);
      LeafKeepsMapped(m0, own0, m1, own1, m, own, dirs, d, c, i, dt, j, base);
      hide LeavesCopied, NewSelfMapped, CopyLeaf;
      LeavesAreMapped(m0, own0, m1, own1, m', own', dirs, d, c, i, dt, j + 1, base);
    }
  }

  lemma LeafKeepsMapped(m0: Mem, own0: Own, m1: Mem, own1: Own, m: Mem, own: Own, dirs: set<Hi>,
                        d: Hi, c: Hi, i: Idx, dt: Hi, j: Idx, base: Mem)
    requires LeavesCopied(m0, own0, m1, own1, m, own, dirs, d, c, i, dt, j)
    requires !CopyLeaf(m, d, Get(m0, d, i).hi, dt, j).exhausted && NewSelfMapped(base, m, d)
    ensures NewSelfMapped(base, CopyLeaf(m, d, Get(m0, d, i).hi, dt, j), d)
  {
    SourceUnchanged(m0, own0, m, d, i, j);
    assert Get(m, d, i) == Get(m0, d, i);
    LeafIsMapped(m, own, dirs, d, c, i, dt, j);
    var own' := CopyLeafKeeps(m, own, dirs, d, c, i, dt, j);
    var m' := CopyLeaf(m, d, Get(m, d, i).hi, dt, j);
    assert DirOk(m, own, d);
    forall f: Hi | f in m'.used && f !in base.used && f < 0x40000
      ensures SelfMapped(m', d, f)
    {
      if f in m.used {
        SelfMappedStays(m, own, dirs, m', own - {dt}, d, f);
      }
    }
  }

  /** Copying a present entry of the user half: the new table, too, is mapped. */
  lemma EntryIsMapped(m0: Mem, own0: Own, m: Mem, own: Own, dirs: set<Hi>, d: Hi, c: Hi, i: Idx, base: Mem)
    requires Inv(m, own, dirs) && d in dirs && c in dirs && c != d && c !in own0
    requires DirOk(m0, own0, d) && 0 in own0 && own0[0] == Kernel && Extends(own0, own) && OnlyIdentityMaps(m0, m, own0)
    requires i >= USER_DIR && Get(m, d, i).Present() && Get(m, c, i) == ZERO_WORD
    requires !CopyEntry(m, c, d, i).exhausted && NewSelfMapped(base, m, d)
    ensures NewSelfMapped(base, CopyEntry(m, c, d, i), d)
  {
    SourceEntry(m0, own0, m, own, dirs, d);
    var dt := Alloc(m).f;
    var m2 := PutPage(IdentityMapIn(Alloc(m).m, d, dt), dt, ZeroPage());
    var own1 := NewTable(m, own, dirs, d, c, i);
    TableIsMapped(m, own, dirs, d, c, i, base);
    FillStart(m0, own0, m, own, m2, own1, dirs, d, c, i, dt);
    hide LeavesCopied, NewSelfMapped;
    LeavesAreMapped(m0, own0, m, own, m2, own1, dirs, d, c, i, dt, 0, base);
    var m3 := CopyLeaves(m2, d, Get(m, d, i).hi, dt, 0);
    var own' := CopyLeavesKeeps(m0, own0, m, own, m2, own1, dirs, d, c, i, dt, 0);
    AttachKeepsMapped(m0, own0, m, own, m3, own', dirs, d, c, i, dt, base);
  }

  lemma TableIsMapped(m: Mem, own: Own, dirs: set<Hi>, d: Hi, c: Hi, i: Idx, base: Mem)
    requires Inv(m, own, dirs) && d in dirs && c in dirs && c != d && !Get(m, c, i).Present()
    requires !Alloc(m).m.exhausted && NewSelfMapped(base, m, d)
    ensures var t := Alloc(m).f;
      NewSelfMapped(base, PutPage(IdentityMapIn(Alloc(m).m, d, t), t, ZeroPage()), d)
  {
    var t := Alloc(m).f;
    var own' := AllocKeeps(m, own, dirs, Table(c, i));
    IdentityMapMaps(Alloc(m).m, own', dirs, d, t);
    IdentityMapKeeps(Alloc(m).m, own', dirs, d, t);
    var m1 := IdentityMapIn(Alloc(m).m, d, t);
    var m2 := PutPage(m1, t, ZeroPage());
    assert DirOk(m, own, d);
    forall f: Hi | f in m2.used && f !in base.used && f < 0x40000
      ensures SelfMapped(m2, d, f)
    {
      if f != t {
        SelfMappedStays(Alloc(m).m, own', dirs, m1, own', d, f);
      }
      LowTable(m1, own', dirs, d, f);
    }
  }

  lemma AttachKeepsMapped(m0: Mem, own0: Own, m: Mem, own: Own, m3: Mem, own': Own, dirs: set<Hi>, d: Hi, c: Hi, i: Idx,
                          dt: Hi, base: Mem)
    requires Inv(m, own, dirs) && Get(m, d, i) == Get(m0, d, i)
    requires LeavesCopied(m0, own0, m, own, m3, own', dirs, d, c, i, dt, 1024) && NewSelfMapped(base, m3, d)
    ensures NewSelfMapped(base, Put(m3, c, i, Word(dt, Get(m, d, i).lo)), d)
  {
    var m4 := Put(m3, c, i, Word(dt, Get(m, d, i).lo));
    assert DirOk(m3, own', c);
    forall f: Hi | f in m4.used && f !in base.used && f < 0x40000
      ensures SelfMapped(m4, d, f)
    {
      LowTable(m3, own', dirs, d, f);
    }
  }

  lemma StepIsMapped(m0: Mem, own0: Own, m: Mem, own: Own, dirs: set<Hi>, d: Hi, c: Hi, i: Idx, base: Mem)
    requires CopiedUpTo(m0, own0, m, own, dirs, d, c, i) && !CopyEntry(m, c, d, i).exhausted
    requires NewSelfMapped(base, m, d)
    ensures NewSelfMapped(base, CopyEntry(m, c, d, i), d)
  {
    var e := Get(m, d, i);
    if e.Present() && i < USER_DIR {
      assert DirOk(m, own, c);
      forall f: Hi | f in m.used && f !in base.used && f < 0x40000
        ensures SelfMapped(CopyEntry(m, c, d, i), d, f)
      {
        LowTable(m, own, dirs, d, f);
      }
    } else if e.Present() {
      EntryIsMapped(m0, own0, m, own, dirs, d, c, i, base);
    }
  }

  lemma {:induction false} DirectoryIsMapped(m0: Mem, own0: Own, m: Mem, own: Own, dirs: set<Hi>, d: Hi, c: Hi, n: nat,
                                             base: Mem)
    requires n <= 1024 && CopiedUpTo(m0, own0, m, own, dirs, d, c, n) && !CopyDirectory(m, c, d, n).exhausted
    requires NewSelfMapped(base, m, d)
    ensures NewSelfMapped(base, CopyDirectory(m, c, d, n), d)
    decreases 1024 - n
  {
    if n < 1024 {
      hide CopiedUpTo, NewSelfMapped, CopyEntry;
      var own1 := CopyEntryKeeps(m0, own0, m, own, dirs, d, c, n);
      StepIsMapped(m0, own0, m, own, dirs, d, c, n, base);
      DirectoryIsMapped(m0, own0, CopyEntry(m, c, d, n), own1, dirs, d, c, n + 1, base);
    }
  }

  // ----- the frames that are copied -----

  /** All used frames but `f`. */
  function Except(m: Mem, f: Hi): Mem { m.(used := m.used - {f}) }

  lemma {:induction false} LeavesMapSource(m0: Mem, own0: Own, m1: Mem, own1: Own, m: Mem, own: Own, dirs: set<Hi>,
                                           d: Hi, c: Hi, i: Idx, dt: Hi, j: nat, k: Idx)
    requires j <= k && LeavesCopied(m0, own0, m1, own1, m, own, dirs, d, c, i, dt, j)
    requires !CopyLeaves(m, d, Get(m0, d, i).hi, dt, j).exhausted
    requires Get(m0, Get(m0, d, i).hi, k).Present() && Get(m0, Get(m0, d, i).hi, k).hi in own0
    ensures var m', f := CopyLeaves(m, d, Get(m0, d, i).hi, dt, j), Get(m0, Get(m0, d, i).hi, k).hi;
      f < 0x40000 && SelfMapped(m', d, f)
    decreases k - j
  {
    hide LeavesCopied, CopyLeaf, NewSelfMapped, SelfMapped, Inv;
    var m' := CopyLeaf(m, d, Get(m0, d, i).hi, dt, j);
    var own' := LeafStep(m0, own0, m1, own1, m, own, dirs, d, c, i, dt, j);
    if j < k {
      LeavesMapSource(m0, own0, m1, own1, m', own', dirs, d, c, i, dt, j + 1, k);
    } else {
      var f := Get(m0, Get(m0, d, i).hi, k).hi;
      LeafMapsSource(m0, own0, m1, own1, m, own, dirs, d, c, i, dt, k);
      OnlyOne(m', d, f);
      LeavesAreMapped(m0, own0, m1, own1, m', own', dirs, d, c, i, dt, k + 1, Except(m', f));
      OnlyIs(m', CopyLeaves(m', d, Get(m0, d, i).hi, dt, k + 1), d, f);
    }
  }

  lemma LeafMapsSource(m0: Mem, own0: Own, m1: Mem, own1: Own, m: Mem, own: Own, dirs: set<Hi>,
                       d: Hi, c: Hi, i: Idx, dt: Hi, j: Idx)
    requires LeavesCopied(m0, own0, m1, own1, m, own, dirs, d, c, i, dt, j)
    requires !CopyLeaf(m, d, Get(m0, d, i).hi, dt, j).exhausted
    requires Get(m0, Get(m0, d, i).hi, j).Present() && Get(m0, Get(m0, d, i).hi, j).hi in own0
    ensures var m', f := CopyLeaf(m, d, Get(m0, d, i).hi, dt, j), Get(m0, Get(m0, d, i).hi, j).hi;
      f < 0x40000 && f in m'.used && SelfMapped(m', d, f)
  {
    SourceUnchanged(m0, own0, m, d, i, j);
    LeafIsMapped(m, own, dirs, d, c, i, dt, j);
  }

  lemma OnlyOne(m: Mem, d: Hi, f: Hi)
    requires SelfMapped(m, d, f)
    ensures NewSelfMapped(Except(m, f), m, d)
  {
  }

  lemma OnlyIs(m: Mem, m': Mem, d: Hi, f: Hi)
    requires f < 0x40000 && f in m.used && m.used <= m'.used && NewSelfMapped(Except(m, f), m', d)
    ensures SelfMapped(m', d, f)
  {
  }
  lemma EntryMapsSource(m0: Mem, own0: Own, m: Mem, own: Own, dirs: set<Hi>, d: Hi, c: Hi, i: Idx, k: Idx)
    requires Inv(m, own, dirs) && d in dirs && c in dirs && c != d && c !in own0
    requires DirOk(m0, own0, d) && 0 in own0 && own0[0] == Kernel && Extends(own0, own) && OnlyIdentityMaps(m0, m, own0)
    requires i >= USER_DIR && Get(m, d, i).Present() && Get(m, c, i) == ZERO_WORD
    requires Get(m0, Get(m, d, i).hi, k).Present() && Get(m0, Get(m, d, i).hi, k).hi in own0
    requires !CopyEntry(m, c, d, i).exhausted
    ensures var f := Get(m0, Get(m, d, i).hi, k).hi;
      f < 0x40000 && f in CopyEntry(m, c, d, i).used && SelfMapped(CopyEntry(m, c, d, i), d, f)
  {
    SourceEntry(m0, own0, m, own, dirs, d);
    var dt := Alloc(m).f;
    var m2 := PutPage(IdentityMapIn(Alloc(m).m, d, dt), dt, ZeroPage());
    var own1 := NewTable(m, own, dirs, d, c, i);
    FillStart(m0, own0, m, own, m2, own1, dirs, d, c, i, dt);
    FramesInRange(m, own, dirs);
    hide LeavesCopied, NewSelfMapped, SelfMapped;
    LeavesMapSource(m0, own0, m, own, m2, own1, dirs, d, c, i, dt, 0, k);
    var m3 := CopyLeaves(m2, d, Get(m, d, i).hi, dt, 0);
    var own' := CopyLeavesKeeps(m0, own0, m, own, m2, own1, dirs, d, c, i, dt, 0);
    var f := Get(m0, Get(m, d, i).hi, k).hi;
    OnlyOne(m3, d, f);
    AttachKeepsMapped(m0, own0, m, own, m3, own', dirs, d, c, i, dt, Except(m3, f));
    OnlyIs(m3, CopyEntry(m, c, d, i), d, f);
  }

  lemma {:induction false} DirectoryMapsSource(m0: Mem, own0: Own, m: Mem, own: Own, dirs: set<Hi>, d: Hi, c: Hi,
                                               n: nat, i: Idx, k: Idx)
    requires n <= i && i >= USER_DIR && CopiedUpTo(m0, own0, m, own, dirs, d, c, n)
    requires !CopyDirectory(m, c, d, n).exhausted
    requires Get(m0, d, i).Present()
    requires Get(m0, Get(m0, d, i).hi, k).Present() && Get(m0, Get(m0, d, i).hi, k).hi in own0
    ensures var f := Get(m0, Get(m0, d, i).hi, k).hi; f < 0x40000 && SelfMapped(CopyDirectory(m, c, d, n), d, f)
    decreases i - n
  {
    var m1 := CopyEntry(m, c, d, n);
    var own1 := CopyEntryKeeps(m0, own0, m, own, dirs, d, c, n);
    if n < i {
      hide CopiedUpTo, CopyEntry;
      DirectoryMapsSource(m0, own0, m1, own1, dirs, d, c, n + 1, i, k);
    } else {
      var f := Get(m0, Get(m0, d, i).hi, k).hi;
      EntryMapsSource(m0, own0, m, own, dirs, d, c, i, k);
      hide CopiedUpTo, NewSelfMapped, CopyEntry, SelfMapped;
      OnlyOne(m1, d, f);
      DirectoryIsMapped(m0, own0, m1, own1, dirs, d, c, i + 1, Except(m1, f));
      OnlyIs(m1, CopyDirectory(m1, c, d, i + 1), d, f);
    }
  }

  /** fork maps every frame that it takes for the child (directory, tables and pages) to itself in the
      directory of the parent, wherever that has a table for it: the kernel can fill it there. */
  lemma ForkMapsItsFrames(m: Mem, dirs: set<Hi>, d: Hi, f: Hi)
    requires WellOwned(m, dirs) && d in dirs && !Fork(m, d).m.exhausted && f in Fork(m, d).m.used && f !in m.used
    ensures var m' := Fork(m, d).m; Pde(m', d, f).Present() ==> Mapped(m', d, f) && Pte(m', d, f) == Word(f, 3)
  {
    var own: Own :| Inv(m, own, dirs);
    var c := Alloc(m).f;
    var own1 := StartFork(m, own, dirs, d);
    var m1 := PutPage(IdentityMapIn(Alloc(m).m, d, c), c, ZeroPage());
    StartIsMapped(m, own, dirs, d);
    hide CopiedUpTo, NewSelfMapped, DirOk;
    DirectoryIsMapped(m, own, m1, own1, dirs + {c}, d, c, 0, m);
    var own' := ForkCopies(m, own, dirs, d);
    CopiedInv(m, own, Fork(m, d).m, own', dirs + {c}, d, c);
    NewFrameIsMapped(m, Fork(m, d).m, own', dirs + {c}, d, f);
  }

  /** So does fork with every frame that it copies: the kernel can read it there. Device memory, which a
      page of the user half may map, is where the parent has it. */
  lemma ForkMapsItsSources(m: Mem, dirs: set<Hi>, d: Hi, v: Hi)
    requires WellOwned(m, dirs) && d in dirs && !Fork(m, d).m.exhausted && v >= 0x40000 && Mapped(m, d, v)
    ensures var m', f := Fork(m, d).m, Pte(m, d, v).hi;
      Pde(m', d, f).Present() ==> Mapped(m', d, f) && Pte(m', d, f) == Word(f, 3)
  {
    var own: Own :| Inv(m, own, dirs);
    var c := Alloc(m).f;
    var own1 := StartFork(m, own, dirs, d);
    var m1 := PutPage(IdentityMapIn(Alloc(m).m, d, c), c, ZeroPage());
    assert DirOk(m, own, d);
    assert TableOk(m, own, d, v / 1024, Pde(m, d, v).hi);
    assert LeafOk(own, d, v / 1024, v % 1024, Pte(m, d, v));
    hide CopiedUpTo, DirOk, Inv;
    if Pte(m, d, v).hi in own {
      DirectoryMapsSource(m, own, m1, own1, dirs + {c}, d, c, 0, v / 1024, v % 1024);
    } else {
      ForkKeepsParent(m, dirs, d, v);
    }
  }

  lemma StartIsMapped(m: Mem, own: Own, dirs: set<Hi>, d: Hi)
    requires Inv(m, own, dirs) && d in dirs && !Alloc(m).m.exhausted
    ensures var c := Alloc(m).f; NewSelfMapped(m, PutPage(IdentityMapIn(Alloc(m).m, d, c), c, ZeroPage()), d)
  {
    var c := Alloc(m).f;
    var own' := AllocKeeps(m, own, dirs, Dir(c));
    assert DirOk(m, own, d);
    IdentityMapMaps(Alloc(m).m, own', dirs, d, c);
    IdentityMapKeeps(Alloc(m).m, own', dirs, d, c);
    LowTable(IdentityMapIn(Alloc(m).m, d, c), own', dirs, d, c);
  }

  lemma CopiedInv(m0: Mem, own0: Own, m: Mem, own: Own, dirs: set<Hi>, d: Hi, c: Hi)
    requires CopiedUpTo(m0, own0, m, own, dirs, d, c, 1024)
    ensures Inv(m, own, dirs)
  {
  }

  lemma NewFrameIsMapped(base: Mem, m: Mem, own: Own, dirs: set<Hi>, d: Hi, f: Hi)
    requires Inv(m, own, dirs)
    requires NewSelfMapped(base, m, d) && f in m.used && f !in base.used
    ensures Pde(m, d, f).Present() ==> Mapped(m, d, f) && Pte(m, d, f) == Word(f, 3)
  {
    assert f < NUM_FRAMES;
  }
}
