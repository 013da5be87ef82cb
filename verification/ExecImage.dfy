/** exec loads exactly the right image, and sbrk exactly the right heap pages. */
module ExecImage {
  import opened FiniteSets
  import opened Integers
  import opened PageTables
  import opened Ownership
  import opened ForkCopy
  import opened Teardown
  import opened Mapping
  import opened AddressSpace

  // ----- one fresh user page -----

  /** The effect of mapping a fresh frame at page `v` of `d` and storing `p` in it. */
  ghost predicate FreshPage(m: Mem, own: Own, m': Mem, own': Own, dirs: set<Hi>, d: Hi, v: Hi, p: Page) {
    && Inv(m', own', dirs) && Extends(own, own') && OthersKept(m, own, m', own', d) && LeavesKept(m, own, m')
    && Pde(m', d, v).Present() && Pte(m', d, v).lo == USER_FLAGS
    && Pte(m', d, v).hi in own' && Pte(m', d, v).hi !in own && m'.pages[Pte(m', d, v).hi] == p
    && SameEntriesBut(m, m', d, v)
    && (forall k: Idx :: k != v / 1024 ==> Get(m', d, k) == Get(m, d, k))
    && Pde(m', d, v).lo == if Pde(m, d, v).Present() then Pde(m, d, v).lo else USER_FLAGS
  }

  lemma MapFreshMaps(m: Mem, own: Own, dirs: set<Hi>, d: Hi, v: Hi) returns (own': Own)
    requires Inv(m, own, dirs) && d in dirs && !MapFresh(m, d, v).exhausted
    ensures var m' := MapFresh(m, d, v);
      && FreshPage(m, own, m', own', dirs, d, v, ReadVirtual(m', d, v))
      && (own'[Pte(m', d, v).hi].Leaf? || own'[Pte(m', d, v).hi].Kernel?)
  {
    var a := Alloc(m);
    var role := if v < USER_PAGE then Kernel else Leaf(d, v / 1024, v % 1024);
    var own1 := AllocKeeps(m, own, dirs, role);
    own' := MapPageMaps(a.m, own1, dirs, d, v, a.f, USER_FLAGS);
    FreshOverall(m, own, a.m, own1, MapFresh(m, d, v), own', dirs, d, v, Word(a.f, USER_FLAGS));
  }

  lemma FreshOverall(m: Mem, own: Own, m1: Mem, own1: Own, m': Mem, own': Own, dirs: set<Hi>, d: Hi, v: Hi, e: Word)
    requires m1.pages == m.pages && Extends(own, own1) && e.hi in own1 && e.hi !in own && e.lo == USER_FLAGS
    requires PageMapped(m1, own1, m', own', dirs, d, v, e)
    ensures FreshPage(m, own, m', own', dirs, d, v, ReadVirtual(m', d, v))
  {
    assert Extends(own, own');
    forall w: Hi | w >= USER_PAGE && w != v
      ensures SameEntry(m, m', d, w)
    {
      assert SameEntry(m1, m', d, w);
      assert Get(m1, d, w / 1024) == Get(m, d, w / 1024);
    }
    assert forall k: Idx :: Get(m1, d, k) == Get(m, d, k);
  }

  /** Storing through the new mapping changes the new page only. */
  lemma FillFresh(m: Mem, own: Own, m1: Mem, own': Own, dirs: set<Hi>, d: Hi, v: Hi, p: Page)
    requires FreshPage(m, own, m1, own', dirs, d, v, ReadVirtual(m1, d, v)) && d in dirs
    requires own'[Pte(m1, d, v).hi].Leaf? || own'[Pte(m1, d, v).hi].Kernel?
    ensures FreshPage(m, own, WriteVirtual(m1, d, v, p), own', dirs, d, v, p)
  {
    var f := Pte(m1, d, v).hi;
    var m' := PutPage(m1, f, p);
    PutPageKeeps(m1, own', dirs, f, p);
    assert DirOk(m1, own', d);
    forall w: Hi | w >= USER_PAGE
      ensures SameEntry(m1, m', d, w)
    {
      var k: Idx := w / 1024;
      assert Get(m1, d, k).Present() ==> TableOk(m1, own', d, k, Get(m1, d, k).hi);
    }
    WalkKept(m1, own', dirs, d, v, f, p);
    forall w: Hi | w >= USER_PAGE && w != v
      ensures SameEntry(m, m', d, w)
    {
      assert SameEntry(m, m1, d, w) && SameEntry(m1, m', d, w);
    }
  }

  lemma WalkKept(m: Mem, own: Own, dirs: set<Hi>, d: Hi, v: Hi, f: Hi, p: Page)
    requires Inv(m, own, dirs) && d in dirs && Pde(m, d, v).Present()
    requires f in own && (own[f].Leaf? || own[f].Kernel?)
    ensures Pte(PutPage(m, f, p), d, v) == Pte(m, d, v)
    ensures PutPage(m, f, p).pages[d] == m.pages[d]
  {
    assert DirOk(m, own, d);
    var k: Idx := v / 1024;
    if k < USER_DIR {
      assert LowOk(own, k, Get(m, d, k));
    } else {
      assert TableOk(m, own, d, k, Get(m, d, k).hi);
    }
  }

  lemma LoadPageLoads(m: Mem, own: Own, dirs: set<Hi>, d: Hi, v: Hi, bytes: seq<Byte>) returns (own': Own, p: Page)
    requires Inv(m, own, dirs) && d in dirs && !LoadPage(m, d, v, bytes).exhausted
    ensures FreshPage(m, own, LoadPage(m, d, v, bytes), own', dirs, d, v, p)
    ensures forall t :: 0 <= t < |bytes| && t < 4096 ==> ByteAt(p, t) == bytes[t]
  {
    var m1 := MapFresh(m, d, v);
    own' := MapFreshMaps(m, own, dirs, d, v);
    p := Blit(ReadVirtual(m1, d, v), bytes);
    FillFresh(m, own, m1, own', dirs, d, v, p);
    forall t | 0 <= t < |bytes| && t < 4096
      ensures ByteAt(p, t) == bytes[t]
    {
      BlitBytes(ReadVirtual(m1, d, v), bytes, t);
    }
  }

  lemma ZeroedPageZeroes(m: Mem, own: Own, dirs: set<Hi>, d: Hi, v: Hi) returns (own': Own)
    requires Inv(m, own, dirs) && d in dirs && !ZeroedPage(m, d, v).exhausted
    ensures FreshPage(m, own, ZeroedPage(m, d, v), own', dirs, d, v, ZeroPage())
  {
    own' := MapFreshMaps(m, own, dirs, d, v);
    FillFresh(m, own, MapFresh(m, d, v), own', dirs, d, v, ZeroPage());
  }

  // ----- counting frames -----

  lemma FreshPageUsesFrame(m: Mem, own: Own, m': Mem, own': Own, dirs: set<Hi>, d: Hi, v: Hi, p: Page)
    requires Inv(m, own, dirs) && FreshPage(m, own, m', own', dirs, d, v, p)
    ensures |m.used| < |m'.used| <= NUM_FRAMES
  {
    SubsetSize(m.used, m'.used - {Pte(m', d, v).hi});
    Bounded(m'.used, NUM_FRAMES);
  }

  // ----- the image -----

  /** What page `k` of the image of `file` must hold. */
  predicate PageContent(file: File, k: nat, p: Page) {
    if k < CodePages(file) then forall t :: 0 <= t < |Chunk(file, k)| ==> ByteAt(p, t) == Chunk(file, k)[t]
    else p == ZeroPage()
  }

  /** Entry `k` leads to a table flagged supervisor, which map_page leaves flagged so. */
  predicate Closed(m: Mem, d: Hi, k: Idx) { Get(m, d, k).Present() && !Get(m, d, k).User() }

  ghost predicate ClosedAt(m: Mem, d: Hi, closed: set<nat>) {
    forall k: Idx :: k >= USER_DIR ==> (Closed(m, d, k) <==> k in closed)
  }

  /** Page `w` is mapped with a user-flagged entry, whatever its table is flagged. */
  predicate UserEntry(m: Mem, d: Hi, w: Hi) { Mapped(m, d, w) && Pte(m, d, w).User() }

  /** The first `n` pages of the image are mapped and hold what they must; ring 3 sees those whose
      table is not closed, and nothing else. */
  ghost predicate Loaded(m: Mem, d: Hi, file: File, n: nat, closed: set<nat>) {
    && ClosedAt(m, d, closed)
    && (forall w: Hi :: w >= USER_PAGE ==> (UserMapped(m, d, w) <==> w < USER_PAGE + n && w / 1024 !in closed))
    && (forall w: Hi :: USER_PAGE <= w < USER_PAGE + n ==>
          && UserEntry(m, d, w) && Pte(m, d, w).lo == USER_FLAGS
          && PageContent(file, w - USER_PAGE, ReadVirtual(m, d, w)))
  }

  lemma UserPageIsLeaf(m: Mem, own: Own, dirs: set<Hi>, d: Hi, w: Hi)
    requires Inv(m, own, dirs) && d in dirs && w >= USER_PAGE && UserEntry(m, d, w)
    ensures Pte(m, d, w).hi in own && own[Pte(m, d, w).hi] == Leaf(d, w / 1024, w % 1024)
  {
    assert DirOk(m, own, d);
    var k: Idx, j: Idx := w / 1024, w % 1024;
    assert TableOk(m, own, d, k, Get(m, d, k).hi);
    assert LeafOk(own, d, k, j, Get(m, Get(m, d, k).hi, j));
  }

  lemma StaysClosed(m: Mem, m': Mem, d: Hi, v: Hi, k: Idx)
    requires forall k: Idx :: k != v / 1024 ==> Get(m', d, k) == Get(m, d, k)
    requires Pde(m', d, v).lo == if Pde(m, d, v).Present() then Pde(m, d, v).lo else USER_FLAGS
    ensures Closed(m', d, k) <==> Closed(m, d, k)
  {
    assert k != v / 1024 ==> Get(m', d, k) == Get(m, d, k);
  }

  /** A fresh page at `v` maps page `v`, opens it to ring 3 if its table is not closed, opens no
      other, and keeps what the others hold. */
  lemma FreshPageOpens(m: Mem, own: Own, m': Mem, own': Own, dirs: set<Hi>, d: Hi, v: Hi, p: Page, w: Hi)
    requires Inv(m, own, dirs) && d in dirs && FreshPage(m, own, m', own', dirs, d, v, p)
    requires v >= USER_PAGE && w >= USER_PAGE
    ensures UserEntry(m', d, v) && Pte(m', d, v).lo == USER_FLAGS && ReadVirtual(m', d, v) == p
    ensures UserMapped(m', d, v) <==> !Closed(m, d, v / 1024)
    ensures w != v ==> (UserMapped(m', d, w) <==> UserMapped(m, d, w))
    ensures w != v && UserEntry(m, d, w) ==> UserEntry(m', d, w) && Pte(m', d, w) == Pte(m, d, w)
    ensures w != v && UserEntry(m, d, w) ==> ReadVirtual(m', d, w) == ReadVirtual(m, d, w)
  {
    if w != v {
      assert SameEntry(m, m', d, w);
      if UserEntry(m, d, w) {
        UserPageIsLeaf(m, own, dirs, d, w);
      }
    }
  }

  /** `n` pages of the image are in place and nobody else has noticed. */
  ghost predicate Loading(m0: Mem, own0: Own, m: Mem, own: Own, dirs: set<Hi>, d: Hi, file: File, n: nat,
                          closed: set<nat>) {
    Inv(m, own, dirs) && d in dirs && OthersKept(m0, own0, m, own, d) && Loaded(m, d, file, n, closed) && n <= |m.used|
  }

  lemma LoadedStep(m0: Mem, own0: Own, m: Mem, own: Own, m': Mem, own': Own, dirs: set<Hi>, d: Hi, file: File,
                   n: nat, p: Page, closed: set<nat>)
    requires Loading(m0, own0, m, own, dirs, d, file, n, closed)
    requires n < 0xC0000 && FreshPage(m, own, m', own', dirs, d, USER_PAGE + n, p) && PageContent(file, n, p)
    ensures Loading(m0, own0, m', own', dirs, d, file, n + 1, closed)
  {
    FreshPageUsesFrame(m, own, m', own', dirs, d, USER_PAGE + n, p);
    OthersKeptTrans(m0, own0, m, own, m', own', d);
    LoadedOneMore(m, own, m', own', dirs, d, file, n, p, closed);
  }

  lemma LoadedOneMore(m: Mem, own: Own, m': Mem, own': Own, dirs: set<Hi>, d: Hi, file: File, n: nat, p: Page,
                      closed: set<nat>)
    requires Inv(m, own, dirs) && d in dirs && Loaded(m, d, file, n, closed)
    requires n < 0xC0000 && FreshPage(m, own, m', own', dirs, d, USER_PAGE + n, p) && PageContent(file, n, p)
    ensures Loaded(m', d, file, n + 1, closed)
  {
    hide PageContent, UserMapped, UserEntry, ReadVirtual, Closed;
    var v: Hi := USER_PAGE + n;
    forall k: Idx | k >= USER_DIR
      ensures Closed(m', d, k) <==> k in closed
    {
      StaysClosed(m, m', d, v, k);
      assert Closed(m, d, k) <==> k in closed;
    }
    forall w: Hi | w >= USER_PAGE
      ensures UserMapped(m', d, w) <==> w < USER_PAGE + (n + 1) && w / 1024 !in closed
      ensures w < USER_PAGE + (n + 1) ==> UserEntry(m', d, w) && Pte(m', d, w).lo == USER_FLAGS
      ensures w < USER_PAGE + (n + 1) ==> PageContent(file, w - USER_PAGE, ReadVirtual(m', d, w))
    {
      FreshPageOpens(m, own, m', own', dirs, d, v, p, w);
      assert Closed(m, d, v / 1024) <==> v / 1024 in closed;
      assert w < v ==> UserEntry(m, d, w) && PageContent(file, w - USER_PAGE, ReadVirtual(m, d, w));
    }
  }

  lemma LoadCodeStep(m0: Mem, own0: Own, m: Mem, own: Own, dirs: set<Hi>, d: Hi, file: File, n: nat, closed: set<nat>)
    returns (own': Own)
    requires Loading(m0, own0, m, own, dirs, d, file, n, closed) && n < CodePages(file)
    requires !LoadPage(m, d, USER_PAGE + n, Chunk(file, n)).exhausted
    ensures Loading(m0, own0, LoadPage(m, d, USER_PAGE + n, Chunk(file, n)), own', dirs, d, file, n + 1, closed)
  {
    var p;
    own', p := LoadPageLoads(m, own, dirs, d, USER_PAGE + n, Chunk(file, n));
    LoadedStep(m0, own0, m, own, LoadPage(m, d, USER_PAGE + n, Chunk(file, n)), own', dirs, d, file, n, p, closed);
  }

  lemma {:induction false} LoadCodeLoads(m0: Mem, own0: Own, m: Mem, own: Own, dirs: set<Hi>, d: Hi, file: File,
                                         n: nat, closed: set<nat>)
    returns (own': Own)
    requires Loading(m0, own0, m, own, dirs, d, file, n, closed) && n <= CodePages(file)
    requires !LoadCode(m, d, file, n).exhausted
    ensures Loading(m0, own0, LoadCode(m, d, file, n), own', dirs, d, file, CodePages(file), closed)
    decreases CodePages(file) - n
  {
    hide LoadPage;
    own' := own;
    if n < CodePages(file) {
      own' := LoadCodeStep(m0, own0, m, own, dirs, d, file, n, closed);
      var m1 := LoadPage(m, d, USER_PAGE + n, Chunk(file, n));
      own' := LoadCodeLoads(m0, own0, m1, own', dirs, d, file, n + 1, closed);
    }
  }

  lemma LoadBssStep(m0: Mem, own0: Own, m: Mem, own: Own, dirs: set<Hi>, d: Hi, file: File, n: nat, closed: set<nat>)
    returns (own': Own)
    requires Loading(m0, own0, m, own, dirs, d, file, n, closed) && CodePages(file) <= n < 0xC0000
    requires !ZeroedPage(m, d, USER_PAGE + n).exhausted
    ensures Loading(m0, own0, ZeroedPage(m, d, USER_PAGE + n), own', dirs, d, file, n + 1, closed)
  {
    own' := ZeroedPageZeroes(m, own, dirs, d, USER_PAGE + n);
    LoadedStep(m0, own0, m, own, ZeroedPage(m, d, USER_PAGE + n), own', dirs, d, file, n, ZeroPage(), closed);
  }

  lemma {:induction false} LoadBssLoads(m0: Mem, own0: Own, m: Mem, own: Own, dirs: set<Hi>, d: Hi, file: File,
                                        n: nat, end: nat, closed: set<nat>)
    returns (own': Own)
    requires Loading(m0, own0, m, own, dirs, d, file, n, closed) && CodePages(file) <= n <= end <= 0xC0000
    requires !ZeroedRange(m, d, USER_PAGE + n, USER_PAGE + end).exhausted
    ensures Loading(m0, own0, ZeroedRange(m, d, USER_PAGE + n, USER_PAGE + end), own', dirs, d, file, end, closed)
    decreases end - n
  {
    hide ZeroedPage;
    own' := own;
    if n < end {
      own' := LoadBssStep(m0, own0, m, own, dirs, d, file, n, closed);
      own' := LoadBssLoads(m0, own0, ZeroedPage(m, d, USER_PAGE + n), own', dirs, d, file, n + 1, end, closed);
    }
  }

  /** The image on a directory with no user page. */
  lemma UpdateLoads(m: Mem, own: Own, dirs: set<Hi>, d: Hi, file: File, closed: set<nat>)
    returns (own': Own, m2: Mem, own2: Own)
    requires Inv(m, own, dirs) && d in dirs && Loaded(m, d, file, 0, closed) && !UpdateDirectory(m, d, file).exhausted
    ensures var m' := UpdateDirectory(m, d, file);
      && Inv(m', own', dirs) && OthersKept(m, own, m', own', d)
      && USER_PAGE + CodePages(file) + BSS_PAGES < STACK_PAGE
      && Loaded(m2, d, file, CodePages(file) + BSS_PAGES, closed)
      && Inv(m2, own2, dirs) && FreshPage(m2, own2, m', own', dirs, d, STACK_PAGE, ReadVirtual(m', d, STACK_PAGE))
  {
    hide LowClean, MapPage, LoadPage, ZeroedPage;
    var n := CodePages(file);
    var m1 := LoadCode(m, d, file, 0);
    var own1 := LoadCodeLoads(m, own, m, own, dirs, d, file, 0, closed);
    m2 := ZeroedRange(m1, d, USER_PAGE + n, USER_PAGE + n + BSS_PAGES);
    own2 := LoadBssLoads(m, own, m1, own1, dirs, d, file, n, n + BSS_PAGES, closed);
    Bounded(m2.used, NUM_FRAMES);
    own' := MapFreshMaps(m2, own2, dirs, d, STACK_PAGE);
    var m' := MapFresh(m2, d, STACK_PAGE);
    OthersKeptTrans(m, own, m2, own2, m', own', d);
  }

  /** Clearing keeps ownership and every other directory. */
  lemma ClearForExec(m: Mem, own: Own, dirs: set<Hi>, d: Hi) returns (own': Own)
    requires Inv(m, own, dirs) && d in dirs
    ensures var m' := ClearDirectory(m, d, 0);
      && Inv(m', own', dirs) && OthersKept(m, own, m', own', d) && Extends(own', own)
      && (forall k: Idx :: k >= USER_DIR ==> (Closed(m', d, k) <==> Closed(m, d, k)))
      && (forall v: Hi :: v >= USER_PAGE ==> !UserMapped(m', d, v))
  {
    var m' := ClearDirectory(m, d, 0);
    own' := ClearDirectoryKeeps(m, own, dirs, d, 0);
    ClearDirectoryPages(m, own, dirs, d, 0);
    forall f: Hi | f in own && !own[f].Shared() && own[f].d != d
      ensures f in own' && own'[f] == own[f] && m'.pages[f] == m.pages[f]
    {
      ClearDirectoryFrees(m, own, dirs, d, 0, f);
      if FreedFrom(m, d, 0, f) {
        var i: Idx :| f in EntryFrames(m, d, i);
        EntryFramesOwned(m, own, dirs, d, i, f);
      }
      assert DirOk(m, own, d);
    }
    ClearKeepsKernel(m, own, dirs, d, own');
    forall v: Hi | v >= USER_PAGE
      ensures !UserMapped(m', d, v)
    {
      ClearUnmapsUser(m, dirs, d, v);
    }
  }

  lemma ClearKeepsKernel(m: Mem, own: Own, dirs: set<Hi>, d: Hi, own': Own)
    requires Inv(m, own, dirs) && d in dirs && own'.Keys == ClearDirectory(m, d, 0).used && Extends(own', own)
    ensures KernelKept(own, own')
  {
    forall f | f in own && own[f].Shared()
      ensures f in own'
    {
      ClearDirectoryFrees(m, own, dirs, d, 0, f);
      if FreedFrom(m, d, 0, f) {
        var i: Idx :| f in EntryFrames(m, d, i);
        EntryFramesOwned(m, own, dirs, d, i, f);
      }
    }
  }

  /** The pages of an image: those of the file from address 0x40000000 on, 32 further ones, and the
      stack page at 0x50000000. */
  predicate InImage(file: File, w: Hi) { (0x40000 <= w && (w - 0x40020) * 4096 < |file|) || w == 0x50000 }

  ghost function ClosedTables(m: Mem, d: Hi): (s: set<nat>)
    ensures forall k: Idx :: k in s <==> k >= USER_DIR && Closed(m, d, k)
  {
    set k: nat | USER_DIR <= k < 1024 && Closed(m, d, k)
  }

  /** exec, whatever the directory held before: the whole image is mapped, each page holds what it
      must, and ring 3 sees exactly the pages of the image whose table was not flagged supervisor. */
  lemma ExecPage(m: Mem, dirs: set<Hi>, d: Hi, file: File, w: Hi)
    requires WellOwned(m, dirs) && d in dirs && !Exec(m, d, file).exhausted
    requires w >= 0x40000
    ensures UserMapped(Exec(m, d, file), d, w) <==> InImage(file, w) && !Closed(m, d, w / 1024)
    ensures InImage(file, w) ==> UserEntry(Exec(m, d, file), d, w) && Pte(Exec(m, d, file), d, w).lo == 7
    ensures InImage(file, w) && w != 0x50000 ==>
      PageContent(file, w - 0x40000, ReadVirtual(Exec(m, d, file), d, w))
    ensures 0x40000 + CodePages(file) + 32 < 0x50000
  {
    hide UpdateDirectory, ClearDirectory, UserMapped, UserEntry, Closed, ReadVirtual, PageContent;
    var own: Own :| Inv(m, own, dirs);
    var own1 := ClearForExec(m, own, dirs, d);
    var m1 := ClearDirectory(m, d, 0);
    assert Loaded(m1, d, file, 0, ClosedTables(m, d));
    var own', m2, own2 := UpdateLoads(m1, own1, dirs, d, file, ClosedTables(m, d));
    var m' := Exec(m, d, file);
    FreshPageOpens(m2, own2, m', own', dirs, d, STACK_PAGE, ReadVirtual(m', d, STACK_PAGE), w);
    var k: Idx := STACK_PAGE / 1024;
    assert Closed(m2, d, k) <==> k in ClosedTables(m, d);
  }

  /** Ring 3 sees exactly the code pages, 32 further pages and the stack page precisely when no
      supervisor table covers one of them. */
  lemma ExecMapsExactlyWhen(m: Mem, dirs: set<Hi>, d: Hi, file: File)
    requires WellOwned(m, dirs) && d in dirs && !Exec(m, d, file).exhausted
    ensures (forall w: Hi :: w >= 0x40000 ==> (UserMapped(Exec(m, d, file), d, w) <==> InImage(file, w)))
      <==> (forall w: Hi :: InImage(file, w) ==> !Closed(m, d, w / 1024))
  {
    hide Exec, UserMapped, InImage, Closed;
    ImageIsUser(file);
    forall w: Hi | w >= 0x40000
      ensures UserMapped(Exec(m, d, file), d, w) <==> InImage(file, w) && !Closed(m, d, w / 1024)
    {
      ExecPage(m, dirs, d, file, w);
    }
  }

  lemma ImageIsUser(file: File)
    ensures forall w: Hi :: InImage(file, w) ==> w >= 0x40000
  {
  }

  lemma ChunkByte(file: File, k: nat)
    requires k < |file|
    ensures k / 4096 < CodePages(file)
    ensures k % 4096 < |Chunk(file, k / 4096)| && Chunk(file, k / 4096)[k % 4096] == file[k]
  {
  }

  /** Every byte of the file is read back at its address from 0x40000000 on. */
  lemma ExecLoadsFile(m: Mem, dirs: set<Hi>, d: Hi, file: File, k: nat)
    requires WellOwned(m, dirs) && d in dirs && !Exec(m, d, file).exhausted
    requires k < |file|
    ensures 0x40000000 + k < 0x50000000
    ensures var v := (0x40000000 + k) / 4096;
      UserEntry(Exec(m, d, file), d, v) && ByteAt(ReadVirtual(Exec(m, d, file), d, v), k % 4096) == file[k]
  {
    hide Exec, UserEntry, ReadVirtual, ByteAt;
    ChunkByte(file, k);
    ExecPage(m, dirs, d, file, STACK_PAGE);
    ExecPage(m, dirs, d, file, USER_PAGE + k / 4096);
  }

  /** The 32 pages after the code are zero. */
  lemma ExecZeroesBss(m: Mem, dirs: set<Hi>, d: Hi, file: File, i: nat)
    requires WellOwned(m, dirs) && d in dirs && !Exec(m, d, file).exhausted
    requires CodePages(file) <= i < CodePages(file) + 32
    ensures 0x40000 + i < 0x50000
    ensures UserEntry(Exec(m, d, file), d, 0x40000 + i)
    ensures ReadVirtual(Exec(m, d, file), d, 0x40000 + i) == ZeroPage()
  {
    hide Exec, UserEntry, ReadVirtual;
    ExecPage(m, dirs, d, file, STACK_PAGE);
    ExecPage(m, dirs, d, file, USER_PAGE + i);
  }

  // ----- sbrk -----

  /** The pages `v0` up to `v` of `d` have been mapped and zeroed. */
  ghost predicate Zeroing(m0: Mem, own0: Own, m: Mem, own: Own, dirs: set<Hi>, d: Hi, v0: nat, v: nat) {
    && Inv(m, own, dirs) && d in dirs && Extends(own0, own)
    && OthersKept(m0, own0, m, own, d) && LeavesKept(m0, own0, m)
    && (forall w: Hi :: w >= USER_PAGE && !(v0 <= w < v) ==> SameEntry(m0, m, d, w))
    && (forall w: Hi :: w >= USER_PAGE && v0 <= w < v ==>
          && Mapped(m, d, w) && Pte(m, d, w).lo == USER_FLAGS && Pte(m, d, w).hi !in own0
          && ReadVirtual(m, d, w) == ZeroPage())
  }

  lemma ZeroingStep(m0: Mem, own0: Own, m: Mem, own: Own, m': Mem, own': Own, dirs: set<Hi>, d: Hi, v0: nat, v: Hi)
    requires Zeroing(m0, own0, m, own, dirs, d, v0, v) && v0 <= v
    requires FreshPage(m, own, m', own', dirs, d, v, ZeroPage())
    ensures Zeroing(m0, own0, m', own', dirs, d, v0, v + 1)
  {
    hide Inv, SameEntry, OthersKept, SameEntriesBut;
    OthersKeptTrans(m0, own0, m, own, m', own', d);
    SameOutside(m0, m, m', d, v0, v);
    forall w: Hi | w >= USER_PAGE && v0 <= w < v
      ensures Mapped(m', d, w) && Pte(m', d, w) == Pte(m, d, w) && ReadVirtual(m', d, w) == ZeroPage()
    {
      ZeroedStays(m, own, m', own', dirs, d, v, w);
    }
  }

  lemma SameOutside(m0: Mem, m: Mem, m': Mem, d: Hi, v0: nat, v: Hi)
    requires v0 <= v && SameEntriesBut(m, m', d, v)
    requires forall w: Hi :: w >= USER_PAGE && !(v0 <= w < v) ==> SameEntry(m0, m, d, w)
    ensures forall w: Hi :: w >= USER_PAGE && !(v0 <= w < v + 1) ==> SameEntry(m0, m', d, w)
  {
    forall w: Hi | w >= USER_PAGE && !(v0 <= w < v + 1)
      ensures SameEntry(m0, m', d, w)
    {
      assert SameEntry(m0, m, d, w) && SameEntry(m, m', d, w);
    }
  }

  lemma ZeroedStays(m: Mem, own: Own, m': Mem, own': Own, dirs: set<Hi>, d: Hi, v: Hi, w: Hi)
    requires Inv(m, own, dirs) && d in dirs && FreshPage(m, own, m', own', dirs, d, v, ZeroPage())
    requires w >= USER_PAGE && w != v && UserEntry(m, d, w) && ReadVirtual(m, d, w) == ZeroPage()
    ensures Mapped(m', d, w) && Pte(m', d, w) == Pte(m, d, w) && ReadVirtual(m', d, w) == ZeroPage()
  {
    assert SameEntry(m, m', d, w);
    UserPageIsLeaf(m, own, dirs, d, w);
  }

  lemma ZeroNextPage(m0: Mem, own0: Own, m: Mem, own: Own, dirs: set<Hi>, d: Hi, v0: nat, v: Hi) returns (own': Own)
    requires Zeroing(m0, own0, m, own, dirs, d, v0, v) && v0 <= v && !ZeroedPage(m, d, v).exhausted
    ensures Zeroing(m0, own0, ZeroedPage(m, d, v), own', dirs, d, v0, v + 1)
  {
    own' := ZeroedPageZeroes(m, own, dirs, d, v);
    ZeroingStep(m0, own0, m, own, ZeroedPage(m, d, v), own', dirs, d, v0, v);
  }

  lemma {:induction false} ZeroedRangeZeroes(m0: Mem, own0: Own, m: Mem, own: Own, dirs: set<Hi>, d: Hi,
                                             v0: nat, v: nat, end: nat)
    returns (own': Own)
    requires v0 <= v <= end <= 0x100000 && Zeroing(m0, own0, m, own, dirs, d, v0, v)
    requires !ZeroedRange(m, d, v, end).exhausted
    ensures Zeroing(m0, own0, ZeroedRange(m, d, v, end), own', dirs, d, v0, end)
    decreases end - v
  {
    hide ZeroedPage;
    own' := own;
    if v < end {
      own' := ZeroNextPage(m0, own0, m, own, dirs, d, v0, v);
      own' := ZeroedRangeZeroes(m0, own0, ZeroedPage(m, d, v), own', dirs, d, v0, v + 1, end);
    }
  }

  lemma SbrkMaps(m: Mem, own: Own, dirs: set<Hi>, d: Hi, brk: uint32, offset: uint32) returns (own': Own)
    requires Inv(m, own, dirs) && d in dirs && SbrkLoopEnds(brk, offset) && !Sbrk(m, d, brk, offset).m.exhausted
    ensures var p := FirstHeapPage(brk);
      var end := if offset == 0 then p else EndHeapPage(NewBreak(brk, offset));
      Zeroing(m, own, Sbrk(m, d, brk, offset).m, own', dirs, d, p, end)
  {
    var p := FirstHeapPage(brk);
    assert Zeroing(m, own, m, own, dirs, d, p, p);
    own' := own;
    if offset != 0 && p < EndHeapPage(NewBreak(brk, offset)) {
      own' := ZeroedRangeZeroes(m, own, m, own, dirs, d, p, p, EndHeapPage(NewBreak(brk, offset)));
    }
  }

  /** The pages of sbrk's loop, by address. */
  predicate Grown(brk: uint32, offset: uint32, w: Hi) {
    var was := if brk == 0 then 0x48000000 else brk;
    offset != 0 && (was <= w * 4096 || was > 0xFFFFF000) && w * 4096 < (was + offset) % 0x1_0000_0000
  }

  lemma GrownPages(brk: uint32, offset: uint32, w: Hi)
    requires SbrkLoopEnds(brk, offset)
    ensures var p, end := FirstHeapPage(brk), EndHeapPage(NewBreak(brk, offset));
      Grown(brk, offset, w) <==> p <= w < if offset == 0 then p else end
  {
  }

  lemma SbrkMoves(m: Mem, d: Hi, brk: uint32, offset: uint32)
    requires SbrkLoopEnds(brk, offset)
    ensures Sbrk(m, d, brk, offset).brk == ((if brk == 0 then 0x48000000 else brk) + offset) % 0x1_0000_0000
  {
  }

  lemma OwnedIsUsed(m: Mem, own: Own, dirs: set<Hi>)
    requires Inv(m, own, dirs)
    ensures own.Keys == m.used
  {
  }

  /** sbrk moves the break, which starts at 0x48000000, by `offset` modulo 2^32. It maps every page
      that begins at or behind the old break and before the new one for ring 3 and zeroes it (every
      page before the new break if the old one is in the last page of the address space); all
      other user pages keep their mapping and contents. */
  lemma SbrkExtendsHeap(m: Mem, dirs: set<Hi>, d: Hi, brk: uint32, offset: uint32, w: Hi)
    requires WellOwned(m, dirs) && d in dirs && SbrkLoopEnds(brk, offset) && !Sbrk(m, d, brk, offset).m.exhausted
    requires w >= 0x40000
    ensures Sbrk(m, d, brk, offset).brk == ((if brk == 0 then 0x48000000 else brk) + offset) % 0x1_0000_0000
    ensures var m' := Sbrk(m, d, brk, offset).m;
      if Grown(brk, offset, w) then
        && Mapped(m', d, w) && Pte(m', d, w).lo == 7
        && ReadVirtual(m', d, w) == ZeroPage() && Pte(m', d, w).hi !in m.used
      else
        SameEntry(m, m', d, w) && (UserEntry(m, d, w) ==> ReadVirtual(m', d, w) == ReadVirtual(m, d, w))
  {
    SbrkMoves(m, d, brk, offset);
    hide Grown, FirstHeapPage, EndHeapPage, Sbrk, Inv, DirOk;
    var own: Own :| Inv(m, own, dirs);
    OwnedIsUsed(m, own, dirs);
    var own' := SbrkMaps(m, own, dirs, d, brk, offset);
    GrownPages(brk, offset, w);
    if Mapped(m, d, w) && Pte(m, d, w).User() {
      UserPageIsLeaf(m, own, dirs, d, w);
    }
  }

  /** The page address of sbrk's loop after `n` turns, in 32 bits. */
  function LoopPage(brk: uint32, n: nat): uint32 { (FirstHeapPage(brk) * 4096 + n * 4096) % TWO_32 }

  /** Some turn of the loop finds its condition false. */
  ghost predicate LoopStops(brk: uint32, offset: uint32) { exists n :: LoopPage(brk, n) >= NewBreak(brk, offset) }

  lemma LoopPageAligned(brk: uint32, n: nat)
    ensures LoopPage(brk, n) <= 0xFFFFF000
    ensures FirstHeapPage(brk) + n < 0x100000 ==> LoopPage(brk, n) == (FirstHeapPage(brk) + n) * 4096
  {
    assert (FirstHeapPage(brk) * 4096 + n * 4096) % 4096 == 0;
  }

  /** The loop of sbrk ends precisely when the new break is not in the last page of the address
      space, or there is nothing to map: the page behind the last one is page 0 again. */
  lemma SbrkEndsExactlyWhen(brk: uint32, offset: uint32)
    ensures SbrkLoopEnds(brk, offset) <==> offset == 0 || LoopStops(brk, offset)
  {
    var p: nat, b: nat := FirstHeapPage(brk), NewBreak(brk, offset);
    LoopPageAligned(brk, 0);
    if p * 4096 < b <= 0xFFFFF000 {
      var n := EndHeapPage(b) - p;
      LoopPageAligned(brk, n);
      assert LoopPage(brk, n) >= b;
    } else if p * 4096 >= b {
      assert LoopPage(brk, 0) >= b;
    } else {
      forall n
        ensures LoopPage(brk, n) < b
      {
        LoopPageAligned(brk, n);
      }
    }
  }

  /** From a fresh break, a request for one byte less than what is left of the address space makes
      the loop run for ever. */
  lemma SbrkCanRunForever()
    ensures NewBreak(0, 0xB7FFFFFF) == 0xFFFFFFFF && !LoopStops(0, 0xB7FFFFFF)
  {
    SbrkEndsExactlyWhen(0, 0xB7FFFFFF);
  }
}
