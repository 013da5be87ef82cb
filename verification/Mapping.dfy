/** map_page: what it enters, what it keeps, and that ownership survives it. */
module Mapping {
  import opened PageTables
  import opened Ownership
  import opened ForkCopy

  /** The pages and roles of every directory but `d` are as they were, and the kernel keeps its frames. */
  ghost predicate OthersKept(m: Mem, own: Own, m': Mem, own': Own, d: nat) {
    && KernelKept(own, own')
    && forall f: Hi :: f in own && !own[f].Shared() && own[f].d != d ==>
      f in own' && own'[f] == own[f] && m'.pages[f] == m.pages[f]
  }

  ghost predicate KernelKept(own: Own, own': Own) {
    forall f :: f in own && (own[f].Kernel? || own[f].Reserved?) ==> f in own' && own'[f] == own[f]
  }

  lemma OthersKeptTrans(m: Mem, own: Own, m1: Mem, own1: Own, m2: Mem, own2: Own, d: nat)
    requires OthersKept(m, own, m1, own1, d) && OthersKept(m1, own1, m2, own2, d)
    ensures OthersKept(m, own, m2, own2, d)
  {
  }

  /** The pages mapped by leaves, of whatever directory, are as they were. */
  ghost predicate LeavesKept(m: Mem, own: Own, m': Mem) {
    forall f: Hi :: f in own && own[f].Leaf? ==> m'.pages[f] == m.pages[f]
  }

  /** Page `w` of `d` is mapped as before. */
  ghost predicate SameEntry(m: Mem, m': Mem, d: Hi, w: Hi) {
    && (Mapped(m', d, w) <==> Mapped(m, d, w))
    && (Mapped(m, d, w) ==> Pde(m', d, w).lo == Pde(m, d, w).lo && Pte(m', d, w) == Pte(m, d, w))
  }

  /** The user half of `d` is mapped as before, page `v` aside. */
  ghost predicate SameEntriesBut(m: Mem, m': Mem, d: Hi, v: Hi) {
    forall w: Hi :: w >= USER_PAGE && w != v ==> SameEntry(m, m', d, w)
  }

  /** The whole effect of map_page on directory `d`, for page `v` and new entry `e`. */
  ghost predicate PageMapped(m: Mem, own: Own, m': Mem, own': Own, dirs: set<Hi>, d: Hi, v: Hi, e: Word) {
    && Inv(m', own', dirs) && Extends(own, own') && OthersKept(m, own, m', own', d) && LeavesKept(m, own, m')
    && Pde(m', d, v).Present() && Pte(m', d, v) == e
    && SameEntriesBut(m, m', d, v)
    && (forall k: Idx :: k != v / 1024 ==> Get(m', d, k) == Get(m, d, k))
    && Pde(m', d, v).lo == if Pde(m, d, v).Present() then Pde(m, d, v).lo else e.lo
  }

  /** Writing into a table that is already there. */
  lemma PutEntry(m: Mem, own: Own, dirs: set<Hi>, d: Hi, v: Hi, e: Word)
    requires Inv(m, own, dirs) && d in dirs && e.Present() && Pde(m, d, v).Present()
    requires if v >= USER_PAGE then LeafOk(own, d, v / 1024, v % 1024, e) else CleanEntry(own, e)
    ensures PageMapped(m, own, Put(m, Pde(m, d, v).hi, v % 1024, e), own, dirs, d, v, e)
  {
    assert DirOk(m, own, d);
    var i: Idx, j: Idx := v / 1024, v % 1024;
    var t := Get(m, d, i).hi;
    var m' := Put(m, t, j, e);
    if v >= USER_PAGE {
      assert TableOk(m, own, d, i, t);
      PutLeafKeeps(m, own, dirs, d, i, t, j, e);
    } else {
      assert LowOk(own, i, Get(m, d, i));
      CleanEntryPut(own, m.pages[t], j, e);
      PutPageKeeps(m, own, dirs, t, m.pages[t][j := e]);
    }
    assert m'.pages[d] == m.pages[d];
    forall w: Hi | w >= USER_PAGE && w != v
      ensures SameEntry(m, m', d, w)
    {
      EntryElsewhere(m, own, d, v, w, e);
    }
  }

  lemma EntryElsewhere(m: Mem, own: Own, d: Hi, v: Hi, w: Hi, e: Word)
    requires DirOk(m, own, d) && Pde(m, d, v).Present() && w >= USER_PAGE && w != v
    ensures SameEntry(m, Put(m, Pde(m, d, v).hi, v % 1024, e), d, w)
  {
    var i: Idx, k: Idx := v / 1024, w / 1024;
    if Get(m, d, k).Present() {
      assert TableOk(m, own, d, k, Get(m, d, k).hi);
    }
    if i >= USER_DIR {
      assert TableOk(m, own, d, i, Get(m, d, i).hi);
    } else {
      assert LowOk(own, i, Get(m, d, i));
    }
  }

  /** Allocating, zeroing and attaching a table for page `v`. */
  lemma AttachFreshTable(m: Mem, own: Own, dirs: set<Hi>, d: Hi, v: Hi, lo: Lo) returns (own': Own)
    requires Inv(m, own, dirs) && d in dirs && !Pde(m, d, v).Present() && lo % 2 == 1
    requires !CreateTable(m).m.exhausted
    ensures var t := CreateTable(m);
      var i: Idx := v / 1024;
      var m' := Put(t.m, d, i, Word(t.f, lo));
      && Inv(m', own', dirs) && Extends(own, own')
      && 0 < t.f < NUM_FRAMES && t.f !in own && own' == own[t.f := if i < USER_DIR then Low(i) else Table(d, i)]
      && (forall f: Hi :: f != d && f != t.f ==> m'.pages[f] == m.pages[f])
      && (forall k: Idx :: k != i ==> Get(m', d, k) == Get(m, d, k))
      && (forall j: Idx :: Get(m', t.f, j) == ZERO_WORD)
  {
    var i: Idx := v / 1024;
    var t := CreateTable(m);
    assert DirOk(m, own, d);
    if i < USER_DIR {
      PutPageKeeps(m, own, dirs, t.f, ZeroPage());
      own' := AllocKeeps(PutPage(m, t.f, ZeroPage()), own, dirs, Low(i));
    } else {
      own' := AllocKeeps(m, own, dirs, Table(d, i));
      NewTableKeeps(Alloc(m).m, own', dirs, d, i, t.f);
      assert TableOk(t.m, own', d, i, t.f);
    }
    PutDirKeeps(t.m, own', dirs, d, i, Word(t.f, lo));
  }

  /** An identity mapping leaves the user half of `d` alone. */
  lemma IdentityMapSameEntries(m: Mem, own: Own, dirs: set<Hi>, d: Hi, f: Hi)
    requires Inv(m, own, dirs) && d in dirs && f < NUM_FRAMES
    ensures var m' := IdentityMapIn(m, d, f);
      && Inv(m', own, dirs) && OthersKept(m, own, m', own, d) && LeavesKept(m, own, m')
      && m'.pages[d] == m.pages[d]
      && (forall g: Hi :: g in own && own[g].Table? ==> m'.pages[g] == m.pages[g])
      && (forall w: Hi :: w >= USER_PAGE ==> SameEntry(m, m', d, w))
  {
    IdentityMapKeeps(m, own, dirs, d, f);
    assert DirOk(m, own, d);
    var m' := IdentityMapIn(m, d, f);
    forall w: Hi | w >= USER_PAGE
      ensures SameEntry(m, m', d, w)
    {
      var k: Idx := w / 1024;
      assert Get(m, d, k).Present() ==> TableOk(m, own, d, k, Get(m, d, k).hi);
    }
  }

  lemma MapInFreshTable(m: Mem, own: Own, dirs: set<Hi>, d: Hi, v: Hi, e: Word) returns (own': Own)
    requires Inv(m, own, dirs) && d in dirs && !Pde(m, d, v).Present() && e.Present()
    requires if v >= USER_PAGE then LeafOk(own, d, v / 1024, v % 1024, e) else CleanEntry(own, e)
    requires !CreateTable(m).m.exhausted
    ensures var t := CreateTable(m);
      var m2 := Put(t.m, d, v / 1024, Word(t.f, e.lo));
      PageMapped(m, own, Put(IdentityMapIn(m2, d, t.f), t.f, v % 1024, e), own', dirs, d, v, e)
  {
    var t := CreateTable(m);
    var m2 := Put(t.m, d, v / 1024, Word(t.f, e.lo));
    own' := AttachFreshTable(m, own, dirs, d, v, e.lo);
    AttachedSameEntries(m, own, m2, dirs, d, v, t.f);
    var m3 := IdentityMapIn(m2, d, t.f);
    IdentityMapSameEntries(m2, own', dirs, d, t.f);
    PutEntry(m3, own', dirs, d, v, e);
    var m4 := Put(m3, t.f, v % 1024, e);
    OthersKeptTrans(m, own, m2, own', m3, own', d);
    OthersKeptTrans(m, own, m3, own', m4, own', d);
    SameEntriesTrans(m, m2, m3, m4, d, v);
  }

  lemma SameEntriesTrans(m: Mem, m2: Mem, m3: Mem, m4: Mem, d: Hi, v: Hi)
    requires forall w: Hi :: w >= USER_PAGE && w != v ==> SameEntry(m, m2, d, w)
    requires forall w: Hi :: w >= USER_PAGE ==> SameEntry(m2, m3, d, w)
    requires forall w: Hi :: w >= USER_PAGE && w != v ==> SameEntry(m3, m4, d, w)
    ensures forall w: Hi :: w >= USER_PAGE && w != v ==> SameEntry(m, m4, d, w)
  {
    forall w: Hi | w >= USER_PAGE && w != v
      ensures SameEntry(m, m4, d, w)
    {
      assert SameEntry(m, m2, d, w) && SameEntry(m2, m3, d, w) && SameEntry(m3, m4, d, w);
    }
  }

  lemma AttachedSameEntries(m: Mem, own: Own, m2: Mem, dirs: set<Hi>, d: Hi, v: Hi, t: Hi)
    requires Inv(m, own, dirs) && d in dirs && !Pde(m, d, v).Present() && t !in own
    requires forall f: Hi :: f != d && f != t ==> m2.pages[f] == m.pages[f]
    requires forall k: Idx :: k != v / 1024 ==> Get(m2, d, k) == Get(m, d, k)
    requires Get(m2, d, v / 1024).hi == t && forall j: Idx :: Get(m2, t, j) == ZERO_WORD
    ensures forall w: Hi :: w >= USER_PAGE && w != v ==> SameEntry(m, m2, d, w)
  {
    assert DirOk(m, own, d);
    forall w: Hi | w >= USER_PAGE && w != v
      ensures SameEntry(m, m2, d, w)
    {
      var k: Idx := w / 1024;
      if k != v / 1024 && Get(m, d, k).Present() {
        assert TableOk(m, own, d, k, Get(m, d, k).hi);
      }
      assert k != v / 1024 ==> Get(m2, d, k) == Get(m, d, k);
    }
  }

  /** map_page keeps ownership, maps page `v` as asked, and changes no other user mapping. */
  lemma MapPageMaps(m: Mem, own: Own, dirs: set<Hi>, d: Hi, v: Hi, f: Hi, flags: Lo) returns (own': Own)
    requires Inv(m, own, dirs) && d in dirs && !MapPage(m, d, v, f, flags).exhausted
    requires var e := Word(f, WithPresent(flags));
      if v >= USER_PAGE then LeafOk(own, d, v / 1024, v % 1024, e) else CleanEntry(own, e)
    ensures PageMapped(m, own, MapPage(m, d, v, f, flags), own', dirs, d, v, Word(f, WithPresent(flags)))
  {
    own' := own;
    if Pde(m, d, v).Present() {
      PutEntry(m, own, dirs, d, v, Word(f, WithPresent(flags)));
    } else {
      own' := MapInFreshTable(m, own, dirs, d, v, Word(f, WithPresent(flags)));
    }
  }
}
