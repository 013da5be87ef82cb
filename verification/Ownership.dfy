/** The ownership invariant of physical memory: every used frame has one role, and every
    page-table entry leads to a frame whose role names exactly that entry. */
module Ownership {
  import opened PageTables

  datatype Role =
    | Reserved                              // taken at boot
    | Kernel                                // frame 0, or leaked: reached by no user page
    | Low(i: nat)                           // page table below 0x40000000, shared by a fork
    | Dir(d: nat)                           // the page directory d
    | Table(d: nat, i: nat)                 // table i of directory d
    | Leaf(d: nat, i: nat, j: nat)          // the page that entry j of table i of d maps
  {
    predicate Shared() { Reserved? || Kernel? || Low? }
  }

  type Own = map<nat, Role>

  /** A present entry of table `i` of `d` maps a frame of its own, or is an identity mapping
      of device memory beyond the allocator's frames. */
  predicate LeafOk(own: Own, d: nat, i: Idx, j: Idx, e: Word) {
    e.Present() ==>
      || (e.hi in own && own[e.hi] == Leaf(d, i, j))
      || (e.hi >= NUM_FRAMES && e == Word(i * 1024 + j, KERNEL_FLAGS))
  }

  ghost predicate TableOk(m: Mem, own: Own, d: nat, i: Idx, t: Hi) {
    t in own && own[t] == Table(d, i) && forall j: Idx :: LeafOk(own, d, i, j, Get(m, t, j))
  }

  predicate LowOk(own: Own, i: nat, e: Word) {
    if e.Present() then e.hi in own && own[e.hi] == Low(i) else e.hi == 0
  }

  ghost predicate DirOk(m: Mem, own: Own, d: Hi) {
    && d in own && own[d] == Dir(d)
    && (forall i: Idx :: i < USER_DIR ==> LowOk(own, i, Get(m, d, i)))
    && (forall i: Idx :: i >= USER_DIR && Get(m, d, i).Present() ==> TableOk(m, own, d, i, Get(m, d, i).hi))
  }

  /** User-flagged entries of tables below 0x40000000 lead to leaked frames. */
  predicate CleanEntry(own: Own, e: Word) {
    e.Present() && e.User() ==> e.hi in own && own[e.hi] == Kernel && e.hi != 0
  }

  ghost predicate CleanPage(own: Own, p: Page) { forall j: Idx :: CleanEntry(own, p[j]) }

  ghost predicate LowClean(m: Mem, own: Own) {
    forall f: Hi :: f in own && own[f].Low? ==> CleanPage(own, m.pages[f])
  }

  ghost predicate Inv(m: Mem, own: Own, dirs: set<Hi>) {
    && !m.exhausted
    && own.Keys == m.used
    && (forall f :: f in m.used ==> f < NUM_FRAMES)
    && 0 in own && own[0] == Kernel
    && (forall d :: d in dirs ==> DirOk(m, own, d))
    && LowClean(m, own)
  }

  /** Low tables stay clean when each is as it was or has been made clean anew. */
  ghost predicate LowTablesClean(m: Mem, own: Own, m': Mem, own': Own) {
    forall f: Hi :: f in own' && own'[f].Low? ==>
      (f in own && own[f].Low? && m'.pages[f] == m.pages[f]) || CleanPage(own', m'.pages[f])
  }

  lemma LowCleanFrame(m: Mem, own: Own, m': Mem, own': Own)
    requires LowClean(m, own) && LowTablesClean(m, own, m', own')
    requires forall f :: f in own && own[f].Kernel? ==> f in own' && own'[f] == own[f]
    ensures LowClean(m', own')
  {
    forall f: Hi | f in own' && own'[f].Low?
      ensures CleanPage(own', m'.pages[f])
    {
      if f in own && own[f].Low? && m'.pages[f] == m.pages[f] {
        assert CleanPage(own, m.pages[f]);
        assert forall j: Idx :: CleanEntry(own, m.pages[f][j]);
      }
    }
  }

  /** What a change of memory must keep for the directories `dirs` to stay well formed. */
  lemma InvFrame(m: Mem, own: Own, m': Mem, own': Own, dirs: set<Hi>)
    requires Inv(m, own, dirs)
    requires !m'.exhausted && own'.Keys == m'.used && forall f :: f in m'.used ==> f < NUM_FRAMES
    requires forall f :: f in own && (own[f].Shared() || own[f].d in dirs) ==> f in own' && own'[f] == own[f]
    requires forall f: Hi :: f in own && (own[f].Dir? || own[f].Table?) && own[f].d in dirs ==>
      m'.pages[f] == m.pages[f]
    requires LowTablesClean(m, own, m', own')
    ensures Inv(m', own', dirs)
  {
    LowCleanFrame(m, own, m', own');
    forall d | d in dirs
      ensures DirOk(m', own', d)
    {
      assert DirOk(m, own, d);
      forall i: Idx | i < USER_DIR
        ensures LowOk(own', i, Get(m', d, i))
      {
        assert LowOk(own, i, Get(m, d, i));
      }
      forall i: Idx | i >= USER_DIR && Get(m', d, i).Present()
        ensures TableOk(m', own', d, i, Get(m', d, i).hi)
      {
        var t := Get(m, d, i).hi;
        assert TableOk(m, own, d, i, t);
        forall j: Idx
          ensures LeafOk(own', d, i, j, Get(m', t, j))
        {
          assert LeafOk(own, d, i, j, Get(m, t, j));
        }
      }
    }
  }

  /** A fresh frame may be given any role. */
  lemma AllocKeeps(m: Mem, own: Own, dirs: set<Hi>, role: Role) returns (own': Own)
    requires Inv(m, own, dirs)
    requires !Alloc(m).m.exhausted && (role.Low? ==> m.pages[Alloc(m).f] == ZeroPage())
    ensures var a := Alloc(m);
      && 0 < a.f < NUM_FRAMES && a.f !in own && own' == own[a.f := role]
      && Inv(a.m, own', dirs) && a.m.pages == m.pages
  {
    var a := Alloc(m);
    own' := own[a.f := role];
    InvFrame(m, own, a.m, own', dirs);
  }

  /** Writing a frame that is neither a directory nor a table in use changes no mapping. */
  lemma PutPageKeeps(m: Mem, own: Own, dirs: set<Hi>, f: Hi, p: Page)
    requires Inv(m, own, dirs)
    requires f in own ==> own[f].Shared() || own[f].Leaf? || own[f].d !in dirs
    requires f in own && own[f].Low? ==> CleanPage(own, p)
    ensures Inv(PutPage(m, f, p), own, dirs)
  {
    InvFrame(m, own, PutPage(m, f, p), own, dirs);
  }

  lemma CleanEntryPut(own: Own, p: Page, j: Idx, e: Word)
    requires CleanEntry(own, e)
    ensures CleanPage(own, p) ==> CleanPage(own, p[j := e])
  {
    var q: Page := p[j := e];
    if CleanPage(own, p) {
      forall k: Idx
        ensures CleanEntry(own, q[k])
      {
        assert CleanEntry(own, p[k]);
      }
    }
  }

  /** Changing one entry of a table in use, to an entry that is again its own. */
  lemma PutLeafKeeps(m: Mem, own: Own, dirs: set<Hi>, d: Hi, i: Idx, t: Hi, j: Idx, e: Word)
    requires Inv(m, own, dirs)
    requires t in own && own[t] == Table(d, i) && LeafOk(own, d, i, j, e)
    ensures Inv(Put(m, t, j, e), own, dirs)
  {
    var m' := Put(m, t, j, e);
    InvFrame(m, own, m', own, dirs - {d});
    if d in dirs {
      forall i': Idx | i' >= USER_DIR && Get(m', d, i').Present()
        ensures TableOk(m', own, d, i', Get(m', d, i').hi)
      {
        var t' := Get(m, d, i').hi;
        assert TableOk(m, own, d, i', t');
        forall j': Idx
          ensures LeafOk(own, d, i', j', Get(m', t', j'))
        {
          assert LeafOk(own, d, i', j', Get(m, t', j'));
        }
      }
      forall i: Idx | i < USER_DIR
        ensures LowOk(own, i, Get(m', d, i))
      {
        assert LowOk(own, i, Get(m, d, i));
      }
      assert DirOk(m', own, d);
    }
    assert forall d' :: d' in dirs ==> d' == d || d' in dirs - {d};
  }

  /** Changing one directory entry, to an absent entry or to a table of its own. */
  lemma PutDirKeeps(m: Mem, own: Own, dirs: set<Hi>, d: Hi, i: Idx, e: Word)
    requires Inv(m, own, dirs) && d in dirs
    requires i < USER_DIR ==> LowOk(own, i, e)
    requires i >= USER_DIR && e.Present() ==> TableOk(m, own, d, i, e.hi)
    ensures Inv(Put(m, d, i, e), own, dirs)
  {
    var m' := Put(m, d, i, e);
    assert DirOk(m, own, d);
    InvFrame(m, own, m', own, dirs - {d});
    forall i': Idx | i' >= USER_DIR && Get(m', d, i').Present()
      ensures TableOk(m', own, d, i', Get(m', d, i').hi)
    {
      var t' := Get(m', d, i').hi;
      assert i' != i ==> Get(m, d, i') == Get(m', d, i');
      assert TableOk(m, own, d, i', t');
      forall j': Idx
        ensures LeafOk(own, d, i', j', Get(m', t', j'))
      {
        assert LeafOk(own, d, i', j', Get(m, t', j'));
      }
    }
    forall i': Idx | i' < USER_DIR
      ensures LowOk(own, i', Get(m', d, i'))
    {
      assert i' != i ==> LowOk(own, i', Get(m, d, i'));
    }
    assert DirOk(m', own, d);
    assert forall d' :: d' in dirs ==> d' == d || d' in dirs - {d};
  }

  /** Everything that is used is unchanged, except that low tables may have gained identity
      mappings and frame 0 (where an absent low table is looked for) may be anything. */
  ghost predicate OnlyIdentityMaps(m: Mem, m': Mem, own: Own) {
    && m.used <= m'.used
    && forall f: Hi :: f != 0 && (f in own || f >= NUM_FRAMES) ==>
      if f in own && own[f].Low? then IdentityMapsAdded(m.pages[f], m'.pages[f], own[f].i)
      else m'.pages[f] == m.pages[f]
  }

  ghost predicate IdentityMapsAdded(p: Page, p': Page, i: nat) {
    forall j: Idx :: p'[j] == p[j] || (i * 1024 + j < NUM_FRAMES && p'[j] == Word(i * 1024 + j, KERNEL_FLAGS))
  }

  lemma OnlyIdentityMapsTrans(m0: Mem, m1: Mem, m2: Mem, own: Own, own1: Own)
    requires OnlyIdentityMaps(m0, m1, own) && OnlyIdentityMaps(m1, m2, own1)
    requires forall f :: f in own ==> f in own1 && own1[f] == own[f]
    requires forall f :: f in own1 ==> f < NUM_FRAMES
    ensures OnlyIdentityMaps(m0, m2, own)
  {
    forall f: Hi | f != 0 && (f in own || f >= NUM_FRAMES)
      ensures if f in own && own[f].Low? then IdentityMapsAdded(m0.pages[f], m2.pages[f], own[f].i)
              else m2.pages[f] == m0.pages[f]
    {
      assert f in own && own[f].Low? ==> f in own1 && own1[f].Low?;
    }
  }

  lemma IdentityMapKeeps(m: Mem, own: Own, dirs: set<Hi>, d: Hi, f: Hi)
    requires Inv(m, own, dirs) && d in dirs && f < NUM_FRAMES
    ensures var m' := IdentityMapIn(m, d, f);
      Inv(m', own, dirs) && m'.used == m.used && OnlyIdentityMaps(m, m', own)
  {
    assert DirOk(m, own, d);
    var i: Idx := f / 1024;
    var t := Get(m, d, i).hi;
    assert LowOk(own, i, Get(m, d, i));
    CleanEntryPut(own, m.pages[t], f % 1024, Word(f, KERNEL_FLAGS));
    PutPageKeeps(m, own, dirs, t, m.pages[t][f % 1024 := Word(f, KERNEL_FLAGS)]);
  }
}
