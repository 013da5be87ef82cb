/** fork copies an address space: every page at or above 0x40000000 is duplicated onto a fresh
    frame, everything below is shared, and the parent only gains identity mappings. */
module ForkCopy {
  import opened PageTables
  import opened Ownership

  ghost predicate Extends(own: Own, own': Own) {
    forall f :: f in own ==> f in own' && own'[f] == own[f]
  }

  /** `e'` maps a copy, on a frame unknown to `own0`, of the page that `e` maps in `m0`. */
  ghost predicate CopiedEntry(m0: Mem, own0: Own, e: Word, m: Mem, own: Own, e': Word, c: nat, i: nat, j: nat) {
    if e.Present() then
      && e'.lo == e.lo
      && e'.hi in own && own[e'.hi] == Leaf(c, i, j) && e'.hi !in own0 && e'.hi != 0
      && m.pages[e'.hi] == m0.pages[e.hi]
    else e' == ZERO_WORD
  }

  lemma IdentityMapOfLeaf(m: Mem, own: Own, dirs: set<Hi>, d: Hi, i: Idx, j: Idx)
    requires Inv(m, own, dirs) && d in dirs && i >= USER_DIR && Get(m, d, i).Present()
    requires Get(m, Get(m, d, i).hi, j).Present()
    ensures var m' := IdentityMapIn(m, d, Get(m, Get(m, d, i).hi, j).hi);
      Inv(m', own, dirs) && m'.used == m.used && OnlyIdentityMaps(m, m', own)
  {
    assert DirOk(m, own, d);
    var t := Get(m, d, i).hi;
    var e := Get(m, t, j);
    assert TableOk(m, own, d, i, t);
    assert LeafOk(own, d, i, j, e);
    if e.hi in own {
      IdentityMapKeeps(m, own, dirs, d, e.hi);
    } else {
      assert e.hi / 1024 == i && e.hi % 1024 == j;
      assert m.pages[t][j := e] == m.pages[t];
      assert IdentityMapIn(m, d, e.hi).pages == m.pages;
    }
  }

  /** What copying entry `j` of table `st` into table `dt` does. */
  ghost predicate LeafCopied(m: Mem, own: Own, m': Mem, own': Own, dirs: set<Hi>, st: Hi, c: nat, i: nat,
                             dt: Hi, j: Idx) {
    var e := Get(m, st, j);
    && Inv(m', own', dirs)
    && OnlyIdentityMaps(m, m', own - {dt})
    && (forall j': Idx :: j' != j ==> Get(m', dt, j') == Get(m, dt, j'))
    && (if e.Present() then
          && own' == own[Get(m', dt, j).hi := Leaf(c, i, j)] && Get(m', dt, j).hi !in own
          && CopiedEntry(m, own, e, m', own', Get(m', dt, j), c, i, j)
        else m' == m && own' == own)
  }

  lemma CopyLeafKeeps(m: Mem, own: Own, dirs: set<Hi>, d: Hi, c: Hi, i: Idx, dt: Hi, j: Idx) returns (own': Own)
    requires Inv(m, own, dirs) && d in dirs && c in dirs && c != d
    requires i >= USER_DIR && Get(m, d, i).Present()
    requires dt in own && own[dt] == Table(c, i)
    requires !CopyLeaf(m, d, Get(m, d, i).hi, dt, j).exhausted
    ensures LeafCopied(m, own, CopyLeaf(m, d, Get(m, d, i).hi, dt, j), own', dirs, Get(m, d, i).hi, c, i, dt, j)
  {
    own' := own;
    var st := Get(m, d, i).hi;
    var e := Get(m, st, j);
    if e.Present() {
      var m2 := IdentityMapIn(IdentityMapIn(Alloc(m).m, d, Alloc(m).f), d, e.hi);
      own' := PrepareLeaf(m, own, dirs, d, c, i, j);
      MoveLeaf(m, own, m2, own', dirs, e, Alloc(m).f, c, i, dt, j);
      assert m2.pages[st] == m.pages[st];
    }
  }

  /** A fresh frame for the copy, both frames identity mapped; the source is as it was. */
  lemma PrepareLeaf(m: Mem, own: Own, dirs: set<Hi>, d: Hi, c: Hi, i: Idx, j: Idx) returns (own': Own)
    requires Inv(m, own, dirs) && d in dirs && c != d
    requires i >= USER_DIR && Get(m, d, i).Present() && Get(m, Get(m, d, i).hi, j).Present()
    requires !Alloc(m).m.exhausted
    ensures var st := Get(m, d, i).hi;
      var e := Get(m, st, j);
      var f := Alloc(m).f;
      var m2 := IdentityMapIn(IdentityMapIn(Alloc(m).m, d, f), d, e.hi);
      && 0 < f < NUM_FRAMES && f !in own && own' == own[f := Leaf(c, i, j)]
      && Inv(m2, own', dirs) && OnlyIdentityMaps(m, m2, own)
      && m2.pages[st] == m.pages[st] && m2.pages[e.hi] == m.pages[e.hi]
      && st in own && own[st] == Table(d, i)
  {
    assert DirOk(m, own, d);
    var st := Get(m, d, i).hi;
    assert TableOk(m, own, d, i, st);
    assert LeafOk(own, d, i, j, Get(m, st, j));
    var a := Alloc(m);
    own' := AllocKeeps(m, own, dirs, Leaf(c, i, j));
    IdentityMapKeeps(a.m, own', dirs, d, a.f);
    var m1 := IdentityMapIn(a.m, d, a.f);
    IdentityMapOfLeaf(m1, own', dirs, d, i, j);
    OnlyIdentityMapsTrans(a.m, m1, IdentityMapIn(m1, d, Get(m, st, j).hi), own', own');
  }

  /** Copying the page and entering it in the new table. */
  lemma MoveLeaf(m: Mem, own: Own, m2: Mem, own': Own, dirs: set<Hi>, e: Word, f: Hi, c: Hi, i: Idx, dt: Hi, j: Idx)
    requires Inv(m, own, dirs) && c in dirs && i >= USER_DIR && e.Present()
    requires 0 < f < NUM_FRAMES && f !in own && own' == own[f := Leaf(c, i, j)]
    requires Inv(m2, own', dirs) && OnlyIdentityMaps(m, m2, own) && m2.pages[e.hi] == m.pages[e.hi]
    requires dt in own && own[dt] == Table(c, i)
    ensures var m' := Put(PutPage(m2, f, m2.pages[e.hi]), dt, j, Word(f, e.lo));
      && Inv(m', own', dirs) && OnlyIdentityMaps(m, m', own - {dt})
      && (forall j': Idx :: j' != j ==> Get(m', dt, j') == Get(m, dt, j'))
      && CopiedEntry(m, own, e, m', own', Get(m', dt, j), c, i, j)
  {
    PutPageKeeps(m2, own', dirs, f, m2.pages[e.hi]);
    PutLeafKeeps(PutPage(m2, f, m2.pages[e.hi]), own', dirs, c, i, dt, j, Word(f, e.lo));
    assert m2.pages[dt] == m.pages[dt];
  }

  /** The frames of `own` that `own1` lacks are table `dt` and the leaves it maps. */
  ghost predicate NewLeavesReached(own1: Own, m: Mem, own: Own, dt: Hi, c: nat, i: nat) {
    forall f :: f in own && f !in own1 && f != dt ==>
      && own[f].Leaf? && own[f].d == c && own[f].i == i && own[f].j < 1024
      && Get(m, dt, own[f].j).Present() && Get(m, dt, own[f].j).hi == f
  }

  /** The state while table `dt` of `c` is being filled, entries below `j` being done:
      `m0` is the memory at the fork, `m1` the memory before the table was allocated. */
  ghost predicate LeavesCopied(m0: Mem, own0: Own, m1: Mem, own1: Own, m: Mem, own: Own, dirs: set<Hi>,
                               d: Hi, c: Hi, i: Idx, dt: Hi, j: nat) {
    && Inv(m, own, dirs) && d in dirs && c in dirs && c != d && c !in own0
    && DirOk(m0, own0, d) && 0 in own0 && own0[0] == Kernel && Extends(own0, own1) && Extends(own1, own)
    && OnlyIdentityMaps(m0, m, own0) && OnlyIdentityMaps(m1, m, own1)
    && i >= USER_DIR && Get(m0, d, i).Present()
    && dt !in own1 && dt in own && own[dt] == Table(c, i)
    && (forall k: Idx :: k < j ==>
          CopiedEntry(m0, own0, Get(m0, Get(m0, d, i).hi, k), m, own, Get(m, dt, k), c, i, k))
    && (forall k: Idx :: j <= k ==> Get(m, dt, k) == ZERO_WORD)
    && NewLeavesReached(own1, m, own, dt, c, i)
  }

  lemma LeafStep(m0: Mem, own0: Own, m1: Mem, own1: Own, m: Mem, own: Own, dirs: set<Hi>,
                 d: Hi, c: Hi, i: Idx, dt: Hi, j: Idx) returns (own': Own)
    requires LeavesCopied(m0, own0, m1, own1, m, own, dirs, d, c, i, dt, j)
    requires !CopyLeaf(m, d, Get(m0, d, i).hi, dt, j).exhausted
    ensures LeavesCopied(m0, own0, m1, own1, CopyLeaf(m, d, Get(m0, d, i).hi, dt, j), own', dirs, d, c, i, dt, j + 1)
  {
    SourceUnchanged(m0, own0, m, d, i, j);
    own' := CopyLeafKeeps(m, own, dirs, d, c, i, dt, j);
    LeafStepDone(m0, own0, m1, own1, m, own, CopyLeaf(m, d, Get(m0, d, i).hi, dt, j), own', dirs, d, c, i, dt, j);
  }

  lemma LeafStepDone(m0: Mem, own0: Own, m1: Mem, own1: Own, m: Mem, own: Own, m': Mem, own': Own, dirs: set<Hi>,
                     d: Hi, c: Hi, i: Idx, dt: Hi, j: Idx)
    requires LeavesCopied(m0, own0, m1, own1, m, own, dirs, d, c, i, dt, j)
    requires LeafCopied(m, own, m', own', dirs, Get(m0, d, i).hi, c, i, dt, j)
    requires Get(m, Get(m0, d, i).hi, j) == Get(m0, Get(m0, d, i).hi, j)
    requires var e := Get(m0, Get(m0, d, i).hi, j); e.Present() ==> m.pages[e.hi] == m0.pages[e.hi]
    ensures LeavesCopied(m0, own0, m1, own1, m', own', dirs, d, c, i, dt, j + 1)
  {
    hide Inv, DirOk, CopiedEntry, OnlyIdentityMaps;
    FramesInRange(m, own, dirs);
    OldPagesKept(m0, own0, m, m', own, dt);
    OnlyIdentityMapsTrans(m1, m, m', own1, own - {dt});
    OneLeafMore(m, own, m', own', dirs, Get(m0, d, i).hi, c, i, dt, j);
    EntriesDone(m0, own0, m, own, m', own', dirs, Get(m0, d, i).hi, c, i, dt, j);
    NewLeavesStep(own1, m, own, m', own', dt, c, i, j);
  }

  lemma FramesInRange(m: Mem, own: Own, dirs: set<Hi>)
    requires Inv(m, own, dirs)
    ensures forall f :: f in own ==> f < NUM_FRAMES
  {
  }

  lemma OneLeafMore(m: Mem, own: Own, m': Mem, own': Own, dirs: set<Hi>, st: Hi, c: nat, i: nat, dt: Hi, j: Idx)
    requires LeafCopied(m, own, m', own', dirs, st, c, i, dt, j)
    ensures own' == own || (own' == own[Get(m', dt, j).hi := Leaf(c, i, j)] && Get(m', dt, j).Present())
    ensures Extends(own, own')
  {
  }

  lemma EntriesDone(m0: Mem, own0: Own, m: Mem, own: Own, m': Mem, own': Own, dirs: set<Hi>, st: Hi, c: nat,
                    i: nat, dt: Hi, j: Idx)
    requires LeafCopied(m, own, m', own', dirs, st, c, i, dt, j)
    requires Extends(own0, own) && dt in own && own[dt].Table?
    requires Get(m, st, j) == Get(m0, st, j)
    requires Get(m, st, j).Present() ==> m.pages[Get(m, st, j).hi] == m0.pages[Get(m, st, j).hi]
    requires forall k: Idx :: k < j ==> CopiedEntry(m0, own0, Get(m0, st, k), m, own, Get(m, dt, k), c, i, k)
    requires forall k: Idx :: j <= k ==> Get(m, dt, k) == ZERO_WORD
    ensures forall k: Idx :: k < j + 1 ==> CopiedEntry(m0, own0, Get(m0, st, k), m', own', Get(m', dt, k), c, i, k)
    ensures forall k: Idx :: j + 1 <= k ==> Get(m', dt, k) == ZERO_WORD
  {
    forall k: Idx | k < j + 1
      ensures CopiedEntry(m0, own0, Get(m0, st, k), m', own', Get(m', dt, k), c, i, k)
    {
      if k < j {
        CopiedEntryStable(m0, own0, Get(m0, st, k), m, own, m', own', Get(m, dt, k), c, i, k, dt);
      }
    }
  }

  lemma NewLeavesStep(own1: Own, m: Mem, own: Own, m': Mem, own': Own, dt: Hi, c: nat, i: nat, j: Idx)
    requires NewLeavesReached(own1, m, own, dt, c, i) && !Get(m, dt, j).Present()
    requires forall k: Idx :: k != j ==> Get(m', dt, k) == Get(m, dt, k)
    requires own' == own || (own' == own[Get(m', dt, j).hi := Leaf(c, i, j)] && Get(m', dt, j).Present())
    ensures NewLeavesReached(own1, m', own', dt, c, i)
  {
    forall f | f in own' && f !in own1 && f != dt
      ensures own'[f].Leaf? && own'[f].d == c && own'[f].i == i && own'[f].j < 1024
      ensures Get(m', dt, own'[f].j).Present() && Get(m', dt, own'[f].j).hi == f
    {
      if own'[f] != Leaf(c, i, j) {
        var k: Idx := own[f].j;
        assert Get(m', dt, k) == Get(m, dt, k);
      }
    }
  }

  /** The directory being copied, its table, and the page an entry maps are as at the fork. */
  lemma SourceUnchanged(m0: Mem, own0: Own, m: Mem, d: Hi, i: Idx, j: Idx)
    requires DirOk(m0, own0, d) && 0 in own0 && own0[0] == Kernel && OnlyIdentityMaps(m0, m, own0)
    requires i >= USER_DIR && Get(m0, d, i).Present() && forall f :: f in own0 ==> f < NUM_FRAMES
    ensures m.pages[d] == m0.pages[d] && m.pages[Get(m0, d, i).hi] == m0.pages[Get(m0, d, i).hi]
    ensures var e := Get(m0, Get(m0, d, i).hi, j);
      e.Present() ==> m.pages[e.hi] == m0.pages[e.hi]
  {
    var st := Get(m0, d, i).hi;
    assert TableOk(m0, own0, d, i, st);
    assert LeafOk(own0, d, i, j, Get(m0, st, j));
  }

  lemma CopiedEntryStable(m0: Mem, own0: Own, e: Word, m: Mem, own: Own, m': Mem, own': Own, e': Word, c: nat,
                          i: nat, j: nat, w: Hi)
    requires CopiedEntry(m0, own0, e, m, own, e', c, i, j) && Extends(own, own')
    requires OnlyIdentityMaps(m, m', own - {w}) && w in own && !own[w].Leaf?
    ensures CopiedEntry(m0, own0, e, m', own', e', c, i, j)
  {
    assert e.Present() ==> e'.hi in own - {w};
  }

  lemma {:induction false} CopyLeavesKeeps(m0: Mem, own0: Own, m1: Mem, own1: Own, m: Mem, own: Own, dirs: set<Hi>,
                                           d: Hi, c: Hi, i: Idx, dt: Hi, j: nat) returns (own': Own)
    requires j <= 1024 && LeavesCopied(m0, own0, m1, own1, m, own, dirs, d, c, i, dt, j)
    requires !CopyLeaves(m, d, Get(m0, d, i).hi, dt, j).exhausted
    ensures LeavesCopied(m0, own0, m1, own1, CopyLeaves(m, d, Get(m0, d, i).hi, dt, j), own', dirs, d, c, i, dt, 1024)
    decreases 1024 - j
  {
    own' := own;
    if j < 1024 {
      own' := LeafStep(m0, own0, m1, own1, m, own, dirs, d, c, i, dt, j);
      var m' := CopyLeaf(m, d, Get(m0, d, i).hi, dt, j);
      own' := CopyLeavesKeeps(m0, own0, m1, own1, m', own', dirs, d, c, i, dt, j + 1);
    }
  }

  /** A step that works on a new table only also keeps the pages known before it. */
  lemma OldPagesKept(m0: Mem, own0: Own, m: Mem, m': Mem, own: Own, dt: Hi)
    requires Extends(own0, own) && dt !in own0
    requires OnlyIdentityMaps(m0, m, own0) && OnlyIdentityMaps(m, m', own - {dt})
    requires forall f :: f in own ==> f < NUM_FRAMES
    ensures OnlyIdentityMaps(m0, m', own0)
  {
    OnlyIdentityMapsTrans(m0, m, m', own0, own - {dt});
  }

  /** Table entry `e'` of directory `c` is a deep copy of table entry `e` of the original. */
  ghost predicate CopiedTable(m0: Mem, own0: Own, e: Word, m: Mem, own: Own, e': Word, c: nat, i: nat) {
    if e.Present() then
      && e'.lo == e.lo
      && e'.hi in own && own[e'.hi] == Table(c, i) && e'.hi !in own0
      && forall j: Idx :: CopiedEntry(m0, own0, Get(m0, e.hi, j), m, own, Get(m, e'.hi, j), c, i, j)
    else e' == ZERO_WORD
  }

  /** Frame `f` with role `r` is the directory `c` or is reached from it by the walk `r` names. */
  ghost predicate Reached(m: Mem, c: Hi, f: nat, r: Role) {
    match r
    case Dir(d) => f == c == d
    case Table(d, i) => d == c && USER_DIR <= i < 1024 && Get(m, c, i).Present() && Get(m, c, i).hi == f
    case Leaf(d, i, j) =>
      && d == c && USER_DIR <= i < 1024 && j < 1024 && Get(m, c, i).Present()
      && Get(m, Get(m, c, i).hi, j).Present() && Get(m, Get(m, c, i).hi, j).hi == f
    case _ => false
  }

  ghost predicate NewFramesReached(own0: Own, m: Mem, own: Own, c: Hi) {
    forall f :: f in own && f !in own0 ==> Reached(m, c, f, own[f])
  }

  /** The state after copying the first `n` entries of directory `d` of `m0` into `c`. */
  ghost predicate CopiedUpTo(m0: Mem, own0: Own, m: Mem, own: Own, dirs: set<Hi>, d: Hi, c: Hi, n: nat) {
    && Inv(m, own, dirs) && d in dirs && c in dirs && c != d && c !in own0
    && DirOk(m0, own0, d) && 0 in own0 && own0[0] == Kernel && Extends(own0, own) && OnlyIdentityMaps(m0, m, own0)
    && (forall i: Idx :: i < n && i < USER_DIR ==>
          Get(m, c, i) == if Get(m0, d, i).Present() then Get(m0, d, i) else ZERO_WORD)
    && (forall i: Idx :: i < n && USER_DIR <= i ==>
          CopiedTable(m0, own0, Get(m0, d, i), m, own, Get(m, c, i), c, i))
    && (forall i: Idx :: n <= i ==> Get(m, c, i) == ZERO_WORD)
    && NewFramesReached(own0, m, own, c)
  }

  lemma CopiedTableStable(m0: Mem, own0: Own, e: Word, m: Mem, own: Own, m': Mem, own': Own, e': Word, c: nat,
                          i: nat, w: Hi)
    requires CopiedTable(m0, own0, e, m, own, e', c, i) && Extends(own, own')
    requires OnlyIdentityMaps(m, m', own - {w}) && w in own && own[w] == Dir(c)
    requires 0 in own && own[0] == Kernel
    ensures CopiedTable(m0, own0, e, m', own', e', c, i)
    ensures m'.pages[e'.hi] == m.pages[e'.hi] || !e.Present()
  {
    if e.Present() {
      assert e'.hi in own - {w} ==> m'.pages[e'.hi] == m.pages[e'.hi];
      forall j: Idx
        ensures CopiedEntry(m0, own0, Get(m0, e.hi, j), m', own', Get(m', e'.hi, j), c, i, j)
      {
        CopiedEntryStable(m0, own0, Get(m0, e.hi, j), m, own, m', own', Get(m, e'.hi, j), c, i, j, w);
      }
    }
  }

  /** Copying a present user-half entry. */
  lemma CopyUserEntry(m0: Mem, own0: Own, m: Mem, own: Own, dirs: set<Hi>, d: Hi, c: Hi, i: Idx) returns (own': Own)
    requires Inv(m, own, dirs) && d in dirs && c in dirs && c != d && c !in own0
    requires DirOk(m0, own0, d) && 0 in own0 && own0[0] == Kernel && Extends(own0, own) && OnlyIdentityMaps(m0, m, own0)
    requires i >= USER_DIR && Get(m, d, i).Present() && Get(m, c, i) == ZERO_WORD
    requires !CopyEntry(m, c, d, i).exhausted
    ensures var m' := CopyEntry(m, c, d, i);
      && Inv(m', own', dirs) && Extends(own, own')
      && OnlyIdentityMaps(m, m', own - {c})
      && (forall k: Idx :: k != i ==> Get(m', c, k) == Get(m, c, k))
      && CopiedTable(m0, own0, Get(m0, d, i), m', own', Get(m', c, i), c, i)
      && (forall f :: f in own' && f !in own ==> Reached(m', c, f, own'[f]))
  {
    SourceEntry(m0, own0, m, own, dirs, d);
    var dt := Alloc(m).f;
    own' := FilledTable(m0, own0, m, own, dirs, d, c, i);
    var m3 := CopyLeaves(PutPage(IdentityMapIn(Alloc(m).m, d, dt), dt, ZeroPage()), d, Get(m, d, i).hi, dt, 0);
    AttachCopy(m0, own0, m, own, m3, own', dirs, d, c, i, dt);
    assert CopyEntry(m, c, d, i) == Put(m3, c, i, Word(dt, Get(m, d, i).lo));
  }

  lemma SourceEntry(m0: Mem, own0: Own, m: Mem, own: Own, dirs: set<Hi>, d: Hi)
    requires Inv(m, own, dirs) && d in dirs && DirOk(m0, own0, d) && OnlyIdentityMaps(m0, m, own0)
    ensures d in own && own[d] == Dir(d) && d != 0 && m.pages[d] == m0.pages[d]
  {
    assert DirOk(m, own, d);
  }

  /** The new table, filled. */
  lemma FilledTable(m0: Mem, own0: Own, m: Mem, own: Own, dirs: set<Hi>, d: Hi, c: Hi, i: Idx) returns (own': Own)
    requires Inv(m, own, dirs) && d in dirs && c in dirs && c != d && c !in own0
    requires DirOk(m0, own0, d) && 0 in own0 && own0[0] == Kernel && Extends(own0, own) && OnlyIdentityMaps(m0, m, own0)
    requires i >= USER_DIR && Get(m, d, i).Present() && Get(m, c, i) == ZERO_WORD
    requires !CopyEntry(m, c, d, i).exhausted
    ensures var dt := Alloc(m).f;
      var m2 := PutPage(IdentityMapIn(Alloc(m).m, d, dt), dt, ZeroPage());
      LeavesCopied(m0, own0, m, own, CopyLeaves(m2, d, Get(m, d, i).hi, dt, 0), own', dirs, d, c, i, dt, 1024)
  {
    hide Inv, DirOk, OnlyIdentityMaps, LeavesCopied;
    SourceEntry(m0, own0, m, own, dirs, d);
    var dt := Alloc(m).f;
    var m2 := PutPage(IdentityMapIn(Alloc(m).m, d, dt), dt, ZeroPage());
    var own1 := NewTable(m, own, dirs, d, c, i);
    FillStart(m0, own0, m, own, m2, own1, dirs, d, c, i, dt);
    own' := CopyLeavesKeeps(m0, own0, m, own, m2, own1, dirs, d, c, i, dt, 0);
  }

  /** Attaching the filled table to the new directory. */
  lemma AttachCopy(m0: Mem, own0: Own, m: Mem, own: Own, m3: Mem, own': Own, dirs: set<Hi>, d: Hi, c: Hi, i: Idx,
                   dt: Hi)
    requires Inv(m, own, dirs) && Get(m, d, i) == Get(m0, d, i)
    requires LeavesCopied(m0, own0, m, own, m3, own', dirs, d, c, i, dt, 1024)
    ensures var m' := Put(m3, c, i, Word(dt, Get(m, d, i).lo));
      && Inv(m', own', dirs) && Extends(own, own')
      && OnlyIdentityMaps(m, m', own - {c})
      && (forall k: Idx :: k != i ==> Get(m', c, k) == Get(m, c, k))
      && CopiedTable(m0, own0, Get(m0, d, i), m', own', Get(m', c, i), c, i)
      && (forall f :: f in own' && f !in own ==> Reached(m', c, f, own'[f]))
  {
    assert DirOk(m, own, c) && c in own && c != 0 && m3.pages[c] == m.pages[c];
    AttachTable(m0, own0, m3, own', dirs, Get(m0, d, i), c, i, dt);
    AttachedReached(own, m3, own', c, i, dt, Word(dt, Get(m, d, i).lo));
  }

  /** The frames of the attached table and its leaves are reached. */
  lemma AttachedReached(own: Own, m: Mem, own': Own, c: Hi, i: Idx, dt: Hi, e: Word)
    requires NewLeavesReached(own, m, own', dt, c, i) && dt in own' && own'[dt] == Table(c, i) && dt != c
    requires i >= USER_DIR && e.Present() && e.hi == dt
    ensures forall f :: f in own' && f !in own ==> Reached(Put(m, c, i, e), c, f, own'[f])
  {
    var m' := Put(m, c, i, e);
    assert m'.pages[dt] == m.pages[dt] && Get(m', c, i) == e;
  }

  lemma FillStart(m0: Mem, own0: Own, m: Mem, own: Own, m2: Mem, own2: Own, dirs: set<Hi>, d: Hi, c: Hi, i: Idx, dt: Hi)
    requires Inv(m2, own2, dirs) && d in dirs && c in dirs && c != d && c !in own0
    requires DirOk(m0, own0, d) && 0 in own0 && own0[0] == Kernel && Extends(own0, own)
    requires OnlyIdentityMaps(m0, m, own0) && OnlyIdentityMaps(m, m2, own)
    requires dt !in own && own2 == own[dt := Table(c, i)]
    requires i >= USER_DIR && Get(m0, d, i).Present()
    requires forall j: Idx :: Get(m2, dt, j) == ZERO_WORD
    ensures LeavesCopied(m0, own0, m, own, m2, own2, dirs, d, c, i, dt, 0)
  {
    assert forall f :: f in own ==> f in own2;
    OnlyIdentityMapsTrans(m0, m, m2, own0, own);
  }

  /** A fresh, zeroed table for entry `i` of `c`, not yet attached. */
  lemma NewTable(m: Mem, own: Own, dirs: set<Hi>, d: Hi, c: Hi, i: Idx) returns (own': Own)
    requires Inv(m, own, dirs) && d in dirs && c in dirs && c != d && !Get(m, c, i).Present()
    requires !Alloc(m).m.exhausted
    ensures var t := Alloc(m).f;
      var m' := PutPage(IdentityMapIn(Alloc(m).m, d, t), t, ZeroPage());
      && 0 < t < NUM_FRAMES && t !in own && own' == own[t := Table(c, i)]
      && Inv(m', own', dirs) && OnlyIdentityMaps(m, m', own)
      && m'.pages[d] == m.pages[d] && m'.pages[c] == m.pages[c]
      && (forall j: Idx :: Get(m', t, j) == ZERO_WORD)
  {
    var t := Alloc(m).f;
    own' := AllocKeeps(m, own, dirs, Table(c, i));
    assert DirOk(m, own, d) && DirOk(m, own, c);
    IdentityMapKeeps(Alloc(m).m, own', dirs, d, t);
    NewTableKeeps(IdentityMapIn(Alloc(m).m, d, t), own', dirs, c, i, t);
  }

  lemma AttachTable(m0: Mem, own0: Own, m: Mem, own: Own, dirs: set<Hi>, e: Word, c: Hi, i: Idx, dt: Hi)
    requires Inv(m, own, dirs) && c in dirs && i >= USER_DIR
    requires e.Present() && dt in own && own[dt] == Table(c, i) && dt !in own0
    requires forall j: Idx :: CopiedEntry(m0, own0, Get(m0, e.hi, j), m, own, Get(m, dt, j), c, i, j)
    requires c !in own0
    ensures var m' := Put(m, c, i, Word(dt, e.lo));
      && Inv(m', own, dirs) && CopiedTable(m0, own0, e, m', own, Word(dt, e.lo), c, i)
  {
    assert DirOk(m, own, c);
    var m' := Put(m, c, i, Word(dt, e.lo));
    forall j: Idx
      ensures LeafOk(own, c, i, j, Get(m, dt, j))
      ensures CopiedEntry(m0, own0, Get(m0, e.hi, j), m', own, Get(m', dt, j), c, i, j)
    {
      assert CopiedEntry(m0, own0, Get(m0, e.hi, j), m, own, Get(m, dt, j), c, i, j);
    }
    PutDirKeeps(m, own, dirs, c, i, Word(dt, e.lo));
  }

  /** Zeroing a fresh table that its directory does not reach yet. */
  lemma NewTableKeeps(m: Mem, own: Own, dirs: set<Hi>, c: Hi, i: Idx, t: Hi)
    requires Inv(m, own, dirs) && c in dirs && t in own && own[t] == Table(c, i) && !Get(m, c, i).Present()
    ensures Inv(PutPage(m, t, ZeroPage()), own, dirs)
  {
    var m' := PutPage(m, t, ZeroPage());
    InvFrame(m, own, m', own, dirs - {c});
    assert DirOk(m, own, c);
    forall k: Idx | k < USER_DIR
      ensures LowOk(own, k, Get(m', c, k))
    {
      assert LowOk(own, k, Get(m, c, k));
    }
    forall k: Idx | k >= USER_DIR && Get(m', c, k).Present()
      ensures TableOk(m', own, c, k, Get(m', c, k).hi)
    {
      var t' := Get(m, c, k).hi;
      assert TableOk(m, own, c, k, t');
      forall j: Idx
        ensures LeafOk(own, c, k, j, Get(m', t', j))
      {
        assert LeafOk(own, c, k, j, Get(m, t', j));
      }
    }
    assert DirOk(m', own, c);
    assert forall d' :: d' in dirs ==> d' == c || d' in dirs - {c};
  }

  lemma {:induction false} CopyDirectoryKeeps(m0: Mem, own0: Own, m: Mem, own: Own, dirs: set<Hi>, d: Hi, c: Hi, n: nat)
    returns (own': Own)
    requires n <= 1024
    requires CopiedUpTo(m0, own0, m, own, dirs, d, c, n)
    requires !CopyDirectory(m, c, d, n).exhausted
    ensures CopiedUpTo(m0, own0, CopyDirectory(m, c, d, n), own', dirs, d, c, 1024)
    decreases 1024 - n
  {
    if n == 1024 {
      own' := own;
    } else {
      var m1 := CopyEntry(m, c, d, n);
      var own1 := CopyEntryKeeps(m0, own0, m, own, dirs, d, c, n);
      own' := CopyDirectoryKeeps(m0, own0, m1, own1, dirs, d, c, n + 1);
    }
  }

  lemma CopyEntryKeeps(m0: Mem, own0: Own, m: Mem, own: Own, dirs: set<Hi>, d: Hi, c: Hi, i: Idx) returns (own': Own)
    requires CopiedUpTo(m0, own0, m, own, dirs, d, c, i)
    requires !CopyEntry(m, c, d, i).exhausted
    ensures CopiedUpTo(m0, own0, CopyEntry(m, c, d, i), own', dirs, d, c, i + 1)
  {
    var m' := CopyEntry(m, c, d, i);
    var e := Get(m, d, i);
    assert m.pages[d] == m0.pages[d];
    assert DirOk(m, own, c) && DirOk(m, own, d);
    own' := own;
    if e.Present() && i < USER_DIR {
      assert LowOk(own0, i, Get(m0, d, i));
      PutDirKeeps(m, own, dirs, c, i, e);
    } else if e.Present() {
      own' := CopyUserEntry(m0, own0, m, own, dirs, d, c, i);
    }
    OldPagesKept(m0, own0, m, m', own, c);
    forall k: Idx | k != i
      ensures Get(m', c, k) == Get(m, c, k)
    {
    }
    forall k: Idx | k < i + 1 && USER_DIR <= k
      ensures CopiedTable(m0, own0, Get(m0, d, k), m', own', Get(m', c, k), c, k)
    {
      if k < i {
        CopiedTableStable(m0, own0, Get(m0, d, k), m, own, m', own', Get(m, c, k), c, k, c);
      }
    }
    forall f | f in own' && f !in own0
      ensures Reached(m', c, f, own'[f])
    {
      if f in own {
        assert Reached(m, c, f, own[f]);
        if own[f].Leaf? {
          var k: Idx := own[f].i;
          assert Get(m, c, k) != ZERO_WORD && k < i;
          CopiedTableStable(m0, own0, Get(m0, d, k), m, own, m', own', Get(m, c, k), c, k, c);
        }
      }
    }
  }

  /** The start of a fork: the child's directory `c`, mapped for the kernel and zeroed. */
  lemma StartFork(m: Mem, own: Own, dirs: set<Hi>, d: Hi) returns (own': Own)
    requires Inv(m, own, dirs) && d in dirs && !Alloc(m).m.exhausted
    ensures var c := Alloc(m).f;
      var m' := PutPage(IdentityMapIn(Alloc(m).m, d, c), c, ZeroPage());
      && c !in m.used && c !in dirs && own' == own[c := Dir(c)]
      && CopiedUpTo(m, own, m', own', dirs + {c}, d, c, 0)
  {
    var c := Alloc(m).f;
    own' := AllocKeeps(m, own, dirs, Dir(c));
    assert DirOk(m, own, d);
    forall d' | d' in dirs
      ensures d' in own
    {
      assert DirOk(m, own, d');
    }
    IdentityMapKeeps(Alloc(m).m, own', dirs, d, c);
    var m1 := IdentityMapIn(Alloc(m).m, d, c);
    PutPageKeeps(m1, own', dirs, c, ZeroPage());
    var m' := PutPage(m1, c, ZeroPage());
    assert DirOk(m', own', c) by {
      assert forall i: Idx :: Get(m', c, i) == ZERO_WORD;
    }
  }

  /** The state a completed fork leaves, in terms of the one before it. */
  lemma ForkCopies(m: Mem, own: Own, dirs: set<Hi>, d: Hi) returns (own': Own)
    requires Inv(m, own, dirs) && d in dirs && !Fork(m, d).m.exhausted
    ensures Fork(m, d).f !in m.used && Fork(m, d).f !in dirs
    ensures CopiedUpTo(m, own, Fork(m, d).m, own', dirs + {Fork(m, d).f}, d, Fork(m, d).f, 1024)
  {
    var c := Alloc(m).f;
    var m1 := PutPage(IdentityMapIn(Alloc(m).m, d, c), c, ZeroPage());
    var own1 := StartFork(m, own, dirs, d);
    own' := CopyDirectoryKeeps(m, own, m1, own1, dirs + {c}, d, c, 0);
  }

  ghost predicate WellOwned(m: Mem, dirs: set<Hi>) {
    exists own: Own :: Inv(m, own, dirs)
  }

  /** Fork is a deep copy of the user half: same pages, same flags, same contents, on fresh
      frames that no two pages share. */
  lemma ForkIsDeepCopy(m: Mem, dirs: set<Hi>, d: Hi, v: Hi)
    requires WellOwned(m, dirs) && d in dirs && !Fork(m, d).m.exhausted
    requires v >= 0x40000
    ensures var m', c := Fork(m, d).m, Fork(m, d).f;
      && c !in m.used
      && (Mapped(m', c, v) <==> Mapped(m, d, v))
      && (Mapped(m, d, v) ==>
            && Pde(m', c, v).lo == Pde(m, d, v).lo
            && Pte(m', c, v).lo == Pte(m, d, v).lo
            && m'.pages[Pte(m', c, v).hi] == m.pages[Pte(m, d, v).hi]
            && Pte(m', c, v).hi in m'.used - m.used
            && forall w: Hi :: w >= 0x40000 && Mapped(m', c, w) && Pte(m', c, w).hi == Pte(m', c, v).hi ==> w == v)
  {
    var m', c := Fork(m, d).m, Fork(m, d).f;
    var own: Own :| Inv(m, own, dirs);
    var own' := ForkCopies(m, own, dirs, d);
    CopiedPage(m, own, m', own', dirs + {c}, d, c, v);
    forall w: Hi | w >= USER_PAGE && Mapped(m', c, w) && Mapped(m, d, v) && Pte(m', c, w).hi == Pte(m', c, v).hi
      ensures w == v
    {
      CopiedPage(m, own, m', own', dirs + {c}, d, c, w);
    }
  }

  lemma CopiedPage(m: Mem, own: Own, m': Mem, own': Own, dirs: set<Hi>, d: Hi, c: Hi, v: Hi)
    requires CopiedUpTo(m, own, m', own', dirs, d, c, 1024) && v >= USER_PAGE && own.Keys == m.used
    ensures Mapped(m', c, v) <==> Mapped(m, d, v)
    ensures Mapped(m, d, v) ==>
      && Pde(m', c, v).lo == Pde(m, d, v).lo
      && CopiedEntry(m, own, Pte(m, d, v), m', own', Pte(m', c, v), c, v / 1024, v % 1024)
  {
    var i: Idx, j: Idx := v / 1024, v % 1024;
    assert CopiedTable(m, own, Get(m, d, i), m', own', Get(m', c, i), c, i);
    if Get(m, d, i).Present() {
      assert CopiedEntry(m, own, Get(m, Get(m, d, i).hi, j), m', own', Get(m', Get(m', c, i).hi, j), c, i, j);
    }
  }

  /** Below 0x40000000 parent and child translate alike, through the same tables. */
  lemma ForkSharesKernelHalf(m: Mem, dirs: set<Hi>, d: Hi, v: Hi)
    requires WellOwned(m, dirs) && d in dirs && !Fork(m, d).m.exhausted
    requires v < 0x40000
    ensures var m', c := Fork(m, d).m, Fork(m, d).f;
      && (Mapped(m', c, v) <==> Mapped(m', d, v))
      && (Mapped(m', d, v) ==> Pde(m', c, v) == Pde(m', d, v) && Pte(m', c, v) == Pte(m', d, v))
  {
    var own: Own :| Inv(m, own, dirs);
    var own' := ForkCopies(m, own, dirs, d);
    var i: Idx := v / 1024;
    assert Fork(m, d).m.pages[d] == m.pages[d];
    assert Get(Fork(m, d).m, Fork(m, d).f, i) == if Get(m, d, i).Present() then Get(m, d, i) else ZERO_WORD;
  }

  /** The parent keeps its whole address space and the contents of its user pages; the only
      new translations are identity mappings of allocator frames below 0x40000000. */
  lemma ForkKeepsParent(m: Mem, dirs: set<Hi>, d: Hi, v: Hi)
    requires WellOwned(m, dirs) && d in dirs && !Fork(m, d).m.exhausted
    ensures var m' := Fork(m, d).m;
      && Pde(m', d, v) == Pde(m, d, v)
      && (v >= 0x40000 && Mapped(m, d, v) ==>
            Pte(m', d, v) == Pte(m, d, v) && m'.pages[Pte(m', d, v).hi] == m.pages[Pte(m, d, v).hi])
      && (v < 0x40000 && Pde(m, d, v).Present() ==>
            Pte(m', d, v) == Pte(m, d, v) || (v < 32768 && Pte(m', d, v) == Word(v, 3)))
  {
    var own: Own :| Inv(m, own, dirs);
    var own' := ForkCopies(m, own, dirs, d);
    var m' := Fork(m, d).m;
    var i: Idx, j: Idx := v / 1024, v % 1024;
    assert DirOk(m, own, d);
    assert m'.pages[d] == m.pages[d];
    if v >= USER_PAGE && Mapped(m, d, v) {
      assert TableOk(m, own, d, i, Get(m, d, i).hi);
      assert LeafOk(own, d, i, j, Pte(m, d, v));
    } else if v < USER_PAGE && Pde(m, d, v).Present() {
      assert LowOk(own, i, Get(m, d, i));
      var t := Get(m, d, i).hi;
      assert IdentityMapsAdded(m.pages[t], m'.pages[t], i);
    }
  }
}
