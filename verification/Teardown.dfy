/** clear_page_directory releases exactly the user frames and tables of one directory, each
    once; forking and removing the child therefore leaves only known residue behind. */
module Teardown {
  import opened PageTables
  import opened Ownership
  import opened ForkCopy

  // ----- what is freed -----

  predicate Freeable(e: Word) { e.Present() && e.User() }

  /** The frames that clearing table `t` from entry `j` on releases. */
  ghost function LeafFrames(m: Mem, t: Hi, j: nat): set<nat> {
    set k: Idx | j <= k && Freeable(Get(m, t, k)) :: Get(m, t, k).hi as nat
  }

  ghost function EntryFrames(m: Mem, pd: Hi, i: Idx): set<nat> {
    var e := Get(m, pd, i);
    if i >= USER_DIR && Freeable(e) then LeafFrames(m, e.hi, 0) + {e.hi} else {}
  }

  ghost predicate FreedFrom(m: Mem, pd: Hi, n: nat, f: nat) {
    exists i: Idx :: n <= i && f in EntryFrames(m, pd, i)
  }

  predicate OfTable(r: Role, d: nat, i: nat) { (r.Table? || r.Leaf?) && r.d == d && r.i == i }

  // ----- how often free_frame is called -----

  function LeafCalls(m: Mem, t: Hi, j: nat): nat
    requires j <= 1024
    decreases 1024 - j, t
  {
    if j == 1024 then 0 else (if Freeable(Get(m, t, j)) then 1 else 0) + LeafCalls(m, t, j + 1)
  }

  function EntryCalls(m: Mem, pd: Hi, i: Idx): nat {
    var e := Get(m, pd, i);
    if i >= USER_DIR && Freeable(e) then 1 + LeafCalls(m, e.hi, 0) else 0
  }

  function DirectoryCalls(m: Mem, pd: Hi, i: nat): nat
    requires i <= 1024
    decreases 1024 - i, pd
  {
    if i == 1024 then 0 else EntryCalls(m, pd, i) + DirectoryCalls(m, pd, i + 1)
  }

  // ----- one table -----

  lemma {:induction false} FreeLeavesFrees(m: Mem, t: Hi, j: nat)
    requires j <= 1024
    requires forall k: Idx :: j <= k && Freeable(Get(m, t, k)) ==> Get(m, t, k).hi != 0
    ensures FreeLeaves(m, t, j) == m.(used := m.used - LeafFrames(m, t, j))
    decreases 1024 - j
  {
    if j < 1024 {
      var m1 := FreeLeaf(m, t, j);
      assert forall k: Idx :: Get(m1, t, k) == Get(m, t, k);
      FreeLeavesFrees(m1, t, j + 1);
      LeafFramesSame(m, m1, t, j + 1);
      LeafFramesStep(m, t, j);
      var rest := LeafFrames(m, t, j + 1);
      var e := Get(m, t, j);
      if Freeable(e) {
        assert m.used - {e.hi as nat} - rest == m.used - (rest + {e.hi as nat});
      }
    }
  }

  /** Each call of free_frame in one table clears a bit that was set. */
  lemma {:induction false} FreeLeavesCount(m: Mem, own: Own, d: nat, i: Idx, t: Hi, j: nat)
    requires j <= 1024 && 0 in own && own[0] == Kernel
    requires forall f :: f in own ==> f < NUM_FRAMES
    requires forall k: Idx :: j <= k ==> LeafOk(own, d, i, k, Get(m, t, k))
    requires forall k: Idx :: j <= k && Freeable(Get(m, t, k)) ==> Get(m, t, k).hi in m.used
    ensures |FreeLeaves(m, t, j).used| == |m.used| - LeafCalls(m, t, j)
    decreases 1024 - j
  {
    if j < 1024 {
      var m1 := FreeLeaf(m, t, j);
      assert LeafOk(own, d, i, j, Get(m, t, j));
      forall k: Idx | j + 1 <= k
        ensures LeafOk(own, d, i, k, Get(m1, t, k))
        ensures Freeable(Get(m1, t, k)) ==> Get(m1, t, k).hi in m1.used
      {
        assert LeafOk(own, d, i, k, Get(m, t, k));
      }
      FreeLeavesCount(m1, own, d, i, t, j + 1);
      LeafCallsSame(m, m1, t, j + 1);
    }
  }

  lemma LeafFramesStep(m: Mem, t: Hi, j: Idx)
    ensures LeafFrames(m, t, j) ==
      LeafFrames(m, t, j + 1) + if Freeable(Get(m, t, j)) then {Get(m, t, j).hi as nat} else {}
  {
  }

  lemma LeafFramesSame(m: Mem, m': Mem, t: Hi, j: nat)
    requires m'.pages[t] == m.pages[t]
    ensures LeafFrames(m', t, j) == LeafFrames(m, t, j)
  {
    assert forall k: Idx :: Get(m', t, k) == Get(m, t, k);
    forall f
      ensures f in LeafFrames(m', t, j) <==> f in LeafFrames(m, t, j)
    {
      if f in LeafFrames(m', t, j) {
        var k: Idx :| j <= k && Freeable(Get(m', t, k)) && f == Get(m', t, k).hi;
        assert Freeable(Get(m, t, k));
      }
      if f in LeafFrames(m, t, j) {
        var k: Idx :| j <= k && Freeable(Get(m, t, k)) && f == Get(m, t, k).hi;
        assert Freeable(Get(m', t, k));
      }
    }
  }

  lemma {:induction false} LeafCallsSame(m: Mem, m': Mem, t: Hi, j: nat)
    requires j <= 1024 && m'.pages[t] == m.pages[t]
    ensures LeafCalls(m', t, j) == LeafCalls(m, t, j)
    decreases 1024 - j
  {
    if j < 1024 {
      LeafCallsSame(m, m', t, j + 1);
    }
  }

  // ----- one directory entry -----

  ghost function Restrict(own: Own, used: set<nat>): Own {
    map f | f in own && f in used :: own[f]
  }

  lemma EntryFramesOwned(m: Mem, own: Own, dirs: set<Hi>, d: Hi, i: Idx, f: nat)
    requires Inv(m, own, dirs) && d in dirs && f in EntryFrames(m, d, i)
    ensures f in own && OfTable(own[f], d, i)
  {
    assert DirOk(m, own, d);
    var t := Get(m, d, i).hi;
    assert TableOk(m, own, d, i, t);
    if f != t {
      var k: Idx :| Freeable(Get(m, t, k)) && f == Get(m, t, k).hi;
      assert LeafOk(own, d, i, k, Get(m, t, k));
    }
  }

  lemma ClearEntryKeeps(m: Mem, own: Own, dirs: set<Hi>, d: Hi, i: Idx)
    requires Inv(m, own, dirs) && d in dirs
    ensures var m' := ClearEntry(m, d, i);
      && Inv(m', Restrict(own, m'.used), dirs)
      && m'.used == m.used - EntryFrames(m, d, i)
      && |m'.used| == |m.used| - EntryCalls(m, d, i)
      && (forall f: Hi :: f != d ==> m'.pages[f] == m.pages[f])
      && (forall k: Idx :: Get(m', d, k) ==
            if k == i && i >= USER_DIR && Freeable(Get(m, d, i)) then ZERO_WORD else Get(m, d, k))
  {
    var e := Get(m, d, i);
    var m' := ClearEntry(m, d, i);
    assert DirOk(m, own, d);
    if i >= USER_DIR && Freeable(e) {
      FreeEntry(m, own, d, i);
      ClearPresentEntry(m, own, dirs, d, i);
    } else {
      assert Restrict(own, m.used) == own;
    }
  }

  lemma ClearPresentEntry(m: Mem, own: Own, dirs: set<Hi>, d: Hi, i: Idx)
    requires Inv(m, own, dirs) && d in dirs && i >= USER_DIR
    requires ClearEntry(m, d, i) == Put(m, d, i, ZERO_WORD).(used := m.used - EntryFrames(m, d, i))
    ensures Inv(ClearEntry(m, d, i), Restrict(own, ClearEntry(m, d, i).used), dirs)
  {
    var fs := EntryFrames(m, d, i);
    PutDirKeeps(m, own, dirs, d, i, ZERO_WORD);
    forall f | f in fs
      ensures f in own && OfTable(own[f], d, i)
    {
      EntryFramesOwned(m, own, dirs, d, i, f);
    }
    ReleaseKeeps(Put(m, d, i, ZERO_WORD), own, ClearEntry(m, d, i), dirs, d, i, fs);
  }

  lemma FreeEntry(m: Mem, own: Own, d: Hi, i: Idx)
    requires DirOk(m, own, d) && own.Keys == m.used && 0 in own && own[0] == Kernel
    requires forall f :: f in m.used ==> f < NUM_FRAMES
    requires i >= USER_DIR && Freeable(Get(m, d, i))
    ensures ClearEntry(m, d, i) == Put(m, d, i, ZERO_WORD).(used := m.used - EntryFrames(m, d, i))
    ensures |m.used - EntryFrames(m, d, i)| == |m.used| - EntryCalls(m, d, i)
  {
    var t := Get(m, d, i).hi;
    assert TableOk(m, own, d, i, t);
    FreeableLeavesUsed(m, own, d, i, t);
    LeavesNotZero(m, own, d, i, t);
    FreeLeavesFrees(m, t, 0);
    FreeLeavesCount(m, own, d, i, t, 0);
    TableIsNoLeaf(m, own, d, i, t);
    var freed := LeafFrames(m, t, 0);
    var m1 := FreeLeaves(m, t, 0);
    assert m.used - freed - {t as nat} == m.used - (freed + {t as nat});
    assert t in m1.used;
  }

  lemma LeavesNotZero(m: Mem, own: Own, d: Hi, i: Idx, t: Hi)
    requires TableOk(m, own, d, i, t) && 0 in own && own[0] == Kernel
    ensures forall k: Idx :: LeafOk(own, d, i, k, Get(m, t, k))
    ensures forall k: Idx :: Freeable(Get(m, t, k)) ==> Get(m, t, k).hi != 0
  {
    assert forall k: Idx :: LeafOk(own, d, i, k, Get(m, t, k));
  }

  lemma TableIsNoLeaf(m: Mem, own: Own, d: Hi, i: Idx, t: Hi)
    requires TableOk(m, own, d, i, t) && t < NUM_FRAMES
    ensures t !in LeafFrames(m, t, 0)
  {
    assert forall k: Idx :: LeafOk(own, d, i, k, Get(m, t, k));
  }

  lemma FreeableLeavesUsed(m: Mem, own: Own, d: nat, i: Idx, t: Hi)
    requires TableOk(m, own, d, i, t) && own.Keys == m.used
    ensures forall k: Idx :: Freeable(Get(m, t, k)) ==> Get(m, t, k).hi in m.used
  {
    forall k: Idx | Freeable(Get(m, t, k))
      ensures Get(m, t, k).hi in m.used
    {
      assert LeafOk(own, d, i, k, Get(m, t, k));
    }
  }

  /** Releasing the frames of an entry of `d` that is no longer present. */
  lemma ReleaseKeeps(m: Mem, own: Own, m': Mem, dirs: set<Hi>, d: Hi, i: Idx, fs: set<nat>)
    requires Inv(m, own, dirs) && d in dirs && !Get(m, d, i).Present() && i >= USER_DIR
    requires forall f :: f in fs ==> f in own && OfTable(own[f], d, i)
    requires m' == m.(used := m.used - fs)
    ensures Inv(m', Restrict(own, m'.used), dirs)
  {
    var own' := Restrict(own, m'.used);
    LowCleanFrame(m, own, m', own');
    forall d' | d' in dirs
      ensures DirOk(m', own', d')
    {
      assert DirOk(m, own, d');
      forall k: Idx | k < USER_DIR
        ensures LowOk(own', k, Get(m', d', k))
      {
        assert LowOk(own, k, Get(m, d', k));
      }
      forall k: Idx | k >= USER_DIR && Get(m', d', k).Present()
        ensures TableOk(m', own', d', k, Get(m', d', k).hi)
      {
        var t := Get(m, d', k).hi;
        assert TableOk(m, own, d', k, t);
        forall j: Idx
          ensures LeafOk(own', d', k, j, Get(m', t, j))
        {
          assert LeafOk(own, d', k, j, Get(m, t, j));
        }
      }
    }
  }

  // ----- the whole directory -----

  /** Clearing one entry leaves what the later entries free as it was. */
  lemma LaterEntriesSame(m: Mem, own: Own, dirs: set<Hi>, d: Hi, i: Idx, k: Idx)
    requires Inv(m, own, dirs) && d in dirs && i < k
    ensures EntryFrames(ClearEntry(m, d, i), d, k) == EntryFrames(m, d, k)
    ensures EntryCalls(ClearEntry(m, d, i), d, k) == EntryCalls(m, d, k)
  {
    var m1 := ClearEntry(m, d, i);
    ClearEntryKeeps(m, own, dirs, d, i);
    assert Get(m1, d, k) == Get(m, d, k);
    var t := Get(m, d, k).hi;
    assert DirOk(m, own, d);
    if k >= USER_DIR && Freeable(Get(m, d, k)) {
      assert TableOk(m, own, d, k, t);
      LeafFramesSame(m, m1, t, 0);
      LeafCallsSame(m, m1, t, 0);
    }
  }

  lemma {:induction false} LaterCallsSame(m: Mem, own: Own, dirs: set<Hi>, d: Hi, i: Idx, n: nat)
    requires Inv(m, own, dirs) && d in dirs && i < n <= 1024
    ensures DirectoryCalls(ClearEntry(m, d, i), d, n) == DirectoryCalls(m, d, n)
    decreases 1024 - n
  {
    if n < 1024 {
      LaterEntriesSame(m, own, dirs, d, i, n);
      LaterCallsSame(m, own, dirs, d, i, n + 1);
    }
  }

  lemma FreedFromStep(m: Mem, own: Own, dirs: set<Hi>, d: Hi, i: Idx, f: nat)
    requires Inv(m, own, dirs) && d in dirs
    ensures FreedFrom(m, d, i, f) <==> f in EntryFrames(m, d, i) || FreedFrom(ClearEntry(m, d, i), d, i + 1, f)
  {
    var m1 := ClearEntry(m, d, i);
    forall k: Idx | i < k
      ensures EntryFrames(m1, d, k) == EntryFrames(m, d, k)
    {
      LaterEntriesSame(m, own, dirs, d, i, k);
    }
    if FreedFrom(m, d, i, f) {
      var k: Idx :| i <= k && f in EntryFrames(m, d, k);
      assert k == i || f in EntryFrames(m1, d, k);
    }
    if FreedFrom(m1, d, i + 1, f) {
      var k: Idx :| i + 1 <= k && f in EntryFrames(m1, d, k);
      assert f in EntryFrames(m, d, k);
    }
  }

  lemma {:induction false} ClearDirectoryKeeps(m: Mem, own: Own, dirs: set<Hi>, d: Hi, n: nat) returns (own': Own)
    requires n <= 1024 && Inv(m, own, dirs) && d in dirs
    ensures var m' := ClearDirectory(m, d, n);
      && Inv(m', own', dirs) && Extends(own', own)
      && |m'.used| == |m.used| - DirectoryCalls(m, d, n)
    decreases 1024 - n
  {
    own' := own;
    if n < 1024 {
      var m1 := ClearEntry(m, d, n);
      ClearEntryKeeps(m, own, dirs, d, n);
      own' := ClearDirectoryKeeps(m1, Restrict(own, m1.used), dirs, d, n + 1);
      LaterCallsSame(m, own, dirs, d, n, n + 1);
    }
  }

  lemma {:induction false} ClearDirectoryPages(m: Mem, own: Own, dirs: set<Hi>, d: Hi, n: nat)
    requires n <= 1024 && Inv(m, own, dirs) && d in dirs
    ensures var m' := ClearDirectory(m, d, n);
      && (forall f: Hi :: f != d ==> m'.pages[f] == m.pages[f])
      && (forall k: Idx :: Get(m', d, k) ==
            if n <= k && k >= USER_DIR && Freeable(Get(m, d, k)) then ZERO_WORD else Get(m, d, k))
    decreases 1024 - n
  {
    if n < 1024 {
      var m1 := ClearEntry(m, d, n);
      ClearEntryKeeps(m, own, dirs, d, n);
      ClearDirectoryPages(m1, Restrict(own, m1.used), dirs, d, n + 1);
    }
  }

  lemma {:induction false} ClearDirectoryFrees(m: Mem, own: Own, dirs: set<Hi>, d: Hi, n: nat, f: nat)
    requires n <= 1024 && Inv(m, own, dirs) && d in dirs
    ensures f in ClearDirectory(m, d, n).used <==> f in m.used && !FreedFrom(m, d, n, f)
    decreases 1024 - n
  {
    hide Inv, ClearEntry, EntryFrames;
    if n < 1024 {
      var m1 := ClearEntry(m, d, n);
      ClearEntryKeeps(m, own, dirs, d, n);
      ClearDirectoryFrees(m1, Restrict(own, m1.used), dirs, d, n + 1, f);
      FreedFromStep(m, own, dirs, d, n, f);
    }
  }

  /** No frame is freed twice: the bitmap loses exactly one frame per call of free_frame. */
  lemma NoDoubleFree(m: Mem, dirs: set<Hi>, d: Hi)
    requires WellOwned(m, dirs) && d in dirs
    ensures |ClearDirectory(m, d, 0).used| == |m.used| - DirectoryCalls(m, d, 0)
  {
    var own: Own :| Inv(m, own, dirs);
    var own' := ClearDirectoryKeeps(m, own, dirs, d, 0);
  }

  /** After clearing, no page at or above 0x40000000 is open to ring 3, and every frame that
      was has been released. */
  lemma ClearUnmapsUser(m: Mem, dirs: set<Hi>, d: Hi, v: Hi)
    requires WellOwned(m, dirs) && d in dirs && v >= 0x40000
    ensures var m' := ClearDirectory(m, d, 0);
      && !UserMapped(m', d, v)
      && (UserMapped(m, d, v) ==> Pte(m, d, v).hi in m.used && Pte(m, d, v).hi !in m'.used)
  {
    var own: Own :| Inv(m, own, dirs);
    ClearDirectoryPages(m, own, dirs, d, 0);
    var i: Idx, j: Idx := v / 1024, v % 1024;
    if UserMapped(m, d, v) {
      var f := Pte(m, d, v).hi;
      assert Freeable(Get(m, Get(m, d, i).hi, j));
      assert f in EntryFrames(m, d, i);
      ClearDirectoryFrees(m, own, dirs, d, 0, f);
      EntryFramesOwned(m, own, dirs, d, i, f);
    }
  }

  // ----- fork followed by removal -----

  /** The frames that a directory reaches in its user half but that clearing passes over:
      tables flagged supervisor with all they map, and supervisor pages in user tables. */
  ghost predicate SupervisorFrame(m: Mem, d: Hi, f: nat) {
    exists i: Idx :: i >= USER_DIR && SupervisorFrameAt(m, d, i, f)
  }

  ghost predicate SupervisorFrameAt(m: Mem, d: Hi, i: Idx, f: nat) {
    var e := Get(m, d, i);
    && e.Present()
    && ((!e.User() && f == e.hi)
        || exists j: Idx ::
             Get(m, e.hi, j).Present() && !(e.User() && Get(m, e.hi, j).User()) && Get(m, e.hi, j).hi == f)
  }

  /** Forking and removing the child gives back every frame except the child's directory and
      its copies of supervisor tables and pages. */
  lemma ForkThenRemove(m: Mem, dirs: set<Hi>, d: Hi, f: nat)
    requires WellOwned(m, dirs) && d in dirs && !Fork(m, d).m.exhausted
    ensures var m1, c := Fork(m, d).m, Fork(m, d).f;
      f in ClearDirectory(m1, c, 0).used <==>
        f in m.used || f == c || (f < NUM_FRAMES && SupervisorFrame(m1, c, f))
  {
    var own: Own :| Inv(m, own, dirs);
    var m1, c := Fork(m, d).m, Fork(m, d).f;
    var own1 := ForkCopies(m, own, dirs, d);
    var dirs1 := dirs + {c};
    ClearDirectoryFrees(m1, own1, dirs1, c, 0, f);
    if f in own1 && f !in own {
      assert Reached(m1, c, f, own1[f]);
      if f != c {
        NewFrameFate(m1, own1, dirs1, c, f);
      }
    }
    if f in own || f == c {
      if FreedFrom(m1, c, 0, f) {
        FreedIsNew(m, own, m1, own1, dirs1, d, c, f);
      }
    } else if f < NUM_FRAMES && SupervisorFrame(m1, c, f) {
      SupervisorFrameIsUsed(m1, own1, dirs1, c, f);
    }
  }

  lemma SupervisorFrameIsUsed(m: Mem, own: Own, dirs: set<Hi>, c: Hi, f: nat)
    requires Inv(m, own, dirs) && c in dirs && f < NUM_FRAMES && SupervisorFrame(m, c, f)
    ensures f in own
  {
    assert DirOk(m, own, c);
    var i: Idx :| i >= USER_DIR && SupervisorFrameAt(m, c, i, f);
    var t := Get(m, c, i).hi;
    assert TableOk(m, own, c, i, t);
    if f != t {
      var j: Idx :| Get(m, t, j).Present() && Get(m, t, j).hi == f;
      assert LeafOk(own, c, i, j, Get(m, t, j));
    }
  }

  /** A frame the child owns is either freed or a supervisor frame, never both. */
  lemma NewFrameFate(m: Mem, own: Own, dirs: set<Hi>, c: Hi, f: nat)
    requires Inv(m, own, dirs) && c in dirs && f in own && f != c && Reached(m, c, f, own[f])
    ensures FreedFrom(m, c, 0, f) <==> !SupervisorFrame(m, c, f)
  {
    assert DirOk(m, own, c);
    var i: Idx := own[f].i;
    var t := Get(m, c, i).hi;
    assert TableOk(m, own, c, i, t);
    if f in EntryFrames(m, c, i) {
      forall k: Idx | k >= USER_DIR && SupervisorFrameAt(m, c, k, f)
        ensures false
      {
        SupervisorFrameRole(m, own, dirs, c, k, f);
      }
    } else {
      assert SupervisorFrameAt(m, c, i, f);
      forall k: Idx | f in EntryFrames(m, c, k)
        ensures false
      {
        EntryFramesOwned(m, own, dirs, c, k, f);
      }
    }
  }

  lemma SupervisorFrameRole(m: Mem, own: Own, dirs: set<Hi>, c: Hi, i: Idx, f: nat)
    requires Inv(m, own, dirs) && c in dirs && f in own && i >= USER_DIR && SupervisorFrameAt(m, c, i, f)
    ensures OfTable(own[f], c, i)
    ensures f !in EntryFrames(m, c, i)
  {
    assert DirOk(m, own, c);
    var e := Get(m, c, i);
    assert TableOk(m, own, c, i, e.hi);
    forall j: Idx | Get(m, e.hi, j).Present() && Get(m, e.hi, j).hi == f
      ensures own[f] == Leaf(c, i, j)
    {
      assert LeafOk(own, c, i, j, Get(m, e.hi, j));
    }
  }

  lemma FreedIsNew(m: Mem, own: Own, m1: Mem, own1: Own, dirs: set<Hi>, d: Hi, c: Hi, f: nat)
    requires CopiedUpTo(m, own, m1, own1, dirs, d, c, 1024) && FreedFrom(m1, c, 0, f)
    ensures f !in own && f != c
  {
    var i: Idx :| f in EntryFrames(m1, c, i);
    EntryFramesOwned(m1, own1, dirs, c, i, f);
    assert DirOk(m1, own1, c);
    assert CopiedTable(m, own, Get(m, d, i), m1, own1, Get(m1, c, i), c, i);
    var t := Get(m1, c, i).hi;
    if f != t {
      var j: Idx :| Freeable(Get(m1, t, j)) && f == Get(m1, t, j).hi;
      assert CopiedEntry(m, own, Get(m, Get(m, d, i).hi, j), m1, own1, Get(m1, t, j), c, i, j);
    }
  }
}
