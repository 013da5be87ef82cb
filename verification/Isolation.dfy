/** Address-space isolation over every run of create, fork, exec, sbrk, removal and ring-3
    stores, for as long as the frame allocator does not run out. */
module Isolation {
  import opened FiniteSets
  import opened Integers
  import opened PageTables
  import opened Ownership
  import opened ForkCopy
  import opened Mapping
  import opened AddressSpace
  import opened ExecImage

  datatype Proc = Proc(pd: Hi, brk: uint32)

  datatype System = System(mem: Mem, procs: map<nat, Proc>) {
    ghost function Dirs(): set<Hi> { set p | p in procs :: procs[p].pd }
  }

  datatype Event =
    | DoCreate(pid: nat, fb: Device, code: Page)
    | DoFork(pid: nat, child: nat)
    | DoExec(pid: nat, file: File)
    | DoSbrk(pid: nat, offset: uint32)
    | DoRemove(pid: nat)
    | DoStore(pid: nat, v: Hi, j: Idx, w: Word)

  /** The process an event is about: the new one in the case of a fork. */
  function Actor(e: Event): nat { if e.DoFork? then e.child else e.pid }

  function Create(s: System, pid: nat, fb: Device, code: Page): System {
    if pid in s.procs || !fb.Valid() then s
    else
      var g := CreateKernelDirectory(s.mem, fb, code);
      System(g.m, s.procs[pid := Proc(g.f, 0)])
  }

  function ForkProcess(s: System, pid: nat, child: nat): System {
    if pid !in s.procs || child in s.procs then s
    else
      var g := Fork(s.mem, s.procs[pid].pd);
      System(g.m, s.procs[child := Proc(g.f, 0)])
  }

  function ExecProcess(s: System, pid: nat, file: File): System {
    if pid !in s.procs then s else s.(mem := Exec(s.mem, s.procs[pid].pd, file))
  }

  /** A request whose loop would not end runs the allocator dry. */
  function SbrkProcess(s: System, pid: nat, offset: uint32): System {
    if pid !in s.procs then s
    else
      var p := s.procs[pid];
      if SbrkLoopEnds(p.brk, offset) then
        var b := Sbrk(s.mem, p.pd, p.brk, offset);
        System(b.m, s.procs[pid := p.(brk := b.brk)])
      else s.(mem := s.mem.(exhausted := true))
  }

  function Remove(s: System, pid: nat): System {
    if pid !in s.procs then s
    else System(ClearDirectory(s.mem, s.procs[pid].pd, 0), s.procs - {pid})
  }

  /** A store by ring-3 code; without a user mapping it faults. */
  function Store(s: System, pid: nat, v: Hi, j: Idx, w: Word): System {
    if pid !in s.procs || !UserMapped(s.mem, s.procs[pid].pd, v) then s
    else s.(mem := Put(s.mem, Pte(s.mem, s.procs[pid].pd, v).hi, j, w))
  }

  function Step(s: System, e: Event): System {
    match e
    case DoCreate(pid, fb, code) => Create(s, pid, fb, code)
    case DoFork(pid, child) => ForkProcess(s, pid, child)
    case DoExec(pid, file) => ExecProcess(s, pid, file)
    case DoSbrk(pid, offset) => SbrkProcess(s, pid, offset)
    case DoRemove(pid) => Remove(s, pid)
    case DoStore(pid, v, j, w) => Store(s, pid, v, j, w)
  }

  function Run(s: System, es: seq<Event>): System
    decreases |es|
  {
    if es == [] then s else Run(Step(s, es[0]), es[1..])
  }

  const BOOT_FRAMES: nat := 1025

  /** After boot frames 0 to 1024 are taken and there is no process. */
  function Boot(pages: Ram): System {
    System(Mem(pages, Range(0, BOOT_FRAMES), false), map[])
  }

  /** Page `v` of `pd` leads to frame `f` through a user-flagged entry at or above 0x40000000. */
  predicate Reaches(m: Mem, pd: Hi, v: Hi, f: Hi) {
    v >= 0x40000 && Mapped(m, pd, v) && Pte(m, pd, v).User() && Pte(m, pd, v).hi == f
  }

  /** A frame reached so belongs to one page of one process, and no page below 0x40000000 that is
      open to ring 3, in whatever process, leads to it. */
  ghost predicate Isolated(s: System) {
    && (forall p, q, v: Hi, w: Hi, f: Hi ::
          p in s.procs && q in s.procs && Reaches(s.mem, s.procs[p].pd, v, f) && Reaches(s.mem, s.procs[q].pd, w, f) ==>
            p == q && v == w && f in s.mem.used)
    && (forall p, q, v: Hi, w: Hi, f: Hi ::
          p in s.procs && q in s.procs && Reaches(s.mem, s.procs[p].pd, v, f) ==>
            !LowReaches(s.mem, s.procs[q].pd, w, f))
  }

  /** Page `v` of `pd`, below 0x40000000, is open to ring 3 and leads to frame `f`. */
  predicate LowReaches(m: Mem, pd: Hi, v: Hi, f: Hi) {
    v < 0x40000 && UserMapped(m, pd, v) && Pte(m, pd, v).hi == f
  }

  lemma LowPageIsLeaked(m: Mem, own: Own, dirs: set<Hi>, d: Hi, v: Hi)
    requires Inv(m, own, dirs) && d in dirs && v < USER_PAGE && UserMapped(m, d, v)
    ensures Pte(m, d, v).hi in own && own[Pte(m, d, v).hi] == Kernel && Pte(m, d, v).hi != 0
  {
    assert DirOk(m, own, d);
    var i: Idx, j: Idx := v / 1024, v % 1024;
    assert LowOk(own, i, Get(m, d, i));
    var t := Get(m, d, i).hi;
    assert CleanPage(own, m.pages[t]) && CleanEntry(own, m.pages[t][j]);
  }

  ghost predicate SysInv(s: System, own: Own) {
    && Inv(s.mem, own, s.Dirs())
    && forall p, q :: p in s.procs && q in s.procs && s.procs[p].pd == s.procs[q].pd ==> p == q
  }

  lemma OwnershipIsolates(s: System, own: Own)
    requires SysInv(s, own)
    ensures Isolated(s)
  {
    forall p, q, v: Hi, w: Hi, f: Hi |
      p in s.procs && q in s.procs && Reaches(s.mem, s.procs[p].pd, v, f) && Reaches(s.mem, s.procs[q].pd, w, f)
      ensures p == q && v == w && f in s.mem.used
    {
      UserPageIsLeaf(s.mem, own, s.Dirs(), s.procs[p].pd, v);
      UserPageIsLeaf(s.mem, own, s.Dirs(), s.procs[q].pd, w);
    }
    forall p, q, v: Hi, w: Hi, f: Hi |
      p in s.procs && q in s.procs && Reaches(s.mem, s.procs[p].pd, v, f) && LowReaches(s.mem, s.procs[q].pd, w, f)
      ensures false
    {
      UserPageIsLeaf(s.mem, own, s.Dirs(), s.procs[p].pd, v);
      LowPageIsLeaked(s.mem, own, s.Dirs(), s.procs[q].pd, w);
    }
  }

  // ----- each kernel operation keeps ownership -----

  lemma {:induction false} LoadCodeKeeps(m0: Mem, own0: Own, m: Mem, own: Own, dirs: set<Hi>, d: Hi, file: File, i: nat)
    returns (own': Own)
    requires Inv(m, own, dirs) && d in dirs && i <= CodePages(file) && OthersKept(m0, own0, m, own, d)
    requires !LoadCode(m, d, file, i).exhausted
    ensures Inv(LoadCode(m, d, file, i), own', dirs) && OthersKept(m0, own0, LoadCode(m, d, file, i), own', d)
    decreases CodePages(file) - i
  {
    hide LoadPage;
    own' := own;
    if i < CodePages(file) {
      own' := LoadOneKeeps(m0, own0, m, own, dirs, d, USER_PAGE + i, Chunk(file, i));
      own' := LoadCodeKeeps(m0, own0, LoadPage(m, d, USER_PAGE + i, Chunk(file, i)), own', dirs, d, file, i + 1);
    }
  }

  lemma LoadOneKeeps(m0: Mem, own0: Own, m: Mem, own: Own, dirs: set<Hi>, d: Hi, v: Hi, bytes: seq<Byte>)
    returns (own': Own)
    requires Inv(m, own, dirs) && d in dirs && OthersKept(m0, own0, m, own, d)
    requires !LoadPage(m, d, v, bytes).exhausted
    ensures Inv(LoadPage(m, d, v, bytes), own', dirs) && OthersKept(m0, own0, LoadPage(m, d, v, bytes), own', d)
  {
    var p;
    own', p := LoadPageLoads(m, own, dirs, d, v, bytes);
    hide LoadPage;
    OthersKeptTrans(m0, own0, m, own, LoadPage(m, d, v, bytes), own', d);
  }

  lemma ExecKeeps(m: Mem, own: Own, dirs: set<Hi>, d: Hi, file: File) returns (own': Own)
    requires Inv(m, own, dirs) && d in dirs && !Exec(m, d, file).exhausted
    ensures Inv(Exec(m, d, file), own', dirs) && OthersKept(m, own, Exec(m, d, file), own', d)
  {
    hide UpdateDirectory;
    var own0 := ClearForExec(m, own, dirs, d);
    own' := UpdateKeeps(m, own, ClearDirectory(m, d, 0), own0, dirs, d, file);
  }

  lemma UpdateKeeps(m0: Mem, own0: Own, m: Mem, own: Own, dirs: set<Hi>, d: Hi, file: File) returns (own': Own)
    requires Inv(m, own, dirs) && d in dirs && OthersKept(m0, own0, m, own, d) && !UpdateDirectory(m, d, file).exhausted
    ensures Inv(UpdateDirectory(m, d, file), own', dirs) && OthersKept(m0, own0, UpdateDirectory(m, d, file), own', d)
  {
    hide MapFresh, LoadPage, ZeroedPage;
    var n := USER_PAGE + CodePages(file);
    var m1 := LoadCode(m, d, file, 0);
    var m2 := ZeroedRange(m1, d, n, n + BSS_PAGES);
    AllocMonotone(m2, d, STACK_PAGE);
    var own1 := LoadCodeKeeps(m0, own0, m, own, dirs, d, file, 0);
    assert Zeroing(m1, own1, m1, own1, dirs, d, n, n);
    var own2 := ZeroedRangeZeroes(m1, own1, m1, own1, dirs, d, n, n, n + BSS_PAGES);
    OthersKeptTrans(m0, own0, m1, own1, m2, own2, d);
    own' := MapFreshMaps(m2, own2, dirs, d, STACK_PAGE);
    OthersKeptTrans(m0, own0, m2, own2, MapFresh(m2, d, STACK_PAGE), own', d);
  }

  lemma AllocMonotone(m: Mem, d: Hi, v: Hi)
    ensures m.exhausted ==> MapFresh(m, d, v).exhausted
  {
  }

  lemma ForkKeeps(m: Mem, own: Own, dirs: set<Hi>, d: Hi) returns (own': Own)
    requires Inv(m, own, dirs) && d in dirs && !Fork(m, d).m.exhausted
    ensures var g := Fork(m, d);
      && g.f !in dirs && g.f !in m.used
      && Inv(g.m, own', dirs + {g.f}) && OthersKept(m, own, g.m, own', g.f)
  {
    own' := ForkCopies(m, own, dirs, d);
    hide Fork;
  }

  lemma {:induction false} IdentityRangeKeeps(m0: Mem, own0: Own, m: Mem, own: Own, dirs: set<Hi>, d: Hi,
                                              v: nat, end: nat)
    returns (own': Own)
    requires v <= end <= 0x100000 && (end <= KERNEL_PAGES || v >= NUM_FRAMES)
    requires Inv(m, own, dirs) && d in dirs && OthersKept(m0, own0, m, own, d)
    requires !IdentityRange(m, d, v, end).exhausted
    ensures Inv(IdentityRange(m, d, v, end), own', dirs) && OthersKept(m0, own0, IdentityRange(m, d, v, end), own', d)
    decreases end - v
  {
    hide MapPage;
    own' := own;
    if v < end {
      own' := MapPageMaps(m, own, dirs, d, v, v, KERNEL_FLAGS);
      var m1 := MapPage(m, d, v, v, KERNEL_FLAGS);
      OthersKeptTrans(m0, own0, m, own, m1, own', d);
      own' := IdentityRangeKeeps(m0, own0, m1, own', dirs, d, v + 1, end);
    }
  }

  lemma CreateDirectoryKeeps(m: Mem, own: Own, dirs: set<Hi>) returns (own': Own)
    requires Inv(m, own, dirs) && !CreateDirectory(m).m.exhausted
    ensures var g := CreateDirectory(m);
      && g.f !in dirs && g.f !in m.used
      && Inv(g.m, own', dirs + {g.f}) && OthersKept(m, own, g.m, own', g.f)
  {
    var d := Alloc(m).f;
    var own1 := AllocKeeps(m, own, dirs, Dir(d));
    forall d' | d' in dirs
      ensures d' in own
    {
      assert DirOk(m, own, d');
    }
    var m1 := PutPage(Alloc(m).m, d, ZeroPage());
    PutPageKeeps(Alloc(m).m, own1, dirs, d, ZeroPage());
    assert DirOk(m1, own1, d) by {
      assert forall i: Idx :: Get(m1, d, i) == ZERO_WORD;
    }
    own' := MapPageMaps(m1, own1, dirs + {d}, d, d, d, KERNEL_FLAGS);
  }

  /** The two user frames of a new process: mapped after both are allocated. */
  lemma MapUserFrames(m: Mem, own: Own, dirs: set<Hi>, d: Hi, code: Page) returns (own': Own)
    requires Inv(m, own, dirs) && d in dirs
    requires var a, s := Alloc(m), Alloc(Alloc(m).m);
      var m1 := MapPage(PutPage(s.m, a.f, code), d, USER_PAGE, a.f, USER_FLAGS);
      !MapPage(m1, d, STACK_PAGE, s.f, USER_FLAGS).exhausted
    ensures var a, s := Alloc(m), Alloc(Alloc(m).m);
      var m1 := MapPage(PutPage(s.m, a.f, code), d, USER_PAGE, a.f, USER_FLAGS);
      var m' := MapPage(m1, d, STACK_PAGE, s.f, USER_FLAGS);
      Inv(m', own', dirs) && OthersKept(m, own, m', own', d)
  {
    hide MapPage;
    var a, s := Alloc(m), Alloc(Alloc(m).m);
    var own1 := AllocKeeps(m, own, dirs, Leaf(d, USER_PAGE / 1024, USER_PAGE % 1024));
    var own2 := AllocKeeps(a.m, own1, dirs, Leaf(d, STACK_PAGE / 1024, STACK_PAGE % 1024));
    PutPageKeeps(s.m, own2, dirs, a.f, code);
    own' := MapBoth(m, own, PutPage(s.m, a.f, code), own2, dirs, d, a.f, s.f);
  }

  lemma MapBoth(m0: Mem, own0: Own, m: Mem, own: Own, dirs: set<Hi>, d: Hi, f: Hi, g: Hi) returns (own': Own)
    requires Inv(m, own, dirs) && d in dirs && OthersKept(m0, own0, m, own, d)
    requires f in own && own[f] == Leaf(d, USER_PAGE / 1024, USER_PAGE % 1024)
    requires g in own && own[g] == Leaf(d, STACK_PAGE / 1024, STACK_PAGE % 1024)
    requires !MapPage(MapPage(m, d, USER_PAGE, f, USER_FLAGS), d, STACK_PAGE, g, USER_FLAGS).exhausted
    ensures var m' := MapPage(MapPage(m, d, USER_PAGE, f, USER_FLAGS), d, STACK_PAGE, g, USER_FLAGS);
      Inv(m', own', dirs) && OthersKept(m0, own0, m', own', d)
  {
    hide MapPage;
    var m1 := MapPage(m, d, USER_PAGE, f, USER_FLAGS);
    var own1 := MapPageMaps(m, own, dirs, d, USER_PAGE, f, USER_FLAGS);
    own' := MapPageMaps(m1, own1, dirs, d, STACK_PAGE, g, USER_FLAGS);
    OthersKeptTrans(m0, own0, m, own, m1, own1, d);
    OthersKeptTrans(m0, own0, m1, own1, MapPage(m1, d, STACK_PAGE, g, USER_FLAGS), own', d);
  }

  lemma CreateKernelKeeps(m: Mem, own: Own, dirs: set<Hi>, fb: Device, code: Page) returns (own': Own)
    requires Inv(m, own, dirs) && fb.Valid() && !CreateKernelDirectory(m, fb, code).m.exhausted
    ensures var g := CreateKernelDirectory(m, fb, code);
      && g.f !in dirs && g.f !in m.used
      && Inv(g.m, own', dirs + {g.f}) && OthersKept(m, own, g.m, own', g.f)
  {
    var g := CreateDirectory(m);
    var m1 := IdentityRange(g.m, g.f, 0, KERNEL_PAGES);
    var m2 := IdentityRange(m1, g.f, fb.start, fb.end);
    MapTwiceMonotone(m2, g.f, code);
    hide CreateDirectory, MapPage;
    var own0 := CreateDirectoryKeeps(m, own, dirs);
    var dirs1 := dirs + {g.f};
    var own1 := IdentityRangeKeeps(m, own, g.m, own0, dirs1, g.f, 0, KERNEL_PAGES);
    var own2 := IdentityRangeKeeps(m, own, m1, own1, dirs1, g.f, fb.start, fb.end);
    own' := MapUserFrames(m2, own2, dirs1, g.f, code);
    OthersKeptTrans(m, own, m2, own2, CreateKernelDirectory(m, fb, code).m, own', g.f);
  }

  lemma MapTwiceMonotone(m: Mem, d: Hi, code: Page)
    ensures var a, s := Alloc(m), Alloc(Alloc(m).m);
      var m1 := MapPage(PutPage(s.m, a.f, code), d, USER_PAGE, a.f, USER_FLAGS);
      m.exhausted ==> MapPage(m1, d, STACK_PAGE, s.f, USER_FLAGS).exhausted
  {
  }

  // ----- each event, and runs -----

  /** An event touches the frames of one directory: of the process `pid`, or of the one it creates. */
  ghost predicate ActsFor(s: System, own: Own, s': System, own': Own, pid: nat) {
    && (forall p :: p in s'.procs && p != pid ==> p in s.procs && s'.procs[p] == s.procs[p])
    && (pid in s.procs && pid in s'.procs ==> s'.procs[pid].pd == s.procs[pid].pd)
    && (if pid in s.procs then OthersKept(s.mem, own, s'.mem, own', s.procs[pid].pd)
        else if pid in s'.procs then
          s'.procs[pid].pd !in own && OthersKept(s.mem, own, s'.mem, own', s'.procs[pid].pd)
        else s' == s && own' == own)
  }

  /** A process with a new directory joins. */
  lemma ProcessAdded(s: System, own: Own, g: Grant, own': Own, pid: nat)
    requires SysInv(s, own) && pid !in s.procs && g.f !in s.Dirs() && g.f !in s.mem.used
    requires Inv(g.m, own', s.Dirs() + {g.f}) && OthersKept(s.mem, own, g.m, own', g.f)
    ensures SysInv(System(g.m, s.procs[pid := Proc(g.f, 0)]), own')
    ensures OthersUnaffected(s, System(g.m, s.procs[pid := Proc(g.f, 0)]), pid)
    ensures ActsFor(s, own, System(g.m, s.procs[pid := Proc(g.f, 0)]), own', pid)
  {
    var s' := System(g.m, s.procs[pid := Proc(g.f, 0)]);
    forall d
      ensures d in s'.Dirs() <==> d in s.Dirs() + {g.f}
    {
      if d in s.Dirs() {
        var p :| p in s.procs && s.procs[p].pd == d;
        assert s'.procs[p].pd == d;
      }
      assert s'.procs[pid].pd == g.f;
    }
    assert s'.Dirs() == s.Dirs() + {g.f};
    OthersKeptUnaffected(s, own, s', own', g.f, pid);
  }

  lemma CreateStep(s: System, own: Own, pid: nat, fb: Device, code: Page) returns (own': Own)
    requires SysInv(s, own) && !Create(s, pid, fb, code).mem.exhausted
    ensures SysInv(Create(s, pid, fb, code), own')
    ensures OthersUnaffected(s, Create(s, pid, fb, code), pid) && ActsFor(s, own, Create(s, pid, fb, code), own', pid)
  {
    hide CreateKernelDirectory;
    own' := own;
    if pid !in s.procs && fb.Valid() {
      own' := CreateKernelKeeps(s.mem, own, s.Dirs(), fb, code);
      ProcessAdded(s, own, CreateKernelDirectory(s.mem, fb, code), own', pid);
    }
  }

  lemma ForkStep(s: System, own: Own, pid: nat, child: nat) returns (own': Own)
    requires SysInv(s, own) && !ForkProcess(s, pid, child).mem.exhausted
    ensures SysInv(ForkProcess(s, pid, child), own')
    ensures OthersUnaffected(s, ForkProcess(s, pid, child), child)
    ensures ActsFor(s, own, ForkProcess(s, pid, child), own', child)
  {
    hide Fork;
    own' := own;
    if pid in s.procs && child !in s.procs {
      var d := s.procs[pid].pd;
      own' := ForkKeeps(s.mem, own, s.Dirs(), d);
      ProcessAdded(s, own, Fork(s.mem, d), own', child);
    }
  }

  lemma ExecStep(s: System, own: Own, pid: nat, file: File) returns (own': Own)
    requires SysInv(s, own) && !ExecProcess(s, pid, file).mem.exhausted
    ensures SysInv(ExecProcess(s, pid, file), own')
    ensures OthersUnaffected(s, ExecProcess(s, pid, file), pid) && ActsFor(s, own, ExecProcess(s, pid, file), own', pid)
  {
    hide Exec;
    own' := own;
    if pid in s.procs {
      var s' := ExecProcess(s, pid, file);
      own' := ExecKeeps(s.mem, own, s.Dirs(), s.procs[pid].pd, file);
      assert s'.Dirs() == s.Dirs();
      OthersKeptUnaffected(s, own, s', own', s.procs[pid].pd, pid);
    }
  }

  lemma SbrkStep(s: System, own: Own, pid: nat, offset: uint32) returns (own': Own)
    requires SysInv(s, own) && !SbrkProcess(s, pid, offset).mem.exhausted
    ensures SysInv(SbrkProcess(s, pid, offset), own')
    ensures OthersUnaffected(s, SbrkProcess(s, pid, offset), pid)
    ensures ActsFor(s, own, SbrkProcess(s, pid, offset), own', pid)
  {
    hide Sbrk;
    own' := own;
    if pid in s.procs {
      var s' := SbrkProcess(s, pid, offset);
      own' := SbrkMaps(s.mem, own, s.Dirs(), s.procs[pid].pd, s.procs[pid].brk, offset);
      assert forall p :: p in s'.procs <==> p in s.procs;
      assert forall p :: p in s.procs ==> s'.procs[p].pd == s.procs[p].pd;
      SameDirs(s, s');
      OthersKeptUnaffected(s, own, s', own', s.procs[pid].pd, pid);
    }
  }

  lemma SameDirs(s: System, s': System)
    requires forall p :: p in s'.procs <==> p in s.procs
    requires forall p :: p in s.procs ==> s'.procs[p].pd == s.procs[p].pd
    ensures s'.Dirs() == s.Dirs()
  {
    forall d
      ensures d in s'.Dirs() <==> d in s.Dirs()
    {
      if d in s.Dirs() {
        var p :| p in s.procs && s.procs[p].pd == d;
        assert s'.procs[p].pd == d;
      }
    }
  }

  lemma RemoveStep(s: System, own: Own, pid: nat) returns (own': Own)
    requires SysInv(s, own)
    ensures SysInv(Remove(s, pid), own') && Extends(own', own)
    ensures OthersUnaffected(s, Remove(s, pid), pid) && ActsFor(s, own, Remove(s, pid), own', pid)
  {
    hide ClearDirectory;
    own' := own;
    if pid in s.procs {
      var s' := Remove(s, pid);
      own' := ClearForExec(s.mem, own, s.Dirs(), s.procs[pid].pd);
      assert s'.Dirs() <= s.Dirs();
      OthersKeptUnaffected(s, own, s', own', s.procs[pid].pd, pid);
    }
  }

  lemma StoreStep(s: System, own: Own, pid: nat, v: Hi, j: Idx, w: Word)
    requires SysInv(s, own)
    ensures SysInv(Store(s, pid, v, j, w), own)
    ensures OthersUnaffected(s, Store(s, pid, v, j, w), pid) && ActsFor(s, own, Store(s, pid, v, j, w), own, pid)
  {
    var s' := Store(s, pid, v, j, w);
    if s' != s {
      var d := s.procs[pid].pd;
      if v < USER_PAGE {
        LowPageIsLeaked(s.mem, own, s.Dirs(), d, v);
      } else {
        UserPageIsLeaf(s.mem, own, s.Dirs(), d, v);
      }
      var f := Pte(s.mem, d, v).hi;
      PutPageKeeps(s.mem, own, s.Dirs(), f, s.mem.pages[f][j := w]);
      assert s'.Dirs() == s.Dirs();
      OthersKeptUnaffected(s, own, s', own, d, pid);
    }
  }

  /** Process `q` sees the same user pages, with the same contents. */
  ghost predicate SameView(m: Mem, m': Mem, pd: Hi) {
    forall v: Hi :: v >= 0x40000 ==>
      && (Mapped(m', pd, v) <==> Mapped(m, pd, v))
      && (Mapped(m, pd, v) ==> Pde(m', pd, v) == Pde(m, pd, v) && Pte(m', pd, v) == Pte(m, pd, v))
      && (Mapped(m, pd, v) && Pte(m, pd, v).User() ==> ReadVirtual(m', pd, v) == ReadVirtual(m, pd, v))
  }

  /** Every process but `actor` stays, with its directory and its view. */
  ghost predicate OthersUnaffected(s: System, s': System, actor: nat) {
    forall q :: q in s.procs && q != actor ==>
      q in s'.procs && s'.procs[q] == s.procs[q] && SameView(s.mem, s'.mem, s.procs[q].pd)
  }

  lemma OthersKeptUnaffected(s: System, own: Own, s': System, own': Own, d: Hi, actor: nat)
    requires SysInv(s, own) && OthersKept(s.mem, own, s'.mem, own', d)
    requires forall q :: q in s.procs && q != actor ==> q in s'.procs && s'.procs[q] == s.procs[q] && s.procs[q].pd != d
    ensures OthersUnaffected(s, s', actor)
  {
    forall q | q in s.procs && q != actor
      ensures SameView(s.mem, s'.mem, s.procs[q].pd)
    {
      KeptView(s.mem, own, s'.mem, own', s.Dirs(), d, s.procs[q].pd);
    }
  }

  lemma KeptView(m: Mem, own: Own, m': Mem, own': Own, dirs: set<Hi>, d: Hi, pd: Hi)
    requires Inv(m, own, dirs) && pd in dirs && pd != d && OthersKept(m, own, m', own', d)
    ensures SameView(m, m', pd)
  {
    assert DirOk(m, own, pd);
    forall v: Hi | v >= USER_PAGE
      ensures (Mapped(m', pd, v) <==> Mapped(m, pd, v))
      ensures Mapped(m, pd, v) ==> Pde(m', pd, v) == Pde(m, pd, v) && Pte(m', pd, v) == Pte(m, pd, v)
      ensures Mapped(m, pd, v) && Pte(m, pd, v).User() ==> ReadVirtual(m', pd, v) == ReadVirtual(m, pd, v)
    {
      var k: Idx := v / 1024;
      assert Get(m, pd, k).Present() ==> TableOk(m, own, pd, k, Get(m, pd, k).hi);
      if Mapped(m, pd, v) && Pte(m, pd, v).User() {
        UserPageIsLeaf(m, own, dirs, pd, v);
      }
    }
  }

  lemma StepKeeps(s: System, own: Own, e: Event) returns (own': Own)
    requires SysInv(s, own) && !Step(s, e).mem.exhausted
    ensures SysInv(Step(s, e), own')
    ensures OthersUnaffected(s, Step(s, e), Actor(e)) && ActsFor(s, own, Step(s, e), own', Actor(e))
  {
    hide Create, ForkProcess, ExecProcess, SbrkProcess, Remove, Store;
    match e
    case DoCreate(pid, fb, code) => own' := CreateStep(s, own, pid, fb, code);
    case DoFork(pid, child) => own' := ForkStep(s, own, pid, child);
    case DoExec(pid, file) => own' := ExecStep(s, own, pid, file);
    case DoSbrk(pid, offset) => own' := SbrkStep(s, own, pid, offset);
    case DoRemove(pid) => own' := RemoveStep(s, own, pid);
    case DoStore(pid, v, j, w) => own' := own; StoreStep(s, own, pid, v, j, w);
  }

  /** Once the allocator has run out it stays recorded. */
  lemma StepMonotone(s: System, e: Event)
    ensures s.mem.exhausted ==> Step(s, e).mem.exhausted
  {
    match e
    case DoCreate(pid, fb, code) => if fb.Valid() { CreateMonotone(s.mem, fb, code); }
    case DoFork(pid, child) =>
    case DoExec(pid, file) => if pid in s.procs { ExecMonotone(s.mem, s.procs[pid].pd, file); }
    case DoSbrk(pid, offset) =>
    case DoRemove(pid) => if pid in s.procs { ClearMonotone(s.mem, s.procs[pid].pd, 0); }
    case DoStore(pid, v, j, w) =>
  }

  lemma CreateMonotone(m: Mem, fb: Device, code: Page)
    requires fb.Valid()
    ensures m.exhausted ==> CreateKernelDirectory(m, fb, code).m.exhausted
  {
    var d := CreateDirectory(m);
    MapTwiceMonotone(IdentityRange(IdentityRange(d.m, d.f, 0, KERNEL_PAGES), d.f, fb.start, fb.end), d.f, code);
  }

  lemma {:induction false} FreeLeavesMonotone(m: Mem, t: Hi, j: nat)
    requires j <= 1024
    ensures FreeLeaves(m, t, j).exhausted == m.exhausted
    decreases 1024 - j
  {
    if j < 1024 {
      FreeLeavesMonotone(FreeLeaf(m, t, j), t, j + 1);
    }
  }

  lemma {:induction false} ClearMonotone(m: Mem, d: Hi, i: nat)
    requires i <= 1024
    ensures ClearDirectory(m, d, i).exhausted == m.exhausted
    decreases 1024 - i
  {
    if i < 1024 {
      FreeLeavesMonotone(m, Get(m, d, i).hi, 0);
      ClearMonotone(ClearEntry(m, d, i), d, i + 1);
    }
  }

  lemma ExecMonotone(m: Mem, d: Hi, file: File)
    ensures m.exhausted ==> Exec(m, d, file).exhausted
  {
    ClearMonotone(m, d, 0);
    var n := USER_PAGE + CodePages(file);
    var m2 := ZeroedRange(LoadCode(ClearDirectory(m, d, 0), d, file, 0), d, n, n + BSS_PAGES);
    AllocMonotone(m2, d, STACK_PAGE);
    hide MapFresh;
  }

  lemma {:induction false} RunMonotone(s: System, es: seq<Event>)
    ensures s.mem.exhausted ==> Run(s, es).mem.exhausted
    decreases |es|
  {
    if es != [] {
      StepMonotone(s, es[0]);
      RunMonotone(Step(s, es[0]), es[1..]);
    }
  }

  lemma {:induction false} RunKeeps(s: System, own: Own, es: seq<Event>) returns (own': Own)
    requires SysInv(s, own) && !Run(s, es).mem.exhausted
    ensures SysInv(Run(s, es), own')
    decreases |es|
  {
    hide Step;
    own' := own;
    if es != [] {
      RunMonotone(Step(s, es[0]), es[1..]);
      own' := StepKeeps(s, own, es[0]);
      own' := RunKeeps(Step(s, es[0]), own', es[1..]);
    }
  }

  lemma BootKeeps(pages: Ram) returns (own: Own)
    ensures SysInv(Boot(pages), own)
    ensures forall f: nat :: f < BOOT_FRAMES ==> f in own && own[f] == if f == 0 then Kernel else Reserved
  {
    hide Range;
    RangeIs(0, BOOT_FRAMES);
    own := map f | f in Range(0, BOOT_FRAMES) :: if f == 0 then Kernel else Reserved;
  }

  /** Isolation over every run: as long as the allocator has not run out, each frame reached
      through a user-flagged entry at or above 0x40000000 is reached from exactly one page of
      exactly one process, and is marked used. */
  lemma RunsAreIsolated(pages: Ram, es: seq<Event>)
    requires !Run(Boot(pages), es).mem.exhausted
    ensures Isolated(Run(Boot(pages), es))
  {
    var own := BootKeeps(pages);
    own := RunKeeps(Boot(pages), own, es);
    OwnershipIsolates(Run(Boot(pages), es), own);
  }

  /** No event of one process changes what another sees: after any run, one more event leaves
      every other process's user pages and their contents alone. */
  lemma EventsAreLocal(pages: Ram, es: seq<Event>, e: Event)
    requires !Step(Run(Boot(pages), es), e).mem.exhausted
    ensures OthersUnaffected(Run(Boot(pages), es), Step(Run(Boot(pages), es), e), Actor(e))
  {
    StepMonotone(Run(Boot(pages), es), e);
    hide Step;
    var own := BootKeeps(pages);
    own := RunKeeps(Boot(pages), own, es);
    own := StepKeeps(Run(Boot(pages), es), own, e);
  }

  /** A ring-3 store to a page that is open to its process puts the word there, where it is read back, and
      changes nothing else of this page or any other user page; a store elsewhere changes nothing. */
  lemma StoreIsRead(s: System, own: Own, pid: nat, v: Hi, j: Idx, w: Word, u: Hi)
    requires SysInv(s, own) && pid in s.procs && u >= 0x40000 && u != v
    ensures var s', d := Step(s, DoStore(pid, v, j, w)), s.procs[pid].pd;
      && s'.procs == s.procs && s'.mem.used == s.mem.used
      && (!UserMapped(s.mem, d, v) ==> s' == s)
      && (UserMapped(s.mem, d, v) ==>
            UserMapped(s'.mem, d, v) && ReadVirtual(s'.mem, d, v) == ReadVirtual(s.mem, d, v)[j := w])
      && (UserMapped(s.mem, d, u) ==>
            UserMapped(s'.mem, d, u) && ReadVirtual(s'.mem, d, u) == ReadVirtual(s.mem, d, u))
  {
    var d := s.procs[pid].pd;
    if UserMapped(s.mem, d, v) {
      StoreFrame(s.mem, own, s.Dirs(), d, v);
      var f := Pte(s.mem, d, v).hi;
      WalkKept(s.mem, own, s.Dirs(), d, v, f, s.mem.pages[f][j := w]);
      if UserMapped(s.mem, d, u) {
        WalkKept(s.mem, own, s.Dirs(), d, u, f, s.mem.pages[f][j := w]);
        UserPageIsLeaf(s.mem, own, s.Dirs(), d, u);
      }
    }
  }

  /** The frame behind a page that is open to ring 3. */
  lemma StoreFrame(m: Mem, own: Own, dirs: set<Hi>, d: Hi, v: Hi)
    requires Inv(m, own, dirs) && d in dirs && UserMapped(m, d, v)
    ensures Pte(m, d, v).hi in own
    ensures own[Pte(m, d, v).hi] == if v < USER_PAGE then Kernel else Leaf(d, v / 1024, v % 1024)
  {
    if v < USER_PAGE {
      LowPageIsLeaked(m, own, dirs, d, v);
    } else {
      UserPageIsLeaf(m, own, dirs, d, v);
    }
  }

  /** Every state of a run meets what the fork, exec and teardown theorems ask for. */
  lemma RunsAreWellOwned(pages: Ram, es: seq<Event>)
    requires !Run(Boot(pages), es).mem.exhausted
    ensures WellOwned(Run(Boot(pages), es).mem, Run(Boot(pages), es).Dirs())
  {
    var own := BootKeeps(pages);
    own := RunKeeps(Boot(pages), own, es);
  }
}
