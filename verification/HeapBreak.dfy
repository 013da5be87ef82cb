/** The break of a process over the events of the machine, and what fork and exec do to the heap
    that the break stands for. */
module HeapBreak {
  import opened Integers
  import opened PageTables
  import opened Ownership
  import opened ForkCopy
  import opened AddressSpace
  import opened ExecImage
  import opened Isolation

  /** The bytes that process `p` asks sbrk for over `es`. */
  function Asked(es: seq<Event>, p: nat): nat {
    if es == [] then 0
    else (if es[0].DoSbrk? && es[0].pid == p then es[0].offset else 0) + Asked(es[1..], p)
  }

  /** The address that sbrk(0) answers. */
  function Top(s: System, p: nat): nat
    requires p in s.procs
  {
    if s.procs[p].brk == 0 then 0x48000000 else s.procs[p].brk
  }

  /** Over one event a listed process keeps its directory, and its break unless it calls sbrk; a
      new one begins with the break at 0, whatever its parent's is. */
  lemma BreakMoves(s: System, e: Event, p: nat)
    ensures p in Step(s, e).procs <==>
      || (p in s.procs && e != DoRemove(p))
      || (e.DoCreate? && e.pid == p && e.fb.Valid())
      || (e.DoFork? && e.child == p && e.pid in s.procs)
    ensures p in s.procs && p in Step(s, e).procs ==> Step(s, e).procs[p].pd == s.procs[p].pd
    ensures p in s.procs && p in Step(s, e).procs && !(e.DoSbrk? && e.pid == p) ==>
      Step(s, e).procs[p].brk == s.procs[p].brk
    ensures p in s.procs && e.DoSbrk? && e.pid == p && Top(s, p) + e.offset <= 0xFFFFF000 ==>
      Step(s, e).procs[p].brk == Top(s, p) + e.offset
    ensures p !in s.procs && p in Step(s, e).procs ==> Step(s, e).procs[p].brk == 0
  {
    hide Exec, ZeroedRange, Fork, CreateKernelDirectory, ClearDirectory, UserMapped, Put;
  }

  /** The break adds up over every run that keeps the process and stays below the last page. */
  lemma {:induction false} BreakAddsUp(s: System, es: seq<Event>, p: nat)
    requires p in s.procs && Top(s, p) + Asked(es, p) <= 0xFFFFF000
    requires forall i :: 0 <= i < |es| ==> es[i] != DoRemove(p)
    ensures p in Run(s, es).procs && Top(Run(s, es), p) == Top(s, p) + Asked(es, p)
    decreases |es|
  {
    hide Step;
    if es != [] {
      BreakMoves(s, es[0], p);
      BreakAddsUp(Step(s, es[0]), es[1..], p);
    }
  }

  lemma StepsOwned(s: System, own: Own, e: Event, e': Event)
    requires SysInv(s, own) && !Step(Step(s, e), e').mem.exhausted
    ensures !Step(s, e).mem.exhausted && !s.mem.exhausted
    ensures WellOwned(s.mem, s.Dirs()) && WellOwned(Step(s, e).mem, Step(s, e).Dirs())
  {
    StepMonotone(Step(s, e), e');
    StepMonotone(s, e);
    hide Step;
    var own' := StepKeeps(s, own, e);
  }

  /** What page `w` of `d` holds in `m` it holds in directory `c` of `m'`. */
  predicate Inherits(m: Mem, d: Hi, m': Mem, c: Hi, w: Hi) {
    Mapped(m, d, w) ==> Mapped(m', c, w) && ReadVirtual(m', c, w) == ReadVirtual(m, d, w)
  }

  /** Page `w` of `d` is zero in `m'` and on a frame that was free in `m`. */
  predicate Renewed(m: Mem, m': Mem, d: Hi, w: Hi) {
    Mapped(m', d, w) && ReadVirtual(m', d, w) == ZeroPage() && Pte(m', d, w).hi !in m.used
  }

  lemma HeapReplaced(m: Mem, dirs: set<Hi>, d: Hi, m1: Mem, dirs1: set<Hi>, c: Hi, offset: uint32, m2: Mem, w: Hi)
    requires WellOwned(m, dirs) && d in dirs && m1 == Fork(m, d).m && c == Fork(m, d).f && !m1.exhausted
    requires WellOwned(m1, dirs1) && c in dirs1
    requires SbrkLoopEnds(0, offset) && m2 == Sbrk(m1, c, 0, offset).m && !m2.exhausted
    requires 0x48000000 <= w * 4096 < 0x48000000 + offset <= 0xFFFFF000
    ensures Inherits(m, d, m1, c, w) && Renewed(m1, m2, c, w)
  {
    hide WellOwned, Fork, Sbrk, Pde, Pte;
    ForkIsDeepCopy(m, dirs, d, w);
    SbrkExtendsHeap(m1, dirs1, c, 0, offset, w);
  }

  lemma ForkThenSbrk(s: System, pid: nat, child: nat, offset: uint32)
    requires pid in s.procs && child !in s.procs && SbrkLoopEnds(0, offset)
    ensures var g, s1 := Fork(s.mem, s.procs[pid].pd), Step(s, DoFork(pid, child));
      && s1 == System(g.m, s.procs[child := Proc(g.f, 0)])
      && Step(s1, DoSbrk(child, offset)).mem == Sbrk(g.m, g.f, 0, offset).m
  {
  }

  /** A child of a fork sees the parent's heap but not the parent's break. Its first sbrk hands out
      the heap from 0x48000000 again: every page of it that the child has inherited is replaced by
      a zeroed one on a new frame. */
  lemma ForkedHeapIsLost(s: System, own: Own, pid: nat, child: nat, offset: uint32, w: Hi)
    requires SysInv(s, own) && pid in s.procs && child !in s.procs
    requires !Step(Step(s, DoFork(pid, child)), DoSbrk(child, offset)).mem.exhausted
    requires 0x48000000 <= w * 4096 < 0x48000000 + offset <= 0xFFFFF000
    ensures var s1 := Step(s, DoFork(pid, child));
      && child in s1.procs && s1.procs[child].pd !in s.Dirs()
      && Inherits(s.mem, s.procs[pid].pd, s1.mem, s1.procs[child].pd, w)
      && Renewed(s1.mem, Step(s1, DoSbrk(child, offset)).mem, s1.procs[child].pd, w)
  {
    StepsOwned(s, own, DoFork(pid, child), DoSbrk(child, offset));
    var s1 := Step(s, DoFork(pid, child));
    ForkThenSbrk(s, pid, child, offset);
    assert s1.procs[child].pd in s1.Dirs() && s.procs[pid].pd in s.Dirs();
    ForkIsDeepCopy(s.mem, s.Dirs(), s.procs[pid].pd, w);
    hide *;
    var m2 := Step(s1, DoSbrk(child, offset)).mem;
    HeapReplaced(s.mem, s.Dirs(), s.procs[pid].pd, s1.mem, s1.Dirs(), s1.procs[child].pd, offset, m2, w);
  }

  /** sbrk after exec leaves the page of an unaligned break closed, if the image does. */
  lemma PageOfTheBreak(m: Mem, dirs: set<Hi>, d: Hi, file: File, m1: Mem, brk: uint32, offset: uint32, m2: Mem)
    requires WellOwned(m, dirs) && m1 == Exec(m, d, file) && WellOwned(m1, dirs) && d in dirs && !m1.exhausted
    requires 0x40000000 <= brk && SbrkLoopEnds(brk, offset) && m2 == Sbrk(m1, d, brk, offset).m && !m2.exhausted
    requires UserMapped(m2, d, brk / 4096)
    ensures brk % 4096 == 0 || brk > 0xFFFFF000 || InImage(file, brk / 4096)
  {
    hide WellOwned, Exec, Sbrk, Pde, Pte;
    ExecPage(m, dirs, d, file, brk / 4096);
    SbrkExtendsHeap(m1, dirs, d, brk, offset, brk / 4096);
  }

  lemma ExecThenSbrk(s: System, pid: nat, file: File, offset: uint32)
    requires pid in s.procs && SbrkLoopEnds(s.procs[pid].brk, offset)
    ensures var s1, p := Step(s, DoExec(pid, file)), s.procs[pid];
      && s1 == System(Exec(s.mem, p.pd, file), s.procs)
      && Step(s1, DoSbrk(pid, offset)).mem == Sbrk(s1.mem, p.pd, p.brk, offset).m
  {
  }

  /** exec drops the heap but keeps the break, and what sbrk maps afterwards begins at the next
      page boundary: unless the break is at one, or in the image, ring 3 cannot reach the first
      byte that sbrk hands out. */
  lemma BreakOutlivesExec(s: System, own: Own, pid: nat, file: File, offset: uint32)
    requires SysInv(s, own) && pid in s.procs && s.procs[pid].brk >= 0x40000000
    requires s.procs[pid].brk + offset <= 0xFFFFF000
    requires !Step(Step(s, DoExec(pid, file)), DoSbrk(pid, offset)).mem.exhausted
    ensures var s2, brk := Step(Step(s, DoExec(pid, file)), DoSbrk(pid, offset)), s.procs[pid].brk;
      && pid in s2.procs && s2.procs[pid] == Proc(s.procs[pid].pd, brk + offset)
      && (UserMapped(s2.mem, s.procs[pid].pd, brk / 4096) ==> brk % 4096 == 0 || InImage(file, brk / 4096))
  {
    StepsOwned(s, own, DoExec(pid, file), DoSbrk(pid, offset));
    var d, brk := s.procs[pid].pd, s.procs[pid].brk;
    var s1 := Step(s, DoExec(pid, file));
    ExecThenSbrk(s, pid, file, offset);
    BreakMoves(s, DoExec(pid, file), pid);
    BreakMoves(s1, DoSbrk(pid, offset), pid);
    hide *;
    assert s1.Dirs() == s.Dirs() && d in s.Dirs();
    var m2 := Step(s1, DoSbrk(pid, offset)).mem;
    if UserMapped(m2, d, brk / 4096) {
      PageOfTheBreak(s.mem, s.Dirs(), d, file, s1.mem, brk, offset, m2);
    }
  }
}
