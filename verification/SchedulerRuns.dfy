/** Every event keeps the process table and the processor's state; hence every run does. */
module SchedulerRuns {
  import opened Scheduling
  import opened ProcessTable

  /** Changing one process keeps the table unless it makes idle wait. */
  lemma ChangeOneCore(s: Sched, s': Sched, i: nat)
    requires Core(s) && i < |s.queue| && |s'.queue| == |s.queue| && s'.queue == s.queue[i := s'.queue[i]]
    requires SameShape(s.queue, s'.queue)
    requires s'.size == s.size && s'.nextPid == s.nextPid && s'.current == s.current
    requires s.queue[i].pid == IDLE ==> s'.queue[i].status != Waiting
    ensures Core(s')
  {
    hide Find;
    SamePidsFind(s.queue, s'.queue, s.current);
    SameShapeCore(s, s');
  }

  // ----- the pieces of update_scheduler -----

  lemma AgeKeeps(s: Sched)
    requires Core(s)
    ensures Core(Age(s)) && SameShape(s.queue, Age(s).queue)
    ensures Find(Age(s).queue, s.current) == Find(s.queue, s.current)
    ensures CurrentStatus(Age(s)) == CurrentStatus(s) || (CurrentStatus(s) == Waiting && CurrentStatus(Age(s)) == Ready)
  {
    hide Find, DecrementAll;
    SamePidsFind(s.queue, Age(s).queue, s.current);
    SameShapeCore(s, Age(s));
  }

  lemma GiveUpKeeps(s: Sched)
    requires Core(s)
    ensures Core(GiveUp(s)) && SameShape(s.queue, GiveUp(s).queue) && GiveUp(s).current == s.current
  {
    hide Find, FindWaiter, Forest, PidsBelow, DecrementAll;
    AgeKeeps(s);
    var a := Age(s);
    if CurrentStatus(a) == Zombie {
      var w := FindWaiter(a.queue, a.current);
      if w < |a.queue| {
        ChangeOneCore(a, GiveUp(s), w);
      }
    } else {
      ChangeOneCore(a, GiveUp(s), Find(a.queue, a.current));
    }
  }

  lemma ResumeKeeps(s: Sched)
    requires Core(s)
    ensures Core(Resume(s)) && HardwareIsCurrent(Resume(s)) && Resume(s).quantum == 0
    ensures Resume(s).current == s.current && SameShape(s.queue, Resume(s).queue)
  {
    hide Find, Forest, PidsBelow;
    ChangeOneCore(s, Resume(s), Find(s.queue, s.current));
    SamePidsFind(s.queue, Resume(s).queue, s.current);
  }

  /** A current process that is a zombie, any but the two permanent ones, is not the one selected,
      and is unlinked before the switch completes. */
  lemma ExitingIsUnlinked(s: Sched)
    requires Core(s) && CurrentStatus(Age(s)) == Zombie && !Protected(s.current)
    ensures Next(GiveUp(s)).current != s.current && CurrentStatus(Next(GiveUp(s))) != Waiting
    ensures Core(Remove(Next(GiveUp(s)), s.current))
    ensures !Listed(Switch(s).queue, s.current) && Listed(Switch(s).queue, Switch(s).current)
  {
    hide Find, Forest, PidsBelow, Resume, Remove;
    GiveUpKeeps(s);
    var n := Next(GiveUp(s));
    NextKeeps(GiveUp(s));
    RemoveKeeps(n, s.current);
    RemoveKeepsOthers(n, s.current, s.current);
    ResumeKeeps(Remove(n, s.current));
    SamePidsFind(Remove(n, s.current).queue, Switch(s).queue, s.current);
  }

  lemma SwitchKeeps(s: Sched)
    requires Core(s)
    ensures Core(Switch(s)) && HardwareIsCurrent(Switch(s)) && Switch(s).quantum == 0
  {
    hide Find, Forest, PidsBelow, Resume, GiveUp, Next;
    GiveUpKeeps(s);
    var n := Next(GiveUp(s));
    NextKeeps(GiveUp(s));
    if CurrentStatus(Age(s)) == Zombie && !Protected(s.current) {
      ExitingIsUnlinked(s);
      ResumeKeeps(Remove(n, s.current));
    } else {
      ResumeKeeps(n);
    }
  }

  lemma UpdateKeeps(s: Sched)
    requires Core(s) && HardwareIsCurrent(s) && s.quantum < QUANTUM
    ensures Inv(Update(s))
  {
    AgeKeeps(s);
    if Stays(s) {
      SameShapeHardware(s, Age(s));
    } else {
      SwitchKeeps(s);
    }
  }

  // ----- the events -----

  /** What the handlers may do to the current process before they call update_scheduler. */
  lemma ChangeCurrentKeeps(s: Sched, s': Sched, p: Pcb)
    requires Inv(s) && s'.queue == s.queue[Find(s.queue, s.current) := p]
    requires SameShape(s.queue, s'.queue)
    requires s.current == IDLE ==> p.status != Waiting
    requires s'.size == s.size && s'.nextPid == s.nextPid && s'.current == s.current
    requires s'.tss == s.tss && s'.cr3 == s.cr3 && s'.quantum == s.quantum
    ensures Inv(s')
  {
    hide Find, Forest, PidsBelow;
    ChangeOneCore(s, s', Find(s.queue, s.current));
    SameShapeHardware(s, s');
  }

  lemma BlockKeeps(s: Sched)
    requires Inv(s) && s.current != IDLE
    ensures Inv(Block(s)) && Block(s).current == s.current
  {
    hide Find, Forest, PidsBelow;
    if CurrentStatus(s) != Zombie {
      var c := Find(s.queue, s.current);
      ChangeCurrentKeeps(s, Block(s), s.queue[c].(status := Waiting));
    }
  }

  lemma KillKeeps(s: Sched, pid: nat)
    requires Inv(s) && pid >= 1
    ensures Inv(Remove(s, pid))
  {
    hide Find, Forest, PidsBelow, Reparent, Unlink, Distinct;
    if pid == s.current && !Protected(pid) {
      var c := Find(s.queue, pid);
      ChangeCurrentKeeps(s, Remove(s, pid), s.queue[c].(status := Zombie));
    } else if !Protected(pid) && Listed(s.queue, pid) {
      RemoveKeeps(s, pid);
      RemoveKeepsOthers(s, pid, s.current);
    } else if !Protected(pid) {
      RemoveAbsent(s, pid);
    }
  }

  /** Only the entry of the current process differs, and not in its pid. */
  ghost predicate OnlyCurrentChanged(s: Sched, s': Sched) {
    var c := Find(s.queue, s.current);
    && s'.current == s.current && s'.quantum == s.quantum && s'.size == s.size
    && |s'.queue| == |s.queue| && SamePids(s.queue, s'.queue)
    && forall i :: 0 <= i < |s.queue| && i != c ==> s'.queue[i] == s.queue[i]
  }

  /** ... nor does it touch any registers, revive a zombie, or turn idle or init into one. */
  ghost predicate KeepsRegsAndZombies(s: Sched, s': Sched)
    requires |s'.queue| == |s.queue|
  {
    && s'.cpu == s.cpu
    && forall i :: 0 <= i < |s.queue| ==>
      && s'.queue[i].regs == s.queue[i].regs
      && (s.queue[i].status == Zombie ==> s'.queue[i].status == Zombie)
      && (s'.queue[i].status == Zombie ==> s.queue[i].status == Zombie || !Protected(s.queue[i].pid))
  }

  /** A handler that writes the current control block and then blocks the process. */
  lemma BlockChangesCurrentOnly(s: Sched, s0: Sched, p: Pcb)
    requires Inv(s) && s.current != IDLE && s0.queue == s.queue[Find(s.queue, s.current) := p]
    requires SameShape(s.queue, s0.queue) && p.status == s.queue[Find(s.queue, s.current)].status
    requires p.regs == s.queue[Find(s.queue, s.current)].regs
    requires s0 == s.(queue := s0.queue, foreground := s0.foreground)
    ensures Inv(Block(s0)) && OnlyCurrentChanged(s, Block(s0)) && KeepsRegsAndZombies(s, Block(s0))
  {
    hide Find, Forest, PidsBelow;
    ChangeCurrentKeeps(s, s0, p);
    SamePidsFind(s.queue, s0.queue, s.current);
    BlockKeeps(s0);
  }

  /** A handler that calls update_scheduler changes the current process alone before the call. */
  lemma HandlersChangeCurrentOnly(s: Sched, e: Event)
    requires Inv(s) && Allowed(s, e) && CallsUpdate(e)
    ensures var s1 := BeforeUpdate(s, e);
      && Inv(s1) && OnlyCurrentChanged(s, s1) && KeepsRegsAndZombies(s, s1) && Step(s, e) == Update(s1)
  {
    hide Find, Update, Inv, OnlyCurrentChanged, KeepsRegsAndZombies, Remove, StartWait, StartSleep, StartRead;
    StepIsUpdate(s, e);
    match e
    case Tick => NothingChanged(s);
    case ExitCall => ExitChangesCurrentOnly(s);
    case WaitCall(pid) => WaitChangesCurrentOnly(s, pid);
    case SleepCall(ticks) => SleepChangesCurrentOnly(s, ticks);
    case ReadCall => ReadChangesCurrentOnly(s);
  }

  lemma StepIsUpdate(s: Sched, e: Event)
    requires Inv(s) && Allowed(s, e) && CallsUpdate(e)
    ensures Step(s, e) == Update(BeforeUpdate(s, e))
  {
    hide Find, Update, Forest, PidsBelow, Block, Remove;
  }

  lemma NothingChanged(s: Sched)
    ensures OnlyCurrentChanged(s, s) && KeepsRegsAndZombies(s, s)
  {
    hide Find;
  }

  lemma WaitChangesCurrentOnly(s: Sched, pid: nat)
    requires Inv(s) && s.current != IDLE
    ensures var s1 := StartWait(s, pid);
      Inv(s1) && OnlyCurrentChanged(s, s1) && KeepsRegsAndZombies(s, s1)
  {
    hide Find, Forest, PidsBelow, Block;
    var c := Find(s.queue, s.current);
    var s0 := s.(foreground := pid, queue := s.queue[c := s.queue[c].(waitingPid := pid)]);
    BlockChangesCurrentOnly(s, s0, s.queue[c].(waitingPid := pid));
  }

  lemma SleepChangesCurrentOnly(s: Sched, ticks: nat)
    requires Inv(s) && s.current != IDLE
    ensures var s1 := StartSleep(s, ticks);
      Inv(s1) && OnlyCurrentChanged(s, s1) && KeepsRegsAndZombies(s, s1)
  {
    hide Find, Forest, PidsBelow, Block;
    var c := Find(s.queue, s.current);
    var s0 := s.(queue := s.queue[c := s.queue[c].(sleepTicks := ticks)]);
    BlockChangesCurrentOnly(s, s0, s.queue[c].(sleepTicks := ticks));
  }

  lemma ReadChangesCurrentOnly(s: Sched)
    requires Inv(s) && s.current != IDLE
    ensures var s1 := StartRead(s);
      Inv(s1) && OnlyCurrentChanged(s, s1) && KeepsRegsAndZombies(s, s1)
  {
    hide Find, Forest, PidsBelow, Block;
    BlockChangesCurrentOnly(s, s, s.queue[Find(s.queue, s.current)]);
    BlockKeeps(s);
  }

  lemma ExitChangesCurrentOnly(s: Sched)
    requires Inv(s)
    ensures var s1 := Remove(s, s.current);
      Inv(s1) && OnlyCurrentChanged(s, s1) && KeepsRegsAndZombies(s, s1)
  {
    hide Find;
    assert s.queue[Find(s.queue, s.current)].pid >= 1;
    KillKeeps(s, s.current);
  }

  /** Whether or not the heap has room for its control block, a new process takes nobody's place. */
  lemma AddFind(s: Sched, block: nat, p: Pcb, pid: nat)
    requires Listed(s.queue, pid)
    ensures Find(AddProcess(s, block, p).queue, pid) == Find(s.queue, pid)
  {
    AppendFind(s.queue, p, pid);
  }

  /** A new process is appended with a fresh pid; its parent is a listed process, or 0. */
  lemma AddKeeps(s: Sched, block: nat, p: Pcb)
    requires Inv(s) && (p.parent == 0 || p.parent == s.current) && p.pid == s.nextPid
    ensures Inv(AddProcess(s, block, p))
    ensures block != 0 ==> AddProcess(s, block, p).queue == s.queue + [p] && !Listed(s.queue, p.pid)
  {
    hide Find;
    AddFind(s, block, p, s.current);
    AddFind(s, block, p, IDLE);
    AddFind(s, block, p, INIT);
    FreshIsNotListed(s, p.pid);
    if p.parent != 0 {
      assert s.queue[Find(s.queue, p.parent)].pid == p.parent;
    }
    AppendForest(s.queue, p);
    hide Forest;
  }

  lemma FreshIsNotListed(s: Sched, pid: nat)
    requires PidsBelow(s.queue, s.nextPid) && pid >= s.nextPid
    ensures !Listed(s.queue, pid)
  {
  }

  lemma ForkKeeps(s: Sched, block: nat, k: nat, d: nat)
    requires Inv(s)
    ensures Inv(ForkProcess(s, block, k, d))
  {
    hide AddProcess, Core;
    var p := NewProcess(s, s.current, s.cpu.(eax := 0), k, d);
    AddKeeps(s, block, p);
    SameButCpu(AddProcess(s, block, p), s.cpu.(eax := s.nextPid));
  }

  lemma SameButCpu(s: Sched, regs: Registers)
    requires Inv(s)
    ensures Inv(s.(cpu := regs))
  {
    hide Find, Forest;
  }

  lemma AppendForest(q: seq<Pcb>, p: Pcb)
    requires Forest(q) && (p.parent == 0 || (p.parent < p.pid && Listed(q, p.parent)))
    ensures Forest(q + [p])
  {
    hide Find;
    forall i | 0 <= i < |q + [p]|
      ensures ForestAt(q + [p], (q + [p])[i])
    {
      if i == |q| {
        if p.parent != 0 {
          AppendFind(q, p, p.parent);
        }
      } else {
        assert ForestAt(q, q[i]);
        if q[i].parent != 0 {
          AppendFind(q, p, q[i].parent);
        }
      }
    }
  }

  lemma AppendFind(q: seq<Pcb>, p: Pcb, pid: nat)
    requires Listed(q, pid)
    ensures Find(q + [p], pid) == Find(q, pid)
  {
    var i, i' := Find(q, pid), Find(q + [p], pid);
    assert (q + [p])[i].pid == pid;
    assert i' < |q| ==> q[i'].pid == pid;
  }

  lemma WakeReaderKeeps(s: Sched, len: nat)
    requires Inv(s)
    ensures Inv(WakeReader(s, len))
  {
    hide Find, Forest, PidsBelow;
    if s.reader != 0 && CurrentStatus(s) != Zombie {
      var q := SetRegs(s.queue, s.current, s.cpu);
      var s1 := s.(queue := q);
      ChangeCurrentKeeps(s, s1, s.queue[Find(s.queue, s.current)].(regs := s.cpu));
      var r := Find(q, s.reader);
      if r < |q| {
        var s2 := s1.(queue := q[r := q[r].(status := Ready, regs := q[r].regs.(eax := len))]);
        ChangeOneCore(s1, s2, r);
        SameShapeHardware(s1, s2);
      }
    }
  }

  lemma SigintKeeps(s: Sched)
    requires Inv(s)
    ensures Inv(Sigint(s))
  {
    hide Find, Forest, PidsBelow;
    var f := Find(s.queue, s.foreground);
    if s.foreground != 0 && f < |s.queue| {
      ChangeOneCore(s, Sigint(s), f);
      SameShapeHardware(s, Sigint(s));
    }
  }

  lemma StepKeeps(s: Sched, e: Event)
    requires Inv(s) && Allowed(s, e)
    ensures Inv(Step(s, e))
  {
    hide Update, Wait, WakeReader, Sigint, ForkProcess, AddProcess, Remove, BeforeUpdate, Find, Forest;
    if CallsUpdate(e) {
      HandlersChangeCurrentOnly(s, e);
      UpdateKeeps(BeforeUpdate(s, e));
      return;
    }
    match e
    case Execute(regs) =>
    case ForkCall(b, k, d) => ForkKeeps(s, b, k, d);
    case Launch(regs, b, k, d) => AddKeeps(s, b, NewProcess(s, 0, regs, k, d));
    case KillCall(pid) => KillKeeps(s, pid);
    case SleepCall(ticks) =>
    case Keyboard(len) => WakeReaderKeeps(s, len);
    case Interrupt => SigintKeeps(s);
  }

  // ----- runs -----

  function Run(s: Sched, es: seq<Event>): Sched
    decreases |es|
  {
    if es == [] then s else Run(Step(s, es[0]), es[1..])
  }

  predicate AllAllowed(s: Sched, es: seq<Event>)
    decreases |es|
  {
    es == [] || (Allowed(s, es[0]) && AllAllowed(Step(s, es[0]), es[1..]))
  }

  /** start_scheduler: init runs, idle follows it in the list. */
  function Booted(init: Pcb, idle: Pcb): Sched {
    Sched([init.(pid := INIT, parent := 0, status := Running, waitingPid := 0, sleepTicks := 0),
           idle.(pid := IDLE, parent := 0, status := Ready, waitingPid := 0, sleepTicks := 0)],
          INIT, 2, 3, 0, 0, 0, init.regs, init.kernelStack, init.pageDirectory)
  }

  lemma {:induction false} RunKeeps(s: Sched, es: seq<Event>)
    requires Inv(s) && AllAllowed(s, es)
    ensures Inv(Run(s, es))
    decreases |es|
  {
    hide Step;
    if es != [] {
      StepKeeps(s, es[0]);
      RunKeeps(Step(s, es[0]), es[1..]);
    }
  }

  // ----- the counter of the list -----

  /** By how much the counter of the list exceeds the list. */
  function Surplus(s: Sched): int { s.size - |s.queue| }

  /** A process is created while the heap has no room for its control block. */
  function Failures(e: Event): nat { if (e.ForkCall? || e.Launch?) && e.block == 0 then 1 else 0 }

  function AllFailures(es: seq<Event>): nat { if es == [] then 0 else Failures(es[0]) + AllFailures(es[1..]) }

  lemma RemoveCounts(s: Sched, pid: nat)
    requires Core(s) && pid >= 1
    ensures Surplus(Remove(s, pid)) == Surplus(s)
  {
    hide Find, Reparent, Forest, PidsBelow, Distinct;
    if !Protected(pid) && pid != s.current {
      if Listed(s.queue, pid) {
        RemoveIs(s, pid);
      } else {
        RemoveAbsent(s, pid);
      }
    }
  }

  lemma UpdateCounts(s: Sched)
    requires Core(s)
    ensures Surplus(Update(s)) == Surplus(s)
  {
    hide Find, Forest, PidsBelow, Distinct, Remove, GiveUp, Next, DecrementAll;
    GiveUpKeeps(s);
    GiveUpCounts(s);
    var n := Next(GiveUp(s));
    NextKeeps(GiveUp(s));
    assert s.queue[Find(s.queue, s.current)].pid >= 1 by { CurrentIsPositive(s); }
    if !Stays(s) {
      RemoveCounts(n, s.current);
    }
  }

  lemma CurrentIsPositive(s: Sched)
    requires Core(s)
    ensures s.current >= 1 && s.queue[Find(s.queue, s.current)].pid == s.current
  {
  }

  lemma GiveUpCounts(s: Sched)
    ensures Surplus(GiveUp(s)) == Surplus(s)
  {
    hide Find, FindWaiter;
  }

  /** Each event adds what it fails to create. */
  lemma StepCounts(s: Sched, e: Event)
    requires Inv(s) && Allowed(s, e)
    ensures Surplus(Step(s, e)) == Surplus(s) + Failures(e)
  {
    hide Update, Wait, Remove, BeforeUpdate, Find, Forest, Core;
    if CallsUpdate(e) {
      HandlersChangeCurrentOnly(s, e);
      UpdateCounts(BeforeUpdate(s, e));
    } else if e.KillCall? {
      RemoveCounts(s, e.pid);
    }
  }

  lemma {:induction false} RunCounts(s: Sched, es: seq<Event>)
    requires Inv(s) && AllAllowed(s, es)
    ensures Surplus(Run(s, es)) == Surplus(s) + AllFailures(es)
    decreases |es|
  {
    hide Step;
    if es != [] {
      StepKeeps(s, es[0]);
      StepCounts(s, es[0]);
      RunCounts(Step(s, es[0]), es[1..]);
    }
  }

  /** The handler of `e` ends in update_scheduler, where next_process does not reach its error loop. */
  predicate SelectsAProcess(s: Sched, e: Event) {
    && Step(s, e) == Update(BeforeUpdate(s, e))
    && CurrentStatus(Next(GiveUp(BeforeUpdate(s, e)))) != Waiting
  }

  lemma HandlersSelect(s: Sched, e: Event)
    requires Inv(s) && Allowed(s, e) && CallsUpdate(e)
    ensures SelectsAProcess(s, e)
  {
    hide Find, Update, BeforeUpdate, GiveUp, Step;
    HandlersChangeCurrentOnly(s, e);
    GiveUpKeeps(BeforeUpdate(s, e));
    NextKeeps(GiveUp(BeforeUpdate(s, e)));
  }

  /** Over every run: distinct pids below the counter, the counter of the list too large by exactly
      the processes for whose control block the heap had no room, current, idle and init listed,
      every parent 0 or a listed smaller pid, kernel stack and page directory those of the current
      process, and next_process never in its error loop, at whichever call. */
  lemma RunsKeepTheTable(init: Pcb, idle: Pcb, es: seq<Event>)
    requires AllAllowed(Booted(init, idle), es)
    ensures var s := Run(Booted(init, idle), es);
      && Distinct(s.queue) && PidsBelow(s.queue, s.nextPid) && s.size == |s.queue| + AllFailures(es)
      && Listed(s.queue, s.current) && Listed(s.queue, IDLE) && Listed(s.queue, INIT)
      && Forest(s.queue)
      && HardwareIsCurrent(s)
      && (forall e :: Allowed(s, e) && CallsUpdate(e) ==> SelectsAProcess(s, e))
  {
    var b := Booted(init, idle);
    assert Inv(b) by {
      assert b.queue[0].pid == INIT && b.queue[1].pid == IDLE;
    }
    RunKeeps(b, es);
    RunCounts(b, es);
    var s := Run(b, es);
    forall e | Allowed(s, e) && CallsUpdate(e)
      ensures SelectsAProcess(s, e)
    {
      HandlersSelect(s, e);
    }
  }
}
