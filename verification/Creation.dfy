/** What a new process is: the control block that fork and the desktop append, and what fork returns
    to parent and child. */
module Creation {
  import opened Scheduling
  import opened ProcessTable
  import opened SchedulerRuns
  import opened Fairness
  import opened ContextSwitch

  /** All but the list, its counters and the registers of the running process is as it was. */
  predicate SameMachine(s: Sched, t: Sched) {
    && t.current == s.current && t.quantum == s.quantum && t.foreground == s.foreground && t.reader == s.reader
    && t.tss == s.tss && t.cr3 == s.cr3 && t.cpu.others == s.cpu.others
  }

  /** A process that has yet to run: it awaits nobody, does not sleep, and has these resources. */
  predicate NewBorn(p: Pcb, parent: nat, kernelStack: nat, pageDirectory: nat) {
    && p.parent == parent && p.status == Ready && p.waitingPid == 0 && p.sleepTicks == 0
    && p.kernelStack == kernelStack && p.pageDirectory == pageDirectory
  }

  /** fork appends one process, whose pid nobody has and the parent gets in eax; its own registers are
      those of the parent but for eax, which is 0. Without a control block for it nothing is appended,
      and the parent still gets a pid. */
  lemma ForkAppends(s: Sched, block: nat, kernelStack: nat, pageDirectory: nat)
    requires Inv(s)
    ensures var t := Step(s, ForkCall(block, kernelStack, pageDirectory));
      && SameMachine(s, t) && !Listed(s.queue, t.cpu.eax) && t.nextPid == t.cpu.eax + 1
      && (block == 0 ==> t.queue == s.queue)
      && (block != 0 ==>
            && |t.queue| == |s.queue| + 1 && t.queue[..|s.queue|] == s.queue
            && var child := t.queue[|s.queue|];
              && NewBorn(child, s.current, kernelStack, pageDirectory)
              && child.pid == t.cpu.eax && child.regs.others == s.cpu.others && child.regs.eax == 0)
  {
    hide Find;
    FreshIsNotListed(s, s.nextPid);
  }

  /** The desktop appends one process without a parent and with the registers of the program; the
      running process notices nothing. */
  lemma LaunchAppends(s: Sched, program: Registers, block: nat, kernelStack: nat, pageDirectory: nat)
    requires Inv(s)
    ensures var t := Step(s, Launch(program, block, kernelStack, pageDirectory));
      && SameMachine(s, t) && t.cpu.eax == s.cpu.eax && t.nextPid == s.nextPid + 1
      && (block == 0 ==> t.queue == s.queue)
      && (block != 0 ==>
            && |t.queue| == |s.queue| + 1 && t.queue[..|s.queue|] == s.queue
            && var p := t.queue[|s.queue|];
              NewBorn(p, 0, kernelStack, pageDirectory) && p.regs == program && !Listed(s.queue, p.pid))
  {
    hide Find;
    FreshIsNotListed(s, s.nextPid);
  }

  // ----- fork returns twice -----

  /** The pending read, if any, is of a process that had its pid already. */
  predicate ReaderIsOld(s: Sched) { s.reader < s.nextPid }

  /** The processes that an event creates, with a control block or without. */
  function Births(e: Event): nat { if e.ForkCall? || e.Launch? then 1 else 0 }

  /** Only the running process becomes the reader, and each process created takes one pid. */
  lemma StepReader(s: Sched, e: Event)
    requires Inv(s)
    ensures Step(s, e).reader in {s.reader, 0, s.current} && Step(s, e).nextPid == s.nextPid + Births(e)
  {
    hide Find, Update;
    match e
    case Execute(regs) =>
    case Tick => UpdateReader(s);
    case ForkCall(b, k, d) =>
    case Launch(regs, b, k, d) =>
    case ExitCall =>
      RemoveReader(s, s.current);
      UpdateReader(Remove(s, s.current));
    case KillCall(pid) => RemoveReader(s, pid);
    case WaitCall(pid) => UpdateReader(StartWait(s, pid));
    case SleepCall(ticks) => UpdateReader(StartSleep(s, ticks));
    case ReadCall => UpdateReader(StartRead(s));
    case Keyboard(len) =>
    case Interrupt =>
  }

  lemma RemoveReader(s: Sched, pid: nat)
    ensures Remove(s, pid).reader == s.reader && Remove(s, pid).nextPid == s.nextPid
    ensures Remove(s, pid).current == s.current
  {
    hide Find, Reparent, Unlink;
  }

  lemma UpdateReader(s: Sched)
    ensures Update(s).reader == s.reader && Update(s).nextPid == s.nextPid
  {
    hide Find, Remove, DecrementAll, Wake, SetRegs, NextIndex, CurrentStatus;
    RemoveReader(Next(GiveUp(s)), s.current);
  }

  lemma {:induction false} RunsKeepReaderOld(s: Sched, es: seq<Event>)
    requires Inv(s) && AllAllowed(s, es) && ReaderIsOld(s)
    ensures ReaderIsOld(Run(s, es))
    decreases |es|
  {
    hide Step, Find;
    if es != [] {
      StepKeeps(s, es[0]);
      StepReader(s, es[0]);
      CurrentIsOld(s);
      RunsKeepReaderOld(Step(s, es[0]), es[1..]);
    }
  }

  lemma CurrentIsOld(s: Sched)
    requires Core(s)
    ensures 0 < s.current < s.nextPid
  {
    assert s.queue[Find(s.queue, s.current)].pid == s.current;
  }

  /** Nothing is delivered to a process that has not run. */
  lemma {:induction false} NothingDelivered(s: Sched, es: seq<Event>, p: nat, r: Registers)
    requires Inv(s) && AllAllowed(s, es) && AwayUntilEnd(s, es, p) && s.reader != p && p != 0
    ensures AfterDeliveries(s, es, p, r) == r
    decreases |es|
  {
    hide Step;
    if es != [] {
      StepKeeps(s, es[0]);
      StepReader(s, es[0]);
      NothingDelivered(Step(s, es[0]), es[1..], p, r);
    }
  }

  /** fork returns twice, over every run from boot: the parent goes on with the child's pid in eax, and
      when the child first has the processor, however late, it finds the registers that the parent had
      at the call, with 0 in eax. */
  lemma ForkReturnsTwice(init: Pcb, idle: Pcb, before: seq<Event>, fork: Event, es: seq<Event>)
    requires AllAllowed(Booted(init, idle), before) && fork.ForkCall? && fork.block != 0
    requires var s := Run(Booted(init, idle), before);
      var t := Step(s, fork);
      AllAllowed(s, [fork] + es) && StaysListed(t, es, t.cpu.eax) && AwayUntilEnd(t, es, t.cpu.eax)
    ensures var s := Run(Booted(init, idle), before);
      var t, r := Step(s, fork), Run(s, [fork] + es);
      && t.current == s.current && t.cpu.others == s.cpu.others && t.cpu.eax == r.current && r.current != s.current
      && r.cpu.others == s.cpu.others && r.cpu.eax == 0
  {
    hide Step, Find, Run;
    BootedIs(init, idle);
    RunKeeps(Booted(init, idle), before);
    RunsKeepReaderOld(Booted(init, idle), before);
    ForkIsInherited(Run(Booted(init, idle), before), fork, es);
  }

  lemma BootedIs(init: Pcb, idle: Pcb)
    ensures Inv(Booted(init, idle)) && ReaderIsOld(Booted(init, idle))
  {
    var b := Booted(init, idle);
    assert b.queue[0].pid == INIT && b.queue[1].pid == IDLE;
  }

  lemma ForkIsInherited(s: Sched, fork: Event, es: seq<Event>)
    requires Inv(s) && ReaderIsOld(s) && fork.ForkCall? && fork.block != 0
    requires var t := Step(s, fork);
      AllAllowed(s, [fork] + es) && StaysListed(t, es, t.cpu.eax) && AwayUntilEnd(t, es, t.cpu.eax)
    ensures var t, r := Step(s, fork), Run(s, [fork] + es);
      && t.current == s.current && t.cpu.others == s.cpu.others && t.cpu.eax == r.current && r.current != s.current
      && r.cpu.others == s.cpu.others && r.cpu.eax == 0
  {
    hide Step, Find;
    var t := Step(s, fork);
    var child := t.cpu.eax;
    assert ([fork] + es)[1..] == es;
    StepKeeps(s, fork);
    ForkAppends(s, fork.block, fork.kernelStack, fork.pageDirectory);
    ChildRegisters(s, fork);
    NothingDelivered(t, es, child, RegistersOf(t, child));
    AwayKeepsRegisters(t, es, child);
    EndsWith(t, es, child);
  }

  lemma ChildRegisters(s: Sched, fork: Event)
    requires Inv(s) && ReaderIsOld(s) && fork.ForkCall? && fork.block != 0
    ensures var t := Step(s, fork);
      && Listed(t.queue, t.cpu.eax) && t.cpu.eax != s.current && t.cpu.eax != 0 && t.reader != t.cpu.eax
      && RegistersOf(t, t.cpu.eax) == Registers(0, s.cpu.others)
  {
    hide Find;
    CurrentIsOld(s);
    ForkAppends(s, fork.block, fork.kernelStack, fork.pageDirectory);
    assert Find(Step(s, fork).queue, s.nextPid) == |s.queue|;
  }

  lemma {:induction false} EndsWith(s: Sched, es: seq<Event>, p: nat)
    requires AwayUntilEnd(s, es, p)
    ensures Run(s, es).current == p
    decreases |es|
  {
    hide Step;
    if es != [] {
      EndsWith(Step(s, es[0]), es[1..], p);
    }
  }

  function AllBirths(es: seq<Event>): nat { if es == [] then 0 else Births(es[0]) + AllBirths(es[1..]) }

  lemma {:induction false} PidsAreCounted(s: Sched, es: seq<Event>)
    requires Inv(s) && AllAllowed(s, es)
    ensures Inv(Run(s, es)) && Run(s, es).nextPid == s.nextPid + AllBirths(es)
    decreases |es|
  {
    hide Step, Inv;
    if es != [] {
      StepKeeps(s, es[0]);
      StepReader(s, es[0]);
      PidsAreCounted(Step(s, es[0]), es[1..]);
    }
  }

  /** Pids are given out in order, from 3 on, whatever else happens: after any run from boot the next fork
      answers 3 and one for each process created before, those without a control block included. */
  lemma PidsInOrder(init: Pcb, idle: Pcb, es: seq<Event>, fork: Event)
    requires AllAllowed(Booted(init, idle), es) && fork.ForkCall?
    ensures Step(Run(Booted(init, idle), es), fork).cpu.eax == 3 + AllBirths(es)
  {
    hide Find, Run;
    BootedIs(init, idle);
    PidsAreCounted(Booted(init, idle), es);
  }

  /** The first process that init forks has pid 3. */
  lemma FirstChild(init: Pcb, idle: Pcb, block: nat, kernelStack: nat, pageDirectory: nat)
    requires block != 0
    ensures var t := Step(Booted(init, idle), ForkCall(block, kernelStack, pageDirectory));
      |t.queue| == 3 && t.queue[2].pid == t.cpu.eax == 3 && t.queue[2].parent == 2 && t.queue[2].regs.eax == 0
  {
  }
}
