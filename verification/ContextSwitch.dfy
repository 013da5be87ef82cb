/** Context integrity: a process is resumed with exactly the registers it was switched out with,
    but for the byte count that a completed stdin read leaves in eax. */
module ContextSwitch {
  import opened Scheduling
  import opened ProcessTable
  import opened SchedulerRuns
  import opened Fairness

  /** The registers kept in the control block of `p`. */
  function Saved(s: Sched, p: nat): Registers
    requires Listed(s.queue, p)
  {
    s.queue[Find(s.queue, p)].regs
  }

  lemma GiveUpRegs(s: Sched, p: nat)
    requires Core(s) && Listed(s.queue, p)
    ensures Listed(GiveUp(s).queue, p)
    ensures Saved(GiveUp(s), p) == if p == s.current && CurrentStatus(Age(s)) != Zombie then s.cpu else Saved(s, p)
  {
    hide Find, FindWaiter, Forest, PidsBelow, DecrementAll;
    GiveUpKeeps(s);
    AgeKeeps(s);
    SamePidsFind(s.queue, Age(s).queue, p);
    SamePidsFind(s.queue, GiveUp(s).queue, p);
    var c := Find(s.queue, s.current);
    assert p != s.current ==> Find(s.queue, p) != c;
  }

  lemma ResumeRegs(s: Sched, p: nat)
    requires Core(s) && Listed(s.queue, p)
    ensures Listed(Resume(s).queue, p) && Saved(Resume(s), p) == Saved(s, p)
    ensures p == s.current ==> Resume(s).cpu == Saved(s, p)
  {
    hide Find;
    ResumeKeeps(s);
    SamePidsFind(s.queue, Resume(s).queue, p);
  }

  /** What a switch does with the registers of a process that survives it. */
  lemma SwitchRegs(s: Sched, p: nat)
    requires Core(s) && Listed(s.queue, p) && Listed(Switch(s).queue, p)
    ensures Saved(Switch(s), p) == if p == s.current && CurrentStatus(Age(s)) != Zombie then s.cpu else Saved(s, p)
    ensures p == Switch(s).current ==> Switch(s).cpu == Saved(Switch(s), p)
  {
    hide Find, Forest, PidsBelow, Resume, Remove, GiveUp, Age, Next, CurrentStatus;
    var n := Next(GiveUp(s));
    GiveUpKeeps(s);
    GiveUpRegs(s, p);
    NextKeeps(GiveUp(s));
    if CurrentStatus(Age(s)) == Zombie && !Protected(s.current) {
      ExitingIsUnlinked(s);
      RemoveKeepsOthers(n, s.current, p);
      ResumeKeeps(Remove(n, s.current));
      ResumeRegs(Remove(n, s.current), p);
    } else {
      RemoveProtected(n, s.current);
      ResumeKeeps(n);
      ResumeRegs(n, p);
    }
  }

  /** update_scheduler is called while the current process is idle or init, marked as a zombie. */
  predicate ZombieLoses(s: Sched, p: nat) { p == s.current && Protected(p) && CurrentStatus(s) == Zombie }

  /** A switch saves the interrupted registers of a process that stays listed, whatever they
      are, unless it is idle or init marked as a zombie; and then it does not. */
  lemma SwitchSavesExactlyWhen(s: Sched)
    requires Core(s)
    ensures (forall r: Registers :: SavesCpu(s.(cpu := r))) <==> !ZombieLoses(s, s.current)
  {
    hide Find, Switch, GiveUp;
    AgeKeeps(s);
    forall r: Registers
      ensures Core(s.(cpu := r)) && CurrentStatus(Age(s.(cpu := r))) == CurrentStatus(Age(s))
      ensures !ZombieLoses(s, s.current) ==> SavesCpu(s.(cpu := r))
    {
      var s1 := s.(cpu := r);
      if Listed(Switch(s1).queue, s.current) {
        SwitchRegs(s1, s.current);
        if CurrentStatus(Age(s1)) == Zombie && !Protected(s.current) {
          ExitingIsUnlinked(s1);
        }
      }
    }
    if ZombieLoses(s, s.current) {
      var saved := Saved(s, s.current);
      var s1 := s.(cpu := saved.(eax := saved.eax + 1));
      SwitchKeeps(s1);
      SwitchRegs(s1, s.current);
      assert !SavesCpu(s1);
    }
  }

  /** After a switch the process that was current, if still listed, has its registers saved. */
  predicate SavesCpu(s: Sched) {
    Listed(Switch(s).queue, s.current) ==> Saved(Switch(s), s.current) == s.cpu
  }

  // ----- events -----

  /** Event `e` completes the pending read of `p`. */
  predicate Woken(s: Sched, e: Event, p: nat) { e.Keyboard? && s.reader == p != 0 && CurrentStatus(s) != Zombie }

  /** The registers of `p`: the processor's if it runs, else those saved. */
  function RegistersOf(s: Sched, p: nat): Registers
    requires Listed(s.queue, p)
  {
    if p == s.current then s.cpu else Saved(s, p)
  }

  /** update_scheduler moves registers between processor and control blocks, and loses only those. */
  lemma UpdateRegs(s: Sched, p: nat)
    requires Core(s) && Listed(s.queue, p) && Listed(Update(s).queue, p)
    ensures RegistersOf(Update(s), p) == if ZombieLoses(s, p) then Saved(s, p) else RegistersOf(s, p)
  {
    hide Find, Switch, Forest, PidsBelow;
    AgeKeeps(s);
    if Stays(s) {
      SamePidsFind(s.queue, Age(s).queue, p);
    } else {
      if CurrentStatus(Age(s)) == Zombie && !Protected(s.current) {
        ExitingIsUnlinked(s);
      }
      SwitchRegs(s, p);
    }
  }

  /** Event `e` makes `p` lose its interrupted registers. */
  predicate Loses(s: Sched, e: Event, p: nat) { CallsUpdate(e) && ZombieLoses(s, p) }

  lemma HandlerRegs(s: Sched, e: Event, p: nat)
    requires Inv(s) && Allowed(s, e) && CallsUpdate(e)
    requires Listed(s.queue, p) && Listed(Step(s, e).queue, p)
    ensures RegistersOf(Step(s, e), p) == if Loses(s, e, p) then Saved(s, p) else RegistersOf(s, p)
  {
    hide Update, Find, Forest, PidsBelow, Step, BeforeUpdate;
    HandlersChangeCurrentOnly(s, e);
    var s1 := BeforeUpdate(s, e);
    SamePidsFind(s.queue, s1.queue, p);
    SamePidsFind(s.queue, s1.queue, s.current);
    var i := Find(s.queue, p);
    assert p != s.current ==> i != Find(s.queue, s.current);
    UpdateRegs(s1, p);
  }

  lemma KillRegs(s: Sched, pid: nat, p: nat)
    requires Inv(s) && pid >= 1 && Listed(s.queue, p) && Listed(Remove(s, pid).queue, p)
    ensures Saved(Remove(s, pid), p) == Saved(s, p)
  {
    hide Find, Forest, PidsBelow, Reparent, Unlink, Distinct;
    if pid == s.current && !Protected(pid) {
      SamePidsFind(s.queue, Remove(s, pid).queue, p);
    } else if !Protected(pid) && Listed(s.queue, pid) {
      RemoveKeepsOthers(s, pid, p);
    } else if !Protected(pid) {
      RemoveAbsent(s, pid);
    }
  }

  /** Waking a reader: the others' registers stay, and so do those on the processor and its
      kernel stack and directory unless the reader is the running process itself. */
  lemma WakeReaderRegs(s: Sched, len: nat, p: nat)
    requires Inv(s) && Listed(s.queue, p)
    ensures Listed(WakeReader(s, len).queue, p)
    ensures RegistersOf(WakeReader(s, len), p) ==
      if Woken(s, Keyboard(len), p) then RegistersOf(s, p).(eax := len) else RegistersOf(s, p)
    ensures s.reader != s.current ==> WakeReader(s, len).cpu == s.cpu
    ensures WakeReader(s, len).tss == s.tss && WakeReader(s, len).cr3 == s.cr3
  {
    hide Find, Forest, PidsBelow;
    if s.reader != 0 && CurrentStatus(s) != Zombie {
      var q := SetRegs(s.queue, s.current, s.cpu);
      SamePidsFind(s.queue, q, s.reader);
      SamePidsFind(s.queue, q, s.current);
      SamePidsFind(s.queue, WakeReader(s, len).queue, p);
      SamePidsFind(s.queue, WakeReader(s, len).queue, s.current);
    }
  }

  /** What event `e` delivers into the registers of `p`. */
  function WithDelivery(s: Sched, e: Event, p: nat, r: Registers): Registers {
    if Woken(s, e, p) then r.(eax := e.len) else r
  }

  /** The result a call leaves in eax of the process that made it, or what ring 3 computed. */
  predicate ChangesCpu(e: Event) { e.Execute? || e.ForkCall? || e.KillCall? }

  /** One event: the registers of a process that stays listed are those it had, wherever they
      are now, but for a delivered byte count and for what the process itself does; unless it is
      idle or init, marked as a zombie, and gives up the processor. */
  lemma StepRegs(s: Sched, e: Event, p: nat)
    requires Inv(s) && Allowed(s, e)
    requires Listed(s.queue, p) && Listed(Step(s, e).queue, p) && !(ChangesCpu(e) && p == s.current)
    ensures RegistersOf(Step(s, e), p) ==
      WithDelivery(s, e, p, if Loses(s, e, p) then Saved(s, p) else RegistersOf(s, p))
  {
    hide Find, Update, Remove, WakeReader, Forest, PidsBelow, Distinct;
    if CallsUpdate(e) {
      HandlerRegs(s, e, p);
    } else {
      match e
      case Execute(regs) =>
      case ForkCall(b, k, d) => AddFind(s, b, NewProcess(s, s.current, s.cpu.(eax := 0), k, d), p);
      case Launch(regs, b, k, d) => AddFind(s, b, NewProcess(s, 0, regs, k, d), p);
      case KillCall(pid) =>
        KillRegs(s, pid, p);
        KillKeeps(s, pid);
        KillKeepsCurrent(s, pid);
      case SleepCall(ticks) =>
      case Keyboard(len) =>
        WakeReaderRegs(s, len, p);
      case Interrupt =>
        SamePidsFind(s.queue, Step(s, e).queue, p);
    }
  }

  lemma KillKeepsCurrent(s: Sched, pid: nat)
    ensures Remove(s, pid).current == s.current
  {
  }

  // ----- runs -----

  /** `p` does not have the processor until the run ends, and then it does. */
  predicate AwayUntilEnd(s: Sched, es: seq<Event>, p: nat)
    decreases |es|
  {
    if es == [] then s.current == p else s.current != p && AwayUntilEnd(Step(s, es[0]), es[1..], p)
  }

  /** The registers `r` of `p` with the byte counts that the run delivers to it. */
  function AfterDeliveries(s: Sched, es: seq<Event>, p: nat, r: Registers): (r': Registers)
    ensures r'.others == r.others
    decreases |es|
  {
    if es == [] then r else AfterDeliveries(Step(s, es[0]), es[1..], p, WithDelivery(s, es[0], p, r))
  }

  lemma {:induction false} AwayKeepsRegisters(s: Sched, es: seq<Event>, p: nat)
    requires Inv(s) && AllAllowed(s, es) && StaysListed(s, es, p) && AwayUntilEnd(s, es, p)
    ensures Run(s, es).cpu == AfterDeliveries(s, es, p, RegistersOf(s, p))
    decreases |es|
  {
    hide Step, Find;
    if es != [] {
      var s1 := Step(s, es[0]);
      StepKeeps(s, es[0]);
      assert StaysListed(s1, es[1..], p);
      StepRegs(s, es[0], p);
      AwayKeepsRegisters(s1, es[1..], p);
    }
  }

  /** A process that gives up the processor at the first event of a run and has it back at the end
      finds its registers exactly as it left them, but for eax when a pending read of its own
      completed meanwhile. Idle and init, when marked as zombies at that first event, find the
      registers of the time before. Nothing is asked of the rest of the run. */
  lemma ResumedAsSwitchedOut(s: Sched, e: Event, es: seq<Event>, p: nat)
    requires Inv(s) && AllAllowed(s, [e] + es)
    requires StaysListed(s, [e] + es, p) && s.current == p && !ChangesCpu(e)
    requires AwayUntilEnd(Step(s, e), es, p)
    ensures Run(s, [e] + es).cpu ==
      AfterDeliveries(s, [e] + es, p, if Loses(s, e, p) then Saved(s, p) else s.cpu)
  {
    hide Step, Find;
    var s1 := Step(s, e);
    assert ([e] + es)[1..] == es;
    StepKeeps(s, e);
    assert StaysListed(s1, es, p);
    StepRegs(s, e, p);
    AwayKeepsRegisters(s1, es, p);
    NoReadCompletes(s, e, p);
  }

  lemma NoReadCompletes(s: Sched, e: Event, p: nat)
    ensures Loses(s, e, p) ==>
      WithDelivery(s, e, p, s.cpu) == s.cpu && WithDelivery(s, e, p, Saved(s, p)) == Saved(s, p)
  {
  }

  /** Hence, with registers other than those in its control block, it finds them again if and only
      if it is not idle or init marked as a zombie. */
  lemma ResumedExactlyWhen(s: Sched, e: Event, es: seq<Event>, p: nat)
    requires Inv(s) && AllAllowed(s, [e] + es)
    requires StaysListed(s, [e] + es, p) && s.current == p && !ChangesCpu(e)
    requires AwayUntilEnd(Step(s, e), es, p) && Saved(s, p).others != s.cpu.others
    ensures Run(s, [e] + es).cpu == AfterDeliveries(s, [e] + es, p, s.cpu) <==> !Loses(s, e, p)
  {
    ResumedAsSwitchedOut(s, e, es, p);
  }

  // ----- the condition is needed -----

  /** A switch from index `c` to the very next process, spelled out. */
  lemma SwitchToNext(s: Sched, d: seq<Pcb>, c: nat, r: nat)
    requires c < |s.queue| && Distinct(s.queue) && s.current == s.queue[c].pid && !Stays(s)
    requires d == DecrementAll(s.queue)
    requires r == After(d, c) != c && d[c].status != Zombie && d[r].status != Waiting
    ensures Update(s) == s.(queue := d[c := d[c].(regs := s.cpu)][r := d[r].(status := Running)], current := d[r].pid,
                            quantum := 0, cpu := d[r].regs, tss := d[r].kernelStack, cr3 := d[r].pageDirectory)
  {
    hide Find, DecrementAll;
    var g := d[c := d[c].(regs := s.cpu)];
    FindIsIndex(d, c);
    FindIsIndex(g, c);
    FindIsIndex(g, r);
    assert GiveUp(s) == s.(queue := g, quantum := s.quantum + 1);
    assert Next(GiveUp(s)) == GiveUp(s).(current := g[r].pid) by {
      assert Skip(g, r, s.size) == r;
    }
  }

  lemma StartSleepIs(s: Sched, c: nat, ticks: nat)
    requires c < |s.queue| && Distinct(s.queue) && s.current == s.queue[c].pid && s.queue[c].status != Zombie
    ensures StartSleep(s, ticks) == s.(queue := s.queue[c := s.queue[c].(sleepTicks := ticks, status := Waiting)])
  {
    hide Find;
    var q := s.queue[c := s.queue[c].(sleepTicks := ticks)];
    FindIsIndex(s.queue, c);
    FindIsIndex(q, c);
  }

  lemma StartWaitIs(s: Sched, c: nat, pid: nat)
    requires c < |s.queue| && Distinct(s.queue) && s.current == s.queue[c].pid && s.queue[c].status != Zombie
    ensures StartWait(s, pid) ==
      s.(foreground := pid, queue := s.queue[c := s.queue[c].(waitingPid := pid, status := Waiting)])
  {
    hide Find;
    var q := s.queue[c := s.queue[c].(waitingPid := pid)];
    FindIsIndex(s.queue, c);
    FindIsIndex(q, c);
  }

  /** A process that still waits after the sleepers have aged, or is a zombie, gives up the processor. */
  lemma WaitingGivesUp(s: Sched, d: seq<Pcb>, c: nat)
    requires c < |s.queue| && Distinct(s.queue) && s.current == s.queue[c].pid
    requires d == DecrementAll(s.queue) && (d[c].status == Waiting || d[c].status == Zombie)
    ensures !Stays(s)
  {
    hide Find, DecrementAll;
    FindIsIndex(d, c);
  }

  /** init, idle and a child. */
  predicate Row(q: seq<Pcb>) {
    |q| == 3 && q[0].pid == INIT && q[1].pid == IDLE && q[2].pid == 3 && Distinct(q)
  }

  /** init sleeps for two ticks: idle runs. */
  lemma InitSleeps(s: Sched)
    requires Row(s.queue) && s.current == INIT && s.queue[0].status == Running && s.queue[1].status == Ready
    requires s.queue[1].sleepTicks == 0 && s.queue[2].status == Ready && s.queue[2].sleepTicks == 0
    ensures var s', p := Sleep(s, 2), s.queue[0];
      && Row(s'.queue) && s'.current == IDLE && s'.foreground == s.foreground
      && s'.queue[0] == p.(status := Waiting, sleepTicks := 1, regs := s.cpu)
      && s'.queue[1].status == Running && s'.queue[1].sleepTicks == 0 && s'.queue[2] == s.queue[2]
  {
    hide Find, Update;
    StartSleepIs(s, 0, 2);
    var a := StartSleep(s, 2);
    var d := DecrementAll(a.queue);
    WaitingGivesUp(a, d, 0);
    SwitchToNext(a, d, 0, 1);
  }

  /** The next tick wakes init; the child, next in line, runs. */
  lemma InitWakes(s: Sched)
    requires Row(s.queue) && s.current == IDLE && s.queue[0].status == Waiting && s.queue[0].sleepTicks == 1
    requires s.queue[1].status == Running && s.queue[1].sleepTicks == 0
    requires s.queue[2].status == Ready && s.queue[2].sleepTicks == 0
    ensures var s' := Update(s);
      && Row(s'.queue) && s'.current == 3 && s'.foreground == s.foreground
      && s'.queue[0] == s.queue[0].(status := Ready, sleepTicks := 0)
      && s'.queue[2] == s.queue[2].(status := Running)
  {
    var d := DecrementAll(s.queue);
    assert Wakes(s.queue[0]);
    SwitchToNext(s, d, 1, 2);
  }

  /** The child waits for init, which runs again. */
  lemma ChildWaits(s: Sched)
    requires Row(s.queue) && s.current == 3 && s.queue[0].status == Ready && s.queue[0].sleepTicks == 0
    requires s.queue[2].status == Running && s.queue[2].sleepTicks == 0
    ensures var s' := Wait(s, INIT);
      && Row(s'.queue) && s'.current == INIT && s'.foreground == INIT && s'.queue[0].regs == s.queue[0].regs
  {
    hide Find, Update;
    StartWaitIs(s, 2, INIT);
    var a := StartWait(s, INIT);
    var d := DecrementAll(a.queue);
    WaitingGivesUp(a, d, 2);
    SwitchToNext(a, d, 2, 0);
  }

  /** The exception is real: init sleeps, its child waits for it, and Ctrl-C arrives when init
      is back. Whatever registers `r` the next tick finds, init's control block keeps older ones. */
  lemma InterruptedInitLosesRegisters(init: Pcb, idle: Pcb, r: Registers)
    requires r != init.regs.(eax := 3)
    ensures var es := [ForkCall(4096, 0, 0), SleepCall(2), Tick, WaitCall(INIT), Interrupt, Execute(r)];
      var s := Run(Booted(init, idle), es);
      && Inv(s) && s.current == INIT && s.cpu == r
      && Listed(Step(s, Tick).queue, INIT) && Saved(Step(s, Tick), INIT) != r
  {
    hide Sleep, Wait, Update;
    var b := Booted(init, idle);
    RunsKeepTheTable(init, idle, []);
    assert b.queue[0].pid == INIT && b.queue[1].pid == IDLE;
    var s1 := Step(b, ForkCall(4096, 0, 0));
    StepKeeps(b, ForkCall(4096, 0, 0));
    InitSleeps(s1);
    var s2 := Step(s1, SleepCall(2));
    StepKeeps(s1, SleepCall(2));
    InitWakes(s2);
    var s3 := Step(s2, Tick);
    StepKeeps(s2, Tick);
    ChildWaits(s3);
    var s4 := Step(s3, WaitCall(INIT));
    StepKeeps(s3, WaitCall(INIT));
    var s5 := Step(s4, Interrupt);
    StepKeeps(s4, Interrupt);
    var s6 := Step(s5, Execute(r));
    InterruptedTick(s4, r);
    RunSix(b, ForkCall(4096, 0, 0), SleepCall(2), Tick, WaitCall(INIT), Interrupt, Execute(r));
  }

  /** Ctrl-C on the running init, then a tick. */
  lemma InterruptedTick(s: Sched, r: Registers)
    requires Inv(s) && s.current == INIT && s.foreground == INIT && Saved(s, INIT) != r
    ensures var s' := Sigint(s).(cpu := r);
      Inv(s') && s'.current == INIT && Listed(Update(s').queue, INIT) && Saved(Update(s'), INIT) != r
  {
    hide Find, Update, Sigint;
    InterruptedInit(s, r);
    ZombieTick(Sigint(s).(cpu := r));
  }

  lemma InterruptedInit(s: Sched, r: Registers)
    requires Inv(s) && s.current == INIT && s.foreground == INIT
    ensures var s' := Sigint(s).(cpu := r);
      Inv(s') && ZombieLoses(s', INIT) && Saved(s', INIT) == Saved(s, INIT)
  {
    hide Find, Forest;
    SigintKeeps(s);
    SamePidsFind(s.queue, Sigint(s).queue, INIT);
  }

  lemma ZombieTick(s: Sched)
    requires Inv(s) && ZombieLoses(s, INIT) && Saved(s, INIT) != s.cpu
    ensures Listed(Update(s).queue, INIT) && Saved(Update(s), INIT) != s.cpu
  {
    hide Find, Switch, Forest, PidsBelow;
    AgeKeeps(s);
    UpdateKeeps(s);
    SwitchRegs(s, INIT);
  }

  lemma RunSix(s: Sched, a: Event, b: Event, c: Event, d: Event, e: Event, f: Event)
    ensures Run(s, [a, b, c, d, e, f]) == Step(Step(Step(Step(Step(Step(s, a), b), c), d), e), f)
  {
    hide Step;
    RunOne(s, a, [b, c, d, e, f]);
    RunOne(Step(s, a), b, [c, d, e, f]);
    var s2 := Step(Step(s, a), b);
    RunOne(s2, c, [d, e, f]);
    RunOne(Step(s2, c), d, [e, f]);
    var s4 := Step(Step(s2, c), d);
    RunOne(s4, e, [f]);
    RunOne(Step(s4, e), f, []);
    assert [a] + [b, c, d, e, f] == [a, b, c, d, e, f];
    assert [b] + [c, d, e, f] == [b, c, d, e, f];
    assert [c] + [d, e, f] == [c, d, e, f];
    assert [d] + [e, f] == [d, e, f];
    assert [e] + [f] == [e, f];
    assert [f] + [] == [f];
  }

  lemma RunOne(s: Sched, e: Event, es: seq<Event>)
    ensures Run(s, [e] + es) == Run(Step(s, e), es)
  {
    assert ([e] + es)[1..] == es;
  }
}
