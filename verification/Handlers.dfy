/** What the calls of a process mean for it: the result of kill, the wait for another process, the
    blocking read, Ctrl-C, exit, and the length of the quantum. */
module Handlers {
  import opened Scheduling
  import opened ProcessTable
  import opened SchedulerRuns
  import opened Fairness
  import opened ContextSwitch
  import opened Waking
  import opened Waiters
  import opened Zombies
  import opened Creation
  import opened Heirs

  // ----- kill -----

  /** kill fails for the two permanent processes, and then does nothing but say so; else it succeeds,
      and the process is out of the list, or is the caller itself and a zombie. */
  lemma KillMeans(s: Sched, pid: nat)
    requires Inv(s) && Allowed(s, KillCall(pid))
    ensures var t := Step(s, KillCall(pid));
      && t.cpu.others == s.cpu.others && t.current == s.current
      && if pid == 1 || pid == 2 then
        t == s.(cpu := t.cpu) && t.cpu.eax == 0xFFFFFFFF
      else
        && t.cpu.eax == 0
        && if pid == s.current then Listed(t.queue, pid) && Entry(t, pid).status == Zombie else !Listed(t.queue, pid)
  {
    hide Find, Forest, PidsBelow, Reparent, Unlink, Distinct;
    KillLists(s, pid, pid);
    if pid == s.current {
      SamePidsFind(s.queue, SetStatus(s.queue, pid, Zombie), pid);
    }
  }

  /** exit takes any process but those two out of the list. */
  lemma ExitMeans(s: Sched)
    requires Inv(s) && Allowed(s, ExitCall) && s.current != 2
    ensures !Listed(Step(s, ExitCall).queue, s.current)
  {
    hide Find, Update, Forest, PidsBelow, Distinct;
    SamePidsFind(s.queue, SetStatus(s.queue, s.current, Zombie), s.current);
    LeavesExactlyWhen(s, ExitCall, s.current);
  }

  // ----- wait -----

  /** After wait(pid) the caller awaits that process, waiting off the processor; and it is what Ctrl-C
      would hit. */
  lemma WaitMeans(s: Sched, pid: nat)
    requires Inv(s) && Allowed(s, WaitCall(pid)) && CurrentStatus(s) != Zombie && Entry(s, s.current).sleepTicks == 0
    ensures var t := Step(s, WaitCall(pid));
      WaitsFor(t, s.current, pid) && t.foreground == pid
  {
    hide Find, Update, Forest, PidsBelow, Distinct;
    HandlersChangeCurrentOnly(s, WaitCall(pid));
    var s1 := StartWait(s, pid);
    StartWaitEntry(s, pid);
    SleeperAges(s1, s.current, 0);
    UpdateForeground(s1);
    UpdateKeepsOwnAwaited(s1, s.current);
  }

  lemma StartWaitEntry(s: Sched, pid: nat)
    requires Inv(s) && CurrentStatus(s) != Zombie
    ensures var t := StartWait(s, pid);
      && t.current == s.current && t.foreground == pid && Listed(t.queue, s.current)
      && Entry(t, s.current) == Entry(s, s.current).(waitingPid := pid, status := Waiting)
      && CurrentStatus(t) == Waiting
  {
    hide Find;
    StartWaitIs(s, Find(s.queue, s.current), pid);
    SamePidsFind(s.queue, StartWait(s, pid).queue, s.current);
  }

  lemma UpdateForeground(s: Sched)
    ensures Update(s).foreground == s.foreground
  {
    hide Find, Reparent, Unlink, DecrementAll, Wake, SetRegs, NextIndex, CurrentStatus;
  }

  /** A process that blocks keeps the awaited pid it has just set, even its own. */
  lemma UpdateKeepsOwnAwaited(s: Sched, t: nat)
    requires Core(s) && t == s.current && CurrentStatus(s) == Waiting
    requires Listed(Update(s).queue, t)
    ensures Entry(Update(s), t).waitingPid == Entry(s, t).waitingPid
  {
    hide Find, Switch, GiveUp, Forest, PidsBelow, Distinct, FindWaiter, ExitWakes;
    AgedEntry(s, t);
    if !Stays(s) {
      GiveUpEntry(s, t);
      SwitchEntry(s, t);
    }
  }

  /** A process calls wait for another, that one exits at some later event, and nothing else helps the
      waiter meanwhile: it is ready or running, provided it is the first to await it. */
  lemma WaitEndsAtExit(s: Sched, p: nat, es: seq<Event>, e: Event)
    requires Inv(s) && AllAllowed(s, [WaitCall(p)] + es)
    requires CurrentStatus(s) != Zombie && Entry(s, s.current).sleepTicks == 0 && s.current != p
    requires var s1 := Step(s, WaitCall(p));
      var r := Run(s1, es);
      && Undisturbed(s1, es, s.current) && StaysListed(s1, es, p)
      && Allowed(r, e) && ExitsNow(r, e, p) && FirstToAwait(BeforeUpdate(r, e).queue, s.current, p)
    ensures var r := Run(s, [WaitCall(p)] + es);
      && Asleep(r, s.current, 0) && Listed(Step(r, e).queue, s.current)
      && (Entry(Step(r, e), s.current).status == Ready || Entry(Step(r, e), s.current).status == Running)
  {
    hide Step, Find, ExitsNow, Undisturbed, FirstToAwait, Asleep;
    assert ([WaitCall(p)] + es)[1..] == es;
    var s1 := Step(s, WaitCall(p));
    StepKeeps(s, WaitCall(p));
    WaitMeans(s, p);
    RunAwaits(s1, es, s.current, p);
    ExitEndsWait(Run(s1, es), e, s.current, p);
  }

  // ----- the blocking read -----

  /** After a blocking read the caller waits off the processor and is the one that a key wakes. */
  lemma ReadMeans(s: Sched)
    requires Inv(s) && Allowed(s, ReadCall) && CurrentStatus(s) != Zombie && Entry(s, s.current).sleepTicks == 0
    ensures var t := Step(s, ReadCall);
      Asleep(t, s.current, 0) && t.reader == s.current && RegistersOf(t, s.current) == s.cpu
  {
    hide Find, Update, Forest, PidsBelow, Distinct;
    HandlersChangeCurrentOnly(s, ReadCall);
    var s1 := StartRead(s);
    StartReadEntry(s);
    SleeperAges(s1, s.current, 0);
    UpdateReader(s1);
    StepRegs(s, ReadCall, s.current);
    NotLost(s);
    CurrentIsOld(s);
  }

  lemma StartReadEntry(s: Sched)
    requires Inv(s) && CurrentStatus(s) != Zombie
    ensures var t := StartRead(s);
      && t.current == s.current && t.reader == s.current && Listed(t.queue, s.current)
      && Entry(t, s.current) == Entry(s, s.current).(status := Waiting) && CurrentStatus(t) == Waiting
  {
    hide Find;
    SamePidsFind(s.queue, StartRead(s).queue, s.current);
  }

  lemma NotLost(s: Sched)
    requires CurrentStatus(s) != Zombie
    ensures forall e, p :: !Loses(s, e, p)
  {
  }

  /** The key that completes a read: the reader is ready with the count in eax, nobody else is the
      reader, and every other process is as it was. */
  lemma KeyMeans(s: Sched, len: nat)
    requires Inv(s) && Listed(s.queue, s.reader) && CurrentStatus(s) != Zombie
    ensures var t := Step(s, Keyboard(len));
      && t.reader == 0 && t.current == s.current && Listed(t.queue, s.reader)
      && Entry(t, s.reader).status == Ready && RegistersOf(t, s.reader) == RegistersOf(s, s.reader).(eax := len)
      && forall p :: Listed(s.queue, p) && p != s.reader ==>
        && Listed(t.queue, p) && RegistersOf(t, p) == RegistersOf(s, p)
        && Entry(t, p) == Entry(s, p).(regs := Entry(t, p).regs)
  {
    hide Find, Forest, PidsBelow;
    ListedIsPositive(s, s.reader);
    WakeReaderRegs(s, len, s.reader);
    KeyEntry(s, len, s.reader);
    forall p | Listed(s.queue, p) && p != s.reader
      ensures Listed(Step(s, Keyboard(len)).queue, p)
      ensures RegistersOf(Step(s, Keyboard(len)), p) == RegistersOf(s, p)
      ensures Entry(Step(s, Keyboard(len)), p) == Entry(s, p).(regs := Entry(Step(s, Keyboard(len)), p).regs)
    {
      WakeReaderRegs(s, len, p);
      KeyEntry(s, len, p);
    }
  }

  lemma ListedIsPositive(s: Sched, p: nat)
    requires Core(s) && Listed(s.queue, p)
    ensures p >= 1
  {
    assert s.queue[Find(s.queue, p)].pid == p;
  }

  lemma KeyEntry(s: Sched, len: nat, p: nat)
    requires Inv(s) && s.reader != 0 && Listed(s.queue, s.reader) && CurrentStatus(s) != Zombie && Listed(s.queue, p)
    ensures var t := WakeReader(s, len);
      && t.reader == 0 && t.current == s.current && Listed(t.queue, p)
      && Entry(t, p) == Entry(s, p).(regs := Entry(t, p).regs,
                                     status := if p == s.reader then Ready else Entry(s, p).status)
  {
    hide Find, Forest, PidsBelow;
    var q := SetRegs(s.queue, s.current, s.cpu);
    SamePidsFind(s.queue, q, s.reader);
    SamePidsFind(s.queue, q, s.current);
    SamePidsFind(q, WakeReader(s, len).queue, p);
    SamePidsFind(q, WakeReader(s, len).queue, s.current);
    SamePidsFind(s.queue, q, p);
    if p != s.reader {
      FindOther(s.queue, p, s.reader);
    }
  }

  lemma {:induction false} BlockedKeepsRegisters(s: Sched, es: seq<Event>, p: nat)
    requires Inv(s) && AllAllowed(s, es) && Asleep(s, p, 0) && Undisturbed(s, es, p)
    ensures Inv(Run(s, es)) && Asleep(Run(s, es), p, 0) && RegistersOf(Run(s, es), p) == RegistersOf(s, p)
    decreases |es|
  {
    hide Step, Find, Asleep;
    if es != [] {
      StepKeeps(s, es[0]);
      SleeperSteps(s, es[0], p, 0);
      AsleepIs(s, p);
      AsleepIs(Step(s, es[0]), p);
      StepRegs(s, es[0], p);
      BlockedKeepsRegisters(Step(s, es[0]), es[1..], p);
    }
  }

  lemma AsleepIs(s: Sched, p: nat)
    requires Asleep(s, p, 0)
    ensures Listed(s.queue, p) && s.current != p
  {
  }

  /** A blocking read returns: the caller is off the processor until a key completes its read, is then
      ready, and finds on its next turn, however late, the registers of its call with the count in eax. */
  lemma ReadReturns(s: Sched, es: seq<Event>, len: nat, rest: seq<Event>)
    requires Inv(s) && Allowed(s, ReadCall) && CurrentStatus(s) != Zombie && Entry(s, s.current).sleepTicks == 0
    requires var s1 := Step(s, ReadCall);
      var r := Run(s1, es);
      var k := Step(r, Keyboard(len));
      && AllAllowed(s1, es) && Undisturbed(s1, es, s.current)
      && r.reader == s.current && CurrentStatus(r) != Zombie
      && AllAllowed(k, rest) && StaysListed(k, rest, s.current) && AwayUntilEnd(k, rest, s.current)
    ensures var r := Run(Step(s, ReadCall), es);
      var k := Step(r, Keyboard(len));
      && Asleep(r, s.current, 0) && Entry(k, s.current).status == Ready
      && Run(k, rest).cpu == s.cpu.(eax := len)
  {
    hide Step, Find, Asleep, Undisturbed;
    StepKeeps(s, ReadCall);
    ReadMeans(s);
    var s1 := Step(s, ReadCall);
    BlockedKeepsRegisters(s1, es, s.current);
    var r := Run(s1, es);
    AsleepIs(r, s.current);
    KeyMeans(r, len);
    StepKeeps(r, Keyboard(len));
    CurrentIsOld(s);
    var k := Step(r, Keyboard(len));
    NothingDelivered(k, rest, s.current, RegistersOf(k, s.current));
    AwayKeepsRegisters(k, rest, s.current);
  }

  // ----- Ctrl-C -----

  /** Ctrl-C makes the foreground process a zombie and takes its pending read away; without one it does
      nothing. */
  lemma InterruptMeans(s: Sched, p: nat)
    requires Inv(s) && Listed(s.queue, p)
    ensures var t := Step(s, Interrupt);
      && Listed(t.queue, p)
      && (s.foreground == 0 ==> t == s)
      && t.foreground == 0 && t.reader == (if s.reader == s.foreground then 0 else s.reader)
      && Entry(t, p) == (if p == s.foreground then Entry(s, p).(status := Zombie) else Entry(s, p))
      && t == s.(queue := t.queue, foreground := 0, reader := t.reader) && |t.queue| == |s.queue|
  {
    hide Find, Forest, PidsBelow;
    ListedIsPositive(s, p);
    SamePidsFind(s.queue, Sigint(s).queue, p);
    if s.foreground != p {
      FindOther(s.queue, p, s.foreground);
    }
  }

  // ----- the quantum -----

  /** Some sleep ends with this call. */
  predicate SomeoneWakes(q: seq<Pcb>) { exists i :: 0 <= i < |q| && q[i].status == Waiting && q[i].sleepTicks == 1 }

  /** update_scheduler lets the current process go on precisely when nobody's sleep ends, it is not the
      20th call since the process got the processor, and it is ready or running; whoever gets the
      processor else is running, with a new quantum. */
  lemma KeptExactlyWhen(s: Sched)
    requires Core(s)
    ensures var t, st := Update(s), Entry(s, s.current).status;
      && (t.quantum == 0 <==> !(!SomeoneWakes(s.queue) && s.quantum < 19 && (st == Ready || st == Running)))
      && (t.quantum != 0 ==> t.current == s.current && t.cpu == s.cpu && t.quantum == s.quantum + 1)
      && (t.quantum == 0 ==> Listed(t.queue, t.current) && Entry(t, t.current).status == Running)
  {
    hide Find, Switch, Forest, PidsBelow;
    AgeKeeps(s);
    AgedEntry(s, s.current);
    if Stays(s) {
    } else {
      SwitchKeeps(s);
      SelectedRuns(s);
    }
  }

  lemma SelectedRuns(s: Sched)
    requires Core(s)
    ensures Listed(Switch(s).queue, Switch(s).current) && Entry(Switch(s), Switch(s).current).status == Running
  {
    hide Find, GiveUp, Forest, PidsBelow;
    SelectedDoesNotWait(s);
    SwitchKeeps(s);
    GiveUpKeeps(s);
    SamePidsFind(s.queue, GiveUp(s).queue, Switch(s).current);
    SwitchEntry(s, Switch(s).current);
  }

  /** While nobody sleeps, a process that does not block has the processor for 19 ticks, and the 20th
      takes it away from any but idle. */
  lemma TwentyTicks(s: Sched)
    requires Inv(s) && Quiet(s) && s.quantum == 0
    ensures Run(s, seq(19, _ => Tick)) == s.(quantum := 19)
    ensures var t := Run(s, seq(20, _ => Tick)); t.quantum == 0 && (s.current != 1 ==> t.current != s.current)
  {
    hide Step;
    QuietTicks(s, 19);
    assert seq(19, _ => Tick) == Ticks(19);
    assert seq(20, _ => Tick) == seq(19, _ => Tick) + [Tick];
    RunConcat(s, seq(19, _ => Tick), [Tick]);
    assert [Tick][1..] == [];
    LastOfTwenty(s.(quantum := 19));
  }

  lemma LastOfTwenty(s: Sched)
    requires Core(s) && s.quantum == 19 && Quiet(s)
    ensures Step(s, Tick).quantum == 0 && (s.current != 1 ==> Step(s, Tick).current != s.current)
  {
    hide Find, Switch, Forest, PidsBelow;
    KeptExactlyWhen(s);
    GivesUp(s);
  }

  lemma GivesUp(s: Sched)
    requires Core(s) && !Stays(s) && CurrentStatus(Age(s)) != Zombie
    ensures s.current != 1 ==> Update(s).current != s.current
  {
    hide Find, Resume, GiveUp, Forest, PidsBelow;
    GiveUpKeeps(s);
    NextKeeps(GiveUp(s));
    ResumeKeeps(Next(GiveUp(s)));
  }

  /** From boot on nothing is in the foreground, so that Ctrl-C does nothing; and init has the processor
      for its full 19 ticks before idle has it. */
  lemma FirstQuantum(init: Pcb, idle: Pcb)
    ensures var b := Booted(init, idle);
      && Step(b, Interrupt) == b
      && Run(b, seq(19, _ => Tick)).current == 2 && Run(b, seq(20, _ => Tick)).current == 1
  {
    var b := Booted(init, idle);
    BootIsQuiet(init, idle);
    hide Step, Run, Quiet, Inv, Booted;
    TwentyTicks(b);
    assert seq(20, _ => Tick) == seq(19, _ => Tick) + [Tick];
    RunConcat(b, seq(19, _ => Tick), [Tick]);
    OneStep(b.(quantum := 19), Tick);
    IdleFollows(init, idle);
  }

  lemma OneStep(s: Sched, e: Event)
    ensures Run(s, [e]) == Step(s, e)
  {
    hide Step;
    assert [e][1..] == [];
  }

  lemma BootIsQuiet(init: Pcb, idle: Pcb)
    ensures var b := Booted(init, idle);
      Inv(b) && Quiet(b) && b.quantum == 0 && b.current == 2 && Step(b, Interrupt) == b
  {
    BootedIs(init, idle);
  }

  lemma IdleFollows(init: Pcb, idle: Pcb)
    ensures Step(Booted(init, idle).(quantum := 19), Tick).current == 1
  {
    var s := Booted(init, idle).(quantum := 19);
    BootIsQuiet(init, idle);
    var d := DecrementAll(s.queue);
    assert CurrentStatus(Age(s)) == Running && !Stays(s);
    SwitchToNext(s, d, 0, 1);
  }
}
