/** Which exiting processes really leave: a switch unlinks the zombie that gives up the processor
    and no other, so that one made by Ctrl-C while it is off the processor can be revived. */
module Zombies {
  import opened Scheduling
  import opened ProcessTable
  import opened SchedulerRuns
  import opened ContextSwitch
  import opened Waking

  /** A listed zombie that scheduler_remove would unlink. */
  predicate Doomed(s: Sched, t: nat) {
    Listed(s.queue, t) && !Protected(t) && Entry(s, t).status == Zombie
  }

  /** A switch unlinks a zombie of pid 3 or more if and only if it is the current process. Any
      other stays in the list, and if it is the process selected it runs again. */
  lemma UnlinkedExactlyWhenCurrent(s: Sched, t: nat)
    requires Core(s) && Doomed(s, t)
    ensures !Listed(Switch(s).queue, t) <==> t == s.current
    ensures t != s.current ==>
      Entry(Switch(s), t).status ==
        if t == Switch(s).current then Running else if ExitWakes(s, t) then Ready else Zombie
  {
    hide Find, Switch, GiveUp, Forest, PidsBelow, FindWaiter, Next;
    AgeKeeps(s);
    SwitchLists(s, t);
    if t != s.current {
      GiveUpEntry(s, t);
      SwitchEntry(s, t);
    }
  }

  // ----- when no zombie is revived -----

  /** The only zombie of pid 3 or more is the process that is about to give up the processor. */
  ghost predicate OnlyCurrentDoomed(s: Sched) { forall t :: Doomed(s, t) ==> t == s.current }

  /** Ctrl-C hits a process of pid 3 or more that is not the one running. */
  predicate InterruptsAnother(s: Sched, e: Event) {
    e.Interrupt? && Listed(s.queue, s.foreground) && !Protected(s.foreground) && s.foreground != s.current
  }

  /** Exactly the events that keep zombies from being anywhere but on the processor. */
  lemma StepKeepsOnlyCurrentDoomed(s: Sched, e: Event)
    requires Inv(s) && Allowed(s, e) && OnlyCurrentDoomed(s)
    ensures OnlyCurrentDoomed(Step(s, e)) <==> !InterruptsAnother(s, e)
  {
    if InterruptsAnother(s, e) {
      InterruptDooms(s, s.foreground);
    } else {
      hide Step, Doomed;
      forall t
        ensures Doomed(Step(s, e), t) ==> t == Step(s, e).current
      {
        StepDooms(s, e, t);
      }
    }
  }

  lemma InterruptDooms(s: Sched, t: nat)
    requires Inv(s)
    ensures Doomed(Sigint(s), t) <==> Doomed(s, t) || (t == s.foreground && Listed(s.queue, t) && !Protected(t))
  {
    hide Forest;
    assert Listed(s.queue, t) ==> t >= 1 by { assert Listed(s.queue, t) ==> s.queue[Find(s.queue, t)].pid == t; }
    SamePidsFind(s.queue, Sigint(s).queue, t);
  }

  lemma StepDooms(s: Sched, e: Event, t: nat)
    requires Inv(s) && Allowed(s, e) && OnlyCurrentDoomed(s) && !InterruptsAnother(s, e)
    ensures Doomed(Step(s, e), t) ==> t == Step(s, e).current
  {
    hide Find, Update, BeforeUpdate, Remove, WakeReader, Forest, PidsBelow, Distinct, Doomed;
    if CallsUpdate(e) {
      HandlerDooms(s, e, t);
    } else {
      match e
      case Execute(regs) => SameEntries(s, Step(s, e), t);
      case ForkCall(b, k, d) => AddDooms(s, Step(s, e), b, NewProcess(s, s.current, s.cpu.(eax := 0), k, d), t);
      case Launch(regs, b, k, d) => AddDooms(s, Step(s, e), b, NewProcess(s, 0, regs, k, d), t);
      case KillCall(pid) =>
        KillDooms(s, pid, t);
        SameEntries(Remove(s, pid), Step(s, e), t);
      case SleepCall(ticks) =>
      case Keyboard(len) => KeyboardDooms(s, len, t);
      case Interrupt => InterruptDooms(s, t);
    }
  }

  lemma SameEntries(s: Sched, s': Sched, t: nat)
    requires s'.queue == s.queue
    ensures Doomed(s', t) <==> Doomed(s, t)
  {
  }

  /** A switch leaves no such zombie at all. */
  lemma SwitchLeavesNoZombie(s: Sched, t: nat)
    requires Core(s) && OnlyCurrentDoomed(s)
    ensures !Doomed(Switch(s), t)
  {
    hide Find, Switch, GiveUp, Core, FindWaiter, Age;
    SwitchLists(s, t);
    if Listed(Switch(s).queue, t) {
      if Doomed(s, t) {
        UnlinkedExactlyWhenCurrent(s, t);
      } else {
        GiveUpEntry(s, t);
        SwitchEntry(s, t);
      }
    }
  }

  lemma StayingLeavesNoZombie(s: Sched, t: nat)
    requires Core(s) && OnlyCurrentDoomed(s) && Stays(s)
    ensures !Doomed(Age(s), t)
  {
    hide Find, DecrementAll, Forest, PidsBelow;
    SamePidsFind(s.queue, Age(s).queue, t);
    if Listed(s.queue, t) {
      AgedEntry(s, t);
      assert Doomed(Age(s), t) ==> Doomed(s, t);
    }
  }

  lemma UpdateLeavesNoZombie(s: Sched, t: nat)
    requires Core(s) && OnlyCurrentDoomed(s)
    ensures !Doomed(Update(s), t)
  {
    hide Switch, Core, Age, Stays, OnlyCurrentDoomed, Doomed;
    if Stays(s) {
      StayingLeavesNoZombie(s, t);
    } else {
      SwitchLeavesNoZombie(s, t);
    }
  }

  /** Before update_scheduler is called, only the current process can become such a zombie. */
  lemma HandlersDoomCurrent(s: Sched, e: Event, t: nat)
    requires Inv(s) && Allowed(s, e) && CallsUpdate(e)
    ensures var s1 := BeforeUpdate(s, e);
      s1.current == s.current && Core(s1) && Step(s, e) == Update(s1)
    ensures Doomed(BeforeUpdate(s, e), t) ==> t == s.current || Doomed(s, t)
  {
    hide Find, Update, BeforeUpdate, Step, Forest, PidsBelow, Distinct;
    HandlersChangeCurrentOnly(s, e);
    SamePidsFind(s.queue, BeforeUpdate(s, e).queue, t);
    if Listed(s.queue, t) && t != s.current {
      FindOther(s.queue, t, s.current);
    }
  }

  lemma HandlerDooms(s: Sched, e: Event, t: nat)
    requires Inv(s) && Allowed(s, e) && CallsUpdate(e) && OnlyCurrentDoomed(s)
    ensures OnlyCurrentDoomed(BeforeUpdate(s, e)) && !Doomed(Step(s, e), t)
  {
    hide Core, Update, BeforeUpdate, Step, Doomed;
    forall x
      ensures Doomed(BeforeUpdate(s, e), x) ==> x == BeforeUpdate(s, e).current
    {
      HandlersDoomCurrent(s, e, x);
    }
    HandlersDoomCurrent(s, e, t);
    UpdateLeavesNoZombie(BeforeUpdate(s, e), t);
  }

  lemma AddDooms(s: Sched, s': Sched, block: nat, p: Pcb, t: nat)
    requires Inv(s) && s'.queue == AddProcess(s, block, p).queue && p.status == Ready
    ensures Doomed(s', t) ==> Doomed(s, t)
  {
    var i := Find(s'.queue, t);
    if i < |s.queue| {
      assert s.queue[i] == s'.queue[i];
      FindIsIndex(s.queue, i);
    }
  }

  lemma KillDooms(s: Sched, pid: nat, t: nat)
    requires Inv(s) && pid >= 1
    ensures Remove(s, pid).current == s.current && (Doomed(Remove(s, pid), t) ==> t == s.current || Doomed(s, t))
  {
    hide Find, Forest, PidsBelow, Reparent, Unlink, Distinct;
    if pid == s.current && !Protected(pid) {
      SamePidsFind(s.queue, Remove(s, pid).queue, t);
      if Listed(s.queue, t) && t != s.current {
        FindOther(s.queue, t, s.current);
      }
    } else if !Protected(pid) && Listed(s.queue, pid) {
      RemoveKeepsOthers(s, pid, t);
    } else if !Protected(pid) {
      RemoveAbsent(s, pid);
    }
  }

  lemma KeyboardDooms(s: Sched, len: nat, t: nat)
    requires Inv(s)
    ensures WakeReader(s, len).current == s.current && (Doomed(WakeReader(s, len), t) ==> Doomed(s, t))
  {
    hide Find, Forest, PidsBelow;
    if s.reader != 0 && CurrentStatus(s) != Zombie {
      var q := SetRegs(s.queue, s.current, s.cpu);
      SamePidsFind(s.queue, q, s.reader);
      SamePidsFind(s.queue, q, s.current);
      SamePidsFind(s.queue, WakeReader(s, len).queue, t);
    }
  }

  /** Some Ctrl-C of the run hits a process of pid 3 or more that is not the one running. */
  predicate EverInterruptsAnother(s: Sched, es: seq<Event>)
    decreases |es|
  {
    es != [] && (InterruptsAnother(s, es[0]) || EverInterruptsAnother(Step(s, es[0]), es[1..]))
  }

  /** In every state of the run the only zombie of pid 3 or more is current. */
  ghost predicate AlwaysOnlyCurrentDoomed(s: Sched, es: seq<Event>)
    decreases |es|
  {
    OnlyCurrentDoomed(s) && (es == [] || AlwaysOnlyCurrentDoomed(Step(s, es[0]), es[1..]))
  }

  lemma {:induction false} RunKeepsOnlyCurrentDoomed(s: Sched, es: seq<Event>)
    requires Inv(s) && AllAllowed(s, es) && OnlyCurrentDoomed(s)
    ensures AlwaysOnlyCurrentDoomed(s, es) <==> !EverInterruptsAnother(s, es)
    ensures AlwaysOnlyCurrentDoomed(s, es) ==> OnlyCurrentDoomed(Run(s, es))
    decreases |es|
  {
    hide Step, OnlyCurrentDoomed, InterruptsAnother;
    if es != [] {
      StepKeeps(s, es[0]);
      StepKeepsOnlyCurrentDoomed(s, es[0]);
      if OnlyCurrentDoomed(Step(s, es[0])) {
        RunKeepsOnlyCurrentDoomed(Step(s, es[0]), es[1..]);
      }
    }
  }

  /** Over every run without such a Ctrl-C a process of pid 3 or more that exits, is killed or is
      interrupted is current from then on, and the next call of update_scheduler unlinks it
      without having selected it. */
  lemma ExitingNeverRunsAgain(init: Pcb, idle: Pcb, es: seq<Event>, e: Event)
    requires AllAllowed(Booted(init, idle), es) && !EverInterruptsAnother(Booted(init, idle), es)
    requires Allowed(Run(Booted(init, idle), es), e) && CallsUpdate(e)
    ensures var s := Run(Booted(init, idle), es);
      && OnlyCurrentDoomed(s)
      && (forall t :: Doomed(BeforeUpdate(s, e), t) ==> Step(s, e).current != t && !Listed(Step(s, e).queue, t))
  {
    var b := Booted(init, idle);
    BootedKeeps(init, idle);
    RunKeeps(b, es);
    RunKeepsOnlyCurrentDoomed(b, es);
    var s := Run(b, es);
    forall t | Doomed(BeforeUpdate(s, e), t)
      ensures Step(s, e).current != t && !Listed(Step(s, e).queue, t)
    {
      DoomedIsUnlinked(s, e, t);
    }
  }

  lemma DoomedIsUnlinked(s: Sched, e: Event, t: nat)
    requires Inv(s) && Allowed(s, e) && CallsUpdate(e) && OnlyCurrentDoomed(s) && Doomed(BeforeUpdate(s, e), t)
    ensures Step(s, e).current != t && !Listed(Step(s, e).queue, t)
  {
    hide Find, Switch, BeforeUpdate, Step, Forest, PidsBelow, Distinct;
    HandlerDooms(s, e, t);
    HandlersDoomCurrent(s, e, t);
    AgeKeeps(BeforeUpdate(s, e));
    ExitingIsUnlinked(BeforeUpdate(s, e));
  }

  lemma BootedKeeps(init: Pcb, idle: Pcb)
    ensures Inv(Booted(init, idle)) && OnlyCurrentDoomed(Booted(init, idle))
  {
    var b := Booted(init, idle);
    assert b.queue[0].pid == INIT && b.queue[1].pid == IDLE;
  }

  // ----- how one is revived -----

  function Ticks(n: nat): seq<Event> { seq(n, _ => Tick) }

  /** Nobody sleeps, and the current process can stay. */
  predicate Quiet(s: Sched) {
    && (forall i :: 0 <= i < |s.queue| ==> s.queue[i].sleepTicks == 0)
    && (CurrentStatus(s) == Ready || CurrentStatus(s) == Running)
  }

  lemma NobodyAges(q: seq<Pcb>)
    requires forall i :: 0 <= i < |q| ==> q[i].sleepTicks == 0
    ensures DecrementAll(q) == q
  {
  }

  /** The ticks of one quantum change nothing but the quantum counter. */
  lemma {:induction false} QuietTicks(s: Sched, n: nat)
    requires Quiet(s) && s.quantum + n < QUANTUM
    ensures Run(s, Ticks(n)) == s.(quantum := s.quantum + n)
    decreases n
  {
    if n > 0 {
      NobodyAges(s.queue);
      assert Step(s, Tick) == s.(quantum := s.quantum + 1);
      assert Ticks(n)[1..] == Ticks(n - 1);
      QuietTicks(s.(quantum := s.quantum + 1), n - 1);
    }
  }

  lemma {:induction false} RunConcat(s: Sched, a: seq<Event>, b: seq<Event>)
    ensures Run(s, a + b) == Run(Run(s, a), b)
    decreases |a|
  {
    if a == [] {
      assert a + b == b;
    } else {
      assert (a + b)[1..] == a[1..] + b;
      RunConcat(Step(s, a[0]), a[1..], b);
    }
  }

  /** init has forked and waits for its child; idle runs. */
  lemma ForkAndWait(init: Pcb, idle: Pcb)
    ensures var s := Step(Step(Booted(init, idle), ForkCall(4096, 0, 0)), WaitCall(3));
      && Row(s.queue) && Quiet(s) && s.current == IDLE && s.foreground == 3 && s.quantum == 0
      && s.queue[1].status == Running && s.queue[2].status == Ready && s.size == 3
  {
    hide Find, Update, BeforeUpdate, StartWait, Row, Quiet;
    var s := Step(Booted(init, idle), ForkCall(4096, 0, 0));
    Forked(init, idle);
    WaitInRow(s);
  }

  lemma Forked(init: Pcb, idle: Pcb)
    ensures var s := Step(Booted(init, idle), ForkCall(4096, 0, 0));
      && Row(s.queue) && s.current == INIT && s.size == 3 && s.queue[0].status == Running
      && s.queue[1].status == s.queue[2].status == Ready
      && (forall i :: 0 <= i < 3 ==> s.queue[i].sleepTicks == 0)
  {
    hide Find, Update;
    FindIsIndex(Booted(init, idle).queue, 0);
  }

  lemma WaitInRow(s: Sched)
    requires Row(s.queue) && s.current == INIT && s.size == 3 && s.queue[0].status == Running
    requires s.queue[1].status == s.queue[2].status == Ready
    requires forall i :: 0 <= i < 3 ==> s.queue[i].sleepTicks == 0
    ensures var s' := Step(s, WaitCall(3));
      && Row(s'.queue) && Quiet(s') && s'.current == IDLE && s'.foreground == 3 && s'.quantum == 0
      && s'.queue[1].status == Running && s'.queue[2].status == Ready && s'.size == 3
  {
    hide Find, Update;
    StartWaitIs(s, 0, 3);
    var a := StartWait(s, 3);
    NobodyAges(a.queue);
    var d := DecrementAll(a.queue);
    WaitingGivesUp(a, d, 0);
    SwitchToNext(a, d, 0, 1);
    FindIsIndex(Update(a).queue, 1);
  }

  /** Ctrl-C marks the child as a zombie while idle runs. */
  lemma InterruptChild(s: Sched)
    requires Row(s.queue) && Quiet(s) && s.current == IDLE && s.foreground == 3
    ensures var s' := Step(s, Interrupt);
      && Row(s'.queue) && Quiet(s') && s'.current == IDLE && s'.quantum == s.quantum
      && s'.queue == s.queue[2 := s.queue[2].(status := Zombie)] && Doomed(s', 3)
  {
    hide Find;
    FindIsIndex(s.queue, 1);
    FindIsIndex(s.queue, 2);
    FindIsIndex(s.queue[2 := s.queue[2].(status := Zombie)], 1);
    FindIsIndex(s.queue[2 := s.queue[2].(status := Zombie)], 2);
  }

  /** When the quantum of idle ends, the zombie is next in line and runs. */
  lemma LastTick(s: Sched)
    requires Row(s.queue) && Quiet(s) && s.current == IDLE && s.queue[2].status == Zombie && s.quantum == QUANTUM - 1
    ensures var s' := Step(s, Tick);
      s'.current == 3 && Listed(s'.queue, 3) && Entry(s', 3).status == Running
  {
    hide Find;
    NobodyAges(s.queue);
    FindIsIndex(s.queue, 1);
    SwitchToNext(s, s.queue, 1, 2);
    FindIsIndex(Step(s, Tick).queue, 2);
  }

  /** The exception is real: from boot, init forks and waits for its child, Ctrl-C interrupts the
      child while idle runs, and 20 ticks later the child runs on, no longer a zombie. */
  lemma InterruptedChildRunsAgain(init: Pcb, idle: Pcb)
    ensures var b := Booted(init, idle);
      var s := Run(b, [ForkCall(4096, 0, 0), WaitCall(3), Interrupt]);
      var s' := Run(b, [ForkCall(4096, 0, 0), WaitCall(3), Interrupt] + Ticks(20));
      && Doomed(s, 3) && s.current == IDLE
      && s'.current == 3 && Listed(s'.queue, 3) && Entry(s', 3).status == Running
  {
    hide Step, Find;
    var b := Booted(init, idle);
    var s := Step(Step(b, ForkCall(4096, 0, 0)), WaitCall(3));
    var s1 := Step(s, Interrupt);
    ForkAndWait(init, idle);
    InterruptChild(s);
    RunThree(b, ForkCall(4096, 0, 0), WaitCall(3), Interrupt);
    QuietTicks(s1, 19);
    var s2 := Run(s1, Ticks(19));
    LastTick(s2);
    assert Ticks(20) == Ticks(19) + [Tick];
    RunConcat(b, [ForkCall(4096, 0, 0), WaitCall(3), Interrupt], Ticks(20));
    RunConcat(s1, Ticks(19), [Tick]);
    RunConcat(s2, [Tick], []);
    RunOne(s2, Tick, []);
    assert [Tick] + [] == [Tick];
  }

  lemma RunThree(s: Sched, a: Event, b: Event, c: Event)
    ensures Run(s, [a, b, c]) == Step(Step(Step(s, a), b), c)
  {
    hide Step;
    RunOne(s, a, [b, c]);
    RunOne(Step(s, a), b, [c]);
    RunOne(Step(Step(s, a), b), c, []);
    assert [a] + [b, c] == [a, b, c] && [b] + [c] == [b, c] && [c] + [] == [c];
  }
}
