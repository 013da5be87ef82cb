/** Who wakes whom: a sleeper wakes after exactly the calls of update_scheduler it asked for, and
    an exiting process wakes the first process that waits for it. */
module Waking {
  import opened Scheduling
  import opened ProcessTable
  import opened SchedulerRuns
  import opened Fairness

  function Entry(s: Sched, t: nat): Pcb
    requires Listed(s.queue, t)
  {
    s.queue[Find(s.queue, t)]
  }

  /** The switch itself changes no status but that of the process it selects, and no awaited pid but
      that of one that waits for the process giving up. */
  lemma SwitchEntry(s: Sched, t: nat)
    requires Core(s) && Listed(s.queue, t) && Listed(Switch(s).queue, t)
    ensures Listed(GiveUp(s).queue, t)
    ensures var p, q := Entry(GiveUp(s), t), Entry(Switch(s), t);
      && q.sleepTicks == p.sleepTicks && (q.status == if t == Switch(s).current then Running else p.status)
      && (p.waitingPid != s.current || Listed(Switch(s).queue, s.current) ==> q.waitingPid == p.waitingPid)
  {
    hide Find, Forest, PidsBelow, Resume, Remove, GiveUp, Next, CurrentStatus, Age;
    GiveUpKeeps(s);
    SamePidsFind(s.queue, GiveUp(s).queue, t);
    var n := Next(GiveUp(s));
    NextKeeps(GiveUp(s));
    if CurrentStatus(Age(s)) == Zombie && !Protected(s.current) {
      ExitingIsUnlinked(s);
      RemoveKeepsOthers(n, s.current, t);
      ResumeEntry(Remove(n, s.current), t);
    } else {
      RemoveProtected(n, s.current);
      ResumeEntry(n, t);
    }
  }

  lemma ResumeEntry(s: Sched, t: nat)
    requires Core(s)
    ensures Resume(s).current == s.current && (Listed(Resume(s).queue, t) <==> Listed(s.queue, t))
    ensures Listed(s.queue, t) ==>
      Entry(Resume(s), t) == if t == s.current then Entry(s, t).(status := Running) else Entry(s, t)
  {
    hide Find, Forest, PidsBelow;
    ResumeKeeps(s);
    SamePidsFind(s.queue, Resume(s).queue, t);
  }

  /** The current process exits, and `t` is the first that waits for it. */
  predicate ExitWakes(s: Sched, t: nat) {
    CurrentStatus(s) == Zombie && Find(s.queue, t) == FindWaiter(s.queue, s.current) < |s.queue|
  }

  lemma {:induction false} AgeKeepsWaiters(q: seq<Pcb>, pid: nat)
    ensures FindWaiter(DecrementAll(q), pid) == FindWaiter(q, pid)
  {
    var w, d := FindWaiter(q, pid), FindWaiter(DecrementAll(q), pid);
    assert w < |q| ==> DecrementAll(q)[w].waitingPid == q[w].waitingPid;
    assert d < |q| ==> DecrementAll(q)[d].waitingPid == q[d].waitingPid;
  }

  /** What happens to a process before the switch. */
  lemma GiveUpEntry(s: Sched, t: nat)
    requires Core(s) && Listed(s.queue, t)
    ensures Listed(GiveUp(s).queue, t)
    ensures var p, d := Entry(GiveUp(s), t), Decremented(Entry(s, t));
      && p.sleepTicks == d.sleepTicks && p.waitingPid == d.waitingPid
      && p.status == if ExitWakes(s, t) then Ready else d.status
  {
    hide Find, FindWaiter, Forest, PidsBelow, DecrementAll;
    GiveUpKeeps(s);
    AgeKeeps(s);
    AgeKeepsWaiters(s.queue, s.current);
    SamePidsFind(s.queue, Age(s).queue, t);
    SamePidsFind(s.queue, GiveUp(s).queue, t);
    SamePidsFind(s.queue, Age(s).queue, s.current);
  }

  /** The exit of a process makes the first process that waits for it ready or running. */
  lemma ExitWakesItsWaiter(s: Sched, t: nat)
    requires Core(s) && ExitWakes(s, t) && Listed(s.queue, t) && Listed(Switch(s).queue, t)
    ensures Update(s) == Switch(s) && (Entry(Update(s), t).status == Ready || Entry(Update(s), t).status == Running)
  {
    hide Find, FindWaiter, Switch, GiveUp;
    AgeKeeps(s);
    GiveUpEntry(s, t);
    SwitchEntry(s, t);
  }

  /** Only the zombie that gives up the processor is taken out, unless it is idle or init. */
  lemma SwitchLists(s: Sched, t: nat)
    requires Core(s)
    ensures Listed(Switch(s).queue, t) <==>
      Listed(s.queue, t) && !(t == s.current && CurrentStatus(Age(s)) == Zombie && !Protected(t))
  {
    hide Find, Forest, PidsBelow, Resume, Remove, GiveUp, Next, CurrentStatus, Age;
    GiveUpKeeps(s);
    SamePidsFind(s.queue, GiveUp(s).queue, t);
    var n := Next(GiveUp(s));
    NextKeeps(GiveUp(s));
    if CurrentStatus(Age(s)) == Zombie && !Protected(s.current) {
      ExitingIsUnlinked(s);
      RemoveKeepsOthers(n, s.current, t);
      ResumeEntry(Remove(n, s.current), t);
    } else {
      RemoveProtected(n, s.current);
      ResumeEntry(n, t);
    }
  }

  /** `t` waits, and has `n` more calls of update_scheduler to sleep; with none it waits for another
      event only. */
  predicate Sleeps(s: Sched, t: nat, n: nat) {
    Listed(s.queue, t) && Entry(s, t).status == Waiting && Entry(s, t).sleepTicks == n
  }

  /** What is left of a sleep after so many calls; a process that does not sleep has none left. */
  function Left(n: nat, calls: nat): nat { if n < calls then 0 else n - calls }

  /** One call of update_scheduler brings a sleeper one tick nearer to its end, and wakes it with
      the last one; else a process that waits wakes if and only if the one it waits for exits. */
  lemma SleeperAges(s: Sched, t: nat, n: nat)
    requires Core(s) && Sleeps(s, t, n)
    ensures Listed(Update(s).queue, t)
    ensures n == 1 ==> Entry(Update(s), t).status != Waiting
    ensures n != 1 ==> (Sleeps(Update(s), t, Left(n, 1)) <==> !ExitWakes(s, t))
    ensures Entry(Update(s), t).status == Waiting ==> Update(s).current != t
  {
    hide Find, Switch, GiveUp, Forest, PidsBelow, FindWaiter;
    AgedEntry(s, t);
    if Stays(s) {
      AgeKeeps(s);
    } else {
      SwitchAges(s, t, n);
    }
  }

  lemma SwitchAges(s: Sched, t: nat, n: nat)
    requires Core(s) && Sleeps(s, t, n)
    ensures Listed(Switch(s).queue, t)
    ensures n == 1 ==> Entry(Switch(s), t).status != Waiting
    ensures n != 1 ==> (Sleeps(Switch(s), t, Left(n, 1)) <==> !ExitWakes(s, t))
    ensures Entry(Switch(s), t).status == Waiting ==> Switch(s).current != t
  {
    hide Find, Switch, GiveUp, Core, FindWaiter, Age, CurrentStatus, ExitWakes;
    AgedEntry(s, t);
    GiveUpEntry(s, t);
    SwitchLists(s, t);
    SwitchEntry(s, t);
    SelectedDoesNotWait(s);
  }

  lemma AgedEntry(s: Sched, t: nat)
    requires Core(s) && Listed(s.queue, t)
    ensures Listed(Age(s).queue, t) && Entry(Age(s), t) == Decremented(Entry(s, t))
    ensures t == s.current ==> CurrentStatus(Age(s)) == Entry(Age(s), t).status
  {
    hide Find;
    SamePidsFind(s.queue, Age(s).queue, t);
  }

  /** The process that a switch selects was not waiting. */
  lemma SelectedDoesNotWait(s: Sched)
    requires Core(s)
    ensures Listed(GiveUp(s).queue, Switch(s).current) && Entry(GiveUp(s), Switch(s).current).status != Waiting
  {
    hide Find, Forest, PidsBelow, Resume, Remove, GiveUp, CurrentStatus, Age;
    GiveUpKeeps(s);
    var n := Next(GiveUp(s));
    NextKeeps(GiveUp(s));
    NextEntry(GiveUp(s));
    if CurrentStatus(Age(s)) == Zombie && !Protected(s.current) {
      ExitingIsUnlinked(s);
      RemoveKeeps(n, s.current);
      ResumeEntry(Remove(n, s.current), n.current);
    } else {
      RemoveProtected(n, s.current);
      ResumeEntry(n, n.current);
    }
  }

  lemma NextEntry(s: Sched)
    requires Core(s)
    ensures Listed(s.queue, Next(s).current) && Entry(s, Next(s).current).status != Waiting
  {
    NextKeeps(s);
  }

  // ----- sleeping over runs -----

  /** Event `e` takes the sleeper `t` out of its sleep: it is killed or interrupted, its pending
      read completes, or the process it waits for exits. */
  predicate Disturbs(s: Sched, e: Event, t: nat) {
    || (e.KillCall? && e.pid == t && !Protected(t))
    || (e.Interrupt? && s.foreground == t)
    || (e.Keyboard? && s.reader == t && CurrentStatus(s) != Zombie)
    || (CallsUpdate(e) && ExitWakes(BeforeUpdate(s, e), t))
  }

  /** `t` waits and another process has the processor. */
  predicate Asleep(s: Sched, t: nat, n: nat) { Sleeps(s, t, n) && s.current != t }

  /** One event: a process that waits, whether it sleeps or not, waits on, by one call nearer to the
      end of its sleep if update_scheduler is called, if and only if the event does not disturb it;
      and the last call of its sleep wakes it. */
  lemma SleeperSteps(s: Sched, e: Event, t: nat, n: nat)
    requires Inv(s) && Allowed(s, e) && Asleep(s, t, n)
    ensures !(n == 1 && CallsUpdate(e)) ==> (Asleep(Step(s, e), t, Left(n, Counts(e))) <==> !Disturbs(s, e, t))
    ensures n == 1 && CallsUpdate(e) ==> Listed(Step(s, e).queue, t) && Entry(Step(s, e), t).status != Waiting
  {
    hide Find, Update, BeforeUpdate, Remove, Forest, PidsBelow, Distinct, ExitWakes;
    if CallsUpdate(e) {
      HandlerSleeper(s, e, t, n);
    } else {
      match e
      case Execute(regs) =>
      case ForkCall(b, k, d) => AddFind(s, b, NewProcess(s, s.current, s.cpu.(eax := 0), k, d), t);
      case Launch(regs, b, k, d) => AddFind(s, b, NewProcess(s, 0, regs, k, d), t);
      case KillCall(pid) => KillSleeper(s, pid, t, n);
      case SleepCall(ticks) =>
      case Keyboard(len) => KeyboardSleeper(s, len, t, n);
      case Interrupt => InterruptSleeper(s, t, n);
    }
  }

  lemma HandlerSleeper(s: Sched, e: Event, t: nat, n: nat)
    requires Inv(s) && Allowed(s, e) && Asleep(s, t, n) && CallsUpdate(e)
    ensures n != 1 ==> (Asleep(Step(s, e), t, Left(n, 1)) <==> !ExitWakes(BeforeUpdate(s, e), t))
    ensures n == 1 ==> Listed(Step(s, e).queue, t) && Entry(Step(s, e), t).status != Waiting
  {
    hide Find, Update, BeforeUpdate, Step, Forest, PidsBelow, Distinct, ExitWakes;
    HandlersChangeCurrentOnly(s, e);
    var s1 := BeforeUpdate(s, e);
    SamePidsFind(s.queue, s1.queue, t);
    assert s.queue[Find(s.queue, t)].pid == t;
    assert s.queue[Find(s.queue, s.current)].pid == s.current;
    SleeperAges(s1, t, n);
  }

  lemma KillSleeper(s: Sched, pid: nat, t: nat, n: nat)
    requires Inv(s) && pid >= 1 && Asleep(s, t, n)
    ensures Asleep(Kill(s, pid), t, n) <==> !(pid == t && !Protected(t))
  {
    hide Find, Forest, PidsBelow, Reparent, Unlink, Distinct;
    if pid == s.current && !Protected(pid) {
      SamePidsFind(s.queue, Remove(s, pid).queue, t);
    } else if !Protected(pid) && Listed(s.queue, pid) {
      RemoveKeepsOthers(s, pid, t);
    } else if !Protected(pid) {
      RemoveAbsent(s, pid);
    }
  }

  lemma KeyboardSleeper(s: Sched, len: nat, t: nat, n: nat)
    requires Inv(s) && Asleep(s, t, n)
    ensures Asleep(WakeReader(s, len), t, n) <==> !(s.reader == t && CurrentStatus(s) != Zombie)
  {
    hide Find, Forest;
    assert t >= 1 by { assert s.queue[Find(s.queue, t)].pid == t; }
    if s.reader != 0 && CurrentStatus(s) != Zombie {
      var q := SetRegs(s.queue, s.current, s.cpu);
      SamePidsFind(s.queue, q, s.reader);
      SamePidsFind(s.queue, q, s.current);
      SamePidsFind(s.queue, WakeReader(s, len).queue, t);
    }
  }

  lemma InterruptSleeper(s: Sched, t: nat, n: nat)
    requires Inv(s) && Asleep(s, t, n)
    ensures Asleep(Sigint(s), t, n) <==> s.foreground != t
  {
    hide Forest;
    assert t >= 1 by { assert s.queue[Find(s.queue, t)].pid == t; }
    SamePidsFind(s.queue, Sigint(s).queue, t);
  }

  predicate Undisturbed(s: Sched, es: seq<Event>, t: nat)
    decreases |es|
  {
    es == [] || (!Disturbs(s, es[0], t) && Undisturbed(Step(s, es[0]), es[1..], t))
  }

  lemma {:induction false} SleepsOn(s: Sched, es: seq<Event>, t: nat, n: nat)
    requires Inv(s) && AllAllowed(s, es) && Asleep(s, t, n) && Calls(es) < n && Undisturbed(s, es, t)
    ensures Inv(Run(s, es)) && Asleep(Run(s, es), t, n - Calls(es))
    decreases |es|
  {
    hide Step, Find, Asleep, Disturbs;
    if es != [] {
      StepKeeps(s, es[0]);
      SleeperSteps(s, es[0], t, n);
      SleepsOn(Step(s, es[0]), es[1..], t, n - Counts(es[0]));
    }
  }

  /** A process that calls sleep(n) is out of the processor and waits during every run that it is
      not disturbed in, until update_scheduler has been called n times, counting the call made by
      the sleep itself; the n-th call, whichever event makes it, ends its wait. */
  lemma SleepsExactly(s: Sched, n: nat, es: seq<Event>, e: Event)
    requires Inv(s) && AllAllowed(s, [SleepCall(n)] + es) && CurrentStatus(s) != Zombie && 1 + Calls(es) < n
    requires var s1 := Step(s, SleepCall(n)); Undisturbed(s1, es, s.current) && Allowed(Run(s1, es), e)
    ensures var r := Run(s, [SleepCall(n)] + es);
      && Asleep(r, s.current, n - 1 - Calls(es))
      && (CallsUpdate(e) && Calls(es) == n - 2 ==>
            Listed(Step(r, e).queue, s.current) && Entry(Step(r, e), s.current).status != Waiting)
  {
    hide Step, Find, Asleep, Disturbs;
    assert ([SleepCall(n)] + es)[1..] == es;
    var s1 := Step(s, SleepCall(n));
    StepKeeps(s, SleepCall(n));
    SleepStarts(s, n);
    SleepsOn(s1, es, s.current, n - 1);
    SleeperSteps(Run(s1, es), e, s.current, n - 1 - Calls(es));
  }

  /** The call of sleep itself. A sleep of one tick is over at once. */
  lemma SleepStarts(s: Sched, n: nat)
    requires Inv(s) && Allowed(s, SleepCall(n)) && CurrentStatus(s) != Zombie && n > 0
    ensures n > 1 ==> Asleep(Step(s, SleepCall(n)), s.current, n - 1)
    ensures n == 1 ==>
      Listed(Step(s, SleepCall(n)).queue, s.current) && Entry(Step(s, SleepCall(n)), s.current).status != Waiting
  {
    hide Find, Update, Forest, PidsBelow;
    HandlersChangeCurrentOnly(s, SleepCall(n));
    var s1 := StartSleep(s, n);
    SamePidsFind(s.queue, s1.queue, s.current);
    SleeperAges(s1, s.current, n);
  }

  /** A sleep of no ticks changes nothing; a longer one than a tick puts exactly the processes other
      than the idle one to sleep. */
  lemma SleepsExactlyWhen(s: Sched, n: nat)
    requires Inv(s) && CurrentStatus(s) != Zombie
    ensures n == 0 ==> Step(s, SleepCall(n)) == s
    ensures n > 1 ==> (Asleep(Step(s, SleepCall(n)), s.current, n - 1) <==> s.current != 1)
  {
    hide Find, Update, Forest, PidsBelow;
    if s.current != 1 && n > 1 {
      SleepStarts(s, n);
    }
  }
}
