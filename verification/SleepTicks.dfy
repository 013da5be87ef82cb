/** The sleep counter of every process over runs, whatever its status is. */
module SleepTicks {
  import opened Scheduling
  import opened ProcessTable
  import opened SchedulerRuns
  import opened Fairness
  import opened Waking

  /** One call of update_scheduler takes one tick off every counter that is not 0. */
  lemma UpdateTicks(s: Sched, t: nat)
    requires Core(s) && Listed(s.queue, t) && Listed(Update(s).queue, t)
    ensures Entry(Update(s), t).sleepTicks == Left(Entry(s, t).sleepTicks, 1)
  {
    hide Find, Switch, GiveUp, Forest, PidsBelow, FindWaiter, ExitWakes;
    AgedEntry(s, t);
    if !Stays(s) {
      GiveUpEntry(s, t);
      SwitchEntry(s, t);
    }
  }

  /** No handler but that of sleep sets a counter. */
  lemma HandlerTicks(s: Sched, e: Event, t: nat)
    requires Inv(s) && Allowed(s, e) && CallsUpdate(e) && Listed(s.queue, t) && !(e.SleepCall? && t == s.current)
    ensures Listed(BeforeUpdate(s, e).queue, t)
    ensures Entry(BeforeUpdate(s, e), t).sleepTicks == Entry(s, t).sleepTicks
  {
    hide Find, Update, Forest, PidsBelow, Distinct, Reparent, Unlink;
    HandlersChangeCurrentOnly(s, e);
    SamePidsFind(s.queue, BeforeUpdate(s, e).queue, t);
    if t == s.current {
      var c := Find(s.queue, s.current);
      match e
      case WaitCall(pid) => SamePidsFind(s.queue, s.queue[c := s.queue[c].(waitingPid := pid)], t);
      case _ =>
    } else {
      assert s.queue[Find(s.queue, t)].pid == t;
      assert s.queue[Find(s.queue, s.current)].pid == s.current;
    }
  }

  /** The process calls sleep. */
  predicate FallsAsleep(s: Sched, e: Event, t: nat) { e.SleepCall? && e.ticks > 0 && s.current == t }

  /** Over one event every counter falls by the calls of update_scheduler, down to 0, unless its process
      calls sleep itself. */
  lemma StepTicks(s: Sched, e: Event, t: nat)
    requires Inv(s) && Allowed(s, e) && Listed(s.queue, t) && Listed(Step(s, e).queue, t) && !FallsAsleep(s, e, t)
    ensures Entry(Step(s, e), t).sleepTicks == Left(Entry(s, t).sleepTicks, Counts(e))
  {
    hide Find, Update, BeforeUpdate, Remove, Forest, PidsBelow, Distinct, WakeReader;
    if CallsUpdate(e) {
      HandlerTicks(s, e, t);
      HandlersChangeCurrentOnly(s, e);
      UpdateTicks(BeforeUpdate(s, e), t);
    } else {
      match e
      case Execute(regs) =>
      case ForkCall(b, k, d) => AddFind(s, b, NewProcess(s, s.current, s.cpu.(eax := 0), k, d), t);
      case Launch(regs, b, k, d) => AddFind(s, b, NewProcess(s, 0, regs, k, d), t);
      case KillCall(pid) => KillTicks(s, pid, t);
      case SleepCall(ticks) =>
      case Keyboard(len) => KeyTicks(s, len, t);
      case Interrupt => SamePidsFind(s.queue, Sigint(s).queue, t);
    }
  }

  lemma KillTicks(s: Sched, pid: nat, t: nat)
    requires Inv(s) && pid >= 1 && Listed(s.queue, t) && Listed(Remove(s, pid).queue, t)
    ensures Entry(Remove(s, pid), t).sleepTicks == Entry(s, t).sleepTicks
  {
    hide Find, Forest, PidsBelow, Reparent, Unlink, Distinct;
    if pid == s.current && !Protected(pid) {
      SamePidsFind(s.queue, Remove(s, pid).queue, t);
    } else if !Protected(pid) && Listed(s.queue, pid) {
      RemoveKeepsOthers(s, pid, t);
    } else if !Protected(pid) {
      RemoveAbsent(s, pid);
    }
  }

  lemma KeyTicks(s: Sched, len: nat, t: nat)
    requires Inv(s) && Listed(s.queue, t)
    ensures Listed(WakeReader(s, len).queue, t)
    ensures Entry(WakeReader(s, len), t).sleepTicks == Entry(s, t).sleepTicks
  {
    hide Find, Forest, PidsBelow, Distinct;
    var q := SetRegs(s.queue, s.current, s.cpu);
    SamePidsFind(s.queue, q, t);
    SamePidsFind(s.queue, WakeReader(s, len).queue, t);
  }

  predicate NeverSleeps(s: Sched, es: seq<Event>, t: nat)
    decreases |es|
  {
    es == [] || (!FallsAsleep(s, es[0], t) && NeverSleeps(Step(s, es[0]), es[1..], t))
  }

  /** Over every run in which a process stays listed and does not call sleep, whether it waits, runs or is
      a zombie: what is left of its last sleep falls with every call of update_scheduler, down to 0. */
  lemma {:induction false} TicksRunDown(s: Sched, es: seq<Event>, t: nat)
    requires Inv(s) && AllAllowed(s, es) && StaysListed(s, es, t) && NeverSleeps(s, es, t)
    ensures Listed(s.queue, t) && Listed(Run(s, es).queue, t)
    ensures Entry(Run(s, es), t).sleepTicks == Left(Entry(s, t).sleepTicks, Calls(es))
    decreases |es|
  {
    hide Step, Find, Entry, FallsAsleep;
    if es != [] {
      StepKeeps(s, es[0]);
      TicksRunDown(Step(s, es[0]), es[1..], t);
      StepTicks(s, es[0], t);
    }
  }
}
