/** Processes that wait for another: when the awaited one leaves the list, which waiters wake, and
    which are stranded. */
module Waiters {
  import opened Lists
  import opened Scheduling
  import opened ProcessTable
  import opened SchedulerRuns
  import opened Waking

  /** `p` is killed by another process. */
  predicate KilledAway(s: Sched, e: Event, p: nat) { e.KillCall? && e.pid == p && p != s.current && !Protected(p) }

  /** `p` is current, a zombie at the call of update_scheduler, and not a permanent process. */
  predicate ExitsNow(s: Sched, e: Event, p: nat) {
    CallsUpdate(e) && p == s.current && !Protected(p) && CurrentStatus(BeforeUpdate(s, e)) == Zombie
  }

  /** A process leaves the list in exactly these two ways. */
  lemma LeavesExactlyWhen(s: Sched, e: Event, p: nat)
    requires Inv(s) && Allowed(s, e) && Listed(s.queue, p)
    ensures !Listed(Step(s, e).queue, p) <==> KilledAway(s, e, p) || ExitsNow(s, e, p)
  {
    hide Find, Update, BeforeUpdate, Remove, Forest, PidsBelow, Distinct;
    if CallsUpdate(e) {
      HandlersChangeCurrentOnly(s, e);
      SamePidsFind(s.queue, BeforeUpdate(s, e).queue, p);
      UpdateLists(BeforeUpdate(s, e), p);
    } else {
      match e
      case Execute(regs) =>
      case ForkCall(b, k, d) => AddFind(s, b, NewProcess(s, s.current, s.cpu.(eax := 0), k, d), p);
      case Launch(regs, b, k, d) => AddFind(s, b, NewProcess(s, 0, regs, k, d), p);
      case KillCall(pid) => KillLists(s, pid, p);
      case SleepCall(ticks) =>
      case Keyboard(len) => WakeReaderKeepsPids(s, len, p);
      case Interrupt => SamePidsFind(s.queue, Sigint(s).queue, p);
    }
  }

  lemma UpdateLists(s: Sched, p: nat)
    requires Core(s) && Listed(s.queue, p)
    ensures !Listed(Update(s).queue, p) <==> p == s.current && CurrentStatus(s) == Zombie && !Protected(p)
  {
    hide Find, Switch, Forest, PidsBelow;
    AgeKeeps(s);
    if Stays(s) {
      SamePidsFind(s.queue, Age(s).queue, p);
    } else {
      SwitchLists(s, p);
    }
  }

  lemma KillLists(s: Sched, pid: nat, p: nat)
    requires Inv(s) && pid >= 1
    ensures Listed(Kill(s, pid).queue, p) <==> Listed(s.queue, p) && !(pid == p && p != s.current && !Protected(p))
  {
    hide Find, Forest, PidsBelow, Reparent, Unlink, Distinct;
    if pid == s.current && !Protected(pid) {
      SamePidsFind(s.queue, Remove(s, pid).queue, p);
    } else if !Protected(pid) && Listed(s.queue, pid) {
      RemoveKeepsOthers(s, pid, p);
    } else if !Protected(pid) {
      RemoveAbsent(s, pid);
    }
  }

  lemma WakeReaderKeepsPids(s: Sched, len: nat, p: nat)
    requires Inv(s)
    ensures Listed(WakeReader(s, len).queue, p) <==> Listed(s.queue, p)
  {
    hide Find, Forest, PidsBelow, Distinct;
    SamePidsFind(s.queue, WakeReader(s, len).queue, p);
  }

  /** `t` waits for `p` and for nothing else. */
  predicate WaitsFor(s: Sched, t: nat, p: nat) { Asleep(s, t, 0) && Entry(s, t).waitingPid == p }

  /** When the awaited process leaves, its waiter wakes if and only if that process exits by itself
      and the waiter is the first in the list to wait for it. */
  lemma WaiterWakesExactlyWhen(s: Sched, e: Event, t: nat, p: nat)
    requires Inv(s) && Allowed(s, e) && WaitsFor(s, t, p) && t != p && Listed(s.queue, p)
    requires !Listed(Step(s, e).queue, p)
    ensures Asleep(Step(s, e), t, 0) <==> !(ExitsNow(s, e, p) && ExitWakes(BeforeUpdate(s, e), t))
  {
    hide Step, Find, BeforeUpdate, ExitWakes, Asleep;
    LeavesExactlyWhen(s, e, p);
    SleeperSteps(s, e, t, 0);
  }

  // ----- stranded waiters -----

  /** `t` waits for a pid that was given out and is no longer listed. */
  predicate Stranded(s: Sched, t: nat, p: nat) { WaitsFor(s, t, p) && !Listed(s.queue, p) && p < s.nextPid }

  /** Killing a childless process strands every process that waits for it. */
  lemma KillStrands(s: Sched, p: nat, t: nat)
    requires Inv(s) && Allowed(s, KillCall(p)) && WaitsFor(s, t, p) && t != p
    requires KilledAway(s, KillCall(p), p) && Listed(s.queue, p)
    requires forall k :: 0 <= k < |s.queue| ==> s.queue[k].parent != p
    ensures Stranded(Step(s, KillCall(p)), t, p)
  {
    hide Find, Forest, Remove, PidsBelow;
    var i := Find(s.queue, p);
    RemoveChildless(s, p);
    DropKeepsListed(s.queue, i, t);
    DropKeepsListed(s.queue, i, p);
    assert PidsBelow(s.queue, s.nextPid) && s.queue[i].pid == p;
    ListedIsBelow(s, p);
  }

  lemma ListedIsBelow(s: Sched, p: nat)
    requires PidsBelow(s.queue, s.nextPid) && Listed(s.queue, p)
    ensures p < s.nextPid && s.queue[Find(s.queue, p)].pid == p
  {
  }

  lemma RemoveChildless(s: Sched, p: nat)
    requires Core(s) && Listed(s.queue, p) && p != s.current && !Protected(p)
    requires forall k :: 0 <= k < |s.queue| ==> s.queue[k].parent != p
    ensures Remove(s, p) == s.(queue := Drop(s.queue, Find(s.queue, p)), size := s.size - 1)
  {
    hide Find, Forest, PidsBelow, Distinct;
    NoChildrenNoChange(s.queue, p, s.queue[Find(s.queue, p)].parent, 0);
  }

  /** Only these events help a stranded process. */
  predicate Helps(s: Sched, e: Event, t: nat) {
    || (e.KillCall? && e.pid == t && !Protected(t))
    || (e.Interrupt? && s.foreground == t)
    || (e.Keyboard? && s.reader == t && CurrentStatus(s) != Zombie)
  }

  lemma StrandedStep(s: Sched, e: Event, t: nat, p: nat)
    requires Inv(s) && Allowed(s, e) && Stranded(s, t, p)
    ensures Stranded(Step(s, e), t, p) <==> !Helps(s, e, t)
  {
    hide Step, Find, BeforeUpdate;
    SleeperSteps(s, e, t, 0);
    NobodyExitsFor(s, e, t, p);
    if !Helps(s, e, t) {
      StaysUnlisted(s, e, p);
      AwaitedIsKept(s, e, t);
    }
  }

  /** No exit wakes it: the pid it waits for is nobody's. */
  lemma NobodyExitsFor(s: Sched, e: Event, t: nat, p: nat)
    requires Inv(s) && Allowed(s, e) && Stranded(s, t, p)
    ensures Disturbs(s, e, t) <==> Helps(s, e, t)
  {
    hide Find, Forest, PidsBelow, BeforeUpdate;
    if CallsUpdate(e) {
      HandlersChangeCurrentOnly(s, e);
      var s1 := BeforeUpdate(s, e);
      SamePidsFind(s.queue, s1.queue, t);
      assert s.queue[Find(s.queue, t)].pid == t && s.queue[Find(s.queue, s.current)].pid == s.current;
      assert s1.queue[Find(s1.queue, t)].waitingPid == p != s1.current;
      assert !ExitWakes(s1, t);
    }
  }

  /** A pid that was given out and is not listed is never listed again. */
  lemma StaysUnlisted(s: Sched, e: Event, p: nat)
    requires Inv(s) && Allowed(s, e) && !Listed(s.queue, p) && p < s.nextPid
    ensures !Listed(Step(s, e).queue, p) && p < Step(s, e).nextPid
  {
    hide Find, Update, BeforeUpdate, Remove, WakeReader, Forest, PidsBelow, Distinct;
    if CallsUpdate(e) {
      HandlersChangeCurrentOnly(s, e);
      SamePidsFind(s.queue, BeforeUpdate(s, e).queue, p);
      UpdateAddsNobody(BeforeUpdate(s, e), p);
      BeforeUpdateKeepsCounter(s, e);
    } else {
      match e
      case Execute(regs) =>
      case ForkCall(b, k, d) => AddLists(s, b, NewProcess(s, s.current, s.cpu.(eax := 0), k, d), p);
      case Launch(regs, b, k, d) => AddLists(s, b, NewProcess(s, 0, regs, k, d), p);
      case KillCall(pid) =>
        KillLists(s, pid, p);
        RemoveKeepsCounter(s, pid);
      case SleepCall(ticks) =>
      case Keyboard(len) =>
        WakeReaderKeepsPids(s, len, p);
        WakeReaderKeepsCounter(s, len);
      case Interrupt => SamePidsFind(s.queue, Sigint(s).queue, p);
    }
  }

  lemma AddLists(s: Sched, block: nat, q: Pcb, p: nat)
    requires !Listed(s.queue, p) && q.pid != p
    ensures !Listed(AddProcess(s, block, q).queue, p)
  {
    var r := AddProcess(s, block, q).queue;
    assert Find(s.queue, p) == |s.queue|;
    assert forall k :: 0 <= k < |r| ==> r[k].pid != p;
  }

  lemma RemoveKeepsCounter(s: Sched, pid: nat)
    ensures Remove(s, pid).nextPid == s.nextPid
  {
  }

  lemma WakeReaderKeepsCounter(s: Sched, len: nat)
    ensures WakeReader(s, len).nextPid == s.nextPid
  {
    hide Find;
  }

  lemma BeforeUpdateKeepsCounter(s: Sched, e: Event)
    requires CallsUpdate(e)
    ensures BeforeUpdate(s, e).nextPid == s.nextPid
  {
    hide Find, Reparent, Unlink;
  }

  lemma UpdateAddsNobody(s: Sched, p: nat)
    requires Core(s) && !Listed(s.queue, p)
    ensures !Listed(Update(s).queue, p) && Update(s).nextPid == s.nextPid
  {
    hide Find, Forest, PidsBelow, Remove, Distinct;
    AgeKeeps(s);
    if Stays(s) {
      SamePidsFind(s.queue, Age(s).queue, p);
    } else {
      SwitchLists(s, p);
      RemoveKeepsCounter(Next(GiveUp(s)), s.current);
    }
  }

  lemma AwaitedIsKept(s: Sched, e: Event, t: nat)
    requires Inv(s) && Allowed(s, e) && Listed(s.queue, t) && Listed(Step(s, e).queue, t) && t != s.current
    requires !Listed(s.queue, Entry(s, t).waitingPid)
    ensures Entry(Step(s, e), t).waitingPid == Entry(s, t).waitingPid
  {
    hide Find, Update, BeforeUpdate, Remove, Forest, PidsBelow, Distinct;
    if CallsUpdate(e) {
      HandlersChangeCurrentOnly(s, e);
      var s1 := BeforeUpdate(s, e);
      SamePidsFind(s.queue, s1.queue, t);
      SamePidsFind(s.queue, s1.queue, Entry(s, t).waitingPid);
      FindOther(s.queue, t, s.current);
      UpdateKeepsAwaited(s1, t);
    } else {
      match e
      case Execute(regs) =>
      case ForkCall(b, k, d) => AddFind(s, b, NewProcess(s, s.current, s.cpu.(eax := 0), k, d), t);
      case Launch(regs, b, k, d) => AddFind(s, b, NewProcess(s, 0, regs, k, d), t);
      case KillCall(pid) => KillKeepsAwaited(s, pid, t);
      case SleepCall(ticks) =>
      case Keyboard(len) => KeyboardKeepsAwaited(s, len, t);
      case Interrupt => SamePidsFind(s.queue, Sigint(s).queue, t);
    }
  }

  lemma UpdateKeepsAwaited(s: Sched, t: nat)
    requires Core(s) && Listed(s.queue, t) && Listed(Update(s).queue, t)
    requires !Listed(s.queue, Entry(s, t).waitingPid)
    ensures Entry(Update(s), t).waitingPid == Entry(s, t).waitingPid
  {
    hide Find, Switch, GiveUp, Forest, PidsBelow, Distinct, FindWaiter, ExitWakes;
    AgedEntry(s, t);
    if !Stays(s) {
      GiveUpEntry(s, t);
      SwitchEntry(s, t);
    }
  }

  lemma KillKeepsAwaited(s: Sched, pid: nat, t: nat)
    requires Inv(s) && pid >= 1 && Listed(s.queue, t) && Listed(Kill(s, pid).queue, t)
    requires !Listed(s.queue, Entry(s, t).waitingPid)
    ensures Entry(Kill(s, pid), t).waitingPid == Entry(s, t).waitingPid
  {
    hide Find, Forest, PidsBelow, Reparent, Unlink, Distinct;
    if pid == s.current && !Protected(pid) {
      SamePidsFind(s.queue, Remove(s, pid).queue, t);
    } else if !Protected(pid) && Listed(s.queue, pid) {
      RemoveKeepsOthers(s, pid, t);
      KillLists(s, pid, t);
    } else if !Protected(pid) {
      RemoveAbsent(s, pid);
    }
  }

  lemma KeyboardKeepsAwaited(s: Sched, len: nat, t: nat)
    requires Inv(s) && Listed(s.queue, t) && Listed(WakeReader(s, len).queue, t)
    ensures Entry(WakeReader(s, len), t).waitingPid == Entry(s, t).waitingPid
  {
    hide Find, Forest, PidsBelow;
    if s.reader != 0 && CurrentStatus(s) != Zombie {
      var q := SetRegs(s.queue, s.current, s.cpu);
      SamePidsFind(s.queue, q, s.reader);
      SamePidsFind(s.queue, q, s.current);
      SamePidsFind(s.queue, WakeReader(s, len).queue, t);
    }
  }

  /** Some event of the run helps `t`. */
  predicate EverHelped(s: Sched, es: seq<Event>, t: nat)
    decreases |es|
  {
    es != [] && (Helps(s, es[0], t) || EverHelped(Step(s, es[0]), es[1..], t))
  }

  lemma {:induction false} RunStrands(s: Sched, es: seq<Event>, t: nat, p: nat)
    requires Inv(s) && AllAllowed(s, es) && Stranded(s, t, p) && !EverHelped(s, es, t)
    ensures Stranded(Run(s, es), t, p)
    decreases |es|
  {
    hide Step, Stranded, Helps;
    if es != [] {
      StepKeeps(s, es[0]);
      StrandedStep(s, es[0], t, p);
      RunStrands(Step(s, es[0]), es[1..], t, p);
    }
  }

  /** A process that waits for a childless one when a third kills it waits over every run in which
      it is not itself killed or interrupted and completes no read. */
  lemma KilledIsAwaitedForever(s: Sched, p: nat, es: seq<Event>, t: nat)
    requires Inv(s) && AllAllowed(s, [KillCall(p)] + es) && WaitsFor(s, t, p) && t != p
    requires KilledAway(s, KillCall(p), p) && Listed(s.queue, p)
    requires forall k :: 0 <= k < |s.queue| ==> s.queue[k].parent != p
    requires !EverHelped(Step(s, KillCall(p)), es, t)
    ensures WaitsFor(Run(s, [KillCall(p)] + es), t, p)
  {
    hide Step, WaitsFor, EverHelped, KilledAway;
    assert ([KillCall(p)] + es)[1..] == es;
    KillStrands(s, p, t);
    StepKeeps(s, KillCall(p));
    RunStrands(Step(s, KillCall(p)), es, t, p);
    StrandedWaits(Run(Step(s, KillCall(p)), es), t, p);
  }

  lemma StrandedWaits(s: Sched, t: nat, p: nat)
    requires Stranded(s, t, p)
    ensures WaitsFor(s, t, p)
  {
  }
}
