/** Round-robin fairness: a process that is ready and stays listed gets the processor after at
    most 20 * (n - 1) calls of update_scheduler. */
module Fairness {
  import opened Lists
  import opened Scheduling
  import opened ProcessTable
  import opened SchedulerRuns

  /** How many calls of update_scheduler the event makes. */
  function Counts(e: Event): nat { if CallsUpdate(e) then 1 else 0 }

  predicate Adds(e: Event) { e.ForkCall? || e.Launch? }

  predicate CanRun(s: Sched, t: nat) {
    var i := Find(s.queue, t);
    i < |s.queue| && s.queue[i].status != Waiting
  }

  /** How many processes further than the current one process `t` is, in list order. */
  function DistanceTo(s: Sched, t: nat): nat
    requires Listed(s.queue, s.current) && Listed(s.queue, t)
  {
    Distance(|s.queue|, Find(s.queue, s.current), Find(s.queue, t))
  }

  /** An upper bound on the calls of update_scheduler until `t` is current. */
  function Remaining(s: Sched, t: nat): int
    requires Listed(s.queue, s.current) && Listed(s.queue, t)
  {
    QUANTUM * DistanceTo(s, t) - s.quantum
  }

  lemma DropFind(q: seq<Pcb>, i: nat, pid: nat)
    requires Distinct(q) && i < |q| && Listed(q, pid) && pid != q[i].pid
    ensures Find(Drop(q, i), pid) == if Find(q, pid) < i then Find(q, pid) else Find(q, pid) - 1
  {
    var f := Find(q, pid);
    var k := if f < i then f else f - 1;
    assert Drop(q, i)[k].pid == pid;
    DropKeepsListed(q, i, pid);
    FindIsIndex(Drop(q, i), k);
  }

  /** Taking a process out of the list brings nobody further away. */
  lemma DropDistance(q: seq<Pcb>, i: nat, a: nat, b: nat)
    requires Distinct(q) && i < |q| && Listed(q, a) && Listed(q, b) && a != q[i].pid && b != q[i].pid
    ensures Listed(Drop(q, i), a) && Listed(Drop(q, i), b)
    ensures Distance(|q| - 1, Find(Drop(q, i), a), Find(Drop(q, i), b)) <= Distance(|q|, Find(q, a), Find(q, b))
  {
    DropKeepsListed(q, i, a);
    DropKeepsListed(q, i, b);
    DropFind(q, i, a);
    DropFind(q, i, b);
  }

  lemma RemoveApproaches(s: Sched, pid: nat, t: nat)
    requires Core(s) && pid != s.current && !Protected(pid) && Listed(s.queue, pid) && CanRun(s, t) && t != pid
    ensures var s' := Remove(s, pid);
      && Listed(s'.queue, s'.current) && CanRun(s', t) && DistanceTo(s', t) <= DistanceTo(s, t)
  {
    hide Remove, Reparent, Find, Forest, PidsBelow, Distance;
    var q, r, i := s.queue, Reparent(s.queue, pid), Find(s.queue, pid);
    RemoveIs(s, pid);
    RemoveKeepsOthers(s, pid, s.current);
    RemoveKeepsOthers(s, pid, t);
    SamePidsFind(q, r, s.current);
    SamePidsFind(q, r, t);
    DropDistance(r, i, s.current, t);
  }

  /** At each switch the distance to a process that can run strictly falls. */
  lemma SwitchApproaches(s: Sched, t: nat)
    requires Core(s) && CanRun(s, t) && t != s.current && Listed(Switch(s).queue, t)
    ensures Listed(Switch(s).queue, Switch(s).current)
    ensures DistanceTo(Switch(s), t) < DistanceTo(s, t)
    ensures Switch(s).current != t ==> CanRun(Switch(s), t)
  {
    hide Find, Forest, PidsBelow, Resume, Remove, GiveUp, Distinct, Distance, Age, Next, CurrentStatus;
    var g, n := GiveUp(s), Next(GiveUp(s));
    GiveUpKeeps(s);
    GivenUpCanRun(s, t);
    NextKeeps(g);
    NextApproaches(g, t);
    if CurrentStatus(Age(s)) == Zombie && !Protected(s.current) {
      ExitingIsUnlinked(s);
      RemoveApproaches(n, s.current, t);
      ResumeApproaches(Remove(n, s.current), t);
    } else {
      RemoveProtected(n, s.current);
      ResumeApproaches(n, t);
    }
  }

  lemma RemoveProtected(s: Sched, pid: nat)
    ensures Protected(pid) ==> Remove(s, pid) == s
  {
  }

  lemma GivenUpCanRun(s: Sched, t: nat)
    requires Core(s) && CanRun(s, t)
    ensures CanRun(GiveUp(s), t) && Listed(GiveUp(s).queue, s.current)
    ensures DistanceTo(GiveUp(s), t) == DistanceTo(s, t)
  {
    hide Find, FindWaiter, Forest, PidsBelow, DecrementAll;
    GiveUpKeeps(s);
    AgeKeeps(s);
    SamePidsFind(s.queue, GiveUp(s).queue, t);
    SamePidsFind(s.queue, GiveUp(s).queue, s.current);
  }

  lemma NextApproaches(g: Sched, t: nat)
    requires Core(g) && CanRun(g, t) && t != g.current
    ensures Listed(Next(g).queue, Next(g).current) && CanRun(Next(g), t)
    ensures DistanceTo(Next(g), t) < DistanceTo(g, t)
  {
    var q := g.queue;
    NextStops(q, Find(q, g.current), g.size, Find(q, t));
    FindIsIndex(q, NextIndex(q, Find(q, g.current), g.size));
  }

  lemma ResumeApproaches(s: Sched, t: nat)
    requires Core(s) && CanRun(s, t)
    ensures Resume(s).current == s.current && Listed(Resume(s).queue, s.current)
    ensures CanRun(Resume(s), t) && DistanceTo(Resume(s), t) == DistanceTo(s, t)
  {
    ResumeKeeps(s);
    hide Find;
    SamePidsFind(s.queue, Resume(s).queue, t);
    SamePidsFind(s.queue, Resume(s).queue, s.current);
  }

  /** The processor has come to `t`, or is nearer by at least `calls` calls. */
  ghost predicate Nearer(s: Sched, s': Sched, t: nat, calls: nat) {
    Listed(s.queue, s.current) && Listed(s.queue, t) && Listed(s'.queue, s'.current) && Listed(s'.queue, t) &&
    (s'.current == t || (CanRun(s', t) && Remaining(s', t) <= Remaining(s, t) - calls))
  }

  lemma UpdateApproaches(s: Sched, t: nat)
    requires Core(s) && s.quantum < QUANTUM && CanRun(s, t) && t != s.current && Listed(Update(s).queue, t)
    ensures Nearer(s, Update(s), t, 1)
  {
    hide Find, DecrementAll, Switch;
    if Stays(s) {
      AgeKeeps(s);
      SamePidsFind(s.queue, Age(s).queue, t);
      SamePidsFind(s.queue, Age(s).queue, s.current);
    } else {
      SwitchApproaches(s, t);
      SwitchKeeps(s);
    }
  }

  // ----- events -----

  lemma OnlyCurrentKeepsPlaces(s: Sched, s': Sched, t: nat)
    requires OnlyCurrentChanged(s, s') && CanRun(s, t) && t != s.current && Listed(s.queue, s.current)
    ensures CanRun(s', t) && Listed(s'.queue, s'.current) && Remaining(s', t) == Remaining(s, t)
  {
    hide Find;
    SamePidsFind(s.queue, s'.queue, t);
    SamePidsFind(s.queue, s'.queue, s.current);
  }

  /** A handler that changes the current process and then calls update_scheduler. */
  lemma HandlerApproaches(s: Sched, s1: Sched, t: nat)
    requires Core(s1) && s1.quantum < QUANTUM && OnlyCurrentChanged(s, s1) && Listed(s.queue, s.current)
    requires CanRun(s, t) && t != s.current && Listed(Update(s1).queue, t)
    ensures Nearer(s, Update(s1), t, 1)
  {
    hide Update, Find;
    OnlyCurrentKeepsPlaces(s, s1, t);
    UpdateApproaches(s1, t);
  }

  lemma KillApproaches(s: Sched, pid: nat, t: nat)
    requires Inv(s) && pid >= 1 && CanRun(s, t) && t != s.current && Listed(Remove(s, pid).queue, t)
    ensures Nearer(s, Remove(s, pid), t, 0)
  {
    hide Find, Forest, PidsBelow, Distance, Reparent, Unlink, Distinct;
    if pid == s.current && !Protected(pid) {
      OnlyCurrentKeepsPlaces(s, Remove(s, pid), t);
    } else if !Protected(pid) && Listed(s.queue, pid) {
      RemoveKeepsOthers(s, pid, t);
      RemoveIs(s, pid);
      RemoveApproaches(s, pid, t);
    } else if !Protected(pid) {
      RemoveAbsent(s, pid);
    }
  }

  /** Changes that leave every pid in place and nobody newly waiting. */
  lemma SamePlacesNearer(s: Sched, s': Sched, t: nat)
    requires Listed(s.queue, s.current) && CanRun(s, t) && SamePids(s.queue, s'.queue)
    requires s'.current == s.current && s'.quantum == s.quantum
    requires forall i :: 0 <= i < |s.queue| && s.queue[i].status != Waiting ==> s'.queue[i].status != Waiting
    ensures Nearer(s, s', t, 0)
  {
    hide Find;
    SamePidsFind(s.queue, s'.queue, t);
    SamePidsFind(s.queue, s'.queue, s.current);
  }

  lemma StepApproaches(s: Sched, e: Event, t: nat)
    requires Inv(s) && Allowed(s, e) && !Adds(e)
    requires CanRun(s, t) && t != s.current && Listed(Step(s, e).queue, t)
    ensures Nearer(s, Step(s, e), t, Counts(e))
  {
    hide Find, Update, Remove, Forest, PidsBelow, Distance, Distinct;
    if CallsUpdate(e) {
      HandlersChangeCurrentOnly(s, e);
      HandlerApproaches(s, BeforeUpdate(s, e), t);
    } else {
      match e
      case Execute(regs) =>
      case KillCall(pid) => KillApproaches(s, pid, t);
      case SleepCall(ticks) =>
      case Keyboard(len) => SamePlacesNearer(s, Step(s, e), t);
      case Interrupt => SamePlacesNearer(s, Step(s, e), t);
    }
  }

  // ----- runs -----

  function Calls(es: seq<Event>): nat {
    if es == [] then 0 else Counts(es[0]) + Calls(es[1..])
  }

  predicate NoneAdded(es: seq<Event>) { forall i :: 0 <= i < |es| ==> !Adds(es[i]) }

  /** `t` is listed in every state of the run. */
  predicate StaysListed(s: Sched, es: seq<Event>, t: nat)
    decreases |es|
  {
    Listed(s.queue, t) && (es == [] || StaysListed(Step(s, es[0]), es[1..], t))
  }

  lemma {:induction false} ReachesProcessor(s: Sched, es: seq<Event>, t: nat) returns (k: nat)
    requires Inv(s) && AllAllowed(s, es) && NoneAdded(es) && StaysListed(s, es, t)
    requires s.current == t || (CanRun(s, t) && Calls(es) >= Remaining(s, t))
    ensures k <= |es| && Run(s, es[..k]).current == t
    decreases |es|
  {
    if s.current == t {
      k := 0;
    } else {
      hide Step, Find;
      var s1 := Step(s, es[0]);
      StepKeeps(s, es[0]);
      assert StaysListed(s1, es[1..], t);
      StepApproaches(s, es[0], t);
      k := ReachesProcessor(s1, es[1..], t);
      assert es[..k + 1][1..] == es[1..][..k];
      k := k + 1;
    }
  }

  /** Fairness: with n processes and none added, a process that is not waiting and stays listed is
      current at some moment within 20 * (n - 1) calls of update_scheduler. */
  lemma RoundRobinIsFair(s: Sched, es: seq<Event>, t: nat)
    requires Inv(s) && AllAllowed(s, es) && NoneAdded(es) && StaysListed(s, es, t) && CanRun(s, t)
    requires Calls(es) >= 20 * (|s.queue| - 1)
    ensures exists k :: 0 <= k <= |es| && Run(s, es[..k]).current == t
  {
    var k := ReachesProcessor(s, es, t);
  }
}
