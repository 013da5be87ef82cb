/** What becomes of those who wait for a process that is taken out while it has children: each is made
    to wait for one of the children. */
module Heirs {
  import opened Scheduling
  import opened ProcessTable
  import opened SchedulerRuns
  import opened Fairness
  import opened Waking
  import opened Waiters

  /** The pids of the children of `pid` from index `i` on, in list order. */
  function ChildrenFrom(q: seq<Pcb>, pid: nat, i: nat): seq<nat>
    requires i <= |q|
    decreases |q| - i
  {
    if i == |q| then []
    else (if q[i].parent == pid then [q[i].pid] else []) + ChildrenFrom(q, pid, i + 1)
  }

  function Children(q: seq<Pcb>, pid: nat): seq<nat> { ChildrenFrom(q, pid, 0) }

  /** How many of the first `k` processes await `pid`. */
  function Ahead(q: seq<Pcb>, pid: nat, k: nat): nat
    requires k <= |q|
  {
    if k == 0 then 0 else Ahead(q, pid, k - 1) + if q[k - 1].waitingPid == pid then 1 else 0
  }

  /** The pid that process `k` awaits when the children `cs` of `pid` have been handed out: the first
      of those that awaited `pid` gets the first child, and so on; the rest go on awaiting `pid`. */
  function Handed(q: seq<Pcb>, pid: nat, cs: seq<nat>, k: nat): nat
    requires k < |q|
  {
    if q[k].waitingPid == pid && Ahead(q, pid, k) < |cs| then cs[Ahead(q, pid, k)] else q[k].waitingPid
  }

  lemma {:induction false} AheadOf(q: seq<Pcb>, q': seq<Pcb>, pid: nat, w: nat, k: nat)
    requires |q'| == |q| && k <= |q| && w < |q| && q[w].waitingPid == pid && q'[w].waitingPid != pid
    requires forall j :: 0 <= j < |q| && j != w ==> q'[j].waitingPid == q[j].waitingPid
    ensures Ahead(q, pid, k) == Ahead(q', pid, k) + if w < k then 1 else 0
    decreases k
  {
    if k > 0 {
      AheadOf(q, q', pid, w, k - 1);
    }
  }

  lemma {:induction false} NobodyAhead(q: seq<Pcb>, pid: nat, k: nat)
    requires k <= |q| && forall j :: 0 <= j < k ==> q[j].waitingPid != pid
    ensures Ahead(q, pid, k) == 0
    decreases k
  {
    if k > 0 {
      NobodyAhead(q, pid, k - 1);
    }
  }

  lemma {:induction false} SameAhead(q: seq<Pcb>, q': seq<Pcb>, pid: nat, k: nat)
    requires |q'| == |q| && k <= |q| && forall j :: 0 <= j < |q| ==> q'[j].waitingPid == q[j].waitingPid
    ensures Ahead(q', pid, k) == Ahead(q, pid, k)
    decreases k
  {
    if k > 0 {
      SameAhead(q, q', pid, k - 1);
    }
  }

  lemma {:induction false} SameChildren(q: seq<Pcb>, q': seq<Pcb>, pid: nat, i: nat)
    requires |q'| == |q| && i <= |q|
    requires forall j :: i <= j < |q| ==> q'[j].pid == q[j].pid && q'[j].parent == q[j].parent
    ensures ChildrenFrom(q', pid, i) == ChildrenFrom(q, pid, i)
    decreases |q| - i
  {
    if i < |q| {
      SameChildren(q, q', pid, i + 1);
    }
  }

  /** One iteration of the second loop of reparent_children hands one child out. */
  lemma HandsOne(q: seq<Pcb>, dying: nat, heir: nat, i: nat, cs: seq<nat>, k: nat)
    requires i < |q| && k < |q| && q[i].parent == dying && q[i].pid != dying
    ensures Handed(ReparentOne(q, dying, heir, i), dying, cs, k) == Handed(q, dying, [q[i].pid] + cs, k)
  {
    var q1, q2 := q[i := q[i].(parent := heir)], ReparentOne(q, dying, heir, i);
    var w := FindWaiter(q1, dying);
    if w < |q| {
      assert q[w].waitingPid == dying;
      assert forall j :: 0 <= j < w ==> q1[j].waitingPid == q[j].waitingPid;
      AheadOf(q, q2, dying, w, k);
      NobodyAhead(q, dying, w);
      if k < w {
        assert q[k].waitingPid == q1[k].waitingPid != dying;
      }
    } else {
      assert q1[k].waitingPid == q[k].waitingPid != dying;
    }
  }

  lemma {:induction false} HandsAll(q: seq<Pcb>, dying: nat, heir: nat, i: nat, k: nat)
    requires i <= |q| && k < |q| && forall j :: 0 <= j < |q| && q[j].parent == dying ==> q[j].pid != dying
    ensures ReparentFrom(q, dying, heir, i)[k].waitingPid == Handed(q, dying, ChildrenFrom(q, dying, i), k)
    decreases |q| - i
  {
    hide Handed;
    if i == |q| {
      HandedNothing(q, dying, k);
    } else {
      var q2 := ReparentOne(q, dying, heir, i);
      HandsOn(q, dying, heir, i);
      HandsAll(q2, dying, heir, i + 1, k);
      SameChildren(q, q2, dying, i + 1);
      if q[i].parent == dying {
        HandsOne(q, dying, heir, i, ChildrenFrom(q, dying, i + 1), k);
      } else {
        assert [] + ChildrenFrom(q, dying, i + 1) == ChildrenFrom(q, dying, i + 1);
      }
    }
  }

  lemma HandedNothing(q: seq<Pcb>, pid: nat, k: nat)
    requires k < |q|
    ensures Handed(q, pid, [], k) == q[k].waitingPid
  {
  }

  lemma HandsOn(q: seq<Pcb>, dying: nat, heir: nat, i: nat)
    requires i < |q|
    ensures var q2 := ReparentOne(q, dying, heir, i);
      forall j :: 0 <= j < |q| ==> q2[j].pid == q[j].pid && (j != i ==> q2[j].parent == q[j].parent)
  {
  }

  // ----- removing a process -----

  /** What process `p` is when `pid` has been taken out: a child of `pid` gets its parent, those who
      awaited `pid` get its children, and nothing else changes. */
  function Bereaved(s: Sched, pid: nat, p: nat): Pcb
    requires Listed(s.queue, pid) && Listed(s.queue, p)
  {
    var e := Entry(s, p);
    e.(parent := if e.parent == pid then Entry(s, pid).parent else e.parent,
       waitingPid := Handed(s.queue, pid, Children(s.queue, pid), Find(s.queue, p)))
  }

  lemma RemoveBereaves(s: Sched, pid: nat, p: nat)
    requires Core(s) && pid != s.current && !Protected(pid) && Listed(s.queue, pid)
    requires Listed(s.queue, p) && p != pid
    ensures Listed(Remove(s, pid).queue, p) && Entry(Remove(s, pid), p) == Bereaved(s, pid, p)
  {
    hide Find, Reparent, Handed;
    RemoveIs(s, pid);
    ReparentHands(s.queue, pid, Find(s.queue, p));
    SamePidsFind(s.queue, Reparent(s.queue, pid), p);
    DropKeepsListed(Reparent(s.queue, pid), Find(s.queue, pid), p);
  }

  lemma ReparentHands(q: seq<Pcb>, dying: nat, k: nat)
    requires Distinct(q) && Forest(q) && dying != 0 && k < |q|
    ensures Distinct(Reparent(q, dying))
    ensures Reparent(q, dying)[k].waitingPid == Handed(q, dying, Children(q, dying), k)
  {
    hide Find, Handed;
    ReparentKeepsShape(q, dying);
    forall j | 0 <= j < |q| && q[j].parent == dying
      ensures q[j].pid != dying
    {
      assert ForestAt(q, q[j]);
    }
    var i := Find(q, dying);
    HandsAll(q, dying, if i < |q| then q[i].parent else 0, 0, k);
  }

  /** Killing another process, whatever its children and whoever awaits it. */
  lemma KillBereaves(s: Sched, pid: nat, p: nat)
    requires Inv(s) && Allowed(s, KillCall(pid)) && KilledAway(s, KillCall(pid), pid) && Listed(s.queue, pid)
    requires Listed(s.queue, p) && p != pid
    ensures var t := Step(s, KillCall(pid)); Listed(t.queue, p) && Entry(t, p) == Bereaved(s, pid, p)
  {
    hide Find, Remove, Bereaved;
    RemoveBereaves(s, pid, p);
  }

  /** The exit of the current process does the same to the awaited pids and the parents. */
  lemma ExitBereaves(s: Sched, p: nat)
    requires Core(s) && CurrentStatus(Age(s)) == Zombie && !Protected(s.current)
    requires Listed(s.queue, p) && p != s.current
    ensures Listed(Switch(s).queue, p)
    ensures var q, b := Entry(Switch(s), p), Bereaved(s, s.current, p);
      q.waitingPid == b.waitingPid && q.parent == b.parent
  {
    hide Find, Forest, PidsBelow, Resume, Remove, GiveUp, Next, CurrentStatus, Age, Handed;
    ExitingIsUnlinked(s);
    GiveUpKeeps(s);
    GiveUpAwaits(s);
    var n := Next(GiveUp(s));
    NextKeeps(GiveUp(s));
    SamePidsFind(s.queue, n.queue, p);
    SamePidsFind(s.queue, n.queue, s.current);
    RemoveBereaves(n, s.current, p);
    SameHanded(s.queue, n.queue, s.current, Find(s.queue, p));
    ResumeEntry(Remove(n, s.current), p);
  }

  lemma GiveUpAwaits(s: Sched)
    requires Core(s)
    ensures var q := GiveUp(s).queue;
      |q| == |s.queue| && forall j :: 0 <= j < |q| ==> q[j].waitingPid == s.queue[j].waitingPid
  {
    hide Find, FindWaiter;
  }

  lemma SameHanded(q: seq<Pcb>, q': seq<Pcb>, pid: nat, k: nat)
    requires SameShape(q, q') && k < |q| && forall j :: 0 <= j < |q| ==> q'[j].waitingPid == q[j].waitingPid
    ensures Handed(q', pid, Children(q', pid), k) == Handed(q, pid, Children(q, pid), k)
  {
    SameAhead(q, q', pid, k);
    SameChildren(q, q', pid, 0);
  }

  // ----- the first child's exit wakes the waiter -----

  /** A waiting process goes on awaiting a process that stays listed. */
  lemma AwaitsOn(s: Sched, e: Event, t: nat, p: nat)
    requires Inv(s) && Allowed(s, e) && WaitsFor(s, t, p) && t != p && !Disturbs(s, e, t)
    requires Listed(s.queue, p) && Listed(Step(s, e).queue, p)
    ensures WaitsFor(Step(s, e), t, p)
  {
    hide Find, Update, BeforeUpdate, Remove, Forest, PidsBelow, Distinct, Disturbs;
    SleeperSteps(s, e, t, 0);
    if CallsUpdate(e) {
      HandlersChangeCurrentOnly(s, e);
      var s1 := BeforeUpdate(s, e);
      SamePidsFind(s.queue, s1.queue, t);
      SamePidsFind(s.queue, s1.queue, p);
      FindOther(s.queue, t, s.current);
      UpdateAwaits(s1, t, p);
    } else {
      match e
      case Execute(regs) =>
      case ForkCall(b, k, d) => AddFind(s, b, NewProcess(s, s.current, s.cpu.(eax := 0), k, d), t);
      case Launch(regs, b, k, d) => AddFind(s, b, NewProcess(s, 0, regs, k, d), t);
      case KillCall(pid) => KillAwaits(s, pid, t, p);
      case SleepCall(ticks) =>
      case Keyboard(len) => KeyboardKeepsAwaited(s, len, t);
      case Interrupt => SamePidsFind(s.queue, Sigint(s).queue, t);
    }
  }

  lemma UpdateAwaits(s: Sched, t: nat, p: nat)
    requires Core(s) && Listed(s.queue, t) && Entry(s, t).waitingPid == p && t != p
    requires Listed(Update(s).queue, t) && Listed(Update(s).queue, p)
    ensures Entry(Update(s), t).waitingPid == p
  {
    hide Find, Switch, GiveUp, Forest, PidsBelow, Distinct, FindWaiter, ExitWakes;
    AgedEntry(s, t);
    if !Stays(s) {
      GiveUpEntry(s, t);
      SwitchEntry(s, t);
    }
  }

  lemma KillAwaits(s: Sched, pid: nat, t: nat, p: nat)
    requires Inv(s) && pid >= 1 && Listed(s.queue, t) && Entry(s, t).waitingPid == p
    requires Listed(Kill(s, pid).queue, t) && Listed(Kill(s, pid).queue, p)
    ensures Entry(Kill(s, pid), t).waitingPid == p
  {
    hide Find, Forest, PidsBelow, Reparent, Unlink, Distinct;
    KillLists(s, pid, t);
    KillLists(s, pid, p);
    if pid == s.current && !Protected(pid) {
      SamePidsFind(s.queue, Remove(s, pid).queue, t);
    } else if !Protected(pid) && Listed(s.queue, pid) {
      RemoveKeepsOthers(s, pid, t);
    } else if !Protected(pid) {
      RemoveAbsent(s, pid);
    }
  }

  lemma {:induction false} RunAwaits(s: Sched, es: seq<Event>, t: nat, p: nat)
    requires Inv(s) && AllAllowed(s, es) && WaitsFor(s, t, p) && t != p
    requires Undisturbed(s, es, t) && StaysListed(s, es, p)
    ensures Inv(Run(s, es)) && WaitsFor(Run(s, es), t, p) && Listed(Run(s, es).queue, p)
    decreases |es|
  {
    hide Step, WaitsFor, Disturbs, Find;
    if es != [] {
      StepKeeps(s, es[0]);
      assert StaysListed(Step(s, es[0]), es[1..], p);
      AwaitsOn(s, es[0], t, p);
      RunAwaits(Step(s, es[0]), es[1..], t, p);
    }
  }

  /** `t` awaits `p` and nobody ahead of it in the list does. */
  predicate FirstToAwait(q: seq<Pcb>, t: nat, p: nat) {
    Listed(q, t) && forall k :: 0 <= k < Find(q, t) ==> q[k].waitingPid != p
  }

  lemma HandedFirst(q: seq<Pcb>, pid: nat, t: nat)
    requires FirstToAwait(q, t, pid) && q[Find(q, t)].waitingPid == pid && Children(q, pid) != []
    ensures Handed(q, pid, Children(q, pid), Find(q, t)) == Children(q, pid)[0]
  {
    NobodyAhead(q, pid, Find(q, t));
  }

  /** A process waits for another that has children and is killed by a third. Over every run in which
      nothing else helps the waiter, the exit of the first child wakes it, if it is the first to await
      that child at that call of update_scheduler: it is ready or running. */
  lemma HeirWakesWaiter(s: Sched, pid: nat, t: nat, es: seq<Event>, e: Event)
    requires Inv(s) && AllAllowed(s, [KillCall(pid)] + es) && KilledAway(s, KillCall(pid), pid)
    requires Listed(s.queue, pid) && Children(s.queue, pid) != []
    requires WaitsFor(s, t, pid) && t != pid && FirstToAwait(s.queue, t, pid)
    requires var c, s1 := Children(s.queue, pid)[0], Step(s, KillCall(pid));
      var r := Run(s1, es);
      && c != t && Undisturbed(s1, es, t) && StaysListed(s1, es, c)
      && Allowed(r, e) && ExitsNow(r, e, c) && FirstToAwait(BeforeUpdate(r, e).queue, t, c)
    ensures var r := Run(s, [KillCall(pid)] + es);
      && Listed(Step(r, e).queue, t)
      && (Entry(Step(r, e), t).status == Ready || Entry(Step(r, e), t).status == Running)
  {
    hide Step, Find, Bereaved, WaitsFor, Children, ExitsNow, Undisturbed, KilledAway, FirstToAwait;
    assert ([KillCall(pid)] + es)[1..] == es;
    var c, s1 := Children(s.queue, pid)[0], Step(s, KillCall(pid));
    StepKeeps(s, KillCall(pid));
    HandedToFirst(s, pid, t);
    RunAwaits(s1, es, t, c);
    ExitEndsWait(Run(s1, es), e, t, c);
  }

  lemma HandedToFirst(s: Sched, pid: nat, t: nat)
    requires Inv(s) && Allowed(s, KillCall(pid)) && KilledAway(s, KillCall(pid), pid) && Listed(s.queue, pid)
    requires Children(s.queue, pid) != [] && WaitsFor(s, t, pid) && t != pid && FirstToAwait(s.queue, t, pid)
    ensures WaitsFor(Step(s, KillCall(pid)), t, Children(s.queue, pid)[0])
  {
    hide Find, Step, Children, Handed, Disturbs;
    KillBereaves(s, pid, t);
    HandedFirst(s.queue, pid, t);
    KillKeepsRunning(s, pid);
  }

  lemma KillKeepsRunning(s: Sched, pid: nat)
    ensures Step(s, KillCall(pid)).current == s.current
  {
    hide Find, Reparent, Unlink;
  }

  /** The exit of the awaited process. */
  lemma ExitEndsWait(s: Sched, e: Event, t: nat, p: nat)
    requires Inv(s) && Allowed(s, e) && WaitsFor(s, t, p) && t != p && ExitsNow(s, e, p)
    requires FirstToAwait(BeforeUpdate(s, e).queue, t, p)
    ensures Listed(Step(s, e).queue, t)
    ensures Entry(Step(s, e), t).status == Ready || Entry(Step(s, e), t).status == Running
  {
    hide Find, Update, Switch, BeforeUpdate, Remove, Forest, PidsBelow, Distinct;
    HandlersChangeCurrentOnly(s, e);
    var s1 := BeforeUpdate(s, e);
    SamePidsFind(s.queue, s1.queue, t);
    FindOther(s.queue, t, s.current);
    AgeKeeps(s1);
    FirstIsWaiter(s, s1, t, p);
    SwitchLists(s1, t);
    ExitWakesItsWaiter(s1, t);
  }

  lemma FirstIsWaiter(s: Sched, s1: Sched, t: nat, p: nat)
    requires OnlyCurrentChanged(s, s1) && Listed(s.queue, t) && Find(s1.queue, t) == Find(s.queue, t)
    requires t != s.current && p == s.current && s.queue[Find(s.queue, t)].waitingPid == p
    requires Find(s.queue, t) != Find(s.queue, s.current) && FirstToAwait(s1.queue, t, p)
    ensures FindWaiter(s1.queue, s1.current) == Find(s1.queue, t)
  {
    hide Find;
  }
}
