/** Invariants of the process table over every run: structure of the list, the parent forest,
    and an idle process that always can be selected. */
module ProcessTable {
  import opened Lists
  import opened Scheduling

  // ----- lists of processes -----

  predicate Distinct(q: seq<Pcb>) { forall i, j :: 0 <= i < j < |q| ==> q[i].pid != q[j].pid }

  /** Same processes in the same order, whatever their scheduling fields. */
  predicate SamePids(q: seq<Pcb>, q': seq<Pcb>) {
    |q'| == |q| && forall i :: 0 <= i < |q| ==> q'[i].pid == q[i].pid
  }

  /** Same processes with the same parents and the same resources. */
  predicate SameShape(q: seq<Pcb>, q': seq<Pcb>) {
    && SamePids(q, q')
    && forall i :: 0 <= i < |q| ==>
      q'[i].parent == q[i].parent && q'[i].kernelStack == q[i].kernelStack && q'[i].pageDirectory == q[i].pageDirectory
  }

  lemma SamePidsFind(q: seq<Pcb>, q': seq<Pcb>, pid: nat)
    requires SamePids(q, q')
    ensures Find(q', pid) == Find(q, pid)
  {
    var i, i' := Find(q, pid), Find(q', pid);
    assert i < |q| ==> q'[i].pid == pid;
    assert i' < |q| ==> q[i'].pid == pid;
  }

  lemma FindIsIndex(q: seq<Pcb>, i: nat)
    requires Distinct(q) && i < |q|
    ensures Find(q, q[i].pid) == i
  {
  }

  lemma FindOther(q: seq<Pcb>, a: nat, b: nat)
    requires a != b && Listed(q, a)
    ensures Find(q, a) != Find(q, b)
  {
  }

  lemma DropKeepsListed(q: seq<Pcb>, i: nat, pid: nat)
    requires Distinct(q) && i < |q|
    ensures Distinct(Drop(q, i))
    ensures Listed(Drop(q, i), pid) <==> Listed(q, pid) && pid != q[i].pid
    ensures Listed(q, pid) && pid != q[i].pid ==> Drop(q, i)[Find(Drop(q, i), pid)] == q[Find(q, pid)]
  {
    var r := Drop(q, i);
    var f := Find(q, pid);
    if f < |q| && f != i {
      var k := if f < i then f else f - 1;
      assert r[k] == q[f];
    }
    if Listed(r, pid) {
      var k := Find(r, pid);
      assert r[k] == q[if k < i then k else k + 1];
    }
  }

  // ----- the invariant -----

  predicate ForestAt(q: seq<Pcb>, p: Pcb) { p.parent == 0 || (p.parent < p.pid && Listed(q, p.parent)) }

  /** Every parent is 0 or a listed process with a smaller pid. */
  ghost predicate Forest(q: seq<Pcb>) {
    forall i {:trigger ForestAt(q, q[i])} :: 0 <= i < |q| ==> ForestAt(q, q[i])
  }

  predicate PidsBelow(q: seq<Pcb>, n: nat) { forall i :: 0 <= i < |q| ==> 1 <= q[i].pid < n }

  /** What holds of the table at every moment, also inside update_scheduler. The counter of the list
      is never too small; SchedulerRuns says by how much it is too large. */
  ghost predicate Core(s: Sched) {
    && Distinct(s.queue) && s.size >= |s.queue|
    && PidsBelow(s.queue, s.nextPid) && Forest(s.queue)
    && Listed(s.queue, s.current) && Listed(s.queue, IDLE) && Listed(s.queue, INIT)
    && s.queue[Find(s.queue, IDLE)].status != Waiting
  }

  predicate HardwareIsCurrent(s: Sched)
    requires Listed(s.queue, s.current)
  {
    var p := s.queue[Find(s.queue, s.current)];
    s.tss == p.kernelStack && s.cr3 == p.pageDirectory
  }

  /** The invariant between events. */
  ghost predicate Inv(s: Sched) { Core(s) && HardwareIsCurrent(s) && s.quantum < QUANTUM }

  /** Changes of the scheduling fields that leave idle selectable keep the table. */
  lemma SameShapeCore(s: Sched, s': Sched)
    requires Core(s) && SameShape(s.queue, s'.queue) && s'.size == s.size && s'.nextPid >= s.nextPid
    requires Listed(s'.queue, s'.current)
    requires s'.queue[Find(s.queue, IDLE)].status != Waiting
    ensures Core(s')
  {
    hide Find;
    SamePidsFind(s.queue, s'.queue, IDLE);
    SamePidsFind(s.queue, s'.queue, INIT);
    forall i | 0 <= i < |s'.queue|
      ensures ForestAt(s'.queue, s'.queue[i])
    {
      assert ForestAt(s.queue, s.queue[i]);
      SamePidsFind(s.queue, s'.queue, s.queue[i].parent);
    }
  }

  lemma SameShapeHardware(s: Sched, s': Sched)
    requires Listed(s.queue, s.current) && HardwareIsCurrent(s) && SameShape(s.queue, s'.queue)
    requires s'.current == s.current && s'.tss == s.tss && s'.cr3 == s.cr3
    ensures Listed(s'.queue, s'.current) && HardwareIsCurrent(s')
  {
    SamePidsFind(s.queue, s'.queue, s.current);
  }

  // ----- selecting the next process -----

  /** Steps along the cyclic list of length `n` from index `i` to index `t`. */
  function Distance(n: nat, i: nat, t: nat): (d: nat)
    requires i < n && t < n
    ensures d < n && (d == 0 <==> i == t)
  {
    if i <= t then t - i else n - i + t
  }

  lemma {:induction false} SkipStops(q: seq<Pcb>, i: nat, size: nat, t: nat)
    requires i < |q| && t < |q| && q[t].status != Waiting && Distance(|q|, i, t) <= size
    ensures q[Skip(q, i, size)].status != Waiting
    ensures Distance(|q|, i, Skip(q, i, size)) <= Distance(|q|, i, t)
    decreases size
  {
    if size > 0 && q[i].status == Waiting {
      SkipStops(q, After(q, i), size - 1, t);
    }
  }

  /** next_process stops at the first process after the current one that is not waiting. */
  lemma NextStops(q: seq<Pcb>, c: nat, size: nat, t: nat)
    requires c < |q| <= size && t < |q| && q[t].status != Waiting
    ensures var r := NextIndex(q, c, size);
      && q[r].status != Waiting
      && (t != c ==> r != c && Distance(|q|, c, r) <= Distance(|q|, c, t)
                     && Distance(|q|, r, t) < Distance(|q|, c, t))
  {
    SkipStops(q, After(q, c), size, t);
  }

  /** next_process never reaches its error loop. */
  lemma NextKeeps(s: Sched)
    requires Core(s)
    ensures Core(Next(s)) && CurrentStatus(Next(s)) != Waiting
    ensures Next(s) == s.(current := Next(s).current)
    ensures s.current != IDLE ==> Next(s).current != s.current
  {
    var q := s.queue;
    var c, t := Find(q, s.current), Find(q, IDLE);
    NextStops(q, c, s.size, t);
    var r := NextIndex(q, c, s.size);
    FindIsIndex(q, r);
  }

  // ----- removing a process -----

  /** What reparent_children does to each process. */
  predicate Reparented(q: seq<Pcb>, r: seq<Pcb>, dying: nat, heir: nat) {
    |r| == |q| && forall k :: 0 <= k < |q| ==>
      && r[k] == q[k].(parent := if q[k].parent == dying then heir else q[k].parent, waitingPid := r[k].waitingPid)
      && (q[k].waitingPid != dying ==> r[k].waitingPid == q[k].waitingPid)
  }

  lemma {:induction false} ReparentFromReparents(q: seq<Pcb>, dying: nat, heir: nat, i: nat)
    requires i <= |q| && heir != dying
    requires forall k :: 0 <= k < i ==> q[k].parent != dying
    ensures Reparented(q, ReparentFrom(q, dying, heir, i), dying, heir)
    decreases |q| - i
  {
    if i < |q| {
      var q1 := ReparentOne(q, dying, heir, i);
      ReparentFromReparents(q1, dying, heir, i + 1);
    }
  }

  lemma ReparentKeepsShape(q: seq<Pcb>, dying: nat)
    requires Distinct(q) && Forest(q)
    requires dying != 0
    ensures Reparented(q, Reparent(q, dying), dying, if Listed(q, dying) then q[Find(q, dying)].parent else 0)
    ensures SamePids(q, Reparent(q, dying)) && Distinct(Reparent(q, dying))
    ensures Find(Reparent(q, dying), dying) == Find(q, dying)
  {
    var i := Find(q, dying);
    if i < |q| {
      assert ForestAt(q, q[i]);
    }
    ReparentFromReparents(q, dying, if i < |q| then q[i].parent else 0, 0);
    SamePidsFind(q, Reparent(q, dying), dying);
  }

  /** The list after unlinking index `i` of a list whose children have been reparented. */
  lemma UnlinkedProcess(q: seq<Pcb>, r: seq<Pcb>, i: nat, k: nat)
    requires Distinct(q) && i < |q| && Reparented(q, r, q[i].pid, q[i].parent)
    ensures Distinct(Drop(r, i))
    ensures Listed(Drop(r, i), k) <==> Listed(q, k) && k != q[i].pid
    ensures Listed(q, k) && k != q[i].pid ==> SamePcb(q[Find(q, k)], Drop(r, i)[Find(Drop(r, i), k)], q[i].pid)
  {
    SamePidsFind(q, r, k);
    DropKeepsListed(r, i, k);
  }

  lemma UnlinkedForest(q: seq<Pcb>, r: seq<Pcb>, i: nat, j: nat)
    requires Distinct(q) && i < |q| && Reparented(q, r, q[i].pid, q[i].parent) && j < |q| - 1
    requires Forest(q)
    ensures ForestAt(Drop(r, i), Drop(r, i)[j])
    ensures Drop(r, i)[j].pid == q[if j < i then j else j + 1].pid
  {
    var k := if j < i then j else j + 1;
    assert ForestAt(q, q[k]) && ForestAt(q, q[i]);
    UnlinkedProcess(q, r, i, r[k].parent);
  }

  lemma RemoveIs(s: Sched, pid: nat)
    requires Core(s) && pid != s.current && !Protected(pid) && Listed(s.queue, pid)
    ensures var q, r := s.queue, Reparent(s.queue, pid);
      && Reparented(q, r, pid, q[Find(q, pid)].parent)
      && Remove(s, pid) == s.(queue := Drop(r, Find(q, pid)), size := s.size - 1)
  {
    hide Find, Reparent;
    ReparentKeepsShape(s.queue, pid);
  }

  /** Removing a listed process takes it out and leaves every other process as it was, but for
      its parent and, where it waits for that one, the pid it waits for. */
  lemma RemoveKeepsOthers(s: Sched, pid: nat, k: nat)
    requires Core(s) && pid != s.current && !Protected(pid) && Listed(s.queue, pid)
    ensures var q' := Remove(s, pid).queue;
      && (Listed(q', k) <==> Listed(s.queue, k) && k != pid)
      && (Listed(s.queue, k) && k != pid ==> SamePcb(s.queue[Find(s.queue, k)], q'[Find(q', k)], pid))
  {
    RemoveIs(s, pid);
    hide Remove, Reparent, Find;
    UnlinkedProcess(s.queue, Reparent(s.queue, pid), Find(s.queue, pid), k);
  }

  lemma UnlinkedTable(q: seq<Pcb>, r: seq<Pcb>, i: nat, n: nat)
    requires Distinct(q) && i < |q| && Reparented(q, r, q[i].pid, q[i].parent) && Forest(q) && PidsBelow(q, n)
    ensures Distinct(Drop(r, i)) && Forest(Drop(r, i)) && PidsBelow(Drop(r, i), n)
  {
    forall j | 0 <= j < |q| - 1
      ensures ForestAt(Drop(r, i), Drop(r, i)[j])
      ensures 1 <= Drop(r, i)[j].pid < n
    {
      UnlinkedForest(q, r, i, j);
    }
    UnlinkedProcess(q, r, i, 0);
  }

  /** Unlinking a listed process keeps the table: its children get its parent. */
  lemma RemoveKeeps(s: Sched, pid: nat)
    requires Core(s) && pid != s.current && !Protected(pid) && Listed(s.queue, pid)
    ensures Core(Remove(s, pid)) && Remove(s, pid).current == s.current
  {
    hide Find, Reparent, Forest, PidsBelow, Distinct, Reparented;
    RemoveIs(s, pid);
    RemoveKeepsOthers(s, pid, s.current);
    RemoveKeepsOthers(s, pid, IDLE);
    RemoveKeepsOthers(s, pid, INIT);
    UnlinkedTable(s.queue, Reparent(s.queue, pid), Find(s.queue, pid), s.nextPid);
  }

  /** Removing a pid that is not listed changes nothing: such a pid has no children. */
  lemma RemoveAbsent(s: Sched, pid: nat)
    requires Core(s) && pid != 0 && !Protected(pid) && !Listed(s.queue, pid)
    ensures Remove(s, pid) == s
  {
    var q := s.queue;
    forall k | 0 <= k < |q|
      ensures q[k].parent != pid
    {
      assert ForestAt(q, q[k]);
    }
    NoChildrenNoChange(q, pid, 0, 0);
  }

  lemma {:induction false} NoChildrenNoChange(q: seq<Pcb>, dying: nat, heir: nat, i: nat)
    requires i <= |q| && forall k :: 0 <= k < |q| ==> q[k].parent != dying
    ensures ReparentFrom(q, dying, heir, i) == q
    decreases |q| - i
  {
    if i < |q| {
      NoChildrenNoChange(q, dying, heir, i + 1);
    }
  }

  /** Everything but the parent and the awaited pid; that too when it is not the one removed. */
  predicate SamePcb(p: Pcb, p': Pcb, removed: nat) {
    && p' == p.(parent := p'.parent, waitingPid := p'.waitingPid)
    && (p.waitingPid != removed ==> p'.waitingPid == p.waitingPid)
  }
}
