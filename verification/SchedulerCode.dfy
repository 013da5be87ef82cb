/** scheduler.c, stdin.c and the process handlers of syscall.c in their own form: control blocks
    linked through `next` and changed in place, global pointers and counters. Each method is
    proved against the function of Scheduling that says what it does to the process table. */
module SchedulerCode {
  import opened Lists
  import opened Scheduling
  import opened ProcessTable
  import opened SchedulerRuns

  /** scheduler_remove of another process, as one change of the list. */
  lemma RemoveInList(s: Sched, pid: nat)
    requires Core(s) && pid != s.current && !Protected(pid)
    ensures var q := Unlink(Reparent(s.queue, pid), pid);
      Remove(s, pid) == s.(queue := q, size := s.size - (|s.queue| - |q|)) && s.size >= |s.queue| >= |q|
  {
  }

  class Process {
    const pid: nat
    const kernelStack: nat
    const pageDirectory: nat
    var parentPid: nat
    var status: Status
    var next: Process?
    var waitingPid: nat
    var sleepTicks: nat
    var registers: Registers

    constructor (pid: nat, parentPid: nat, registers: Registers, kernelStack: nat, pageDirectory: nat)
      ensures View() == Pcb(pid, parentPid, Ready, 0, 0, registers, kernelStack, pageDirectory) && next == null
      ensures this.pid == pid
    {
      this.pid, this.kernelStack, this.pageDirectory := pid, kernelStack, pageDirectory;
      this.parentPid, this.registers := parentPid, registers;
      status, next, waitingPid, sleepTicks := Ready, null, 0, 0;
    }

    /** One iteration of the loop of decrement_wait_process. */
    method Age() returns (woke: bool)
      modifies `sleepTicks, `status
      ensures View() == Decremented(old(View())) && (woke <==> Wakes(old(View())))
    {
      woke := false;
      if sleepTicks > 0 {
        sleepTicks := sleepTicks - 1;
        if sleepTicks == 0 && status == Waiting {
          status := Ready;
          woke := true;
        }
      }
    }

    function View(): Pcb
      reads this
    {
      Pcb(pid, parentPid, status, waitingPid, sleepTicks, registers, kernelStack, pageDirectory)
    }
  }

  /** The choice of next_process; its size counter does not run out before it is made. */
  lemma NextChoice(s: Sched, c: nat)
    requires Core(s) && c < |s.queue| && Find(s.queue, s.current) == c
    ensures var r := NextIndex(s.queue, c, s.size);
      Next(s) == s.(current := s.queue[r].pid) && s.queue[r].status != Waiting && s.size >= |s.queue|
  {
    NextStops(s.queue, c, s.size, Find(s.queue, IDLE));
  }

  lemma SkipStarts(q: seq<Pcb>, c: nat, size: nat)
    requires c < |q|
    ensures NextIndex(q, c, size) == Skip(q, After(q, c), size)
  {
  }

  lemma SkipStep(q: seq<Pcb>, i: nat, size: nat)
    requires i < |q|
    ensures Skip(q, i, size) ==
      if size > 0 && q[i].status == Waiting then Skip(q, After(q, i), size - 1) else i
  {
  }

  ghost function Views(nodes: seq<Process>): (q: seq<Pcb>)
    reads nodes
    ensures |q| == |nodes| && forall i :: 0 <= i < |q| ==> q[i] == nodes[i].View()
  {
    seq(|nodes|, i requires 0 <= i < |nodes| reads nodes => nodes[i].View())
  }

  /** What `next` of the process at `i` should be. */
  ghost function NextOf(nodes: seq<Process>, i: nat): Process? {
    if i + 1 < |nodes| then nodes[i + 1] else null
  }

  class Scheduler {
    var head: Process
    var current: Process
    var queueSize: nat
    var pidCounter: nat
    var quantum: nat
    var foreground: nat
    var reader: Process?
    var cpu: Registers
    var tss: nat
    var cr3: nat
    ghost var nodes: seq<Process>

    /** The `next` pointers run through `nodes`, each once, and end: the list is acyclic. */
    ghost predicate Linked()
      reads `nodes, `head, nodes`next
    {
      && |nodes| > 0 && head == nodes[0]
      && (forall i {:trigger nodes[i].next} :: 0 <= i < |nodes| - 1 ==> nodes[i].next == nodes[i + 1])
      && nodes[|nodes| - 1].next == null
      && (forall i, j :: 0 <= i < j < |nodes| ==> nodes[i].pid != nodes[j].pid)
    }

    /** Also, the current process is listed, and a listed reader is the process it names. */
    ghost predicate Valid()
      reads `nodes, `head, `current, `reader, nodes`next
    {
      && Linked() && current in nodes
      && (reader != null ==>
            reader.pid != 0 && forall i :: 0 <= i < |nodes| && nodes[i].pid == reader.pid ==> nodes[i] == reader)
    }

    ghost function Queue(): (q: seq<Pcb>)
      reads `nodes, nodes
      ensures |q| == |nodes| && forall i :: 0 <= i < |q| ==> q[i] == nodes[i].View()
    {
      Views(nodes)
    }

    ghost function View(): Sched
      reads this, nodes
    {
      Sched(Queue(), current.pid, queueSize, pidCounter, quantum, foreground,
            if reader == null then 0 else reader.pid, cpu, tss, cr3)
    }

    /** kernel_main: init heads the list and is current, idle is enqueued, the scheduler starts. */
    constructor (init: Process, idle: Process)
      requires init != idle && init.next == null && idle.next == null && init.pid == INIT && idle.pid == IDLE
      requires init.View() == Pcb(INIT, 0, Ready, 0, 0, init.registers, init.kernelStack, init.pageDirectory)
      requires idle.View() == Pcb(IDLE, 0, Ready, 0, 0, idle.registers, idle.kernelStack, idle.pageDirectory)
      modifies init
      ensures Valid() && View() == Booted(old(init.View()), idle.View())
    {
      head, current := init, init;
      queueSize, pidCounter, quantum, foreground, reader := 2, 3, 0, 0, null;
      cpu, tss, cr3 := init.registers, init.kernelStack, init.pageDirectory;
      nodes := [init, idle];
      new;
      init.next := idle;
      init.status := Running;
    }

    /** The position of a listed process. */
    ghost function Index(p: Process): (i: nat)
      requires Linked() && p in nodes
      reads `nodes, `head, nodes
      ensures i < |nodes| && nodes[i] == p && Find(Queue(), p.pid) == i
    {
      var i :| 0 <= i < |nodes| && nodes[i] == p;
      assert Distinct(Queue());
      FindIsIndex(Queue(), i);
      i
    }

    lemma Link(k: nat)
      requires Linked()
      ensures |nodes| > 0 && forall i, j :: 0 <= i < j < |nodes| ==> nodes[i] != nodes[j]
      ensures k < |nodes| ==> nodes[k].next == if k + 1 < |nodes| then nodes[k + 1] else null
      ensures nodes[0] == head
    {
    }

    method NextProcess()
      requires Valid() && Core(View())
      modifies this`current
      ensures Valid() && View() == Next(old(View()))
    {
      hide Find, Core, Next, Linked, Views, After, Skip, NextIndex;
      ghost var q, c := Queue(), Index(current);
      NextChoice(View(), c);
      var size := queueSize;
      Advance(c);
      SkipStarts(q, c, size);
      ghost var i: nat := After(q, c);
      while size > 0 && current.status == Waiting
        invariant i < |nodes| && current == nodes[i]
        invariant Skip(q, i, size) == NextIndex(q, c, queueSize) && Queue() == q
        decreases size
      {
        SkipStep(q, i, size);
        Advance(i);
        i := After(q, i);
        size := size - 1;
      }
      SkipStep(q, i, size);
      assert q[i].status == current.status && q[i].pid == current.pid;
    }

    /** To the next process, or from the last one to the head. */
    method Advance(ghost i: nat)
      requires Linked() && i < |nodes| && current == nodes[i]
      modifies `current
      ensures After(Queue(), i) < |nodes| && current == nodes[After(Queue(), i)]
    {
      hide Linked, Views;
      Link(i);
      current := if current.next != null then current.next else head;
    }

    method DecrementWaitProcess() returns (woke: bool)
      requires Valid()
      modifies nodes`sleepTicks, nodes`status
      ensures Valid() && View() == old(View()).(queue := DecrementAll(old(Queue())))
      ensures woke <==> AnyWakes(old(Queue()))
    {
      hide Linked, Views;
      woke := AgeNodes();
    }

    method AgeNodes() returns (woke: bool)
      requires Linked()
      modifies nodes`sleepTicks, nodes`status
      ensures Queue() == DecrementAll(old(Queue())) && (woke <==> AnyWakes(old(Queue())))
    {
      hide Linked, Views, Decremented, Wakes, AgedUpTo;
      woke := false;
      Link(0);
      ghost var q, k: nat := Queue(), 0;
      NoneAged(q);
      var p: Process? := head;
      while p != null
        invariant Linked() && k <= |nodes| && p == (if k < |nodes| then nodes[k] else null)
        invariant |q| == |nodes| && AgedUpTo(q, Queue(), k, woke)
        decreases |nodes| - k
      {
        Link(k);
        AgeStep(q, Queue(), k, woke);
        var w := AgeNode(p, k);
        woke := woke || w;
        k := k + 1;
        p := p.next;
      }
      AllAged(q, Queue(), woke);
    }

    method AgeNode(p: Process, ghost k: nat) returns (woke: bool)
      requires Linked() && k < |nodes| && p == nodes[k]
      modifies p`sleepTicks, p`status
      ensures Linked() && Queue() == old(Queue())[k := Decremented(old(Queue())[k])]
      ensures woke <==> Wakes(old(Queue())[k])
    {
      hide Linked, Views, Decremented, Wakes;
      Link(k);
      ghost var q := Queue();
      woke := p.Age();
      assert Queue() == q[k := Decremented(q[k])];
    }

    method WakeWaiter(pid: nat)
      requires Valid()
      modifies nodes`status
      ensures Valid() && View() == old(View()).(queue := Wake(old(Queue()), pid))
    {
      hide Linked, Views;
      Link(0);
      ghost var q, k: nat := Queue(), 0;
      var p: Process? := head;
      while p != null
        invariant Linked() && k <= |nodes| && p == (if k < |nodes| then nodes[k] else null)
        invariant Queue() == q && forall i :: 0 <= i < k ==> q[i].waitingPid != pid
        decreases |nodes| - k
      {
        Link(k);
        assert q[k] == p.View();
        if p.waitingPid == pid {
          assert k == FindWaiter(q, pid);
          MakeReady(p, k);
          return;
        }
        k := k + 1;
        p := p.next;
      }
    }

    method MakeReady(p: Process, ghost k: nat)
      requires Valid() && k < |nodes| && p == nodes[k]
      modifies p`status
      ensures Valid() && Queue() == old(Queue())[k := old(Queue())[k].(status := Ready)]
    {
      hide Linked, Views;
      Link(k);
      ghost var q := Queue();
      p.status := Ready;
      assert Queue() == q[k := q[k].(status := Ready)];
    }

    /** The inner loop of reparent_children: the first process waiting for `pid` waits for `heir`. */
    method Retarget(pid: nat, heir: nat)
      requires Linked()
      modifies nodes`waitingPid
      ensures var q, w := old(Queue()), FindWaiter(old(Queue()), pid);
        Queue() == if w < |q| then q[w := q[w].(waitingPid := heir)] else q
    {
      hide Linked, Views;
      Link(0);
      ghost var q, k: nat := Queue(), 0;
      var p: Process? := head;
      while p != null
        invariant k <= |nodes| && p == (if k < |nodes| then nodes[k] else null)
        invariant Queue() == q && forall i :: 0 <= i < k ==> q[i].waitingPid != pid
        decreases |nodes| - k
      {
        Link(k);
        assert q[k] == p.View();
        if p.waitingPid == pid {
          assert k == FindWaiter(q, pid);
          p.waitingPid := heir;
          assert Queue() == q[k := q[k].(waitingPid := heir)];
          return;
        }
        k := k + 1;
        p := p.next;
      }
    }

    /** The first loop of reparent_children, and of others that look a process up. */
    method Lookup(pid: nat) returns (p: Process?)
      requires Linked()
      ensures p == if Listed(Queue(), pid) then nodes[Find(Queue(), pid)] else null
    {
      hide Linked, Views, Find;
      Link(0);
      ghost var k: nat := 0;
      p := head;
      while p != null
        invariant k <= |nodes| && p == (if k < |nodes| then nodes[k] else null)
        invariant forall i :: 0 <= i < k ==> Queue()[i].pid != pid
        decreases |nodes| - k
      {
        Link(k);
        assert Queue()[k].pid == p.pid;
        if p.pid == pid {
          return;
        }
        k := k + 1;
        p := p.next;
      }
    }

    /** One iteration of the second loop of reparent_children, at a child of the dying process. */
    method ReparentNode(p: Process, ghost k: nat, dying: nat, heir: nat)
      requires Linked() && k < |nodes| && nodes[k] == p && p.parentPid == dying
      modifies nodes`parentPid, nodes`waitingPid
      ensures Queue() == ReparentOne(old(Queue()), dying, heir, k)
      ensures forall i :: 0 <= i < |nodes| && i != k ==> nodes[i].parentPid == old(nodes[i].parentPid)
      ensures p.parentPid == heir
    {
      hide Linked, Views, FindWaiter;
      Link(0);
      ghost var q := Queue();
      p.parentPid := heir;
      assert Queue() == q[k := q[k].(parent := heir)];
      Retarget(dying, p.pid);
      assert forall i :: 0 <= i < |nodes| ==> Queue()[i].parent == nodes[i].parentPid;
    }

    /** What reparent_children knows of the dying process: it is unlisted and has no children, or
        its parent is the heir. */
    ghost predicate HeirIs(dyingProcess: Process?, dying: nat, heir: nat)
      reads `nodes, nodes`parentPid, if dyingProcess == null then {} else {dyingProcess}
    {
      if dyingProcess == null then forall i :: 0 <= i < |nodes| ==> nodes[i].parentPid != dying
      else dyingProcess.parentPid == heir != dying
    }

    /** One iteration of the second loop of reparent_children. */
    method ReparentVisit(p: Process, ghost k: nat, dying: nat, dyingProcess: Process?, ghost heir: nat)
      requires Linked() && k < |nodes| && nodes[k] == p && HeirIs(dyingProcess, dying, heir)
      requires dyingProcess != null ==> dyingProcess in nodes
      modifies nodes`parentPid, nodes`waitingPid
      ensures Queue() == ReparentOne(old(Queue()), dying, heir, k) && HeirIs(dyingProcess, dying, heir)
    {
      hide Linked, Views, ReparentOne;
      Link(0);
      assert Queue()[k].parent == p.parentPid;
      if p.parentPid == dying {
        ReparentNode(p, k, dying, dyingProcess.parentPid);
      } else {
        NoChildNoChange(Queue(), dying, heir, k);
      }
    }

    method ReparentChildren(dying: nat)
      requires Linked() && dying >= 1 && Distinct(Queue()) && Forest(Queue())
      modifies nodes`parentPid, nodes`waitingPid
      ensures Linked() && Queue() == Reparent(old(Queue()), dying)
    {
      hide Linked, Views, Find, ReparentOne, ReparentFrom, Forest, Distinct, HeirIs;
      Link(0);
      ghost var q, k: nat := Queue(), 0;
      ghost var heir := HeirOf(q, dying);
      var dyingProcess := Lookup(dying);
      KnownHeir(dyingProcess, dying);
      var p: Process? := head;
      while p != null
        invariant k <= |nodes| && p == (if k < |nodes| then nodes[k] else null)
        invariant ReparentFrom(Queue(), dying, heir, k) == ReparentFrom(q, dying, heir, 0)
        invariant HeirIs(dyingProcess, dying, heir)
        decreases |nodes| - k
      {
        Link(k);
        ReparentFromStep(Queue(), dying, heir, k);
        ReparentVisit(p, k, dying, dyingProcess, heir);
        k := k + 1;
        p := p.next;
      }
      ReparentFromStep(Queue(), dying, heir, k);
      ReparentIs(q, dying);
    }

    lemma KnownHeir(dyingProcess: Process?, dying: nat)
      requires dying >= 1 && Distinct(Queue()) && Forest(Queue())
      requires dyingProcess == if Listed(Queue(), dying) then nodes[Find(Queue(), dying)] else null
      ensures HeirIs(dyingProcess, dying, HeirOf(Queue(), dying))
    {
      hide Views;
      HeirIsNotDying(Queue(), dying);
      assert forall i :: 0 <= i < |nodes| ==> Queue()[i].parent == nodes[i].parentPid;
    }

    /** Where the current process is, and what the specification finds there. */
    lemma CurrentIs()
      requires Valid()
      ensures Distinct(Queue()) && Listed(Queue(), current.pid) && nodes[Find(Queue(), current.pid)] == current
      ensures CurrentStatus(View()) == current.status
    {
      var i := Index(current);
    }

    /** Unlinks `p`, the process at position `k`, whose predecessor is `prev`. */
    method UnlinkNode(p: Process, prev: Process?, ghost k: nat)
      requires Linked() && k < |nodes| && |nodes| > 1 && nodes[k] == p
      requires prev == if k == 0 then null else nodes[k - 1]
      modifies `head, `nodes, nodes`next
      ensures Linked() && nodes == Drop(old(nodes), k) && Queue() == Drop(old(Queue()), k)
    {
      hide Linked, Views;
      ghost var q := Queue();
      Bypass(p, prev, k);
      forall i | 0 <= i < |nodes|
        ensures Queue()[i] == Drop(q, k)[i]
      {
        assert nodes[i] == old(nodes)[if i < k then i else i + 1];
      }
      assert Queue() == Drop(q, k);
    }

    method Bypass(p: Process, prev: Process?, ghost k: nat)
      requires Linked() && k < |nodes| && |nodes| > 1 && nodes[k] == p
      requires prev == if k == 0 then null else nodes[k - 1]
      modifies `head, `nodes, nodes`next
      ensures Linked() && nodes == Drop(old(nodes), k)
      ensures forall i :: 0 <= i < |old(nodes)| ==> old(nodes)[i].View() == old(nodes[i].View())
    {
      hide Linked;
      ghost var before := nodes;
      LinksAre();
      if prev == null {
        head := p.next;
      } else {
        prev.next := p.next;
      }
      nodes := Drop(nodes, k);
      Relinked(before, k);
    }

    lemma LinksAre()
      requires Linked()
      ensures |nodes| > 0 && head == nodes[0]
      ensures forall i :: 0 <= i < |nodes| ==> nodes[i].next == NextOf(nodes, i)
      ensures forall i, j :: 0 <= i < j < |nodes| ==> nodes[i].pid != nodes[j].pid
    {
    }

    /** The list without its process at `k`, whose predecessor points past it. */
    lemma Relinked(before: seq<Process>, k: nat)
      requires k < |before| && |before| > 1 && nodes == Drop(before, k)
      requires forall i, j :: 0 <= i < j < |before| ==> before[i].pid != before[j].pid
      requires forall i {:trigger before[i].next} :: 0 <= i < |before| && i != k ==>
        before[i].next == NextOf(before, if i == k - 1 then k else i)
      requires head == if k == 0 then before[1] else before[0]
      ensures Linked()
    {
      forall i | 0 <= i < |nodes|
        ensures nodes[i].next == NextOf(nodes, i)
      {
        assert nodes[i] == before[if i < k then i else i + 1];
      }
    }

    method TakeOut(p: Process, prev: Process?, ghost k: nat)
      requires Valid() && k < |nodes| && nodes[k] == p && p != current && queueSize >= |nodes|
      requires prev == if k == 0 then null else nodes[k - 1]
      modifies `head, `nodes, `queueSize, nodes`next
      ensures Valid() && queueSize == old(queueSize) - 1 && Queue() == old(Queue())[..k] + old(Queue())[k + 1..]
      ensures forall n :: n in nodes ==> n in old(nodes)
    {
      hide Linked, Views;
      ghost var before := nodes;
      SingleNode(current, p);
      UnlinkNode(p, prev, k);
      queueSize := queueSize - 1;
      StillCurrent(before, k);
    }

    /** The unlinking loop of scheduler_remove. */
    method Dequeue(pid: nat)
      requires Valid() && pid != current.pid && queueSize >= |nodes|
      modifies `head, `nodes, `queueSize, nodes`next
      ensures Valid() && Queue() == Unlink(old(Queue()), pid)
      ensures |nodes| <= |old(nodes)| && queueSize == old(queueSize) - (|old(nodes)| - |nodes|)
      ensures forall n :: n in nodes ==> n in old(nodes)
    {
      hide Linked, Views, Find, Unlink;
      UnlinkIs(Queue(), pid);
      var p, prev, k := FindWithPrevious(pid);
      if p != null {
        TakeOut(p, prev, k);
      }
    }

    method FindWithPrevious(pid: nat) returns (p: Process?, prev: Process?, ghost k: nat)
      requires Linked()
      ensures k == Find(Queue(), pid) && p == (if k < |nodes| then nodes[k] else null)
      ensures prev == if k == 0 then null else nodes[k - 1]
    {
      hide Linked, Views, Find;
      Link(0);
      k := 0;
      p, prev := head, null;
      while p != null && p.pid != pid
        invariant k <= |nodes| && p == (if k < |nodes| then nodes[k] else null)
        invariant prev == if k == 0 then null else nodes[k - 1]
        invariant forall i :: 0 <= i < k ==> Queue()[i].pid != pid
        decreases |nodes| - k
      {
        Link(k);
        assert Queue()[k].pid == p.pid;
        k := k + 1;
        prev := p;
        p := p.next;
      }
      assert k < |nodes| ==> Queue()[k].pid == pid;
    }

    method SetCurrentStatus(st: Status)
      requires Valid()
      modifies current`status
      ensures Valid() && View() == old(View()).(queue := SetStatus(old(Queue()), current.pid, st))
      ensures current.status == st
    {
      hide Linked, Views, Find;
      CurrentIs();
      ghost var q, c := Queue(), Find(Queue(), current.pid);
      Link(0);
      current.status := st;
      assert Queue() == q[c := q[c].(status := st)];
    }

    /** scheduler_remove. */
    method RemoveProcess(pid: nat) returns (ok: bool)
      requires Valid() && Core(View()) && pid >= 1
      modifies `head, `nodes, `queueSize, nodes`next, nodes`status, nodes`parentPid, nodes`waitingPid
      ensures Valid() && View() == Remove(old(View()), pid) && (ok <==> !Protected(pid))
      ensures forall n :: n in nodes ==> n in old(nodes)
    {
      hide Linked, Views, Find, Reparent, Forest, PidsBelow, Distinct, Unlink;
      if pid == 1 || pid == 2 {
        return false;
      }
      ok := true;
      CurrentIs();
      if pid == current.pid {
        SetCurrentStatus(Zombie);
        return;
      }
      hide Remove;
      RemoveOther(pid);
    }

    method RemoveOther(pid: nat)
      requires Valid() && Core(View()) && pid != current.pid && !Protected(pid) && pid >= 1
      modifies `head, `nodes, `queueSize, nodes`next, nodes`parentPid, nodes`waitingPid
      ensures Valid() && View() == Remove(old(View()), pid)
      ensures forall n :: n in nodes ==> n in old(nodes)
    {
      hide Linked, Views, Find, Reparent, Forest, PidsBelow, Distinct, Unlink, Remove;
      RemoveInList(View(), pid);
      ReparentChildren(pid);
      Dequeue(pid);
    }

    lemma SingleNode(p: Process, p': Process)
      requires p in nodes && p' in nodes && p != p'
      ensures |nodes| > 1
    {
    }

    lemma StillCurrent(before: seq<Process>, k: nat)
      requires k < |before| && nodes == before[..k] + before[k + 1..] && current in before && before[k] != current
      ensures current in nodes
    {
      var i :| 0 <= i < |before| && before[i] == current;
      assert nodes[if i < k then i else i - 1] == current;
    }

    method SaveRegisters()
      requires Valid()
      modifies nodes`registers
      ensures Valid() && View() == old(View()).(queue := SetRegs(old(Queue()), current.pid, cpu))
    {
      hide Linked, Views, Find;
      CurrentIs();
      ghost var q, c := Queue(), Find(Queue(), current.pid);
      Link(0);
      current.registers := cpu;
      assert Queue() == q[c := q[c].(regs := cpu)];
    }

    /** The end of update_scheduler: the current process takes the processor. */
    method LoadCurrent()
      requires Valid()
      modifies `cpu, `tss, `cr3, `quantum, current`status
      ensures Valid() && View() == Resume(old(View()))
    {
      hide Linked, Views, Find, Valid, SetStatus, Resume;
      CurrentIs();
      ResumeIs(View());
      SetCurrentStatus(Running);
      LoadRegisters();
      ClearQuantum();
    }

    method ClearQuantum()
      requires Valid()
      modifies `quantum
      ensures Valid() && View() == old(View()).(quantum := 0)
    {
      quantum := 0;
    }

    /** update_scheduler when the current process is a zombie: its waiter wakes, another process
        is selected, and it is removed. */
    method RetireCurrent(ghost s: Sched)
      requires Valid() && Core(s) && View() == Age(s) && current.status == Zombie
      modifies `head, `nodes, `queueSize, `current, nodes`next, nodes`status, nodes`parentPid, nodes`waitingPid
      ensures Valid() && View() == Remove(Next(GiveUp(s)), s.current)
      ensures forall n :: n in nodes ==> n in old(nodes)
    {
      hide Linked, Views, Find, Core, Valid, Remove, Wake, DecrementAll, Next;
      GiveUpKeeps(s);
      NextKeeps(GiveUp(s));
      CurrentIs();
      PidIsPositive(GiveUp(s));
      var pid := current.pid;
      WakeWaiter(pid);
      assert View() == GiveUp(s);
      NextProcess();
      var _ := RemoveProcess(pid);
    }

    /** update_scheduler when the current process is preempted or blocked. */
    method PreemptCurrent(ghost s: Sched)
      requires Valid() && Core(s) && View() == Age(s) && current.status != Zombie
      modifies `current, nodes`registers
      ensures Valid() && View() == Next(GiveUp(s))
    {
      hide Linked, Views, Find, Core, Valid, SetRegs, DecrementAll, Next;
      GiveUpKeeps(s);
      CurrentIs();
      SaveRegisters();
      assert View() == GiveUp(s);
      NextProcess();
    }

    /** update_scheduler once it has decided to give the current process up. */
    method SwitchProcess(ghost s: Sched)
      requires Valid() && Core(s) && View() == Age(s)
      modifies `head, `nodes, `queueSize, `current, `quantum, `cpu, `tss, `cr3
      modifies nodes`next, nodes`status, nodes`parentPid, nodes`waitingPid, nodes`registers
      ensures Valid() && View() == Switch(s)
      ensures forall n :: n in nodes ==> n in old(nodes)
    {
      hide Linked, Views, Find, Core, Valid, Remove, GiveUp, Age, Resume, Next, CurrentStatus;
      CurrentIs();
      if current.status == Zombie {
        RetireCurrent(s);
      } else {
        PreemptCurrent(s);
      }
      CurrentIs();
      assert current in nodes;
      assert current in old(nodes);
      LoadCurrent();
    }

    method UpdateScheduler()
      requires Valid() && Core(View())
      modifies `head, `nodes, `queueSize, `current, `quantum, `cpu, `tss, `cr3
      modifies nodes`next, nodes`status, nodes`parentPid, nodes`waitingPid, nodes`sleepTicks, nodes`registers
      ensures Valid() && View() == Update(old(View()))
      ensures forall n :: n in nodes ==> n in old(nodes)
    {
      hide Linked, Views, Find, Core, Valid, Switch, DecrementAll, AnyWakes, CurrentStatus;
      ghost var s := View();
      var woke := DecrementWaitProcess();
      quantum := quantum + 1;
      CurrentIs();
      if !woke && quantum < QUANTUM && (current.status == Ready || current.status == Running) {
        return;
      }
      SwitchProcess(s);
    }

    // ----- the handlers -----

    /** scheduler_enqueue; NULL stands for a control block that the heap had no room for. */
    method Enqueue(p: Process?)
      requires Valid()
      requires p != null ==> p !in nodes && p.next == null && (reader == null || p.pid != reader.pid)
      requires p != null ==> forall n :: n in nodes ==> n.pid != p.pid
      modifies nodes`next, `queueSize, `nodes
      ensures Valid() && Queue() == old(Queue()) + (if p == null then [] else [p.View()])
      ensures queueSize == old(queueSize) + 1
    {
      hide Linked, Views;
      Link(0);
      ghost var k: nat := 0;
      var last := head;
      while last.next != null
        invariant unchanged(this) && unchanged(nodes)
        invariant k < |nodes| && last == nodes[k]
        decreases |nodes| - k
      {
        Link(k);
        last := last.next;
        k := k + 1;
      }
      Link(k);
      if p != null {
        AppendNode(last, p);
      } else {
        AppendNull(last);
      }
    }

    method AppendNull(last: Process)
      requires Valid() && last == nodes[|nodes| - 1]
      modifies last`next, `queueSize
      ensures Valid() && Queue() == old(Queue()) && queueSize == old(queueSize) + 1
    {
      last.next := null;
      queueSize := queueSize + 1;
    }

    method AppendNode(last: Process, p: Process)
      requires Valid() && p !in nodes && p.next == null && (reader == null || p.pid != reader.pid)
      requires last == nodes[|nodes| - 1] && forall n :: n in nodes ==> n.pid != p.pid
      modifies nodes`next, `queueSize, `nodes
      ensures Valid() && Queue() == old(Queue()) + [p.View()]
      ensures queueSize == old(queueSize) + 1 && nodes == old(nodes) + [p]
    {
      hide Views;
      last.next := p;
      queueSize := queueSize + 1;
      nodes := nodes + [p];
    }

    /** create_process_control_block and scheduler_enqueue; `block` is what kmalloc gave. The result
        is the pid written into the new control block, wherever that is. */
    method AddNew(block: nat, parent: nat, regs: Registers, kernelStack: nat, pageDirectory: nat)
      returns (pid: nat)
      requires Valid() && PidsBelow(Queue(), pidCounter) && (reader == null || reader.pid < pidCounter)
      modifies nodes`next, `queueSize, `nodes, `pidCounter
      ensures Valid() && pid == old(pidCounter)
      ensures var s := old(View());
        View() == AddProcess(s, block, NewProcess(s, parent, regs, kernelStack, pageDirectory))
    {
      hide Linked, Views;
      var p: Process? := null;
      PidsAreOld();
      if block != 0 {
        p := new Process(pidCounter, parent, regs, kernelStack, pageDirectory);
      }
      pid := pidCounter;
      pidCounter := pidCounter + 1;
      Enqueue(p);
    }

    lemma PidsAreOld()
      requires PidsBelow(Queue(), pidCounter)
      ensures forall n :: n in nodes ==> n.pid < pidCounter
    {
      assert forall i :: 0 <= i < |nodes| ==> Queue()[i].pid == nodes[i].pid;
    }

    /** The process part of handle_syscall_fork. */
    method ForkCurrent(block: nat, kernelStack: nat, pageDirectory: nat)
      requires Valid() && PidsBelow(Queue(), pidCounter) && (reader == null || reader.pid < pidCounter)
      modifies nodes`next, `queueSize, `nodes, `pidCounter, `cpu
      ensures Valid() && View() == ForkProcess(old(View()), block, kernelStack, pageDirectory)
    {
      hide Valid, AddProcess;
      var pid := AddNew(block, current.pid, cpu.(eax := 0), kernelStack, pageDirectory);
      ReturnValue(pid);
    }

    method ReturnValue(eax: nat)
      requires Valid()
      modifies `cpu
      ensures Valid() && View() == old(View()).(cpu := old(cpu).(eax := eax))
    {
      cpu := cpu.(eax := eax);
    }

    /** The end of desktop_spawn_program. */
    method LaunchProgram(program: Registers, block: nat, kernelStack: nat, pageDirectory: nat)
      requires Valid() && PidsBelow(Queue(), pidCounter) && (reader == null || reader.pid < pidCounter)
      modifies nodes`next, `queueSize, `nodes, `pidCounter
      ensures Valid() && View() == Step(old(View()), Launch(program, block, kernelStack, pageDirectory))
    {
      hide Valid, AddProcess;
      var _ := AddNew(block, 0, program, kernelStack, pageDirectory);
    }

    method KillProcess(pid: nat)
      requires Valid() && Core(View()) && pid >= 1
      modifies `head, `nodes, `queueSize, `cpu, nodes`next, nodes`status, nodes`parentPid, nodes`waitingPid
      ensures Valid() && View() == Kill(old(View()), pid)
    {
      hide Remove, Core, Valid;
      var ok := RemoveProcess(pid);
      cpu := cpu.(eax := if ok then 0 else FAILURE);
    }

    method ExitCurrent()
      requires Valid() && Inv(View())
      modifies `head, `nodes, `queueSize, `current, `quantum, `cpu, `tss, `cr3
      modifies nodes`next, nodes`status, nodes`parentPid, nodes`waitingPid, nodes`sleepTicks, nodes`registers
      ensures Valid() && View() == Step(old(View()), ExitCall)
    {
      hide Remove, Valid, Find, Inv, Core, Step, Linked, Views, Update;
      ExitStep(View());
      ghost var before := nodes;
      var _ := RemoveProcess(current.pid);
      assert forall i :: 0 <= i < |nodes| ==> nodes[i] in before;
      UpdateScheduler();
    }

    /** The status change of every blocking call: a zombie stays a zombie. */
    method BlockCurrent()
      requires Valid()
      modifies nodes`status
      ensures Valid() && View() == Block(old(View()))
    {
      hide Linked, Views, Find;
      CurrentIs();
      if current.status != Zombie {
        SetCurrentStatus(Waiting);
      }
    }

    method SetAwaited(pid: nat)
      requires Valid()
      modifies `foreground, nodes`waitingPid
      ensures Valid() && Listed(old(Queue()), current.pid)
      ensures var s, c := old(View()), Find(old(Queue()), current.pid);
        View() == s.(foreground := pid, queue := s.queue[c := s.queue[c].(waitingPid := pid)])
    {
      hide Linked, Views, Find;
      CurrentIs();
      Link(0);
      ghost var q, c := Queue(), Find(Queue(), current.pid);
      foreground := pid;
      current.waitingPid := pid;
      assert Queue() == q[c := q[c].(waitingPid := pid)];
    }

    method SetSleep(ticks: nat)
      requires Valid()
      modifies nodes`sleepTicks
      ensures Valid() && Listed(old(Queue()), current.pid)
      ensures var s, c := old(View()), Find(old(Queue()), current.pid);
        View() == s.(queue := s.queue[c := s.queue[c].(sleepTicks := ticks)])
    {
      hide Linked, Views, Find;
      CurrentIs();
      Link(0);
      ghost var q, c := Queue(), Find(Queue(), current.pid);
      current.sleepTicks := ticks;
      assert Queue() == q[c := q[c].(sleepTicks := ticks)];
    }

    method WaitFor(pid: nat)
      requires Valid() && Inv(View()) && current.pid != IDLE
      modifies `head, `nodes, `queueSize, `current, `quantum, `cpu, `tss, `cr3, `foreground
      modifies nodes`next, nodes`status, nodes`parentPid, nodes`waitingPid, nodes`sleepTicks, nodes`registers
      ensures Valid() && View() == Wait(old(View()), pid)
    {
      hide Linked, Views, Find, Inv, Core, Update, Block, Valid, Wait;
      WaitHandlerIs(View(), pid);
      SetAwaited(pid);
      BlockCurrent();
      UpdateScheduler();
    }

    method SleepFor(ticks: nat)
      requires Valid() && Inv(View())
      modifies `head, `nodes, `queueSize, `current, `quantum, `cpu, `tss, `cr3
      modifies nodes`next, nodes`status, nodes`parentPid, nodes`waitingPid, nodes`sleepTicks, nodes`registers
      ensures Valid() && View() == Sleep(old(View()), ticks)
    {
      hide Linked, Views, Find, Inv, Core, Update, Block, Valid, Sleep;
      SleepIs(View(), ticks);
      if ticks == 0 || current.pid == 1 {
        return;
      }
      SetSleep(ticks);
      BlockCurrent();
      UpdateScheduler();
    }

    /** stdin_block_process. */
    method StdinBlock()
      requires Valid() && Inv(View()) && current.pid != IDLE
      modifies `head, `nodes, `queueSize, `current, `quantum, `cpu, `tss, `cr3, `reader
      modifies nodes`next, nodes`status, nodes`parentPid, nodes`waitingPid, nodes`sleepTicks, nodes`registers
      ensures Valid() && View() == BlockOnRead(old(View()))
    {
      hide Linked, Views, Find, Inv, Core, Update, Block, Valid, BlockOnRead;
      BlockOnReadIs(View());
      BlockCurrent();
      CurrentReads();
      UpdateScheduler();
    }

    /** The blocked reader gets its byte count in eax and becomes ready. */
    method Deliver(p: Process, len: nat)
      requires Valid() && reader == p
      modifies p`status, p`registers
      ensures Valid() && p.status == Ready
      ensures View() == old(View()).(queue := Delivered(old(Queue()), p.pid, len))
    {
      hide Linked, Views, Find;
      ghost var q, r := Queue(), Find(Queue(), p.pid);
      Link(0);
      assert r < |q| ==> q[r].pid == p.pid && nodes[r] == p;
      assert r == |q| ==> forall i :: 0 <= i < |nodes| ==> q[i].pid != p.pid && nodes[i] != p;
      p.registers := p.registers.(eax := len);
      p.status := Ready;
      assert Queue() == Delivered(q, p.pid, len);
    }

    method LoadRegisters()
      requires Valid()
      modifies `cpu, `tss, `cr3
      ensures Valid() && Listed(Queue(), current.pid) && unchanged(nodes)
      ensures var p := Queue()[Find(Queue(), current.pid)];
        View() == old(View()).(cpu := p.regs, tss := p.kernelStack, cr3 := p.pageDirectory)
    {
      hide Linked, Views, Find;
      CurrentIs();
      assert Queue()[Find(Queue(), current.pid)] == current.View();
      cpu := current.registers;
      tss := current.kernelStack;
      cr3 := current.pageDirectory;
    }

    /** stdin_wake_process: afterwards the current process has its frame, stack and directory back. */
    method StdinWake(len: nat)
      requires Valid() && reader != null
      modifies nodes`status, nodes`registers, reader`status, reader`registers, `reader, `cpu, `tss, `cr3
      ensures Valid() && View() == WakeReader(old(View()), len)
    {
      hide Linked, Views, Find, SetRegs, Valid, Delivered, CurrentStatus, WakeReader;
      CurrentIs();
      ReaderPid();
      WakeReaderIs(View(), len);
      if current.status == Zombie {
        return;
      }
      var p := reader;
      SaveRegisters();
      BorrowSpace(p);
      Deliver(p, len);
      ClearReader();
      LoadRegisters();
    }

    /** The frame, stack and directory of the reader are loaded while its buffer is written. */
    method BorrowSpace(p: Process)
      requires Valid()
      modifies `cpu, `tss, `cr3
      ensures Valid()
      ensures View() == old(View()).(cpu := p.registers, tss := p.kernelStack, cr3 := p.pageDirectory)
    {
      cpu := p.registers;
      tss := p.kernelStack;
      cr3 := p.pageDirectory;
    }

    method ClearReader()
      requires Valid()
      modifies `reader
      ensures Valid() && View() == old(View()).(reader := 0)
    {
      reader := null;
    }

    lemma ValidIsLinked()
      requires Valid()
      ensures Linked()
    {
    }

    lemma ReaderPid()
      requires Valid()
      ensures View().reader == 0 <==> reader == null
    {
    }

    /** sigint_foreground. */
    method SigintForeground()
      requires Valid()
      modifies nodes`status, `reader, `foreground
      ensures Valid() && View() == Sigint(old(View()))
    {
      hide Linked, Views, Find, Valid, SetStatus;
      ReaderPid();
      if foreground == 0 {
        return;
      }
      if reader != null && reader.pid == foreground {
        ClearReader();
      }
      ZombifyPid(foreground);
      ForgetForeground();
    }

    method ZombifyPid(pid: nat)
      requires Valid()
      modifies nodes`status
      ensures Valid() && View() == old(View()).(queue := SetStatus(old(Queue()), pid, Zombie))
    {
      hide Linked, Views, Find, Valid, SetStatus;
      AbsentKeepsStatus(Queue(), pid);
      ValidIsLinked();
      var p := Lookup(pid);
      if p != null {
        Zombify(p);
      }
    }

    method ForgetForeground()
      requires Valid()
      modifies `foreground
      ensures Valid() && View() == old(View()).(foreground := 0)
    {
      foreground := 0;
    }

    method Zombify(p: Process)
      requires Valid() && p in nodes
      modifies p`status
      ensures Valid() && View() == old(View()).(queue := SetStatus(old(Queue()), p.pid, Zombie))
    {
      hide Linked, Views, Find;
      Link(0);
      ghost var q, k := Queue(), Index(p);
      ReaderIsListed();
      assert q[k].pid == p.pid;
      assert Find(q, p.pid) == k;
      p.status := Zombie;
      assert Queue() == q[k := q[k].(status := Zombie)];
    }

    method CurrentReads()
      requires Valid() && current.pid != 0
      modifies `reader
      ensures Valid() && View() == old(View()).(reader := current.pid)
    {
      hide Linked, Views;
      ReaderIsListed();
      reader := current;
    }

    lemma ReaderIsListed()
      requires Linked()
      ensures forall i, j ::
        0 <= i < |nodes| && 0 <= j < |nodes| && nodes[i].pid == nodes[j].pid ==> nodes[i] == nodes[j]
    {
    }
  }

  /** The loop of decrement_wait_process has been over the first `k` processes. */
  ghost predicate AgedUpTo(q: seq<Pcb>, now: seq<Pcb>, k: nat, woke: bool) {
    && |now| == |q|
    && (forall i :: 0 <= i < |q| ==> now[i] == if i < k then Decremented(q[i]) else q[i])
    && (woke <==> exists i :: 0 <= i < k && i < |q| && Wakes(q[i]))
  }

  lemma NoneAged(q: seq<Pcb>)
    ensures AgedUpTo(q, q, 0, false)
  {
  }

  lemma AgeStep(q: seq<Pcb>, now: seq<Pcb>, k: nat, woke: bool)
    requires k < |q| && AgedUpTo(q, now, k, woke)
    ensures k < |now| && now[k] == q[k]
    ensures AgedUpTo(q, now[k := Decremented(now[k])], k + 1, woke || Wakes(q[k]))
  {
  }

  lemma AllAged(q: seq<Pcb>, now: seq<Pcb>, woke: bool)
    requires AgedUpTo(q, now, |q|, woke)
    ensures now == DecrementAll(q) && (woke <==> AnyWakes(q))
  {
  }

  lemma WakeReaderIs(s: Sched, len: nat)
    requires s.reader != 0 && Listed(s.queue, s.current)
    ensures CurrentStatus(s) == Zombie ==> WakeReader(s, len) == s
    ensures var q := Delivered(SetRegs(s.queue, s.current, s.cpu), s.reader, len);
      && Listed(q, s.current)
      && (CurrentStatus(s) != Zombie ==>
            var p := q[Find(q, s.current)];
            WakeReader(s, len) ==
              s.(queue := q, reader := 0, cpu := p.regs, tss := p.kernelStack, cr3 := p.pageDirectory))
  {
    hide Find;
    var q1 := SetRegs(s.queue, s.current, s.cpu);
    SamePidsFind(s.queue, q1, s.current);
    SamePidsFind(q1, Delivered(q1, s.reader, len), s.current);
  }

  lemma BlockOnReadIs(s: Sched)
    requires Inv(s) && s.current != IDLE
    ensures s.current != 0 && Core(Block(s).(reader := s.current))
    ensures BlockOnRead(s) == Update(Block(s).(reader := s.current))
  {
    hide Find, Forest, PidsBelow, Update, Block;
    PidIsPositive(s);
    BlockKeeps(s);
  }

  lemma ResumeIs(s: Sched)
    requires Listed(s.queue, s.current)
    ensures var q := SetStatus(s.queue, s.current, Running);
      && Listed(q, s.current)
      && var p := q[Find(q, s.current)];
        Resume(s) == s.(queue := q, cpu := p.regs, tss := p.kernelStack, cr3 := p.pageDirectory, quantum := 0)
  {
    hide Find;
    SamePidsFind(s.queue, SetStatus(s.queue, s.current, Running), s.current);
  }

  lemma WaitHandlerIs(s: Sched, pid: nat)
    requires Inv(s) && s.current != IDLE
    ensures Listed(s.queue, s.current)
    ensures var c := Find(s.queue, s.current);
      var s1 := s.(foreground := pid, queue := s.queue[c := s.queue[c].(waitingPid := pid)]);
      Core(Block(s1)) && Wait(s, pid) == Update(Block(s1))
  {
    hide Find, Forest, PidsBelow, Update, Block;
    var c := Find(s.queue, s.current);
    var s1 := s.(foreground := pid, queue := s.queue[c := s.queue[c].(waitingPid := pid)]);
    ChangeCurrentKeeps(s, s1, s.queue[c].(waitingPid := pid));
    BlockKeeps(s1);
  }

  lemma SleepIs(s: Sched, ticks: nat)
    requires Inv(s)
    ensures Listed(s.queue, s.current)
    ensures ticks == 0 || s.current == IDLE ==> Sleep(s, ticks) == s
    ensures ticks != 0 && s.current != IDLE ==>
      var c := Find(s.queue, s.current);
      var s1 := s.(queue := s.queue[c := s.queue[c].(sleepTicks := ticks)]);
      Core(Block(s1)) && Sleep(s, ticks) == Update(Block(s1))
  {
    hide Find, Forest, PidsBelow, Update, Block;
    if ticks != 0 && s.current != IDLE {
      var c := Find(s.queue, s.current);
      var s1 := s.(queue := s.queue[c := s.queue[c].(sleepTicks := ticks)]);
      ChangeCurrentKeeps(s, s1, s.queue[c].(sleepTicks := ticks));
      BlockKeeps(s1);
    }
  }

  lemma AbsentKeepsStatus(q: seq<Pcb>, pid: nat)
    ensures !Listed(q, pid) ==> SetStatus(q, pid, Zombie) == q
  {
  }

  lemma UnlinkIs(q: seq<Pcb>, pid: nat)
    ensures Listed(q, pid) ==> Unlink(q, pid) == q[..Find(q, pid)] + q[Find(q, pid) + 1..]
    ensures !Listed(q, pid) ==> Unlink(q, pid) == q
  {
  }

  lemma ExitStep(s: Sched)
    requires Inv(s)
    ensures s.current >= 1 && Core(s) && Core(Remove(s, s.current))
    ensures Step(s, ExitCall) == Update(Remove(s, s.current))
  {
    hide Remove, Update, Forest, PidsBelow, Find;
    PidIsPositive(s);
    KillKeeps(s, s.current);
  }

  lemma PidIsPositive(s: Sched)
    requires Core(s)
    ensures s.current >= 1
  {
    assert s.queue[Find(s.queue, s.current)].pid >= 1;
  }

  lemma NoChildNoChange(q: seq<Pcb>, dying: nat, heir: nat, k: nat)
    requires k < |q| && q[k].parent != dying
    ensures ReparentOne(q, dying, heir, k) == q
  {
  }

  lemma ReparentFromStep(q: seq<Pcb>, dying: nat, heir: nat, k: nat)
    requires k <= |q|
    ensures k == |q| ==> ReparentFrom(q, dying, heir, k) == q
    ensures k < |q| ==>
      ReparentFrom(q, dying, heir, k) == ReparentFrom(ReparentOne(q, dying, heir, k), dying, heir, k + 1)
  {
  }

  /** The parent of the dying process. */
  function HeirOf(q: seq<Pcb>, dying: nat): nat {
    if Listed(q, dying) then q[Find(q, dying)].parent else 0
  }

  lemma ReparentIs(q: seq<Pcb>, dying: nat)
    ensures Reparent(q, dying) == ReparentFrom(q, dying, HeirOf(q, dying), 0)
  {
  }

  lemma HeirIsNotDying(q: seq<Pcb>, dying: nat)
    requires Distinct(q) && Forest(q) && dying >= 1
    ensures Listed(q, dying) ==> q[Find(q, dying)].parent != dying
    ensures !Listed(q, dying) ==> forall i :: 0 <= i < |q| ==> q[i].parent != dying
  {
    hide Find;
    if Listed(q, dying) {
      assert ForestAt(q, q[Find(q, dying)]);
    } else {
      forall i | 0 <= i < |q|
        ensures q[i].parent != dying
      {
        assert ForestAt(q, q[i]);
      }
    }
  }
}
