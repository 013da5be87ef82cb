/** The process table and the scheduler of AdamOS, on values: scheduler.c, stdin.c, the process
    handlers of syscall.c and the pid supply of process-control-block.c. */
module Scheduling {
  const QUANTUM: nat := 20
  const IDLE: nat := 1
  const INIT: nat := 2

  datatype Status = Running | Ready | Waiting | Zombie

  /** The saved register frame; `others` stands for everything but eax. */
  datatype Registers = Registers(eax: nat, others: seq<nat>)

  datatype Pcb = Pcb(pid: nat, parent: nat, status: Status, waitingPid: nat, sleepTicks: nat,
                     regs: Registers, kernelStack: nat, pageDirectory: nat)

  /** `current` and `reader` are pointers, kept as pids (0 for NULL); `cpu` is the interrupted
      register frame, `tss` the kernel stack and `cr3` the directory the processor uses. */
  datatype Sched = Sched(queue: seq<Pcb>, current: nat, size: nat, nextPid: nat, quantum: nat, foreground: nat,
                         reader: nat, cpu: Registers, tss: nat, cr3: nat)

  // ----- the list -----

  /** The index of the first process with this pid, or the length of the list. */
  function Find(q: seq<Pcb>, pid: nat): (i: nat)
    ensures i <= |q|
    ensures i < |q| ==> q[i].pid == pid
    ensures forall k :: 0 <= k < i ==> q[k].pid != pid
  {
    if q == [] || q[0].pid == pid then 0 else 1 + Find(q[1..], pid)
  }

  predicate Listed(q: seq<Pcb>, pid: nat) { Find(q, pid) < |q| }

  /** The index of the first process waiting for `pid`, or the length of the list. */
  function FindWaiter(q: seq<Pcb>, pid: nat): (i: nat)
    ensures i <= |q|
    ensures i < |q| ==> q[i].waitingPid == pid
    ensures forall k :: 0 <= k < i ==> q[k].waitingPid != pid
  {
    if q == [] || q[0].waitingPid == pid then 0 else 1 + FindWaiter(q[1..], pid)
  }

  function After(q: seq<Pcb>, i: nat): nat
    requires i < |q|
  {
    if i + 1 < |q| then i + 1 else 0
  }

  /** The loop of next_process: at most `size` further steps while the process is waiting. */
  function Skip(q: seq<Pcb>, i: nat, size: nat): (r: nat)
    requires i < |q|
    ensures r < |q|
    decreases size, i
  {
    if size > 0 && q[i].status == Waiting then Skip(q, After(q, i), size - 1) else i
  }

  function NextIndex(q: seq<Pcb>, i: nat, size: nat): (r: nat)
    requires i < |q|
    ensures r < |q|
  {
    Skip(q, After(q, i), size)
  }

  // ----- sleeping, waking, reparenting -----

  function Decremented(p: Pcb): Pcb {
    if p.sleepTicks == 0 then p
    else if p.sleepTicks == 1 && p.status == Waiting then p.(sleepTicks := 0, status := Ready)
    else p.(sleepTicks := p.sleepTicks - 1)
  }

  predicate Wakes(p: Pcb) { p.sleepTicks == 1 && p.status == Waiting }

  function DecrementAll(q: seq<Pcb>): (r: seq<Pcb>)
    ensures |r| == |q| && forall i :: 0 <= i < |q| ==> r[i] == Decremented(q[i])
  {
    if q == [] then [] else [Decremented(q[0])] + DecrementAll(q[1..])
  }

  predicate AnyWakes(q: seq<Pcb>) { exists i :: 0 <= i < |q| && Wakes(q[i]) }

  /** scheduler_wake. */
  function Wake(q: seq<Pcb>, pid: nat): (r: seq<Pcb>)
    ensures |r| == |q|
  {
    var i := FindWaiter(q, pid);
    if i < |q| then q[i := q[i].(status := Ready)] else q
  }

  /** One iteration of the second loop of reparent_children, at index `i`. */
  function ReparentOne(q: seq<Pcb>, dying: nat, heir: nat, i: nat): (r: seq<Pcb>)
    requires i < |q|
    ensures |r| == |q|
  {
    if q[i].parent != dying then q
    else
      var q1 := q[i := q[i].(parent := heir)];
      var w := FindWaiter(q1, dying);
      if w < |q1| then q1[w := q1[w].(waitingPid := q1[i].pid)] else q1
  }

  function ReparentFrom(q: seq<Pcb>, dying: nat, heir: nat, i: nat): (r: seq<Pcb>)
    requires i <= |q|
    ensures |r| == |q|
    decreases |q| - i
  {
    if i == |q| then q else ReparentFrom(ReparentOne(q, dying, heir, i), dying, heir, i + 1)
  }

  /** reparent_children; a pid that is not listed has no heir, and by the forest invariant no
      children either. */
  function Reparent(q: seq<Pcb>, dying: nat): (r: seq<Pcb>)
    ensures |r| == |q|
  {
    var i := Find(q, dying);
    ReparentFrom(q, dying, if i < |q| then q[i].parent else 0, 0)
  }

  function Unlink(q: seq<Pcb>, pid: nat): seq<Pcb> {
    var i := Find(q, pid);
    if i < |q| then q[..i] + q[i + 1..] else q
  }

  function SetStatus(q: seq<Pcb>, pid: nat, st: Status): (r: seq<Pcb>)
    ensures |r| == |q|
  {
    var i := Find(q, pid);
    if i < |q| then q[i := q[i].(status := st)] else q
  }

  function SetRegs(q: seq<Pcb>, pid: nat, regs: Registers): (r: seq<Pcb>)
    ensures |r| == |q|
  {
    var i := Find(q, pid);
    if i < |q| then q[i := q[i].(regs := regs)] else q
  }

  // ----- scheduler.c -----

  predicate Protected(pid: nat) { pid == IDLE || pid == INIT }

  /** scheduler_remove, without its result. */
  function Remove(s: Sched, pid: nat): Sched {
    if Protected(pid) then s
    else if pid == s.current then s.(queue := SetStatus(s.queue, pid, Zombie))
    else
      var q := Reparent(s.queue, pid);
      if Listed(q, pid) then s.(queue := Unlink(q, pid), size := if s.size == 0 then 0 else s.size - 1)
      else s.(queue := q)
  }

  /** next_process. */
  function Next(s: Sched): Sched {
    var c := Find(s.queue, s.current);
    if c < |s.queue| then s.(current := s.queue[NextIndex(s.queue, c, s.size)].pid) else s
  }

  /** The end of update_scheduler: the selected process takes the processor. */
  function Resume(s: Sched): Sched {
    var c := Find(s.queue, s.current);
    if c < |s.queue| then
      var p := s.queue[c];
      s.(queue := s.queue[c := p.(status := Running)], cpu := p.regs, tss := p.kernelStack,
         cr3 := p.pageDirectory, quantum := 0)
    else s
  }

  function CurrentStatus(s: Sched): Status {
    var c := Find(s.queue, s.current);
    if c < |s.queue| then s.queue[c].status else Waiting
  }

  /** The part of update_scheduler before the decision: sleepers and the quantum counter. */
  function Age(s: Sched): Sched { s.(queue := DecrementAll(s.queue), quantum := s.quantum + 1) }

  /** update_scheduler keeps the current process. */
  predicate Stays(s: Sched) {
    var a := Age(s);
    && !AnyWakes(s.queue) && a.quantum < QUANTUM
    && (CurrentStatus(a) == Ready || CurrentStatus(a) == Running)
  }

  /** The state in which next_process is called, when the current process is given up. */
  function GiveUp(s: Sched): Sched {
    var a := Age(s);
    if CurrentStatus(a) == Zombie then a.(queue := Wake(a.queue, a.current))
    else a.(queue := SetRegs(a.queue, a.current, a.cpu))
  }

  function Switch(s: Sched): Sched {
    var n := Next(GiveUp(s));
    Resume(if CurrentStatus(Age(s)) == Zombie then Remove(n, s.current) else n)
  }

  /** update_scheduler. */
  function Update(s: Sched): Sched { if Stays(s) then Age(s) else Switch(s) }

  // ----- the events that reach the scheduler -----

  /** `block` is the pointer that kmalloc gives for a new control block, 0 when the heap has no room. */
  datatype Event =
    | Execute(regs: Registers)             // ring-3 code runs
    | Tick                                 // timer interrupt
    | ForkCall(block: nat, kernelStack: nat, pageDirectory: nat)
    | Launch(program: Registers, block: nat, kernelStack: nat, pageDirectory: nat)  // the desktop starts a program
    | ExitCall
    | KillCall(pid: nat)
    | WaitCall(pid: nat)
    | SleepCall(ticks: nat)
    | ReadCall                             // a stdin read that has to block
    | Keyboard(len: nat)                   // a key press that completes the pending read
    | Interrupt                            // Ctrl-C

  const FAILURE: nat := 0xFFFFFFFF

  /** create_process_control_block and scheduler_enqueue. A NULL control block is filled in all the
      same, at address 0; entered as NULL it leaves the list as it is, but it is counted. */
  function AddProcess(s: Sched, block: nat, p: Pcb): Sched {
    s.(queue := if block == 0 then s.queue else s.queue + [p], size := s.size + 1, nextPid := s.nextPid + 1)
  }

  function NewProcess(s: Sched, parent: nat, regs: Registers, kernelStack: nat, pageDirectory: nat): Pcb {
    Pcb(s.nextPid, parent, Ready, 0, 0, regs, kernelStack, pageDirectory)
  }

  function ForkProcess(s: Sched, block: nat, kernelStack: nat, pageDirectory: nat): Sched {
    AddProcess(s, block, NewProcess(s, s.current, s.cpu.(eax := 0), kernelStack, pageDirectory))
      .(cpu := s.cpu.(eax := s.nextPid))
  }

  function Block(s: Sched): Sched {
    if CurrentStatus(s) == Zombie then s else s.(queue := SetStatus(s.queue, s.current, Waiting))
  }

  /** The handlers of wait, sleep and a blocking read, up to their call of update_scheduler. */
  function StartWait(s: Sched, pid: nat): Sched {
    var c := Find(s.queue, s.current);
    var s1 := s.(foreground := pid);
    Block(if c < |s.queue| then s1.(queue := s.queue[c := s.queue[c].(waitingPid := pid)]) else s1)
  }

  function StartSleep(s: Sched, ticks: nat): Sched {
    var c := Find(s.queue, s.current);
    Block(if c < |s.queue| then s.(queue := s.queue[c := s.queue[c].(sleepTicks := ticks)]) else s)
  }

  function StartRead(s: Sched): Sched { Block(s).(reader := s.current) }

  function Wait(s: Sched, pid: nat): Sched { Update(StartWait(s, pid)) }

  function Sleep(s: Sched, ticks: nat): Sched {
    if ticks == 0 || s.current == IDLE then s else Update(StartSleep(s, ticks))
  }

  /** stdin_block_process. */
  function BlockOnRead(s: Sched): Sched { Update(StartRead(s)) }

  /** The process that waits for input gets the number of bytes in eax and becomes ready. */
  function Delivered(q: seq<Pcb>, reader: nat, len: nat): (r: seq<Pcb>)
    ensures |r| == |q|
  {
    var i := Find(q, reader);
    if i < |q| then q[i := q[i].(status := Ready, regs := q[i].regs.(eax := len))] else q
  }

  /** stdin_wake_process, delivering `len` bytes. The current registers go into its control
      block and come back out, so a reader that is itself current gets `len` in eax. */
  function WakeReader(s: Sched, len: nat): Sched {
    if s.reader == 0 || CurrentStatus(s) == Zombie then s
    else
      var q := SetRegs(s.queue, s.current, s.cpu);
      var q1 := Delivered(q, s.reader, len);
      var c := Find(q1, s.current);
      if c < |q1| then
        var p := q1[c];
        s.(queue := q1, reader := 0, cpu := p.regs, tss := p.kernelStack, cr3 := p.pageDirectory)
      else s.(queue := q1, reader := 0)
  }

  /** sigint_foreground. */
  function Sigint(s: Sched): Sched {
    if s.foreground == 0 then s
    else s.(reader := if s.reader == s.foreground then 0 else s.reader,
            queue := SetStatus(s.queue, s.foreground, Zombie), foreground := 0)
  }

  function Kill(s: Sched, pid: nat): Sched {
    Remove(s, pid).(cpu := s.cpu.(eax := if Protected(pid) then FAILURE else 0))
  }

  function Step(s: Sched, e: Event): Sched {
    match e
    case Execute(regs) => s.(cpu := regs)
    case Tick => Update(s)
    case ForkCall(b, k, d) => ForkProcess(s, b, k, d)
    case Launch(regs, b, k, d) => AddProcess(s, b, NewProcess(s, 0, regs, k, d))
    case ExitCall => Update(Remove(s, s.current))
    case KillCall(pid) => Kill(s, pid)
    case WaitCall(pid) => Wait(s, pid)
    case SleepCall(ticks) => Sleep(s, ticks)
    case ReadCall => BlockOnRead(s)
    case Keyboard(len) => WakeReader(s, len)
    case Interrupt => Sigint(s)
  }

  /** The events whose handlers call update_scheduler, and the state in which they call it. */
  predicate CallsUpdate(e: Event) {
    e.Tick? || e.ExitCall? || e.WaitCall? || e.ReadCall? || (e.SleepCall? && e.ticks > 0)
  }

  function BeforeUpdate(s: Sched, e: Event): Sched {
    match e
    case ExitCall => Remove(s, s.current)
    case WaitCall(pid) => StartWait(s, pid)
    case SleepCall(ticks) => StartSleep(s, ticks)
    case ReadCall => StartRead(s)
    case _ => s
  }

  /** The idle process makes no system call, and kill is given a pid of at least 1. */
  predicate Allowed(s: Sched, e: Event) {
    && (e.ForkCall? || e.ExitCall? || e.KillCall? || e.WaitCall? || e.SleepCall? || e.ReadCall? ==> s.current != IDLE)
    && (e.KillCall? ==> e.pid >= 1)
  }
}
