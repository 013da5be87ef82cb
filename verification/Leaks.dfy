/** What the removal of processes costs: the frames that no call of free_frame ever gives back, added
    up over whole runs. */
module Leaks {
  import opened FiniteSets
  import opened PageTables
  import opened Ownership
  import opened ForkCopy
  import opened Teardown
  import opened Isolation

  /** The frames that clearing directory `d` leaves in use: the directory itself, and its supervisor
      tables and pages. */
  ghost function Residue(m: Mem, d: Hi): set<nat> { set f | f in m.used && (f == d || SupervisorFrame(m, d, f)) }

  ghost function StepLeak(s: System, e: Event): nat {
    if e.DoRemove? && e.pid in s.procs then |Residue(s.mem, s.procs[e.pid].pd)| else 0
  }

  /** The residues of the processes that a run removes, added up. */
  ghost function RunLeak(s: System, es: seq<Event>): nat
    decreases |es|
  {
    if es == [] then 0 else StepLeak(s, es[0]) + RunLeak(Step(s, es[0]), es[1..])
  }

  /** The frames whose role names a directory of no process. */
  ghost function Lost(s: System, own: Own): set<nat> { set f | f in own && IsLost(s, own, f) }

  ghost predicate IsLost(s: System, own: Own, f: nat) {
    && f in own && !own[f].Shared() && own[f].d !in s.Dirs()
    && own[f].d in own && own[own[f].d] == Dir(own[f].d)
  }

  /** No event gives a lost frame back. */
  lemma StaysLost(s: System, own: Own, s': System, own': Own, pid: nat, f: nat)
    requires SysInv(s, own) && SysInv(s', own') && ActsFor(s, own, s', own', pid) && IsLost(s, own, f)
    ensures IsLost(s', own', f)
  {
    var g := own[f].d;
    assert own[g].d == g && f < NUM_FRAMES && g < NUM_FRAMES;
    forall p | p in s'.procs
      ensures s'.procs[p].pd != g
    {
      assert p in s.procs ==> s.procs[p].pd in s.Dirs();
    }
    assert pid in s.procs ==> s.procs[pid].pd in s.Dirs();
  }

  /** The residue of a removed process is lost by its removal. */
  lemma ResidueIsLost(s: System, own: Own, own': Own, pid: nat, f: nat)
    requires SysInv(s, own) && pid in s.procs && SysInv(Remove(s, pid), own')
    requires ActsFor(s, own, Remove(s, pid), own', pid) && Extends(own', own)
    requires f in Residue(s.mem, s.procs[pid].pd)
    ensures IsLost(Remove(s, pid), own', f) && !IsLost(s, own, f)
  {
    var d := s.procs[pid].pd;
    assert d in s.Dirs() && DirOk(s.mem, own, d);
    ResidueStays(s.mem, own, s.Dirs(), d, f);
    ResidueStays(s.mem, own, s.Dirs(), d, d);
    assert forall p :: p in Remove(s, pid).procs ==> p in s.procs && p != pid;
  }

  lemma ResidueStays(m: Mem, own: Own, dirs: set<Hi>, d: Hi, f: nat)
    requires Inv(m, own, dirs) && d in dirs && (f == d || f in Residue(m, d))
    ensures f in own && !own[f].Shared() && own[f].d == d && f in ClearDirectory(m, d, 0).used
  {
    assert DirOk(m, own, d);
    ClearDirectoryFrees(m, own, dirs, d, 0, f);
    if f == d {
      forall k: Idx | f in EntryFrames(m, d, k)
        ensures false
      {
        EntryFramesOwned(m, own, dirs, d, k, f);
      }
    } else {
      var i: Idx :| i >= USER_DIR && SupervisorFrameAt(m, d, i, f);
      SupervisorFrameRole(m, own, dirs, d, i, f);
      forall k: Idx | f in EntryFrames(m, d, k)
        ensures false
      {
        EntryFramesOwned(m, own, dirs, d, k, f);
      }
    }
  }

  lemma RemoveLoses(s: System, own: Own, pid: nat) returns (own': Own)
    requires SysInv(s, own) && pid in s.procs
    ensures var s' := Remove(s, pid);
      SysInv(s', own') && |Lost(s', own')| >= |Lost(s, own)| + |Residue(s.mem, s.procs[pid].pd)|
  {
    hide SysInv, Residue, IsLost, ActsFor, Remove;
    own' := RemoveStep(s, own, pid);
    var s', r := Remove(s, pid), Residue(s.mem, s.procs[pid].pd);
    forall f | f in Lost(s, own) + r
      ensures f in Lost(s', own') && !(f in Lost(s, own) && f in r)
    {
      if f in r {
        ResidueIsLost(s, own, own', pid, f);
      } else {
        StaysLost(s, own, s', own', pid, f);
      }
      LostIsOwned(s', own', f);
    }
    SubsetSize(Lost(s, own) + r, Lost(s', own'));
    DisjointSize(Lost(s, own), r);
  }

  lemma LostIsOwned(s: System, own: Own, f: nat)
    requires IsLost(s, own, f)
    ensures f in own
  {
  }

  lemma DisjointSize(a: set<nat>, b: set<nat>)
    requires forall f :: f in a ==> f !in b
    ensures |a + b| == |a| + |b|
  {
    assert a * b == {};
  }

  /** Each event leaves the lost frames lost, and a removal adds its residue. */
  lemma StepLoses(s: System, own: Own, e: Event) returns (own': Own)
    requires SysInv(s, own) && !Step(s, e).mem.exhausted
    ensures SysInv(Step(s, e), own') && |Lost(Step(s, e), own')| >= |Lost(s, own)| + StepLeak(s, e)
  {
    if e.DoRemove? && e.pid in s.procs {
      own' := RemoveLoses(s, own, e.pid);
    } else {
      hide SysInv, IsLost, ActsFor, Step;
      own' := StepKeeps(s, own, e);
      forall f | f in Lost(s, own)
        ensures f in Lost(Step(s, e), own')
      {
        StaysLost(s, own, Step(s, e), own', Actor(e), f);
        LostIsOwned(Step(s, e), own', f);
      }
      SubsetSize(Lost(s, own), Lost(Step(s, e), own'));
    }
  }

  lemma {:induction false} RunLoses(s: System, own: Own, es: seq<Event>) returns (own': Own)
    requires SysInv(s, own) && !Run(s, es).mem.exhausted
    ensures SysInv(Run(s, es), own') && |Lost(Run(s, es), own')| >= |Lost(s, own)| + RunLeak(s, es)
    decreases |es|
  {
    hide Step, SysInv, Lost, StepLeak;
    own' := own;
    if es != [] {
      RunMonotone(Step(s, es[0]), es[1..]);
      own' := StepLoses(s, own, es[0]);
      own' := RunLoses(Step(s, es[0]), own', es[1..]);
    }
  }

  /** Lost frames, live directories and frame 0 are all different, and all marked used. */
  lemma LostAreUsed(s: System, own: Own)
    requires SysInv(s, own)
    ensures |Lost(s, own)| + |s.Dirs()| + 1 <= |s.mem.used| <= NUM_FRAMES
  {
    var dirs: set<nat> := s.Dirs();
    forall d | d in dirs
      ensures d in s.mem.used && d != 0 && d !in Lost(s, own)
    {
      assert DirOk(s.mem, own, d);
    }
    Bounded(s.mem.used, NUM_FRAMES);
    DisjointSize(Lost(s, own), dirs);
    DisjointSize(Lost(s, own) + dirs, {0});
    SubsetSize(Lost(s, own) + dirs + {0}, s.mem.used);
  }

  /** Over every run: what all removed processes left behind, the directories of the live ones and
      frame 0 are still in use together. */
  lemma LeaksAddUp(pages: Ram, es: seq<Event>)
    requires !Run(Boot(pages), es).mem.exhausted
    ensures var s := Run(Boot(pages), es);
      RunLeak(Boot(pages), es) + |s.Dirs()| + 1 <= |s.mem.used| <= NUM_FRAMES
  {
    hide Run, Boot, Lost, SysInv;
    var own := BootKeeps(pages);
    own := RunLoses(Boot(pages), own, es);
    LostAreUsed(Run(Boot(pages), es), own);
  }

  // ----- how many removals a machine survives -----

  /** How many processes a run removes. */
  function Removals(s: System, es: seq<Event>): nat
    decreases |es|
  {
    if es == [] then 0
    else (if es[0].DoRemove? && es[0].pid in s.procs then 1 else 0) + Removals(Step(s, es[0]), es[1..])
  }

  lemma {:induction false} EachRemovalLeaks(s: System, own: Own, es: seq<Event>)
    requires SysInv(s, own) && !Run(s, es).mem.exhausted
    ensures RunLeak(s, es) >= Removals(s, es)
    decreases |es|
  {
    hide Step, SysInv, Residue;
    if es != [] {
      RunMonotone(Step(s, es[0]), es[1..]);
      var own' := StepKeeps(s, own, es[0]);
      if es[0].DoRemove? && es[0].pid in s.procs {
        DirectoryIsResidue(s, own, es[0].pid);
      }
      EachRemovalLeaks(Step(s, es[0]), own', es[1..]);
    }
  }

  lemma DirectoryIsResidue(s: System, own: Own, pid: nat)
    requires SysInv(s, own) && pid in s.procs
    ensures |Residue(s.mem, s.procs[pid].pd)| >= 1
  {
    var d := s.procs[pid].pd;
    assert d in s.Dirs() && DirOk(s.mem, own, d);
    assert d in Residue(s.mem, d);
  }

  /** A run that has removed as many processes as there are frames has run out of frames, however
      few were alive at a time. */
  lemma RemovalsRunOut(pages: Ram, es: seq<Event>)
    ensures var s := Run(Boot(pages), es);
      Removals(Boot(pages), es) + |s.Dirs()| >= 32768 ==> s.mem.exhausted
  {
    if !Run(Boot(pages), es).mem.exhausted {
      var own := BootKeeps(pages);
      EachRemovalLeaks(Boot(pages), own, es);
      LeaksAddUp(pages, es);
    }
  }
}
