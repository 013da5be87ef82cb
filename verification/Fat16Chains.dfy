/** Cluster chains: which reads terminate, and what allocating and writing leave alone. */
module Fat16Chains {
  import opened Fat16
  import opened FiniteSets

  // ----- geometry -----

  /** A usable boot sector gives three regions one after another. */
  lemma GeometryIsGood(b: Bpb)
    requires UsableBpb(b)
    ensures GoodGeometry(GeometryOf(b))
    ensures SlotCount(GeometryOf(b)) >= b.rootEntryCount
  {
    var n := b.numFats * b.sectorsPerFat;
    MulMonotone(1, b.numFats, b.sectorsPerFat);
    MulMonotone(b.numFats, 0xFF, b.sectorsPerFat);
    RootSectors(b.rootEntryCount);
    assert GeometryOf(b).rootStart == FAT16_START_LBA + b.reservedSectors + n;
  }

  lemma RootSectors(entries: nat)
    requires entries < 0x10000
    ensures var sectors := Ceil(entries * 32, SECTOR); sectors <= 0x1000 && sectors * 16 >= entries
  {
  }

  lemma MulMonotone(a: nat, b: nat, n: nat)
    requires a <= b
    ensures a * n <= b * n
  {
  }

  lemma MulApart(a: nat, b: nat, n: nat)
    requires a < b
    ensures a * n + n <= b * n
  {
    MulMonotone(a + 1, b, n);
  }

  /** Two clusters share no sector, and none lies in front of the data region. */
  lemma ClustersDisjoint(g: Geometry, c: nat, c': nat)
    requires GoodGeometry(g) && 2 <= c < 0x10000 && 2 <= c' < 0x10000 && c != c'
    ensures ClusterLba(g, c) >= g.dataStart
    ensures ClusterLba(g, c) + g.sectorsPerCluster <= ClusterLba(g, c')
         || ClusterLba(g, c') + g.sectorsPerCluster <= ClusterLba(g, c)
  {
    hide ClusterLba, GoodGeometry;
    ClusterLbaIs(g, c);
    ClusterLbaIs(g, c');
    if c < c' {
      MulApart(c - 2, c' - 2, g.sectorsPerCluster);
    } else {
      MulApart(c' - 2, c - 2, g.sectorsPerCluster);
    }
  }

  lemma ClusterLbaIs(g: Geometry, c: nat)
    requires GoodGeometry(g) && 2 <= c < 0x10000
    ensures ClusterLba(g, c) == g.dataStart + (c - 2) * g.sectorsPerCluster
  {
    MulMonotone(c - 2, 0x10000, g.sectorsPerCluster);
  }

  // ----- reading a chain -----

  /** The `n`th cluster number fat16_read_file looks at. */
  function Nth(v: Volume, c: nat, n: nat): nat { if n == 0 then c else Entry(v, Nth(v, c, n - 1)) }

  datatype Walk = Ends(cs: seq<nat>) | Cycles

  /** The read loop with a record of what it has visited; it gives up at a cluster seen before. */
  function WalkFrom(v: Volume, cs: seq<nat>): Walk
    requires cs != [] && Small(cs) && NoRepeats(cs)
    decreases 0x10000 - |cs|
  {
    var next := Entry(v, cs[|cs| - 1]);
    if next >= END_OF_CHAIN then Ends(cs)
    else if next in cs then Cycles
    else
      FitsInto(cs + [next]);
      WalkFrom(v, cs + [next])
  }

  predicate Small(cs: seq<nat>) { forall i :: 0 <= i < |cs| ==> cs[i] < 0x10000 }

  predicate NoRepeats(cs: seq<nat>) { forall i, j :: 0 <= i < j < |cs| ==> cs[i] != cs[j] }

  function SetOf(cs: seq<nat>): (r: set<nat>)
    ensures forall c :: c in r <==> c in cs
    decreases |cs|
  {
    if cs == [] then {} else SetOf(cs[..|cs| - 1]) + {cs[|cs| - 1]}
  }

  lemma {:induction false} SetSize(cs: seq<nat>)
    requires NoRepeats(cs)
    ensures |SetOf(cs)| == |cs|
    decreases |cs|
  {
    if cs != [] {
      SetSize(cs[..|cs| - 1]);
      assert cs[|cs| - 1] !in cs[..|cs| - 1];
    }
  }

  /** There are no more than 65536 cluster numbers. */
  lemma FitsInto(cs: seq<nat>)
    requires Small(cs) && NoRepeats(cs)
    ensures |cs| <= 0x10000
  {
    SetSize(cs);
    Bounded(SetOf(cs), 0x10000);
  }

  /** The clusters visited so far are the first ones of the walk. */
  predicate Visits(v: Volume, c: nat, cs: seq<nat>) {
    && cs != [] && Small(cs) && NoRepeats(cs)
    && (forall i :: 0 <= i < |cs| ==> cs[i] == Nth(v, c, i))
    && forall i :: 1 <= i < |cs| ==> cs[i] < END_OF_CHAIN
  }

  lemma {:induction false} WalkIsRight(v: Volume, c: nat, cs: seq<nat>)
    requires Visits(v, c, cs)
    ensures var w := WalkFrom(v, cs);
      && (w.Ends? ==> IsChain(v, w.cs) && w.cs[0] == c && NoRepeats(w.cs) && |w.cs| <= 0x10000)
      && (w.Cycles? ==> forall n: nat :: n > 0 ==> Nth(v, c, n) < END_OF_CHAIN)
    decreases 0x10000 - |cs|
  {
    var next := Entry(v, cs[|cs| - 1]);
    assert next == Nth(v, c, |cs|);
    if next >= END_OF_CHAIN {
      FitsInto(cs);
      VisitsChain(v, c, cs);
    } else if next in cs {
      var i :| 0 <= i < |cs| && cs[i] == next;
      forall n: nat | n > 0
        ensures Nth(v, c, n) < END_OF_CHAIN
      {
        StaysInside(v, c, cs, n);
      }
    } else {
      FitsInto(cs + [next]);
      WalkIsRight(v, c, cs + [next]);
    }
  }

  lemma VisitsChain(v: Volume, c: nat, cs: seq<nat>)
    requires Visits(v, c, cs) && Entry(v, cs[|cs| - 1]) >= END_OF_CHAIN
    ensures IsChain(v, cs) && cs[0] == c
  {
    forall i | 0 <= i < |cs| - 1
      ensures cs[i + 1] == Entry(v, cs[i]) < END_OF_CHAIN
    {
      assert cs[i + 1] == Nth(v, c, i + 1);
    }
  }

  /** Once a cluster comes back, the walk never leaves the visited clusters. */
  lemma {:induction false} StaysInside(v: Volume, c: nat, cs: seq<nat>, n: nat)
    requires Visits(v, c, cs) && Entry(v, cs[|cs| - 1]) in cs && Entry(v, cs[|cs| - 1]) < END_OF_CHAIN
    ensures Nth(v, c, n) in cs && (n > 0 ==> Nth(v, c, n) < END_OF_CHAIN)
    decreases n
  {
    if n == 0 {
      assert cs[0] == Nth(v, c, 0);
    } else {
      StaysInside(v, c, cs, n - 1);
      var i :| 0 <= i < |cs| && cs[i] == Nth(v, c, n - 1);
      if i + 1 < |cs| {
        assert Nth(v, c, i + 1) == Entry(v, cs[i]) == cs[i + 1];
      }
    }
  }

  lemma {:induction false} ChainIsNth(v: Volume, cs: seq<nat>, i: nat)
    requires IsChain(v, cs) && i < |cs|
    ensures Nth(v, cs[0], i) == cs[i]
    decreases i
  {
    if i > 0 {
      ChainIsNth(v, cs, i - 1);
      assert cs[i - 1 + 1] == Entry(v, cs[i - 1]);
    }
  }

  lemma {:induction false} ChainHasNoRepeats(v: Volume, cs: seq<nat>, i: nat, j: nat)
    requires IsChain(v, cs) && i < j < |cs|
    ensures cs[i] != cs[j]
    decreases |cs| - j
  {
    if j == |cs| - 1 {
      assert cs[i + 1] == Entry(v, cs[i]) < END_OF_CHAIN;
    } else {
      ChainHasNoRepeats(v, cs, i + 1, j + 1);
      assert cs[i + 1] == Entry(v, cs[i]) && cs[j + 1] == Entry(v, cs[j]);
    }
  }

  lemma ChainEnds(v: Volume, cs: seq<nat>)
    requires IsChain(v, cs)
    ensures Nth(v, cs[0], |cs|) >= END_OF_CHAIN
  {
    ChainIsNth(v, cs, |cs| - 1);
  }

  /** fat16_read_file ends from cluster `c` exactly when the walk meets no cluster twice; then it
      goes through one finite chain of different clusters. */
  lemma ReadEndsExactlyWhenAcyclic(v: Volume, c: nat)
    requires c < 0x10000
    ensures WalkFrom(v, [c]).Ends? <==> exists cs :: IsChain(v, cs) && cs[0] == c
    ensures WalkFrom(v, [c]).Ends? <==> exists n: nat :: n > 0 && Nth(v, c, n) >= END_OF_CHAIN
    ensures WalkFrom(v, [c]).Ends? ==>
      var cs := WalkFrom(v, [c]).cs; IsChain(v, cs) && cs[0] == c && NoRepeats(cs) && |cs| <= 0x10000
  {
    assert Visits(v, c, [c]) by {
      assert Nth(v, c, 0) == c;
    }
    WalkIsRight(v, c, [c]);
    var w := WalkFrom(v, [c]);
    assert w.Ends? || w.Cycles?;
    if w.Ends? {
      ChainEnds(v, w.cs);
    }
    hide Nth, WalkFrom, Entry, IsChain;
    forall cs | IsChain(v, cs)
      ensures |cs| > 0 && Nth(v, cs[0], |cs|) >= END_OF_CHAIN
    {
      IsNotEmpty(v, cs);
      ChainEnds(v, cs);
    }
  }

  lemma IsNotEmpty(v: Volume, cs: seq<nat>)
    requires IsChain(v, cs)
    ensures |cs| > 0
  {
  }
}
