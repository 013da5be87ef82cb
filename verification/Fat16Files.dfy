/** Writing, finding and reading files: the round trip, and what a write leaves alone. */
module Fat16Files {
  import opened ByteStrings
  import opened Fat16
  import opened Fat16Chains

  // ----- allocation -----

  /** Clusters whose table entry lies in the table. */
  predicate InFat(g: Geometry, c: nat) { 2 <= c < 0x10000 && c / 256 < g.sectorsPerFat }

  lemma {:induction false} FreeFromIsLowest(v: Volume, c: nat)
    requires c >= 2
    ensures var r := FreeFrom(v, c);
      && (r == 0 || c <= r < TotalClusters(v.geo))
      && (r != 0 ==> Entry(v, r) == 0)
      && forall k :: c <= k < (if r == 0 then TotalClusters(v.geo) else r) ==> Entry(v, k) != 0
    decreases TotalClusters(v.geo) - c
  {
    if c < TotalClusters(v.geo) && Entry(v, c) != 0 {
      FreeFromIsLowest(v, c + 1);
    }
  }

  /** fat16_alloc_cluster returns the lowest free cluster, or 0 when there is none; a table of 256
      sectors has no cluster for it, since the count is kept in 16 bits. */
  lemma AllocatesLowest(v: Volume)
    ensures var r := FreeCluster(v);
      && (r != 0 ==> InFat(v.geo, r) && Entry(v, r) == 0 && r < v.geo.sectorsPerFat * 256 % 0x1_0000)
      && forall k :: 2 <= k < (if r == 0 then v.geo.sectorsPerFat * 256 % 0x1_0000 else r) ==> Entry(v, k) != 0
    ensures v.geo.sectorsPerFat % 256 == 0 ==> FreeCluster(v) == 0
  {
    FreeFromIsLowest(v, 2);
    FreeIsSmall(v, 2);
  }

  /** A chain of clusters in the table, each of which is marked used. */
  predicate GoodChain(v: Volume, cs: seq<nat>) { IsChain(v, cs) && forall i :: 0 <= i < |cs| ==> InFat(v.geo, cs[i]) }

  /** A free cluster is on no chain. */
  lemma FreeIsOnNoChain(v: Volume, cs: seq<nat>, c: nat)
    requires GoodChain(v, cs) && Entry(v, c) == 0
    ensures c !in cs
  {
    forall i | 0 <= i < |cs|
      ensures cs[i] != c
    {
      if i + 1 < |cs| {
        assert InFat(v.geo, cs[i + 1]) && cs[i + 1] == Entry(v, cs[i]);
      }
    }
  }

  // ----- what the three kinds of writes leave alone -----

  predicate SameSectors(d: Disk, d': Disk, lo: nat, hi: nat) { forall l :: lo <= l < hi ==> Read(d, l) == Read(d', l) }

  predicate SameFat(v: Volume, v': Volume) {
    v'.geo == v.geo && SameSectors(v.disk, v'.disk, v.geo.fatStart, v.geo.fatStart + v.geo.sectorsPerFat)
  }

  predicate SameRoot(v: Volume, v': Volume) {
    v'.geo == v.geo && SameSectors(v.disk, v'.disk, v.geo.rootStart, v.geo.rootStart + v.geo.rootSectors)
  }

  predicate SameCluster(v: Volume, v': Volume, c: nat) { v'.geo == v.geo && ClusterBytes(v', c) == ClusterBytes(v, c) }

  lemma SameFatEntry(v: Volume, v': Volume, c: nat)
    requires SameFat(v, v') && InFat(v.geo, c)
    ensures Entry(v', c) == Entry(v, c)
  {
  }

  lemma SameRootSlot(v: Volume, v': Volume, k: nat)
    requires SameRoot(v, v') && k < SlotCount(v.geo)
    ensures Slot(v', k) == Slot(v, k)
  {
  }

  lemma {:induction false} SameBytes(d: Disk, d': Disk, lba: nat, n: nat)
    requires SameSectors(d, d', lba, lba + n)
    ensures Bytes(d', lba, n) == Bytes(d, lba, n)
    decreases n
  {
    if n > 0 {
      SameBytes(d, d', lba, n - 1);
    }
  }

  /** Only sectors from `lo` up to `hi` differ. */
  ghost predicate Only(v: Volume, v': Volume, lo: nat, hi: nat) {
    v'.geo == v.geo && forall l: nat :: !(lo <= l < hi) ==> Read(v.disk, l) == Read(v'.disk, l)
  }

  lemma ClusterInData(g: Geometry, c: nat)
    requires GoodGeometry(g) && 2 <= c < 0x10000
    ensures ClusterLba(g, c) >= g.dataStart
  {
    ClusterLbaIs(g, c);
  }

  lemma OnlyInFat(v: Volume, v': Volume, lo: nat, hi: nat, c: nat)
    requires GoodGeometry(v.geo) && Only(v, v', lo, hi) && hi <= v.geo.rootStart
    ensures SameRoot(v, v') && (2 <= c < 0x10000 ==> SameCluster(v, v', c))
  {
    hide ClusterLba;
    if 2 <= c < 0x10000 {
      ClusterInData(v.geo, c);
      SameBytes(v.disk, v'.disk, ClusterLba(v.geo, c), v.geo.sectorsPerCluster);
    }
  }

  lemma OnlyInRoot(v: Volume, v': Volume, lo: nat, hi: nat, c: nat)
    requires GoodGeometry(v.geo) && Only(v, v', lo, hi) && v.geo.rootStart <= lo && hi <= v.geo.dataStart
    ensures SameFat(v, v') && (2 <= c < 0x10000 ==> SameCluster(v, v', c))
  {
    hide ClusterLba;
    if 2 <= c < 0x10000 {
      ClusterInData(v.geo, c);
      SameBytes(v.disk, v'.disk, ClusterLba(v.geo, c), v.geo.sectorsPerCluster);
    }
  }

  lemma OnlyInData(v: Volume, v': Volume, c: nat, c': nat)
    requires GoodGeometry(v.geo) && 2 <= c < 0x10000
    requires Only(v, v', ClusterLba(v.geo, c), ClusterLba(v.geo, c) + v.geo.sectorsPerCluster)
    ensures SameFat(v, v') && SameRoot(v, v') && (2 <= c' < 0x10000 && c' != c ==> SameCluster(v, v', c'))
  {
    hide ClusterLba;
    ClusterInData(v.geo, c);
    if 2 <= c' < 0x10000 && c' != c {
      ClustersDisjoint(v.geo, c, c');
      SameBytes(v.disk, v'.disk, ClusterLba(v.geo, c'), v.geo.sectorsPerCluster);
    }
  }

  lemma SetEntryIs(v: Volume, c: nat, w: nat, c': nat)
    requires GoodGeometry(v.geo) && InFat(v.geo, c) && w < 0x10000
    ensures SameRoot(v, SetEntry(v, c, w)) && Entry(SetEntry(v, c, w), c) == w
    ensures c' != c ==> Entry(SetEntry(v, c, w), c') == Entry(v, c')
    ensures 2 <= c' < 0x10000 ==> SameCluster(v, SetEntry(v, c, w), c')
  {
    hide SetWord, ClusterBytes;
    var lba := FatSector(v.geo, c);
    assert Only(v, SetEntry(v, c, w), lba, lba + 1);
    OnlyInFat(v, SetEntry(v, c, w), lba, lba + 1, c');
    WordInSector(Read(v.disk, lba), FatOffset(c), w, FatOffset(c'));
  }

  lemma WordInSector(s: Sector, off: nat, w: nat, off': nat)
    requires off + 1 < SECTOR && off' + 1 < SECTOR && w < 0x10000 && off % 2 == off' % 2 == 0
    ensures Word(SetWord(s, off, w), off') == if off == off' then w else Word(s, off')
  {
  }

  lemma SetSlotIs(v: Volume, k: nat, e: seq<byte>, k': nat, c: nat)
    requires GoodGeometry(v.geo) && k < SlotCount(v.geo) && |e| == 32
    ensures SameFat(v, SetSlot(v, k, e)) && Slot(SetSlot(v, k, e), k) == e
    ensures k' != k ==> Slot(SetSlot(v, k, e), k') == Slot(v, k')
    ensures 2 <= c < 0x10000 ==> SameCluster(v, SetSlot(v, k, e), c)
  {
    hide ClusterBytes;
    var lba := SlotSector(v.geo, k);
    assert Only(v, SetSlot(v, k, e), lba, lba + 1);
    OnlyInRoot(v, SetSlot(v, k, e), lba, lba + 1, c);
    SlotInSector(Read(v.disk, lba), e, k % 16, k' % 16);
  }

  lemma SlotInSector(s: Sector, e: seq<byte>, j: nat, j': nat)
    requires |e| == 32 && j < 16 && j' < 16
    ensures var t := s[..j * 32] + e + s[j * 32 + 32..];
      t[j * 32..j * 32 + 32] == e && (j' != j ==> t[j' * 32..j' * 32 + 32] == s[j' * 32..j' * 32 + 32])
  {
  }

  lemma {:induction false} FillIs(d: Disk, lba: nat, data: seq<byte>, n: nat, l: nat)
    ensures Read(Fill(d, lba, data, n), l) == if lba <= l < lba + n then Chunk(data, l - lba) else Read(d, l)
    decreases n
  {
    if n > 0 {
      FillIs(d, lba, data, n - 1, l);
    }
  }

  /** The first `n` bytes of the data, filled up with zeros. */
  function Prefix(data: seq<byte>, n: nat): (r: seq<byte>)
    ensures |r| == n
  {
    if |data| < n then data + Zeros(n - |data|) else data[..n]
  }

  lemma PrefixChunk(data: seq<byte>, i: nat)
    ensures Prefix(data, (i + 1) * SECTOR) == Prefix(data, i * SECTOR) + Chunk(data, i)
  {
  }

  lemma {:induction false} ChunksArePrefix(d: Disk, lba: nat, data: seq<byte>, n: nat)
    requires forall i :: 0 <= i < n ==> Read(d, lba + i) == Chunk(data, i)
    ensures Bytes(d, lba, n) == Prefix(data, n * SECTOR)
    decreases n
  {
    hide Read, Prefix, Chunk;
    if n == 0 {
      assert Prefix(data, 0) == [];
    } else {
      ChunksArePrefix(d, lba, data, n - 1);
      PrefixChunk(data, n - 1);
      assert Read(d, lba + (n - 1)) == Chunk(data, n - 1);
    }
  }

  lemma StoreDataIs(v: Volume, c: nat, data: seq<byte>, c': nat)
    requires GoodGeometry(v.geo) && 2 <= c < 0x10000
    ensures var v' := StoreData(v, c, data);
      && SameFat(v, v') && SameRoot(v, v')
      && ClusterBytes(v', c) == Prefix(data, v.geo.sectorsPerCluster * SECTOR)
      && (2 <= c' < 0x10000 && c' != c ==> SameCluster(v, v', c'))
  {
    hide Bytes, Fill, ClusterLba;
    var v', lba, n := StoreData(v, c, data), ClusterLba(v.geo, c), v.geo.sectorsPerCluster;
    forall l | !(lba <= l < lba + n)
      ensures Read(v.disk, l) == Read(v'.disk, l)
    {
      FillIs(v.disk, lba, data, n, l);
    }
    OnlyInData(v, v', c, c');
    forall i | 0 <= i < n
      ensures Read(v'.disk, lba + i) == Chunk(data, i)
    {
      FillIs(v.disk, lba, data, n, lba + i);
    }
    ChunksArePrefix(v'.disk, lba, data, n);
  }

  // ----- the root directory -----

  predicate Live(v: Volume, k: nat) { !SlotIsFree(v, k) }

  predicate Named(v: Volume, k: nat, name: seq<byte>) { Slot(v, k)[..11] == name }

  /** The slots behind the end mark are marked too, as the format demands. */
  predicate EndMarkLast(v: Volume) {
    forall i, j :: 0 <= i < j < SlotCount(v.geo) && Slot(v, i)[0] == 0 ==> Slot(v, j)[0] == 0
  }

  lemma {:induction false} FirstFreeSlot(v: Volume, k: nat)
    requires k <= SlotCount(v.geo)
    ensures var r := FreeSlotFrom(v, k);
      && k <= r <= SlotCount(v.geo) && (r < SlotCount(v.geo) ==> SlotIsFree(v, r))
      && forall i :: k <= i < r ==> Live(v, i)
    decreases SlotCount(v.geo) - k
  {
    if k < SlotCount(v.geo) && !SlotIsFree(v, k) {
      FirstFreeSlot(v, k + 1);
    }
  }

  /** Slots before the end mark that do not match are passed over. */
  lemma {:induction false} FindSkips(v: Volume, name: seq<byte>, k: nat, r: nat)
    requires k <= r <= SlotCount(v.geo)
    requires forall i :: k <= i < r ==> Slot(v, i)[0] != 0 && (Slot(v, i)[0] == DELETED || !Named(v, i, name))
    ensures FindFrom(v, name, k) == FindFrom(v, name, r)
    decreases r - k
  {
    if k < r {
      FindSkips(v, name, k + 1, r);
    }
  }

  /** Two volumes whose directories differ in slot `n`, which was the first free one and now is
      live with name `name`. */
  ghost predicate SlotAdded(v: Volume, v': Volume, n: nat, name: seq<byte>) {
    && v'.geo == v.geo && n < SlotCount(v.geo) && SlotIsFree(v, n) && (forall i :: 0 <= i < n ==> Live(v, i))
    && (forall k :: 0 <= k < SlotCount(v.geo) && k != n ==> Slot(v', k) == Slot(v, k))
    && Slot(v', n)[0] != 0 && Named(v', n, name)
  }

  /** Looking for another name goes past the new slot as it went past the free one. */
  lemma {:induction false} FindOther(v: Volume, v': Volume, n: nat, name: seq<byte>, other: seq<byte>, k: nat)
    requires SlotAdded(v, v', n, name) && name != other && |other| == 11
    requires FindFrom(v, other, k) < SlotCount(v.geo) || EndMarkLast(v)
    ensures FindFrom(v', other, k) == FindFrom(v, other, k)
    decreases SlotCount(v.geo) - k
  {
    if k < SlotCount(v.geo) {
      if k == n && Slot(v, k)[0] == 0 {
        NothingBehindTheEnd(v, v', other, n + 1, n);
      } else if Slot(v, k)[0] != 0 && !(Slot(v, k)[0] != DELETED && Named(v, k, other)) {
        FindOther(v, v', n, name, other, k + 1);
      }
    }
  }

  lemma NothingBehindTheEnd(v: Volume, v': Volume, other: seq<byte>, k: nat, n: nat)
    requires EndMarkLast(v) && n < SlotCount(v.geo) && Slot(v, n)[0] == 0 && k == n + 1 && v'.geo == v.geo
    requires forall k :: 0 <= k < SlotCount(v.geo) && k != n ==> Slot(v', k) == Slot(v, k)
    ensures FindFrom(v', other, k) == SlotCount(v.geo)
  {
    assert k < SlotCount(v.geo) ==> Slot(v', k)[0] == 0;
  }

  /** A new name is found in the new slot, unless its first byte is the mark of deletion. */
  lemma FindAdded(v: Volume, v': Volume, n: nat, name: seq<byte>)
    requires SlotAdded(v, v', n, name) && |name| == 11
    requires FindFrom(v, name, 0) == SlotCount(v.geo)
    ensures name[0] != DELETED ==> FindFrom(v', name, 0) == n
  {
    NotBefore(v, name, n, 0);
    forall i | 0 <= i < n
      ensures Slot(v', i)[0] != 0 && !Named(v', i, name)
    {
      assert Live(v, i) && !Named(v, i, name) && Slot(v', i) == Slot(v, i);
    }
    FindSkips(v', name, 0, n);
    assert Slot(v', n)[0] == Slot(v', n)[..11][0];
  }

  lemma {:induction false} NotBefore(v: Volume, name: seq<byte>, n: nat, k: nat)
    requires n <= SlotCount(v.geo) && FindFrom(v, name, k) == SlotCount(v.geo) && forall i :: k <= i < n ==> Live(v, i)
    ensures forall i :: k <= i < n ==> !Named(v, i, name)
    decreases n - k
  {
    if k < n {
      assert Live(v, k);
      NotBefore(v, name, n, k + 1);
    }
  }

  /** A name that starts with the mark of deletion is never found. */
  lemma {:induction false} DeletedIsNotFound(v: Volume, name: seq<byte>, k: nat)
    requires |name| == 11 && name[0] == DELETED
    ensures FindFrom(v, name, k) == SlotCount(v.geo)
    decreases SlotCount(v.geo) - k
  {
    if k < SlotCount(v.geo) {
      assert Named(v, k, name) ==> Slot(v, k)[0] == Slot(v, k)[..11][0] == DELETED;
      DeletedIsNotFound(v, name, k + 1);
    }
  }
}
