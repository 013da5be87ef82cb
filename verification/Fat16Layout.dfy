/** Where things are on the disk, byte by byte: the boot sector, the tables, the root directory and the
    clusters, against the layout of the Microsoft FAT32 File System Specification 1.03, sections "Boot
    Sector and BPB", "FAT Data Structure" and "FAT Directory Structure". */
module Fat16Layout {
  import opened ByteStrings
  import opened Fat16
  import opened Fat16Chains
  import opened Fat16Files
  import opened Fat16Names
  import opened Fat16RoundTrip
  import opened Integers

  /** Byte number `a` of the disk. */
  function DiskByte(d: Disk, a: nat): byte { Read(d, a / 512)[a % 512] }

  /** The little-endian word at byte `a`. */
  function DiskWord(d: Disk, a: nat): int { (DiskByte(d, a) as int) + 256 * (DiskByte(d, a + 1) as int) }

  lemma ByteOfSector(d: Disk, lba: nat, off: nat)
    requires off < 512
    ensures DiskByte(d, 512 * lba + off) == Read(d, lba)[off]
  {
  }

  // ----- the boot sector -----

  const PARTITION: nat := 2048 * 512

  lemma BootFields(d: Disk)
    ensures var b := BootBpb(d);
      && b.bytesPerSector == DiskWord(d, PARTITION + 11) && b.sectorsPerCluster == DiskByte(d, PARTITION + 13)
      && b.reservedSectors == DiskWord(d, PARTITION + 14) && b.numFats == DiskByte(d, PARTITION + 16)
      && b.rootEntryCount == DiskWord(d, PARTITION + 17) && b.sectorsPerFat == DiskWord(d, PARTITION + 22)
    ensures IsFat16(d) <==>
      forall i :: 0 <= i < 8 ==> DiskByte(d, PARTITION + 54 + i) == [70, 65, 84, 49, 54, 32, 32, 32][i]
  {
  }

  // ----- the regions -----

  /** The first byte of table `t`, of the root directory, and of the data region. */
  function TableByte(b: Bpb, t: nat): nat { PARTITION + (b.reservedSectors + t * b.sectorsPerFat) * 512 }

  function RootByte(b: Bpb): nat { TableByte(b, b.numFats) }

  /** The first sector boundary at or behind the last of the `rootEntryCount` entries of 32 bytes. */
  ghost predicate IsDataByte(b: Bpb, a: nat) {
    a % 512 == 0 && RootByte(b) + 32 * b.rootEntryCount <= a < RootByte(b) + 32 * b.rootEntryCount + 512
  }

  lemma DataByteIs(b: Bpb)
    requires UsableBpb(b)
    ensures IsDataByte(b, 512 * GeometryOf(b).dataStart) && RootByte(b) == 512 * GeometryOf(b).rootStart
    ensures TableByte(b, 0) == 512 * GeometryOf(b).fatStart
    ensures 512 * GeometryOf(b).dataStart == RootByte(b) + 32 * SlotCount(GeometryOf(b))
  {
    var sectors := Ceil(b.rootEntryCount * 32, b.bytesPerSector);
    assert sectors * 512 >= b.rootEntryCount * 32 && sectors * 512 < b.rootEntryCount * 32 + 512;
    hide UsableBpb;
    assert GeometryOf(b).rootStart == 2048 + b.reservedSectors + b.numFats * b.sectorsPerFat;
    Distributes512(2048 + b.reservedSectors, b.numFats * b.sectorsPerFat);
  }

  lemma Distributes512(a: nat, b: nat)
    ensures 512 * (a + b) == a * 512 + b * 512
  {
  }

  /** Table after table, then the directory, then the data: no two regions overlap. */
  lemma RegionsAreApart(b: Bpb, t: nat, u: nat)
    requires UsableBpb(b) && t < u <= b.numFats
    ensures TableByte(b, t) + 512 * b.sectorsPerFat <= TableByte(b, u) <= RootByte(b)
    ensures forall a :: IsDataByte(b, a) ==> RootByte(b) + 32 * b.rootEntryCount <= a
  {
    MulApart(t, u, b.sectorsPerFat);
    MulMonotone(u, b.numFats, b.sectorsPerFat);
  }

  /** The volume has the geometry that init_fat16_geometry computes from these fields. */
  predicate MountedBy(v: Volume, b: Bpb) { UsableBpb(b) && v.geo == GeometryOf(b) }

  lemma MountedIsGood(v: Volume, b: Bpb)
    requires MountedBy(v, b)
    ensures GoodGeometry(v.geo) && v.geo.sectorsPerCluster == b.sectorsPerCluster
    ensures SlotCount(v.geo) >= b.rootEntryCount
  {
    GeometryIsGood(b);
  }

  lemma MountedSame(v: Volume, w: Volume, b: Bpb)
    requires MountedBy(v, b) && w.geo == v.geo
    ensures MountedBy(w, b)
  {
  }

  // ----- what is read where -----

  /** Entry `c` of the first table is the word at byte 2c behind the reserved sectors. */
  lemma EntryLayout(v: Volume, b: Bpb, c: nat)
    requires MountedBy(v, b)
    ensures Entry(v, c) == DiskWord(v.disk, TableByte(b, 0) + 2 * c)
  {
    DataByteIs(b);
    hide GeometryOf, TableByte;
    var lba, off := v.geo.fatStart + c / 256, c % 256 * 2;
    assert TableByte(b, 0) + 2 * c == 512 * lba + off;
    ByteOfSector(v.disk, lba, off);
    ByteOfSector(v.disk, lba, off + 1);
  }

  /** Entry `k` of the root directory is the 32 bytes at 32k behind all the tables. */
  lemma SlotLayout(v: Volume, b: Bpb, k: nat, i: nat)
    requires MountedBy(v, b) && i < 32
    ensures Slot(v, k)[i] == DiskByte(v.disk, RootByte(b) + 32 * k + i)
  {
    DataByteIs(b);
    hide GeometryOf, RootByte;
    var lba, off := v.geo.rootStart + k / 16, k % 16 * 32 + i;
    assert RootByte(b) + 32 * k + i == 512 * lba + off;
    ByteOfSector(v.disk, lba, off);
  }

  lemma {:induction false} BytesLayout(d: Disk, lba: nat, n: nat, j: nat)
    requires j < 512 * n
    ensures Bytes(d, lba, n)[j] == DiskByte(d, 512 * lba + j)
    decreases n
  {
    if j < 512 * (n - 1) {
      BytesLayout(d, lba, n - 1, j);
    } else {
      ByteOfSector(d, lba + n - 1, j - 512 * (n - 1));
      assert 512 * (lba + n - 1) + (j - 512 * (n - 1)) == 512 * lba + j;
    }
  }

  /** The first byte of cluster `c`, when the data region begins at byte `a`. */
  function ClusterByte(b: Bpb, a: nat, c: nat): (r: nat)
    requires c >= 2
    ensures r == a + 512 * ((c - 2) * b.sectorsPerCluster)
  {
    var clusters: nat := c - 2;
    a + 512 * (clusters * b.sectorsPerCluster)
  }

  lemma DataByteIsUnique(b: Bpb, a: nat, a': nat)
    requires IsDataByte(b, a) && IsDataByte(b, a')
    ensures a == a'
  {
    hide RootByte;
  }

  /** Cluster 2 begins where the data region does, and the others follow it. */
  lemma ClusterLayout(v: Volume, b: Bpb, a: nat, c: nat, j: nat)
    requires MountedBy(v, b) && IsDataByte(b, a) && 2 <= c < 0x10000 && j < 512 * b.sectorsPerCluster
    ensures j < |ClusterBytes(v, c)| && ClusterBytes(v, c)[j] == DiskByte(v.disk, ClusterByte(b, a, c) + j)
  {
    hide *;
    MountedIsGood(v, b);
    MountedData(v, b, a);
    ClusterSize(v, c);
    ClusterAt(v, b, a, c, j);
  }

  lemma MountedData(v: Volume, b: Bpb, a: nat)
    requires MountedBy(v, b) && IsDataByte(b, a)
    ensures a == 512 * v.geo.dataStart
  {
    DataByteIs(b);
    hide GeometryOf, IsDataByte;
    DataByteIsUnique(b, a, 512 * v.geo.dataStart);
  }

  lemma ClusterAt(v: Volume, b: Bpb, a: nat, c: nat, j: nat)
    requires GoodGeometry(v.geo) && 2 <= c < 0x10000 && j < 512 * v.geo.sectorsPerCluster && j < |ClusterBytes(v, c)|
    requires a == 512 * v.geo.dataStart && b.sectorsPerCluster == v.geo.sectorsPerCluster
    ensures ClusterBytes(v, c)[j] == DiskByte(v.disk, ClusterByte(b, a, c) + j)
  {
    ClusterLbaIs(v.geo, c);
    hide ClusterLba, GoodGeometry, DiskByte, Bytes;
    BytesLayout(v.disk, ClusterLba(v.geo, c), v.geo.sectorsPerCluster, j);
  }

  /** What a chain holds, cluster by cluster in its order. */
  lemma {:induction false} ContentsLayout(v: Volume, cs: seq<nat>, i: nat, j: nat)
    requires i < |cs| && j < 512 * v.geo.sectorsPerCluster
    ensures |Contents(v, cs)| == |cs| * (512 * v.geo.sectorsPerCluster)
    ensures i * (512 * v.geo.sectorsPerCluster) + j < |Contents(v, cs)|
    ensures j < |ClusterBytes(v, cs[i])|
    ensures Contents(v, cs)[i * (512 * v.geo.sectorsPerCluster) + j] == ClusterBytes(v, cs[i])[j]
    decreases |cs|
  {
    hide ClusterBytes;
    var n, size := |cs|, 512 * v.geo.sectorsPerCluster;
    ClusterSize(v, cs[n - 1]);
    ClusterSize(v, cs[i]);
    ContentsSize(v, cs[..n - 1]);
    Multiples(n - 1, size);
    if i < n - 1 {
      ContentsLayout(v, cs[..n - 1], i, j);
    }
  }

  lemma ClusterSize(v: Volume, c: nat)
    ensures |ClusterBytes(v, c)| == 512 * v.geo.sectorsPerCluster
  {
  }

  lemma {:induction false} ContentsSize(v: Volume, cs: seq<nat>)
    ensures |Contents(v, cs)| == |cs| * (512 * v.geo.sectorsPerCluster)
    decreases |cs|
  {
    hide ClusterBytes;
    if cs != [] {
      ContentsSize(v, cs[..|cs| - 1]);
      ClusterSize(v, cs[|cs| - 1]);
      Multiples(|cs| - 1, 512 * v.geo.sectorsPerCluster);
    }
  }

  // ----- finding a file -----

  /** Slot `k` holds a file of this name: it is not marked as deleted, and its 11 bytes agree. */
  predicate HoldsName(b: Bpb, d: Disk, k: nat, name: seq<byte>)
    requires |name| == 11
  {
    && DiskByte(d, RootByte(b) + 32 * k) != 0xE5
    && forall i :: 0 <= i < 11 ==> DiskByte(d, RootByte(b) + 32 * k + i) == name[i]
  }

  lemma SlotNamed(v: Volume, b: Bpb, k: nat, name: seq<byte>)
    requires MountedBy(v, b) && |name| == 11
    ensures var s := Slot(v, k);
      && s[0] == DiskByte(v.disk, RootByte(b) + 32 * k)
      && (s[0] != DELETED && s[..11] == name <==> HoldsName(b, v.disk, k, name))
  {
    hide Slot, RootByte, MountedBy, DiskByte;
    var s := Slot(v, k);
    SlotLayout(v, b, k, 0);
    forall i | 0 <= i < 11
      ensures s[..11][i] == DiskByte(v.disk, RootByte(b) + 32 * k + i)
    {
      SlotLayout(v, b, k, i);
    }
  }

  /** The search on a mounted disk: it finds slot `n` precisely when that holds the name, and no slot
      before it does or is the end mark. */
  lemma {:induction false} FoundExactlyAt(v: Volume, b: Bpb, name: seq<byte>, k: nat, n: nat)
    requires MountedBy(v, b) && |name| == 11 && k <= n < SlotCount(v.geo)
    ensures FindFrom(v, name, k) == n <==>
      && HoldsName(b, v.disk, n, name) && DiskByte(v.disk, RootByte(b) + 32 * n) != 0
      && forall i :: k <= i < n ==> !HoldsName(b, v.disk, i, name) && DiskByte(v.disk, RootByte(b) + 32 * i) != 0
    decreases n - k
  {
    hide Slot, MountedBy, RootByte, HoldsName, DiskByte;
    SlotNamed(v, b, k, name);
    FoundFrom(v, name, k);
    if k < n {
      FoundExactlyAt(v, b, name, k + 1, n);
    } else {
      FoundBehind(v, name, k + 1);
    }
  }

  lemma FoundFrom(v: Volume, name: seq<byte>, k: nat)
    requires k < SlotCount(v.geo)
    ensures FindFrom(v, name, k) ==
      if Slot(v, k)[0] == 0 then SlotCount(v.geo)
      else if Slot(v, k)[0] != DELETED && Slot(v, k)[..11] == name then k
      else FindFrom(v, name, k + 1)
  {
  }

  lemma {:induction false} FoundBehind(v: Volume, name: seq<byte>, k: nat)
    ensures FindFrom(v, name, k) >= k || FindFrom(v, name, k) == SlotCount(v.geo)
    decreases SlotCount(v.geo) - k
  {
    if k < SlotCount(v.geo) {
      FoundBehind(v, name, k + 1);
    }
  }

  /** A disk mounted by its boot sector: a file is found exactly where the format puts it, in the first
      of the slots behind all the tables that holds its name, unless the end mark comes before. */
  lemma MountedFileIsFound(v: Volume, input: seq<byte>, n: nat)
    requires MountedBy(v, BootBpb(v.disk)) && input != ['/' as int] && n < SlotCount(v.geo)
    ensures var b, name := BootBpb(v.disk), FormatName(input);
      FindFile(v, input) == Found(n) <==>
        && HoldsName(b, v.disk, n, name) && DiskByte(v.disk, RootByte(b) + 32 * n) != 0
        && forall i :: 0 <= i < n ==> !HoldsName(b, v.disk, i, name) && DiskByte(v.disk, RootByte(b) + 32 * i) != 0
  {
    hide BootBpb, FormatName, MountedBy, RootByte, HoldsName, FindFrom, SlotCount, DiskByte;
    FoundExactlyAt(v, BootBpb(v.disk), FormatName(input), 0, n);
  }

  // ----- what a write leaves on the disk -----

  /** The bytes of the name: letters in capitals, the rest blanks. */
  lemma NameBytes(base: seq<byte>, ext: seq<byte>, i: nat)
    requires Part(base, 8) && Part(ext, 3) && base != [] && i < 11
    ensures var part, k := if i < 8 then base else ext, if i < 8 then i else i - 8;
      FormatName(base + [46] + ext)[i] ==
        if k >= |part| then 32 else if 97 <= part[k] <= 122 then part[k] - 32 else part[k]
  {
    FormatsParts(base, ext);
    hide FormatName;
    assert Padded(base, 8) + Padded(ext, 3) == FormatName(base + [46] + ext);
  }

  /** Byte `i` of a directory entry: name, archive attribute, zeros, cluster and size. */
  lemma DirEntryBytes(name: seq<byte>, c: nat, size: nat, i: nat)
    requires |name| == 11 && c < 0x10000 && size < 0x1_0000_0000 && i < 32
    ensures var e := DirEntry(name, c, size);
      && (i < 11 ==> e[i] == name[i]) && e[11] == 0x20 && (12 <= i < 26 ==> e[i] == 0)
      && c == (e[26] as int) + 0x100 * (e[27] as int)
      && size == (e[28] as int) + 0x100 * (e[29] as int) + 0x10000 * (e[30] as int) + 0x1000000 * (e[31] as int)
  {
  }

  /** A written file on the disk: the word of its cluster is the end mark 0xFFF8 ... */
  lemma WrittenMark(v: Volume, b: Bpb, input: seq<byte>, data: seq<byte>)
    requires MountedBy(v, b) && ShortName(input) && |data| < 0x8000_0000 && CanWrite(v)
    ensures 2 <= FreeCluster(v) < 0x10000
    ensures DiskWord(WriteFile(v, input, data).disk, TableByte(b, 0) + 2 * FreeCluster(v)) == 0xFFF8
  {
    hide *;
    MountedIsGood(v, b);
    WrittenIs(v, input, data);
    var w := WriteFile(v, input, data);
    MountedSame(v, w, b);
    EntryLayout(w, b, FreeCluster(v));
  }

  /** What WriteIs says of the new volume itself. */
  lemma WrittenIs(v: Volume, input: seq<byte>, data: seq<byte>)
    requires GoodGeometry(v.geo) && ShortName(input) && |data| < 0x8000_0000 && CanWrite(v)
    ensures var c, n, w := FreeCluster(v), FreeSlotFrom(v, 0), WriteFile(v, input, data);
      && w.geo == v.geo && 2 <= c < 0x10000 && Entry(w, c) == 0xFFF8
      && ClusterBytes(w, c) == Prefix(data, v.geo.sectorsPerCluster * SECTOR)
      && (n < SlotCount(v.geo) ==> Slot(w, n) == DirEntry(FormatName(input), c, |data|))
  {
    hide Entry, ClusterBytes, Slot, FreeCluster, DirEntry, FormatName, WriteFile, FreeSlotFrom;
    WriteIs(v, input, data, 2);
    SmallCluster(v);
  }

  /** ... the cluster holds the data, and zeros behind it ... */
  lemma WrittenData(v: Volume, b: Bpb, input: seq<byte>, data: seq<byte>, a: nat, j: nat)
    requires MountedBy(v, b) && ShortName(input) && |data| < 0x8000_0000 && CanWrite(v)
    requires IsDataByte(b, a) && j < 512 * b.sectorsPerCluster
    ensures FreeCluster(v) >= 2
    ensures DiskByte(WriteFile(v, input, data).disk, ClusterByte(b, a, FreeCluster(v)) + j) ==
      if j < |data| then data[j] else 0
  {
    hide *;
    MountedIsGood(v, b);
    WrittenIs(v, input, data);
    var w := WriteFile(v, input, data);
    MountedSame(v, w, b);
    ClusterLayout(w, b, a, FreeCluster(v), j);
    PrefixAt(data, v.geo.sectorsPerCluster * SECTOR, j);
  }

  /** ... and the first slot that was free holds name, attribute, cluster and size. */
  lemma WrittenSlot(v: Volume, b: Bpb, input: seq<byte>, data: seq<byte>, i: nat)
    requires MountedBy(v, b) && ShortName(input) && |data| < 0x8000_0000 && CanWrite(v) && i < 32
    requires FreeSlotFrom(v, 0) < SlotCount(v.geo)
    ensures FreeCluster(v) < 0x10000
    ensures DiskByte(WriteFile(v, input, data).disk, RootByte(b) + 32 * FreeSlotFrom(v, 0) + i)
         == DirEntry(FormatName(input), FreeCluster(v), |data|)[i]
  {
    hide *;
    MountedIsGood(v, b);
    WrittenIs(v, input, data);
    var w := WriteFile(v, input, data);
    MountedSame(v, w, b);
    SlotLayout(w, b, FreeSlotFrom(v, 0), i);
  }

  /** A slot is free when its first byte is 0 or 0xE5. */
  predicate FreeByte(b: Bpb, d: Disk, k: nat) {
    DiskByte(d, RootByte(b) + 32 * k) == 0 || DiskByte(d, RootByte(b) + 32 * k) == 0xE5
  }

  lemma FreeByteIs(v: Volume, b: Bpb, k: nat)
    requires MountedBy(v, b)
    ensures FreeByte(b, v.disk, k) <==> SlotIsFree(v, k)
  {
    hide MountedBy, RootByte, Slot, DiskByte;
    SlotLayout(v, b, k, 0);
  }

  /** The slot that is filled is the first free one. */
  lemma FirstFreeByte(v: Volume, b: Bpb, n: nat)
    requires MountedBy(v, b) && n < SlotCount(v.geo)
    ensures FreeSlotFrom(v, 0) == n <==> FreeByte(b, v.disk, n) && forall i :: 0 <= i < n ==> !FreeByte(b, v.disk, i)
  {
    hide MountedBy, SlotIsFree, FreeByte, FreeSlotFrom, SlotCount;
    var r := FreeSlotFrom(v, 0);
    FirstFreeSlot(v, 0);
    FreeByteIs(v, b, r);
    FreeByteIs(v, b, n);
    forall i | 0 <= i < r
      ensures !FreeByte(b, v.disk, i)
    {
      FreeByteIs(v, b, i);
      assert Live(v, i);
    }
  }

  lemma PrefixAt(data: seq<byte>, n: nat, j: nat)
    requires j < n
    ensures Prefix(data, n)[j] == if j < |data| then data[j] else 0
  {
  }
}
