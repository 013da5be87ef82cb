/** fat16.c in its own form: sector buffers changed in place and written back, scanning loops and
    the chain-following loop, proved against Fat16. */
module Fat16Code {
  import opened ByteStrings
  import opened CStrings
  import opened Fat16
  import opened Fat16Chains
  import opened Fat16RoundTrip
  import opened Integers
  import opened Tokens

  /** init_fat16_bpb: the fields of the boot sector. */
  method InitBpb(disk: Disk) returns (bpb: Bpb)
    ensures bpb == BootBpb(disk)
  {
    var sector := Read(disk, FAT16_START_LBA);
    bpb := Bpb(Word(sector, 11), sector[13], Word(sector, 14), sector[16], Word(sector, 17), Word(sector, 22));
  }

  /** init_fat16_geometry. */
  method InitGeometry(bpb: Bpb) returns (geo: Geometry)
    requires bpb.bytesPerSector != 0
    ensures geo == GeometryOf(bpb)
  {
    var fatStart := FAT16_START_LBA + bpb.reservedSectors;
    var rootStart := fatStart + bpb.numFats * bpb.sectorsPerFat;
    var rootSectors := Ceil(bpb.rootEntryCount * 32, bpb.bytesPerSector);
    geo := Geometry(fatStart, rootStart, rootSectors, rootStart + rootSectors,
                    bpb.sectorsPerCluster, bpb.sectorsPerFat);
  }

  class FileSystem {
    var disk: Disk
    const geo: Geometry

    /** init_fat16. Without the mark of the file system the source does not return. */
    constructor (disk: Disk)
      requires IsFat16(disk) && BootBpb(disk).bytesPerSector != 0
      ensures View() == Volume(disk, GeometryOf(BootBpb(disk)))
    {
      hide IsFat16, BootBpb, GeometryOf;
      this.disk := disk;
      var bpb := InitBpb(disk);
      var g := InitGeometry(bpb);
      geo := g;
    }

    function View(): Volume
      reads this
    {
      Volume(disk, geo)
    }

    method AtaRead(lba: nat, buf: array<byte>, off: nat)
      requires off + SECTOR <= buf.Length
      modifies buf
      ensures buf[off..off + SECTOR] == Read(disk, lba)
      ensures buf[..off] == old(buf[..off]) && buf[off + SECTOR..] == old(buf[off + SECTOR..])
    {
      var s := Read(disk, lba);
      for i := 0 to SECTOR
        invariant forall k :: 0 <= k < i ==> buf[off + k] == s[k]
        invariant forall k :: 0 <= k < buf.Length && !(off <= k < off + i) ==> buf[k] == old(buf[k])
      {
        buf[off + i] := s[i];
      }
    }

    method AtaWrite(lba: nat, buf: array<byte>)
      requires buf.Length == SECTOR
      modifies this
      ensures disk == Write(old(disk), lba, buf[..])
    {
      disk := disk[lba := buf[..]];
    }

    /** fat16_alloc_cluster. */
    method AllocCluster() returns (cluster: nat)
      modifies this
      ensures cluster == FreeCluster(old(View())) && cluster < 0x10000
      ensures View() == if cluster == 0 then old(View()) else SetEntry(old(View()), cluster, END_OF_CHAIN)
    {
      FreeIsSmall(View(), 2);
      var sector := new byte[SECTOR];
      var totalClusters := geo.sectorsPerFat * 256 % 0x10000;
      cluster := 2;
      while cluster < totalClusters
        invariant unchanged(this) && fresh(sector)
        invariant 2 <= cluster && FreeFrom(View(), 2) == FreeFrom(View(), cluster)
      {
        var lba := geo.fatStart + cluster / 256;
        var off := FatOffset(cluster);
        AtaRead(lba, sector, 0);
        assert sector[..] == Read(disk, lba);
        var value := Word(sector[..], off);
        if value == 0 {
          PutWord(sector, off, END_OF_CHAIN);
          AtaWrite(lba, sector);
          return;
        }
        cluster := cluster + 1;
      }
      cluster := 0;
    }

    /** fat16_find_file; the entry is the copy that is returned. */
    method FindFileNamed(input: array<byte>, ghost s: seq<byte>) returns (r: Lookup, entry: array<byte>)
      requires Holds(input[..], 0, s) && ShortName(s)
      ensures r == FindFile(View(), s) && fresh(entry) && entry.Length == 32
      ensures r.Found? ==> r.slot < SlotCount(geo) && entry[..] == Slot(View(), r.slot)
      ensures r.RootFolder? ==> entry[0] == '/' as int && entry[11] == 0x10
    {
      hide FormatName, FindFrom;
      entry := new byte[32];
      HoldsAt(input[..], 0, s, 0);
      if input[0] == '/' as int && input[1] == 0 {
        IsSlash(input[..], s);
        entry[0], entry[11] := '/' as int, 0x10;
        return RootFolder, entry;
      }
      IsSlash(input[..], s);
      var name, ext := new byte[8], new byte[3];
      FormatNameInto(input, name, ext, s);
      FormattedHasNoZero(s);
      var k := SearchRoot(name, ext, entry, FormatName(s));
      r := if k < SlotCount(geo) then Found(k) else Missing;
    }

    /** The outer loop of fat16_find_file. */
    method SearchRoot(name: array<byte>, ext: array<byte>, entry: array<byte>, ghost nm: seq<byte>) returns (k: nat)
      requires name.Length == 8 && ext.Length == 3 && entry.Length == 32 && name[..] + ext[..] == nm && NoZero(nm)
      modifies entry
      ensures k == FindFrom(View(), nm, 0)
      ensures k < SlotCount(geo) ==> entry[..] == Slot(View(), k)
    {
      hide FindFrom, Slot;
      var sector := new byte[SECTOR];
      for i := 0 to geo.rootSectors
        invariant FindFrom(View(), nm, 0) == FindFrom(View(), nm, i * 16)
        invariant fresh(sector) && unchanged(entry)
      {
        AtaRead(geo.rootStart + i, sector, 0);
        assert sector[..] == Read(disk, geo.rootStart + i);
        var found := SearchSector(sector, name, ext, i, nm);
        if found.End? {
          return SlotCount(geo);
        }
        if found.At? {
          SlotOf(View(), i, found.index);
          Memcpy(entry, 0, sector, found.index * 32, 32);
          return i * 16 + found.index;
        }
      }
      FindAtEnd(View(), nm);
      k := SlotCount(geo);
    }

    /** The inner loop of fat16_find_file, over the entries of sector `i` of the root directory. */
    method SearchSector(sector: array<byte>, name: array<byte>, ext: array<byte>, i: nat, ghost nm: seq<byte>)
      returns (r: Scan)
      requires i < geo.rootSectors && sector.Length == SECTOR && sector[..] == Read(disk, geo.rootStart + i)
      requires name.Length == 8 && ext.Length == 3 && name[..] + ext[..] == nm && NoZero(nm)
      ensures r.At? ==> r.index < 16 && FindFrom(View(), nm, i * 16) == i * 16 + r.index
      ensures r.End? ==> FindFrom(View(), nm, i * 16) == SlotCount(geo)
      ensures r.Nothing? ==> FindFrom(View(), nm, i * 16) == FindFrom(View(), nm, (i + 1) * 16)
    {
      hide FindFrom, Slot;
      for m := 0 to 16
        invariant FindFrom(View(), nm, i * 16) == FindFrom(View(), nm, i * 16 + m)
      {
        SlotOf(View(), i, m);
        FindStep(View(), nm, i * 16 + m);
        ghost var e := Slot(View(), i * 16 + m);
        assert sector[m * 32] == e[0];
        if sector[m * 32] == 0 {
          return End;
        }
        if sector[m * 32] != DELETED {
          var same := MatchName(sector, m * 32, name, ext, nm);
          if same {
            return At(m);
          }
        }
      }
      r := Nothing;
    }

    /** fat16_create_dir_entry. */
    method CreateDirEntry(input: array<byte>, cluster: nat, size: nat, ghost s: seq<byte>)
      requires Holds(input[..], 0, s) && ShortName(s) && cluster < 0x10000 && size < TWO_32
      modifies this
      ensures View() == CreateEntry(old(View()), FormatName(s), cluster, size)
    {
      hide FormatName, FreeSlotFrom, DirEntry, SetSlot, Splice;
      var name, ext := new byte[8], new byte[3];
      FormatNameInto(input, name, ext, s);
      var sector := new byte[SECTOR];
      for i := 0 to geo.rootSectors
        invariant unchanged(this) && fresh(sector) && name[..] + ext[..] == FormatName(s)
        invariant FreeSlotFrom(View(), 0) == FreeSlotFrom(View(), i * 16)
      {
        AtaRead(geo.rootStart + i, sector, 0);
        assert sector[..] == Read(disk, geo.rootStart + i);
        var m := FreeInSector(sector, i);
        if m < 16 {
          PutDirEntry(sector, m * 32, name, ext, cluster, size);
          WriteSlot(sector, i, m, DirEntry(FormatName(s), cluster, size));
          return;
        }
      }
      FreeAtEnd(View());
    }

    method WriteSlot(sector: array<byte>, i: nat, m: nat, ghost e: seq<byte>)
      requires m < 16 && sector.Length == SECTOR && |e| == 32
      requires sector[..] == Splice(Read(disk, geo.rootStart + i), m * 32, e)
      modifies this
      ensures View() == SetSlot(old(View()), i * 16 + m, e)
    {
      assert SlotSector(geo, i * 16 + m) == geo.rootStart + i && (i * 16 + m) % 16 == m;
      AtaWrite(geo.rootStart + i, sector);
    }

    method FreeInSector(sector: array<byte>, i: nat) returns (m: nat)
      requires i < geo.rootSectors && sector.Length == SECTOR && sector[..] == Read(disk, geo.rootStart + i)
      ensures m <= 16
      ensures m < 16 ==> FreeSlotFrom(View(), i * 16) == i * 16 + m
      ensures m == 16 ==> FreeSlotFrom(View(), i * 16) == FreeSlotFrom(View(), (i + 1) * 16)
    {
      hide FreeSlotFrom, Slot;
      m := 0;
      while m < 16
        invariant m <= 16 && FreeSlotFrom(View(), i * 16) == FreeSlotFrom(View(), i * 16 + m)
      {
        SlotOf(View(), i, m);
        FreeStep(View(), i * 16 + m);
        assert sector[m * 32] == Slot(View(), i * 16 + m)[0];
        if sector[m * 32] == 0 || sector[m * 32] == DELETED {
          return;
        }
        m := m + 1;
      }
    }

    /** fat16_read_file, for the chain `cs` that starts at the entry's cluster. */
    method ReadFile(startCluster: nat, buf: array<byte>, ghost cs: seq<nat>) returns (size: nat)
      requires IsChain(View(), cs) && cs[0] == startCluster
      requires |Contents(View(), cs)| <= buf.Length
      modifies buf
      ensures size == |Contents(View(), cs)| && buf[..size] == Contents(View(), cs)
      ensures buf[size..] == old(buf[size..])
    {
      hide ClusterBytes, Entry, Contents;
      ghost var v, k := View(), 1;
      NoContents(v, cs);
      size := ReadCluster(startCluster, buf, 0, cs, 0);
      var next := NextCluster(startCluster);
      while next < END_OF_CHAIN
        invariant 1 <= k <= |cs| && next == Entry(v, cs[k - 1])
        invariant size == |Contents(v, cs[..k])| <= buf.Length && buf[..size] == Contents(v, cs[..k])
        invariant forall i :: size <= i < buf.Length ==> buf[i] == old(buf[i])
        decreases |cs| - k
      {
        assert k < |cs| && next == cs[k];
        ghost var was := buf[..];
        size := ReadCluster(next, buf, size, cs, k);
        assert forall i :: size <= i < buf.Length ==>
          buf[i] == buf[size..][i - size] == was[size..][i - size] == was[i];
        next := NextCluster(next);
        k := k + 1;
      }
      assert cs[..k] == cs;
    }

    method NextCluster(c: nat) returns (next: nat)
      ensures next == Entry(View(), c)
    {
      var fatBuffer := new byte[SECTOR];
      AtaRead(geo.fatStart + c / 256, fatBuffer, 0);
      assert fatBuffer[..] == Read(disk, geo.fatStart + c / 256);
      next := Word(fatBuffer[..], FatOffset(c));
    }

    /** One cluster, read behind the `size` bytes read before. */
    method ReadCluster(c: nat, buf: array<byte>, size: nat, ghost cs: seq<nat>, ghost k: nat) returns (r: nat)
      requires k < |cs| && cs[k] == c && |Contents(View(), cs)| <= buf.Length
      requires size == |Contents(View(), cs[..k])| && size <= buf.Length && buf[..size] == Contents(View(), cs[..k])
      modifies buf
      ensures r == |Contents(View(), cs[..k + 1])| <= buf.Length && buf[..r] == Contents(View(), cs[..k + 1])
      ensures r >= size && buf[r..] == old(buf[r..])
    {
      hide Contents, Bytes;
      ContentsStep(View(), cs, k);
      r := ReadSectors(ClusterLba(geo, c), geo.sectorsPerCluster, buf, size);
    }

    /** The inner loop of fat16_read_file. */
    method ReadSectors(lba: nat, n: nat, buf: array<byte>, size: nat) returns (r: nat)
      requires size + n * SECTOR <= buf.Length
      modifies buf
      ensures r == size + n * SECTOR && buf[..r] == old(buf[..size]) + Bytes(disk, lba, n)
      ensures buf[r..] == old(buf[r..])
    {
      r := size;
      for i := 0 to n
        invariant r == size + i * SECTOR
        invariant buf[..r] == old(buf[..size]) + Bytes(disk, lba, i)
        invariant buf[r..] == old(buf[r..])
      {
        BytesStep(disk, lba, i);
        ghost var before, after := buf[..r], buf[r + SECTOR..];
        AtaRead(lba + i, buf, r);
        assert buf[..r + SECTOR] == before + buf[r..r + SECTOR];
        assert buf[r + SECTOR..] == after == old(buf[r + SECTOR..]);
        r := r + SECTOR;
      }
    }

    /** fat16_write_file. */
    method Create(input: array<byte>, data: array<byte>, ghost s: seq<byte>) returns (ok: bool)
      requires Holds(input[..], 0, s) && ShortName(s) && data.Length < 0x8000_0000
      modifies this
      ensures View() == WriteFile(old(View()), s, data[..]) && (ok <==> CanWrite(old(View())))
    {
      hide FreeCluster, SetEntry, CreateEntry, FormatName;
      var cluster := AllocCluster();
      if cluster == 0 {
        return false;
      }
      StoreCluster(cluster, data);
      CreateDirEntry(input, cluster, data.Length, s);
      ok := true;
    }

    method StoreCluster(cluster: nat, data: array<byte>)
      modifies this
      ensures View() == StoreData(old(View()), cluster, data[..])
    {
      hide Chunk;
      var lba := ClusterLba(geo, cluster);
      ghost var d := disk;
      for i := 0 to geo.sectorsPerCluster
        invariant disk == Fill(d, lba, data[..], i)
      {
        var sector := SectorOf(data, i);
        AtaWrite(lba + i, sector);
      }
    }
  }

  /** Sector `i` of the data: what there is of it, and zeros. */
  method SectorOf(data: array<byte>, i: nat) returns (sector: array<byte>)
    ensures fresh(sector) && sector.Length == SECTOR && sector[..] == Chunk(data[..], i)
  {
    sector := new byte[SECTOR](_ => 0);
    var offset := i * SECTOR;
    var remaining := if data.Length > offset then data.Length - offset else 0;
    var toCopy := if remaining < SECTOR then remaining else SECTOR;
    if toCopy > 0 {
      Memcpy(sector, 0, data, offset, toCopy);
    }
    assert sector[..] == Chunk(data[..], i);
  }

  datatype Scan = At(index: nat) | End | Nothing

  method PutWord(a: array<byte>, off: nat, w: nat)
    requires off + 1 < a.Length && w < 0x10000
    modifies a
    ensures a[..] == SetWord(old(a[..]), off, w)
  {
    a[off], a[off + 1] := Low(w), High(w);
  }

  method Memcpy(dest: array<byte>, at: nat, src: array<byte>, from: nat, n: nat)
    requires dest != src && at + n <= dest.Length && from + n <= src.Length
    modifies dest
    ensures dest[..] == Splice(old(dest[..]), at, src[from..from + n])
  {
    for i := 0 to n
      invariant forall k :: 0 <= k < dest.Length ==>
        dest[k] == if at <= k < at + i then src[from + (k - at)] else old(dest[k])
    {
      dest[at + i] := src[from + i];
    }
    SpliceIs(old(dest[..]), dest[..], at, src[from..from + n]);
  }

  /** strncmp of string.c: also false when the first string ends early. */
  method Strncmp(a: array<byte>, b: array<byte>, off: nat, n: nat) returns (same: bool)
    requires n <= a.Length && off + n <= b.Length
    ensures same <==> a[..n] == b[off..off + n] && NoZero(a[..n])
  {
    for i := 0 to n
      invariant a[..i] == b[off..off + i] && NoZero(a[..i])
    {
      if a[i] != b[off + i] || a[i] == 0 {
        assert a[..n][i] == a[i] && b[off..off + n][i] == b[off + i];
        return false;
      }
    }
    same := true;
  }

  method MatchName(sector: array<byte>, off: nat, name: array<byte>, ext: array<byte>, ghost nm: seq<byte>)
    returns (same: bool)
    requires off + 32 <= sector.Length && name.Length == 8 && ext.Length == 3 && name[..] + ext[..] == nm && NoZero(nm)
    ensures same <==> sector[off..off + 32][..11] == nm
  {
    assert name[..8] == name[..] == nm[..8] && ext[..3] == ext[..] == nm[8..];
    SplitName(sector[..], off, name[..], ext[..]);
    same := Strncmp(name, sector, off, 8);
    if same {
      same := Strncmp(ext, sector, off + 8, 3);
    }
  }

  /** The assignments that fill a directory entry. */
  method PutDirEntry(sector: array<byte>, off: nat, name: array<byte>, ext: array<byte>, c: nat, size: nat)
    requires off + 32 <= sector.Length && name.Length == 8 && ext.Length == 3 && name != sector && ext != sector
    requires c < 0x10000 && size < 0x1_0000_0000
    modifies sector
    ensures sector[..] == Splice(old(sector[..]), off, DirEntry(name[..] + ext[..], c, size))
  {
    hide Splice, DirEntry, Zeros;
    ghost var a, nm := sector[..], name[..] + ext[..];
    Memcpy(sector, off, name, 0, 8);
    Memcpy(sector, off + 8, ext, 0, 3);
    assert name[0..8] == name[..] && ext[0..3] == ext[..];
    SpliceTwice(a, off, name[..], ext[..]);
    var mid, tail := EntryMiddle(c), EntryTail(size);
    PutBytes(sector, off + 11, mid);
    SpliceTwice(a, off, nm, mid);
    PutBytes(sector, off + 28, tail);
    SpliceTwice(a, off, nm + mid, tail);
    EntryParts(nm, c, size);
  }

  /** Attributes, the reserved bytes, and the first cluster. */
  function EntryMiddle(c: nat): (m: seq<byte>)
    requires c < 0x10000
    ensures |m| == 17
  {
    [0x20] + Zeros(14) + [Low(c), High(c)]
  }

  function EntryTail(size: nat): (t: seq<byte>)
    requires size < TWO_32
    ensures |t| == 4
  {
    var lo, hi := size % 0x10000, size / 0x10000;
    [Low(lo), High(lo), Low(hi), High(hi)]
  }

  lemma EntryParts(nm: seq<byte>, c: nat, size: nat)
    requires |nm| == 11 && c < 0x10000 && size < TWO_32
    ensures nm + EntryMiddle(c) + EntryTail(size) == DirEntry(nm, c, size)
  {
  }

  function Splice(a: seq<byte>, off: nat, x: seq<byte>): (r: seq<byte>)
    requires off + |x| <= |a|
    ensures |r| == |a| && r == a[..off] + x + a[off + |x|..]
  {
    a[..off] + x + a[off + |x|..]
  }

  lemma SpliceIs(a: seq<byte>, b: seq<byte>, off: nat, x: seq<byte>)
    requires off + |x| <= |a| == |b|
    requires forall k :: 0 <= k < |a| ==> b[k] == if off <= k < off + |x| then x[k - off] else a[k]
    ensures b == Splice(a, off, x)
  {
    assert b[off..off + |x|] == x && b[..off] == a[..off] && b[off + |x|..] == a[off + |x|..];
  }

  lemma SpliceTwice(a: seq<byte>, off: nat, x: seq<byte>, y: seq<byte>)
    requires off + |x| + |y| <= |a|
    ensures Splice(Splice(a, off, x), off + |x|, y) == Splice(a, off, x + y)
  {
  }

  method PutBytes(a: array<byte>, off: nat, x: seq<byte>)
    requires off + |x| <= a.Length
    modifies a
    ensures a[..] == Splice(old(a[..]), off, x)
  {
    for i := 0 to |x|
      invariant forall k :: 0 <= k < a.Length ==> a[k] == if off <= k < off + i then x[k - off] else old(a[k])
    {
      a[off + i] := x[i];
    }
    SpliceIs(old(a[..]), a[..], off, x);
  }

  lemma IsSlash(a: seq<byte>, s: seq<byte>)
    requires Holds(a, 0, s)
    ensures a[0] == '/' as int && a[1] == 0 <==> s == ['/' as int]
  {
    HoldsAt(a, 0, s, 0);
    if |s| > 0 {
      HoldsAt(a, 0, s, 1);
    }
  }

  lemma FormattedHasNoZero(s: seq<byte>)
    requires ShortName(s)
    ensures NoZero(FormatName(s))
  {
    TokenHasNoZero(s, DOT);
    TokenHasNoZero(AfterToken(s, DOT), DOT);
  }

  lemma SlotOf(v: Volume, i: nat, m: nat)
    requires m < 16
    ensures Slot(v, i * 16 + m) == Read(v.disk, v.geo.rootStart + i)[m * 32..m * 32 + 32]
  {
    assert (i * 16 + m) / 16 == i && (i * 16 + m) % 16 == m;
  }

  lemma FindStep(v: Volume, name: seq<byte>, k: nat)
    requires k < SlotCount(v.geo)
    ensures FindFrom(v, name, k) == if Slot(v, k)[0] == 0 then SlotCount(v.geo)
      else if Slot(v, k)[0] != DELETED && Slot(v, k)[..11] == name then k
      else FindFrom(v, name, k + 1)
  {
  }

  lemma FindAtEnd(v: Volume, name: seq<byte>)
    ensures FindFrom(v, name, SlotCount(v.geo)) == SlotCount(v.geo)
  {
  }

  lemma FreeStep(v: Volume, k: nat)
    requires k < SlotCount(v.geo)
    ensures FreeSlotFrom(v, k) == if SlotIsFree(v, k) then k else FreeSlotFrom(v, k + 1)
  {
  }

  lemma FreeAtEnd(v: Volume)
    ensures FreeSlotFrom(v, SlotCount(v.geo)) == SlotCount(v.geo)
  {
  }

  lemma SplitName(s: seq<byte>, off: nat, name: seq<byte>, ext: seq<byte>)
    requires off + 32 <= |s| && |name| == 8 && |ext| == 3
    ensures s[off..off + 32][..11] == name + ext <==> s[off..off + 8] == name && s[off + 8..off + 11] == ext
  {
    var e := s[off..off + 32][..11];
    assert e == s[off..off + 8] + s[off + 8..off + 11];
    assert e[..8] == s[off..off + 8] && e[8..] == s[off + 8..off + 11];
    assert (name + ext)[..8] == name && (name + ext)[8..] == ext;
  }

  lemma BytesStep(d: Disk, lba: nat, i: nat)
    ensures Bytes(d, lba, i + 1) == Bytes(d, lba, i) + Read(d, lba + i)
  {
  }

  lemma NoContents(v: Volume, cs: seq<nat>)
    ensures Contents(v, cs[..0]) == []
  {
  }

  lemma {:induction false} ContentsStep(v: Volume, cs: seq<nat>, k: nat)
    requires k < |cs|
    ensures Contents(v, cs[..k + 1]) == Contents(v, cs[..k]) + ClusterBytes(v, cs[k])
    ensures |Contents(v, cs[..k + 1])| <= |Contents(v, cs)|
    decreases |cs| - k
  {
    hide ClusterBytes;
    assert cs[..k + 1][..k] == cs[..k] && cs[..k + 1][k] == cs[k];
    if k + 1 < |cs| {
      ContentsStep(v, cs, k + 1);
    } else {
      assert cs[..k + 1] == cs;
    }
  }
}
