/** The FAT16 volume on values: sectors, file allocation table, root directory, clusters
    (fat16.c). */
module Fat16 {
  import opened ByteStrings
  import opened Integers
  import opened Tokens

  const SECTOR: nat := 512
  type Sector = s: seq<byte> | |s| == SECTOR witness ZeroSector()
  type Disk = map<nat, Sector>

  const FAT16_START_LBA: nat := 2048
  const END_OF_CHAIN: nat := 0xFFF8
  const DELETED: byte := 0xE5

  /** The fields of the boot sector that are used. */
  datatype Bpb = Bpb(bytesPerSector: nat, sectorsPerCluster: nat, reservedSectors: nat, numFats: nat,
                     rootEntryCount: nat, sectorsPerFat: nat)

  datatype Geometry = Geometry(fatStart: nat, rootStart: nat, rootSectors: nat, dataStart: nat,
                               sectorsPerCluster: nat, sectorsPerFat: nat)

  datatype Volume = Volume(disk: Disk, geo: Geometry)

  // ----- sectors -----

  function Zeros(n: nat): (s: seq<byte>)
    ensures |s| == n && forall i :: 0 <= i < n ==> s[i] == 0
  {
    seq(n, i => 0)
  }

  function ZeroSector(): (s: seq<byte>)
    ensures |s| == SECTOR
  {
    Zeros(SECTOR)
  }

  /** Sectors never written read as zeros. */
  function Read(d: Disk, lba: nat): Sector { if lba in d then d[lba] else ZeroSector() }

  function Write(d: Disk, lba: nat, s: Sector): Disk { d[lba := s] }

  function Low(w: nat): byte {
    var b: int := w % 256;
    b
  }

  function High(w: nat): byte
    requires w < 0x10000
  {
    var b: int := w / 256;
    b
  }

  function Word(s: seq<byte>, off: nat): (w: nat)
    requires off + 1 < |s|
    ensures w < 0x10000
  {
    var low: int, high: int := s[off], s[off + 1];
    low + 256 * high
  }

  function SetWord(s: seq<byte>, off: nat, w: nat): (r: seq<byte>)
    requires off + 1 < |s| && w < 0x10000
    ensures |r| == |s| && Word(r, off) == w
    ensures forall i :: 0 <= i < |s| && i != off && i != off + 1 ==> r[i] == s[i]
  {
    s[off := Low(w)][off + 1 := High(w)]
  }

  // ----- geometry -----

  /** What init_fat16_bpb finds in the first sector of the partition. */
  function BootBpb(d: Disk): Bpb {
    var s := Read(d, FAT16_START_LBA);
    Bpb(Word(s, 11), s[13], Word(s, 14), s[16], Word(s, 17), Word(s, 22))
  }

  const FAT_TYPE: seq<byte> := ['F' as int, 'A' as int, 'T' as int, '1' as int, '6' as int, ' ' as int, ' ' as int,
                                ' ' as int]

  /** The mark without which init_fat16_bpb does not return. */
  predicate IsFat16(d: Disk) { Read(d, FAT16_START_LBA)[54..62] == FAT_TYPE }

  predicate UsableBpb(b: Bpb) {
    && b.bytesPerSector == SECTOR && 1 <= b.sectorsPerCluster < 0x100 && b.reservedSectors < 0x10000
    && 1 <= b.numFats < 0x100 && b.rootEntryCount < 0x10000 && b.sectorsPerFat < 0x10000
  }

  /** A quotient rounded up. */
  function Ceil(a: nat, b: nat): nat
    requires b != 0
  {
    (a + b - 1) / b
  }

  /** init_fat16_geometry. */
  function GeometryOf(b: Bpb): Geometry
    requires b.bytesPerSector != 0
  {
    var fat := FAT16_START_LBA + b.reservedSectors;
    var root := fat + b.numFats * b.sectorsPerFat;
    var sectors := Ceil(b.rootEntryCount * 32, b.bytesPerSector);
    Geometry(fat, root, sectors, root + sectors, b.sectorsPerCluster, b.sectorsPerFat)
  }

  /** The three regions follow one another, and no sector number wraps around. */
  predicate GoodGeometry(g: Geometry) {
    && g.fatStart + g.sectorsPerFat <= g.rootStart && g.rootStart + g.rootSectors <= g.dataStart
    && 1 <= g.sectorsPerCluster < 0x100 && g.sectorsPerFat < 0x10000 && g.dataStart < 0x1_000_0000
  }

  // ----- the file allocation table -----

  function FatSector(g: Geometry, c: nat): nat { g.fatStart + c / 256 }

  function FatOffset(c: nat): (o: nat)
    ensures o + 1 < SECTOR
  {
    (c % 256) * 2
  }

  function Entry(v: Volume, c: nat): nat { Word(Read(v.disk, FatSector(v.geo, c)), FatOffset(c)) }

  function SetEntry(v: Volume, c: nat, w: nat): Volume
    requires w < 0x10000
  {
    var lba := FatSector(v.geo, c);
    v.(disk := Write(v.disk, lba, SetWord(Read(v.disk, lba), FatOffset(c), w)))
  }

  /** A 16-bit variable in fat16_alloc_cluster. */
  function TotalClusters(g: Geometry): nat { g.sectorsPerFat * 256 % 0x10000 }

  /** The first free cluster from `c` on, or 0. */
  function FreeFrom(v: Volume, c: nat): nat
    decreases TotalClusters(v.geo) - c, v
  {
    if c >= TotalClusters(v.geo) then 0 else if Entry(v, c) == 0 then c else FreeFrom(v, c + 1)
  }

  function FreeCluster(v: Volume): nat { FreeFrom(v, 2) }

  // ----- clusters -----

  /** Computed with 32-bit wrap-around. */
  function ClusterLba(g: Geometry, c: nat): nat { (g.dataStart + (c - 2) * g.sectorsPerCluster) % TWO_32 }

  /** The bytes of `n` consecutive sectors. */
  function Bytes(d: Disk, lba: nat, n: nat): (b: seq<byte>)
    ensures |b| == n * SECTOR
  {
    if n == 0 then [] else Bytes(d, lba, n - 1) + Read(d, lba + n - 1)
  }

  function ClusterBytes(v: Volume, c: nat): seq<byte> { Bytes(v.disk, ClusterLba(v.geo, c), v.geo.sectorsPerCluster) }

  /** Sector `i` of a file's data, padded with zeros. */
  function Chunk(data: seq<byte>, i: nat): Sector {
    var lo := if i * SECTOR < |data| then i * SECTOR else |data|;
    var hi := if lo + SECTOR < |data| then lo + SECTOR else |data|;
    data[lo..hi] + Zeros(SECTOR - (hi - lo))
  }

  function Fill(d: Disk, lba: nat, data: seq<byte>, n: nat): Disk {
    if n == 0 then d else Write(Fill(d, lba, data, n - 1), lba + n - 1, Chunk(data, n - 1))
  }

  // ----- names -----

  const DOT: byte := '.' as int

  function Upper(b: byte): byte { if 'a' as int <= b <= 'z' as int then b - 32 else b }

  function Padded(s: seq<byte>, n: nat): (r: seq<byte>)
    ensures |r| == n
  {
    seq(n, i requires 0 <= i < n => if i < |s| then Upper(s[i]) else ' ' as int)
  }

  /** Name and extension fit the buffers of fat16_format_name. */
  predicate ShortName(input: seq<byte>) {
    && |input| < 64 && (forall i :: 0 <= i < |input| ==> input[i] != 0)
    && |Token(input, DOT)| <= 8 && |Token(AfterToken(input, DOT), DOT)| <= 3
  }

  function FormatName(input: seq<byte>): (r: seq<byte>)
    ensures |r| == 11
  {
    Padded(Token(input, DOT), 8) + Padded(Token(AfterToken(input, DOT), DOT), 3)
  }

  // ----- the root directory -----

  function SlotCount(g: Geometry): nat { g.rootSectors * 16 }

  function SlotSector(g: Geometry, k: nat): nat { g.rootStart + k / 16 }

  function Slot(v: Volume, k: nat): (s: seq<byte>)
    ensures |s| == 32
  {
    Read(v.disk, SlotSector(v.geo, k))[k % 16 * 32..k % 16 * 32 + 32]
  }

  function SetSlot(v: Volume, k: nat, e: seq<byte>): Volume
    requires |e| == 32
  {
    var lba, off := SlotSector(v.geo, k), k % 16 * 32;
    var s := Read(v.disk, lba);
    v.(disk := Write(v.disk, lba, s[..off] + e + s[off + 32..]))
  }

  function StartCluster(e: seq<byte>): nat
    requires |e| == 32
  {
    Word(e, 26)
  }

  function DirEntry(name: seq<byte>, c: nat, size: nat): (e: seq<byte>)
    requires |name| == 11 && c < 0x10000 && size < TWO_32
    ensures |e| == 32 && e[..11] == name && StartCluster(e) == c && Word(e, 28) + 0x10000 * Word(e, 30) == size
  {
    var lo, hi := size % 0x10000, size / 0x10000;
    name + ([0x20] + Zeros(14) + [Low(c), High(c)] + [Low(lo), High(lo), Low(hi), High(hi)])
  }

  /** The slot with this name from slot `k` on, up to the end mark; the slot count if none. */
  function FindFrom(v: Volume, name: seq<byte>, k: nat): nat
    decreases SlotCount(v.geo) - k, v
  {
    if k >= SlotCount(v.geo) || Slot(v, k)[0] == 0 then SlotCount(v.geo)
    else if Slot(v, k)[0] != DELETED && Slot(v, k)[..11] == name then k
    else FindFrom(v, name, k + 1)
  }

  datatype Lookup = RootFolder | Missing | Found(slot: nat)

  /** fat16_find_file. */
  function FindFile(v: Volume, input: seq<byte>): Lookup {
    if input == ['/' as int] then RootFolder
    else
      var k := FindFrom(v, FormatName(input), 0);
      if k < SlotCount(v.geo) then Found(k) else Missing
  }

  predicate SlotIsFree(v: Volume, k: nat) { Slot(v, k)[0] == 0 || Slot(v, k)[0] == DELETED }

  /** The first free slot from `k` on; the slot count if none. */
  function FreeSlotFrom(v: Volume, k: nat): (r: nat)
    decreases SlotCount(v.geo) - k, v
  {
    if k >= SlotCount(v.geo) then SlotCount(v.geo)
    else if SlotIsFree(v, k) then k
    else FreeSlotFrom(v, k + 1)
  }

  /** fat16_create_dir_entry: a full directory is left as it is. */
  function CreateEntry(v: Volume, name: seq<byte>, c: nat, size: nat): Volume
    requires |name| == 11 && c < 0x10000 && size < TWO_32
  {
    var k := FreeSlotFrom(v, 0);
    if k < SlotCount(v.geo) then SetSlot(v, k, DirEntry(name, c, size)) else v
  }

  // ----- writing and reading a file -----

  lemma FreeIsSmall(v: Volume, c: nat)
    ensures FreeFrom(v, c) < 0x10000
    decreases TotalClusters(v.geo) - c
  {
    if c < TotalClusters(v.geo) && Entry(v, c) != 0 {
      FreeIsSmall(v, c + 1);
    }
  }

  function StoreData(v: Volume, c: nat, data: seq<byte>): Volume {
    v.(disk := Fill(v.disk, ClusterLba(v.geo, c), data, v.geo.sectorsPerCluster))
  }

  /** fat16_write_file succeeds exactly when there is a free cluster. */
  predicate CanWrite(v: Volume) { FreeCluster(v) != 0 }

  function WriteFile(v: Volume, input: seq<byte>, data: seq<byte>): Volume
    requires |data| < 0x8000_0000
  {
    var c := FreeCluster(v);
    FreeIsSmall(v, 2);
    if c == 0 then v
    else CreateEntry(StoreData(SetEntry(v, c, END_OF_CHAIN), c, data), FormatName(input), c, |data|)
  }

  /** The clusters that fat16_read_file goes through: each links to the next, the last ends. */
  predicate IsChain(v: Volume, cs: seq<nat>) {
    && cs != [] && Entry(v, cs[|cs| - 1]) >= END_OF_CHAIN
    && forall i :: 0 <= i < |cs| - 1 ==> cs[i + 1] == Entry(v, cs[i]) < END_OF_CHAIN
  }

  /** What fat16_read_file returns for a chain. */
  function Contents(v: Volume, cs: seq<nat>): seq<byte> {
    if cs == [] then [] else Contents(v, cs[..|cs| - 1]) + ClusterBytes(v, cs[|cs| - 1])
  }
}
