/** The main results about files: a written file is found and read back, every other file stays
    as it was, also over any number of further writes. */
module Fat16RoundTrip {
  import opened ByteStrings
  import opened Fat16
  import opened Fat16Chains
  import opened Fat16Files
  import opened Integers
  import opened Tokens

  lemma {:induction false} SameRootFreeSlot(v: Volume, v': Volume, k: nat)
    requires SameRoot(v, v')
    ensures FreeSlotFrom(v', k) == FreeSlotFrom(v, k)
    decreases SlotCount(v.geo) - k
  {
    if k < SlotCount(v.geo) {
      SameRootSlot(v, v', k);
      SameRootFreeSlot(v, v', k + 1);
    }
  }

  lemma {:induction false} SameRootFind(v: Volume, v': Volume, name: seq<byte>, k: nat)
    requires SameRoot(v, v')
    ensures FindFrom(v', name, k) == FindFrom(v, name, k)
    decreases SlotCount(v.geo) - k
  {
    if k < SlotCount(v.geo) {
      SameRootSlot(v, v', k);
      SameRootFind(v, v', name, k + 1);
    }
  }

  lemma NameIsNotZero(input: seq<byte>)
    requires ShortName(input)
    ensures FormatName(input)[0] != 0
  {
    var t := Token(input, DOT);
    TokenHasNoZero(input, DOT);
    assert FormatName(input)[0] == Padded(t, 8)[0];
  }

  // ----- the three steps of a write -----

  function Stored(v: Volume, data: seq<byte>): Volume
    requires FreeCluster(v) != 0
  {
    StoreData(SetEntry(v, FreeCluster(v), END_OF_CHAIN), FreeCluster(v), data)
  }

  /** After the first two: the new cluster is a chain of its own and holds the data, every other
      chain and the directory are as before. */
  lemma StoredIs(v: Volume, data: seq<byte>, c': nat)
    requires GoodGeometry(v.geo) && CanWrite(v)
    ensures var c, w := FreeCluster(v), Stored(v, data);
      && InFat(v.geo, c) && SameRoot(v, w) && Entry(w, c) == END_OF_CHAIN
      && ClusterBytes(w, c) == Prefix(data, v.geo.sectorsPerCluster * SECTOR)
      && (InFat(v.geo, c') && c' != c ==> Entry(w, c') == Entry(v, c') && SameCluster(v, w, c'))
  {
    hide SetEntry, StoreData, Entry, ClusterBytes, FreeCluster;
    AllocatesLowest(v);
    var c := FreeCluster(v);
    var v1 := SetEntry(v, c, END_OF_CHAIN);
    SetEntryIs(v, c, END_OF_CHAIN, c');
    StoreDataIs(v1, c, data, c');
    SameFatEntry(v1, StoreData(v1, c, data), c);
    if InFat(v.geo, c') {
      SameFatEntry(v1, StoreData(v1, c, data), c');
    }
  }

  /** After the third: the first free slot, if there is one, has the entry. */
  lemma CreatedIs(v: Volume, name: seq<byte>, c: nat, size: nat, c': nat)
    requires GoodGeometry(v.geo) && |name| == 11 && name[0] != 0 && c < 0x10000 && size < TWO_32
    ensures var n, w := FreeSlotFrom(v, 0), CreateEntry(v, name, c, size);
      && (n < SlotCount(v.geo) ==> SlotAdded(v, w, n, name) && Slot(w, n) == DirEntry(name, c, size))
      && (n == SlotCount(v.geo) ==> w == v)
      && n <= SlotCount(v.geo)
      && (InFat(v.geo, c') ==> Entry(w, c') == Entry(v, c') && SameCluster(v, w, c'))
  {
    hide SetSlot, DirEntry, Entry, ClusterBytes, Slot;
    FirstFreeSlot(v, 0);
    var n, w := FreeSlotFrom(v, 0), CreateEntry(v, name, c, size);
    if n < SlotCount(v.geo) {
      var e := DirEntry(name, c, size);
      assert e[..11] == name && e[0] == e[..11][0];
      forall k | 0 <= k < SlotCount(v.geo)
        ensures Slot(w, k) == if k == n then e else Slot(v, k)
      {
        SetSlotIs(v, n, e, k, c');
      }
      SetSlotIs(v, n, e, 0, c');
      if InFat(v.geo, c') {
        SameFatEntry(v, w, c');
      }
    }
  }

  lemma WriteIs(v: Volume, input: seq<byte>, data: seq<byte>, c': nat)
    requires GoodGeometry(v.geo) && ShortName(input) && |data| < 0x8000_0000 && CanWrite(v)
    ensures var c, n, w, name := FreeCluster(v), FreeSlotFrom(v, 0), WriteFile(v, input, data), FormatName(input);
      && w.geo == v.geo && InFat(v.geo, c) && n <= SlotCount(v.geo)
      && (n < SlotCount(v.geo) ==> SlotAdded(v, w, n, name) && Slot(w, n) == DirEntry(name, c, |data|))
      && (n == SlotCount(v.geo) ==> SameRoot(v, w))
      && Entry(w, c) == END_OF_CHAIN && ClusterBytes(w, c) == Prefix(data, v.geo.sectorsPerCluster * SECTOR)
      && (InFat(v.geo, c') && c' != c ==> Entry(w, c') == Entry(v, c') && SameCluster(v, w, c'))
  {
    hide Entry, ClusterBytes, Slot, FreeCluster, DirEntry, FormatName;
    FreeIsSmall(v, 2);
    StoredIs(v, data, c');
    NameIsNotZero(input);
    var s, c, name := Stored(v, data), FreeCluster(v), FormatName(input);
    SmallCluster(v);
    CreatedIs(s, name, c, |data|, c);
    CreatedIs(s, name, c, |data|, c');
    SameRootFreeSlot(v, s, 0);
    var n := FreeSlotFrom(v, 0);
    var w := WriteFile(v, input, data);
    assert w == CreateEntry(s, name, c, |data|);
    if n < SlotCount(v.geo) {
      AddedToSame(v, s, w, n, name);
    }
  }

  lemma SmallCluster(v: Volume)
    ensures FreeCluster(v) < 0x10000
  {
    FreeIsSmall(v, 2);
  }

  lemma AddedToSame(v: Volume, s: Volume, w: Volume, n: nat, name: seq<byte>)
    requires SameRoot(v, s) && SlotAdded(s, w, n, name)
    ensures SlotAdded(v, w, n, name)
  {
    forall k | 0 <= k < SlotCount(v.geo)
      ensures Slot(s, k) == Slot(v, k)
    {
      SameRootSlot(v, s, k);
    }
    forall i | 0 <= i < n
      ensures Live(v, i)
    {
      assert Live(s, i);
    }
  }

  // ----- the round trip -----

  /** A new file is found exactly when the directory had a free slot, and the name is neither
      the root's nor starts with the mark of deletion. */
  lemma WrittenIsFoundExactlyWhen(v: Volume, input: seq<byte>, data: seq<byte>)
    requires GoodGeometry(v.geo) && ShortName(input) && |data| < 0x8000_0000 && CanWrite(v)
    requires FindFrom(v, FormatName(input), 0) == SlotCount(v.geo)
    ensures FindFile(WriteFile(v, input, data), input).Found? <==>
      && (exists k :: 0 <= k < SlotCount(v.geo) && SlotIsFree(v, k))
      && input != [0x2F] && FormatName(input)[0] != 0xE5
  {
    hide FormatName, FreeCluster, SlotIsFree, WriteFile, Slot;
    WriteIs(v, input, data, 2);
    FirstFreeSlot(v, 0);
    var n, w, name := FreeSlotFrom(v, 0), WriteFile(v, input, data), FormatName(input);
    if n == SlotCount(v.geo) {
      SameRootFind(v, w, name, 0);
      forall k | 0 <= k < n
        ensures !SlotIsFree(v, k)
      {
        assert Live(v, k);
      }
    } else if name[0] == DELETED {
      assert SlotIsFree(v, n);
      DeletedIsNotFound(w, name, 0);
    } else {
      assert SlotIsFree(v, n);
      FindAdded(v, w, n, name);
    }
  }

  /** What is found then is read back: the data, cut off or filled up with zeros to one cluster. */
  lemma WriteFindRead(v: Volume, input: seq<byte>, data: seq<byte>)
    requires GoodGeometry(v.geo) && ShortName(input) && |data| < 0x8000_0000 && CanWrite(v)
    requires FindFrom(v, FormatName(input), 0) == SlotCount(v.geo)
    requires FindFile(WriteFile(v, input, data), input).Found?
    ensures var w := WriteFile(v, input, data);
      var e := Slot(w, FindFile(w, input).slot);
      var cs, capacity := [StartCluster(e)], v.geo.sectorsPerCluster * 512;
      && GoodChain(w, cs)
      && Contents(w, cs) == (if |data| < capacity then data + Zeros(capacity - |data|) else data[..capacity])
      && Word(e, 28) + 0x10000 * Word(e, 30) == |data|
  {
    hide FormatName, FreeCluster, SlotIsFree, Slot, ClusterBytes, WriteFile, Entry;
    WrittenIsFoundExactlyWhen(v, input, data);
    WriteIs(v, input, data, 2);
    var n, w, name, c := FreeSlotFrom(v, 0), WriteFile(v, input, data), FormatName(input), FreeCluster(v);
    FirstFreeSlot(v, 0);
    assert n < SlotCount(v.geo) by {
      var k :| 0 <= k < SlotCount(v.geo) && SlotIsFree(v, k);
      assert n == SlotCount(v.geo) ==> Live(v, k);
    }
    FindAdded(v, w, n, name);
    SmallCluster(v);
    SingleContents(w, c);
  }

  lemma SingleContents(v: Volume, c: nat)
    ensures Contents(v, [c]) == ClusterBytes(v, c)
  {
    hide ClusterBytes;
    assert [c][..0] == [];
    assert Contents(v, []) == [];
  }

  // ----- what a write leaves alone -----

  lemma {:induction false} SameContents(v: Volume, w: Volume, cs: seq<nat>)
    requires forall i :: 0 <= i < |cs| ==> SameCluster(v, w, cs[i])
    ensures Contents(w, cs) == Contents(v, cs)
    decreases |cs|
  {
    hide ClusterBytes;
    if cs != [] {
      SameContents(v, w, cs[..|cs| - 1]);
    }
  }

  lemma ChainIsInFat(v: Volume, cs: seq<nat>)
    requires GoodChain(v, cs)
    ensures forall i :: 0 <= i < |cs| ==> InFat(v.geo, cs[i])
  {
    hide Entry;
  }

  lemma SameChain(v: Volume, w: Volume, cs: seq<nat>)
    requires GoodChain(v, cs) && w.geo == v.geo && forall i :: 0 <= i < |cs| ==> Entry(w, cs[i]) == Entry(v, cs[i])
    ensures GoodChain(w, cs)
  {
    hide Entry;
  }

  /** Every chain keeps its links and its contents. */
  lemma WriteKeepsChains(v: Volume, input: seq<byte>, data: seq<byte>, cs: seq<nat>)
    requires GoodGeometry(v.geo) && ShortName(input) && |data| < 0x8000_0000 && GoodChain(v, cs)
    ensures GoodChain(WriteFile(v, input, data), cs) && Contents(WriteFile(v, input, data), cs) == Contents(v, cs)
  {
    hide Entry, SameCluster, FreeCluster, Contents, FormatName, WriteFile, GoodChain;
    if CanWrite(v) {
      AllocatesLowest(v);
      FreeIsOnNoChain(v, cs, FreeCluster(v));
      ChainIsInFat(v, cs);
      var w := WriteFile(v, input, data);
      forall i | 0 <= i < |cs|
        ensures Entry(w, cs[i]) == Entry(v, cs[i]) && SameCluster(v, w, cs[i])
      {
        WriteIs(v, input, data, cs[i]);
      }
      WriteIs(v, input, data, 2);
      SameContents(v, w, cs);
      SameChain(v, w, cs);
    } else {
      NothingWritten(v, input, data);
    }
  }

  /** Every other name is looked up with the same result, in the same slot with the same entry; a
      name that was missing stays missing as long as the directory is marked to its end. */
  lemma WriteKeepsLookups(v: Volume, input: seq<byte>, data: seq<byte>, other: seq<byte>)
    requires GoodGeometry(v.geo) && ShortName(input) && |data| < 0x8000_0000
    requires FormatName(other) != FormatName(input)
    requires FindFile(v, other).Found? || EndMarkLast(v)
    ensures var w := WriteFile(v, input, data);
      && FindFile(w, other) == FindFile(v, other)
      && (FindFile(v, other).Found? ==> Slot(w, FindFile(v, other).slot) == Slot(v, FindFile(v, other).slot))
  {
    hide FormatName, FreeCluster, Slot, SlotIsFree, WriteFile, EndMarkLast, FindFile;
    if CanWrite(v) {
      WriteIs(v, input, data, 2);
      if FreeSlotFrom(v, 0) == SlotCount(v.geo) {
        SameRootLookup(v, WriteFile(v, input, data), other);
      } else {
        FilledSlotLookup(v, input, data, other);
      }
    } else {
      NothingWritten(v, input, data);
    }
  }

  lemma NothingWritten(v: Volume, input: seq<byte>, data: seq<byte>)
    requires ShortName(input) && |data| < 0x8000_0000 && !CanWrite(v)
    ensures WriteFile(v, input, data) == v
  {
  }

  lemma SameRootLookup(v: Volume, w: Volume, other: seq<byte>)
    requires SameRoot(v, w)
    ensures FindFile(w, other) == FindFile(v, other)
    ensures FindFile(v, other).Found? ==> Slot(w, FindFile(v, other).slot) == Slot(v, FindFile(v, other).slot)
  {
    hide FormatName, Slot;
    SameRootFind(v, w, FormatName(other), 0);
    if FindFile(v, other).Found? {
      SameRootSlot(v, w, FindFile(v, other).slot);
    }
  }

  lemma FilledSlotLookup(v: Volume, input: seq<byte>, data: seq<byte>, other: seq<byte>)
    requires GoodGeometry(v.geo) && ShortName(input) && |data| < 0x8000_0000 && CanWrite(v)
    requires FreeSlotFrom(v, 0) < SlotCount(v.geo) && FormatName(other) != FormatName(input)
    requires FindFile(v, other).Found? || EndMarkLast(v)
    ensures var w := WriteFile(v, input, data);
      && FindFile(w, other) == FindFile(v, other)
      && (FindFile(v, other).Found? ==> Slot(w, FindFile(v, other).slot) == Slot(v, FindFile(v, other).slot))
  {
    hide FormatName, FreeCluster, Slot, SlotIsFree;
    WriteIs(v, input, data, 2);
    var n, w, name := FreeSlotFrom(v, 0), WriteFile(v, input, data), FormatName(other);
    hide WriteFile;
    if other != ['/' as int] {
      FindOther(v, w, n, FormatName(input), name, 0);
      FoundIsLive(v, name, 0);
    }
  }

  lemma {:induction false} FoundIsLive(v: Volume, name: seq<byte>, k: nat)
    ensures FindFrom(v, name, k) < SlotCount(v.geo) ==> Live(v, FindFrom(v, name, k))
    decreases SlotCount(v.geo) - k
  {
    if k < SlotCount(v.geo) && Slot(v, k)[0] != 0 && !(Slot(v, k)[0] != DELETED && Slot(v, k)[..11] == name) {
      FoundIsLive(v, name, k + 1);
    }
  }

  lemma WriteKeepsEndMark(v: Volume, input: seq<byte>, data: seq<byte>)
    requires GoodGeometry(v.geo) && ShortName(input) && |data| < 0x8000_0000 && EndMarkLast(v)
    ensures EndMarkLast(WriteFile(v, input, data)) && WriteFile(v, input, data).geo == v.geo
  {
    hide FormatName, FreeCluster, Slot;
    if CanWrite(v) {
      WriteIs(v, input, data, 2);
      var n, w := FreeSlotFrom(v, 0), WriteFile(v, input, data);
      hide WriteFile;
      forall i, j | 0 <= i < j < SlotCount(v.geo) && Slot(w, i)[0] == 0
        ensures Slot(w, j)[0] == 0
      {
        if n == SlotCount(v.geo) {
          SameRootSlot(v, w, i);
          SameRootSlot(v, w, j);
        } else {
          assert i < n ==> Live(v, i);
        }
      }
    }
  }

  // ----- runs of writes -----

  datatype File = File(name: seq<byte>, data: seq<byte>)

  predicate Writable(f: File) { ShortName(f.name) && |f.data| < 0x8000_0000 }

  function WriteAll(v: Volume, fs: seq<File>): Volume
    requires forall f :: f in fs ==> Writable(f)
    decreases |fs|
  {
    if fs == [] then v
    else
      assert fs[0] in fs && Writable(fs[0]);
      WriteAll(WriteFile(v, fs[0].name, fs[0].data), fs[1..])
  }

  /** A file's entry and contents survive any number of writes of files with other names. */
  lemma {:induction false} FilesPersist(v: Volume, fs: seq<File>, name: seq<byte>, cs: seq<nat>)
    requires GoodGeometry(v.geo) && (forall f :: f in fs ==> Writable(f) && FormatName(f.name) != FormatName(name))
    requires FindFile(v, name).Found? && GoodChain(v, cs)
    ensures var w := WriteAll(v, fs);
      && FindFile(w, name) == FindFile(v, name)
      && Slot(w, FindFile(w, name).slot) == Slot(v, FindFile(v, name).slot)
      && GoodChain(w, cs) && Contents(w, cs) == Contents(v, cs)
    decreases |fs|
  {
    hide FormatName, WriteFile, GoodChain, Contents, FindFile;
    if fs != [] {
      var f := fs[0];
      assert f in fs && forall g :: g in fs[1..] ==> g in fs;
      WriteKeepsLookups(v, f.name, f.data, name);
      WriteKeepsChains(v, f.name, f.data, cs);
      GeometryIsKept(v, f.name, f.data);
      FilesPersist(WriteFile(v, f.name, f.data), fs[1..], name, cs);
    }
  }

  lemma GeometryIsKept(v: Volume, input: seq<byte>, data: seq<byte>)
    requires |data| < 0x8000_0000
    ensures WriteFile(v, input, data).geo == v.geo
  {
  }

  /** Each file of a run keeps its data to the end of the run. */
  lemma WrittenFilePersists(v: Volume, f: File, later: seq<File>)
    requires GoodGeometry(v.geo) && Writable(f) && CanWrite(v)
    requires FindFrom(v, FormatName(f.name), 0) == SlotCount(v.geo)
    requires FindFile(WriteFile(v, f.name, f.data), f.name).Found?
    requires forall g :: g in later ==> Writable(g) && FormatName(g.name) != FormatName(f.name)
    ensures var w := WriteAll(WriteFile(v, f.name, f.data), later);
      && FindFile(w, f.name).Found?
      && var cs := [StartCluster(Slot(w, FindFile(w, f.name).slot))];
        IsChain(w, cs) && Contents(w, cs) == Prefix(f.data, v.geo.sectorsPerCluster * SECTOR)
  {
    hide FormatName, WriteFile, Contents, FindFile, WriteAll, IsChain;
    var w := WriteFile(v, f.name, f.data);
    WriteFindRead(v, f.name, f.data);
    GeometryIsKept(v, f.name, f.data);
    FilesPersist(w, later, f.name, [StartCluster(Slot(w, FindFile(w, f.name).slot))]);
  }
}
