/** A mounted FAT volume: the one-sector cache, the allocation table and the root directory table. */
module FatVolume {
  import opened Words

  /** One 512-byte block of the card; fatMount accepts no other sector size. */
  type Sector = s: seq<byte> | |s| == 512 witness seq(512, _ => 0)

  /** The 32-bit sector number -1, which marks the cache as empty. */
  const NO_SECTOR: nat := 0xFFFF_FFFF

  datatype ClusterType = Unused | Reserved | Bad | LastInFile | NextInFile

  /** The boot-record values that fatMount stores in the volume. */
  datatype Geometry = Geometry(fat32: bool, secPerCluster: nat, fatEntrySecter: nat,
                               rootDirectorySecter: nat, dataEntrySecter: nat)
  {
    predicate Valid() {
      && 1 <= secPerCluster < 256
      && fatEntrySecter < TWO32 && rootDirectorySecter < TWO32 && dataEntrySecter < TWO32
    }

    /** Bytes in one allocation-table entry. */
    function EntrySize(): nat { if fat32 then 4 else 2 }

    /** Byte address of a table entry: the cluster number times the entry size. */
    function AddressOf(cluster: nat): nat { if fat32 then cluster * 4 else cluster * 2 }

    /** 512 over the entry size. */
    function EntriesPerSecter(): nat { if fat32 then 128 else 256 }

    function BytesPerCluster(): nat { 512 * secPerCluster }
  }

  function Fat16ClusterType(value: nat): ClusterType {
    var v := value % 0x1_0000;
    if 0 < v < 0xFFF0 then NextInFile
    else if v >= 0xFFF8 then LastInFile
    else if v == 0 then Unused
    else if 0xFFF0 <= v <= 0xFFF6 then Reserved
    else Bad
  }

  function Fat32ClusterType(value: nat): ClusterType {
    var v := value % 0x1000_0000;
    if 0 < v < 0xFFF_FFF0 then NextInFile
    else if v >= 0xFFF_FFF8 then LastInFile
    else if v == 0 then Unused
    else if 0xFFF_FFF0 <= v <= 0xFFF_FFF6 then Reserved
    else Bad
  }

  function TypeOf(g: Geometry, value: nat): ClusterType {
    if g.fat32 then Fat32ClusterType(value) else Fat16ClusterType(value)
  }

  /** The bits of an entry that count, as the FAT specification says: 16, or 28 of the 32. */
  function Counted(fat32: bool, value: nat): nat {
    if fat32 then value % 0x1000_0000 else value % 0x1_0000
  }

  /** A cluster is free when its entry is zero; the sixteen highest values do not lead on, the eight highest end a chain. */
  lemma Kinds(g: Geometry, value: nat)
    ensures var v, top := Counted(g.fat32, value), if g.fat32 then 0x1000_0000 else 0x1_0000;
            && (TypeOf(g, value) == Unused <==> v == 0)
            && (TypeOf(g, value) == NextInFile <==> 0 < v < top - 16)
            && (TypeOf(g, value) == LastInFile <==> v >= top - 8)
  {
  }

  // ----- the allocation table as one flat array of entries -----

  /** Byte a of the allocation table, laid out from the volume's first FAT sector on. */
  function TableByte(disk: seq<Sector>, g: Geometry, a: nat): byte
    requires g.fatEntrySecter + a / 512 < |disk|
  {
    disk[g.fatEntrySecter + a / 512][a % 512]
  }

  predicate EntryOnDisk(disk: seq<Sector>, g: Geometry, cluster: nat) {
    && g.AddressOf(cluster) < TWO32
    && g.fatEntrySecter + (g.AddressOf(cluster) + g.EntrySize() - 1) / 512 < |disk|
  }

  /** Table entry number `cluster`, least significant byte first. */
  function TableEntry(disk: seq<Sector>, g: Geometry, cluster: nat): (v: nat)
    requires EntryOnDisk(disk, g, cluster)
    ensures v < TWO32
  {
    var a := g.AddressOf(cluster);
    if g.fat32 then
      TableByte(disk, g, a) + 0x100 * TableByte(disk, g, a + 1)
      + 0x1_0000 * TableByte(disk, g, a + 2) + 0x100_0000 * TableByte(disk, g, a + 3)
    else
      TableByte(disk, g, a) + 0x100 * TableByte(disk, g, a + 1)
  }

  /** What fatNextCluster hands back for a table value: the value itself, or 0 if it leads nowhere. */
  function Successor(g: Geometry, value: nat): nat {
    if TypeOf(g, value) in {NextInFile, LastInFile} then value else 0
  }

  predicate IsUnused(disk: seq<Sector>, g: Geometry, cluster: nat) {
    EntryOnDisk(disk, g, cluster) && TypeOf(g, TableEntry(disk, g, cluster)) == Unused
  }

  /** No cluster from 2 up to n is free. */
  ghost predicate NoneUnusedBelow(disk: seq<Sector>, g: Geometry, n: nat) {
    forall c | 2 <= c < n :: !IsUnused(disk, g, c)
  }

  lemma NoneUnusedExtends(disk: seq<Sector>, g: Geometry, n: nat)
    requires NoneUnusedBelow(disk, g, n) && !IsUnused(disk, g, n)
    ensures NoneUnusedBelow(disk, g, n + 1)
  {
  }

  /** The least unused cluster is the least one whose entry is zero. */
  lemma FreeIsZero(disk: seq<Sector>, g: Geometry, unused: nat)
    requires IsUnused(disk, g, unused) && NoneUnusedBelow(disk, g, unused)
    ensures Counted(g.fat32, TableEntry(disk, g, unused)) == 0
    ensures forall c :: 2 <= c < unused && EntryOnDisk(disk, g, c) ==> Counted(g.fat32, TableEntry(disk, g, c)) != 0
  {
    hide TableEntry, TypeOf, Counted, EntryOnDisk;
    Kinds(g, TableEntry(disk, g, unused));
    forall c | 2 <= c < unused && EntryOnDisk(disk, g, c)
      ensures Counted(g.fat32, TableEntry(disk, g, c)) != 0
    {
      Kinds(g, TableEntry(disk, g, c));
      assert !IsUnused(disk, g, c);
    }
  }

  // ----- how the code addresses an entry: a sector number and an offset in the cached sector -----

  function EntrySecter(g: Geometry, cluster: nat): nat {
    U32(g.fatEntrySecter + U32(g.AddressOf(cluster)) / 512)
  }

  /** The 32-bit byte address and sector number of the entry do not wrap round. */
  predicate Addressable(g: Geometry, cluster: nat) {
    && g.AddressOf(cluster) < TWO32
    && g.fatEntrySecter + g.AddressOf(cluster) / 512 < NO_SECTOR
  }

  function EntryOffset(g: Geometry, cluster: nat): (o: nat)
    ensures o + g.EntrySize() <= 512
  {
    if g.fat32 then cluster % g.EntriesPerSecter() * 4 else cluster % g.EntriesPerSecter() * 2
  }

  function EntryIn(g: Geometry, data: seq<byte>, cluster: nat): (v: nat)
    requires |data| == 512
    ensures v < TWO32
  {
    if g.fat32 then Le32(data, EntryOffset(g, cluster)) else Le16(data, EntryOffset(g, cluster))
  }

  /** The sector-and-offset form reads the flat entry. */
  lemma EntryAddressing(disk: seq<Sector>, g: Geometry, cluster: nat)
    requires g.Valid() && |disk| <= NO_SECTOR && EntryOnDisk(disk, g, cluster)
    ensures EntrySecter(g, cluster) < |disk|
    ensures EntryIn(g, disk[EntrySecter(g, cluster)], cluster) == TableEntry(disk, g, cluster)
    ensures g.AddressOf(cluster) % 512 == EntryOffset(g, cluster)
  {
    OffsetWithinSecter(g, cluster);
    var a := g.AddressOf(cluster);
    assert (a + 1) / 512 == a / 512 && (a + 1) % 512 == a % 512 + 1;
    if g.fat32 {
      assert (a + 2) / 512 == a / 512 && (a + 2) % 512 == a % 512 + 2;
      assert (a + 3) / 512 == a / 512 && (a + 3) % 512 == a % 512 + 3;
    }
  }

  lemma OffsetWithinSecter(g: Geometry, cluster: nat)
    ensures g.AddressOf(cluster) % 512 == EntryOffset(g, cluster)
  {
    if g.fat32 {
      FourTimes(cluster);
    } else {
      Twice(cluster);
    }
  }

  lemma Within512(n: nat, q: nat, r: nat)
    requires n == 512 * q + r && r < 512
    ensures n % 512 == r
  {
  }

  lemma FourTimes(cluster: nat)
    ensures cluster * 4 % 512 == cluster % 128 * 4
  {
    Within512(cluster * 4, cluster / 128, cluster % 128 * 4);
  }

  lemma Twice(cluster: nat)
    ensures cluster * 2 % 512 == cluster % 256 * 2
  {
    Within512(cluster * 2, cluster / 256, cluster % 256 * 2);
  }

  /** An entry the code can address without 32-bit wrap-around either lies on the disk or its sector does not. */
  lemma EntryOffDisk(disk: seq<Sector>, g: Geometry, cluster: nat)
    requires g.Valid() && |disk| <= NO_SECTOR && g.AddressOf(cluster) < TWO32
    requires !EntryOnDisk(disk, g, cluster)
    ensures g.fatEntrySecter + g.AddressOf(cluster) / 512 >= |disk|
  {
    OffsetWithinSecter(g, cluster);
    var a := g.AddressOf(cluster);
    assert (a + g.EntrySize() - 1) / 512 == a / 512;
  }

  // ----- the root directory as one flat array of 32-byte entries -----

  type DirEntry = e: seq<byte> | |e| == 32 witness seq(32, _ => 0)

  predicate DirAddressable(g: Geometry, index: nat) {
    32 * index < TWO32 && g.rootDirectorySecter + index / 16 < NO_SECTOR
  }

  predicate DirOnDisk(disk: seq<Sector>, g: Geometry, index: nat) {
    32 * index < TWO32 && g.rootDirectorySecter + index / 16 < |disk|
  }

  function DirEntryAt(disk: seq<Sector>, g: Geometry, index: nat): DirEntry
    requires DirOnDisk(disk, g, index)
  {
    disk[g.rootDirectorySecter + index / 16][index % 16 * 32..index % 16 * 32 + 32]
  }

  lemma Times32(index: nat)
    ensures 32 * index / 512 == index / 16 && 32 * index % 512 == index % 16 * 32
  {
    assert 32 * index == 512 * (index / 16) + index % 16 * 32;
  }

  /** The byte offset is that of one of the sixteen entries of a sector, whatever wraps. */
  lemma DirectoryOffset(index: nat)
    ensures U32(32 * index) % 512 + 32 <= 512
  {
    var q := Turns(32 * index);
    var k := index + q * 0x800_0000;
    assert U32(32 * index) == 32 * k;
    Times32(k);
  }

  /** Without wrapping it is the entry's. */
  lemma DirectoryPlace(disk: seq<Sector>, g: Geometry, index: nat)
    requires DirAddressable(g, index)
    ensures var secter, offset := U32(g.rootDirectorySecter + U32(32 * index) / 512), U32(32 * index) % 512;
            && secter == g.rootDirectorySecter + index / 16 && secter < NO_SECTOR
            && (secter < |disk| ==> DirOnDisk(disk, g, index)
                                    && disk[secter][offset..offset + 32] == DirEntryAt(disk, g, index))
  {
    Times32(index);
  }

  class Volume {
    const geo: Geometry
    /** The blocks of the card behind ReadBlock512 and WriteBlock512. */
    var disk: seq<Sector>
    const secterData: array<byte>
    var secterIndex: nat
    /** How many device transfers have failed so far. */
    ghost var faults: nat

    ghost predicate Shaped()
      reads this
    {
      geo.Valid() && secterData.Length == 512 && |disk| <= NO_SECTOR && secterIndex <= NO_SECTOR
    }

    /** The cache is empty or holds the bytes of the sector it names. */
    ghost predicate Valid()
      reads this, secterData
    {
      && Shaped()
      && (secterIndex != NO_SECTOR ==> secterIndex < |disk| && secterData[..] == disk[secterIndex])
    }

    /** A volume as fatMount leaves it: no sector cached, the buffer zeroed. */
    constructor (geo: Geometry, disk: seq<Sector>)
      requires geo.Valid() && |disk| <= NO_SECTOR
      ensures Valid() && this.geo == geo && this.disk == disk && faults == 0
      ensures secterIndex == NO_SECTOR && fresh(secterData)
    {
      this.geo := geo;
      this.disk := disk;
      secterData := new byte[512](_ => 0);
      secterIndex := NO_SECTOR;
      faults := 0;
    }

    /** The block device: may fail at any time, always fails off the disk, and a failed
        transfer leaves arbitrary bytes in the buffer. */
    method ReadBlock512(nSecter: nat) returns (ok: bool)
      requires Shaped()
      modifies `faults, secterData
      ensures ok ==> nSecter < |disk| && secterData[..] == disk[nSecter] && faults == old(faults)
      ensures !ok ==> faults == old(faults) + 1
    {
      ok := *;
      ok := ok && nSecter < |disk|;
      var bytes: seq<byte>;
      if ok {
        bytes := disk[nSecter];
      } else {
        bytes := *;
        if |bytes| != 512 { bytes := secterData[..]; }
        faults := faults + 1;
      }
      forall i | 0 <= i < 512 { secterData[i] := bytes[i]; }
      assert secterData[..] == bytes;
    }

    method WriteBlock512(nSecter: nat) returns (ok: bool)
      requires Shaped()
      modifies `disk, `faults
      ensures ok ==> nSecter < |old(disk)| && disk == old(disk)[nSecter := secterData[..]] && faults == old(faults)
      ensures !ok ==> disk == old(disk) && faults == old(faults) + 1
    {
      ok := *;
      ok := ok && nSecter < |disk|;
      if ok {
        disk := disk[nSecter := secterData[..]];
      } else {
        faults := faults + 1;
      }
    }

    method ReadSecter(nSecter: nat) returns (ok: bool)
      requires Valid() && nSecter < TWO32
      modifies `secterIndex, `faults, secterData
      ensures Valid()
      ensures ok ==> faults == old(faults) && secterIndex == nSecter
      ensures !ok ==> faults == old(faults) + 1 && secterIndex == NO_SECTOR
      ensures nSecter == old(secterIndex) ==> ok && secterData[..] == old(secterData[..])
      ensures ok && nSecter != NO_SECTOR ==> nSecter < |disk| && secterData[..] == disk[nSecter]
    {
      ok := true;
      if nSecter != secterIndex {
        var read := ReadBlock512(nSecter);
        if !read {
          secterIndex := NO_SECTOR;
          ok := false;
        } else {
          secterIndex := nSecter;
        }
      }
    }

    /** Reads one table entry through the cache: the lines that fatNextCluster, fatFindUnusedCluster and
        fatDelClusterList share. */
    method ReadEntry(cluster: nat) returns (ok: bool, value: nat)
      requires Valid() && cluster < TWO32
      modifies `secterIndex, `faults, secterData
      ensures Valid() && value < TWO32
      ensures ok ==> faults == old(faults) && secterIndex == EntrySecter(geo, cluster)
      ensures !ok ==> faults == old(faults) + 1
      ensures ok && EntryOnDisk(disk, geo, cluster) ==> value == TableEntry(disk, geo, cluster)
      ensures ok && Addressable(geo, cluster) ==>
                EntryOnDisk(disk, geo, cluster) && (TypeOf(geo, value) == Unused <==> IsUnused(disk, geo, cluster))
    {
      value := 0;
      ok := ReadSecter(EntrySecter(geo, cluster));
      if ok {
        value := EntryIn(geo, secterData[..], cluster);
        if EntryOnDisk(disk, geo, cluster) {
          EntryAddressing(disk, geo, cluster);
        } else if geo.AddressOf(cluster) < TWO32 {
          EntryOffDisk(disk, geo, cluster);
        }
      }
    }

    /** When the table sector cannot be read the C variable NextCluster is returned unassigned,
        so the result is arbitrary; only the fault count tells. */
    method NextCluster(thisCluster: nat) returns (next: nat)
      requires Valid() && thisCluster < TWO32
      modifies `secterIndex, `faults, secterData
      ensures Valid() && next < TWO32 && faults >= old(faults)
      ensures faults == old(faults) && EntryOnDisk(disk, geo, thisCluster)
              ==> next == Successor(geo, TableEntry(disk, geo, thisCluster))
      ensures faults == old(faults) && EntryOnDisk(disk, geo, thisCluster) ==>
                var value, top := TableEntry(disk, geo, thisCluster), if geo.fat32 then 0x1000_0000 else 0x1_0000;
                var v := Counted(geo.fat32, value);
                next == if 0 < v < top - 16 || v >= top - 8 then value else 0
    {
      var ok;
      ok, next := ReadEntry(thisCluster);
      if ok {
        Kinds(geo, next);
        if TypeOf(geo, next) !in {NextInFile, LastInFile} {
          next := 0;
        }
      } else {
        next := *;
        next := U32(next);
      }
    }

    /** Directory entry number `index` of the root directory: its byte offset in the cached sector. */
    method FindDirectory(index: nat) returns (found: bool, offset: nat)
      requires Valid() && index < TWO32
      modifies `secterIndex, `faults, secterData
      ensures Valid() && offset + 32 <= 512
      ensures found ==> faults == old(faults)
      ensures !found ==> faults == old(faults) + 1
      ensures found && DirAddressable(geo, index) ==>
                DirOnDisk(disk, geo, index) && secterData[offset..offset + 32] == DirEntryAt(disk, geo, index)
    {
      hide DirEntryAt, U32;
      DirectoryOffset(index);
      if DirAddressable(geo, index) {
        DirectoryPlace(disk, geo, index);
      }
      offset := 0;
      found := ReadSecter(U32(geo.rootDirectorySecter + U32(32 * index) / 512));
      if found {
        offset := U32(32 * index) % 512;
      }
    }

    /** Linear search of the table. `stop` bounds the search: an unused entry, or one whose sector is not
        on the disk; without either the 32-bit byte address wraps round and the C loop never ends. */
    method FindUnusedCluster(ghost stop: nat) returns (unused: nat)
      requires Valid() && 2 <= stop && Addressable(geo, stop)
      requires IsUnused(disk, geo, stop) || !EntryOnDisk(disk, geo, stop)
      modifies `secterIndex, `faults, secterData
      ensures Valid() && old(faults) <= faults <= old(faults) + 1
      ensures faults == old(faults) ==> 2 <= unused <= stop && IsUnused(disk, geo, unused)
      ensures faults == old(faults) ==> NoneUnusedBelow(disk, geo, unused)
      ensures faults == old(faults) ==> Counted(geo.fat32, TableEntry(disk, geo, unused)) == 0
      ensures faults == old(faults) ==>
                forall c :: 2 <= c < unused && EntryOnDisk(disk, geo, c) ==>
                  Counted(geo.fat32, TableEntry(disk, geo, c)) != 0
      ensures faults != old(faults) ==> unused == U32(-1)
    {
      hide IsUnused, TypeOf, EntrySecter;
      unused := U32(-1);
      var thisCluster := 2;
      var done := false;
      while !done
        invariant Valid() && 2 <= thisCluster <= stop + 1
        invariant NoneUnusedBelow(disk, geo, if done then thisCluster - 1 else thisCluster)
        invariant !done ==> thisCluster <= stop && faults == old(faults) && unused == U32(-1)
        invariant done && faults == old(faults) ==>
                    unused == thisCluster - 1 && 2 <= unused && IsUnused(disk, geo, unused)
        invariant done && faults != old(faults) ==> faults == old(faults) + 1 && unused == U32(-1)
        decreases !done, stop + 1 - thisCluster
      {
        AddressableBelow(geo, thisCluster, stop);
        var ok, value := ReadEntry(thisCluster);
        if ok {
          if TypeOf(geo, value) == Unused {
            unused := thisCluster;
            done := true;
          } else {
            NoneUnusedExtends(disk, geo, thisCluster);
          }
        } else {
          done := true;
        }
        thisCluster := thisCluster + 1;
      }
      if faults == old(faults) {
        FreeIsZero(disk, geo, unused);
      }
    }

    /** Clears the table entry of `start` and never moves on: the loop's cluster index stays put, so a second
        pass meets the entry it has just cleared and gives up. Only a chain of one cluster is deleted. `torn` tells
        that a block write failed: only then does the buffer hold what the disk does not, the cleared entry. */
    method DelClusterList(start: nat) returns (ok: bool, ghost torn: bool)
      requires Valid() && start < TWO32 && EntryOnDisk(disk, geo, start)
      modifies `disk, `secterIndex, `faults, secterData
      ensures Shaped() && |disk| == |old(disk)| && faults >= old(faults)
      ensures !torn ==> Valid()
      ensures faults == old(faults) ==> !torn
      ensures torn ==>
                && !ok && disk == old(disk) && secterIndex == EntrySecter(geo, start) < |disk|
                && secterData[..] == ClearedEntry(geo, disk[secterIndex], start)
      ensures faults == old(faults) ==>
                var was := TypeOf(geo, TableEntry(old(disk), geo, start));
                && (ok <==> was == LastInFile)
                && (ok <==> Counted(geo.fat32, TableEntry(old(disk), geo, start))
                            >= (if geo.fat32 then 0xFFF_FFF8 else 0xFFF8))
                && (if was in {NextInFile, LastInFile} then IsUnused(disk, geo, start) else disk == old(disk))
      ensures forall c :: c != start && EntryOnDisk(old(disk), geo, c) ==>
                TableEntry(disk, geo, c) == TableEntry(old(disk), geo, c)
    {
      hide TableEntry, EntryIn, TypeOf;
      ok, torn := true, false;
      var done := false;
      ghost var was := TypeOf(geo, TableEntry(disk, geo, start));
      Kinds(geo, TableEntry(disk, geo, start));
      ghost var cleared := false;
      while ok && !done
        invariant Shaped() && |disk| == |old(disk)| && faults >= old(faults)
        invariant !torn ==> Valid()
        invariant torn ==>
                    && !ok && !cleared && faults > old(faults) && secterIndex == EntrySecter(geo, start) < |disk|
                    && secterData[..] == ClearedEntry(geo, disk[secterIndex], start)
        invariant !cleared ==> disk == old(disk) && !(done && ok)
        invariant ok ==> faults == old(faults)
        invariant faults == old(faults) && !ok && !cleared ==> was !in {NextInFile, LastInFile}
        invariant faults == old(faults) && cleared ==> IsUnused(disk, geo, start) && was in {NextInFile, LastInFile}
        invariant faults == old(faults) && cleared ==> (done && ok) == (was == LastInFile)
        invariant forall c :: c != start && EntryOnDisk(old(disk), geo, c) ==>
                    TableEntry(disk, geo, c) == TableEntry(old(disk), geo, c)
        decreases ok && !done, !cleared
      {
        var value;
        ok, value := ReadEntry(start);
        if ok {
          var kind := TypeOf(geo, value);
          if kind !in {NextInFile, LastInFile} {
            done := true;
            ok := false;
          } else {
            if kind == LastInFile {
              done := true;
            }
            EntryAddressing(disk, geo, start);
            ghost var before := disk;
            forall i | 0 <= i < geo.EntrySize() { secterData[EntryOffset(geo, start) + i] := 0; }
            assert secterData[..] == ClearedEntry(geo, before[secterIndex], start);
            ok := WriteBlock512(secterIndex);
            ClearingAnEntry(before, geo, start);
            cleared, torn := ok, !ok;
          }
        }
      }
    }
  }

  lemma AddressableBelow(g: Geometry, c: nat, stop: nat)
    requires c <= stop && Addressable(g, stop)
    ensures Addressable(g, c)
  {
  }

  /** A cached table sector after one entry has been overwritten with zero. */
  ghost function ClearedEntry(g: Geometry, data: seq<byte>, cluster: nat): (r: seq<byte>)
    requires |data| == 512
    ensures |r| == 512
  {
    var o := EntryOffset(g, cluster);
    seq(512, i requires 0 <= i < 512 => if o <= i < o + g.EntrySize() then 0 else data[i])
  }

  /** Writing the cleared sector back clears that flat entry and no other. */
  lemma ClearingAnEntry(disk: seq<Sector>, g: Geometry, cluster: nat)
    requires g.Valid() && |disk| <= NO_SECTOR && EntryOnDisk(disk, g, cluster)
    ensures var i := EntrySecter(g, cluster);
            i < |disk| &&
            var after := disk[i := ClearedEntry(g, disk[i], cluster)];
            && IsUnused(after, g, cluster)
            && forall c :: c != cluster && EntryOnDisk(disk, g, c) ==> TableEntry(after, g, c) == TableEntry(disk, g, c)
  {
    EntryAddressing(disk, g, cluster);
    var i := EntrySecter(g, cluster);
    var after := disk[i := ClearedEntry(g, disk[i], cluster)];
    EntryAddressing(after, g, cluster);
    forall c | c != cluster && EntryOnDisk(disk, g, c)
      ensures TableEntry(after, g, c) == TableEntry(disk, g, c)
    {
      OtherEntryKept(disk, g, cluster, c);
    }
  }

  lemma OtherEntryKept(disk: seq<Sector>, g: Geometry, cluster: nat, c: nat)
    requires g.Valid() && |disk| <= NO_SECTOR && EntryOnDisk(disk, g, cluster) && EntryOnDisk(disk, g, c) && c != cluster
    requires EntrySecter(g, cluster) < |disk|
    ensures var i := EntrySecter(g, cluster);
            TableEntry(disk[i := ClearedEntry(g, disk[i], cluster)], g, c) == TableEntry(disk, g, c)
  {
    var i := EntrySecter(g, cluster);
    var after := disk[i := ClearedEntry(g, disk[i], cluster)];
    EntryAddressing(disk, g, c);
    EntryAddressing(after, g, c);
    if EntrySecter(g, c) == i {
      EntriesApart(disk, g, c, cluster);
    }
  }

  /** Two different entries of one sector occupy different bytes. */
  lemma EntriesApart(disk: seq<Sector>, g: Geometry, c: nat, d: nat)
    requires g.Valid() && |disk| <= NO_SECTOR && EntryOnDisk(disk, g, c) && EntryOnDisk(disk, g, d)
    requires c != d && EntrySecter(g, c) == EntrySecter(g, d)
    ensures EntryOffset(g, c) + g.EntrySize() <= EntryOffset(g, d) || EntryOffset(g, d) + g.EntrySize() <= EntryOffset(g, c)
  {
    OffsetWithinSecter(g, c);
    OffsetWithinSecter(g, d);
  }
}
