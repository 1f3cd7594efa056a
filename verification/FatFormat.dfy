/** fatfs_format and fatfs_init over a disk whose reads and writes may fail. */
module FatFormat {
  import opened Bytes
  import opened FatGeometry

  type Sectors = seq<seq<byte>>

  const ZERO: seq<byte> := Zeros(SECTOR)

  /** The disks agree outside lo..hi. */
  ghost predicate SameOutside(a: Sectors, b: Sectors, lo: nat, hi: nat) {
    |a| == |b| && forall i :: 0 <= i < |a| && !(lo <= i < hi) ==> a[i] == b[i]
  }

  /** Nothing outside begin..end changed; when all of it was written, a FAT's first sector and zeros are in it. */
  ghost predicate Cleared(was: Sectors, now: Sectors, t: FatType, begin: nat, end: nat, done: bool) {
    && SameOutside(was, now, begin, end)
    && (done ==> begin < end <= |now| && now[begin] == FatHead(t) && forall k :: begin < k < end ==> now[k] == ZERO)
  }

  lemma NothingChanged(was: Sectors, vol: nat, t: FatType)
    requires SectorsPerCluster(vol, t) > 0
    ensures OnlyMetadataChanged(was, was, vol, t)
  {
  }

  /** The root cluster of FAT32 is the first one of the data area. */
  lemma RootLba(g: Geometry)
    requires g.fatType == Fat32 && g.clusterBegin < UINT32
    ensures LbaOfCluster(g, 2) == g.clusterBegin
  {
  }

  lemma OnlyBootSector(was: Sectors, now: Sectors, vol: nat, s: seq<byte>)
    requires SectorsPerCluster(vol, Fat32) > 0 && |was| > 0 && now == was[0 := s]
    ensures OnlyMetadataChanged(was, now, vol, Fat32)
  {
  }

  /** Writing the boot sector, the information sector on FAT32, the FATs and the root directory. */
  lemma FormattedDisk(was: Sectors, a: Sectors, now: Sectors, vol: nat, t: FatType, name: seq<byte>, done: bool)
    requires SectorsPerCluster(vol, t) > 0 && vol < UINT32 && |was| > (if t == Fat16 then 0 else 1)
    requires a == if t == Fat16 then was[0 := BootBytes(vol, t, name)]
                  else was[0 := BootBytes(vol, t, name)][1 := FsInfoBytes()]
    requires var g := Formatted(vol, t); Cleared(a, now, t, g.fatBegin, g.clusterBegin + RootSectors(vol, t), done)
    ensures OnlyMetadataChanged(was, now, vol, t)
    ensures done ==> Fresh(now, vol, t, name)
  {
    hide BootBytes;
    hide FsInfoBytes;
    hide SectorsPerCluster;
    FatSectorsBound(vol, t);
  }

  /** The disk: any read or write may fail, and those beyond its end do. */
  class Media {
    var sectors: Sectors
    ghost var faults: nat      // writes that failed so far, beyond the end or not
    ghost var readFaults: nat  // reads inside the disk that failed so far

    ghost predicate Valid()
      reads this
    {
      forall i :: 0 <= i < |sectors| ==> |sectors[i]| == SECTOR
    }

    method Write(lba: nat, buf: array<byte>) returns (ok: bool)
      requires Valid() && buf.Length == SECTOR
      modifies this`sectors, this`faults
      ensures Valid()
      ensures ok ==> lba < |old(sectors)| && sectors == old(sectors)[lba := buf[..]]
      ensures !ok ==> sectors == old(sectors)
      ensures faults == old(faults) + (if ok then 0 else 1)
    {
      ok := *;
      if lba >= |sectors| { ok := false; }
      if ok { sectors := sectors[lba := buf[..]]; } else { faults := faults + 1; }
    }

    method Read(lba: nat, buf: array<byte>) returns (ok: bool)
      requires Valid() && buf.Length == SECTOR
      modifies this`readFaults, buf
      ensures ok ==> lba < |sectors| && buf[..] == sectors[lba]
      ensures readFaults == old(readFaults) + (if ok || lba >= |sectors| then 0 else 1)
    {
      ok := *;
      if lba >= |sectors| {
        ok := false;
      } else if !ok {
        readFaults := readFaults + 1;
      }
      if ok {
        for i := 0 to SECTOR
          invariant buf[..i] == sectors[lba][..i] && readFaults == old(readFaults)
        {
          buf[i] := sectors[lba][i];
        }
        assert buf[..SECTOR] == buf[..];
      }
    }
  }

  method Clear(s: array<byte>)
    requires s.Length == SECTOR
    modifies s
    ensures s[..] == ZERO
  {
    for i := 0 to SECTOR
      invariant forall k :: 0 <= k < i ==> s[k] == 0
    {
      s[i] := 0;
    }
  }

  /** The sector buffer is `bytes`, filled up with zeros. */
  ghost predicate Holds(s: array<byte>, bytes: seq<byte>)
    reads s
  {
    s.Length == SECTOR && |bytes| <= SECTOR && s[..] == bytes + Zeros(SECTOR - |bytes|)
  }

  /** Writes consecutive bytes behind those written so far. */
  method Put(s: array<byte>, at: nat, bytes: seq<byte>, ghost sofar: seq<byte>)
    requires Holds(s, sofar) && at == |sofar| && at + |bytes| <= SECTOR
    modifies s
    ensures Holds(s, sofar + bytes)
  {
    Memcpy(s, at, bytes);
    assert s[..] == s[..at] + s[at..at + |bytes|] + s[at + |bytes|..];
    assert s[..at] == sofar;
    assert s[at + |bytes|..] == Zeros(SECTOR - at - |bytes|);
  }

  lemma HoldsNothing(s: array<byte>)
    requires s.Length == SECTOR && s[..] == ZERO
    ensures Holds(s, [])
  {
    assert ZERO == [] + Zeros(SECTOR);
  }

  lemma HoldsAll(s: array<byte>, bytes: seq<byte>)
    requires Holds(s, bytes) && |bytes| == SECTOR
    ensures s[..] == bytes
  {
  }

  /** Zero bytes that the source leaves as they were cleared. */
  lemma Skip(s: array<byte>, n: nat, sofar: seq<byte>)
    requires Holds(s, sofar) && |sofar| + n <= SECTOR
    ensures Holds(s, sofar + Zeros(n))
  {
    assert sofar + Zeros(SECTOR - |sofar|) == sofar + Zeros(n) + Zeros(SECTOR - |sofar| - n);
  }

  /** The volume name field: eleven characters, filled up with spaces. */
  method PutLabel(s: array<byte>, at: nat, name: seq<byte>, ghost sofar: seq<byte>)
    requires Holds(s, sofar) && at == |sofar| && at + 11 <= SECTOR
    modifies s
    ensures Holds(s, sofar + Label(name))
  {
    assert sofar + Label(name)[..0] == sofar;
    for i := 0 to 11
      invariant Holds(s, sofar + Label(name)[..i])
    {
      Put(s, at + i, [if i < |name| then name[i] else 0x20], sofar + Label(name)[..i]);
      assert sofar + Label(name)[..i] + [Label(name)[i]] == sofar + Label(name)[..i + 1];
    }
    assert Label(name)[..11] == Label(name);
  }

  /** The first sector of a FAT: the media and end-of-chain entries, and the FAT32 root cluster. */
  function FatHead(t: FatType): (r: seq<byte>)
    ensures |r| == SECTOR
  {
    if t == Fat16 then Le16Bytes(0xFFF8) + Le16Bytes(0xFFFF) + Zeros(508)
    else Le32Bytes(0x0FFFFFF8) + Le32Bytes(0xFFFFFFFF) + Le32Bytes(0x0FFFFFFF) + Zeros(500)
  }

  /** The entries of a fresh FAT's first sector, byte by byte. */
  lemma FatHeadLayout()
    ensures FatHead(Fat16)[..4] == [0xF8, 0xFF, 0xFF, 0xFF] && FatHead(Fat16)[4..] == Zeros(508)
    ensures FatHead(Fat32)[..12] == [0xF8, 0xFF, 0xFF, 0x0F, 0xFF, 0xFF, 0xFF, 0xFF, 0xFF, 0xFF, 0xFF, 0x0F]
    ensures FatHead(Fat32)[12..] == Zeros(500)
  {
    assert Le16Bytes(0xFFF8) + Le16Bytes(0xFFFF) == [0xF8, 0xFF, 0xFF, 0xFF];
    assert Le32Bytes(0x0FFFFFF8) + Le32Bytes(0xFFFFFFFF) + Le32Bytes(0x0FFFFFFF) ==
           [0xF8, 0xFF, 0xFF, 0x0F, 0xFF, 0xFF, 0xFF, 0xFF, 0xFF, 0xFF, 0xFF, 0x0F];
  }

  function FsInfoBytes(): (r: seq<byte>)
    ensures |r| == SECTOR
  {
    [0x52, 0x52, 0x61, 0x41] + Zeros(480) + [0x72, 0x72, 0x41, 0x61]
    + [0xFF, 0xFF, 0xFF, 0xFF] + [0xFF, 0xFF, 0xFF, 0xFF] + Zeros(14) + [0x55, 0xAA]
  }

  /** Sectors of the root directory: fixed for FAT16, the first cluster for FAT32. */
  function RootSectors(vol: nat, t: FatType): nat {
    if t == Fat16 then 32 else SectorsPerCluster(vol, t)
  }

  /** Sectors that formatting may write. */
  predicate Metadata(vol: nat, t: FatType, lba: nat)
    requires SectorsPerCluster(vol, t) > 0
  {
    var g := Formatted(vol, t);
    lba == 0 || (t == Fat32 && lba == 1) || g.fatBegin <= lba < g.clusterBegin + RootSectors(vol, t)
  }

  /** Nothing but metadata sectors differs. */
  ghost predicate OnlyMetadataChanged(was: Sectors, now: Sectors, vol: nat, t: FatType)
    requires SectorsPerCluster(vol, t) > 0
  {
    |was| == |now| && forall i :: 0 <= i < |was| && !Metadata(vol, t, i) ==> now[i] == was[i]
  }

  /** The disk of a fresh volume: boot sector, FAT head, and zeros up to the end of the root directory. */
  ghost predicate Fresh(now: Sectors, vol: nat, t: FatType, name: seq<byte>)
    requires SectorsPerCluster(vol, t) > 0
  {
    var g := Formatted(vol, t);
    && g.clusterBegin + RootSectors(vol, t) <= |now|
    && now[0] == BootBytes(vol, t, name)
    && (t == Fat32 ==> now[1] == FsInfoBytes())
    && now[g.fatBegin] == FatHead(t)
    && forall i :: g.fatBegin < i < g.clusterBegin + RootSectors(vol, t) ==> now[i] == ZERO
  }

  class FatFs {
    var spc: nat
    var reserved: nat
    var numFats: nat
    var rootEntries: nat
    var fatSectors: nat
    var fatBegin: nat
    var clusterBegin: nat
    var rootFirstCluster: nat
    var rootFirstSector: nat
    var rootSectors: nat
    var fsInfo: nat
    var lbaBegin: nat
    var fatType: FatType
    const sector: array<byte>
    const disk: Media

    ghost predicate Valid()
      reads this, disk
    {
      sector.Length == SECTOR && disk.Valid()
    }

    constructor (disk: Media)
      requires disk.Valid()
      ensures Valid() && this.disk == disk && fresh(sector)
    {
      this.disk := disk;
      sector := new byte[SECTOR](_ => 0);
    }

    function Geo(): Geometry
      reads this
    {
      Geometry(fatType, spc, rootEntries, fatSectors, fatBegin, clusterBegin, rootFirstCluster,
               if fatType == Fat16 then rootFirstSector else 0, if fatType == Fat16 then rootSectors else 0)
    }

    /** fatfs_erase_sectors. */
    method EraseSectors(lba: nat, count: nat) returns (ok: bool)
      requires Valid() && lba + count <= UINT32
      modifies sector, disk`sectors, disk`faults
      ensures Valid() && SameOutside(old(disk.sectors), disk.sectors, lba, lba + count)
      ensures disk.faults == old(disk.faults) + (if ok then 0 else 1)
      ensures ok ==> lba + count <= |disk.sectors| || count == 0
      ensures ok ==> forall i :: lba <= i < lba + count ==> disk.sectors[i] == ZERO
    {
      Clear(sector);
      for i := 0 to count
        invariant Valid() && sector[..] == ZERO && disk.faults == old(disk.faults)
        invariant SameOutside(old(disk.sectors), disk.sectors, lba, lba + i)
        invariant lba + i <= |disk.sectors| || i == 0
        invariant forall k :: lba <= k < lba + i ==> disk.sectors[k] == ZERO
      {
        var w := disk.Write(lba + i, sector);
        if !w { return false; }
      }
      return true;
    }

    /** The part of the boot sector that both types share. */
    method BootHead(vol: nat, t: FatType) returns (ok: bool)
      requires Valid() && vol < UINT32
      modifies this, sector
      ensures Valid() && ok == (SectorsPerCluster(vol, t) > 0)
      ensures fatType == old(fatType) && rootFirstCluster == old(rootFirstCluster)
      ensures fsInfo == old(fsInfo) && lbaBegin == old(lbaBegin)
      ensures ok ==> && spc == SectorsPerCluster(vol, t) && reserved == Reserved(t)
                     && numFats == 2 && rootEntries == RootEntries(t)
                     && Holds(sector, HeadBytes(vol, t))
    {
      hide SectorsPerCluster;
      hide Holds;
      hide Zeros;
      hide Media.Valid;
      Clear(sector);
      HoldsNothing(sector);
      Put(sector, 0, OEM, []);
      assert [] + OEM == OEM;
      ghost var b := OEM;
      Put(sector, 11, Le16Bytes(SECTOR), b);
      b := b + Le16Bytes(SECTOR);
      spc := CalcClusterSize(vol, t);
      if spc == 0 { return false; }
      Put(sector, 13, [spc], b);
      b := b + [spc];
      reserved := if t == Fat16 then 8 else 32;
      Put(sector, 14, Le16Bytes(reserved), b);
      b := b + Le16Bytes(reserved);
      numFats := 2;
      Put(sector, 16, [numFats], b);
      b := b + [numFats];
      rootEntries := if t == Fat16 then 512 else 0;
      Put(sector, 17, Le16Bytes(rootEntries), b);
      b := b + Le16Bytes(rootEntries);
      Put(sector, 19, [0, 0, 0xF8], b);
      return true;
    }

    method BootTail16(vol: nat, name: seq<byte>, ghost head: seq<byte>)
      requires Valid() && vol < UINT32 && fatSectors < 0x1_0000 && |head| == 22 && Holds(sector, head)
      modifies sector
      ensures Valid() && Holds(sector, WithTail16(head, vol, fatSectors, name) + Zeros(448) + [0x55, 0xAA])
    {
      ghost var b := head;
      Put(sector, 22, Le16Bytes(fatSectors), b);
      b := b + Le16Bytes(fatSectors);
      Put(sector, 24, [0, 0, 0, 0, 0x20, 0, 0, 0], b);
      b := b + [0, 0, 0, 0, 0x20, 0, 0, 0];
      Put(sector, 32, Le32Bytes(vol), b);
      b := b + Le32Bytes(vol);
      Put(sector, 36, [0, 0], b);
      b := b + [0, 0];
      Put(sector, 38, VOLUME_ID, b);
      b := b + VOLUME_ID;
      PutLabel(sector, 43, name, b);
      b := b + Label(name);
      Put(sector, 54, TYPE16, b);
      b := b + TYPE16;
      Skip(sector, 448, b);
      Put(sector, 510, [0x55, 0xAA], b + Zeros(448));
    }

    method BootSizes32(vol: nat, ghost head: seq<byte>)
      requires Valid() && vol < UINT32 && fatSectors < UINT32 && |head| == 22 && Holds(sector, head)
      requires rootFirstCluster == 2 && fsInfo == 1
      modifies sector
      ensures Valid() && Holds(sector, WithSizes32(head, vol, fatSectors))
    {
      hide Le16Bytes;
      hide Le32Bytes;
      ghost var b := head;
      Put(sector, 22, [0, 0, 0x3F, 0, 0xFF, 0, 0, 0, 0, 0], b);
      b := b + [0, 0, 0x3F, 0, 0xFF, 0, 0, 0, 0, 0];
      Put(sector, 32, Le32Bytes(vol), b);
      b := b + Le32Bytes(vol);
      Put(sector, 36, Le32Bytes(fatSectors), b);
      b := b + Le32Bytes(fatSectors);
      Put(sector, 40, [0, 0, 0, 0], b);
      b := b + [0, 0, 0, 0];
      Put(sector, 44, Le32Bytes(rootFirstCluster), b);
      b := b + Le32Bytes(2);
      Put(sector, 48, Le16Bytes(fsInfo), b);
      b := b + Le16Bytes(1);
      Put(sector, 50, [6, 0], b);
    }

    method BootTail32(name: seq<byte>, ghost b: seq<byte>)
      requires Valid() && |b| == 52 && Holds(sector, b)
      modifies sector
      ensures Valid() && Holds(sector, WithTail32(b, name) + Zeros(420) + [0x55, 0xAA])
    {
      Skip(sector, 14, b);
      Put(sector, 66, VOLUME_ID, b + Zeros(14));
      PutLabel(sector, 71, name, b + Zeros(14) + VOLUME_ID);
      Put(sector, 82, TYPE32, b + Zeros(14) + VOLUME_ID + Label(name));
      Skip(sector, 420, b + Zeros(14) + VOLUME_ID + Label(name) + TYPE32);
      Put(sector, 510, [0x55, 0xAA], b + Zeros(14) + VOLUME_ID + Label(name) + TYPE32 + Zeros(420));
    }

    /** fatfs_create_boot_sector. */
    method CreateBootSector(lba: nat, vol: nat, name: seq<byte>, t: FatType) returns (ok: bool)
      requires Valid() && vol < UINT32
      requires t == Fat32 ==> rootFirstCluster == 2 && fsInfo == 1
      modifies this, sector, disk`sectors, disk`faults
      ensures Valid() && fatType == old(fatType) && rootFirstCluster == old(rootFirstCluster)
      ensures fsInfo == old(fsInfo) && lbaBegin == old(lbaBegin)
      ensures if SectorsPerCluster(vol, t) == 0 then !ok && disk.faults == old(disk.faults)
              else disk.faults == old(disk.faults) + (if ok then 0 else 1)
      ensures !ok ==> disk.sectors == old(disk.sectors)
      ensures ok ==> && lba < |old(disk.sectors)|
                     && disk.sectors == old(disk.sectors)[lba := BootBytes(vol, t, name)]
                     && spc == SectorsPerCluster(vol, t) && reserved == Reserved(t) && numFats == 2
                     && rootEntries == RootEntries(t) && fatSectors == FatSectors(vol, t)
    {
      hide SectorsPerCluster;
      hide HeadBytes;
      hide WithTail16;
      hide WithSizes32;
      hide WithTail32;
      ok := BootHead(vol, t);
      if !ok { return; }
      FatSectorsBound(vol, t);
      ghost var head := HeadBytes(vol, t);
      var totalClusters := vol / spc + 1;
      if t == Fat16 {
        fatSectors := totalClusters / (SECTOR / 2) + 1;
        BootTail16(vol, name, head);
      } else {
        fatSectors := totalClusters / (SECTOR / 4) + 1;
        BootSizes32(vol, head);
        BootTail32(name, WithSizes32(head, vol, fatSectors));
      }
      assert sector[..] == BootBytes(vol, t, name);
      ok := disk.Write(lba, sector);
    }

    /** fatfs_create_fsinfo_sector. */
    method CreateFsInfo(lba: nat) returns (ok: bool)
      requires Valid()
      modifies sector, disk`sectors, disk`faults
      ensures Valid() && disk.faults == old(disk.faults) + (if ok then 0 else 1)
      ensures ok ==> lba < |old(disk.sectors)| && disk.sectors == old(disk.sectors)[lba := FsInfoBytes()]
      ensures !ok ==> disk.sectors == old(disk.sectors)
    {
      hide Holds;
      hide Zeros;
      hide Media.Valid;
      Clear(sector);
      HoldsNothing(sector);
      ghost var b: seq<byte> := [0x52, 0x52, 0x61, 0x41];
      Put(sector, 0, [0x52, 0x52, 0x61, 0x41], []);
      assert [] + b == b;
      Skip(sector, 480, b);
      b := b + Zeros(480);
      Put(sector, 484, [0x72, 0x72, 0x41, 0x61], b);
      b := b + [0x72, 0x72, 0x41, 0x61];
      Put(sector, 488, [0xFF, 0xFF, 0xFF, 0xFF], b);
      b := b + [0xFF, 0xFF, 0xFF, 0xFF];
      Put(sector, 492, [0xFF, 0xFF, 0xFF, 0xFF], b);
      b := b + [0xFF, 0xFF, 0xFF, 0xFF];
      Skip(sector, 14, b);
      b := b + Zeros(14);
      Put(sector, 510, [0x55, 0xAA], b);
      assert b + [0x55, 0xAA] == FsInfoBytes();
      HoldsAll(sector, FsInfoBytes());
      ok := disk.Write(lba, sector);
    }

    method FillFatHead(t: FatType)
      requires Valid()
      modifies sector
      ensures Valid() && sector[..] == FatHead(t)
    {
      hide Le16Bytes;
      hide Le32Bytes;
      Clear(sector);
      assert ZERO == [] + Zeros(SECTOR);
      if t == Fat16 {
        Put(sector, 0, Le16Bytes(0xFFF8), []);
        assert [] + Le16Bytes(0xFFF8) == Le16Bytes(0xFFF8);
        Put(sector, 2, Le16Bytes(0xFFFF), Le16Bytes(0xFFF8));
      } else {
        Put(sector, 0, Le32Bytes(0x0FFFFFF8), []);
        assert [] + Le32Bytes(0x0FFFFFF8) == Le32Bytes(0x0FFFFFF8);
        Put(sector, 4, Le32Bytes(0xFFFFFFFF), Le32Bytes(0x0FFFFFF8));
        Put(sector, 8, Le32Bytes(0x0FFFFFFF), Le32Bytes(0x0FFFFFF8) + Le32Bytes(0xFFFFFFFF));
      }
    }

    /** fatfs_erase_fat: the first sector of the first FAT, then zeros through the last FAT. */
    method EraseFat(t: FatType) returns (ok: bool)
      requires Valid() && fatSectors * numFats >= 1 && fatBegin + fatSectors * numFats <= UINT32
      modifies sector, disk`sectors, disk`faults
      ensures Valid() && SameOutside(old(disk.sectors), disk.sectors, fatBegin, fatBegin + fatSectors * numFats)
      ensures disk.faults == old(disk.faults) + (if ok then 0 else 1)
      ensures ok ==> fatBegin + fatSectors * numFats <= |disk.sectors| && disk.sectors[fatBegin] == FatHead(t)
      ensures ok ==> forall i :: fatBegin < i < fatBegin + fatSectors * numFats ==> disk.sectors[i] == ZERO
    {
      FillFatHead(t);
      ok := disk.Write(fatBegin + 0, sector);
      if !ok { return; }
      Clear(sector);
      var n := fatSectors * numFats;
      for i := 1 to n
        invariant Valid() && sector[..] == ZERO && fatBegin + i <= |disk.sectors| && disk.faults == old(disk.faults)
        invariant SameOutside(old(disk.sectors), disk.sectors, fatBegin, fatBegin + i)
        invariant disk.sectors[fatBegin] == FatHead(t)
        invariant forall k :: fatBegin < k < fatBegin + i ==> disk.sectors[k] == ZERO
      {
        ok := disk.Write(fatBegin + i, sector);
        if !ok { return; }
      }
    }

    /** The last two steps of both formats: the FATs, then the root directory right behind them. */
    method ClearRegions(t: FatType, root: nat, count: nat) returns (ok: bool)
      requires Valid() && fatSectors * numFats >= 1 && root == fatBegin + fatSectors * numFats && root + count <= UINT32
      modifies sector, disk`sectors, disk`faults
      ensures Valid() && Cleared(old(disk.sectors), disk.sectors, t, fatBegin, root + count, ok)
      ensures disk.faults == old(disk.faults) + (if ok then 0 else 1)
    {
      hide FatHead;
      ok := EraseFat(t);
      if !ok { return; }
      ok := EraseSectors(root, count);
    }

    /** The first half of fatfs_format_fat16: the boot sector and the layout. */
    method StartFat16(vol: nat, name: seq<byte>) returns (ok: bool)
      requires Valid() && vol < UINT32
      modifies this, sector, disk`sectors, disk`faults
      ensures Valid() && (SectorsPerCluster(vol, Fat16) == 0 ==> !ok)
      ensures disk.faults == old(disk.faults) + (if ok || SectorsPerCluster(vol, Fat16) == 0 then 0 else 1)
      ensures !ok ==> disk.sectors == old(disk.sectors)
      ensures ok ==> |old(disk.sectors)| > 0 && lbaBegin == 0 && numFats == 2
                     && Geo() == Formatted(vol, Fat16)
                     && rootFirstSector == clusterBegin && rootSectors == 32
                     && disk.sectors == old(disk.sectors)[0 := BootBytes(vol, Fat16, name)]
    {
      hide SectorsPerCluster;
      hide FatSectors;
      hide BootBytes;
      hide Media.Valid;
      fatType := Fat16;
      fsInfo := 0;
      rootFirstCluster := 0;
      lbaBegin := 0;
      ok := CreateBootSector(lbaBegin, vol, name, Fat16);
      if !ok { return; }
      FatSectorsBound(vol, Fat16);
      rootFirstSector := reserved + numFats * fatSectors;
      rootSectors := (rootEntries * 32 + (SECTOR - 1)) / SECTOR;
      fatBegin := lbaBegin + reserved;
      clusterBegin := fatBegin + numFats * fatSectors;
    }

    /** fatfs_format_fat16: 1 on success, 0 on failure. */
    method FormatFat16(vol: nat, name: seq<byte>) returns (r: int)
      requires Valid() && vol < UINT32
      modifies this, sector, disk`sectors, disk`faults
      ensures Valid() && r in {0, 1} && (SectorsPerCluster(vol, Fat16) == 0 ==> r == 0)
      ensures SectorsPerCluster(vol, Fat16) == 0 ==> disk.sectors == old(disk.sectors)
      ensures r == 1 <==> SectorsPerCluster(vol, Fat16) > 0 && disk.faults == old(disk.faults)
      ensures SectorsPerCluster(vol, Fat16) > 0 ==> OnlyMetadataChanged(old(disk.sectors), disk.sectors, vol, Fat16)
      ensures r == 1 ==> Fresh(disk.sectors, vol, Fat16, name) && Geo() == Formatted(vol, Fat16) && lbaBegin == 0
                         && rootFirstSector == clusterBegin && rootSectors == 32
    {
      hide SectorsPerCluster;
      hide FatSectors;
      hide BootBytes;
      hide Fresh;
      hide OnlyMetadataChanged;
      hide Cleared;
      hide Media.Valid;
      ghost var was := disk.sectors;
      var ok := StartFat16(vol, name);
      if SectorsPerCluster(vol, Fat16) > 0 { NothingChanged(was, vol, Fat16); }
      if !ok { return 0; }
      ghost var a := disk.sectors;
      FatSectorsBound(vol, Fat16);
      ok := ClearRegions(Fat16, lbaBegin + rootFirstSector, rootSectors);
      FormattedDisk(was, a, disk.sectors, vol, Fat16, name, ok);
      r := if ok then 1 else 0;
    }

    /** The first half of fatfs_format_fat32: the layout, and the two sectors in front of the FATs. */
    method StartFat32(vol: nat, name: seq<byte>) returns (ok: bool)
      requires Valid() && vol < UINT32 && SectorsPerCluster(vol, Fat32) > 0
      modifies this, sector, disk`sectors, disk`faults
      ensures Valid() && disk.faults == old(disk.faults) + (if ok then 0 else 1)
      ensures !ok ==> OnlyMetadataChanged(old(disk.sectors), disk.sectors, vol, Fat32)
      ensures ok ==> |old(disk.sectors)| > 1 && lbaBegin == 0 && fsInfo == 1 && numFats == 2
                     && Geo() == Formatted(vol, Fat32)
                     && disk.sectors == old(disk.sectors)[0 := BootBytes(vol, Fat32, name)][1 := FsInfoBytes()]
    {
      hide SectorsPerCluster;
      hide FatSectors;
      hide BootBytes;
      hide FsInfoBytes;
      hide OnlyMetadataChanged;
      hide Media.Valid;
      fatType := Fat32;
      fsInfo := 1;
      rootFirstCluster := 2;
      lbaBegin := 0;
      ghost var was := disk.sectors;
      NothingChanged(was, vol, Fat32);
      ok := CreateBootSector(lbaBegin, vol, name, Fat32);
      if !ok { return; }
      FatSectorsBound(vol, Fat32);
      fatBegin := lbaBegin + reserved;
      clusterBegin := fatBegin + numFats * fatSectors;
      ok := CreateFsInfo(fsInfo);
      if !ok { OnlyBootSector(was, disk.sectors, vol, BootBytes(vol, Fat32, name)); }
    }

    /** fatfs_format_fat32: 1 on success, 0 on failure. */
    method FormatFat32(vol: nat, name: seq<byte>) returns (r: int)
      requires Valid() && vol < UINT32
      modifies this, sector, disk`sectors, disk`faults
      ensures Valid() && r in {0, 1} && (r == 1 <==> disk.faults == old(disk.faults))
      ensures SectorsPerCluster(vol, Fat32) > 0 && OnlyMetadataChanged(old(disk.sectors), disk.sectors, vol, Fat32)
      ensures r == 1 ==> Fresh(disk.sectors, vol, Fat32, name) && Geo() == Formatted(vol, Fat32)
                         && lbaBegin == 0 && fsInfo == 1
    {
      assert SectorsPerCluster(vol, Fat32) > 0;
      hide SectorsPerCluster;
      hide FatSectors;
      hide BootBytes;
      hide FsInfoBytes;
      hide Fresh;
      hide OnlyMetadataChanged;
      hide Cleared;
      hide Media.Valid;
      hide LbaOfCluster;
      ghost var was := disk.sectors;
      var ok := StartFat32(vol, name);
      if !ok { return 0; }
      ghost var a := disk.sectors;
      FatSectorsBound(vol, Fat32);
      RootLba(Geo());
      var root := LbaOfCluster(Geo(), rootFirstCluster);
      ok := ClearRegions(Fat32, root, spc);
      FormattedDisk(was, a, disk.sectors, vol, Fat32, name, ok);
      r := if ok then 1 else 0;
    }

    /** fatfs_format: FAT16 up to 2 GB, FAT32 above. */
    method Format(vol: nat, name: seq<byte>) returns (r: int)
      requires Valid() && vol < UINT32
      modifies this, sector, disk`sectors, disk`faults
      ensures Valid() && r in {0, 1} && (r == 1 <==> disk.faults == old(disk.faults))
      ensures OnlyMetadataChanged(old(disk.sectors), disk.sectors, vol, TypeFor(vol))
      ensures r == 1 ==> Fresh(disk.sectors, vol, TypeFor(vol), name) && Geo() == Formatted(vol, TypeFor(vol))
                         && (TypeFor(vol) == Fat32 ==> fsInfo == 1)
    {
      if vol <= FAT16_LIMIT {
        r := FormatFat16(vol, name);
      } else {
        r := FormatFat32(vol, name);
      }
    }

    /** The fields that fatfs_init loads, whatever the type. */
    method LoadFields(s: seq<byte>)
      requires |s| == SECTOR
      modifies this
      ensures lbaBegin == old(lbaBegin)
      ensures spc == s[13] as int && rootEntries == Le16(s, 17) && fatSectors == FatSize(s)
      ensures rootFirstCluster == Le32(s, 44) && fsInfo == Le16(s, 48)
      ensures rootFirstSector == Wrap(Le16(s, 14) + Wrap(s[16] as int * FatSize(s)))
      ensures rootSectors == RootDirSectors(Le16(s, 17), SECTOR)
      ensures fatBegin == Wrap(lbaBegin + Le16(s, 14))
      ensures clusterBegin == Wrap(fatBegin + Wrap(s[16] as int * FatSize(s)))
    {
      hide Le16;
      hide Le32;
      hide Wrap;
      spc := s[13] as int;
      var rsvd, fats := Le16(s, 14), s[16] as int;
      rootEntries := Le16(s, 17);
      fatSectors := if Le16(s, 22) != 0 then Le16(s, 22) else Le32(s, 36);
      rootFirstCluster := Le32(s, 44);
      fsInfo := Le16(s, 48);
      rootFirstSector := Wrap(rsvd + Wrap(fats * fatSectors));
      rootSectors := (rootEntries * 32 + (SECTOR - 1)) / SECTOR;
      fatBegin := Wrap(lbaBegin + rsvd);
      clusterBegin := Wrap(fatBegin + Wrap(fats * fatSectors));
    }

    /** The part of fatfs_init that works on the file system's first sector. */
    method LoadParameters(s: seq<byte>) returns (r: Status)
      requires |s| == SECTOR
      modifies this
      ensures lbaBegin == old(lbaBegin)
      ensures r == (if Le16(s, 11) != SECTOR then BadSectorSize
                    else if Le16(s, 510) != 0xAA55 then BadSignature
                    else if s[13] == 0 || ClusterCount(s) < 4085 then WrongType
                    else Ok)
      ensures r == Ok ==> Geo() == Mounted(lbaBegin, s) && fsInfo == Le16(s, 48)
    {
      hide ClusterCount;
      hide RootDirSectors;
      hide FatSize;
      hide Le16;
      hide Le32;
      hide Wrap;
      if Le16(s, 11) != SECTOR { return BadSectorSize; }
      LoadFields(s);
      if Le16(s, 510) != 0xAA55 { return BadSignature; }
      if spc == 0 { return WrongType; }
      var count := CountClusters(s);
      if count < 4085 { return WrongType; }
      if count < 65525 {
        rootFirstCluster := 0;
        fatType := Fat16;
      } else {
        fatType := Fat32;
      }
      return Ok;
    }

    /** fatfs_init. */
    method Init() returns (r: Status)
      requires Valid()
      modifies this, sector, disk`readFaults
      ensures Valid()
      ensures if r == MediaError then
                disk.readFaults == old(disk.readFaults) + 1 || |disk.sectors| == 0
                || (disk.sectors[0][510] == 0x55 && disk.sectors[0][511] == 0xAA
                    && LbaBegin(disk.sectors[0]) >= |disk.sectors|)
              else disk.readFaults == old(disk.readFaults)
      ensures r != MediaError ==> |disk.sectors| > 0
      ensures r != MediaError ==>
                var mbr := disk.sectors[0];
                if mbr[510] != 0x55 || mbr[511] != 0xAA then r == BadSignature
                else && LbaBegin(mbr) < |disk.sectors| && lbaBegin == LbaBegin(mbr)
                     && r == MountStatus(mbr, disk.sectors[lbaBegin])
                     && (r == Ok ==> Geo() == Mounted(lbaBegin, disk.sectors[lbaBegin])
                                     && fsInfo == Le16(disk.sectors[lbaBegin], 48))
    {
      hide ClusterCount;
      hide Mounted;
      hide Le16;
      hide Le32;
      var read := disk.Read(0, sector);
      if !read { return MediaError; }
      if sector[510] != 0x55 || sector[511] != 0xAA { return BadSignature; }
      var code := sector[450] as int;
      var valid := code in {0x0B, 0x06, 0x0C, 0x0E, 0x0F, 0x05} || (code != 0 && code <= 0x06);
      lbaBegin := if valid then Le32(sector[..], 454) else 0;
      read := disk.Read(lbaBegin, sector);
      if !read { return MediaError; }
      r := LoadParameters(sector[..]);
    }
  }

  /** The cluster count, from the fields of the sector buffer, as unsigned 32-bit arithmetic. */
  method CountClusters(s: seq<byte>) returns (count: nat)
    requires |s| == SECTOR && s[13] != 0 && Le16(s, 11) == SECTOR
    ensures count == ClusterCount(s)
  {
    hide Le16;
    hide Le32;
    hide Wrap;
    var rootDirSectors := (Le16(s, 17) * 32 + (Le16(s, 11) - 1)) / Le16(s, 11);
    var fatSz := if Le16(s, 22) != 0 then Le16(s, 22) else Le32(s, 36);
    var total := if Le16(s, 19) != 0 then Le16(s, 19) else Le32(s, 32);
    var data := Wrap(total - Wrap(Le16(s, 14) + Wrap(s[16] as int * fatSz) + rootDirSectors));
    count := data / s[13] as int;
  }

  /**
   Formatting, then mounting with another handle on the same disk: the mount succeeds with
   the geometry and type of the format exactly when the size is FAT32's or in the FAT16 band.
   On a disk that never fails both finish.
   */
  method FormatThenMount(vol: nat, name: seq<byte>, fs: FatFs, other: FatFs) returns (r: int, st: Status)
    requires fs.Valid() && other.Valid() && fs != other && fs.sector != other.sector && fs.disk == other.disk
    requires vol < UINT32
    modifies fs, fs.sector, fs.disk, other, other.sector
    ensures r == 1 && fs.disk.readFaults == old(fs.disk.readFaults) ==>
              && (Mountable(vol) <==> st == Ok && other.Geo() == fs.Geo())
              && (TypeFor(vol) == Fat32 ==> other.fsInfo == fs.fsInfo)
    ensures r == 1 <==> fs.disk.faults == old(fs.disk.faults)
    ensures st == MediaError ==> r == 0 || fs.disk.readFaults > old(fs.disk.readFaults)
    ensures OnlyMetadataChanged(old(fs.disk.sectors), fs.disk.sectors, vol, TypeFor(vol))
  {
    r := fs.Format(vol, name);
    FormattedVolumeMounts(vol, name);
    hide BootBytes;
    hide Mounted;
    hide MountStatus;
    hide Formatted;
    hide Mountable;
    hide OnlyMetadataChanged;
    hide Le16;
    st := other.Init();
  }

  /**
   Mounting a card whose volume is in a partition: with no failing read it succeeds, with the
   geometry of the volume moved to the partition, exactly for the sizes that mount.
   */
  method MountPartition(fs: FatFs, ghost lba: nat, ghost vol: nat) returns (st: Status)
    requires fs.Valid() && vol < UINT32 && lba < UINT32 && lba < |fs.disk.sectors|
    requires Partitioned(fs.disk.sectors[0], lba) && BootSector(fs.disk.sectors[lba], vol, TypeFor(vol))
    modifies fs, fs.sector, fs.disk`readFaults
    ensures fs.disk.sectors == old(fs.disk.sectors)
    ensures st == MediaError <==> fs.disk.readFaults > old(fs.disk.readFaults)
    ensures fs.disk.readFaults == old(fs.disk.readFaults) ==>
              (Mountable(vol) <==>
               st == Ok && fs.lbaBegin == lba && fs.Geo() == Moved(Formatted(vol, TypeFor(vol)), lba))
  {
    PartitionedVolumeMounts(fs.disk.sectors[0], lba, fs.disk.sectors[lba], vol);
    PartitionSigned(fs.disk.sectors[0], lba);
    hide LbaBegin;
    hide BootSector;
    hide Partitioned;
    hide Mounted;
    hide MountStatus;
    hide Moved;
    hide Formatted;
    hide Mountable;
    hide Le16;
    st := fs.Init();
  }

  lemma PartitionSigned(mbr: seq<byte>, lba: nat)
    requires lba < UINT32 && Partitioned(mbr, lba)
    ensures |mbr| == SECTOR && mbr[510] == 0x55 && mbr[511] == 0xAA
  {
  }

  datatype SizeRow = SizeRow(sectors: nat, spc: nat)

  const TABLE16 := [SizeRow(32680, 2), SizeRow(262144, 4), SizeRow(524288, 8), SizeRow(1048576, 16),
                    SizeRow(2097152, 32), SizeRow(4194304, 64), SizeRow(8388608, 128), SizeRow(0, 0)]

  const TABLE32 := [SizeRow(532480, 1), SizeRow(16777216, 8), SizeRow(33554432, 16),
                    SizeRow(67108864, 32), SizeRow(0xFFFFFFFF, 64), SizeRow(0, 0)]

  /** fatfs_calc_cluster_size: the first row of the table that is large enough. */
  method CalcClusterSize(vol: nat, t: FatType) returns (r: nat)
    ensures r == SectorsPerCluster(vol, t)
  {
    var table := if t == Fat16 then TABLE16 else TABLE32;
    var i := 0;
    while table[i].spc != 0
      invariant 0 <= i < |table|
      invariant i > 0 ==> vol > table[i - 1].sectors
      decreases |table| - i
    {
      assert i in {0, 1, 2, 3, 4, 5, 6, 7};
      if vol <= table[i].sectors { return table[i].spc; }
      i := i + 1;
    }
    return 0;
  }
}