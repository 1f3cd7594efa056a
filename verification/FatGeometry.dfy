/**
 The geometry of a formatted volume, its boot sector, and what mounting reads out of it.
 All sector arithmetic of the source is unsigned 32-bit.
 */
module FatGeometry {
  import opened Bytes

  const SECTOR := 512

  /** Largest volume that is formatted as FAT16. */
  const FAT16_LIMIT := 4194304
  const UINT32 := 0x1_0000_0000

  datatype FatType = Fat16 | Fat32

  function Wrap(x: int): (r: nat)
    ensures r < UINT32
  {
    x % UINT32
  }

  /** Sectors per cluster for a volume; 0 when the size is not supported. */
  function SectorsPerCluster(vol: nat, t: FatType): (r: nat)
    ensures r in {0, 1, 2, 4, 8, 16, 32, 64, 128}
  {
    match t
    case Fat16 =>
      if vol <= 32680 then 2 else if vol <= 262144 then 4 else if vol <= 524288 then 8
      else if vol <= 1048576 then 16 else if vol <= 2097152 then 32 else if vol <= 4194304 then 64
      else if vol <= 8388608 then 128 else 0
    case Fat32 =>
      if vol <= 532480 then 1 else if vol <= 16777216 then 8 else if vol <= 33554432 then 16
      else if vol <= 67108864 then 32 else if vol <= 0xFFFFFFFF then 64 else 0
  }

  /** The fields that a formatted and a mounted volume have to agree on. */
  datatype Geometry = Geometry(
    fatType: FatType,
    spc: nat,
    rootEntries: nat,
    fatSectors: nat,
    fatBegin: nat,
    clusterBegin: nat,
    rootCluster: nat,
    rootFirst: nat,    // only FAT16 has a root directory of its own
    rootSectors: nat)

  function Reserved(t: FatType): nat { if t == Fat16 then 8 else 32 }

  function RootEntries(t: FatType): nat { if t == Fat16 then 512 else 0 }

  function EntrySize(t: FatType): (r: nat)
    ensures r in {2, 4}
  {
    if t == Fat16 then 2 else 4
  }

  function FatSectors(vol: nat, t: FatType): nat
    requires SectorsPerCluster(vol, t) > 0
  {
    (vol / SectorsPerCluster(vol, t) + 1) / (SECTOR / EntrySize(t)) + 1
  }

  /** The geometry that formatting chooses. */
  function Formatted(vol: nat, t: FatType): Geometry
    requires SectorsPerCluster(vol, t) > 0
  {
    var f := FatSectors(vol, t);
    Geometry(t, SectorsPerCluster(vol, t), RootEntries(t), f, Reserved(t), Reserved(t) + 2 * f,
             if t == Fat16 then 0 else 2,
             if t == Fat16 then Reserved(t) + 2 * f else 0,
             if t == Fat16 then RootEntries(t) * 32 / SECTOR else 0)
  }

  function Le16(s: seq<byte>, at: nat): (r: nat)
    requires at + 2 <= |s|
    ensures r < 0x1_0000
  {
    s[at] as int + s[at + 1] as int * 0x100
  }

  function Le32(s: seq<byte>, at: nat): (r: nat)
    requires at + 4 <= |s|
    ensures r < UINT32
  {
    s[at] as int + s[at + 1] as int * 0x100 + s[at + 2] as int * 0x1_0000 + s[at + 3] as int * 0x100_0000
  }

  /** The fields of a boot sector that mounting looks at. */
  ghost predicate BootSector(s: seq<byte>, vol: nat, t: FatType)
    requires SectorsPerCluster(vol, t) > 0
  {
    && |s| == SECTOR
    && Le16(s, 11) == SECTOR && s[13] as int == SectorsPerCluster(vol, t) && Le16(s, 14) == Reserved(t)
    && s[16] == 2 && Le16(s, 17) == RootEntries(t) && Le16(s, 19) == 0 && Le32(s, 32) == vol
    && (t == Fat16 ==> Le16(s, 22) == FatSectors(vol, t))
    && (t == Fat32 ==> Le16(s, 22) == 0 && Le32(s, 36) == FatSectors(vol, t) && Le32(s, 44) == 2 && Le16(s, 48) == 1)
    && s[450] == 0 && s[510] == 0x55 && s[511] == 0xAA
  }

  datatype Status = Ok | MediaError | BadSignature | BadSectorSize | WrongType

  /** Where the file system starts: the partition's first sector when the type code names one. */
  function LbaBegin(mbr: seq<byte>): nat
    requires |mbr| == SECTOR
  {
    var code := mbr[450] as int;
    if code in {0x0B, 0x06, 0x0C, 0x0E, 0x0F, 0x05} || (code != 0 && code <= 0x06) then Le32(mbr, 454) else 0
  }

  function FatSize(s: seq<byte>): nat
    requires |s| == SECTOR
  {
    if Le16(s, 22) != 0 then Le16(s, 22) else Le32(s, 36)
  }

  /** Sectors of a root directory, rounded up. */
  function RootDirSectors(entries: nat, sectorSize: nat): nat
    requires sectorSize > 0
  {
    (entries * 32 + (sectorSize - 1)) / sectorSize
  }

  /** Sectors in front of the data, as unsigned 32-bit arithmetic. */
  function MetadataSectors(s: seq<byte>): nat
    requires |s| == SECTOR && Le16(s, 11) == SECTOR
  {
    Wrap(Le16(s, 14) + Wrap(s[16] as int * FatSize(s)) + RootDirSectors(Le16(s, 17), Le16(s, 11)))
  }

  function WholeClusters(sectors: nat, spc: nat): nat
    requires spc > 0
  {
    sectors / spc
  }

  /** The number of clusters that mounting computes, wrap-around included. */
  function ClusterCount(s: seq<byte>): nat
    requires |s| == SECTOR && s[13] != 0 && Le16(s, 11) == SECTOR
  {
    var total := if Le16(s, 19) != 0 then Le16(s, 19) else Le32(s, 32);
    WholeClusters(Wrap(total - MetadataSectors(s)), s[13] as int)
  }

  /** The status of a mount, from the first sector of the disk and of the file system. */
  function MountStatus(mbr: seq<byte>, s: seq<byte>): Status
    requires |mbr| == SECTOR && |s| == SECTOR
  {
    if mbr[510] != 0x55 || mbr[511] != 0xAA then BadSignature
    else if Le16(s, 11) != SECTOR then BadSectorSize
    else if Le16(s, 510) != 0xAA55 then BadSignature
    else if s[13] == 0 || ClusterCount(s) < 4085 then WrongType
    else Ok
  }

  /** The geometry of a successful mount. */
  function Mounted(lba: nat, s: seq<byte>): Geometry
    requires |s| == SECTOR && s[13] != 0 && Le16(s, 11) == SECTOR
  {
    var t := if ClusterCount(s) < 65525 then Fat16 else Fat32;
    var begin := Wrap(lba + Le16(s, 14));
    Geometry(t, s[13] as int, Le16(s, 17), FatSize(s), begin, Wrap(begin + Wrap(s[16] as int * FatSize(s))),
             if t == Fat16 then 0 else Le32(s, 44),
             if t == Fat16 then Wrap(Le16(s, 14) + Wrap(s[16] as int * FatSize(s))) else 0,
             if t == Fat16 then RootDirSectors(Le16(s, 17), SECTOR) else 0)
  }

  /** Clusters that fit behind the metadata of a formatted volume, before any wrap-around. */
  function DataSectors(vol: nat, t: FatType): int
    requires SectorsPerCluster(vol, t) > 0
  {
    vol - (Reserved(t) + 2 * FatSectors(vol, t) + RootEntries(t) * 32 / SECTOR)
  }

  lemma FatSectorsBound(vol: nat, t: FatType)
    requires vol < UINT32 && SectorsPerCluster(vol, t) > 0
    ensures 1 <= FatSectors(vol, t)
    ensures t == Fat16 ==> FatSectors(vol, t) <= 258
    ensures t == Fat32 ==> FatSectors(vol, t) <= 0x8_0002
  {
    var clusters := vol / SectorsPerCluster(vol, t);
    if t == Fat16 {
      assert clusters <= 65536;
      hide SectorsPerCluster;
      assert FatSectors(vol, t) == (clusters + 1) / 256 + 1;
    } else {
      assert clusters <= 0x400_0000;
      hide SectorsPerCluster;
      assert FatSectors(vol, t) == (clusters + 1) / 128 + 1;
    }
  }

  /** A formatted boot sector gives back the numbers it was made from. */
  lemma BootSectorCount(s: seq<byte>, vol: nat, t: FatType)
    requires vol < UINT32 && SectorsPerCluster(vol, t) > 0 && BootSector(s, vol, t)
    ensures FatSize(s) == FatSectors(vol, t)
    ensures ClusterCount(s) == Wrap(DataSectors(vol, t)) / SectorsPerCluster(vol, t)
  {
    hide FatSectors;
    hide SectorsPerCluster;
    hide Le16;
    hide Le32;
    var f := FatSectors(vol, t);
    FatSectorsBound(vol, t);
    assert FatSize(s) == f;
    var used := Reserved(t) + 2 * f + RootEntries(t) * 32 / SECTOR;
    assert RootDirSectors(RootEntries(t), SECTOR) == RootEntries(t) * 32 / SECTOR;
    WrapSmall(2 * f);
    WrapSmall(used);
    hide Wrap;
    assert MetadataSectors(s) == used;
    assert DataSectors(vol, t) == vol - used;
  }

  lemma WrapSmall(x: nat)
    requires x < UINT32
    ensures Wrap(x) == x
  {
  }

  /** The FAT16 sizes whose recomputed cluster count is in the FAT16 band. */
  predicate InFat16Band(vol: nat) { 8244 <= vol <= 4194151 }

  /** Sectors left for data on a FAT16 volume with clusters of spc sectors. */
  function DataSectors16(vol: nat, spc: nat): int
    requires spc > 0
  {
    vol - 40 - 2 * ((vol / spc + 1) / 256 + 1)
  }

  lemma Fat16SmallTier(vol: nat)
    requires vol <= 32680
    ensures var d := DataSectors16(vol, 2); InFat16Band(vol) <==> 4085 <= Wrap(d) / 2 < 65525
    ensures InFat16Band(vol) ==> DataSectors16(vol, 2) >= 0
  {
    var d := DataSectors16(vol, 2);
    if vol < 100 { assert d < 0 ==> Wrap(d) == d + UINT32; }
  }

  lemma Fat16MiddleTier(vol: nat, spc: nat)
    requires spc in {4, 8, 16, 32} && 32680 < vol <= 65536 * spc && 16000 * spc <= 2 * vol
    ensures var d := DataSectors16(vol, spc); d >= 0 && 4085 <= Wrap(d) / spc < 65525
  {
    hide DataSectors16;
    hide Wrap;
    if spc == 4 { Fat16Tier4(vol); } else if spc == 8 { Fat16Tier8(vol); }
    else if spc == 16 { Fat16Tier16(vol); } else { Fat16Tier32(vol); }
  }

  lemma Fat16Inside(vol: nat, spc: nat)
    requires spc in {4, 8, 16, 32} && 8000 * spc <= vol <= 65536 * spc
    ensures var d := DataSectors16(vol, spc); 0 <= d == Wrap(d) && 4085 * spc <= d < 65525 * spc
  {
    var c := vol / spc;
    DivBounds(vol, spc);
    FatOf16(c);
    InsideBounds(vol, spc, c, (c + 1) / 256 + 1);
    WrapSmall(DataSectors16(vol, spc));
    hide Wrap;
  }

  lemma InsideBounds(vol: nat, spc: nat, c: nat, f: nat)
    requires spc in {4, 8, 16, 32} && 8000 * spc <= vol <= 65536 * spc && 0 <= vol - c * spc < spc
    requires f <= 257 && (c >= 60000 ==> f >= 235)
    ensures var d := vol - 40 - 2 * f; 0 <= d && 4085 * spc <= d < 65525 * spc
  {
    if spc == 4 {} else if spc == 8 {} else if spc == 16 {} else {}
  }

  /** A FAT16 table is long when there are many clusters, and never longer than 257 sectors. */
  lemma FatOf16(c: nat)
    requires c <= 65536
    ensures var f := (c + 1) / 256 + 1; f <= 257 && (c >= 60000 ==> f >= 235)
  {
  }

  lemma Fat16Tier4(vol: nat)
    requires 32680 < vol <= 262144
    ensures var d := DataSectors16(vol, 4); d >= 0 && 4085 <= Wrap(d) / 4 < 65525
  {
    Fat16Inside(vol, 4);
  }

  lemma Fat16Tier8(vol: nat)
    requires 64000 <= vol <= 524288
    ensures var d := DataSectors16(vol, 8); d >= 0 && 4085 <= Wrap(d) / 8 < 65525
  {
    Fat16Inside(vol, 8);
  }

  lemma Fat16Tier16(vol: nat)
    requires 128000 <= vol <= 1048576
    ensures var d := DataSectors16(vol, 16); d >= 0 && 4085 <= Wrap(d) / 16 < 65525
  {
    Fat16Inside(vol, 16);
  }

  lemma Fat16Tier32(vol: nat)
    requires 256000 <= vol <= 2097152
    ensures var d := DataSectors16(vol, 32); d >= 0 && 4085 <= Wrap(d) / 32 < 65525
  {
    Fat16Inside(vol, 32);
  }

  lemma Fat16TopTier(vol: nat)
    requires 2097152 < vol <= FAT16_LIMIT
    ensures var d := DataSectors16(vol, 64);
            d >= 0 && 4085 <= Wrap(d) / 64 && (Wrap(d) / 64 < 65525 <==> vol <= 4194151)
  {
  }

  lemma Fat16Band(vol: nat)
    requires vol <= FAT16_LIMIT
    ensures var n := Wrap(DataSectors(vol, Fat16)) / SectorsPerCluster(vol, Fat16);
            InFat16Band(vol) <==> 4085 <= n < 65525
    ensures InFat16Band(vol) ==> DataSectors(vol, Fat16) >= 0
  {
    var spc := SectorsPerCluster(vol, Fat16);
    assert DataSectors(vol, Fat16) == DataSectors16(vol, spc);
    hide DataSectors16;
    hide DataSectors;
    hide Wrap;
    if vol <= 32680 { Fat16SmallTier(vol); }
    else if vol <= 2097152 { Fat16MiddleTier(vol, spc); }
    else { Fat16TopTier(vol); }
  }

  /** Sectors left for data on a FAT32 volume with clusters of spc sectors. */
  function DataSectors32(vol: nat, spc: nat): int
    requires spc > 0
  {
    vol - 32 - 2 * ((vol / spc + 1) / 128 + 1)
  }

  lemma Fat32Tier(vol: nat, spc: nat)
    requires spc in {8, 16, 32, 64} && FAT16_LIMIT < vol < UINT32 && 500000 <= vol / spc
    ensures var d := DataSectors32(vol, spc); 0 <= d < UINT32 && d / spc >= 65525
  {
    if spc == 8 {} else if spc == 16 {} else if spc == 32 {} else {}
  }

  lemma Fat32Band(vol: nat)
    requires FAT16_LIMIT < vol < UINT32
    ensures DataSectors(vol, Fat32) >= 0
    ensures Wrap(DataSectors(vol, Fat32)) / SectorsPerCluster(vol, Fat32) >= 65525
  {
    var spc := SectorsPerCluster(vol, Fat32);
    assert DataSectors(vol, Fat32) == DataSectors32(vol, spc);
    hide DataSectors32;
    hide DataSectors;
    Fat32Tier(vol, spc);
  }

  function TypeFor(vol: nat): FatType { if vol <= 4194304 then Fat16 else Fat32 }

  lemma SizeSupported(vol: nat)
    requires vol < UINT32
    ensures SectorsPerCluster(vol, TypeFor(vol)) > 0
  {
  }

  predicate Mountable(vol: nat) { vol > 4194304 || InFat16Band(vol) }

  /** What mounting reads out of a formatted boot sector, in terms of the cluster count. */
  lemma MountReads(s: seq<byte>, vol: nat, t: FatType)
    requires vol < UINT32 && SectorsPerCluster(vol, t) > 0 && BootSector(s, vol, t)
    ensures LbaBegin(s) == 0
    ensures var n := Wrap(DataSectors(vol, t)) / SectorsPerCluster(vol, t);
            && MountStatus(s, s) == (if n < 4085 then WrongType else Ok)
            && Mounted(0, s) == Formatted(vol, t).(
                                  fatType := if n < 65525 then Fat16 else Fat32,
                                  rootCluster := if n < 65525 then 0 else Le32(s, 44),
                                  rootFirst := if n < 65525 then Reserved(t) + 2 * FatSectors(vol, t) else 0,
                                  rootSectors := if n < 65525 then RootEntries(t) * 32 / SECTOR else 0)
  {
    hide DataSectors;
    hide ClusterCount;
    hide FatSectors;
    hide SectorsPerCluster;
    hide FatSize;
    hide Le32;
    BootSectorCount(s, vol, t);
    FatSectorsBound(vol, t);
    assert Wrap(2 * FatSectors(vol, t)) == 2 * FatSectors(vol, t);
    assert RootDirSectors(RootEntries(t), SECTOR) == RootEntries(t) * 32 / SECTOR;
    assert Le16(s, 510) == 0xAA55;
  }

  /**
   Mounting a freshly formatted volume recovers its geometry and type exactly for FAT32
   sizes and for FAT16 sizes in the band.
   */
  lemma MountAgreesExactlyInBand(s: seq<byte>, vol: nat)
    requires vol < UINT32 && BootSector(s, vol, TypeFor(vol))
    ensures LbaBegin(s) == 0
    ensures Mountable(vol) <==>
            MountStatus(s, s) == Ok && Mounted(0, s) == Formatted(vol, TypeFor(vol))
  {
    hide DataSectors;
    hide MountStatus;
    hide Mounted;
    var t := TypeFor(vol);
    MountReads(s, vol, t);
    if t == Fat16 { Fat16Band(vol); } else { Fat32Band(vol); }
  }

  /** The type codes of a partition that can be mounted. */
  predicate IsPartition(code: byte) { 1 <= code <= 6 || code in {0x0B, 0x0C, 0x0E, 0x0F} }

  /** A disk's first sector whose first partition starts at sector lba, least significant byte first. */
  predicate Partitioned(mbr: seq<byte>, lba: nat)
    requires lba < UINT32
  {
    && |mbr| == 512 && mbr[510] == 0x55 && mbr[511] == 0xAA && IsPartition(mbr[450])
    && mbr[454] as int == lba % 0x100 && mbr[455] as int == lba / 0x100 % 0x100
    && mbr[456] as int == lba / 0x1_0000 % 0x100 && mbr[457] as int == lba / 0x100_0000
  }

  /** Any other code stands for a disk without partitions. */
  lemma LbaBeginIs(mbr: seq<byte>, lba: nat)
    requires |mbr| == 512 && lba < UINT32
    ensures Partitioned(mbr, lba) ==> LbaBegin(mbr) == lba
    ensures !IsPartition(mbr[450]) ==> LbaBegin(mbr) == 0
  {
    if Partitioned(mbr, lba) {
      assert mbr[454..458] == Le32Bytes(lba);
      Le32At(mbr, 454, lba);
    }
    hide Le32;
  }

  /** A geometry whose file system starts at sector lba. */
  function Moved(g: Geometry, lba: nat): Geometry {
    g.(fatBegin := (lba + g.fatBegin) % 0x1_0000_0000, clusterBegin := (lba + g.clusterBegin) % 0x1_0000_0000)
  }

  lemma MountedElsewhere(lba: nat, s: seq<byte>)
    requires |s| == SECTOR && s[13] != 0 && Le16(s, 11) == SECTOR
    ensures Mounted(lba, s) == Moved(Mounted(0, s), lba)
  {
    hide ClusterCount;
    hide RootDirSectors;
    hide Le16;
    hide Le32;
    hide FatSize;
    WrapTwice(lba, Le16(s, 14), Wrap(s[16] as int * FatSize(s)));
  }

  lemma WrapTwice(lba: nat, a: nat, b: nat)
    ensures Wrap(lba + a) == (lba + Wrap(0 + a)) % 0x1_0000_0000
    ensures Wrap(Wrap(lba + a) + b) == (lba + Wrap(Wrap(0 + a) + b)) % 0x1_0000_0000
  {
    WrapAdds(lba, a);
    WrapAdds(b, lba + a);
    WrapAdds(b, a);
    WrapAdds(lba, a + b);
    assert UINT32 == 0x1_0000_0000 && forall x: int :: Wrap(x) == x % UINT32;
    hide Wrap;
  }

  lemma WrapAdds(x: int, y: int)
    ensures Wrap(x + Wrap(y)) == Wrap(x + y)
  {
    var q := y / UINT32;
    assert Wrap(y) == y - q * UINT32;
  }

  /**
   A volume at the start of a partition mounts as the same volume on a whole disk does, every
   sector number moved by the partition's first sector.
   */
  lemma PartitionedVolumeMounts(mbr: seq<byte>, lba: nat, s: seq<byte>, vol: nat)
    requires vol < UINT32 && lba < UINT32 && Partitioned(mbr, lba) && BootSector(s, vol, TypeFor(vol))
    ensures LbaBegin(mbr) == lba
    ensures Mountable(vol) <==>
            MountStatus(mbr, s) == Ok && Mounted(lba, s) == Moved(Formatted(vol, TypeFor(vol)), lba)
    ensures MountStatus(mbr, s) in {Ok, WrongType}
  {
    LbaBeginIs(mbr, lba);
    MountAgreesExactlyInBand(s, vol);
    MountReads(s, vol, TypeFor(vol));
    MountedElsewhere(lba, s);
    hide *;
  }

  /** The sizes at the top of the FAT16 range that mount as FAT32. */
  lemma TopOfFat16MountsAsFat32(s: seq<byte>, vol: nat)
    requires 4194151 < vol <= FAT16_LIMIT && BootSector(s, vol, Fat16)
    ensures MountStatus(s, s) == Ok && Mounted(0, s).fatType == Fat32
  {
    assert SectorsPerCluster(vol, Fat16) == 64 && DataSectors(vol, Fat16) == DataSectors16(vol, 64);
    hide DataSectors16;
    hide DataSectors;
    hide Wrap;
    hide MountStatus;
    hide Mounted;
    MountReads(s, vol, Fat16);
    Fat16TopTier(vol);
  }

  /** Data clusters of a mountable volume. */
  function Clusters(vol: nat): nat
    requires vol < UINT32 && Mountable(vol)
  {
    var t := TypeFor(vol);
    if DataSectors(vol, t) < 0 then 0 else DataSectors(vol, t) / SectorsPerCluster(vol, t)
  }

  /** fatfs_lba_of_cluster. */
  function LbaOfCluster(g: Geometry, cluster: nat): nat
  {
    var root := if g.fatType == Fat16 then g.rootEntries * 32 / SECTOR else 0;
    Wrap(g.clusterBegin + root + (cluster - 2) * g.spc)
  }

  /** First sector of the data area. */
  function DataBegin(g: Geometry): nat {
    g.clusterBegin + g.rootEntries * 32 / SECTOR
  }

  /**
   Reserved sectors, both FATs, the FAT16 root directory and the data area follow each
   other inside the volume, and a FAT has an entry for every cluster, with no sector more
   than the whole volume would need.
   */
  lemma RegionsFit(vol: nat)
    requires vol < UINT32 && Mountable(vol)
    ensures var t := TypeFor(vol); var g := Formatted(vol, t);
            && 0 < g.fatBegin && g.fatBegin + 2 * g.fatSectors == g.clusterBegin <= DataBegin(g)
            && DataBegin(g) + Clusters(vol) * g.spc <= vol
            && g.fatSectors * (SECTOR / EntrySize(t)) >= Clusters(vol) + 2
            && (g.fatSectors - 1) * (SECTOR / EntrySize(t)) < vol / g.spc + 2
  {
    var t := TypeFor(vol);
    if t == Fat16 { Fat16Band(vol); } else { Fat32Band(vol); }
    var d, spc := DataSectors(vol, t), SectorsPerCluster(vol, t);
    assert 0 <= d <= vol && spc > 0;
    DivBounds(d, spc);
    DivMonotonic(d, vol, spc);
    FatCapacity(vol, t);
    hide Wrap;
    hide SectorsPerCluster;
    hide FatSectors;
  }

  /** The FAT's size in entries, whatever the cluster size. */
  lemma FatCapacity(vol: nat, t: FatType)
    requires SectorsPerCluster(vol, t) > 0
    ensures FatSectors(vol, t) * (SECTOR / EntrySize(t)) >= vol / SectorsPerCluster(vol, t) + 2
    ensures (FatSectors(vol, t) - 1) * (SECTOR / EntrySize(t)) < vol / SectorsPerCluster(vol, t) + 2
  {
    hide SectorsPerCluster;
    var n := vol / SectorsPerCluster(vol, t);
    if t == Fat16 {
      assert ((n + 1) / 256 + 1) * 256 >= n + 2;
    } else {
      assert ((n + 1) / 128 + 1) * 128 >= n + 2;
    }
  }

  lemma DivBounds(d: nat, m: nat)
    requires m in {1, 2, 4, 8, 16, 32, 64, 128}
    ensures 0 <= d - d / m * m < m
  {
  }

  lemma DivMonotonic(d: nat, e: nat, m: nat)
    requires d <= e && m in {1, 2, 4, 8, 16, 32, 64, 128}
    ensures d / m <= e / m
  {
    DivBounds(d, m);
    DivBounds(e, m);
  }

  /** Sectors of different clusters never coincide, and all of them are in the data area. */
  lemma LbaInjective(vol: nat, c: nat, i: nat, c': nat, i': nat)
    requires vol < UINT32 && Mountable(vol)
    requires 2 <= c < Clusters(vol) + 2 && 2 <= c' < Clusters(vol) + 2
    requires var spc := Formatted(vol, TypeFor(vol)).spc; i < spc && i' < spc
    ensures var g := Formatted(vol, TypeFor(vol));
            && DataBegin(g) <= LbaOfCluster(g, c) + i < vol
            && (LbaOfCluster(g, c) + i == LbaOfCluster(g, c') + i' ==> c == c' && i == i')
  {
    var spc := Formatted(vol, TypeFor(vol)).spc;
    ClusterPlace(vol, c);
    ClusterPlace(vol, c');
    hide *;
    RowMajor(c - 2, i, c' - 2, i', spc);
  }

  lemma RowMajor(a: nat, i: nat, b: nat, j: nat, m: nat)
    requires i < m && j < m
    ensures 0 <= a * m && 0 <= b * m
    ensures a * m + i == b * m + j ==> a == b && i == j
  {
    if a < b { RowBelow(a, b, m); } else if b < a { RowBelow(b, a, m); }
  }

  lemma RowBelow(a: nat, b: nat, m: nat)
    requires a < b
    ensures a * m + m <= b * m
  {
    var k := b - a - 1;
    assert b * m == (a + 1 + k) * m == a * m + m + k * m;
  }

  lemma ClusterPlace(vol: nat, c: nat)
    requires vol < UINT32 && Mountable(vol) && 2 <= c < Clusters(vol) + 2
    ensures var g := Formatted(vol, TypeFor(vol));
            && LbaOfCluster(g, c) == DataBegin(g) + (c - 2) * g.spc
            && LbaOfCluster(g, c) + g.spc <= vol
  {
    hide *;
    SizeSupported(vol);
    RegionsFit(vol);
    var g := Formatted(vol, TypeFor(vol));
    RowBelow(c - 2, Clusters(vol), g.spc);
    ProductNonNegative(c - 2, g.spc);
    DataBehindRoot(vol, TypeFor(vol));
    LbaUnwrapped(g, c);
  }

  lemma ProductNonNegative(a: nat, b: nat)
    ensures 0 <= a * b
  {
  }

  /** Without a root directory of its own a volume has no root entries. */
  lemma DataBehindRoot(vol: nat, t: FatType)
    requires SectorsPerCluster(vol, t) > 0
    ensures Formatted(vol, t).fatType == t && (t == Fat32 ==> Formatted(vol, t).rootEntries == 0)
  {
    hide SectorsPerCluster;
    hide FatSectors;
  }

  lemma LbaUnwrapped(g: Geometry, c: nat)
    requires c >= 2 && 0 <= (c - 2) * g.spc && DataBegin(g) + (c - 2) * g.spc < UINT32
    requires g.fatType == Fat32 ==> g.rootEntries == 0
    ensures LbaOfCluster(g, c) == DataBegin(g) + (c - 2) * g.spc
  {
    WrapSmall(DataBegin(g) + (c - 2) * g.spc);
    hide Wrap;
  }

  /** In a partition every cluster is moved by the partition's first sector. */
  lemma MovedClusters(g: Geometry, lba: nat, cluster: nat)
    requires cluster >= 2
    ensures LbaOfCluster(Moved(g, lba), cluster) == (lba + LbaOfCluster(g, cluster)) % 0x1_0000_0000
  {
    var rest := (if g.fatType == Fat16 then g.rootEntries * 32 / SECTOR else 0) + (cluster - 2) * g.spc;
    assert LbaOfCluster(g, cluster) == Wrap(g.clusterBegin + rest);
    assert LbaOfCluster(Moved(g, lba), cluster) == Wrap((lba + g.clusterBegin) % 0x1_0000_0000 + rest);
    hide LbaOfCluster;
    ModSum(lba, g.clusterBegin, rest);
  }

  lemma ModSum(a: int, b: int, c: int)
    ensures Wrap((a + b) % 0x1_0000_0000 + c) == (a + Wrap(b + c)) % 0x1_0000_0000
  {
    WrapAdds(c, a + b);
    WrapAdds(a, b + c);
  }

  function Le16Bytes(v: nat): (r: seq<byte>)
    ensures |r| == 2
  {
    [v % 256, v / 0x100 % 256]
  }

  function Le32Bytes(v: nat): (r: seq<byte>)
    ensures |r| == 4
  {
    [v % 256, v / 0x100 % 256, v / 0x1_0000 % 256, v / 0x100_0000 % 256]
  }

  function Zeros(n: nat): (r: seq<byte>)
    ensures |r| == n && forall i :: 0 <= i < n ==> r[i] == 0
  {
    seq(n, _ => 0)
  }

  /** Eleven characters: the name, cut or filled up with spaces. */
  function Label(name: seq<byte>): (r: seq<byte>)
    ensures |r| == 11
    ensures forall i :: 0 <= i < 11 ==> r[i] == (if i < |name| then name[i] else 0x20)
  {
    seq(11, i requires 0 <= i => if i < |name| then name[i] else 0x20)
  }

  const OEM: seq<byte> := [0xEB, 0x3C, 0x90, 0x4D, 0x53, 0x44, 0x4F, 0x53, 0x35, 0x2E, 0x30]
  const VOLUME_ID: seq<byte> := [0x29, 0x12, 0x34, 0x56, 0x78]
  const TYPE16: seq<byte> := [0x46, 0x41, 0x54, 0x31, 0x36, 0x20, 0x20, 0x20]
  const TYPE32: seq<byte> := [0x46, 0x41, 0x54, 0x33, 0x32, 0x20, 0x20, 0x20]

  /** Bytes 0..22 of a boot sector. */
  function HeadBytes(vol: nat, t: FatType): (r: seq<byte>)
    ensures |r| == 22
  {
    OEM + Le16Bytes(SECTOR) + [SectorsPerCluster(vol, t)] + Le16Bytes(Reserved(t)) + [2]
    + Le16Bytes(RootEntries(t)) + [0, 0, 0xF8]
  }

  /** The 40 bytes that follow the head for FAT16. */
  function WithTail16(head: seq<byte>, vol: nat, fat: nat, name: seq<byte>): (r: seq<byte>)
    ensures |r| == |head| + 40
  {
    head + Le16Bytes(fat) + [0, 0, 0, 0, 0x20, 0, 0, 0] + Le32Bytes(vol) + [0, 0] + VOLUME_ID + Label(name) + TYPE16
  }

  /** The 30 bytes that follow the head for FAT32. */
  function WithSizes32(head: seq<byte>, vol: nat, fat: nat): (r: seq<byte>)
    ensures |r| == |head| + 30
  {
    head + [0, 0, 0x3F, 0, 0xFF, 0, 0, 0, 0, 0] + Le32Bytes(vol) + Le32Bytes(fat) + [0, 0, 0, 0] + Le32Bytes(2)
    + Le16Bytes(1) + [6, 0]
  }

  /** The 38 bytes that follow the sizes for FAT32. */
  function WithTail32(sizes: seq<byte>, name: seq<byte>): (r: seq<byte>)
    ensures |r| == |sizes| + 38
  {
    sizes + Zeros(14) + VOLUME_ID + Label(name) + TYPE32
  }

  /** The boot sector that formatting writes, byte by byte. */
  function BootBytes(vol: nat, t: FatType, name: seq<byte>): (r: seq<byte>)
    requires SectorsPerCluster(vol, t) > 0
    ensures |r| == SECTOR
  {
    var head, fat := HeadBytes(vol, t), FatSectors(vol, t);
    if t == Fat16 then WithTail16(head, vol, fat, name) + Zeros(448) + [0x55, 0xAA]
    else WithTail32(WithSizes32(head, vol, fat), name) + Zeros(420) + [0x55, 0xAA]
  }

  lemma HeadFields(vol: nat, t: FatType)
    ensures var h := HeadBytes(vol, t);
            && Le16(h, 11) == SECTOR && h[13] as int == SectorsPerCluster(vol, t) && Le16(h, 14) == Reserved(t)
            && h[16] == 2 && Le16(h, 17) == RootEntries(t) && Le16(h, 19) == 0
  {
  }

  lemma Le32At(s: seq<byte>, at: nat, v: nat)
    requires at + 4 <= |s| && v < UINT32 && s[at..at + 4] == Le32Bytes(v)
    ensures Le32(s, at) == v
  {
    Be32Digits(v);
    var f := s[at..at + 4];
    assert f[0] == s[at] && f[1] == s[at + 1] && f[2] == s[at + 2] && f[3] == s[at + 3];
  }

  lemma Tail16Fields(head: seq<byte>, vol: nat, fat: nat, name: seq<byte>)
    requires |head| == 22 && vol < UINT32 && fat < 0x1_0000
    ensures var s := WithTail16(head, vol, fat, name);
            s[..22] == head && Le16(s, 22) == fat && Le32(s, 32) == vol
  {
    var s := WithTail16(head, vol, fat, name);
    assert s[32..36] == Le32Bytes(vol);
    Le32At(s, 32, vol);
  }

  lemma Sizes32Fields(head: seq<byte>, vol: nat, fat: nat)
    requires |head| == 22 && vol < UINT32 && fat < UINT32
    ensures var s := WithSizes32(head, vol, fat);
            && s[..22] == head && Le16(s, 22) == 0 && Le32(s, 32) == vol && Le32(s, 36) == fat
            && Le32(s, 44) == 2 && Le16(s, 48) == 1
  {
    var s := WithSizes32(head, vol, fat);
    assert s[32..36] == Le32Bytes(vol) && s[36..40] == Le32Bytes(fat) && s[44..48] == Le32Bytes(2);
    Le32At(s, 32, vol);
    Le32At(s, 36, fat);
    Le32At(s, 44, 2);
  }

  /** The written boot sector has the fields that mounting looks at. */
  lemma BootBytesFields(vol: nat, t: FatType, name: seq<byte>)
    requires vol < UINT32 && SectorsPerCluster(vol, t) > 0
    ensures BootSector(BootBytes(vol, t, name), vol, t)
  {
    hide HeadBytes;
    hide WithTail16;
    hide WithSizes32;
    hide FatSectors;
    hide SectorsPerCluster;
    var s, head, fat := BootBytes(vol, t, name), HeadBytes(vol, t), FatSectors(vol, t);
    HeadFields(vol, t);
    FatSectorsBound(vol, t);
    if t == Fat16 {
      Tail16Fields(head, vol, fat, name);
      assert s[..62] == WithTail16(head, vol, fat, name);
      FieldsOfPrefix(s, 62, head);
    } else {
      Sizes32Fields(head, vol, fat);
      assert s[..52] == WithSizes32(head, vol, fat);
      FieldsOfPrefix(s, 52, head);
    }
    assert s[450] == 0 && s[510] == 0x55 && s[511] == 0xAA;
  }

  /** Where the fields of the written boot sector are, as bytes. */
  lemma BootLayout(vol: nat, t: FatType, name: seq<byte>)
    requires vol < UINT32 && SectorsPerCluster(vol, t) > 0
    ensures var s, spc, f := BootBytes(vol, t, name), SectorsPerCluster(vol, t), FatSectors(vol, t);
            && s[..13] == [0xEB, 0x3C, 0x90, 0x4D, 0x53, 0x44, 0x4F, 0x53, 0x35, 0x2E, 0x30, 0, 2]
            && s[13..22] == (if t == Fat16 then [spc, 8, 0, 2, 0, 2, 0, 0, 0xF8] else [spc, 32, 0, 2, 0, 0, 0, 0, 0xF8])
            && s[32..36] == [vol % 256, vol / 0x100 % 256, vol / 0x1_0000 % 256, vol / 0x100_0000]
            && (t == Fat16 ==> s[22..24] == [f % 256, f / 0x100])
            && (t == Fat32 ==> && s[22..24] == [0, 0] && s[44..50] == [2, 0, 0, 0, 1, 0]
                               && s[36..40] == [f % 256, f / 0x100 % 256, f / 0x1_0000 % 256, f / 0x100_0000])
            && s[510..512] == [0x55, 0xAA]
  {
    hide HeadBytes;
    hide WithTail16;
    hide WithSizes32;
    hide FatSectors;
    hide SectorsPerCluster;
    var s, head, fat := BootBytes(vol, t, name), HeadBytes(vol, t), FatSectors(vol, t);
    FatSectorsBound(vol, t);
    HeadLayout(vol, t);
    if t == Fat16 {
      TailLayout16(head, vol, fat, name);
      Within(s, WithTail16(head, vol, fat, name));
    } else {
      SizesLayout32(head, vol, fat);
      Within(s, WithSizes32(head, vol, fat));
    }
  }

  lemma HeadLayout(vol: nat, t: FatType)
    ensures var h, spc := HeadBytes(vol, t), SectorsPerCluster(vol, t);
            && h[..13] == [0xEB, 0x3C, 0x90, 0x4D, 0x53, 0x44, 0x4F, 0x53, 0x35, 0x2E, 0x30, 0, 2]
            && h[13..22] == if t == Fat16 then [spc, 8, 0, 2, 0, 2, 0, 0, 0xF8] else [spc, 32, 0, 2, 0, 0, 0, 0, 0xF8]
  {
    hide SectorsPerCluster;
  }

  lemma TailLayout16(head: seq<byte>, vol: nat, fat: nat, name: seq<byte>)
    requires |head| == 22 && vol < UINT32 && fat < 0x1_0000
    ensures var s := WithTail16(head, vol, fat, name);
            && s[..22] == head && s[22..24] == [fat % 256, fat / 0x100]
            && s[32..36] == [vol % 256, vol / 0x100 % 256, vol / 0x1_0000 % 256, vol / 0x100_0000]
  {
  }

  lemma SizesLayout32(head: seq<byte>, vol: nat, fat: nat)
    requires |head| == 22 && vol < UINT32 && fat < UINT32
    ensures var s := WithSizes32(head, vol, fat);
            && s[..22] == head && s[22..24] == [0, 0] && s[44..50] == [2, 0, 0, 0, 1, 0]
            && s[32..36] == [vol % 256, vol / 0x100 % 256, vol / 0x1_0000 % 256, vol / 0x100_0000]
            && s[36..40] == [fat % 256, fat / 0x100 % 256, fat / 0x1_0000 % 256, fat / 0x100_0000]
  {
    LittleEndian(vol);
    LittleEndian(fat);
    assert Le32Bytes(2) + Le16Bytes(1) == [2, 0, 0, 0, 1, 0];
    hide Le32Bytes;
    hide Le16Bytes;
    var s := WithSizes32(head, vol, fat);
    assert s[32..36] == Le32Bytes(vol) && s[36..40] == Le32Bytes(fat);
    assert s[44..50] == Le32Bytes(2) + Le16Bytes(1);
  }

  lemma LittleEndian(v: nat)
    requires v < UINT32
    ensures Le32Bytes(v) == [v % 256, v / 0x100 % 256, v / 0x1_0000 % 256, v / 0x100_0000]
  {
  }

  /** Slices of a prefix are slices of the whole. */
  lemma Within(s: seq<byte>, front: seq<byte>)
    requires 50 <= |front| && front <= s
    ensures s[..13] == front[..22][..13] && s[13..22] == front[..22][13..22]
    ensures s[22..24] == front[22..24] && s[32..36] == front[32..36]
    ensures s[36..40] == front[36..40] && s[44..50] == front[44..50]
  {
  }

  /**
   The boot sector that formatting writes, read by a mount: same type and geometry exactly
   for FAT32 sizes and for FAT16 sizes in the band.
   */
  lemma FormattedVolumeMounts(vol: nat, name: seq<byte>)
    requires vol < UINT32
    ensures SectorsPerCluster(vol, TypeFor(vol)) > 0
    ensures var s := BootBytes(vol, TypeFor(vol), name);
            && LbaBegin(s) == 0
            && (Mountable(vol) <==> MountStatus(s, s) == Ok && Mounted(0, s) == Formatted(vol, TypeFor(vol)))
            && (4194151 < vol <= FAT16_LIMIT ==> MountStatus(s, s) == Ok && Mounted(0, s).fatType == Fat32)
            && (TypeFor(vol) == Fat32 ==> Le16(s, 48) == 1)
  {
    hide *;
    SizeSupported(vol);
    BootBytesFields(vol, TypeFor(vol), name);
    var s := BootBytes(vol, TypeFor(vol), name);
    MountAgreesExactlyInBand(s, vol);
    InfoSector(s, vol, TypeFor(vol));
    if 4194151 < vol <= FAT16_LIMIT {
      TypeUpToLimit(vol);
      TopOfFat16MountsAsFat32(s, vol);
    }
  }

  lemma InfoSector(s: seq<byte>, vol: nat, t: FatType)
    requires SectorsPerCluster(vol, t) > 0 && BootSector(s, vol, t)
    ensures |s| == SECTOR && (t == Fat32 ==> Le16(s, 48) == 1)
  {
  }

  lemma TypeUpToLimit(vol: nat)
    ensures vol <= FAT16_LIMIT <==> TypeFor(vol) == Fat16
  {
  }

  /** Reading fields of a sector and of a prefix of it. */
  lemma FieldsOfPrefix(s: seq<byte>, n: nat, head: seq<byte>)
    requires 50 <= n <= |s| && |head| == 22 && s[..n][..22] == head
    ensures forall i :: 0 <= i < 22 ==> s[i] == head[i]
    ensures forall i :: 0 <= i < n ==> s[i] == s[..n][i]
  {
    assert forall i :: 0 <= i < 22 ==> s[..n][..22][i] == s[i];
  }
}
