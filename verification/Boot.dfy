/** The BIOS Parameter Block: range checks, geometry, FAT-type decision, volume layout. */
module Boot {
  import opened Bytes
  import opened Wrappers
  import opened Fat

  const FAT12_MAX_CLUSTERS := 4085
  const FAT16_MAX_CLUSTERS := 65525

  datatype Geometry = Geometry(
    variant: FatVariant, bytesPerSector: nat, sectorsPerCluster: nat, clusterSize: nat, reservedSectors: nat,
    numFats: nat, fatSizeSectors: nat, rootEntryCount: nat, totalSectors: nat, rootCluster: u32,
    countOfClusters: nat, fatStart: nat, rootDirStart: nat, rootDirBytes: nat, dataStart: nat)

  datatype Fields = Fields(
    bytesPerSector: nat, sectorsPerCluster: nat, reservedSectors: nat, numFats: nat, rootEntryCount: nat,
    fatSizeSectors: nat, totalSectors: nat)

  predicate IsPowerOfTwo(n: nat) { n == 1 || (n > 0 && n % 2 == 0 && IsPowerOfTwo(n / 2)) }

  function DivCeil(a: nat, b: nat): nat
    requires b > 0
  {
    (a + b - 1) / b
  }

  /** The ranges the field checks leave. */
  predicate InRanges(f: Fields) {
    && 512 <= f.bytesPerSector <= 4096 && 1 <= f.sectorsPerCluster <= 128
    && 1 <= f.reservedSectors <= 0xFFFF && 1 <= f.numFats <= 0xFF && f.rootEntryCount <= 0xFFFF
    && 1 <= f.fatSizeSectors <= U32_MAX && 1 <= f.totalSectors <= U32_MAX
  }

  function ReadFields(boot: seq<u8>): (r: Result<Fields>)
    ensures r.Ok? ==> InRanges(r.value)
  {
    var bps := LeU16(boot, 11);
    var spc := U8At(boot, 13);
    var reserved := LeU16(boot, 14);
    var fats := U8At(boot, 16);
    var fatSize := if LeU16(boot, 22) != 0 then LeU16(boot, 22) as nat else LeU32(boot, 36);
    var total := if LeU16(boot, 19) != 0 then LeU16(boot, 19) as nat else LeU32(boot, 32);
    if LeU16(boot, 510) != 0xAA55 then Err(InvalidBoot("signature"))
    else if !IsPowerOfTwo(bps) || !(512 <= bps <= 4096) then Err(InvalidBoot("bytes per sector"))
    else if !IsPowerOfTwo(spc) || !(1 <= spc <= 128) then Err(InvalidBoot("sectors per cluster"))
    else if reserved == 0 then Err(InvalidBoot("reserved sectors"))
    else if fats == 0 then Err(InvalidBoot("number of FATs"))
    else if fatSize == 0 then Err(InvalidBoot("FAT size"))
    else if total == 0 then Err(InvalidBoot("total sectors"))
    else Ok(Fields(bps, spc, reserved, fats, LeU16(boot, 17), fatSize, total))
  }

  function VariantOf(count: nat): FatVariant {
    if count < FAT12_MAX_CLUSTERS then Fat12 else if count < FAT16_MAX_CLUSTERS then Fat16 else Fat32
  }

  function RootDirSectors(f: Fields): nat
    requires InRanges(f)
  {
    DivCeil(f.rootEntryCount * 32, f.bytesPerSector)
  }

  function FatSectors(f: Fields): nat { f.reservedSectors + f.numFats * f.fatSizeSectors }

  function MetaSectors(f: Fields): nat
    requires InRanges(f)
  {
    FatSectors(f) + RootDirSectors(f)
  }

  /** Offsets and type of a volume with these fields; `rootCluster` is read on FAT32 only. */
  function Resolve(f: Fields, rootCluster: u32): Geometry
    requires InRanges(f) && MetaSectors(f) <= f.totalSectors
  {
    var bps := f.bytesPerSector;
    var count := Min((f.totalSectors - MetaSectors(f)) / f.sectorsPerCluster, U32_MAX);
    var variant := VariantOf(count);
    var is32 := variant == Fat32;
    Geometry(
      variant, bps, f.sectorsPerCluster, bps * f.sectorsPerCluster, f.reservedSectors, f.numFats,
      f.fatSizeSectors, if is32 then 0 else f.rootEntryCount, f.totalSectors,
      if is32 then rootCluster else 0, count,
      f.reservedSectors * bps,
      if is32 then 0 else FatSectors(f) * bps,
      if is32 then 0 else Min(RootDirSectors(f) * bps, U32_MAX),
      MetaSectors(f) * bps)
  }

  function Parse(boot: seq<u8>): Result<Geometry> {
    var f :- ReadFields(boot);
    if MetaSectors(f) > f.totalSectors then Err(InvalidBoot("reserved, FATs and root exceed the total"))
    else Ok(Resolve(f, LeU32(boot, 44)))
  }

  /** Bytes of `count` clusters of a size. */
  function Span(count: nat, size: nat): nat { count * size }

  /** Byte offset of a cluster in the data region, with checked 64-bit arithmetic. */
  function ClusterOffset(g: Geometry, cluster: u32): Option<nat> {
    if cluster < 2 then None
    else
      var off := g.dataStart + Span(cluster - 2, g.clusterSize);
      if off < 0x1_0000_0000_0000_0000 then Some(off) else None
  }

  // ----- The layout of an accepted volume -----

  ghost function FatEnd(g: Geometry): nat { g.fatStart + g.numFats * g.fatSizeSectors * g.bytesPerSector }

  /** Reserved sectors, FATs, root region and data lie one after the other. */
  ghost predicate MetaInOrder(g: Geometry) {
    && 0 < g.fatStart == g.reservedSectors * g.bytesPerSector
    && g.fatStart < FatEnd(g) <= g.dataStart
    && (g.variant != Fat32 ==> g.rootDirStart == FatEnd(g) && g.rootDirStart + g.rootDirBytes == g.dataStart)
    && (g.variant != Fat32 ==> 32 * g.rootEntryCount <= g.rootDirBytes)
    && (g.variant == Fat32 ==> g.rootDirStart == g.rootDirBytes == 0)
  }

  ghost function VolumeEnd(g: Geometry): nat { g.totalSectors * g.bytesPerSector }

  /** The data clusters end inside the volume. */
  ghost predicate DataInVolume(g: Geometry) {
    g.dataStart + Span(g.countOfClusters, g.clusterSize) <= VolumeEnd(g)
  }

  /** No quantity of the geometry leaves its integer width, nor does any cluster end. */
  ghost predicate Fits(g: Geometry) {
    && 1 <= g.clusterSize <= 0x200_0000 && g.countOfClusters <= U32_MAX && g.rootDirBytes <= U32_MAX
    && g.fatStart < 0x8000_0000_0000_0000 && g.rootDirStart < 0x8000_0000_0000_0000
    && g.dataStart < 0x8000_0000_0000_0000
  }

  lemma MulLe(a: nat, b: nat, c: nat)
    requires a <= b
    ensures a * c <= b * c && c * a <= c * b
  {}

  lemma Distribute(a: nat, b: nat, c: nat)
    ensures (a + b) * c == a * c + b * c
  {}

  lemma CeilBounds(a: nat, b: nat)
    requires b > 0
    ensures a <= DivCeil(a, b) * b < a + b
  {
    var q := (a + b - 1) / b;
    assert q * b == (a + b - 1) - (a + b - 1) % b;
  }

  lemma DataClustersFit(data: nat, spc: nat, bps: nat)
    requires spc > 0
    ensures data / spc * (bps * spc) <= data * bps
  {
    var q := data / spc;
    assert q * spc <= data;
    MulLe(q * spc, data, bps);
    assert q * (bps * spc) == q * spc * bps;
  }

  /** Every accepted FAT12/16/32 boot sector lays its volume out in order, without overlap
      and without integer overflow. */
  lemma AcceptedIsLaidOut(boot: seq<u8>)
    requires Parse(boot).Ok?
    ensures var g := Parse(boot).value;
            MetaInOrder(g) && DataInVolume(g) && Fits(g) && g.variant != ExFat
  {
    var f := ReadFields(boot).value;
    ResolvedMeta(f, LeU32(boot, 44));
    ResolvedData(f, LeU32(boot, 44));
    ResolvedFits(f, LeU32(boot, 44));
  }

  lemma RootRegion(f: Fields)
    requires InRanges(f)
    ensures 32 * f.rootEntryCount <= RootDirSectors(f) * f.bytesPerSector <= 0x20_0FFF
  {
    CeilBounds(f.rootEntryCount * 32, f.bytesPerSector);
  }

  lemma ResolvedMeta(f: Fields, rootCluster: u32)
    requires InRanges(f) && MetaSectors(f) <= f.totalSectors
    ensures MetaInOrder(Resolve(f, rootCluster))
  {
    var bps, fats := f.bytesPerSector, f.numFats * f.fatSizeSectors;
    RootRegion(f);
    MulLe(1, f.fatSizeSectors, f.numFats);
    MulLe(1, fats, bps);
    MulLe(1, f.reservedSectors, bps);
    Distribute(f.reservedSectors, fats, bps);
    Distribute(FatSectors(f), RootDirSectors(f), bps);
  }

  lemma ResolvedData(f: Fields, rootCluster: u32)
    requires InRanges(f) && MetaSectors(f) <= f.totalSectors
    ensures DataInVolume(Resolve(f, rootCluster))
  {
    var g, data := Resolve(f, rootCluster), f.totalSectors - MetaSectors(f);
    DataClustersFit(data, f.sectorsPerCluster, f.bytesPerSector);
    MulLe(g.countOfClusters, data / f.sectorsPerCluster, g.clusterSize);
    Distribute(data, MetaSectors(f), f.bytesPerSector);
  }

  lemma ResolvedFits(f: Fields, rootCluster: u32)
    requires InRanges(f) && MetaSectors(f) <= f.totalSectors
    ensures Fits(Resolve(f, rootCluster))
  {
    var bps := f.bytesPerSector;
    ClusterSizeBounds(bps, f.sectorsPerCluster);
    SectorBytes(f.reservedSectors, bps);
    SectorBytes(FatSectors(f), bps);
    SectorBytes(MetaSectors(f), bps);
  }

  lemma SectorBytes(sectors: nat, bps: nat)
    requires sectors <= U32_MAX && bps <= 4096
    ensures sectors * bps < 0x1000_0000_0000
  {
    MulLe(sectors, U32_MAX, bps);
    MulLe(bps, 4096, U32_MAX);
  }

  lemma ClusterSizeBounds(bps: nat, spc: nat)
    requires 512 <= bps <= 4096 && 1 <= spc <= 128
    ensures 1 <= bps * spc <= 0x8_0000
  {
    MulLe(bps, 4096, spc);
    MulLe(1, spc, bps);
  }

  /** Every cluster number has an offset below 2^63: the checked arithmetic never fails. */
  lemma OffsetExists(g: Geometry, c: u32)
    requires Fits(g) && c >= 2
    ensures ClusterOffset(g, c) == Some(g.dataStart + Span(c - 2, g.clusterSize))
    ensures ClusterOffset(g, c).value + g.clusterSize < 0x1_0000_0000_0000_0000
  {
    MulLe(c - 2, U32_MAX, g.clusterSize);
    MulLe(g.clusterSize, 0x200_0000, U32_MAX);
  }

  /** The clusters of the volume lie inside the data region, below the end of the volume. */
  lemma ClusterInsideData(g: Geometry, c: u32)
    requires DataInVolume(g) && Fits(g) && 2 <= c <= g.countOfClusters + 1
    ensures ClusterOffset(g, c).Some?
    ensures g.dataStart <= ClusterOffset(g, c).value
    ensures ClusterOffset(g, c).value + g.clusterSize <= VolumeEnd(g)
  {
    OffsetExists(g, c);
    ClusterEnd(c - 2, g.countOfClusters, g.clusterSize);
  }

  lemma ClusterEnd(a: nat, count: nat, size: nat)
    requires a + 1 <= count
    ensures Span(a, size) + size <= Span(count, size)
  {
    Distribute(a, 1, size);
    MulLe(a + 1, count, size);
  }

  /** Different clusters occupy disjoint byte ranges. */
  lemma ClustersDisjoint(g: Geometry, c: u32, d: u32)
    requires Fits(g) && 2 <= c < d
    ensures ClusterOffset(g, c).Some? && ClusterOffset(g, d).Some?
    ensures ClusterOffset(g, c).value + g.clusterSize <= ClusterOffset(g, d).value
  {
    OffsetExists(g, c);
    OffsetExists(g, d);
    ClusterEnd(c - 2, d - 2, g.clusterSize);
  }
}
