/** Boot sectors written field by field parse back; which volumes are accepted, how many
    clusters they have, and whether cluster numbers can collide with FAT markers. */
module BootProofs {
  import opened Bytes
  import opened Wrappers
  import opened Fat
  import opened Boot
  import Exfat

  // ----- FAT12/16/32 -----

  /** Sector and cluster sizes a parameter block may hold. */
  predicate IsSectorSize(n: nat) { n == 512 || n == 1024 || n == 2048 || n == 4096 }

  predicate IsClusterSectors(n: nat) {
    n == 1 || n == 2 || n == 4 || n == 8 || n == 16 || n == 32 || n == 64 || n == 128
  }

  /** Fields a boot sector can carry. */
  predicate IsBpb(f: Fields) {
    && IsSectorSize(f.bytesPerSector) && IsClusterSectors(f.sectorsPerCluster)
    && 1 <= f.reservedSectors <= 0xFFFF && 1 <= f.numFats <= 0xFF && f.rootEntryCount <= 0xFFFF
    && 1 <= f.fatSizeSectors <= 0xFFFF_FFFF && 1 <= f.totalSectors <= 0xFFFF_FFFF
  }

  lemma {:induction false} PowersOfTwo(n: nat)
    requires n <= 4096
    ensures IsPowerOfTwo(n) <==> IsClusterSectors(n) || n == 256 || IsSectorSize(n)
  {
    if n > 1 { PowersOfTwo(n / 2); }
  }

  /** The 16-bit form of a count, 0 when it does not fit and the 32-bit field is used. */
  function Small(n: nat): u16 { if n < 0x1_0000 then n else 0 }

  /** The first 64 bytes of a boot sector with these fields. */
  function Header(f: Fields, rootCluster: u32): (h: seq<u8>)
    requires IsBpb(f)
    ensures |h| == 64
  {
    [0xEB, 0x3C, 0x90] + Zeros(8) + ToLe16(f.bytesPerSector) + [f.sectorsPerCluster] + ToLe16(f.reservedSectors)
    + [f.numFats] + ToLe16(f.rootEntryCount) + ToLe16(Small(f.totalSectors)) + [0xF8]
    + ToLe16(Small(f.fatSizeSectors)) + Zeros(8) + ToLe32(f.totalSectors) + ToLe32(f.fatSizeSectors)
    + Zeros(4) + ToLe32(rootCluster) + Zeros(16)
  }

  function BootSector(f: Fields, rootCluster: u32): (b: seq<u8>)
    requires IsBpb(f)
    ensures |b| == 512
  {
    Header(f, rootCluster) + Zeros(446) + [0x55, 0xAA]
  }

  lemma HeaderDecodes(f: Fields, rootCluster: u32)
    requires IsBpb(f)
    ensures var h := Header(f, rootCluster);
            && LeU16(h, 11) == f.bytesPerSector && h[13] == f.sectorsPerCluster && LeU16(h, 14) == f.reservedSectors
            && h[16] == f.numFats && LeU16(h, 17) == f.rootEntryCount && LeU16(h, 19) == Small(f.totalSectors)
            && LeU16(h, 22) == Small(f.fatSizeSectors)
  {
    var h := Header(f, rootCluster);
    assert h[11] == f.bytesPerSector % 0x100 && h[12] == f.bytesPerSector / 0x100;
    assert h[14] == f.reservedSectors % 0x100 && h[15] == f.reservedSectors / 0x100;
    assert h[17] == f.rootEntryCount % 0x100 && h[18] == f.rootEntryCount / 0x100;
    assert h[19] == Small(f.totalSectors) % 0x100 && h[20] == Small(f.totalSectors) / 0x100;
    assert h[22] == Small(f.fatSizeSectors) % 0x100 && h[23] == Small(f.fatSizeSectors) / 0x100;
  }

  lemma HeaderWideDecodes(f: Fields, rootCluster: u32)
    requires IsBpb(f)
    ensures var h := Header(f, rootCluster);
            LeU32(h, 32) == f.totalSectors && LeU32(h, 36) == f.fatSizeSectors && LeU32(h, 44) == rootCluster
  {
    var h := Header(f, rootCluster);
    var t, s, r := ToLe32(f.totalSectors), ToLe32(f.fatSizeSectors), ToLe32(rootCluster);
    assert h == h[..32] + t + h[36..];
    LeInside(h[..32], t, h[36..]);
    assert h == h[..36] + s + h[40..];
    LeInside(h[..36], s, h[40..]);
    assert h == h[..44] + r + h[48..];
    LeInside(h[..44], r, h[48..]);
  }

  lemma PrefixReads(h: seq<u8>, rest: seq<u8>, off: nat)
    ensures off < |h| ==> U8At(h + rest, off) == h[off]
    ensures off + 2 <= |h| ==> LeU16(h + rest, off) == LeU16(h, off)
    ensures off + 4 <= |h| ==> LeU32(h + rest, off) == LeU32(h, off)
  {}

  /** The fields at their places in any boot sector; a zero 16-bit count gives way to the 32-bit one. */
  function FieldsAt(boot: seq<u8>): Fields
    requires |boot| == 512
  {
    Fields(
      LeU16(boot, 11), boot[13], LeU16(boot, 14), boot[16], LeU16(boot, 17),
      if LeU16(boot, 22) != 0 then LeU16(boot, 22) as nat else LeU32(boot, 36),
      if LeU16(boot, 19) != 0 then LeU16(boot, 19) as nat else LeU32(boot, 32))
  }

  lemma FieldsAreRead(boot: seq<u8>)
    requires |boot| == 512
    ensures ReadFields(boot).Ok? <==> boot[510] == 0x55 && boot[511] == 0xAA && IsBpb(FieldsAt(boot))
    ensures ReadFields(boot).Ok? ==> ReadFields(boot) == Ok(FieldsAt(boot))
  {
    var bps, spc := LeU16(boot, 11), boot[13];
    if bps <= 4096 { PowersOfTwo(bps); }
    PowersOfTwo(spc);
    assert LeU16(boot, 510) == 0xAA55 <==> boot[510] == 0x55 && boot[511] == 0xAA;
    hide IsPowerOfTwo;
  }

  lemma SectorReads(f: Fields, rootCluster: u32)
    requires IsBpb(f)
    ensures var b := BootSector(f, rootCluster);
            && b[510] == 0x55 && b[511] == 0xAA && LeU32(b, 44) == rootCluster
            && LeU16(b, 11) == f.bytesPerSector && b[13] == f.sectorsPerCluster && LeU16(b, 14) == f.reservedSectors
            && b[16] == f.numFats && LeU16(b, 17) == f.rootEntryCount && LeU16(b, 19) == Small(f.totalSectors)
            && LeU16(b, 22) == Small(f.fatSizeSectors) && LeU32(b, 32) == f.totalSectors
            && LeU32(b, 36) == f.fatSizeSectors
  {
    HeaderDecodes(f, rootCluster);
    HeaderWideDecodes(f, rootCluster);
    var h, rest := Header(f, rootCluster), Zeros(446) + [0x55, 0xAA];
    var b := BootSector(f, rootCluster);
    assert b == h + rest && b[510] == 0x55 && b[511] == 0xAA;
    hide Header, BootSector, IsBpb, Small;
    PrefixReads(h, rest, 11); PrefixReads(h, rest, 13); PrefixReads(h, rest, 14); PrefixReads(h, rest, 16);
    PrefixReads(h, rest, 17); PrefixReads(h, rest, 19); PrefixReads(h, rest, 22); PrefixReads(h, rest, 32);
    PrefixReads(h, rest, 36); PrefixReads(h, rest, 44);
  }

  /** Any BIOS parameter block in range reads back field by field. */
  lemma FieldsRoundTrip(f: Fields, rootCluster: u32)
    requires IsBpb(f)
    ensures ReadFields(BootSector(f, rootCluster)) == Ok(f)
    ensures LeU32(BootSector(f, rootCluster), 44) == rootCluster
  {
    hide ReadFields, BootSector;
    SectorReads(f, rootCluster);
    FieldsAreRead(BootSector(f, rootCluster));
  }

  // ----- What a parameter block says of the volume -----

  /** Sectors before the data: reserved ones, the FATs, and the root directory's 32-byte entries
      rounded up. */
  function UsedSectors(f: Fields): nat
    requires IsBpb(f)
  {
    f.reservedSectors + f.numFats * f.fatSizeSectors + (32 * f.rootEntryCount + f.bytesPerSector - 1) / f.bytesPerSector
  }

  /** Whole clusters in the sectors left. */
  function ClusterCount(f: Fields): nat
    requires IsBpb(f) && UsedSectors(f) <= f.totalSectors
  {
    (f.totalSectors - UsedSectors(f)) / f.sectorsPerCluster
  }

  function VariantByCount(n: nat): FatVariant { if n < 4085 then Fat12 else if n < 65525 then Fat16 else Fat32 }

  /** The volume these fields describe: FAT12 below 4085 clusters, FAT16 below 65525, else FAT32. The
      FAT begins behind the reserved sectors; on FAT12/16 the root region stands between the last FAT
      and the data, on FAT32 the root is the cluster the boot sector names. */
  predicate Lays(f: Fields, rootCluster: u32, g: Geometry)
    requires IsBpb(f) && UsedSectors(f) <= f.totalSectors
  {
    var n, bps := ClusterCount(f), f.bytesPerSector;
    && g.variant == VariantByCount(n)
    && g.countOfClusters == n && g.bytesPerSector == bps && g.clusterSize == bps * f.sectorsPerCluster
    && g.numFats == f.numFats && g.fatSizeSectors == f.fatSizeSectors && g.totalSectors == f.totalSectors
    && g.fatStart == f.reservedSectors * bps && g.dataStart == UsedSectors(f) * bps
    && if g.variant == Fat32 then g.rootCluster == rootCluster && g.rootDirBytes == 0
       else
         && g.rootDirStart == (f.reservedSectors + f.numFats * f.fatSizeSectors) * bps
         && g.rootDirStart + g.rootDirBytes == g.dataStart
  }

  lemma BlockIsLaid(f: Fields, rootCluster: u32)
    requires IsBpb(f)
    ensures UsedSectors(f) == MetaSectors(f)
    ensures UsedSectors(f) <= f.totalSectors ==> Lays(f, rootCluster, Resolve(f, rootCluster))
  {
    SameSectors(f);
    if UsedSectors(f) <= f.totalSectors {
      hide UsedSectors;
      Distribute(FatSectors(f), RootDirSectors(f), f.bytesPerSector);
      RootFitsWidth(f);
    }
  }

  lemma SameSectors(f: Fields)
    requires IsBpb(f)
    ensures UsedSectors(f) == MetaSectors(f)
  {}

  lemma RootFitsWidth(f: Fields)
    requires IsBpb(f)
    ensures RootDirSectors(f) * f.bytesPerSector <= U32_MAX
  {
    CeilBounds(32 * f.rootEntryCount, f.bytesPerSector);
  }

  /** A written boot sector is accepted exactly when its metadata fits the volume, and then gives the
      volume its fields describe. */
  lemma BootRoundTrip(f: Fields, rootCluster: u32)
    requires IsBpb(f)
    ensures var g := Parse(BootSector(f, rootCluster));
            && (g.Ok? <==> UsedSectors(f) <= f.totalSectors)
            && (g.Ok? ==> Lays(f, rootCluster, g.value))
  {
    hide ReadFields, BootSector, Lays, Resolve, UsedSectors;
    FieldsRoundTrip(f, rootCluster);
    BlockIsLaid(f, rootCluster);
  }

  /** Any boot sector is accepted exactly when it is signed, its fields are ones a parameter block may
      hold, and the metadata fits; and it then gives the volume they describe. */
  lemma AcceptedIff(boot: seq<u8>)
    requires |boot| == 512
    ensures Parse(boot).Ok? <==>
            boot[510] == 0x55 && boot[511] == 0xAA && IsBpb(FieldsAt(boot))
            && UsedSectors(FieldsAt(boot)) <= FieldsAt(boot).totalSectors
    ensures Parse(boot).Ok? ==> Lays(FieldsAt(boot), LeU32(boot, 44), Parse(boot).value)
  {
    var f := FieldsAt(boot);
    FieldsAreRead(boot);
    hide ReadFields, Lays, Resolve, UsedSectors, FieldsAt;
    if IsBpb(f) { BlockIsLaid(f, LeU32(boot, 44)); }
  }

  lemma WholeUnits(data: nat, spc: nat)
    requires spc > 0
    ensures data < (data / spc + 1) * spc
  {
    assert data == spc * (data / spc) + data % spc;
  }

  /** The cluster count is exactly the number of whole clusters the data region holds. */
  lemma CountIsMaximal(f: Fields, rootCluster: u32)
    requires InRanges(f) && MetaSectors(f) <= f.totalSectors
    ensures var g := Resolve(f, rootCluster);
            VolumeEnd(g) < g.dataStart + Span(g.countOfClusters + 1, g.clusterSize)
  {
    var g, data := Resolve(f, rootCluster), f.totalSectors - MetaSectors(f);
    var spc, bps := f.sectorsPerCluster, f.bytesPerSector;
    CountIsQuotient(data, spc);
    WholeUnits(data, spc);
    Distribute(data, MetaSectors(f), bps);
    StrictScale(data, (data / spc + 1) * spc, bps);
    Reassociate(data / spc + 1, spc, bps);
  }

  lemma CountIsQuotient(data: nat, spc: nat)
    requires spc > 0 && data <= U32_MAX
    ensures Min(data / spc, U32_MAX) == data / spc
  {}

  lemma StrictScale(a: nat, b: nat, c: nat)
    requires a < b && c > 0
    ensures a * c < b * c
  {}

  lemma Reassociate(a: nat, b: nat, c: nat)
    ensures a * b * c == Span(a, c * b)
  {}

  // ----- Markers -----

  /** Cluster numbers of the volume can be told from FAT markers. */
  ghost predicate NumbersAreNotMarkers(g: Geometry) {
    forall c: u32 | 2 <= c <= g.countOfClusters + 1 :: !Stops(g.variant, c)
  }

  /** On an accepted FAT12 or FAT16 volume no cluster number is a bad-cluster or end marker; on FAT32
      and exFAT that holds exactly below 0x0FFFFFF6 clusters. */
  lemma MarkersAreNotClusters(boot: seq<u8>, g: Geometry)
    requires Parse(boot) == Ok(g) || Exfat.ParseBoot(boot) == Ok(g)
    ensures g.variant == Fat12 || g.variant == Fat16 ==> NumbersAreNotMarkers(g)
    ensures NumbersAreNotMarkers(g) <==> g.countOfClusters + 1 < EocThreshold(g.variant) - 1
  {
    if Parse(boot) == Ok(g) {
      AcceptedIsLaidOut(boot);
      CountMatchesVariant(boot, g);
    } else {
      Exfat.AcceptedFits(boot);
    }
    hide Parse, Exfat.ParseBoot;
    if g.countOfClusters + 1 >= EocThreshold(g.variant) - 1 {
      var bad: u32 := EocThreshold(g.variant) - 1;
      assert Stops(g.variant, bad);
    }
  }

  lemma CountMatchesVariant(boot: seq<u8>, g: Geometry)
    requires Parse(boot) == Ok(g)
    ensures g.variant == VariantOf(g.countOfClusters) && 0 <= g.countOfClusters <= U32_MAX
  {}

  // ----- exFAT -----

  datatype ExfatFields = ExfatFields(
    totalSectors: u64, fatOffset: u32, fatLength: u32, heapOffset: u32, count: u32, rootCluster: u32,
    bpsShift: u8, spcShift: u8, numFats: u8)

  function ExfatHeader(f: ExfatFields): (h: seq<u8>)
    ensures |h| == 111
  {
    [0xEB, 0x76, 0x90, 0x45, 0x58, 0x46, 0x41, 0x54, 0x20, 0x20, 0x20] + Zeros(61) + ToLe64(f.totalSectors)
    + ToLe32(f.fatOffset) + ToLe32(f.fatLength) + ToLe32(f.heapOffset) + ToLe32(f.count) + ToLe32(f.rootCluster)
    + Zeros(8) + [f.bpsShift, f.spcShift, f.numFats]
  }

  function ExfatBootSector(f: ExfatFields): (b: seq<u8>)
    ensures |b| == 512
  {
    ExfatHeader(f) + Zeros(399) + [0x55, 0xAA]
  }

  lemma FieldAt(h: seq<u8>, off: nat, field: seq<u8>)
    requires off + |field| <= |h| && h[off..off + |field|] == field
    ensures |field| == 4 ==> LeU32(h, off) == LeU32(field, 0)
    ensures |field| == 8 ==> LeU64(h, off) == LeU64(field, 0)
  {
    assert h == h[..off] + field + h[off + |field|..];
    LeInside(h[..off], field, h[off + |field|..]);
  }

  lemma ExfatHeaderDecodes(f: ExfatFields)
    ensures var h := ExfatHeader(f);
            && Exfat.HasSignature(h) && LeU64(h, 72) == f.totalSectors && LeU32(h, 80) == f.fatOffset
            && LeU32(h, 84) == f.fatLength && LeU32(h, 88) == f.heapOffset && LeU32(h, 92) == f.count
            && LeU32(h, 96) == f.rootCluster && h[108] == f.bpsShift && h[109] == f.spcShift && h[110] == f.numFats
  {
    var h := ExfatHeader(f);
    assert h[3..11] == [0x45, 0x58, 0x46, 0x41, 0x54, 0x20, 0x20, 0x20];
    FieldAt(h, 72, ToLe64(f.totalSectors));
    FieldAt(h, 80, ToLe32(f.fatOffset));
    FieldAt(h, 84, ToLe32(f.fatLength));
    FieldAt(h, 88, ToLe32(f.heapOffset));
    FieldAt(h, 92, ToLe32(f.count));
    FieldAt(h, 96, ToLe32(f.rootCluster));
  }

  /** The fields an exFAT boot sector may hold. */
  predicate IsExfat(f: ExfatFields) {
    && 9 <= f.bpsShift <= 12 && f.bpsShift as int + f.spcShift as int <= 25 && 1 <= f.numFats <= 2
    && 2 <= f.rootCluster <= f.count as int + 1
  }

  /** The geometry the fields describe. */
  predicate Describes(f: ExfatFields, g: Geometry) {
    && g.variant == ExFat && g.bytesPerSector == Exfat.Pow2(f.bpsShift)
    && g.clusterSize == Span(Exfat.Pow2(f.bpsShift), Exfat.Pow2(f.spcShift)) && g.numFats == f.numFats
    && g.totalSectors == f.totalSectors && g.fatSizeSectors == f.fatLength && g.countOfClusters == f.count
    && g.rootCluster == f.rootCluster && g.fatStart == Span(f.fatOffset, g.bytesPerSector)
    && g.dataStart == Span(f.heapOffset, g.bytesPerSector) && g.rootDirBytes == 0
  }

  lemma ExfatSectorReads(f: ExfatFields)
    ensures var b := ExfatBootSector(f);
            && Exfat.HasSignature(b) && LeU16(b, 510) == 0xAA55 && LeU64(b, 72) == f.totalSectors
            && LeU32(b, 80) == f.fatOffset && LeU32(b, 84) == f.fatLength && LeU32(b, 88) == f.heapOffset
            && LeU32(b, 92) == f.count && LeU32(b, 96) == f.rootCluster && U8At(b, 108) == f.bpsShift
            && U8At(b, 109) == f.spcShift && U8At(b, 110) == f.numFats
  {
    ExfatHeaderDecodes(f);
    var h, rest := ExfatHeader(f), Zeros(399) + [0x55, 0xAA];
    var b := ExfatBootSector(f);
    assert b == h + rest && b[510] == 0x55 && b[511] == 0xAA && b[3..11] == h[3..11];
    hide ExfatHeader, ExfatBootSector;
    PrefixReads(h, rest, 72); PrefixReads(h, rest, 76); PrefixReads(h, rest, 80); PrefixReads(h, rest, 84);
    PrefixReads(h, rest, 88); PrefixReads(h, rest, 92); PrefixReads(h, rest, 96); PrefixReads(h, rest, 108);
    PrefixReads(h, rest, 109); PrefixReads(h, rest, 110);
  }

  /** A written exFAT boot sector is accepted exactly when its fields are in range, and then
      describes the geometry it was written from. */
  lemma ExfatBootRoundTrip(f: ExfatFields)
    ensures Exfat.ParseBoot(ExfatBootSector(f)).Ok? <==> IsExfat(f)
    ensures IsExfat(f) ==> Describes(f, Exfat.ParseBoot(ExfatBootSector(f)).value)
  {
    hide ExfatBootSector;
    ExfatSectorReads(f);
  }

  /** The fields at their places in any exFAT boot sector. */
  function ExfatFieldsAt(boot: seq<u8>): ExfatFields
    requires |boot| == 512
  {
    ExfatFields(LeU64(boot, 72), LeU32(boot, 80), LeU32(boot, 84), LeU32(boot, 88), LeU32(boot, 92), LeU32(boot, 96),
                boot[108], boot[109], boot[110])
  }

  /** Any boot sector is accepted as exFAT exactly when it bears the name, is signed, and its fields
      are in range; and it then describes the geometry they give. */
  lemma ExfatAcceptedIff(boot: seq<u8>)
    requires |boot| == 512
    ensures Exfat.ParseBoot(boot).Ok? <==>
            boot[3..11] == [0x45, 0x58, 0x46, 0x41, 0x54, 0x20, 0x20, 0x20]
            && boot[510] == 0x55 && boot[511] == 0xAA && IsExfat(ExfatFieldsAt(boot))
    ensures Exfat.ParseBoot(boot).Ok? ==> Describes(ExfatFieldsAt(boot), Exfat.ParseBoot(boot).value)
  {
    assert LeU16(boot, 510) == 0xAA55 <==> boot[510] == 0x55 && boot[511] == 0xAA;
  }
}
