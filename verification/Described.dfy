/** Volumes described byte by byte: boot sector, FAT entries, root directory and files at their places
    in the image. What is written there is what the reader lists and reads through the root. */
module Described {
  import opened Bytes
  import opened Wrappers
  import opened Fat
  import opened Boot
  import opened BootProofs
  import opened Slots
  import opened Image
  import opened Volume
  import opened FileMap
  import opened Fs
  import opened FsProofs
  import opened Links
  import opened ShortRecords
  import opened EndToEnd
  import DirentProofs
  import Exfat
  import ExfatProofs
  import Handles
  import Rereading
  import Text

  // ----- Bytes in their places -----

  /** The image holds these bytes at this offset. */
  predicate At(image: seq<u8>, off: nat, bytes: seq<u8>) {
    off + |bytes| <= |image| && image[off..off + |bytes|] == bytes
  }

  /** The image holds `data` in clusters `w` of `size` bytes, cluster 2 at `start`: byte p in cluster
      w[p / size], at p % size. */
  predicate InClusters(image: seq<u8>, start: nat, size: nat, w: seq<u32>, data: seq<u8>)
    requires size > 0
  {
    forall p | 0 <= p < |data| ::
      p / size < |w| && w[p / size] >= 2 && HasByte(image, start, size, w[p / size], p % size, data[p])
  }

  predicate HasByte(image: seq<u8>, start: nat, size: nat, c: u32, j: nat, x: u8)
    requires c >= 2
  {
    var a := start + (c - 2) * size + j;
    a < |image| && image[a] == x
  }

  lemma ByteIsStored(v: Vol, w: seq<u32>, data: seq<u8>, p: nat)
    requires Sound(v) && InClusters(v.image, v.geom.dataStart, v.geom.clusterSize, w, data) && p < |data|
    ensures p < |ChainAddrs(v.geom, w)| && ChainAddrs(v.geom, w)[p] < |v.image|
    ensures v.image[ChainAddrs(v.geom, w)[p]] == data[p]
  {
    hide HasByte, OffsetOf, ChainAddrs;
    var size := v.geom.clusterSize;
    assert HasByte(v.image, v.geom.dataStart, size, w[p / size], p % size, data[p]);
    AddrAt(v.geom, w, p);
    ByteInImage(v, w[p / size], p % size, data[p]);
  }

  lemma ByteInImage(v: Vol, c: u32, j: nat, x: u8)
    requires Sound(v) && c >= 2 && HasByte(v.image, v.geom.dataStart, v.geom.clusterSize, c, j, x)
    ensures OffsetOf(v.geom, c) + j < |v.image| && v.image[OffsetOf(v.geom, c) + j] == x
  {
    OffsetExists(v.geom, c);
  }

  lemma ClustersStore(v: Vol, w: seq<u32>, data: seq<u8>)
    requires Sound(v) && InClusters(v.image, v.geom.dataStart, v.geom.clusterSize, w, data)
    ensures Stores(v, w, data)
  {
    hide InClusters, ChainAddrs;
    if data != [] { ByteIsStored(v, w, data, |data| - 1); }
    forall p | 0 <= p < |data|
      ensures ChainAddrs(v.geom, w)[p] < |v.image| && v.image[ChainAddrs(v.geom, w)[p]] == data[p]
    {
      ByteIsStored(v, w, data, p);
    }
  }

  // ----- Directories -----

  /** The 64 MiB of a directory that are read, counted in whole clusters. */
  predicate IsShort(w: seq<u32>, size: nat) { w == [] || (|w| - 1) * size < 67_108_864 }

  /** A directory whose clusters hold `dir` throughout is read as `dir`. */
  lemma StoredDirectory(v: Vol, w: seq<u32>, dir: seq<u8>)
    requires Sound(v) && InClusters(v.image, v.geom.dataStart, v.geom.clusterSize, w, dir)
    requires |dir| == |w| * v.geom.clusterSize && IsShort(w, v.geom.clusterSize) && forall c | c in w :: c >= 2
    ensures Gather(v, w, []) == dir
  {
    var size := v.geom.clusterSize;
    ClustersStore(v, w, dir);
    StoredIsBacked(v, w, dir);
    Rereading.BackedDirectory(v, w);
    hide Gather, InClusters, Stores;
    var bytes, content := Gather(v, w, []), Content(v.image, v.geom, w, Span(|w|, size));
    StoredContent(v, w, dir);
    assert |bytes| == |Values(bytes)| == |dir|;
    forall p | 0 <= p < |dir| ensures bytes[p] == dir[p] { assert Values(bytes)[p] == content[p]; }
  }

  /** A longer one is cut behind the first cluster that reaches 64 MiB. */
  lemma LongDirectoryIsCut(v: Vol, w: seq<u32>, dir: seq<u8>, m: nat)
    requires Sound(v) && InClusters(v.image, v.geom.dataStart, v.geom.clusterSize, w, dir)
    requires |dir| == |w| * v.geom.clusterSize && forall c | c in w :: c >= 2
    requires 0 < m <= |w| && (m - 1) * v.geom.clusterSize < 67_108_864 <= m * v.geom.clusterSize
    ensures m * v.geom.clusterSize <= |dir| && Gather(v, w, []) == dir[..m * v.geom.clusterSize]
  {
    var size := v.geom.clusterSize;
    MulLe(m, |w|, size);
    FirstClusters(v.image, v.geom.dataStart, size, w, dir, m);
    assert forall c | c in w[..m] :: c in w;
    hide InClusters, Gather;
    StoredDirectory(v, w[..m], dir[..m * size]);
    assert w == w[..m] + w[m..];
    Rereading.GatherSplit(v, w[..m], w[m..], []);
    NothingMore(v, w[m..], dir[..m * size]);
  }

  lemma NothingMore(v: Vol, clusters: seq<u32>, out: seq<u8>)
    requires |out| >= 67_108_864
    ensures Gather(v, clusters, out) == out
  {}

  lemma FirstClusters(image: seq<u8>, start: nat, size: nat, w: seq<u32>, dir: seq<u8>, m: nat)
    requires size > 0 && m <= |w| && m * size <= |dir| && InClusters(image, start, size, w, dir)
    ensures InClusters(image, start, size, w[..m], dir[..m * size])
  {
    hide HasByte;
    var cut := dir[..m * size];
    forall p | 0 <= p < |cut|
      ensures p / size < m && w[..m][p / size] >= 2
      ensures HasByte(image, start, size, w[..m][p / size], p % size, cut[p])
    {
      assert HasByte(image, start, size, w[p / size], p % size, dir[p]);
      PositionInChain(p, m, size);
    }
  }

  lemma StoredContent(v: Vol, w: seq<u32>, dir: seq<u8>)
    requires Stores(v, w, dir)
    ensures Content(v.image, v.geom, w, |dir|) == Values(dir)
  {}

  lemma StoredIsBacked(v: Vol, w: seq<u32>, dir: seq<u8>)
    requires Sound(v) && Stores(v, w, dir) && |dir| == Span(|w|, v.geom.clusterSize) && forall c | c in w :: c >= 2
    ensures Backed(v, w)
  {
    forall i | 0 <= i < |w| ensures w[i] >= 2 && OffsetOf(v.geom, w[i]) + v.geom.clusterSize <= |v.image| {
      assert w[i] in w;
      AddrInCluster(v.geom, w, i, v.geom.clusterSize - 1);
    }
  }

  // ----- FAT12/16/32 volumes -----

  function FatVariantOf(b: Fields): FatVariant
    requires IsBpb(b) && UsedSectors(b) <= b.totalSectors
  {
    VariantByCount(ClusterCount(b))
  }

  /** A FAT of `size` bytes at `start` begins with these entries, of which at most 256 MiB. */
  ghost predicate HasTable(image: seq<u8>, start: nat, size: nat, variant: FatVariant, es: seq<nat>) {
    && AreEntries(variant, es) && |Table(variant, es)| <= size && |Table(variant, es)| <= 268_435_456
    && At(image, start, Table(variant, es))
  }

  /** The image begins with this boot sector, and the FAT behind the reserved sectors with these
      entries. */
  ghost predicate IsFatVolume(image: seq<u8>, b: Fields, rootCluster: u32, es: seq<nat>) {
    && IsBpb(b) && UsedSectors(b) <= b.totalSectors && At(image, 0, BootSector(b, rootCluster))
    && HasTable(image, Span(b.reservedSectors, b.bytesPerSector), Span(b.fatSizeSectors, b.bytesPerSector),
                FatVariantOf(b), es)
  }

  lemma TableInWindow(image: seq<u8>, off: nat, len: nat, table: seq<u8>)
    requires At(image, off, table) && |table| <= len
    ensures table <= Window(image, off, len)
  {
    if table != [] {
      assert forall i | 0 <= i < |table| :: image[off..off + |table|][i] == table[i] == image[off + i];
    }
  }

  lemma NotExfat(b: Fields, rootCluster: u32)
    requires IsBpb(b)
    ensures !Exfat.HasSignature(BootSector(b, rootCluster))
  {
    assert BootSector(b, rootCluster)[3..11][0] == 0;
  }

  /** Such an image opens as the volume its boot sector lays out, with these entries in its FAT. */
  lemma FatVolumeOpens(image: seq<u8>, b: Fields, rootCluster: u32, es: seq<nat>) returns (v: Vol)
    requires IsFatVolume(image, b, rootCluster, es)
    ensures Opened(image) == Ok(v) && v.image == image && Lays(b, rootCluster, v.geom) && Sound(v)
    ensures IsFat(v) && Table(v.geom.variant, es) <= v.fat
  {
    hide Lays, Table, AreEntries, BootSector, IsBpb, Parse, Exfat.ParseBoot;
    BootRoundTrip(b, rootCluster);
    NotExfat(b, rootCluster);
    assert image[..512] == BootSector(b, rootCluster);
    v := Opened(image).value;
    OpenedIsSound(image);
    LaidOut(b, rootCluster, v.geom);
    TableInWindow(
      image, v.geom.fatStart, Min(Span(v.geom.fatSizeSectors, v.geom.bytesPerSector), MAX_FAT_BYTES),
      Table(v.geom.variant, es));
  }

  lemma LaidOut(b: Fields, rootCluster: u32, g: Geometry)
    requires IsBpb(b) && UsedSectors(b) <= b.totalSectors && Lays(b, rootCluster, g)
    ensures g.variant == FatVariantOf(b) && g.variant != ExFat && g.fatStart == b.reservedSectors * b.bytesPerSector
    ensures g.fatSizeSectors == b.fatSizeSectors && g.bytesPerSector == b.bytesPerSector
    ensures g.clusterSize == b.bytesPerSector * b.sectorsPerCluster > 0
    ensures g.dataStart == UsedSectors(b) * b.bytesPerSector
    ensures g.countOfClusters == ClusterCount(b)
  {}

  /** No more than the first 256 MiB of a FAT are held: an entry that does not end by then reads as 0. */
  lemma LongFatIsCut(image: seq<u8>, v: Vol, c: u32)
    requires Opened(image) == Ok(v) && EntryOffset(v.geom.variant, c) + EntryWidth(v.geom.variant) > 268_435_456
    ensures |v.fat| <= 268_435_456 && FatEntry(v.fat, v.geom.variant, c) == 0
  {}

  /** Clusters of the volume linked in the FAT, from `first` on. */
  ghost predicate AreLinked(variant: FatVariant, count: nat, es: seq<nat>, first: u32, w: seq<u32>) {
    IsLinked(variant, es, w) && w[0] == first && forall c | c in w :: c <= count + 1
  }

  lemma LinkedWalk(v: Vol, es: seq<nat>, first: u32, w: seq<u32>)
    requires AreEntries(v.geom.variant, es) && Table(v.geom.variant, es) <= v.fat
    requires AreLinked(v.geom.variant, v.geom.countOfClusters, es, first, w)
    ensures IsGoodWalk(v, w) && w != [] && w[0] == first && 2 <= first < 0x0FFF_FFF7 && forall c | c in w :: c >= 2
  {
    hide Table;
    LinkedIsWalk(v.fat, v.geom.variant, es, w);
  }

  /** The root directory is `dir`: on FAT32 in the clusters linked from the one the boot sector names,
      else the whole sectors between the last FAT and the data. */
  ghost predicate IsFatRoot(image: seq<u8>, b: Fields, rootCluster: u32, es: seq<nat>, w: seq<u32>, dir: seq<u8>)
    requires IsBpb(b) && UsedSectors(b) <= b.totalSectors
  {
    var bps, size := b.bytesPerSector, b.bytesPerSector * b.sectorsPerCluster;
    if FatVariantOf(b) == Fat32 then
      && size > 0 && AreLinked(Fat32, ClusterCount(b), es, rootCluster, w) && |dir| == |w| * size && IsShort(w, size)
      && InClusters(image, UsedSectors(b) * bps, size, w, dir)
    else
      var start := (b.reservedSectors + b.numFats * b.fatSizeSectors) * bps;
      start + |dir| == UsedSectors(b) * bps && At(image, start, dir)
  }

  /** The handle whose parent is this cluster of the root, or 0xFFFFFFFF for the fixed root. */
  function RootMarker(b: Fields, rootCluster: u32): u32
    requires IsBpb(b) && UsedSectors(b) <= b.totalSectors
  {
    if FatVariantOf(b) == Fat32 then rootCluster else 0xFFFF_FFFF
  }

  /** The root of such a volume is read, and re-read through its handles, as that directory. */
  lemma FatRootIsRead(
    image: seq<u8>, b: Fields, rootCluster: u32, es: seq<nat>, w: seq<u32>, dir: seq<u8>, v: Vol)
    returns (source: DirSource)
    requires IsFatVolume(image, b, rootCluster, es) && IsFatRoot(image, b, rootCluster, es, w, dir)
    requires v.image == image && Lays(b, rootCluster, v.geom) && Sound(v) && Table(v.geom.variant, es) <= v.fat
    ensures SourceOf(v, Root) == Ok(source) && SourceMarker(source) == RootMarker(b, rootCluster)
    ensures DirBytes(v, source) == dir && Handles.Rereads(v, source)
  {
    LaidOut(b, rootCluster, v.geom);
    source := RootSource(v.geom);
    hide Table, AreEntries, BootSector;
    if v.geom.variant == Fat32 {
      LinkedWalk(v, es, rootCluster, w);
      WalkIsClusters(v, w, 0);
      hide InClusters, AreLinked, IsGoodWalk;
      StoredDirectory(v, w, dir);
    } else {
      assert Window(image, v.geom.rootDirStart, v.geom.rootDirBytes) == dir;
    }
    Handles.AddressableRereads(v, source);
  }

  /** Every read of the root itself, on FAT32, returns the directory's bytes. */
  lemma Fat32RootData(
    image: seq<u8>, b: Fields, rootCluster: u32, es: seq<nat>, w: seq<u32>, dir: seq<u8>, v: Vol)
    requires IsFatVolume(image, b, rootCluster, es) && IsFatRoot(image, b, rootCluster, es, w, dir)
    requires v.image == image && Lays(b, rootCluster, v.geom) && Sound(v) && Table(v.geom.variant, es) <= v.fat
    requires FatVariantOf(b) == Fat32
    ensures ReadsAs(v, Root, dir)
  {
    LaidOut(b, rootCluster, v.geom);
    hide Table, AreEntries, BootSector, Lays;
    LinkedWalk(v, es, rootCluster, w);
    WalkIsClusters(v, w, 0);
    ClustersStore(v, w, dir);
    hide InClusters, AreLinked, IsGoodWalk, Stores, ReadsAs, Clusters;
    StoredRootReads(v, w, dir);
  }

  lemma StoredRootReads(v: Vol, w: seq<u32>, dir: seq<u8>)
    requires v.geom.clusterSize > 0 && RootIsClustered(v.geom) && Stores(v, w, dir)
    requires Clusters(v, v.geom.rootCluster, 0, false) == w && |dir| == |w| * v.geom.clusterSize
    ensures ReadsAs(v, Root, dir)
  {
    hide Stores, Content, ReadOf, Slice, Clusters;
    forall off: nat, len: nat
      ensures ReadOf(Content(v.image, v.geom, w, |dir|), off, len) == Slice(dir, off, len)
    {
      StoredDataReads(v, w, dir, off, len);
    }
  }

  /** A fixed root has the length of its region but no chain, and one run, the region. */
  lemma FixedRootData(
    image: seq<u8>, b: Fields, rootCluster: u32, es: seq<nat>, w: seq<u32>, dir: seq<u8>, v: Vol, runs: seq<Run>)
    requires IsFatVolume(image, b, rootCluster, es) && IsFatRoot(image, b, rootCluster, es, w, dir)
    requires Lays(b, rootCluster, v.geom) && v.geom.clusterSize > 0 && FatVariantOf(b) != Fat32
    ensures DataExtent(v, Root) == Ok(Extent([], |dir|))
    ensures |dir| > 0 && AreRuns(v, Extent([], |dir|), runs) ==>
              runs == [Run((b.reservedSectors + b.numFats * b.fatSizeSectors) * b.bytesPerSector, |dir|)]
  {}

  /** Every read of this handle returns the data. */
  ghost predicate ReadsAs(v: Vol, id: FileId, data: seq<u8>)
    requires v.geom.clusterSize > 0
  {
    DataExtent(v, id).Ok? && var e := DataExtent(v, id).value;
    forall off: nat, len: nat ::
      ReadOf(Content(v.image, v.geom, e.chain, e.total), off, len) == Slice(data, off, len)
  }

  /** The clusters and the data of a file: none below cluster 2; as long as its size, or for size 0 as
      its clusters. */
  ghost predicate IsFatFile(
    image: seq<u8>, b: Fields, es: seq<nat>, f: ShortFields, w: seq<u32>, data: seq<u8>)
    requires IsBpb(b) && UsedSectors(b) <= b.totalSectors
  {
    var size := b.bytesPerSector * b.sectorsPerCluster;
    && size > 0 && (if f.firstCluster < 2 then w == []
                    else AreLinked(FatVariantOf(b), ClusterCount(b), es, f.firstCluster, w))
    && |data| == (if f.size > 0 then f.size else |w| * size)
    && InClusters(image, UsedSectors(b) * b.bytesPerSector, size, w, data)
  }

  /** A file written into the root of a FAT12/16/32 image - boot sector, FAT entries, record and data
      at their places - is found in the root by its name, and every read returns its data. */
  lemma FatRootFileReadsBack(
    image: seq<u8>, b: Fields, rootCluster: u32, es: seq<nat>, rw: seq<u32>, dir: seq<u8>, before: seq<Slot>,
    it: DirentProofs.Item, after: seq<Slot>, f: ShortFields, sn: ShortName, w: seq<u32>, data: seq<u8>) returns (v: Vol)
    requires IsFatVolume(image, b, rootCluster, es) && IsFatRoot(image, b, rootCluster, es, rw, dir)
    requires HoldsRecord(SlotsOf(dir), before, it, after) && IsRecordOf(it, f, sn) && RecordSlot(before, it) <= 65_535
    requires !it.Removed? && f.attributes / 8 % 2 == 0 && NoneBefore(before, NameOf(it, f, sn))
    requires IsFatFile(image, b, es, f, w, data)
    ensures Opened(image) == Ok(v) && v.geom.clusterSize > 0 && ReadsBack(v, Root, NameOf(it, f, sn), data)
  {
    v := FatVolumeOpens(image, b, rootCluster, es);
    var source := FatRootIsRead(image, b, rootCluster, es, rw, dir, v);
    LaidOut(b, rootCluster, v.geom);
    if f.firstCluster >= 2 { LinkedWalk(v, es, f.firstCluster, w); }
    ClustersStore(v, w, data);
    hide Handles.Rereads, HoldsRecord, IsRecordOf, NoneBefore, Stores, IsGoodWalk, ReadsBack, NameOf, RecordSlot;
    hide InClusters, AreLinked, IsFatVolume, IsFatRoot, Lays, Table;
    WrittenFileReadsBack(v, Root, source, before, it, after, f, sn, w, data);
  }

  // ----- exFAT volumes -----

  /** 2 to the power of a shift. */
  function Size(shift: nat): (n: nat)
    ensures n > 0
  {
    if shift == 0 then 1 else 2 * Size(shift - 1)
  }

  lemma {:induction false} SizeIsPow2(shift: nat)
    ensures Size(shift) == Exfat.Pow2(shift)
  {
    if shift > 0 { SizeIsPow2(shift - 1); }
  }

  /** The image begins with this exFAT boot sector, and the FAT at its offset with these entries. */
  ghost predicate IsExfatVolume(image: seq<u8>, b: ExfatFields, es: seq<nat>) {
    && IsExfat(b) && At(image, 0, ExfatBootSector(b))
    && HasTable(image, Span(b.fatOffset, Size(b.bpsShift)), Span(b.fatLength, Size(b.bpsShift)), ExFat, es)
  }

  function ExfatClusterSize(b: ExfatFields): nat { Size(b.bpsShift) * Size(b.spcShift) }

  lemma ExfatLaidOut(b: ExfatFields, g: Geometry)
    requires Describes(b, g)
    ensures g.variant == ExFat && g.countOfClusters == b.count && g.rootCluster == b.rootCluster
    ensures g.clusterSize == ExfatClusterSize(b) > 0 && g.dataStart == b.heapOffset * Size(b.bpsShift)
    ensures g.fatStart == b.fatOffset * Size(b.bpsShift) && g.bytesPerSector == Size(b.bpsShift)
    ensures g.fatSizeSectors == b.fatLength
  {
    SizeIsPow2(b.bpsShift);
    SizeIsPow2(b.spcShift);
  }

  lemma SectorHasSignature(b: ExfatFields)
    ensures Exfat.HasSignature(ExfatBootSector(b))
  {
    ExfatSectorReads(b);
  }

  lemma ExfatVolumeOpens(image: seq<u8>, b: ExfatFields, es: seq<nat>) returns (v: Vol)
    requires IsExfatVolume(image, b, es)
    ensures Opened(image) == Ok(v) && v.image == image && Describes(b, v.geom) && Sound(v)
    ensures !IsFat(v) && Table(ExFat, es) <= v.fat
  {
    hide Describes, Table, AreEntries, ExfatBootSector, IsExfat, Parse, Exfat.ParseBoot;
    ExfatBootRoundTrip(b);
    SectorHasSignature(b);
    assert image[..512] == ExfatBootSector(b);
    v := Opened(image).value;
    OpenedIsSound(image);
    ExfatLaidOut(b, v.geom);
    TableInWindow(
      image, v.geom.fatStart, Min(Span(v.geom.fatSizeSectors, v.geom.bytesPerSector), MAX_FAT_BYTES), Table(ExFat, es));
  }

  /** The root directory is `dir`, in the clusters linked from the one the boot sector names. */
  ghost predicate IsExfatRoot(image: seq<u8>, b: ExfatFields, es: seq<nat>, w: seq<u32>, dir: seq<u8>) {
    var size := ExfatClusterSize(b);
    && size > 0 && AreLinked(ExFat, b.count, es, b.rootCluster, w) && |dir| == |w| * size && IsShort(w, size)
    && InClusters(image, b.heapOffset * Size(b.bpsShift), size, w, dir)
  }

  lemma ExfatRootIsRead(
    image: seq<u8>, b: ExfatFields, es: seq<nat>, w: seq<u32>, dir: seq<u8>, v: Vol) returns (source: DirSource)
    requires IsExfatVolume(image, b, es) && IsExfatRoot(image, b, es, w, dir)
    requires v.image == image && Describes(b, v.geom) && Sound(v) && Table(ExFat, es) <= v.fat
    ensures SourceOf(v, Root) == Ok(source) && SourceMarker(source) == b.rootCluster
    ensures DirBytes(v, source) == dir && Rereading.RereadSlots(v, source) == SlotsOf(dir)
  {
    ExfatLaidOut(b, v.geom);
    source := RootSource(v.geom);
    hide Table, AreEntries, ExfatBootSector, Describes;
    LinkedWalk(v, es, b.rootCluster, w);
    WalkIsClusters(v, w, 0);
    hide InClusters, AreLinked, IsGoodWalk;
    StoredDirectory(v, w, dir);
  }

  /** Every read of the root itself returns the directory's bytes. */
  lemma ExfatRootData(image: seq<u8>, b: ExfatFields, es: seq<nat>, w: seq<u32>, dir: seq<u8>, v: Vol)
    requires IsExfatVolume(image, b, es) && IsExfatRoot(image, b, es, w, dir)
    requires v.image == image && Describes(b, v.geom) && Sound(v) && Table(ExFat, es) <= v.fat
    ensures ReadsAs(v, Root, dir)
  {
    ExfatLaidOut(b, v.geom);
    hide Table, AreEntries, ExfatBootSector, Describes;
    LinkedWalk(v, es, b.rootCluster, w);
    WalkIsClusters(v, w, 0);
    ClustersStore(v, w, dir);
    hide InClusters, AreLinked, IsGoodWalk, Stores, ReadsAs, Clusters;
    StoredRootReads(v, w, dir);
  }

  /** The clusters and the data of a file set: consecutive clusters if its NoFatChain bit is set and
      its size is not zero, none below cluster 2, else linked ones. */
  ghost predicate IsExfatFile(
    image: seq<u8>, b: ExfatFields, es: seq<nat>, f: ExfatProofs.FileSet, w: seq<u32>, data: seq<u8>)
  {
    var size := ExfatClusterSize(b);
    && size > 0
    && (if f.firstCluster < 2 then w == []
        else if f.flags / 2 % 2 == 1 && f.size > 0 then AreConsecutive(b.count, f.size, size, f.firstCluster, w)
        else AreLinked(ExFat, b.count, es, f.firstCluster, w))
    && |data| == (if f.size > 0 then f.size else |w| * size)
    && InClusters(image, b.heapOffset * Size(b.bpsShift), size, w, data)
  }

  lemma CeilIs(size: nat, n: nat, unit: nat)
    requires unit > 0 && n > 0 && (n - 1) * unit < size <= n * unit
    ensures DivCeil(size, unit) == n
  {
    CeilBounds(size, unit);
    var q := DivCeil(size, unit);
    if q < n { MulLe(q, n - 1, unit); }
    if q > n { MulLe(n + 1, q, unit); }
  }

  /** These are the consecutive clusters of an extent of this size. */
  predicate AreConsecutive(count: nat, size: nat, clusterSize: nat, first: nat, w: seq<u32>) {
    && w != [] && first + |w| <= count + 2 && (|w| - 1) * clusterSize < size <= |w| * clusterSize
    && forall i | 0 <= i < |w| :: w[i] == first + i
  }

  lemma ConsecutiveClusters(v: Vol, first: u32, size: u64, w: seq<u32>)
    requires Sound(v) && first >= 2 && size > 0
    requires AreConsecutive(v.geom.countOfClusters, size, v.geom.clusterSize, first, w)
    ensures Clusters(v, first, size, true) == w
  {
    CeilIs(size, |w|, v.geom.clusterSize);
    assert w[|w| - 1] == first + |w| - 1;
    assert Contiguous(first, |w|, v.maxClusters) == w;
  }

  lemma ExfatFileClusters(
    v: Vol, image: seq<u8>, b: ExfatFields, es: seq<nat>, f: ExfatProofs.FileSet, w: seq<u32>, data: seq<u8>)
    requires v.image == image && Describes(b, v.geom) && Sound(v) && AreEntries(ExFat, es) && Table(ExFat, es) <= v.fat
    requires IsExfatFile(image, b, es, f, w, data)
    ensures Clusters(v, f.firstCluster, f.size, ExfatProofs.IsContiguous(f)) == w
  {
    ExfatLaidOut(b, v.geom);
    hide Table, AreEntries, InClusters, Describes, AreConsecutive, AreLinked;
    if f.firstCluster >= 2 {
      if f.flags / 2 % 2 == 1 && f.size > 0 {
        ConsecutiveClusters(v, f.firstCluster, f.size, w);
      } else {
        LinkedWalk(v, es, f.firstCluster, w);
        hide Clusters;
        WalkIsClusters(v, w, f.size);
        ChainedClusters(v, f.firstCluster, f.size, ExfatProofs.IsContiguous(f));
      }
    }
  }

  lemma ChainedClusters(v: Vol, first: u32, size: u64, contiguous: bool)
    requires v.geom.clusterSize > 0 && !(contiguous && size > 0)
    ensures Clusters(v, first, size, contiguous) == Clusters(v, first, size, false)
  {}

  /** A file set written into the root of an exFAT image is found in the root by its name, and every
      read returns its data. */
  lemma ExfatRootFileReadsBack(
    image: seq<u8>, b: ExfatFields, es: seq<nat>, rw: seq<u32>, dir: seq<u8>, before: seq<Slot>,
    f: ExfatProofs.FileSet, after: seq<Slot>, w: seq<u32>, data: seq<u8>) returns (v: Vol)
    requires IsExfatVolume(image, b, es) && IsExfatRoot(image, b, es, rw, dir)
    requires HoldsFileSet(SlotsOf(dir), before, f, after) && |before| <= 65_535
    requires !f.deleted && NoSetBefore(before, Text.FromUtf16Lossy(f.units)) && IsExfatFile(image, b, es, f, w, data)
    ensures Opened(image) == Ok(v) && v.geom.clusterSize > 0
    ensures ReadsBack(v, Root, Text.FromUtf16Lossy(f.units), data)
  {
    v := ExfatVolumeOpens(image, b, es);
    var source := ExfatRootIsRead(image, b, es, rw, dir, v);
    ExfatLaidOut(b, v.geom);
    ExfatFileClusters(v, image, b, es, f, w, data);
    ClustersStore(v, w, data);
    hide HoldsFileSet, NoSetBefore, Stores, ReadsBack, InClusters, IsExfatVolume, IsExfatRoot, Describes;
    hide Table, Clusters;
    SetBegins(SlotsOf(dir), before, f, after);
    ExfatFileReadsBack(v, Root, source, before, f, after, data);
  }

  lemma SetBegins(slots: seq<Slot>, before: seq<Slot>, f: ExfatProofs.FileSet, after: seq<Slot>)
    requires HoldsFileSet(slots, before, f, after)
    ensures ExfatProofs.IsFileSet(f) && before + ExfatProofs.EncodeSet(f) <= slots
  {}
}
