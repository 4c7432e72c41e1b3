/** What the audit reports of volumes described byte by byte: deleted entries under the names they
    spell, and integrity findings by the bytes that differ. */
module Reported {
  import opened Bytes
  import opened Wrappers
  import opened Boot
  import opened BootProofs
  import opened Slots
  import opened Image
  import opened Volume
  import opened Fs
  import opened Links
  import opened ShortRecords
  import opened EndToEnd
  import opened Described
  import opened Walk
  import opened Audit
  import Dirent
  import DirentProofs
  import Exfat
  import ExfatProofs
  import FsProofs
  import Text

  // ----- What is walked -----

  /** A written record is reported if it is deleted, and descended into if it is live, a directory by
      its attributes, no label, and named neither "." nor "..". */
  lemma WrittenRecordIsWalked(
    v: Vol, source: DirSource, before: seq<Slot>, it: DirentProofs.Item, after: seq<Slot>, f: ShortFields,
    sn: ShortName)
    requires v.geom.clusterSize > 0 && IsFat(v) && Holds(v, source, before, it, after) && IsRecordOf(it, f, sn)
    ensures |Dirent.Entries(before)| < |Listing(v, source)|
    ensures var n, name := Listing(v, source)[|Dirent.Entries(before)|], NameOf(it, f, sn);
            && n.name == name && (IsReported(n) <==> it.Removed?)
            && (IsEdge(n) <==> !it.Removed? && f.attributes / 16 % 2 == 1 && f.attributes / 8 % 2 == 0
                               && name != "." && name != "..")
  {
    hide Listing, Holds, IsRecordOf, NameOf, Dirent.Entries, RecordSlot;
    WrittenNodeFields(v, source, before, it, after, f, sn);
    DeletedAreReported(v, source, |Dirent.Entries(before)|);
  }

  // ----- Deleted entries -----

  /** A deleted record in the root of a FAT12/16/32 image is reported under the name its bytes spell,
      whatever else the volume holds. */
  lemma FatRootDeletedIsReported(
    image: seq<u8>, b: Fields, rootCluster: u32, es: seq<nat>, w: seq<u32>, dir: seq<u8>, before: seq<Slot>,
    it: DirentProofs.Item, after: seq<Slot>, f: ShortFields, sn: ShortName, r: Result<seq<Anomaly>>)
    requires IsFatVolume(image, b, rootCluster, es) && IsFatRoot(image, b, rootCluster, es, w, dir)
    requires HoldsRecord(SlotsOf(dir), before, it, after) && IsRecordOf(it, f, sn) && it.Removed? && IsAudit(image, r)
    ensures r.Ok? && DeletedDirectoryEntry(Spelled(sn, f.ntFlags)) in r.value
  {
    var v := FatVolumeOpens(image, b, rootCluster, es);
    var source := FatRootIsRead(image, b, rootCluster, es, w, dir, v);
    hide IsFatVolume, IsFatRoot, HoldsRecord, IsRecordOf, Lays, Table, Listing, IsAudit, Opened, Dirent.Entries;
    hide Spelled;
    WrittenRecordIsWalked(v, source, before, it, after, f, sn);
    RootDeletedIsReported(image, v, r, |Dirent.Entries(before)|);
  }

  /** A deleted file set in the root of an exFAT image, named neither "." nor "..", is reported under
      its name, whatever else the volume holds. */
  lemma ExfatRootDeletedIsReported(
    image: seq<u8>, b: ExfatFields, es: seq<nat>, w: seq<u32>, dir: seq<u8>, before: seq<Slot>,
    f: ExfatProofs.FileSet, after: seq<Slot>, r: Result<seq<Anomaly>>)
    requires IsExfatVolume(image, b, es) && IsExfatRoot(image, b, es, w, dir)
    requires HoldsFileSet(SlotsOf(dir), before, f, after) && f.deleted && IsAudit(image, r)
    requires var name := Text.FromUtf16Lossy(f.units); name != "." && name != ".."
    ensures r.Ok? && DeletedDirectoryEntry(Text.FromUtf16Lossy(f.units)) in r.value
  {
    var v := ExfatVolumeOpens(image, b, es);
    var source := ExfatRootIsRead(image, b, es, w, dir, v);
    hide IsExfatVolume, IsExfatRoot, HoldsFileSet, Describes, Table, Listing, IsAudit, Opened, Exfat.SetsFrom, ListsSet;
    WrittenSetFields(v, source, before, f, after);
    var k := |Exfat.SetsFrom(before, 0)|;
    ListedSet(SourceMarker(source), Listing(v, source), before, f);
    RootDeletedIsReported(image, v, r, k);
  }

  lemma ListedSet(marker: u32, nodes: seq<Node>, before: seq<Slot>, f: ExfatProofs.FileSet)
    requires ListsSet(marker, nodes, before, f)
    ensures |Exfat.SetsFrom(before, 0)| < |nodes|
  {}

  /** The sub-directory a live record of the root leads to: its clusters linked in the FAT, its bytes
      in them, and in it a deleted record. */
  ghost predicate IsSubdirectory(
    image: seq<u8>, b: Fields, es: seq<nat>, first: u32, w: seq<u32>, sub: seq<u8>)
    requires IsBpb(b) && UsedSectors(b) <= b.totalSectors
  {
    var size := b.bytesPerSector * b.sectorsPerCluster;
    && size > 0 && AreLinked(FatVariantOf(b), ClusterCount(b), es, first, w) && |sub| == |w| * size
    && IsShort(w, size) && InClusters(image, UsedSectors(b) * b.bytesPerSector, size, w, sub)
  }

  lemma SubdirectoryIsRead(
    image: seq<u8>, b: Fields, rootCluster: u32, es: seq<nat>, first: u32, w: seq<u32>, sub: seq<u8>, v: Vol)
    requires IsBpb(b) && UsedSectors(b) <= b.totalSectors && IsSubdirectory(image, b, es, first, w, sub)
    requires v.image == image && Lays(b, rootCluster, v.geom) && Sound(v)
    requires AreEntries(v.geom.variant, es) && Table(v.geom.variant, es) <= v.fat
    ensures DirBytes(v, ChainFrom(first, 0, false)) == sub
  {
    LaidOut(b, rootCluster, v.geom);
    hide Table, AreEntries;
    LinkedWalk(v, es, first, w);
    WalkIsClusters(v, w, 0);
    hide InClusters, AreLinked, FsProofs.IsGoodWalk;
    StoredDirectory(v, w, sub);
  }

  /** A deleted record in a directory written in the root of a FAT12/16/32 image is reported under the
      name its bytes spell, if the root and every reachable directory have at most 65536 slots, none
      begins at cluster 0xFFFFFFFF, and no path enters 64 of them without a repeat. */
  lemma FatSubdirectoryDeletedIsReported(
    image: seq<u8>, b: Fields, rootCluster: u32, es: seq<nat>, rw: seq<u32>, dir: seq<u8>,
    before: seq<Slot>, it: DirentProofs.Item, after: seq<Slot>, f: ShortFields, sn: ShortName,
    w: seq<u32>, sub: seq<u8>,
    subBefore: seq<Slot>, gone: DirentProofs.Item, subAfter: seq<Slot>, g: ShortFields, gn: ShortName,
    v: Vol, r: Result<seq<Anomaly>>)
    requires IsFatVolume(image, b, rootCluster, es) && IsFatRoot(image, b, rootCluster, es, rw, dir)
    requires HoldsRecord(SlotsOf(dir), before, it, after) && IsRecordOf(it, f, sn) && !it.Removed?
    requires f.attributes / 16 % 2 == 1 && f.attributes / 8 % 2 == 0
    requires NameOf(it, f, sn) != "." && NameOf(it, f, sn) != ".."
    requires IsSubdirectory(image, b, es, f.firstCluster, w, sub)
    requires HoldsRecord(SlotsOf(sub), subBefore, gone, subAfter) && IsRecordOf(gone, g, gn) && gone.Removed?
    requires IsAudit(image, r) && Opened(image) == Ok(v) && v.geom.clusterSize > 0
    requires IsOrdinary(v, RootSource(v.geom)) && IsShallow(TreeOf(v))
    requires forall c: u32 | Reachable(TreeOf(v), c) :: IsOrdinary(v, ChainFrom(c, 0, false))
    ensures r.Ok? && DeletedDirectoryEntry(Spelled(gn, g.ntFlags)) in r.value
  {
    var v' := FatVolumeOpens(image, b, rootCluster, es);
    var source := FatRootIsRead(image, b, rootCluster, es, rw, dir, v);
    SubdirectoryIsRead(image, b, rootCluster, es, f.firstCluster, w, sub, v);
    hide IsFatVolume, IsFatRoot, IsSubdirectory, HoldsRecord, IsRecordOf, Lays, Table, Listing, IsAudit, Opened;
    hide Dirent.Entries, Spelled, NameOf, IsOrdinary, IsShallow, Reachable, IsExactReport, IsIntegrityReport;
    WrittenRecordIsWalked(v, source, before, it, after, f, sn);
    WrittenNodeFields(v, source, before, it, after, f, sn);
    EdgeIsReachable(TreeOf(v), |Dirent.Entries(before)|);
    WrittenRecordIsWalked(v, ChainFrom(f.firstCluster, 0, false), subBefore, gone, subAfter, g, gn);
    FatAuditIsExact(image, v, r);
    var found, order :|
      IsIntegrityReport(image, v.geom, found) && IsExactReport(TreeOf(v), found, order, r.value);
    ReachableDeletedIsReported(
      TreeOf(v), found, order, r.value, f.firstCluster, |Dirent.Entries(subBefore)|);
  }

  lemma EdgeIsReachable(t: Tree, k: nat)
    requires k < |t.rootNodes| && IsEdge(t.rootNodes[k])
    ensures Reachable(t, t.rootNodes[k].firstCluster)
  {
    var c := t.rootNodes[k].firstCluster;
    assert HasEdge(t.rootNodes, c);
    assert IsPath(t, [c]) && [c][|[c]| - 1] == c;
  }

  // ----- Integrity findings -----

  /** An audit holds a finding of another kind than deleted entries only if its integrity check does. */
  lemma FindingsAreIntegrity(image: seq<u8>, v: Vol, r: Result<seq<Anomaly>>) returns (found: seq<Anomaly>)
    requires IsAudit(image, r) && Opened(image) == Ok(v)
    ensures r.Ok? && IsIntegrityReport(image, v.geom, found)
    ensures forall a | a in r.value && !a.DeletedDirectoryEntry? :: a in found
    ensures forall a | a in found :: a in r.value
  {
    AuditReportsOnlyListed(image, v, r);
    hide IsAudit, Opened, ListerOf, Reaches, IsIntegrityReport, IsListedReport;
    found :| IsIntegrityReport(image, v.geom, found) && OnlyListed(ListerOf(v), Root, found, r.value);
    forall i | |found| <= i < |r.value| ensures r.value[i].DeletedDirectoryEntry? {
      ListedReportIsDeleted(ListerOf(v), Root, r.value[i]);
    }
    forall a | a in r.value && !a.DeletedDirectoryEntry? ensures a in found {
      var i :| 0 <= i < |r.value| && r.value[i] == a;
      assert found[i] == r.value[i];
    }
  }

  lemma ListedReportIsDeleted(list: Lister, start: FileId, a: Anomaly)
    requires IsListedReport(list, start, a)
    ensures a.DeletedDirectoryEntry?
  {}

  predicate IsMismatch(a: Anomaly) { a.ExfatBootChecksumMismatch? }

  /** The checksum an exFAT boot region keeps in its twelfth sector. */
  function KeptChecksum(image: seq<u8>, b: ExfatFields): u32 {
    LeU32(image, 11 * Size(b.bpsShift))
  }

  /** The audit of an exFAT image with a whole boot region reports a checksum mismatch exactly when the
      checksum kept in the twelfth sector is not that of the first eleven. */
  lemma ExfatChecksumIsAudited(image: seq<u8>, b: ExfatFields, es: seq<nat>, r: Result<seq<Anomaly>>)
    requires IsExfatVolume(image, b, es) && |image| >= 12 * Size(b.bpsShift) && IsAudit(image, r)
    ensures r.Ok?
    ensures (exists a :: a in r.value && IsMismatch(a)) <==>
            !Exfat.IsBootChecksum(image[..11 * Size(b.bpsShift)], KeptChecksum(image, b))
    ensures forall a | a in r.value && IsMismatch(a) ::
              a.stored == KeptChecksum(image, b) && Exfat.IsBootChecksum(image[..11 * Size(b.bpsShift)], a.computed)
  {
    var v := ExfatVolumeOpens(image, b, es);
    ExfatLaidOut(b, v.geom);
    var found := FindingsAreIntegrity(image, v, r);
    hide IsExfatVolume, IsAudit, Opened, Describes, Table;
    BootRegion(image, v.geom);
    var n := 11 * v.geom.bytesPerSector;
    Exfat.BootSumIsRunningSum(image[..n], v.geom.bytesPerSector, KeptChecksum(image, b));
    Exfat.BootSumIsRunningSum(image[..n], v.geom.bytesPerSector, Exfat.BootSum(image[..n], v.geom.bytesPerSector));
    hide Exfat.IsBootChecksum, Exfat.BootSum;
    if found != [] { assert found[0] in r.value && IsMismatch(found[0]); }
  }

  lemma BootRegion(image: seq<u8>, g: Geometry)
    requires g.bytesPerSector >= 4 && |image| >= 12 * g.bytesPerSector
    ensures var n := 11 * g.bytesPerSector;
            ChecksumAnomalies(image, g) ==
            if Exfat.BootSum(image[..n], g.bytesPerSector) != LeU32(image, n)
            then [ExfatBootChecksumMismatch(Exfat.BootSum(image[..n], g.bytesPerSector), LeU32(image, n))] else []
  {
    var n, region := 11 * g.bytesPerSector, Window(image, 0, 12 * g.bytesPerSector);
    assert region == image[..12 * g.bytesPerSector] && region[..n] == image[..n];
    assert image == region + image[|region|..];
    PrefixReads(region, image[|region|..], n);
  }

  predicate IsMirrorMismatch(a: Anomaly) { a.FatMirrorMismatch? }

  /** Byte i of the first FAT and of the second, which lie side by side behind the reserved sectors. */
  predicate FatsDifferAt(image: seq<u8>, b: Fields, i: nat) {
    var first, size := b.reservedSectors * b.bytesPerSector, b.fatSizeSectors * b.bytesPerSector;
    i < size && first + size + i < |image| && image[first + i] != image[first + size + i]
  }

  /** The positions at which two FATs differ are those at which the image shows it. */
  ghost predicate ShowDifferences(image: seq<u8>, b: Fields, g: Geometry)
    requires |Fat1(image, g)| == |Fat2(image, g)|
  {
    forall i: nat :: FatsDifferAt(image, b, i) <==> i in Differing(Fat1(image, g), Fat2(image, g))
  }

  /** The bytes of the two tables are those of the image. */
  ghost predicate ShowBytes(image: seq<u8>, b: Fields, g: Geometry) {
    var first, size := b.reservedSectors * b.bytesPerSector, b.fatSizeSectors * b.bytesPerSector;
    && |Fat1(image, g)| == |Fat2(image, g)| == size && first + size + size <= |image|
    && forall i | 0 <= i < size :: Fat1(image, g)[i] == image[first + i] && Fat2(image, g)[i] == image[first + size + i]
  }

  lemma MirrorWindows(image: seq<u8>, b: Fields, g: Geometry)
    requires g.fatStart == b.reservedSectors * b.bytesPerSector && g.fatSizeSectors == b.fatSizeSectors
    requires g.bytesPerSector == b.bytesPerSector
    requires g.fatStart + 2 * b.fatSizeSectors * b.bytesPerSector <= |image|
    ensures |Fat1(image, g)| == |Fat2(image, g)| == FatBytes(g) == b.fatSizeSectors * b.bytesPerSector
    ensures ShowDifferences(image, b, g) && ShowBytes(image, b, g)
  {
    Reassociate2(b.fatSizeSectors, b.bytesPerSector);
  }

  lemma Reassociate2(a: nat, b: nat)
    ensures 2 * a * b == a * b + a * b
  {}

  /** The audit of a FAT12/16/32 image that holds two whole FATs reports a mirror mismatch exactly when
      some byte of them differs, and then the first such offset, its two bytes and how many differ. */
  lemma FatMirrorIsAudited(image: seq<u8>, b: Fields, rootCluster: u32, es: seq<nat>, r: Result<seq<Anomaly>>)
    requires IsFatVolume(image, b, rootCluster, es) && b.numFats >= 2 && IsAudit(image, r)
    requires b.reservedSectors * b.bytesPerSector + 2 * b.fatSizeSectors * b.bytesPerSector <= |image|
    ensures r.Ok?
    ensures (exists a :: a in r.value && IsMirrorMismatch(a)) <==> exists i :: FatsDifferAt(image, b, i)
    ensures forall a | a in r.value && IsMirrorMismatch(a) :: IsFirstMismatch(image, b, a)
  {
    var v := FatVolumeOpens(image, b, rootCluster, es);
    LaidOut(b, rootCluster, v.geom);
    FatCount(b, rootCluster, v.geom);
    var found := FindingsAreIntegrity(image, v, r);
    hide IsFatVolume, IsAudit, Opened, Lays, Table, Fat1, Fat2, FatsDifferAt, IsMirrorReport, ShowDifferences;
    hide ShowBytes, FatBytes;
    MirrorWindows(image, b, v.geom);
    MirrorFindings(image, b, v.geom, found);
    hide IsIntegrityReport, IsFirstMismatch;
    OneMismatch(image, b, found, r.value);
  }

  lemma OneMismatch(image: seq<u8>, b: Fields, found: seq<Anomaly>, out: seq<Anomaly>)
    requires found == [] ==> forall i :: !FatsDifferAt(image, b, i)
    requires found != [] ==> |found| == 1 && IsFirstMismatch(image, b, found[0])
    requires forall a | a in out && !a.DeletedDirectoryEntry? :: a in found
    requires forall a | a in found :: a in out
    ensures (exists a :: a in out && IsMirrorMismatch(a)) <==> exists i :: FatsDifferAt(image, b, i)
    ensures forall a | a in out && IsMirrorMismatch(a) :: IsFirstMismatch(image, b, a)
  {
    hide FatsDifferAt;
    if found != [] { assert found[0] in out && IsMirrorMismatch(found[0]); }
  }

  /** With one FAT nothing is compared. */
  lemma SingleFatIsNotCompared(image: seq<u8>, b: Fields, rootCluster: u32, es: seq<nat>, r: Result<seq<Anomaly>>)
    requires IsFatVolume(image, b, rootCluster, es) && b.numFats == 1 && IsAudit(image, r)
    ensures r.Ok? && forall a | a in r.value :: a.DeletedDirectoryEntry?
  {
    var v := FatVolumeOpens(image, b, rootCluster, es);
    FatCount(b, rootCluster, v.geom);
    var found := FindingsAreIntegrity(image, v, r);
  }

  lemma FatCount(b: Fields, rootCluster: u32, g: Geometry)
    requires IsBpb(b) && UsedSectors(b) <= b.totalSectors && Lays(b, rootCluster, g)
    ensures g.numFats == b.numFats
  {}

  /** What a mirror report says of these differences. */
  ghost predicate IsFirstMismatch(image: seq<u8>, b: Fields, a: Anomaly) {
    && IsMirrorMismatch(a) && FatsDifferAt(image, b, a.fatOffset)
    && (forall i | FatsDifferAt(image, b, i) :: a.fatOffset <= i)
    && var first, size := b.reservedSectors * b.bytesPerSector, b.fatSizeSectors * b.bytesPerSector;
    && a.fat1 == image[first + a.fatOffset] && a.fat2 == image[first + size + a.fatOffset]
    && a.differingBytes == |set i: nat | i < size && FatsDifferAt(image, b, i)|
  }

  lemma MirrorFindings(image: seq<u8>, b: Fields, g: Geometry, found: seq<Anomaly>)
    requires |Fat1(image, g)| == |Fat2(image, g)| == FatBytes(g)
    requires IsMirrorReport(image, g, found) && ShowDifferences(image, b, g) && ShowBytes(image, b, g)
    ensures found == [] ==> forall i :: !FatsDifferAt(image, b, i)
    ensures found != [] ==> |found| == 1 && IsFirstMismatch(image, b, found[0])
  {
    hide Fat1, Fat2, FatsDifferAt;
    var p, q := Fat1(image, g), Fat2(image, g);
    if p == q {
      assert Differing(p, q) == {};
    } else {
      assert FatsDifferAt(image, b, found[0].fatOffset);
      forall i | FatsDifferAt(image, b, i) ensures found[0].fatOffset <= i { assert i in Differing(p, q); }
      assert Differing(p, q) == set i: nat | i < b.fatSizeSectors * b.bytesPerSector && FatsDifferAt(image, b, i);
    }
  }
}
