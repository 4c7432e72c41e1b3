/** The auditor: boot signature and geometry, the exFAT boot checksum, the FAT mirror, and the
    walk for deleted entries. Each check is proved against what it must report. */
module Audit {
  import opened Bytes
  import opened Wrappers
  import opened Fat
  import opened Boot
  import opened Slots
  import opened Image
  import opened Volume
  import opened Fs
  import opened Walk
  import Dirent
  import Exfat
  import Handles
  import Rereading
  import ShortRecords

  // ----- exFAT boot checksum -----

  /** Nothing when the boot region is cut short; otherwise a mismatch exactly when the stored
      checksum differs from the recomputed one. */
  function ChecksumAnomalies(image: seq<u8>, g: Geometry): seq<Anomaly> {
    var region := Window(image, 0, g.bytesPerSector * 12);
    if |region| < g.bytesPerSector * 12 then []
    else
      var computed := Exfat.BootSum(region[..g.bytesPerSector * 11], g.bytesPerSector);
      var stored := LeU32(region, g.bytesPerSector * 11);
      if computed != stored then [ExfatBootChecksumMismatch(computed, stored)] else []
  }

  method AuditExfatChecksum(reader: Reader, g: Geometry) returns (found: seq<Anomaly>)
    modifies reader
    ensures found == ChecksumAnomalies(reader.image, g)
  {
    var bps := g.bytesPerSector;
    var region := reader.ReadUpto(0, bps * 12);
    if |region| < bps * 12 { return []; }
    var computed := Exfat.BootChecksum(region[..bps * 11], bps);
    var stored := LeU32(region, bps * 11);
    if computed != stored { return [ExfatBootChecksumMismatch(computed, stored)]; }
    return [];
  }

  /** Tampering with one summed byte of a region whose checksum matched is always reported. */
  lemma TamperIsReported(clean: seq<u8>, image: seq<u8>, g: Geometry, k: nat)
    requires g.bytesPerSector >= 512 && |clean| == |image| >= g.bytesPerSector * 12
    requires ChecksumAnomalies(clean, g) == []
    requires k < g.bytesPerSector * 11 && k !in Exfat.UNSUMMED && clean[k] != image[k]
    requires forall i | 0 <= i < |clean| && i != k && i !in Exfat.UNSUMMED :: clean[i] == image[i]
    requires forall i | g.bytesPerSector * 11 <= i < |clean| :: clean[i] == image[i]
    ensures ChecksumAnomalies(image, g) ==
              [ExfatBootChecksumMismatch(Exfat.BootSum(image[..g.bytesPerSector * 11], g.bytesPerSector),
                                         LeU32(clean, g.bytesPerSector * 11))]
  {
    var bps := g.bytesPerSector;
    var n := bps * 11;
    assert Window(clean, 0, bps * 12)[..n] == clean[..n] && Window(image, 0, bps * 12)[..n] == image[..n];
    Exfat.TamperIsDetected(clean[..n], image[..n], bps, k);
    assert forall i | n <= i < n + 4 ::
        Window(clean, 0, bps * 12)[i] == clean[i] && Window(image, 0, bps * 12)[i] == clean[i];
  }

  // ----- FAT mirror -----

  function FatBytes(g: Geometry): nat { Span(g.fatSizeSectors, g.bytesPerSector) }

  function Fat1(image: seq<u8>, g: Geometry): seq<u8> { Window(image, g.fatStart, FatBytes(g)) }

  function Fat2(image: seq<u8>, g: Geometry): seq<u8> { Window(image, g.fatStart + FatBytes(g), FatBytes(g)) }

  /** The positions at which two tables of one size differ. */
  ghost function Differing(a: seq<u8>, b: seq<u8>): set<nat>
    requires |a| == |b|
  {
    set i: nat | i < |a| && a[i] != b[i]
  }

  /** What the mirror check must report: nothing for equal tables or tables cut short; otherwise
      the least differing position, its two bytes, and how many positions differ. */
  ghost predicate IsMirrorReport(image: seq<u8>, g: Geometry, found: seq<Anomaly>) {
    var a, b := Fat1(image, g), Fat2(image, g);
    if |a| < FatBytes(g) || |b| < FatBytes(g) || a == b then found == []
    else
      && |found| == 1 && found[0].FatMirrorMismatch?
      && var at := found[0].fatOffset;
      && at in Differing(a, b) && (forall i | i in Differing(a, b) :: at <= i)
      && found[0].fat1 == a[at] && found[0].fat2 == b[at]
      && found[0].differingBytes == |Differing(a, b)|
  }

  /** The report is determined by what it must say. */
  lemma MirrorReportIsUnique(image: seq<u8>, g: Geometry, x: seq<Anomaly>, y: seq<Anomaly>)
    requires IsMirrorReport(image, g, x) && IsMirrorReport(image, g, y)
    ensures x == y
  {
    if |x| == 1 { assert x[0] == y[0]; }
  }

  ghost function DifferingBelow(a: seq<u8>, b: seq<u8>, n: nat): set<nat>
    requires |a| == |b| && n <= |a|
  {
    set i: nat | i < n && a[i] != b[i]
  }

  method CompareTables(a: seq<u8>, b: seq<u8>) returns (first: Option<nat>, differing: nat)
    requires |a| == |b|
    ensures differing == |Differing(a, b)|
    ensures first.None? <==> a == b
    ensures first.Some? ==> first.value in Differing(a, b) && forall i | i in Differing(a, b) :: first.value <= i
  {
    first, differing := None, 0;
    for i := 0 to |a|
      invariant differing == |DifferingBelow(a, b, i)|
      invariant first.None? <==> DifferingBelow(a, b, i) == {}
      invariant first.Some? ==>
                  first.value in DifferingBelow(a, b, i) && forall j | j in DifferingBelow(a, b, i) :: first.value <= j
    {
      assert DifferingBelow(a, b, i + 1) == DifferingBelow(a, b, i) + (if a[i] != b[i] then {i} else {});
      if a[i] != b[i] {
        differing := differing + 1;
        if first.None? { first := Some(i); }
      }
    }
    assert Differing(a, b) == DifferingBelow(a, b, |a|);
    if first.None? {
      forall i | 0 <= i < |a| ensures a[i] == b[i] { assert i !in DifferingBelow(a, b, |a|); }
    }
  }

  method AuditFatMirror(reader: Reader, g: Geometry) returns (found: seq<Anomaly>)
    modifies reader
    ensures IsMirrorReport(reader.image, g, found)
  {
    var n := FatBytes(g);
    if n == 0 { return []; }
    var a := reader.ReadUpto(g.fatStart, n);
    if |a| < n { return []; }
    var b := reader.ReadUpto(g.fatStart + n, n);
    if |b| < n { return []; }
    var first, differing := CompareTables(a, b);
    if first.None? { return []; }
    return [FatMirrorMismatch(first.value, a[first.value], b[first.value], differing)];
  }

  /** The second table as far as the reader would hold it: it caps the table it follows. */
  function SecondTable(v: Vol): seq<u8> {
    Window(v.image, v.geom.fatStart + FatBytes(v.geom), Min(FatBytes(v.geom), MAX_FAT_BYTES))
  }

  lemma FullWindow(image: seq<u8>, off: nat, len: nat, n: nat)
    requires |Window(image, off, len)| == len && n <= len
    ensures Window(image, off, n) == Window(image, off, len)[..n]
  {}

  lemma OpenedTable(image: seq<u8>, v: Vol)
    requires Opened(image) == Ok(v)
    ensures v.image == image && v.fat == Window(image, v.geom.fatStart, Min(FatBytes(v.geom), MAX_FAT_BYTES))
  {}

  /** The capped tables are equal lengths of the two that were compared. */
  lemma CappedTables(image: seq<u8>, v: Vol)
    requires Opened(image) == Ok(v)
    requires |Fat1(image, v.geom)| == |Fat2(image, v.geom)| == FatBytes(v.geom)
    ensures var n := Min(FatBytes(v.geom), MAX_FAT_BYTES);
            v.fat == Fat1(image, v.geom)[..n] && SecondTable(v) == Fat2(image, v.geom)[..n]
  {
    hide Opened, Window, FatBytes;
    OpenedTable(image, v);
    var n := Min(FatBytes(v.geom), MAX_FAT_BYTES);
    FullWindow(image, v.geom.fatStart, FatBytes(v.geom), n);
    FullWindow(image, v.geom.fatStart + FatBytes(v.geom), FatBytes(v.geom), n);
  }

  /** The chains the reader follows are those of the second table exactly when the two hold the
      same link at every cluster; a clean report of two whole tables says that they do. */
  lemma CleanMirrorMeansSameChains(image: seq<u8>, v: Vol, found: seq<Anomaly>)
    requires Opened(image) == Ok(v) && IsMirrorReport(image, v.geom, found)
    requires |Fat1(image, v.geom)| == |Fat2(image, v.geom)| == FatBytes(v.geom)
    ensures var a, b := v.fat, SecondTable(v); SameChains(a, b, v.geom.variant) <==> SameLinks(a, b, v.geom.variant)
    ensures found == [] ==> SameChains(v.fat, SecondTable(v), v.geom.variant)
  {
    hide Opened, SecondTable, SameChains, SameLinks;
    CappedTables(image, v);
    SameChainsIff(v.fat, SecondTable(v), v.geom.variant);
    if found == [] { EqualTables(v.fat, SecondTable(v), v.geom.variant); }
  }

  lemma EqualTables(a: seq<u8>, b: seq<u8>, v: FatVariant)
    requires a == b
    ensures SameChains(a, b, v)
  {}

  /** A report may concern no chain: FAT32 tables that differ only in the reserved top nibbles of
      their entries are reported, and have the same chains. */
  lemma TopNibbleMismatchIsHarmless(image: seq<u8>, v: Vol, found: seq<Anomaly>)
    requires Opened(image) == Ok(v) && IsMirrorReport(image, v.geom, found)
    requires |Fat1(image, v.geom)| == |Fat2(image, v.geom)| == FatBytes(v.geom)
    requires v.geom.variant == Fat32 && DifferInTopNibbles(Fat1(image, v.geom), Fat2(image, v.geom))
    ensures found != [] <==> Fat1(image, v.geom) != Fat2(image, v.geom)
    ensures SameChains(v.fat, SecondTable(v), v.geom.variant)
  {
    hide Opened, SecondTable, SameChains, DifferInTopNibbles;
    CappedTables(image, v);
    PrefixInTopNibbles(Fat1(image, v.geom), Fat2(image, v.geom), Min(FatBytes(v.geom), MAX_FAT_BYTES));
    TopNibblesKeepChains(v.fat, SecondTable(v), v.geom.variant);
  }

  /** A reported mismatch leaves every chain alone whose entries lie below the first differing
      byte: the two tables give it the same clusters. */
  lemma ChainsBelowMismatchAgree(image: seq<u8>, g: Geometry, found: seq<Anomaly>, start: u32, cap: nat)
    requires IsMirrorReport(image, g, found) && found != []
    requires forall c | c in Chain(Fat1(image, g), g.variant, start, cap) ::
               EntryOffset(g.variant, c) + EntryWidth(g.variant) <= found[0].fatOffset
    ensures Chain(Fat1(image, g), g.variant, start, cap) == Chain(Fat2(image, g), g.variant, start, cap)
  {
    var a, b := Fat1(image, g), Fat2(image, g);
    var at := found[0].fatOffset;
    forall i | 0 <= i < at ensures a[i] == b[i] { assert i !in Differing(a, b); }
    forall c | c in Chain(a, g.variant, start, cap) ensures FatEntry(a, g.variant, c) == FatEntry(b, g.variant, c) {
      SamePrefixSameEntry(a, b, g.variant, c, at);
    }
    ChainFrame(a, b, g.variant, start, cap);
  }

  lemma SamePrefixSameEntry(a: seq<u8>, b: seq<u8>, v: FatVariant, c: u32, at: nat)
    requires at <= |a| && at <= |b| && forall i | 0 <= i < at :: a[i] == b[i]
    requires EntryOffset(v, c) + EntryWidth(v) <= at
    ensures FatEntry(a, v, c) == FatEntry(b, v, c)
  {
    var off := EntryOffset(v, c);
    assert LeU16(a, off) == LeU16(b, off);
    if EntryWidth(v) == 4 { assert LeU16(a, off + 2) == LeU16(b, off + 2); }
  }

  // ----- Deleted entries -----

  ghost function ListerOf(v: Vol): Lister {
    (id: FileId) => if v.geom.clusterSize > 0 then ReadDir(v, id) else Err(Io)
  }

  lemma ListerReads(v: Vol, id: FileId)
    requires v.geom.clusterSize > 0
    ensures ListerOf(v)(id) == ReadDir(v, id)
  {}

  class Auditor {
    var seen: set<u32>
    var out: seq<Anomaly>
    ghost var order: seq<u32>
    ghost var calls: nat
    ghost var capped: bool

    ghost function Now(): State
      reads this
    {
      State(seen, out, order, calls, capped)
    }

    constructor (out: seq<Anomaly>)
      ensures Now() == Start(out)
    {
      seen, this.out, order, calls, capped := {}, out, [], 0, false;
    }

    /** Recursively collect deleted entries, bounding depth and revisits. */
    method CollectDeleted(fs: FatFs, dir: FileId, depth: nat)
      requires fs.Valid() && depth <= MAX_DEPTH
      modifies this, fs.reader
      ensures Now() == Visit(ListerOf(fs.V()), dir, depth, old(Now()))
      decreases MAX_DEPTH - depth, 1
    {
      hide ReadDir;
      VisitOfUnlisted(ListerOf(fs.V()), dir, depth, Now());
      ListerReads(fs.V(), dir);
      ghost var list, before := ListerOf(fs.V()), Now();
      calls := calls + 1;
      if depth >= MAX_DEPTH {
        capped := true;
        return;
      }
      var listed := fs.ReadDirOf(dir);
      if listed.Err? { return; }
      var nodes := listed.value;
      VisitOfListed(list, dir, depth, before, nodes);
      ghost var end := VisitNodes(list, nodes, depth, Now());
      var i := 0;
      while i < |nodes|
        invariant i <= |nodes|
        invariant VisitNodes(list, nodes[i..], depth, Now()) == end
      {
        assert nodes[i..][0] == nodes[i] && nodes[i..][1..] == nodes[i + 1..];
        CollectNode(fs, nodes[i], depth);
        i := i + 1;
      }
    }

    /** One node of the loop: skip, report, or descend the first time its cluster is met. */
    method CollectNode(fs: FatFs, node: Node, depth: nat)
      requires fs.Valid() && depth < MAX_DEPTH
      modifies this, fs.reader
      ensures Now() == VisitNode(ListerOf(fs.V()), node, depth, old(Now()))
      decreases MAX_DEPTH - depth, 0
    {
      if node.name == "." || node.name == ".." { return; }
      if node.isDeleted {
        out := out + [DeletedDirectoryEntry(node.name)];
        return;
      }
      if node.isDir && !node.isVolumeLabel && node.firstCluster !in seen {
        seen, order := seen + {node.firstCluster}, order + [node.firstCluster];
        CollectDeleted(fs, node.id, depth + 1);
      }
    }
  }

  // ----- The walk on a volume -----

  /** Where a listed directory's own bytes lie. */
  function SourceOfNode(n: Node): DirSource { ChainFrom(n.firstCluster, n.size, n.contiguous) }

  /** Each directory among these nodes resolves to itself, and its own listing is what the tree holds
      for its first cluster. */
  ghost predicate Walkable(v: Vol, t: Tree, nodes: seq<Node>)
    requires v.geom.clusterSize > 0
  {
    forall k | 0 <= k < |nodes| && IsEdge(nodes[k]) ::
      && nodes[k].id.Entry? && Meta(v, nodes[k].id) == Ok(nodes[k])
      && Listing(v, SourceOfNode(nodes[k])) == t.kids(nodes[k].firstCluster)
  }

  /** The tree holds the root's nodes, and every directory reachable in it can be walked. */
  ghost predicate AllWalkable(v: Vol, t: Tree)
    requires v.geom.clusterSize > 0
  {
    && t.rootNodes == Listing(v, RootSource(v.geom)) && Walkable(v, t, t.rootNodes)
    && forall c: u32 | Reachable(t, c) :: Walkable(v, t, t.kids(c))
  }

  /** The tree of the directories that FAT chains give. */
  ghost function TreeOf(v: Vol): Tree
    requires v.geom.clusterSize > 0
  {
    Tree(Listing(v, RootSource(v.geom)), (c: u32) => Listing(v, ChainFrom(c, 0, false)))
  }

  lemma FatNodesAreChained(v: Vol, source: DirSource, k: nat)
    requires v.geom.clusterSize > 0 && IsFat(v) && k < |Listing(v, source)|
    ensures !Listing(v, source)[k].contiguous
  {}

  lemma ChainedIgnoresSize(v: Vol, first: u32, size: u64)
    requires v.geom.clusterSize > 0
    ensures Listing(v, ChainFrom(first, size, false)) == Listing(v, ChainFrom(first, 0, false))
  {
    assert Clusters(v, first, size, false) == Clusters(v, first, 0, false);
  }

  /** On FAT12/16/32 a directory can be walked if its first cluster is not the fixed-root marker and
      no directory in it lies past slot 65534 behind another record that does. */
  lemma FatIsWalkable(v: Vol, source: DirSource)
    requires v.geom.clusterSize > 0 && IsFat(v) && Handles.Addressable(source)
    requires var nodes, at := Listing(v, source), Handles.NodeSlots(v, source);
             forall i, k | 0 <= i < k < |at| && k < |nodes| && IsEdge(nodes[k]) :: at[i] < 65535 || at[k] < 65535
    ensures Walkable(v, TreeOf(v), Listing(v, source))
  {
    hide Listing, Handles.NodeSlots, Handles.Rereads, Meta;
    Handles.AddressableRereads(v, source);
    var nodes := Listing(v, source);
    forall k | 0 <= k < |nodes| && IsEdge(nodes[k])
      ensures nodes[k].id.Entry? && Meta(v, nodes[k].id) == Ok(nodes[k])
      ensures Listing(v, SourceOfNode(nodes[k])) == TreeOf(v).kids(nodes[k].firstCluster)
    {
      Handles.HandleIsStableIff(v, source, k);
      FatNodesAreChained(v, source, k);
      ChainedIgnoresSize(v, nodes[k].firstCluster, nodes[k].size);
    }
  }

  /** The directories among these nodes list what the tree holds for their first clusters. */
  ghost predicate ListsTree(v: Vol, t: Tree, nodes: seq<Node>)
    requires v.geom.clusterSize > 0
  {
    forall k | 0 <= k < |nodes| && IsEdge(nodes[k]) ::
      Listing(v, SourceOfNode(nodes[k])) == t.kids(nodes[k].firstCluster)
  }

  /** On any variant, so can a directory of at most 65536 slots that is re-read as it was listed. */
  lemma SmallDirectoryIsWalkable(v: Vol, t: Tree, source: DirSource)
    requires v.geom.clusterSize > 0 && Handles.Steady(v, source) && ListsTree(v, t, Listing(v, source))
    ensures Walkable(v, t, Listing(v, source))
  {
    hide Handles.Rereads, Meta, Listing, DirBytes;
    var nodes := Listing(v, source);
    forall k | 0 <= k < |nodes| ensures nodes[k].id.Entry? && Meta(v, nodes[k].id) == Ok(nodes[k]) {
      Handles.HandlesAreStable(v, source, k);
    }
  }

  /** On exFAT, so can one whose re-read is cut short at slot `n`, if the sets of its own directories
      lie before that. */
  lemma CutDirectoryIsWalkable(v: Vol, t: Tree, source: DirSource, n: nat)
    requires v.geom.clusterSize > 0 && !IsFat(v) && ListsTree(v, t, Listing(v, source))
    requires var slots := Rereading.OwnSlots(v, source);
             n <= |slots| && Rereading.RereadSlots(v, source) == slots[..n]
    requires forall k | 0 <= k < |Listing(v, source)| && IsEdge(Listing(v, source)[k]) ::
               EndsBy(v, source, k, n)
    ensures Walkable(v, t, Listing(v, source))
  {
    hide Listing, Meta, Rereading.RereadSlots, Exfat.SetAt;
    var nodes := Listing(v, source);
    forall k | 0 <= k < |nodes| && IsEdge(nodes[k])
      ensures nodes[k].id.Entry? && Meta(v, nodes[k].id) == Ok(nodes[k])
    {
      assert EndsBy(v, source, k, n);
      Rereading.ExfatHandleResolves(v, source, k);
      Rereading.CutHandleIsStableIff(v, source, k, n);
    }
  }

  /** The set of the k-th node lies before slot `n`, at a slot its index can hold. */
  ghost predicate EndsBy(v: Vol, source: DirSource, k: nat, n: nat)
    requires v.geom.clusterSize > 0 && !IsFat(v) && k < |Listing(v, source)|
  {
    var p := Rereading.SlotOfNode(v, source, k);
    p <= U16_MAX && p + 1 + Rereading.OwnSlots(v, source)[p][1] <= n
  }

  /** Walkable nodes are read through their handles as the directories their clusters begin. */
  lemma ListingIsHonest(v: Vol, t: Tree, nodes: seq<Node>)
    requires v.geom.clusterSize > 0 && Walkable(v, t, nodes)
    ensures Honest(ListerOf(v), t, nodes)
  {
    hide Listing, Meta, ReadDir;
    forall k | 0 <= k < |nodes| && IsEdge(nodes[k])
      ensures ListerOf(v)(nodes[k].id) == Ok(t.kids(nodes[k].firstCluster))
    {
      DirectoryOfNode(v, nodes[k]);
      ListerReads(v, nodes[k].id);
    }
  }

  lemma DirectoryOfNode(v: Vol, n: Node)
    requires v.geom.clusterSize > 0 && n.id.Entry? && Meta(v, n.id) == Ok(n) && n.isDir
    ensures ReadDir(v, n.id) == Ok(Listing(v, SourceOfNode(n)))
  {
    assert SourceOf(v, n.id) == Ok(SourceOfNode(n));
  }

  lemma VolumeIsNavigable(v: Vol, t: Tree)
    requires v.geom.clusterSize > 0 && AllWalkable(v, t)
    ensures Navigable(ListerOf(v), t) && ListerOf(v)(Root) == Ok(t.rootNodes)
  {
    hide Walkable;
    ListingIsHonest(v, t, t.rootNodes);
    forall c: u32 | Reachable(t, c) ensures Honest(ListerOf(v), t, t.kids(c)) {
      ListingIsHonest(v, t, t.kids(c));
    }
  }

  // ----- The whole audit -----

  function SignatureAnomalies(boot: seq<u8>): seq<Anomaly> {
    if LeU16(boot, 510) != 0xAA55 then [BootSignatureInvalid(LeU16(boot, 510))] else []
  }

  /** What an integrity check may answer, by variant and number of FATs. */
  ghost predicate IsIntegrityReport(image: seq<u8>, g: Geometry, found: seq<Anomaly>) {
    if g.variant == ExFat then found == ChecksumAnomalies(image, g)
    else if g.numFats >= 2 then IsMirrorReport(image, g, found)
    else found == []
  }

  /** What an audit must answer: an unreadable boot sector is an error; a bad one ends the audit;
      otherwise the integrity report comes first, then what the walk from the root finds. */
  ghost predicate IsAudit(image: seq<u8>, r: Result<seq<Anomaly>>) {
    if |image| < 512 then r == Err(Io)
    else
      var boot := image[..512];
      match GeometryOf(boot)
      case Err(e) => r == Ok(SignatureAnomalies(boot) + [BpbInvalid(e)])
      case Ok(g) =>
        exists found :: IsIntegrityReport(image, g, found) && r == Ok(Audited(image, SignatureAnomalies(boot) + found))
  }

  /** The anomalies after walking the volume an image opens as. */
  ghost function Audited(image: seq<u8>, before: seq<Anomaly>): seq<Anomaly> {
    match Opened(image)
    case Err(_) => before
    case Ok(v) => Visit(ListerOf(v), Root, 0, Start(before)).out
  }

  method AuditReader(reader: Reader) returns (r: Result<seq<Anomaly>>)
    modifies reader
    ensures IsAudit(reader.image, r)
  {
    var b := reader.ReadExact(0, 512);
    if b.Err? { return Err(b.error); }
    var boot := b.value;
    assert boot == reader.image[..512];
    var out := SignatureAnomalies(boot);
    var g := GeometryOf(boot);
    if g.Err? { return Ok(out + [BpbInvalid(g.error)]); }
    var geom := g.value;
    var found: seq<Anomaly> := [];
    if geom.variant == ExFat {
      found := AuditExfatChecksum(reader, geom);
    } else if geom.numFats >= 2 {
      found := AuditFatMirror(reader, geom);
    }
    assert IsIntegrityReport(reader.image, geom, found);
    var volume := FatFs.Open(reader);
    if volume.Err? { return Ok(out + found); }
    var auditor := new Auditor(out + found);
    auditor.CollectDeleted(volume.value, Root, 0);
    return Ok(auditor.out);
  }

  /** A bad boot signature always ends the audit with exactly two anomalies. */
  lemma BadSignatureEndsTheAudit(image: seq<u8>, r: Result<seq<Anomaly>>)
    requires |image| >= 512 && IsAudit(image, r) && LeU16(image, 510) != 0xAA55
    ensures r.Ok? && |r.value| == 2 && r.value[0] == BootSignatureInvalid(LeU16(image, 510)) && r.value[1].BpbInvalid?
  {
    assert LeU16(image[..512], 510) == LeU16(image, 510);
    assert GeometryOf(image[..512]).Err?;
  }

  /** These anomalies are the integrity finding, the deleted entries of the root, and those of each
      directory reachable from it, once for each - the root's once more if it is among these. */
  ghost predicate IsExactReport(t: Tree, found: seq<Anomaly>, order: seq<u32>, out: seq<Anomaly>) {
    && (forall c: u32 :: c in order <==> Reachable(t, c))
    && (forall i, j | 0 <= i < j < |order| :: order[i] != order[j])
    && multiset(out) == multiset(found) + DeletedIn(t.rootNodes) + DeletedUnder(t, order)
  }

  lemma WalkReportIsExact(v: Vol, t: Tree, found: seq<Anomaly>)
    requires v.geom.clusterSize > 0 && AllWalkable(v, t)
    requires !Visit(ListerOf(v), Root, 0, Start([])).capped
    ensures var end := Visit(ListerOf(v), Root, 0, Start(found)); IsExactReport(t, found, end.order, end.out)
  {
    hide AllWalkable, ListerOf;
    VolumeIsNavigable(v, t);
    CapIgnoresReports(ListerOf(v), Root, 0, Start([]), found);
    assert found + [] == found;
    WalkIsComplete(ListerOf(v), t, Root, found);
  }

  /** An audit whose walk never met the depth cap reports its integrity finding and
      exactly the deleted entries of the root and of the directories reachable from it. */
  lemma AuditIsExact(image: seq<u8>, v: Vol, t: Tree, r: Result<seq<Anomaly>>)
    requires IsAudit(image, r) && Opened(image) == Ok(v) && v.geom.clusterSize > 0 && AllWalkable(v, t)
    requires !Visit(ListerOf(v), Root, 0, Start([])).capped
    ensures r.Ok? && exists found, order ::
              IsIntegrityReport(image, v.geom, found) && IsExactReport(t, found, order, r.value)
  {
    var boot := image[..512];
    assert SignatureAnomalies(boot) == [];
    var found :| IsIntegrityReport(image, v.geom, found) && r == Ok(Audited(image, SignatureAnomalies(boot) + found));
    assert SignatureAnomalies(boot) + found == found;
    WalkReportIsExact(v, t, found);
    var end := Visit(ListerOf(v), Root, 0, Start(found));
    assert IsExactReport(t, found, end.order, r.value);
  }

  // ----- A root that is reached again -----

  lemma {:induction false} DistinctCounts(order: seq<u32>, c: u32)
    requires forall i, j | 0 <= i < j < |order| :: order[i] != order[j]
    ensures multiset(order)[c] == if c in order then 1 else 0
  {
    if order != [] {
      var init, last := order[..|order| - 1], order[|order| - 1];
      DistinctCounts(init, c);
      assert order == init + [last];
    }
  }

  /** Where the root has clusters of its own, the walk lists the directory at its first cluster twice
      if an entry reachable from the root leads back to it, and once if none does; every other
      directory once if it is reachable, and not otherwise. */
  lemma RootIsListedTwiceIff(v: Vol, found: seq<Anomaly>)
    requires v.geom.clusterSize > 0 && AllWalkable(v, TreeOf(v)) && RootIsClustered(v.geom)
    requires !Visit(ListerOf(v), Root, 0, Start([])).capped
    ensures var t, end, root := TreeOf(v), Visit(ListerOf(v), Root, 0, Start(found)), v.geom.rootCluster;
            var listed := [root] + end.order;
            && multiset(end.out) == multiset(found) + DeletedUnder(t, listed)
            && forall c: u32 :: multiset(listed)[c] == (if c == root then 1 else 0) + (if Reachable(t, c) then 1 else 0)
  {
    hide AllWalkable, ListerOf, Listing;
    var t, end, root := TreeOf(v), Visit(ListerOf(v), Root, 0, Start(found)), v.geom.rootCluster;
    WalkReportIsExact(v, t, found);
    DeletedUnderConcat(t, [root], end.order);
    DeletedUnderOne(t, root);
    forall c: u32
      ensures multiset([root] + end.order)[c] == (if c == root then 1 else 0) + (if Reachable(t, c) then 1 else 0)
    {
      DistinctCounts(end.order, c);
    }
  }

  // ----- Audits in general -----

  /** On every image that opens, damaged or not, an audit reports its integrity finding and then only
      deleted entries that the reader lists in directories its handles reach from the root. */
  lemma AuditReportsOnlyListed(image: seq<u8>, v: Vol, r: Result<seq<Anomaly>>)
    requires IsAudit(image, r) && Opened(image) == Ok(v)
    ensures r.Ok? && exists found ::
              IsIntegrityReport(image, v.geom, found) && OnlyListed(ListerOf(v), Root, found, r.value)
  {
    hide ListerOf;
    var boot := image[..512];
    assert SignatureAnomalies(boot) == [];
    var found :| IsIntegrityReport(image, v.geom, found) && r == Ok(Audited(image, SignatureAnomalies(boot) + found));
    assert SignatureAnomalies(boot) + found == found;
    WalkReportsOnlyListed(ListerOf(v), Root, found);
  }

  /** On every image that opens, an audit reports every deleted entry of the root. */
  lemma RootDeletedIsReported(image: seq<u8>, v: Vol, r: Result<seq<Anomaly>>, k: nat)
    requires IsAudit(image, r) && Opened(image) == Ok(v) && v.geom.clusterSize > 0
    requires k < |Listing(v, RootSource(v.geom))| && IsReported(Listing(v, RootSource(v.geom))[k])
    ensures r.Ok? && DeletedDirectoryEntry(Listing(v, RootSource(v.geom))[k].name) in r.value
  {
    hide Listing;
    var boot := image[..512];
    assert SignatureAnomalies(boot) == [];
    var found :| IsIntegrityReport(image, v.geom, found) && r == Ok(Audited(image, SignatureAnomalies(boot) + found));
    assert SignatureAnomalies(boot) + found == found;
    StartIsReported(ListerOf(v), Root, found, k);
  }

  /** An exact report holds every deleted entry of every reachable directory. */
  lemma ReachableDeletedIsReported(t: Tree, found: seq<Anomaly>, order: seq<u32>, out: seq<Anomaly>, c: u32, k: nat)
    requires IsExactReport(t, found, order, out) && Reachable(t, c)
    requires k < |t.kids(c)| && IsReported(t.kids(c)[k])
    ensures DeletedDirectoryEntry(t.kids(c)[k].name) in out
  {
    hide Reachable;
    DeletedNodeIsIn(t.kids(c), k);
    DeletedIsUnder(t, order, c, DeletedDirectoryEntry(t.kids(c)[k].name));
    assert DeletedDirectoryEntry(t.kids(c)[k].name) in multiset(out);
  }

  /** Whatever the depth of the tree, an audit reports nothing beyond its integrity finding and the
      deleted entries of the root and, for each of some distinct reachable directories, of that one. */
  lemma AuditIsSound(image: seq<u8>, v: Vol, t: Tree, r: Result<seq<Anomaly>>)
    requires IsAudit(image, r) && Opened(image) == Ok(v) && v.geom.clusterSize > 0 && AllWalkable(v, t)
    ensures r.Ok? && exists found, order ::
              IsIntegrityReport(image, v.geom, found) && IsPartialReport(t, found, order, r.value)
  {
    var boot := image[..512];
    assert SignatureAnomalies(boot) == [];
    var found :| IsIntegrityReport(image, v.geom, found) && r == Ok(Audited(image, SignatureAnomalies(boot) + found));
    assert SignatureAnomalies(boot) + found == found;
    VolumeIsNavigable(v, t);
    WalkIsSound(ListerOf(v), t, Root, found);
    assert IsPartialReport(t, found, Visit(ListerOf(v), Root, 0, Start(found)).order, r.value);
  }

  ghost predicate IsPartialReport(t: Tree, found: seq<Anomaly>, order: seq<u32>, out: seq<Anomaly>) {
    && (forall c: u32 | c in order :: Reachable(t, c))
    && (forall i, j | 0 <= i < j < |order| :: order[i] != order[j])
    && multiset(out) <= multiset(found) + DeletedIn(t.rootNodes) + DeletedUnder(t, order)
  }

  /** Where no path enters 64 directories without a repeat the audit is exact, cycles or not. */
  lemma ShallowVolumeAuditIsExact(image: seq<u8>, v: Vol, t: Tree, r: Result<seq<Anomaly>>)
    requires IsAudit(image, r) && Opened(image) == Ok(v) && v.geom.clusterSize > 0 && AllWalkable(v, t)
    requires IsShallow(t)
    ensures r.Ok? && exists found, order ::
              IsIntegrityReport(image, v.geom, found) && IsExactReport(t, found, order, r.value)
  {
    VolumeIsNavigable(v, t);
    ShallowTreesAreNeverCapped(ListerOf(v), t, Root, []);
    AuditIsExact(image, v, t, r);
  }

  /** A FAT directory of at most 65536 slots away from the fixed-root marker. */
  ghost predicate IsOrdinary(v: Vol, source: DirSource)
    requires v.geom.clusterSize > 0
  {
    Handles.Addressable(source) && SlotCount(DirBytes(v, source)) <= 0x1_0000
  }

  /** So the audit of a FAT12/16/32 volume is exact if its root and every directory reachable by FAT
      chain are ordinary and no path enters 64 of them without a repeat. */
  lemma FatAuditIsExact(image: seq<u8>, v: Vol, r: Result<seq<Anomaly>>)
    requires IsAudit(image, r) && Opened(image) == Ok(v) && v.geom.clusterSize > 0 && IsFat(v)
    requires IsOrdinary(v, RootSource(v.geom)) && IsShallow(TreeOf(v))
    requires forall c: u32 | Reachable(TreeOf(v), c) :: IsOrdinary(v, ChainFrom(c, 0, false))
    ensures r.Ok? && exists found, order ::
              IsIntegrityReport(image, v.geom, found) && IsExactReport(TreeOf(v), found, order, r.value)
  {
    hide IsAudit, Opened, IsOrdinary, Listing, Walkable, IsExactReport, IsIntegrityReport;
    var t := TreeOf(v);
    OrdinaryIsWalkable(v, RootSource(v.geom));
    forall c: u32 | Reachable(t, c) ensures Walkable(v, t, t.kids(c)) {
      OrdinaryIsWalkable(v, ChainFrom(c, 0, false));
    }
    ShallowVolumeAuditIsExact(image, v, t, r);
  }

  lemma OrdinaryIsWalkable(v: Vol, source: DirSource)
    requires v.geom.clusterSize > 0 && IsFat(v) && IsOrdinary(v, source)
    ensures Walkable(v, TreeOf(v), Listing(v, source))
  {
    FatIsWalkable(v, source);
  }

  lemma {:induction false} DeletedNames(slots: seq<Slot>, n: nat, k: nat)
    requires n <= |slots| && k < |Dirent.EntriesUpTo(slots, n)| && Dirent.EntriesUpTo(slots, n)[k].deleted
    ensures Dirent.EntriesUpTo(slots, n)[k].name != "." && Dirent.EntriesUpTo(slots, n)[k].name != ".."
  {
    hide Dirent.DecodeShort;
    if k < |Dirent.EntriesUpTo(slots, n - 1)| {
      DeletedNames(slots, n - 1, k);
    } else {
      DeletedFlag(slots[n - 1], n - 1);
      ShortRecords.DeletedIsNeverDot(slots[n - 1], n - 1);
    }
  }

  lemma DeletedFlag(s: Slot, i: nat)
    ensures forall long :: !Dirent.DecodeShort(s, i, long, false).deleted
  {}

  /** On FAT12/16/32 the skip of "." and ".." never hides a deleted entry. */
  lemma DeletedAreReported(v: Vol, source: DirSource, k: nat)
    requires v.geom.clusterSize > 0 && IsFat(v) && k < |Listing(v, source)|
    ensures IsReported(Listing(v, source)[k]) <==> Listing(v, source)[k].isDeleted
  {
    var slots := SlotsOf(DirBytes(v, source));
    if Listing(v, source)[k].isDeleted { DeletedNames(slots, Dirent.EndOf(slots), k); }
  }

  // ----- Anomalies already reported do not steer the walk -----

  function Prefixed(st: State, before: seq<Anomaly>): State { st.(out := before + st.out) }

  lemma {:induction false} CapIgnoresReports(list: Lister, dir: FileId, depth: nat, st: State, before: seq<Anomaly>)
    requires depth <= MAX_DEPTH
    ensures Visit(list, dir, depth, Prefixed(st, before)) == Prefixed(Visit(list, dir, depth, st), before)
    decreases MAX_DEPTH - depth, 1, 0
  {
    if depth < MAX_DEPTH && list(dir).Ok? {
      NodesIgnoreReports(list, list(dir).value, depth, st.(calls := st.calls + 1), before);
    }
  }

  lemma {:induction false} NodesIgnoreReports(
    list: Lister, nodes: seq<Node>, depth: nat, st: State, before: seq<Anomaly>)
    requires depth < MAX_DEPTH
    ensures VisitNodes(list, nodes, depth, Prefixed(st, before)) == Prefixed(VisitNodes(list, nodes, depth, st), before)
    decreases MAX_DEPTH - depth, 0, |nodes|
  {
    if nodes != [] {
      var n := nodes[0];
      if IsReported(n) {
        var report := [DeletedDirectoryEntry(n.name)];
        assert before + (st.out + report) == before + st.out + report;
      } else if IsEdge(n) && n.firstCluster !in st.seen {
        CapIgnoresReports(list, n.id, depth + 1, Insert(st, n.firstCluster), before);
      }
      NodesIgnoreReports(list, nodes[1..], depth, VisitNode(list, n, depth, st), before);
    }
  }
}
