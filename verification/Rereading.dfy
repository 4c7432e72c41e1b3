/** Which directories are re-read through their handles as they were listed, and what becomes of
    each entry where they are not. The parent of a handle is always re-read by FAT chain, and
    cluster 0xFFFFFFFF means the fixed root. */
module Rereading {
  import opened Bytes
  import opened Wrappers
  import opened Fat
  import opened Boot
  import opened Slots
  import opened Image
  import opened Volume
  import opened FileMap
  import opened Fs
  import opened FsProofs
  import opened Handles
  import Exfat
  import opened ExfatProofs

  // ----- Images of one volume -----

  /** The image has the geometry and the FAT of this volume. */
  ghost predicate OpensAs(v: Vol, image: seq<u8>) { Opened(image) == Ok(v.(image := image)) }

  function FatLength(g: Geometry): nat { Min(Span(g.fatSizeSectors, g.bytesPerSector), MAX_FAT_BYTES) }

  /** The clusters lie behind the boot sector and the FAT, so their bytes do not change the volume. */
  predicate HeapBehind(g: Geometry) { 512 <= g.dataStart && g.fatStart + FatLength(g) <= g.dataStart }

  /** The image does not end inside the FAT. */
  predicate FatIsWhole(v: Vol) { |v.fat| == FatLength(v.geom) }

  /** The fixed root lies behind the FAT and before the data, or is empty. */
  predicate RootInPlace(g: Geometry) {
    && g.rootDirStart + g.rootDirBytes <= g.dataStart
    && (g.rootDirBytes > 0 ==> g.fatStart + FatLength(g) <= g.rootDirStart)
    && (RootIsClustered(g) ==> g.rootDirBytes == 0)
  }

  lemma OpenedRoot(image: seq<u8>)
    requires Opened(image).Ok?
    ensures var g := Opened(image).value.geom; RootInPlace(g) && (g.variant != ExFat ==> HeapBehind(g))
  {
    var boot, g := image[..512], Opened(image).value.geom;
    if Exfat.HasSignature(boot) {
      Exfat.AcceptedFits(boot);
    } else {
      AcceptedIsLaidOut(boot);
      FatsHoldOne(boot, g);
    }
  }

  lemma FatsHoldOne(boot: seq<u8>, g: Geometry)
    requires Parse(boot) == Ok(g)
    ensures g.fatStart >= 512 && g.fatStart + Span(g.fatSizeSectors, g.bytesPerSector) <= FatEnd(g)
  {
    MulLe(1, g.numFats, g.fatSizeSectors);
    MulLe(g.fatSizeSectors, g.numFats * g.fatSizeSectors, g.bytesPerSector);
    MulLe(1, g.reservedSectors, g.bytesPerSector);
  }

  // ----- Telling cluster lists apart by the bytes they give -----

  /** An image of the volume that backs every cluster number: `mark` throughout cluster `c`, zeros
      in every other cluster. */
  function Marked(v: Vol, c: u32, mark: u8): seq<u8> {
    var start, from := v.geom.dataStart, OffsetOf(v.geom, c);
    seq(start + Span(U32_MAX, v.geom.clusterSize), i requires i >= 0 =>
      if i < start then U8At(v.image, i) else if from <= i < from + v.geom.clusterSize then mark else 0)
  }

  lemma MarkedByte(v: Vol, c: u32, mark: u8, d: u32, j: nat)
    requires Fits(v.geom) && c >= 2 && d >= 2 && j < v.geom.clusterSize
    ensures OffsetOf(v.geom, d) + j < |Marked(v, c, mark)|
    ensures Marked(v, c, mark)[OffsetOf(v.geom, d) + j] == if c == d then mark else 0
  {
    var g := v.geom;
    OffsetExists(g, d);
    ClusterEnd(d - 2, U32_MAX, g.clusterSize);
    if c < d {
      ClustersDisjoint(g, c, d);
      assert OffsetOf(g, c) + g.clusterSize <= OffsetOf(g, d);
    } else if d < c {
      ClustersDisjoint(g, d, c);
      assert OffsetOf(g, d) + g.clusterSize <= OffsetOf(g, c);
    } else {
      assert OffsetOf(g, c) == OffsetOf(g, d);
    }
  }

  /** Marking a cluster keeps the boot sector and the FAT. */
  lemma MarkedOpens(v: Vol, c: u32, mark: u8)
    requires OpensAs(v, v.image) && HeapBehind(v.geom) && FatIsWhole(v)
    ensures OpensAs(v, Marked(v, c, mark))
  {
    hide OpensAs, Window;
    var marked, g := Marked(v, c, mark), v.geom;
    OpenedParts(v);
    assert marked[..512] == v.image[..512];
    SameWindow(v.image, marked, g.fatStart, FatLength(g), g.dataStart);
    SameStartOpens(v, marked);
  }

  lemma OpenedParts(v: Vol)
    requires OpensAs(v, v.image)
    ensures |v.image| >= 512 && v.fat == Window(v.image, v.geom.fatStart, FatLength(v.geom))
  {}

  lemma SameStartOpens(v: Vol, image: seq<u8>)
    requires OpensAs(v, v.image) && |image| >= 512 && |v.image| >= 512 && image[..512] == v.image[..512]
    requires v.fat == Window(image, v.geom.fatStart, FatLength(v.geom))
    ensures OpensAs(v, image)
  {
    hide Parse, Exfat.ParseBoot, Window;
  }

  lemma SameWindow(a: seq<u8>, b: seq<u8>, off: nat, len: nat, n: nat)
    requires |Window(a, off, len)| == len && off + len <= n <= |b|
    requires forall i | 0 <= i < n && i < |a| :: b[i] == a[i]
    ensures Window(b, off, len) == Window(a, off, len)
  {}

  /** A directory below the size cap. */
  predicate UnderCap(v: Vol, chain: seq<u32>) { chain == [] || Span(|chain| - 1, v.geom.clusterSize) < MAX_DIR_BYTES }

  predicate AreClusters(chain: seq<u32>) { forall c | c in chain :: c >= 2 }

  lemma HeadAndTail(chain: seq<u32>)
    requires AreClusters(chain) && chain != []
    ensures chain[0] >= 2 && AreClusters(chain[1..])
  {
    assert chain[0] in chain && forall c | c in chain[1..] :: c in chain;
  }

  lemma MarkedIsBacked(v: Vol, c: u32, mark: u8, chain: seq<u32>)
    requires Sound(v) && c >= 2 && AreClusters(chain)
    ensures Backed(v.(image := Marked(v, c, mark)), chain)
  {
    forall i | 0 <= i < |chain|
      ensures chain[i] >= 2 && OffsetOf(v.geom, chain[i]) + v.geom.clusterSize <= |Marked(v, c, mark)|
    {
      assert chain[i] in chain;
      MarkedByte(v, c, mark, chain[i], v.geom.clusterSize - 1);
    }
  }

  /** Where every cluster is backed, byte k * clusterSize of a directory is the first of cluster k. */
  lemma FirstOfCluster(v: Vol, chain: seq<u32>, k: nat)
    requires Sound(v) && Backed(v, chain) && UnderCap(v, chain) && k < |chain|
    ensures var bytes := Gather(v, chain, []);
            && |bytes| == Span(|chain|, v.geom.clusterSize) && Span(k, v.geom.clusterSize) < |bytes|
            && OffsetOf(v.geom, chain[k]) < |v.image|
            && bytes[Span(k, v.geom.clusterSize)] == v.image[OffsetOf(v.geom, chain[k])]
  {
    BackedDirectory(v, chain);
    hide Gather;
    AddrInCluster(v.geom, chain, k, 0);
    var bytes, p := Gather(v, chain, []), Span(k, v.geom.clusterSize);
    assert Values(bytes)[p] == Content(v.image, v.geom, chain, Span(|chain|, v.geom.clusterSize))[p];
  }

  lemma BackedDirectory(v: Vol, chain: seq<u32>)
    requires Sound(v) && Backed(v, chain) && UnderCap(v, chain)
    ensures Values(Gather(v, chain, [])) == Content(v.image, v.geom, chain, Span(|chain|, v.geom.clusterSize))
  {
    assert chain[0..] == chain;
    SpanOfNone(v.geom.clusterSize);
    GatherAppends(v, chain, [], 0);
  }

  /** On a marked image a directory is as long as its clusters, and the first byte of each tells
      whether it is the marked one. */
  lemma DirectoryOnMarked(v: Vol, c: u32, mark: u8, chain: seq<u32>)
    requires Sound(v) && c >= 2 && AreClusters(chain) && UnderCap(v, chain)
    ensures var bytes := Gather(v.(image := Marked(v, c, mark)), chain, []);
            && |bytes| == Span(|chain|, v.geom.clusterSize)
            && forall k | 0 <= k < |chain| :: Span(k, v.geom.clusterSize) < |bytes|
                 && bytes[Span(k, v.geom.clusterSize)] == if chain[k] == c then mark else 0
  {
    hide Gather, Marked, Span;
    var m := v.(image := Marked(v, c, mark));
    MarkedIsBacked(v, c, mark, chain);
    BackedDirectory(m, chain);
    forall k | 0 <= k < |chain|
      ensures chain[k] in chain && Span(k, v.geom.clusterSize) < |Gather(m, chain, [])|
      ensures Gather(m, chain, [])[Span(k, v.geom.clusterSize)] == if chain[k] == c then mark else 0
    {
      FirstOfCluster(m, chain, k);
      MarkedByte(v, c, mark, chain[k], 0);
    }
  }

  lemma SpanOfNone(size: nat)
    ensures Span(0, size) == 0
  {}

  lemma SpanInjective(a: nat, b: nat, size: nat)
    requires size > 0 && a < b
    ensures Span(a, size) < Span(b, size)
  {
    ClusterEnd(a, b, size);
  }

  /** Different cluster lists give different directories in some image of the volume. */
  lemma DifferentClustersShow(v: Vol, a: seq<u32>, b: seq<u32>) returns (image: seq<u8>)
    requires OpensAs(v, v.image) && HeapBehind(v.geom) && FatIsWhole(v) && Sound(v)
    requires AreClusters(a) && AreClusters(b) && UnderCap(v, a) && UnderCap(v, b) && a != b
    ensures OpensAs(v, image) && Gather(v.(image := image), a, []) != Gather(v.(image := image), b, [])
  {
    hide Gather, Marked, OpensAs;
    var c: u32 := 2;
    if |a| == |b| {
      var k :| 0 <= k < |a| && a[k] != b[k];
      assert a[k] in a;
      c := a[k];
    } else {
      SpanInjective(Min(|a|, |b|), if |a| < |b| then |b| else |a|, v.geom.clusterSize);
    }
    image := Marked(v, c, 1);
    MarkedOpens(v, c, 1);
    DirectoryOnMarked(v, c, 1, a);
    DirectoryOnMarked(v, c, 1, b);
  }

  // ----- Re-reading in every image -----

  /** In every image of the volume, handles into the directory see it as it was listed. */
  ghost predicate AlwaysRereads(v: Vol, source: DirSource)
    requires v.geom.clusterSize > 0
  {
    forall image: seq<u8> | OpensAs(v, image) :: Rereads(v.(image := image), source)
  }

  function SourceClusters(v: Vol, source: DirSource): (s: seq<u32>)
    requires v.geom.clusterSize > 0 && source.ChainFrom?
    ensures AreClusters(s)
  {
    Clusters(v, source.firstCluster, source.size, source.contiguous)
  }

  /** The clusters a handle into the directory re-reads it from. */
  function RereadClusters(v: Vol, source: DirSource): (s: seq<u32>)
    requires v.geom.clusterSize > 0 && source.ChainFrom?
    ensures AreClusters(s)
  {
    Clusters(v, source.firstCluster, 0, false)
  }

  lemma RereadsByClusters(v: Vol, image: seq<u8>, source: DirSource)
    requires v.geom.clusterSize > 0 && source.ChainFrom? && source.firstCluster != FIXED_ROOT
    ensures var w := v.(image := image);
            Rereads(w, source) <==>
            Gather(w, RereadClusters(v, source), []) == Gather(w, SourceClusters(v, source), [])
  {}

  /** Away from the marker cluster, handles re-read a directory in every image of the volume exactly
      when its FAT chain lists the same clusters. */
  lemma AlwaysRereadsIffSameClusters(v: Vol, source: DirSource)
    requires OpensAs(v, v.image) && HeapBehind(v.geom) && FatIsWhole(v) && Sound(v)
    requires source.ChainFrom? && source.firstCluster != FIXED_ROOT
    requires UnderCap(v, SourceClusters(v, source)) && UnderCap(v, RereadClusters(v, source))
    ensures AlwaysRereads(v, source) <==> RereadClusters(v, source) == SourceClusters(v, source)
  {
    hide Gather, Rereads, UnderCap, OpensAs;
    var a, b := RereadClusters(v, source), SourceClusters(v, source);
    forall image: seq<u8>
      ensures Rereads(v.(image := image), source) <==>
              Gather(v.(image := image), a, []) == Gather(v.(image := image), b, [])
    {
      RereadsByClusters(v, image, source);
    }
    if a != b {
      var image := DifferentClustersShow(v, a, b);
      assert !Rereads(v.(image := image), source);
    }
  }

  /** A directory that begins at the marker cluster lists that cluster first; the fixed root is read
      in its place, and some image of the volume tells them apart. */
  lemma MarkerIsNotReread(v: Vol, source: DirSource)
    requires OpensAs(v, v.image) && HeapBehind(v.geom) && FatIsWhole(v) && Sound(v)
    requires source.ChainFrom? && source.firstCluster == FIXED_ROOT
    requires RootInPlace(v.geom) && UnderCap(v, SourceClusters(v, source))
    ensures !AlwaysRereads(v, source)
  {
    hide Marked, Gather, Clusters, DirBytes, OpensAs;
    var mark: u8 := if U8At(v.image, v.geom.rootDirStart) == 1 then 2 else 1;
    var image, chain := Marked(v, FIXED_ROOT, mark), SourceClusters(v, source);
    MarkedOpens(v, FIXED_ROOT, mark);
    StartsAtFirst(v, source.firstCluster, source.size, source.contiguous);
    DirectoryOnMarked(v, FIXED_ROOT, mark, chain);
    SpanOfNone(v.geom.clusterSize);
    ListedFromClusters(v, image, source);
    FixedRootUnmarked(v, mark);
    assert !Rereads(v.(image := image), source);
  }

  lemma ListedFromClusters(v: Vol, image: seq<u8>, source: DirSource)
    requires v.geom.clusterSize > 0 && source.ChainFrom?
    ensures DirBytes(v.(image := image), source) == Gather(v.(image := image), SourceClusters(v, source), [])
  {}

  lemma FixedRootUnmarked(v: Vol, mark: u8)
    requires Sound(v) && RootInPlace(v.geom)
    ensures var bytes := DirBytes(v.(image := Marked(v, FIXED_ROOT, mark)), FixedRoot);
            bytes != [] ==> bytes[0] == U8At(v.image, v.geom.rootDirStart)
  {
    var m := v.(image := Marked(v, FIXED_ROOT, mark));
    if DirBytes(m, FixedRoot) != [] {
      assert DirBytes(m, FixedRoot)[0] == m.image[v.geom.rootDirStart];
    }
  }

  lemma {:induction false} NothingGathered(v: Vol, chain: seq<u32>)
    requires Sound(v) && AreClusters(chain) && |v.image| <= v.geom.dataStart
    ensures Gather(v, chain, []) == []
    decreases |chain|
  {
    if chain != [] {
      HeadAndTail(chain);
      OffsetExists(v.geom, chain[0]);
      NothingGathered(v, chain[1..]);
    }
  }

  /** Every image of a volume whose FAT is cut short ends there: no directory holds anything. */
  lemma CutFatAlwaysRereads(v: Vol, source: DirSource)
    requires Sound(v) && HeapBehind(v.geom) && RootInPlace(v.geom) && !FatIsWhole(v) && source.ChainFrom?
    ensures AlwaysRereads(v, source)
  {
    forall image: seq<u8> | OpensAs(v, image) ensures Rereads(v.(image := image), source) {
      var w := v.(image := image);
      CutFatEndsImage(v, image);
      hide OpensAs;
      NothingGathered(w, SourceClusters(w, source));
      NothingGathered(w, RereadClusters(w, source));
      assert DirBytes(w, FixedRoot) == [];
    }
  }

  lemma CutFatEndsImage(v: Vol, image: seq<u8>)
    requires OpensAs(v, image) && !FatIsWhole(v)
    ensures |image| < v.geom.fatStart + FatLength(v.geom)
  {}

  /** Exactly these directories are re-read as listed in every image of an opened volume whose
      clusters lie behind its FAT: all of them if the image ends inside the FAT; otherwise the fixed
      root, and those away from the marker cluster whose FAT chain lists the same clusters. */
  lemma AlwaysRereadsIff(v: Vol, source: DirSource)
    requires Opened(v.image) == Ok(v) && v.geom.clusterSize > 0 && (v.geom.variant == ExFat ==> HeapBehind(v.geom))
    requires source.ChainFrom? ==> UnderCap(v, SourceClusters(v, source)) && UnderCap(v, RereadClusters(v, source))
    ensures AlwaysRereads(v, source) <==>
            source.FixedRoot? || !FatIsWhole(v) ||
            (source.firstCluster != FIXED_ROOT && RereadClusters(v, source) == SourceClusters(v, source))
  {
    hide UnderCap, SourceClusters, RereadClusters, Opened, RootInPlace, HeapBehind, FatIsWhole;
    OpenedIsSound(v.image);
    OpenedRoot(v.image);
    if source.ChainFrom? {
      if !FatIsWhole(v) {
        CutFatAlwaysRereads(v, source);
      } else if source.firstCluster == FIXED_ROOT {
        MarkerIsNotReread(v, source);
      } else {
        AlwaysRereadsIffSameClusters(v, source);
      }
    }
  }

  // ----- Entry by entry, on exFAT -----

  /** The slots of the directory as it is listed, and as a handle into it re-reads it. */
  function OwnSlots(v: Vol, source: DirSource): seq<Slot>
    requires v.geom.clusterSize > 0
  {
    SlotsOf(DirBytes(v, source))
  }

  function RereadSlots(v: Vol, source: DirSource): seq<Slot>
    requires v.geom.clusterSize > 0
  {
    SlotsOf(DirBytes(v, ParentSource(SourceMarker(source))))
  }

  lemma FindIndexCons(n: Node, rest: seq<Node>, index: u16)
    requires n.id.Entry?
    ensures FindIndex([n] + rest, index) == if n.id.index == index then Ok(n) else FindIndex(rest, index)
  {
    assert ([n] + rest)[1..] == rest;
  }

  lemma ExfatNodesCons(marker: u32, e: Exfat.ExfatDirEntry, rest: seq<Exfat.ExfatDirEntry>)
    ensures ExfatNodes(marker, [e] + rest) == [NodeFromExfat(marker, e)] + ExfatNodes(marker, rest)
  {}

  /** Finding an index among the listed nodes is finding the first slot that carries it. */
  lemma {:induction false} FindIndexIsStartOf(marker: u32, slots: seq<Slot>, i: nat, index: u16)
    ensures var found := FindIndex(ExfatNodes(marker, Exfat.SetsFrom(slots, i)), index);
            match StartOf(slots, i, index)
            case None => found.Err?
            case Some(p) => found == Ok(NodeFromExfat(marker, Exfat.SetAt(slots, p)))
    decreases |slots| - i
  {
    hide Exfat.SetAt, ExfatNodes, FindIndex, NodeFromExfat, Exfat.IsFile, HasFileType;
    if i < |slots| { FileTypes(slots[i]); }
    if i >= |slots| || Exfat.IsEnd(slots[i]) {
      NoNodes(marker, index);
    } else if Exfat.IsFile(slots[i]) {
      var rest := Exfat.SetsFrom(slots, i + 1 + slots[i][1]);
      SetIndex(slots, i);
      NodeIndex(marker, Exfat.SetAt(slots, i));
      ExfatNodesCons(marker, Exfat.SetAt(slots, i), rest);
      FindIndexCons(NodeFromExfat(marker, Exfat.SetAt(slots, i)), ExfatNodes(marker, rest), index);
      FindIndexIsStartOf(marker, slots, i + 1 + slots[i][1], index);
    } else {
      FindIndexIsStartOf(marker, slots, i + 1, index);
    }
  }

  lemma NodeIndex(marker: u32, e: Exfat.ExfatDirEntry)
    ensures NodeFromExfat(marker, e).id == Entry(marker, e.index)
  {}

  lemma NoNodes(marker: u32, index: u16)
    ensures FindIndex(ExfatNodes(marker, []), index).Err?
  {}

  lemma NodesAtStarts(v: Vol, source: DirSource)
    requires v.geom.clusterSize > 0 && !IsFat(v)
    ensures |Listing(v, source)| == |StartSlots(OwnSlots(v, source), 0)|
  {}

  /** The slot of the k-th listed node. */
  function SlotOfNode(v: Vol, source: DirSource, k: nat): nat
    requires v.geom.clusterSize > 0 && !IsFat(v) && k < |Listing(v, source)|
  {
    StartSlots(OwnSlots(v, source), 0)[k]
  }

  lemma SameEntry(marker: u32, a: Exfat.ExfatDirEntry, b: Exfat.ExfatDirEntry)
    ensures NodeFromExfat(marker, a) == NodeFromExfat(marker, b) <==> a == b
  {}

  /** What the handle of any listed exFAT node resolves to, in any directory: the first entry with
      its index that reading the re-read slots finds, or an error. It is the node itself exactly
      when there is one and it decodes as listed. */
  lemma ExfatHandleResolves(v: Vol, source: DirSource, k: nat)
    requires v.geom.clusterSize > 0 && !IsFat(v) && k < |Listing(v, source)|
    ensures var p, slots, marker := SlotOfNode(v, source, k), RereadSlots(v, source), SourceMarker(source);
            var n, at := Listing(v, source)[k], StartOf(slots, 0, IndexOf(p));
            && n == NodeFromExfat(marker, Exfat.SetAt(OwnSlots(v, source), p)) && n.id == Entry(marker, IndexOf(p))
            && (at.None? ==> Meta(v, n.id).Err?)
            && (at.Some? ==> Meta(v, n.id) == Ok(NodeFromExfat(marker, Exfat.SetAt(slots, at.value))))
            && (Meta(v, n.id) == Ok(n) <==>
                at.Some? && Exfat.SetAt(slots, at.value) == Exfat.SetAt(OwnSlots(v, source), p))
  {
    hide Exfat.SetAt, Exfat.SetsFrom, StartSlots, StartOf, DirBytes;
    var listed, slots, marker := OwnSlots(v, source), RereadSlots(v, source), SourceMarker(source);
    var p := SlotOfNode(v, source, k);
    SetsAtStarts(listed, 0, k);
    FindIndexIsStartOf(marker, slots, 0, IndexOf(p));
    SetIndex(listed, p);
    var at := StartOf(slots, 0, IndexOf(p));
    if at.Some? { SameEntry(marker, Exfat.SetAt(slots, at.value), Exfat.SetAt(listed, p)); }
  }

  lemma SetIndex(slots: seq<Slot>, p: nat)
    requires p < |slots|
    ensures Exfat.SetAt(slots, p).index == IndexOf(p)
  {}

  /** Where the re-read slots are the first `n` of the listed ones, the handle of a set at a slot
      its index can hold is an error exactly when the slot is not among them; otherwise it resolves
      to what is left of the set there, which is the listed node whenever the set ends by then. */
  lemma CutHandleIsStableIff(v: Vol, source: DirSource, k: nat, n: nat)
    requires v.geom.clusterSize > 0 && !IsFat(v) && k < |Listing(v, source)|
    requires n <= |OwnSlots(v, source)| && RereadSlots(v, source) == OwnSlots(v, source)[..n]
    requires SlotOfNode(v, source, k) <= U16_MAX
    ensures var p, slots := SlotOfNode(v, source, k), OwnSlots(v, source);
            var node := Listing(v, source)[k];
            && (Meta(v, node.id).Err? <==> p >= n)
            && (p < n ==> Meta(v, node.id) == Ok(NodeFromExfat(SourceMarker(source), Exfat.SetAt(slots[..n], p))))
            && (Meta(v, node.id) == Ok(node) <==> p < n && Exfat.SetAt(slots[..n], p) == Exfat.SetAt(slots, p))
            && (p + 1 + slots[p][1] <= n ==> Meta(v, node.id) == Ok(node))
  {
    hide Exfat.SetAt, Exfat.SetsFrom, StartSlots, StartOf, DirBytes, Listing, Meta;
    var p, slots := SlotOfNode(v, source, k), OwnSlots(v, source);
    NodesAtStarts(v, source);
    ExfatHandleResolves(v, source, k);
    StartOfCut(slots, n, 0, k);
    if p + 1 + slots[p][1] <= n {
      SetAtPrefix(slots[..n], slots[n..], p);
      assert slots[..n] + slots[n..] == slots;
    }
  }

  /** A set of which only the File entry is left has no name, no size and no cluster. */
  lemma CutSetIsEmpty(slots: seq<Slot>, n: nat)
    requires n < |slots|
    ensures var e := Exfat.SetAt(slots[..n + 1], n);
            e.name == "" && e.size == 0 && e.firstCluster == 0 && !e.contiguous
  {
    assert Exfat.Secondaries(slots[..n + 1], n) == [];
  }

  // ----- When the re-read slots are the first of the listed ones -----

  lemma {:induction false} GatherSplit(v: Vol, a: seq<u32>, b: seq<u32>, out: seq<u8>)
    requires Sound(v) && AreClusters(a)
    ensures Gather(v, a + b, out) == Gather(v, b, Gather(v, a, out))
    decreases |a|
  {
    if a == [] {
      assert a + b == b;
    } else if |out| < MAX_DIR_BYTES {
      HeadAndTail(a);
      OffsetExists(v.geom, a[0]);
      assert (a + b)[1..] == a[1..] + b;
      GatherSplit(v, a[1..], b, out + Window(v.image, ClusterOffset(v.geom, a[0]).value, v.geom.clusterSize));
    }
  }

  lemma {:induction false} GatherKeeps(v: Vol, chain: seq<u32>, out: seq<u8>)
    ensures out <= Gather(v, chain, out)
    decreases |chain|
  {
    if chain != [] && |out| < MAX_DIR_BYTES && ClusterOffset(v.geom, chain[0]).Some? {
      GatherKeeps(v, chain[1..], out + Window(v.image, ClusterOffset(v.geom, chain[0]).value, v.geom.clusterSize));
    }
  }

  lemma PrefixSlots(a: seq<u8>, b: seq<u8>)
    requires a <= b
    ensures SlotsOf(a) == SlotsOf(b)[..SlotCount(a)]
  {
    forall i | 0 <= i < SlotCount(a) ensures SlotAt(a, i) == SlotAt(b, i) {
      assert a[32 * i..32 * i + 32] == b[32 * i..32 * i + 32];
    }
  }

  /** A directory whose FAT chain lists the first of its clusters is re-read as the first of its
      slots. */
  lemma RereadIsPrefix(v: Vol, source: DirSource)
    requires Sound(v) && source.ChainFrom? && source.firstCluster != FIXED_ROOT
    requires RereadClusters(v, source) <= SourceClusters(v, source)
    ensures |RereadSlots(v, source)| <= |OwnSlots(v, source)|
    ensures RereadSlots(v, source) == OwnSlots(v, source)[..|RereadSlots(v, source)|]
  {
    hide Gather;
    var a, all := RereadClusters(v, source), SourceClusters(v, source);
    var b := all[|a|..];
    assert all == a + b;
    GatherSplit(v, a, b, []);
    GatherKeeps(v, b, Gather(v, a, []));
    PrefixSlots(Gather(v, a, []), Gather(v, all, []));
  }

  /** The parent of an exFAT handle is re-read by FAT chain, so a contiguous directory whose
      first FAT entry is a terminator is seen one cluster long. */
  lemma ContiguousRereadIsOneCluster(v: Vol, source: DirSource)
    requires Sound(v) && source.ChainFrom? && 2 <= source.firstCluster < FIXED_ROOT
    requires Stops(v.geom.variant, FatEntry(v.fat, v.geom.variant, source.firstCluster))
    ensures RereadClusters(v, source) == [source.firstCluster] && RereadClusters(v, source) <= SourceClusters(v, source)
    ensures |RereadSlots(v, source)| ==
            SlotCount(Window(v.image, OffsetOf(v.geom, source.firstCluster), v.geom.clusterSize))
  {
    var first := source.firstCluster;
    OffsetExists(v.geom, first);
    StartsAtFirst(v, source.firstCluster, source.size, source.contiguous);
    assert Chain(v.fat, v.geom.variant, first, v.maxClusters) == [first];
    var w := Window(v.image, OffsetOf(v.geom, first), v.geom.clusterSize);
    assert Gather(v, [first], []) == Gather(v, [first][1..], [] + w);
  }

  // ----- The marker cluster -----

  /** The nodes of a directory at the marker cluster carry handles into the fixed root: an error
      where the root has clusters of its own, and otherwise whatever the fixed root lists there. */
  lemma MarkerDirectoryIsMisresolved(image: seq<u8>, v: Vol, source: DirSource, k: nat)
    requires Opened(image) == Ok(v) && v.geom.clusterSize > 0
    requires source.ChainFrom? && source.firstCluster == FIXED_ROOT && k < |Listing(v, source)|
    ensures var n := Listing(v, source)[k];
            if RootIsClustered(v.geom) then Meta(v, n.id).Err?
            else Meta(v, n.id) == FindIndex(Listing(v, FixedRoot), n.id.index)
  {
    hide Opened;
    OpenedRoot(image);
    var n := Listing(v, source)[k];
    if RootIsClustered(v.geom) {
      assert DirBytes(v, FixedRoot) == [];
      NothingListed(v, FIXED_ROOT);
    }
  }

  lemma NothingListed(v: Vol, marker: u32)
    ensures ListNodes(v, [], marker) == []
  {
    assert SlotsOf([]) == [];
  }
}
