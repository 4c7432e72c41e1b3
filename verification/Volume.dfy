/** What an opened volume means, as functions of the image bytes: clusters of a node,
    bytes of a directory, nodes listed in it, and how a handle is resolved. */
module Volume {
  import opened Bytes
  import opened Wrappers
  import opened Fat
  import opened Boot
  import opened Slots
  import opened Image
  import Dirent
  import Exfat
  import Text
  import Time

  const MAX_DIR_BYTES := 64 * 1024 * 1024
  const MAX_FAT_BYTES := 256 * 1024 * 1024
  /** The parent marker of the FAT12/16 fixed root. */
  const FIXED_ROOT: u32 := U32_MAX

  datatype FileId = Root | Entry(dirCluster: u32, index: u16)

  datatype Node = Node(
    id: FileId, name: string, shortName: string, isDir: bool, isDeleted: bool, isVolumeLabel: bool, size: u64,
    attributes: nat, firstCluster: u32, contiguous: bool,
    created: Option<Time.FatTimestamp>, modified: Option<Time.FatTimestamp>, accessed: Option<Time.FatTimestamp>)

  datatype DirSource = FixedRoot | ChainFrom(firstCluster: u32, size: u64, contiguous: bool)

  /** An opened volume: the image, its geometry, the cached first FAT and the chain cap. */
  datatype Vol = Vol(image: seq<u8>, geom: Geometry, fat: seq<u8>, maxClusters: nat)

  predicate IsFat(v: Vol) { v.geom.variant != ExFat }

  // ----- Clusters and extents -----

  /** The numbers first, first + 1, ... of an extent of n clusters: at most `cap` of them, and
      none that leaves 32 bits. */
  function Contiguous(first: u32, n: nat, cap: nat): (s: seq<u32>)
    ensures first >= 2 ==> forall c | c in s :: c >= 2
  {
    seq(Min(Min(n, cap), 0x1_0000_0000 - first), i requires 0 <= i < 0x1_0000_0000 - first => first + i)
  }

  function Clusters(v: Vol, first: u32, size: u64, contiguous: bool): (s: seq<u32>)
    requires v.geom.clusterSize > 0
    ensures forall c | c in s :: c >= 2
    ensures |s| <= v.maxClusters
  {
    if first < 2 then []
    else if contiguous && size > 0 then Contiguous(first, DivCeil(size, v.geom.clusterSize), v.maxClusters)
    else Chain(v.fat, v.geom.variant, first, v.maxClusters)
  }

  datatype Extent = Extent(chain: seq<u32>, total: nat)

  function ExtentOf(v: Vol, first: u32, size: u64, contiguous: bool): (e: Extent)
    requires v.geom.clusterSize > 0
    ensures forall c | c in e.chain :: c >= 2
  {
    var clusters := Clusters(v, first, size, contiguous);
    Extent(clusters, if size > 0 then size else Span(|clusters|, v.geom.clusterSize))
  }

  // ----- Directories -----

  /** The bytes of the listed clusters, each as far as the image backs it, up to the cap. */
  function Gather(v: Vol, clusters: seq<u32>, out: seq<u8>): seq<u8>
    decreases |clusters|
  {
    if clusters == [] || |out| >= MAX_DIR_BYTES then out
    else
      match ClusterOffset(v.geom, clusters[0])
      case None => out
      case Some(base) => Gather(v, clusters[1..], out + Window(v.image, base, v.geom.clusterSize))
  }

  function DirBytes(v: Vol, source: DirSource): seq<u8>
    requires v.geom.clusterSize > 0
  {
    match source
    case FixedRoot => Window(v.image, v.geom.rootDirStart, v.geom.rootDirBytes)
    case ChainFrom(first, size, contiguous) => Gather(v, Clusters(v, first, size, contiguous), [])
  }

  function NodeFrom(marker: u32, e: Dirent.DirEntry): Node {
    Node(Entry(marker, e.index), e.name, e.shortName, e.isDir, e.deleted, e.isVolumeLabel, e.size, e.attributes,
      e.firstCluster, false, Time.Decode(e.createdDate, e.createdTime, e.createdTenths),
      Time.Decode(e.modifiedDate, e.modifiedTime, 0), Time.Decode(e.accessed, 0, 0))
  }

  function NodeFromExfat(marker: u32, e: Exfat.ExfatDirEntry): Node {
    Node(Entry(marker, e.index), e.name, e.name, e.isDir, e.deleted, false, e.size, e.attributes,
      e.firstCluster, e.contiguous, e.created, e.modified, e.accessed)
  }

  function FatNodes(marker: u32, es: seq<Dirent.DirEntry>): (r: seq<Node>)
    ensures |r| == |es|
  {
    seq(|es|, k requires 0 <= k < |es| => NodeFrom(marker, es[k]))
  }

  function ExfatNodes(marker: u32, es: seq<Exfat.ExfatDirEntry>): (r: seq<Node>)
    ensures |r| == |es|
  {
    seq(|es|, k requires 0 <= k < |es| => NodeFromExfat(marker, es[k]))
  }

  function ListNodes(v: Vol, bytes: seq<u8>, marker: u32): (r: seq<Node>)
    ensures forall k | 0 <= k < |r| :: r[k].id.Entry? && r[k].id.dirCluster == marker
  {
    if v.geom.variant == ExFat then ExfatNodes(marker, Exfat.SetsFrom(SlotsOf(bytes), 0))
    else FatNodes(marker, Dirent.Entries(SlotsOf(bytes)))
  }

  function SourceMarker(source: DirSource): u32 {
    if source.FixedRoot? then FIXED_ROOT else source.firstCluster
  }

  /** The nodes of a directory read from `source`. */
  function Listing(v: Vol, source: DirSource): (r: seq<Node>)
    requires v.geom.clusterSize > 0
    ensures forall k | 0 <= k < |r| :: r[k].id.Entry? && r[k].id.dirCluster == SourceMarker(source)
  {
    ListNodes(v, DirBytes(v, source), SourceMarker(source))
  }

  // ----- Handles -----

  /** The first node whose handle has this slot index. */
  function FindIndex(nodes: seq<Node>, index: u16): Result<Node> {
    if nodes == [] then Err(Corrupt("no directory entry at slot"))
    else if nodes[0].id.Entry? && nodes[0].id.index == index then Ok(nodes[0])
    else FindIndex(nodes[1..], index)
  }

  /** Where a handle's parent is re-read from: always by FAT chain. */
  function ParentSource(dirCluster: u32): DirSource {
    if dirCluster == FIXED_ROOT then FixedRoot else ChainFrom(dirCluster, 0, false)
  }

  function ResolveEntry(v: Vol, dirCluster: u32, index: u16): Result<Node>
    requires v.geom.clusterSize > 0
  {
    FindIndex(ListNodes(v, DirBytes(v, ParentSource(dirCluster)), dirCluster), index)
  }

  const ROOT_NODE := Node(Root, "", "", true, false, false, 0, 0x10, 0, false, None, None, None)

  function Meta(v: Vol, id: FileId): Result<Node>
    requires v.geom.clusterSize > 0
  {
    match id
    case Root => Ok(ROOT_NODE)
    case Entry(d, i) => ResolveEntry(v, d, i)
  }

  predicate RootIsClustered(g: Geometry) { g.variant == Fat32 || g.variant == ExFat }

  function RootSource(g: Geometry): DirSource {
    if RootIsClustered(g) then ChainFrom(g.rootCluster, 0, false) else FixedRoot
  }

  /** Where the directory that `id` is stores its bytes. */
  function SourceOf(v: Vol, id: FileId): Result<DirSource>
    requires v.geom.clusterSize > 0
  {
    match id
    case Root => Ok(RootSource(v.geom))
    case Entry(d, i) =>
      var node :- ResolveEntry(v, d, i);
      if !node.isDir then Err(Corrupt("not a directory"))
      else Ok(ChainFrom(node.firstCluster, node.size, node.contiguous))
  }

  function ReadDir(v: Vol, id: FileId): Result<seq<Node>>
    requires v.geom.clusterSize > 0
  {
    var source :- SourceOf(v, id);
    Ok(Listing(v, source))
  }

  predicate Matches(n: Node, name: seq<u8>) {
    !n.isDeleted && !n.isVolumeLabel && Text.ToUtf8(n.name) == name
  }

  function FindName(nodes: seq<Node>, name: seq<u8>): Option<FileId> {
    if nodes == [] then None
    else if Matches(nodes[0], name) then Some(nodes[0].id)
    else FindName(nodes[1..], name)
  }

  function Lookup(v: Vol, dir: FileId, name: seq<u8>): Result<Option<FileId>>
    requires v.geom.clusterSize > 0
  {
    var nodes :- ReadDir(v, dir);
    Ok(FindName(nodes, name))
  }

  function DataExtent(v: Vol, id: FileId): (r: Result<Extent>)
    requires v.geom.clusterSize > 0
    ensures r.Ok? ==> forall c | c in r.value.chain :: c >= 2
  {
    match id
    case Root =>
      (match RootSource(v.geom)
       case FixedRoot => Ok(Extent([], v.geom.rootDirBytes))
       case ChainFrom(f, s, c) => Ok(ExtentOf(v, f, s, c)))
    case Entry(d, i) =>
      var node :- ResolveEntry(v, d, i);
      Ok(ExtentOf(v, node.firstCluster, node.size, node.contiguous))
  }
}
