/** The virtual-filesystem addresses and inode numbers of handles. */
module Vfs {
  import opened Bytes
  import opened Slots
  import opened Volume
  import Exfat
  import Dirent

  /** Only the FAT address is spelled out; every other identity is foreign here. */
  datatype VfsId = FatDirEntry(cluster: u32, index: u16) | Foreign

  datatype VfsResult = Mapped(id: FileId) | Unsupported

  function ToVfsId(id: FileId): VfsId {
    match id
    case Root => FatDirEntry(0, 0)
    case Entry(c, i) => FatDirEntry(c, i)
  }

  function FromVfsId(id: VfsId): VfsResult {
    match id
    case FatDirEntry(c, i) => if c == 0 && i == 0 then Mapped(Root) else Mapped(Entry(c, i))
    case Foreign => Unsupported
  }

  function InoOf(id: FileId): u64 {
    match id
    case Root => 0
    case Entry(c, i) => c as int * 0x1_0000 + i
  }

  /** The one handle that shares its address with the root. */
  predicate IsGhostOfRoot(id: FileId) { id == Entry(0, 0) }

  lemma RoundTripIff(id: FileId)
    ensures FromVfsId(ToVfsId(id)) == Mapped(id) <==> !IsGhostOfRoot(id)
  {}

  lemma InoCollidesIff(a: FileId, b: FileId)
    ensures InoOf(a) == InoOf(b) <==> a == b || (a.Root? && IsGhostOfRoot(b)) || (b.Root? && IsGhostOfRoot(a))
  {}

  /** An address names its cluster and slot, the root being slot 0 of cluster 0; an inode number
      splits into the same two. */
  lemma AddressesAreLocations(c: u32, i: u16)
    ensures ToVfsId(Root) == FatDirEntry(0, 0) && ToVfsId(Entry(c, i)) == FatDirEntry(c, i)
    ensures FromVfsId(FatDirEntry(c, i)) == Mapped(if c == 0 && i == 0 then Root else Entry(c, i))
    ensures FromVfsId(Foreign) == Unsupported
    ensures InoOf(Entry(c, i)) / 0x1_0000 == c && InoOf(Entry(c, i)) % 0x1_0000 == i && InoOf(Root) == 0
  {}

  /** The handles `root` and `read_dir` can yield. */
  ghost predicate Yielded(v: Vol, id: FileId)
    requires v.geom.clusterSize > 0
  {
    id == Root || exists dir: FileId, k: nat :: IsChild(v, dir, k, id)
  }

  ghost predicate IsChild(v: Vol, dir: FileId, k: nat, id: FileId)
    requires v.geom.clusterSize > 0
  {
    ReadDir(v, dir).Ok? && k < |ReadDir(v, dir).value| && ReadDir(v, dir).value[k].id == id
  }

  /** A directory whose first cluster is below 2 has no chain and lists nothing. */
  lemma ReservedClusterListsNothing(v: Vol, source: DirSource)
    requires v.geom.clusterSize > 0 && source.ChainFrom? && source.firstCluster < 2
    ensures Listing(v, source) == []
  {
    assert Clusters(v, source.firstCluster, source.size, source.contiguous) == [];
    assert DirBytes(v, source) == [];
    assert SlotsOf([]) == [];
    assert Exfat.SetsFrom([], 0) == [] && Dirent.Entries([]) == [];
  }

  lemma YieldedParentIsReal(v: Vol, id: FileId)
    requires v.geom.clusterSize > 0 && Yielded(v, id) && id.Entry?
    ensures id.dirCluster >= 2
  {
    var dir: FileId, k: nat :| IsChild(v, dir, k, id);
    var source := SourceOf(v, dir).value;
    assert ReadDir(v, dir).value == Listing(v, source);
    if source.ChainFrom? && source.firstCluster < 2 { ReservedClusterListsNothing(v, source); }
  }

  /** Every handle the reader yields survives the trip through its VFS address, and no two
      share an address or an inode number. */
  lemma YieldedIdsAreOneToOne(v: Vol, a: FileId, b: FileId)
    requires v.geom.clusterSize > 0 && Yielded(v, a) && Yielded(v, b)
    ensures FromVfsId(ToVfsId(a)) == Mapped(a)
    ensures ToVfsId(a) == ToVfsId(b) ==> a == b
    ensures InoOf(a) == InoOf(b) ==> a == b
  {
    if a.Entry? { YieldedParentIsReal(v, a); }
    if b.Entry? { YieldedParentIsReal(v, b); }
    RoundTripIff(a);
    RoundTripIff(b);
    InoCollidesIff(a, b);
  }
}
