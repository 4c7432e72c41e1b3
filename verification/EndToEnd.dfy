/** From bytes on disk to bytes in hand: a file laid out as the format prescribes, in any
    directory, is found by its name and read back. */
module EndToEnd {
  import opened Bytes
  import opened Wrappers
  import opened Fat
  import opened Boot
  import opened Image
  import opened Slots
  import opened Volume
  import opened FileMap
  import opened Fs
  import opened FsProofs
  import opened ShortRecords
  import Dirent
  import DirentProofs
  import Exfat
  import ExfatProofs
  import Handles
  import Rereading
  import Text
  import Time

  // ----- Data -----

  /** The image holds `data` in the clusters of `w`, from the first byte of the first cluster. */
  ghost predicate Stores(v: Vol, w: seq<u32>, data: seq<u8>) {
    var addrs := ChainAddrs(v.geom, w);
    |data| <= |addrs| && forall p | 0 <= p < |data| :: addrs[p] < |v.image| && v.image[addrs[p]] == data[p]
  }

  /** What a read of `len` bytes at `off` should give of a file with this data. */
  function Slice(data: seq<u8>, off: nat, len: nat): seq<u8> {
    if off >= |data| then [] else data[off..Min(off + len, |data|)]
  }

  /** Every read of a stored file returns the data there, cut at its end. */
  lemma StoredDataReads(v: Vol, w: seq<u32>, data: seq<u8>, off: nat, len: nat)
    requires Stores(v, w, data)
    ensures ReadOf(Content(v.image, v.geom, w, |data|), off, len) == Slice(data, off, len)
  {
    var content := Content(v.image, v.geom, w, |data|);
    if off < |data| {
      var part := data[off..Min(off + len, |data|)];
      assert content[off..Min(off + len, |data|)] == Values(part);
      BackedPrefixOfValues(part);
    }
  }

  /** Looking up `name` in `dir` gives a handle whose every read returns `data`. */
  ghost predicate ReadsBack(v: Vol, dir: FileId, name: string, data: seq<u8>)
    requires v.geom.clusterSize > 0
  {
    var found := Lookup(v, dir, Text.ToUtf8(name));
    && found.Ok? && found.value.Some? && DataExtent(v, found.value.value).Ok?
    && var e := DataExtent(v, found.value.value).value;
    && forall off: nat, len: nat ::
         ReadOf(Content(v.image, v.geom, e.chain, e.total), off, len) == Slice(data, off, len)
  }

  lemma ListedIsEntry(v: Vol, source: DirSource, k: nat, id: FileId)
    requires v.geom.clusterSize > 0 && k < |Listing(v, source)| && Meta(v, id) == Ok(Listing(v, source)[k])
    ensures id.Entry?
  {}

  lemma ExtentOfNode(v: Vol, id: FileId, n: Node)
    requires v.geom.clusterSize > 0 && id.Entry? && Meta(v, id) == Ok(n)
    ensures DataExtent(v, id) == Ok(ExtentOf(v, n.firstCluster, n.size, n.contiguous))
  {}

  /** The first live node of a name, if its handle resolves to it, reads back as the data stored in
      its clusters: as much as its size says, or for a size of zero all they hold. */
  lemma FirstLiveReadsBack(v: Vol, dir: FileId, name: string, k: nat, data: seq<u8>)
    requires v.geom.clusterSize > 0 && SourceOf(v, dir).Ok?
    requires Handles.IsFirstLive(Listing(v, SourceOf(v, dir).value), name, k)
    requires var n := Listing(v, SourceOf(v, dir).value)[k];
             var e := ExtentOf(v, n.firstCluster, n.size, n.contiguous);
             Meta(v, n.id) == Ok(n) && |data| == e.total && Stores(v, e.chain, data)
    ensures ReadsBack(v, dir, name, data)
  {
    hide Lookup, Listing, Meta, DataExtent, ReadOf, Content, Stores, Slice, ExtentOf;
    var n := Listing(v, SourceOf(v, dir).value)[k];
    var e := ExtentOf(v, n.firstCluster, n.size, n.contiguous);
    Handles.LookupGivesFirst(v, dir, name, k);
    ListedIsEntry(v, SourceOf(v, dir).value, k, n.id);
    ExtentOfNode(v, n.id, n);
    forall off: nat, len: nat
      ensures ReadOf(Content(v.image, v.geom, e.chain, e.total), off, len) == Slice(data, off, len)
    {
      StoredDataReads(v, e.chain, data, off, len);
    }
  }

  /** The length a file of this size and these clusters is read as. */
  function FileLength(g: Geometry, size: nat, w: seq<u32>): nat {
    if size > 0 then size else Span(|w|, g.clusterSize)
  }

  // ----- FAT12/16/32 -----

  /** An item that lists a record: any but a deleted long-name slot. */
  predicate IsRecord(it: DirentProofs.Item) { it.Removed? ==> it.slot[11] != 0x0F }

  function RecordOf(it: DirentProofs.Item): Slot { if it.Removed? then it.slot else it.short }

  /** These slots are `before`, where nothing is left pending, then this record, then `after`,
      whatever that is. */
  ghost predicate HoldsRecord(slots: seq<Slot>, before: seq<Slot>, it: DirentProofs.Item, after: seq<Slot>) {
    && DirentProofs.Complete(before) && DirentProofs.IsItem(it) && IsRecord(it)
    && slots == before + DirentProofs.EncodeItem(it) + after
  }

  /** The slots of a directory of `v` hold this record. */
  ghost predicate Holds(v: Vol, source: DirSource, before: seq<Slot>, it: DirentProofs.Item, after: seq<Slot>)
    requires v.geom.clusterSize > 0
  {
    HoldsRecord(SlotsOf(DirBytes(v, source)), before, it, after)
  }

  /** The slot of the item's record. */
  ghost function RecordSlot(before: seq<Slot>, it: DirentProofs.Item): nat
    requires DirentProofs.IsItem(it)
  {
    |before + DirentProofs.EncodeItem(it)| - 1
  }

  /** The long name of an item, if it has one. */
  function LongNameOf(it: DirentProofs.Item): Option<string> { if it.Long? then Some(it.name) else None }

  /** The item's record has these fields, its 11 name bytes spelling `n`. */
  predicate IsRecordOf(it: DirentProofs.Item, f: ShortFields, n: ShortName) {
    && IsFields(f) && RecordOf(it) == ShortSlot(f)
    && IsShortName(n) && IsStoredAs(f.raw, n, it.Removed?) && n.LabelName? == IsLabel(f)
  }

  /** The name such a record is listed under: its long name, or what its 11 bytes spell. */
  function NameOf(it: DirentProofs.Item, f: ShortFields, n: ShortName): string {
    if it.Long? then it.name else Spelled(n, f.ntFlags)
  }

  /** What such a directory lists: the records before the item, then the item's. */
  lemma ItemIsListed(v: Vol, source: DirSource, before: seq<Slot>, it: DirentProofs.Item, after: seq<Slot>)
    requires v.geom.clusterSize > 0 && IsFat(v) && Holds(v, source, before, it, after)
    ensures var nodes, es, marker := Listing(v, source), Dirent.Entries(before), SourceMarker(source);
            && |es| < |nodes| && (forall i | 0 <= i < |es| :: nodes[i] == NodeFrom(marker, es[i]))
            && nodes[|es|] ==
               NodeFrom(marker, Dirent.DecodeShort(RecordOf(it), RecordSlot(before, it), LongNameOf(it), it.Removed?))
  {
    hide Dirent.Entries, DirentProofs.EncodeItem, DirentProofs.ShiftAll, Dirent.DecodeShort, NodeFrom;
    DirentProofs.ItemIsListed(before, it, after);
  }

  /** No live record of this name among those before, labels aside. */
  ghost predicate NoneBefore(before: seq<Slot>, name: string) {
    var es := Dirent.Entries(before);
    forall i | 0 <= i < |es| :: es[i].deleted || es[i].isVolumeLabel || es[i].name != name
  }

  /** The node of a written record has the record's fields, its name spelled out and its times
      decoded; it is deleted exactly if the record is. */
  lemma WrittenNodeFields(
    v: Vol, source: DirSource, before: seq<Slot>, it: DirentProofs.Item, after: seq<Slot>, f: ShortFields,
    sn: ShortName)
    requires v.geom.clusterSize > 0 && IsFat(v) && Holds(v, source, before, it, after) && IsRecordOf(it, f, sn)
    ensures |Dirent.Entries(before)| < |Listing(v, source)|
    ensures var n := Listing(v, source)[|Dirent.Entries(before)|];
            && n.id == Entry(SourceMarker(source), IndexOf(RecordSlot(before, it)))
            && n.name == NameOf(it, f, sn) && n.shortName == Spelled(sn, f.ntFlags)
            && n.firstCluster == f.firstCluster && n.size == f.size && !n.contiguous
            && n.attributes == f.attributes && n.isDeleted == it.Removed?
            && (n.isVolumeLabel <==> f.attributes / 8 % 2 == 1)
            && (n.isDir <==> f.attributes / 16 % 2 == 1 && f.attributes / 8 % 2 == 0)
            && n.created == Time.Decode(f.createdDate, f.createdTime, f.createdTenths)
            && n.modified == Time.Decode(f.modifiedDate, f.modifiedTime, 0)
            && n.accessed == Time.Decode(f.accessed, 0, 0)
  {
    RecordIsShort(it, f);
    ItemIsListed(v, source, before, it, after);
    hide Listing, ShortSlot, Time.Decode, Dirent.Entries, DirentProofs.EncodeItem, Spelled, Dirent.DecodeShort, Holds;
    ShortRecordRoundTrip(f, RecordSlot(before, it), LongNameOf(it), it.Removed?);
    RecordNameRoundTrip(f, sn, RecordSlot(before, it), LongNameOf(it), it.Removed?);
  }

  lemma RecordIsShort(it: DirentProofs.Item, f: ShortFields)
    requires DirentProofs.IsItem(it) && IsRecord(it) && IsFields(f) && RecordOf(it) == ShortSlot(f)
    ensures f.attributes != 0x0F
  {
    BytesDecode(f);
  }

  lemma WrittenIsFirstLive(
    v: Vol, source: DirSource, before: seq<Slot>, it: DirentProofs.Item, after: seq<Slot>, f: ShortFields,
    sn: ShortName)
    requires v.geom.clusterSize > 0 && IsFat(v) && Holds(v, source, before, it, after) && IsRecordOf(it, f, sn)
    requires !it.Removed? && f.attributes / 8 % 2 == 0 && NoneBefore(before, NameOf(it, f, sn))
    ensures Handles.IsFirstLive(Listing(v, source), NameOf(it, f, sn), |Dirent.Entries(before)|)
  {
    hide Holds, Listing, ShortSlot, NameOf, Dirent.Entries, IsRecordOf, Dirent.DecodeShort;
    ItemIsListed(v, source, before, it, after);
    WrittenNodeFields(v, source, before, it, after, f, sn);
  }

  /** The clusters of a written file: none below cluster 2, otherwise a walk inside the volume to a
      terminator. */
  ghost predicate IsFileWalk(v: Vol, first: u32, w: seq<u32>) {
    if first < 2 then w == [] else IsGoodWalk(v, w) && first == w[0]
  }

  lemma RecordsBefore(before: seq<Slot>, i: nat)
    requires i < |Dirent.Entries(before)|
    ensures Dirent.Entries(before)[i].index < |before|
  {
    hide Dirent.EntryAt;
    Handles.EntriesSitAtSlots(before, Dirent.EndOf(before));
  }

  /** A record whose slot its index can hold is what its handle resolves to. */
  lemma RecordResolves(v: Vol, source: DirSource, before: seq<Slot>, it: DirentProofs.Item, after: seq<Slot>)
    requires v.geom.clusterSize > 0 && IsFat(v) && Holds(v, source, before, it, after)
    requires Handles.Rereads(v, source) && RecordSlot(before, it) <= U16_MAX
    ensures var k := |Dirent.Entries(before)|;
            k < |Listing(v, source)| && Meta(v, Listing(v, source)[k].id) == Ok(Listing(v, source)[k])
  {
    hide Dirent.Entries, DirentProofs.EncodeItem, Listing, Meta, Handles.Rereads, Dirent.DecodeShortName;
    var nodes, k := Listing(v, source), |Dirent.Entries(before)|;
    ItemIsListed(v, source, before, it, after);
    forall i | 0 <= i < k ensures nodes[i].id.Entry? && nodes[i].id.index < nodes[k].id.index {
      RecordsBefore(before, i);
    }
    Handles.HandleResolves(v, source, k);
  }

  /** A file written at any slot boundary of any directory of a FAT12/16/32 volume - under a long
      name or a short one only, its record giving first cluster and size, its clusters linked in
      the FAT to a terminator, its data in them - reads back by its name, if no live node before
      it has that name. A size of zero is read as all its clusters hold. */
  lemma WrittenFileReadsBack(
    v: Vol, dir: FileId, source: DirSource, before: seq<Slot>, it: DirentProofs.Item, after: seq<Slot>,
    f: ShortFields, sn: ShortName, w: seq<u32>, data: seq<u8>)
    requires Sound(v) && IsFat(v) && SourceOf(v, dir) == Ok(source)
    requires Handles.Rereads(v, source) && Holds(v, source, before, it, after) && RecordSlot(before, it) <= U16_MAX
    requires IsRecordOf(it, f, sn) && !it.Removed? && f.attributes / 8 % 2 == 0
    requires NoneBefore(before, NameOf(it, f, sn))
    requires IsFileWalk(v, f.firstCluster, w) && Stores(v, w, data) && |data| == FileLength(v.geom, f.size, w)
    ensures ReadsBack(v, dir, NameOf(it, f, sn), data)
  {
    FileWalkIsClusters(v, f.firstCluster, f.size, w);
    hide Handles.Rereads, Holds, Listing, Meta, Stores, IsFileWalk, IsRecordOf, ReadsBack, NameOf, NoneBefore;
    hide Dirent.Entries, RecordSlot, Clusters;
    WrittenIsFirstLive(v, source, before, it, after, f, sn);
    WrittenNodeFields(v, source, before, it, after, f, sn);
    RecordResolves(v, source, before, it, after);
    FirstLiveReadsBack(v, dir, NameOf(it, f, sn), |Dirent.Entries(before)|, data);
  }

  lemma FileWalkIsClusters(v: Vol, first: u32, size: u64, w: seq<u32>)
    requires Sound(v) && IsFileWalk(v, first, w)
    ensures Clusters(v, first, size, false) == w
  {
    if first >= 2 { WalkIsClusters(v, w, size); }
  }

  lemma WalkIsClusters(v: Vol, w: seq<u32>, size: u64)
    requires Sound(v) && IsGoodWalk(v, w)
    ensures |w| > 0 && Clusters(v, w[0], size, false) == w
  {
    TerminatedWalkIsReturnedWhole(v.fat, v.geom.variant, w, v.geom.countOfClusters);
  }

  // ----- exFAT -----

  /** These slots are `before`, where the sets end whole, then this file set, then `after`, whatever
      that is. */
  ghost predicate HoldsFileSet(slots: seq<Slot>, before: seq<Slot>, f: ExfatProofs.FileSet, after: seq<Slot>) {
    && ExfatProofs.Whole(before, 0) && ExfatProofs.IsFileSet(f)
    && slots == before + ExfatProofs.EncodeSet(f) + after
  }

  ghost predicate HoldsSet(v: Vol, source: DirSource, before: seq<Slot>, f: ExfatProofs.FileSet, after: seq<Slot>)
    requires v.geom.clusterSize > 0
  {
    !IsFat(v) && HoldsFileSet(SlotsOf(DirBytes(v, source)), before, f, after)
  }

  /** Nodes listed from slots that hold a file set after `before`. */
  ghost predicate ListsSet(marker: u32, nodes: seq<Node>, before: seq<Slot>, f: ExfatProofs.FileSet) {
    var es := Exfat.SetsFrom(before, 0);
    && |es| < |nodes| && (forall i | 0 <= i < |es| :: nodes[i] == NodeFromExfat(marker, es[i]))
    && nodes[|es|] == NodeFromExfat(marker, ExfatProofs.DecodedSet(f, |before|))
  }

  lemma SetIsListed(marker: u32, before: seq<Slot>, f: ExfatProofs.FileSet, after: seq<Slot>)
    requires ExfatProofs.Whole(before, 0) && ExfatProofs.IsFileSet(f)
    ensures var slots := before + ExfatProofs.EncodeSet(f) + after;
            ListsSet(marker, ExfatNodes(marker, Exfat.SetsFrom(slots, 0)), before, f)
  {
    hide Exfat.SetsFrom, ExfatProofs.EncodeSet, ExfatProofs.DecodedSet, ExfatProofs.ShiftAll, NodeFromExfat;
    ExfatProofs.ItemIsListed(before, ExfatProofs.File(f), after);
  }

  /** The k-th node of the directory, after those of `before`, is the written file set. */
  lemma WrittenSetFields(v: Vol, source: DirSource, before: seq<Slot>, f: ExfatProofs.FileSet, after: seq<Slot>)
    requires v.geom.clusterSize > 0 && HoldsSet(v, source, before, f, after)
    ensures ListsSet(SourceMarker(source), Listing(v, source), before, f)
    ensures var n := Listing(v, source)[|Exfat.SetsFrom(before, 0)|];
            && n.id == Entry(SourceMarker(source), IndexOf(|before|))
            && n.name == n.shortName == Text.FromUtf16Lossy(f.units) && n.isDeleted == f.deleted
            && !n.isVolumeLabel && n.size == f.size
            && n.firstCluster == f.firstCluster && n.contiguous == ExfatProofs.IsContiguous(f)
            && n.attributes == f.attributes && (n.isDir <==> f.attributes / 16 % 2 == 1)
            && n.created == Time.Decode(f.created.date, f.created.time, f.created.tenths)
            && n.modified == Time.Decode(f.modified.date, f.modified.time, f.modified.tenths)
            && n.accessed == Time.Decode(f.accessed.date, f.accessed.time, 0)
  {
    hide Time.Decode, Exfat.SetsFrom, ExfatProofs.EncodeSet, ExfatProofs.IsContiguous, ExfatNodes;
    SetIsListed(SourceMarker(source), before, f, after);
  }

  /** No live set of this name among those before. */
  ghost predicate NoSetBefore(before: seq<Slot>, name: string) {
    var es := Exfat.SetsFrom(before, 0);
    forall i | 0 <= i < |es| :: es[i].deleted || es[i].name != name
  }

  lemma SetIsFirstLive(v: Vol, source: DirSource, before: seq<Slot>, f: ExfatProofs.FileSet, after: seq<Slot>)
    requires v.geom.clusterSize > 0 && HoldsSet(v, source, before, f, after)
    requires !f.deleted && NoSetBefore(before, ExfatProofs.NameOf(f))
    ensures Handles.IsFirstLive(Listing(v, source), ExfatProofs.NameOf(f), |Exfat.SetsFrom(before, 0)|)
  {
    hide HoldsSet, Listing, Exfat.SetsFrom, ExfatProofs.DecodedSet;
    WrittenSetFields(v, source, before, f, after);
  }

  /** A handle into the directory re-reads `before` and the set as they were listed; its index can
      hold the set's slot. */
  ghost predicate RereadsSet(v: Vol, source: DirSource, before: seq<Slot>, f: ExfatProofs.FileSet)
    requires v.geom.clusterSize > 0 && ExfatProofs.IsFileSet(f)
  {
    before + ExfatProofs.EncodeSet(f) <= Rereading.RereadSlots(v, source) && |before| <= U16_MAX
  }

  lemma SetsBefore(before: seq<Slot>, i: nat)
    requires i < |Exfat.SetsFrom(before, 0)|
    ensures Exfat.SetsFrom(before, 0)[i].index < |before|
  {
    ExfatProofs.SetsAtStarts(before, 0, i);
  }

  lemma FoundAfter(marker: u32, nodes: seq<Node>, before: seq<Slot>, f: ExfatProofs.FileSet)
    requires ListsSet(marker, nodes, before, f) && |before| <= U16_MAX
    ensures FindIndex(nodes, |before|) == Ok(nodes[|Exfat.SetsFrom(before, 0)|])
  {
    hide Exfat.SetsFrom;
    var k := |Exfat.SetsFrom(before, 0)|;
    forall i | 0 <= i < k ensures nodes[i].id.Entry? && nodes[i].id.index != nodes[k].id.index {
      SetsBefore(before, i);
    }
    Handles.FindIndexFinds(nodes, k);
  }

  /** A file set that is re-read with all before it is what its handle resolves to. */
  lemma SetResolves(v: Vol, source: DirSource, before: seq<Slot>, f: ExfatProofs.FileSet, after: seq<Slot>)
    requires v.geom.clusterSize > 0 && HoldsSet(v, source, before, f, after) && RereadsSet(v, source, before, f)
    ensures var k := |Exfat.SetsFrom(before, 0)|;
            k < |Listing(v, source)| && Meta(v, Listing(v, source)[k].id) == Ok(Listing(v, source)[k])
  {
    hide Exfat.SetsFrom, ExfatProofs.EncodeSet, ExfatProofs.DecodedSet, DirBytes, NodeFromExfat;
    var marker, slots := SourceMarker(source), Rereading.RereadSlots(v, source);
    WrittenSetFields(v, source, before, f, after);
    var written := before + ExfatProofs.EncodeSet(f);
    assert slots == written + slots[|written|..];
    SetIsListed(marker, before, f, slots[|written|..]);
    FoundAfter(marker, ExfatNodes(marker, Exfat.SetsFrom(slots, 0)), before, f);
  }

  /** A file set written at any boundary between sets of any exFAT directory, with its data in its
      clusters - a contiguous run or a FAT chain, as its flag says - reads back by its name, if no
      live set before it has that name and a handle re-reads the directory up to its end. */
  lemma ExfatFileReadsBack(
    v: Vol, dir: FileId, source: DirSource, before: seq<Slot>, f: ExfatProofs.FileSet, after: seq<Slot>, data: seq<u8>)
    requires v.geom.clusterSize > 0 && SourceOf(v, dir) == Ok(source)
    requires HoldsSet(v, source, before, f, after) && RereadsSet(v, source, before, f)
    requires !f.deleted && NoSetBefore(before, ExfatProofs.NameOf(f))
    requires var w := Clusters(v, f.firstCluster, f.size, ExfatProofs.IsContiguous(f));
             Stores(v, w, data) && |data| == FileLength(v.geom, f.size, w)
    ensures ReadsBack(v, dir, ExfatProofs.NameOf(f), data)
  {
    hide HoldsSet, RereadsSet, Listing, Meta, Stores, Clusters, ReadsBack, NoSetBefore, Exfat.SetsFrom;
    hide ExfatProofs.NameOf, ExfatProofs.IsContiguous, ListsSet;
    SetIsFirstLive(v, source, before, f, after);
    WrittenSetFields(v, source, before, f, after);
    SetResolves(v, source, before, f, after);
    FirstLiveReadsBack(v, dir, ExfatProofs.NameOf(f), |Exfat.SetsFrom(before, 0)|, data);
  }

  // ----- A contiguous directory the FAT does not link -----

  /** A contiguous exFAT directory whose first FAT entry is a terminator, as the format leaves it. */
  predicate IsUnlinked(v: Vol, source: DirSource) {
    && source.ChainFrom? && source.contiguous && 2 <= source.firstCluster < FIXED_ROOT
    && Stops(v.geom.variant, FatEntry(v.fat, v.geom.variant, source.firstCluster))
  }

  /** The whole slots of its first cluster. */
  function FirstClusterSlots(v: Vol, source: DirSource): nat
    requires source.ChainFrom?
  {
    SlotCount(Window(v.image, OffsetOf(v.geom, source.firstCluster), v.geom.clusterSize))
  }

  /** Every file set of such a directory is listed. The handle of one that begins past the first
      cluster is an error; of one that ends inside it, the listed node; and of one in between, the
      entry that the first cluster leaves of it. */
  lemma UnlinkedHandles(v: Vol, source: DirSource, before: seq<Slot>, f: ExfatProofs.FileSet, after: seq<Slot>)
    requires Sound(v) && HoldsSet(v, source, before, f, after) && IsUnlinked(v, source) && |before| <= U16_MAX
    ensures ListsSet(SourceMarker(source), Listing(v, source), before, f)
    ensures var node, n := Listing(v, source)[|Exfat.SetsFrom(before, 0)|], FirstClusterSlots(v, source);
            && (Meta(v, node.id).Err? <==> |before| >= n)
            && (|before + ExfatProofs.EncodeSet(f)| <= n ==> Meta(v, node.id) == Ok(node))
            && (|before| < n < |before + ExfatProofs.EncodeSet(f)| ==>
                  Meta(v, node.id) == Ok(NodeFromExfat(source.firstCluster, LeftOfSet(f, n - |before|, |before|))))
  {
    hide Exfat.SetsFrom, ExfatProofs.EncodeSet, Listing, Meta, DirBytes, Exfat.SetAt, ExfatProofs.DecodedSet;
    WrittenSetFields(v, source, before, f, after);
    Rereading.ContiguousRereadIsOneCluster(v, source);
    Rereading.RereadIsPrefix(v, source);
    var slots, n, k := SlotsOf(DirBytes(v, source)), FirstClusterSlots(v, source), |Exfat.SetsFrom(before, 0)|;
    SlotOfWritten(v, source, before, f, after);
    SetClaims(before, f, after);
    Rereading.CutHandleIsStableIff(v, source, k, n);
    if |before| < n < |before + ExfatProofs.EncodeSet(f)| { CutWritten(before, f, after, n); }
  }

  /** What decoding gives of a file set when only its first `m` slots are there. */
  function LeftOfSet(f: ExfatProofs.FileSet, m: nat, at: nat): Exfat.ExfatDirEntry
    requires ExfatProofs.IsFileSet(f) && 0 < m <= |ExfatProofs.EncodeSet(f)|
  {
    Exfat.EntryOf(ExfatProofs.EncodeSet(f)[0], Exfat.AbsorbAll(ExfatProofs.EncodeSet(f)[1..m]), at)
  }

  lemma CutWritten(before: seq<Slot>, f: ExfatProofs.FileSet, after: seq<Slot>, n: nat)
    requires ExfatProofs.IsFileSet(f) && |before| < n <= |before + ExfatProofs.EncodeSet(f)|
    ensures var slots := before + ExfatProofs.EncodeSet(f) + after;
            Exfat.SetAt(slots[..n], |before|) == LeftOfSet(f, n - |before|, |before|)
  {
    var cut, whole := (before + ExfatProofs.EncodeSet(f) + after)[..n], ExfatProofs.EncodeSet(f);
    SetClaims(before, f, after);
    assert Exfat.Secondaries(cut, |before|) == whole[1..n - |before|];
  }

  lemma SetClaims(before: seq<Slot>, f: ExfatProofs.FileSet, after: seq<Slot>)
    requires ExfatProofs.IsFileSet(f)
    ensures var slots := before + ExfatProofs.EncodeSet(f) + after;
            |before| < |slots| && |before| + 1 + slots[|before|][1] == |before + ExfatProofs.EncodeSet(f)|
  {
    var n := |ExfatProofs.SetSecondaries(f)|;
    ExfatProofs.FileSlotDecodes(f, n);
    assert (before + ExfatProofs.EncodeSet(f) + after)[|before|] == ExfatProofs.FileSlot(f, n);
  }

  lemma SlotOfWritten(v: Vol, source: DirSource, before: seq<Slot>, f: ExfatProofs.FileSet, after: seq<Slot>)
    requires v.geom.clusterSize > 0 && HoldsSet(v, source, before, f, after)
    ensures |Exfat.SetsFrom(before, 0)| < |Listing(v, source)|
    ensures Rereading.SlotOfNode(v, source, |Exfat.SetsFrom(before, 0)|) == |before|
  {
    hide Exfat.SetsFrom, ExfatProofs.EncodeSet, Listing, ExfatProofs.StartSlots;
    WrittenSetFields(v, source, before, f, after);
    Rereading.NodesAtStarts(v, source);
    ExfatProofs.StartAfter(before, f, after);
  }

  /** So lookup finds a live file past the first cluster of such a directory, and the handle it
      gives has neither metadata nor data. */
  lemma FoundButLost(
    v: Vol, dir: FileId, source: DirSource, before: seq<Slot>, f: ExfatProofs.FileSet, after: seq<Slot>)
    requires Sound(v) && SourceOf(v, dir) == Ok(source) && HoldsSet(v, source, before, f, after)
    requires !f.deleted && NoSetBefore(before, ExfatProofs.NameOf(f))
    requires IsUnlinked(v, source) && FirstClusterSlots(v, source) <= |before| <= U16_MAX
    ensures var found := Lookup(v, dir, Text.ToUtf8(ExfatProofs.NameOf(f)));
            found.Ok? && found.value.Some? && Meta(v, found.value.value).Err? && DataExtent(v, found.value.value).Err?
  {
    hide HoldsSet, Listing, NoSetBefore, IsUnlinked, Lookup, Meta, Exfat.SetsFrom, ExfatProofs.NameOf, DataExtent;
    UnlinkedHandles(v, source, before, f, after);
    SetIsFirstLive(v, source, before, f, after);
    var k := |Exfat.SetsFrom(before, 0)|;
    Handles.LookupGivesFirst(v, dir, ExfatProofs.NameOf(f), k);
    LostHasNoData(v, Listing(v, source)[k].id);
  }

  lemma LostHasNoData(v: Vol, id: FileId)
    requires v.geom.clusterSize > 0 && Meta(v, id).Err?
    ensures DataExtent(v, id).Err?
  {}

  /** And a file that ends inside the first cluster of such a directory reads back. */
  lemma FirstClusterFileReadsBack(
    v: Vol, dir: FileId, source: DirSource, before: seq<Slot>, f: ExfatProofs.FileSet, after: seq<Slot>, data: seq<u8>)
    requires Sound(v) && SourceOf(v, dir) == Ok(source) && HoldsSet(v, source, before, f, after)
    requires !f.deleted && NoSetBefore(before, ExfatProofs.NameOf(f))
    requires IsUnlinked(v, source) && |before| <= U16_MAX
    requires |before + ExfatProofs.EncodeSet(f)| <= FirstClusterSlots(v, source)
    requires var w := Clusters(v, f.firstCluster, f.size, ExfatProofs.IsContiguous(f));
             Stores(v, w, data) && |data| == FileLength(v.geom, f.size, w)
    ensures ReadsBack(v, dir, ExfatProofs.NameOf(f), data)
  {
    hide Stores, ReadsBack, NoSetBefore, ExfatProofs.EncodeSet, Clusters, DirBytes;
    Rereading.ContiguousRereadIsOneCluster(v, source);
    Rereading.RereadIsPrefix(v, source);
    ExfatFileReadsBack(v, dir, source, before, f, after, data);
  }
}
