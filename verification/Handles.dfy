/** Handles: a node listed by read_dir, re-read through its (parent cluster, slot) handle. */
module Handles {
  import opened Bytes
  import opened Wrappers
  import opened Slots
  import opened Volume
  import Dirent
  import Exfat
  import ExfatProofs
  import Text

  // ----- Slot positions of a listing -----

  /** The slots among the first `n` that list a record. */
  function ListedSlots(slots: seq<Slot>, n: nat): (r: seq<nat>)
    requires n <= |slots|
    ensures forall k | 0 <= k < |r| :: r[k] < n
    ensures forall j, k | 0 <= j < k < |r| :: r[j] < r[k]
  {
    if n == 0 then []
    else ListedSlots(slots, n - 1) + (if Dirent.IsLfn(slots[n - 1]) then [] else [n - 1])
  }

  /** The k-th record carries the index of the k-th slot. */
  predicate Sit(es: seq<Dirent.DirEntry>, at: seq<nat>) {
    |es| == |at| && forall k | 0 <= k < |es| :: es[k].index == IndexOf(at[k])
  }

  lemma SitOn(es: seq<Dirent.DirEntry>, at: seq<nat>, more: seq<Dirent.DirEntry>, slot: nat)
    requires Sit(es, at) && |more| <= 1 && (|more| == 1 ==> more[0].index == IndexOf(slot))
    ensures Sit(es + more, at + if |more| == 1 then [slot] else [])
  {}

  lemma {:induction false} EntriesSitAtSlots(slots: seq<Slot>, n: nat)
    requires n <= |slots|
    ensures Sit(Dirent.EntriesUpTo(slots, n), ListedSlots(slots, n))
  {
    hide Sit, Dirent.Emit;
    if n > 0 {
      EntriesSitAtSlots(slots, n - 1);
      EmitSitsAtSlot(slots, n - 1);
      SitOn(Dirent.EntriesUpTo(slots, n - 1), ListedSlots(slots, n - 1), Dirent.Emit(slots, n - 1), n - 1);
    } else {
      NothingSits();
    }
  }

  lemma NothingSits()
    ensures Sit([], [])
  {}

  lemma EmitSitsAtSlot(slots: seq<Slot>, i: nat)
    requires i < |slots|
    ensures |Dirent.Emit(slots, i)| == if Dirent.IsLfn(slots[i]) then 0 else 1
    ensures !Dirent.IsLfn(slots[i]) ==> Dirent.Emit(slots, i)[0].index == IndexOf(i)
  {}

  /** Where each node of a FAT listing sits in its directory. */
  function NodeSlots(v: Vol, source: DirSource): seq<nat>
    requires v.geom.clusterSize > 0
  {
    var slots := SlotsOf(DirBytes(v, source));
    ListedSlots(slots, Dirent.EndOf(slots))
  }

  lemma NodesSitAtSlots(v: Vol, source: DirSource)
    requires v.geom.clusterSize > 0 && IsFat(v)
    ensures |Listing(v, source)| == |NodeSlots(v, source)|
    ensures forall k | 0 <= k < |Listing(v, source)| ::
              Listing(v, source)[k].id == Entry(SourceMarker(source), IndexOf(NodeSlots(v, source)[k]))
  {
    var slots := SlotsOf(DirBytes(v, source));
    EntriesSitAtSlots(slots, Dirent.EndOf(slots));
  }

  // ----- Finding by index -----

  /** The first node that carries the index of node k. */
  function FirstSharing(nodes: seq<Node>, k: nat): (j: nat)
    requires k < |nodes| && nodes[k].id.Entry?
    ensures j <= k && nodes[j].id.Entry? && nodes[j].id.index == nodes[k].id.index
    ensures forall i | 0 <= i < j :: nodes[i].id.Entry? ==> nodes[i].id.index != nodes[k].id.index
  {
    FirstSharingFrom(nodes, k, 0)
  }

  function FirstSharingFrom(nodes: seq<Node>, k: nat, from: nat): (j: nat)
    requires from <= k < |nodes| && nodes[k].id.Entry?
    ensures from <= j <= k && nodes[j].id.Entry? && nodes[j].id.index == nodes[k].id.index
    ensures forall i | from <= i < j :: nodes[i].id.Entry? ==> nodes[i].id.index != nodes[k].id.index
    decreases k - from
  {
    if nodes[from].id.Entry? && nodes[from].id.index == nodes[k].id.index then from
    else FirstSharingFrom(nodes, k, from + 1)
  }

  lemma {:induction false} FindIndexFinds(nodes: seq<Node>, j: nat)
    requires j < |nodes| && nodes[j].id.Entry?
    requires forall i | 0 <= i < j :: nodes[i].id.Entry? ==> nodes[i].id.index != nodes[j].id.index
    ensures FindIndex(nodes, nodes[j].id.index) == Ok(nodes[j])
  {
    if j > 0 {
      assert forall i | 0 <= i < j - 1 :: nodes[1..][i] == nodes[i + 1];
      FindIndexFinds(nodes[1..], j - 1);
    }
  }

  // ----- Re-reading the parent -----

  /** Re-reading the parent through a handle sees the bytes it was listed from. */
  ghost predicate Rereads(v: Vol, source: DirSource)
    requires v.geom.clusterSize > 0
  {
    DirBytes(v, ParentSource(SourceMarker(source))) == DirBytes(v, source)
  }

  /** A source a FAT12/16/32 directory can have, its first cluster not the fixed-root marker. */
  predicate Addressable(source: DirSource) {
    source.FixedRoot? || (!source.contiguous && source.firstCluster != FIXED_ROOT)
  }

  lemma AddressableRereads(v: Vol, source: DirSource)
    requires v.geom.clusterSize > 0 && Addressable(source)
    ensures Rereads(v, source)
  {}

  /** A handle resolves to the first listed node that shares its index. */
  lemma HandleResolves(v: Vol, source: DirSource, k: nat)
    requires v.geom.clusterSize > 0 && Rereads(v, source) && k < |Listing(v, source)|
    ensures Meta(v, Listing(v, source)[k].id) == Ok(Listing(v, source)[FirstSharing(Listing(v, source), k)])
  {
    var nodes := Listing(v, source);
    FindIndexFinds(nodes, FirstSharing(nodes, k));
  }

  /** Exactly when a handle of a re-read FAT directory is stable. Slots share an index only when
      both lie at 65535 or beyond, so a node's handle gives the node back unless it lies beyond
      slot 65534 and an earlier listed node does too. */
  lemma HandleIsStableIff(v: Vol, source: DirSource, k: nat)
    requires v.geom.clusterSize > 0 && IsFat(v) && Rereads(v, source) && k < |Listing(v, source)|
    ensures |NodeSlots(v, source)| == |Listing(v, source)|
    ensures var nodes, at := Listing(v, source), NodeSlots(v, source);
            var j := FirstSharing(nodes, k);
            && Meta(v, nodes[k].id) == Ok(nodes[j])
            && (j == k <==> at[k] < 65535 || forall i | 0 <= i < k :: at[i] < 65535)
  {
    NodesSitAtSlots(v, source);
    HandleResolves(v, source, k);
    var nodes, at := Listing(v, source), NodeSlots(v, source);
    var j := FirstSharing(nodes, k);
    assert nodes[j].id.index == IndexOf(at[j]) && nodes[k].id.index == IndexOf(at[k]);
    if j == k {
      forall i | 0 <= i < k && at[k] >= 65535 ensures at[i] < 65535 {
        assert nodes[i].id.index == IndexOf(at[i]);
      }
    }
  }

  /** In a directory of at most 65536 slots no two listed nodes share an index. */
  lemma SharesWithNone(v: Vol, source: DirSource, k: nat)
    requires v.geom.clusterSize > 0 && k < |Listing(v, source)| && SlotCount(DirBytes(v, source)) <= 0x1_0000
    ensures FirstSharing(Listing(v, source), k) == k
  {
    var nodes := Listing(v, source);
    var j := FirstSharing(nodes, k);
    if IsFat(v) {
      NodesSitAtSlots(v, source);
      assert nodes[j].id.index == IndexOf(NodeSlots(v, source)[j]);
      assert nodes[k].id.index == IndexOf(NodeSlots(v, source)[k]);
    } else {
      var es := Exfat.SetsFrom(SlotsOf(DirBytes(v, source)), 0);
      ExfatProofs.IndicesIncrease(SlotsOf(DirBytes(v, source)), 0);
      assert nodes[j].id.index == es[j].index && nodes[k].id.index == es[k].index;
    }
  }

  /** In a directory of at most 65536 slots every listed node resolves to itself. */
  lemma HandlesAreStable(v: Vol, source: DirSource, k: nat)
    requires v.geom.clusterSize > 0 && Rereads(v, source) && k < |Listing(v, source)|
    requires SlotCount(DirBytes(v, source)) <= 0x1_0000
    ensures Meta(v, Listing(v, source)[k].id) == Ok(Listing(v, source)[k])
  {
    hide Listing, DirBytes;
    HandleResolves(v, source, k);
    SharesWithNone(v, source, k);
  }

  /** In a re-read directory every listed node resolves to itself exactly when no two different
      nodes share a handle. */
  lemma AllStableIff(v: Vol, source: DirSource)
    requires v.geom.clusterSize > 0 && Rereads(v, source)
    ensures var nodes := Listing(v, source);
            (forall k | 0 <= k < |nodes| :: Meta(v, nodes[k].id) == Ok(nodes[k]))
            <==> (forall j, k | 0 <= j < k < |nodes| :: nodes[j].id == nodes[k].id ==> nodes[j] == nodes[k])
  {
    hide Meta, Listing, Rereads, FirstSharing;
    var nodes := Listing(v, source);
    if forall k | 0 <= k < |nodes| :: Meta(v, nodes[k].id) == Ok(nodes[k]) {
      assert forall j, k | 0 <= j < k < |nodes| && nodes[j].id == nodes[k].id :: Ok(nodes[j]) == Ok(nodes[k]);
    }
    if forall j, k | 0 <= j < k < |nodes| :: nodes[j].id == nodes[k].id ==> nodes[j] == nodes[k] {
      forall k | 0 <= k < |nodes| ensures Meta(v, nodes[k].id) == Ok(nodes[k]) {
        HandleResolves(v, source, k);
        assert nodes[FirstSharing(nodes, k)].id == nodes[k].id;
      }
    }
  }

  // ----- Lookup -----

  lemma {:induction false} FindNameFirst(nodes: seq<Node>, name: seq<u8>)
    ensures FindName(nodes, name).None? <==> forall k | 0 <= k < |nodes| :: !Matches(nodes[k], name)
    ensures FindName(nodes, name).Some? ==>
              exists k :: 0 <= k < |nodes| && FindName(nodes, name).value == nodes[k].id && Matches(nodes[k], name)
                && forall i | 0 <= i < k :: !Matches(nodes[i], name)
  {
    if nodes != [] && !Matches(nodes[0], name) {
      FindNameFirst(nodes[1..], name);
      assert forall k | 0 < k < |nodes| :: nodes[k] == nodes[1..][k - 1];
      if FindName(nodes, name).Some? {
        var k :| 0 <= k < |nodes[1..]| && FindName(nodes[1..], name).value == nodes[1..][k].id
          && Matches(nodes[1..][k], name) && forall i | 0 <= i < k :: !Matches(nodes[1..][i], name);
        assert nodes[k + 1] == nodes[1..][k];
      }
    }
  }

  /** Whether a node is one lookup may return for `name`. */
  predicate IsLiveNamed(n: Node, name: string) { !n.isDeleted && !n.isVolumeLabel && n.name == name }

  lemma MatchesByName(n: Node, name: string)
    ensures Matches(n, Text.ToUtf8(name)) <==> IsLiveNamed(n, name)
  {
    if Matches(n, Text.ToUtf8(name)) { Text.Utf8Injective(n.name, name); }
  }

  /** Lookup by any bytes in any directory finds nothing when they are no name's encoding;
      otherwise nothing exactly when no live node there has the name, and else the handle of the
      first live node that has it. */
  lemma LookupFindsFirst(v: Vol, dir: FileId, bytes: seq<u8>)
    requires v.geom.clusterSize > 0 && SourceOf(v, dir).Ok?
    ensures var nodes, found := Listing(v, SourceOf(v, dir).value), Lookup(v, dir, bytes);
            && found.Ok?
            && ((forall name :: Text.ToUtf8(name) != bytes) ==> found.value.None?)
            && forall name | Text.ToUtf8(name) == bytes ::
                 && (found.value.None? <==> forall k | 0 <= k < |nodes| :: !IsLiveNamed(nodes[k], name))
                 && (found.value.Some? ==> exists k :: IsFirstLive(nodes, name, k) && found.value.value == nodes[k].id)
  {
    var nodes := Listing(v, SourceOf(v, dir).value);
    assert Lookup(v, dir, bytes) == Ok(FindName(nodes, bytes));
    FindNameFirst(nodes, bytes);
    forall name | Text.ToUtf8(name) == bytes
      ensures FindName(nodes, bytes).None? <==> forall k | 0 <= k < |nodes| :: !IsLiveNamed(nodes[k], name)
      ensures FindName(nodes, bytes).Some? ==>
                exists k :: IsFirstLive(nodes, name, k) && FindName(nodes, bytes).value == nodes[k].id
    {
      FoundByName(nodes, name);
    }
  }

  lemma FoundByName(nodes: seq<Node>, name: string)
    ensures var found := FindName(nodes, Text.ToUtf8(name));
            && (found.None? <==> forall k | 0 <= k < |nodes| :: !IsLiveNamed(nodes[k], name))
            && (found.Some? ==> exists k :: IsFirstLive(nodes, name, k) && found.value == nodes[k].id)
  {
    var bytes := Text.ToUtf8(name);
    FindNameFirst(nodes, bytes);
    forall k | 0 <= k < |nodes| ensures Matches(nodes[k], bytes) <==> IsLiveNamed(nodes[k], name) {
      MatchesByName(nodes[k], name);
    }
    if FindName(nodes, bytes).Some? {
      var k :| 0 <= k < |nodes| && FindName(nodes, bytes).value == nodes[k].id && Matches(nodes[k], bytes)
        && forall i | 0 <= i < k :: !Matches(nodes[i], bytes);
      assert IsFirstLive(nodes, name, k);
    }
  }

  /** Node k is the first live one of this name. */
  ghost predicate IsFirstLive(nodes: seq<Node>, name: string, k: int) {
    0 <= k < |nodes| && IsLiveNamed(nodes[k], name) && forall i | 0 <= i < k :: !IsLiveNamed(nodes[i], name)
  }

  /** A directory whose handles are stable: re-read as it was listed, at most 65536 slots. */
  ghost predicate Steady(v: Vol, source: DirSource)
    requires v.geom.clusterSize > 0
  {
    Rereads(v, source) && SlotCount(DirBytes(v, source)) <= 0x1_0000
  }

  /** Lookup by a name's bytes gives the handle of the first live node that has the name. */
  lemma LookupGivesFirst(v: Vol, dir: FileId, name: string, k: nat)
    requires v.geom.clusterSize > 0 && SourceOf(v, dir).Ok?
    requires IsFirstLive(Listing(v, SourceOf(v, dir).value), name, k)
    ensures Lookup(v, dir, Text.ToUtf8(name)) == Ok(Some(Listing(v, SourceOf(v, dir).value)[k].id))
  {
    hide Lookup, Listing, IsLiveNamed;
    LookupFindsFirst(v, dir, Text.ToUtf8(name));
    var nodes := Listing(v, SourceOf(v, dir).value);
    var j :| IsFirstLive(nodes, name, j) && Lookup(v, dir, Text.ToUtf8(name)).value.value == nodes[j].id;
    FirstIsUnique(nodes, name, j, k);
  }

  /** In a steady directory, lookup finds the first live node of a name, and the handle it gives
      resolves to that node. */
  lemma LookupResolves(v: Vol, dir: FileId, name: string, k: nat)
    requires v.geom.clusterSize > 0 && SourceOf(v, dir).Ok? && Steady(v, SourceOf(v, dir).value)
    requires IsFirstLive(Listing(v, SourceOf(v, dir).value), name, k)
    ensures var found := Lookup(v, dir, Text.ToUtf8(name));
            && found.Ok? && found.value.Some?
            && Meta(v, found.value.value) == Ok(Listing(v, SourceOf(v, dir).value)[k])
  {
    hide Lookup, Listing, IsLiveNamed, Meta;
    LookupGivesFirst(v, dir, name, k);
    HandlesAreStable(v, SourceOf(v, dir).value, k);
  }

  lemma FirstIsUnique(nodes: seq<Node>, name: string, j: int, k: int)
    requires IsFirstLive(nodes, name, j) && IsFirstLive(nodes, name, k)
    ensures j == k
  {}

  // ----- The root, and nodes that are no directories -----

  /** The root's own node: a live directory without name, size, cluster or times. */
  lemma RootNode(v: Vol)
    requires v.geom.clusterSize > 0
    ensures Meta(v, Root) == Ok(Node(Root, "", "", true, false, false, 0, 0x10, 0, false, None, None, None))
  {}

  /** A node is read as a directory if it is one, from its clusters; if not, listing it and looking up
      names in it are errors. */
  lemma OnlyDirectoriesAreListed(v: Vol, id: FileId, n: Node, name: seq<u8>)
    requires v.geom.clusterSize > 0 && id.Entry? && Meta(v, id) == Ok(n)
    ensures n.isDir ==> ReadDir(v, id) == Ok(Listing(v, ChainFrom(n.firstCluster, n.size, n.contiguous)))
    ensures !n.isDir ==> ReadDir(v, id) == Err(Corrupt("not a directory"))
    ensures !n.isDir ==> Lookup(v, id, name) == Err(Corrupt("not a directory"))
  {}
}
