/** The reader itself: a volume opened over a seekable image. Each method that loops or reads
    is proved against the function of Volume it computes. */
module Fs {
  import opened Bytes
  import opened Wrappers
  import opened Fat
  import opened Boot
  import opened Image
  import opened Volume
  import opened FileMap
  import Dirent
  import Exfat

  const U64_MAX := 0xFFFF_FFFF_FFFF_FFFF

  function GeometryOf(boot: seq<u8>): Result<Geometry> {
    if Exfat.HasSignature(boot) then Exfat.ParseBoot(boot) else Parse(boot)
  }

  /** The volume an image opens as. */
  function Opened(image: seq<u8>): Result<Vol> {
    if |image| < 512 then Err(Io)
    else
      var geom :- GeometryOf(image[..512]);
      Ok(Vol(image, geom,
             Window(image, geom.fatStart, Min(Span(geom.fatSizeSectors, geom.bytesPerSector), MAX_FAT_BYTES)),
             geom.countOfClusters + 2))
  }

  /** The bounds every opened volume has. */
  ghost predicate Sound(v: Vol) { Fits(v.geom) && v.maxClusters == v.geom.countOfClusters + 2 }

  lemma OpenedIsSound(image: seq<u8>)
    requires Opened(image).Ok?
    ensures Sound(Opened(image).value)
  {
    var boot := image[..512];
    if Exfat.HasSignature(boot) { Exfat.AcceptedFits(boot); } else { AcceptedIsLaidOut(boot); }
  }

  /** File sizes and chain lengths stay within 64 bits. */
  lemma TotalFits(v: Vol, id: FileId)
    requires Sound(v) && DataExtent(v, id).Ok?
    ensures DataExtent(v, id).value.total <= U64_MAX
  {
    MulLe(v.maxClusters, 0x1_0000_0001, v.geom.clusterSize);
    MulLe(v.geom.clusterSize, 0x200_0000, 0x1_0000_0001);
    var chain := DataExtent(v, id).value.chain;
    if |chain| <= v.maxClusters { MulLe(|chain|, v.maxClusters, v.geom.clusterSize); }
  }

  /** The runs of an extent: the root region for an empty chain with a size, otherwise the
      canonical runs of the addresses the file covers. */
  ghost predicate AreRuns(v: Vol, e: Extent, runs: seq<Run>) {
    if e.chain == [] then runs == if e.total == 0 then [] else [Run(v.geom.rootDirStart, e.total)]
    else
      var addrs := ChainAddrs(v.geom, e.chain);
      Canonical(runs) && RunAddrs(runs) == addrs[..Min(e.total, |addrs|)]
  }

  class FatFs {
    const reader: Reader
    const geom: Geometry
    const fat: seq<u8>
    const maxClusters: nat

    ghost function V(): Vol { Vol(reader.image, geom, fat, maxClusters) }

    ghost predicate Valid() { Sound(V()) }

    constructor (reader: Reader, geom: Geometry, fat: seq<u8>, maxClusters: nat)
      ensures this.reader == reader && V() == Vol(reader.image, geom, fat, maxClusters)
    {
      this.reader, this.geom, this.fat, this.maxClusters := reader, geom, fat, maxClusters;
    }

    static method Open(reader: Reader) returns (r: Result<FatFs>)
      modifies reader
      ensures r.Err? ==> Opened(reader.image) == Err(r.error)
      ensures r.Ok? ==> r.value.reader == reader && Opened(reader.image) == Ok(r.value.V()) && r.value.Valid()
    {
      var b := reader.ReadExact(0, 512);
      if b.Err? { return Err(b.error); }
      var boot := b.value;
      assert boot == reader.image[..512];
      var g := if Exfat.HasSignature(boot) then Exfat.ParseBoot(boot) else Parse(boot);
      if g.Err? { return Err(g.error); }
      var geom := g.value;
      var fatLen := Min(Span(geom.fatSizeSectors, geom.bytesPerSector), MAX_FAT_BYTES);
      var fat := reader.ReadUpto(geom.fatStart, fatLen);
      var fs := new FatFs(reader, geom, fat, geom.countOfClusters + 2);
      OpenedIsSound(reader.image);
      return Ok(fs);
    }

    /** Resolve a cluster list: a sequential extent, or the FAT chain. */
    method ClustersOf(first: u32, size: u64, contiguous: bool) returns (s: seq<u32>)
      requires Valid()
      ensures s == Clusters(V(), first, size, contiguous)
    {
      if first < 2 { return []; }
      if contiguous && size > 0 {
        s := Contiguous(first, DivCeil(size, geom.clusterSize), maxClusters);
      } else {
        s := FollowChain(fat, geom.variant, first, maxClusters);
      }
    }

    method ReadDirBytes(source: DirSource) returns (out: seq<u8>)
      requires Valid()
      modifies reader
      ensures out == DirBytes(V(), source)
    {
      match source
      case FixedRoot => out := reader.ReadUpto(geom.rootDirStart, geom.rootDirBytes);
      case ChainFrom(first, size, contiguous) =>
        var clusters := ClustersOf(first, size, contiguous);
        out := [];
        var i := 0;
        while i < |clusters|
          invariant i <= |clusters|
          invariant Gather(V(), clusters[i..], out) == Gather(V(), clusters, [])
        {
          if |out| >= MAX_DIR_BYTES { break; }
          var base := ClusterOffset(geom, clusters[i]);
          if base.None? { break; }
          var data := reader.ReadUpto(base.value, geom.clusterSize);
          assert clusters[i..][1..] == clusters[i + 1..];
          out := out + data;
          i := i + 1;
        }
    }

    method ListNodesOf(bytes: seq<u8>, marker: u32) returns (nodes: seq<Node>)
      ensures nodes == ListNodes(V(), bytes, marker)
    {
      if geom.variant == ExFat {
        var es := Exfat.ParseDirectory(bytes);
        nodes := ExfatNodes(marker, es);
      } else {
        var es := Dirent.ParseDirectory(bytes);
        nodes := FatNodes(marker, es);
      }
    }

    method Resolve(dirCluster: u32, index: u16) returns (r: Result<Node>)
      requires Valid()
      modifies reader
      ensures r == ResolveEntry(V(), dirCluster, index)
    {
      var bytes := ReadDirBytes(ParentSource(dirCluster));
      var nodes := ListNodesOf(bytes, dirCluster);
      return FindIndex(nodes, index);
    }

    method MetaOf(id: FileId) returns (r: Result<Node>)
      requires Valid()
      modifies reader
      ensures r == Meta(V(), id)
    {
      match id
      case Root => return Ok(ROOT_NODE);
      case Entry(d, i) => r := Resolve(d, i);
    }

    method DirSourceOf(id: FileId) returns (r: Result<DirSource>)
      requires Valid()
      modifies reader
      ensures r == SourceOf(V(), id)
    {
      match id
      case Root => return Ok(RootSource(geom));
      case Entry(d, i) =>
        var n := Resolve(d, i);
        if n.Err? { return Err(n.error); }
        if !n.value.isDir { return Err(Corrupt("not a directory")); }
        return Ok(ChainFrom(n.value.firstCluster, n.value.size, n.value.contiguous));
    }

    method ReadDirOf(id: FileId) returns (r: Result<seq<Node>>)
      requires Valid()
      modifies reader
      ensures r == ReadDir(V(), id)
    {
      var source := DirSourceOf(id);
      if source.Err? { return Err(source.error); }
      var bytes := ReadDirBytes(source.value);
      var nodes := ListNodesOf(bytes, SourceMarker(source.value));
      return Ok(nodes);
    }

    /** Resolve a child by name: the first live entry that is not a volume label. */
    method LookupOf(dir: FileId, name: seq<u8>) returns (r: Result<Option<FileId>>)
      requires Valid()
      modifies reader
      ensures r == Lookup(V(), dir, name)
    {
      var l := ReadDirOf(dir);
      if l.Err? { return Err(l.error); }
      var nodes := l.value;
      var i := 0;
      while i < |nodes|
        invariant i <= |nodes|
        invariant FindName(nodes[i..], name) == FindName(nodes, name)
      {
        if Matches(nodes[i], name) { return Ok(Some(nodes[i].id)); }
        assert nodes[i..][1..] == nodes[i + 1..];
        i := i + 1;
      }
      return Ok(None);
    }

    method DataExtentOf(id: FileId) returns (r: Result<Extent>)
      requires Valid()
      modifies reader
      ensures r == DataExtent(V(), id)
    {
      match id
      case Root =>
        var source := DirSourceOf(id);
        match source.value {
          case FixedRoot => return Ok(Extent([], geom.rootDirBytes));
          case ChainFrom(f, s, c) => r := ExtentFor(f, s, c);
        }
      case Entry(d, i) =>
        var n := Resolve(d, i);
        if n.Err? { return Err(n.error); }
        r := ExtentFor(n.value.firstCluster, n.value.size, n.value.contiguous);
    }

    method ExtentFor(first: u32, size: u64, contiguous: bool) returns (r: Result<Extent>)
      requires Valid()
      ensures r == Ok(ExtentOf(V(), first, size, contiguous))
    {
      var clusters := ClustersOf(first, size, contiguous);
      return Ok(Extent(clusters, if size > 0 then size else Span(|clusters|, geom.clusterSize)));
    }

    /** Read up to buf.Length bytes at `off` of a node: exactly the backed prefix of the flat
        file there, however the reader splits its reads. The rest of `buf` is untouched. */
    method ReadAt(id: FileId, off: u64, buf: array<u8>) returns (r: Result<nat>)
      requires Valid()
      modifies reader, buf
      ensures DataExtent(V(), id).Err? ==> r == Err(DataExtent(V(), id).error) && buf[..] == old(buf[..])
      ensures DataExtent(V(), id).Ok? ==>
                var e := DataExtent(V(), id).value;
                var bytes := ReadOf(Content(reader.image, geom, e.chain, e.total), off, buf.Length);
                r == Ok(|bytes|) && buf[..] == bytes + old(buf[|bytes|..])
    {
      var ext := DataExtentOf(id);
      if ext.Err? { return Err(ext.error); }
      TotalFits(V(), id);
      var n := ReadChain(ext.value.chain, ext.value.total, off, buf);
      return Ok(n);
    }

    method ReadChain(chain: seq<u32>, total: nat, off: u64, buf: array<u8>) returns (written: nat)
      requires Valid() && total <= U64_MAX && forall c | c in chain :: c >= 2
      modifies reader, buf
      ensures var bytes := ReadOf(Content(reader.image, geom, chain, total), off, buf.Length);
              written == |bytes| && buf[..] == bytes + old(buf[|bytes|..])
    {
      if off >= total { return 0; }
      ghost var content, got: seq<u8> := Content(reader.image, geom, chain, total), [];
      ghost var orig := buf[..];
      var end := Min(Min(off + buf.Length, U64_MAX), total);
      var pos: nat := off;
      written := 0;
      while pos < end
        invariant off <= pos <= end && written == pos - off == |got|
        invariant buf[..] == got + orig[written..]
        invariant Copied(content, off, got)
        decreases end - pos
      {
        ghost var before := buf[..];
        var n, w := ReadPiece(chain, total, pos, end, buf, written);
        if n == 0 { break; }
        WriteOn(orig, got, before, w, buf[..]);
        CopiedConcat(content, off, got, w);
        got := got + w;
        written := written + n;
        pos := pos + n;
      }
      CopiedIsRead(content, off, buf.Length, got);
    }

    /** One step of ReadChain: the rest of the cluster `pos` lies in, as far as it is asked for.
        Nothing is read past the chain or where the image is truncated. */
    method ReadPiece(chain: seq<u32>, total: nat, pos: nat, end: nat, buf: array<u8>, written: nat)
      returns (n: nat, ghost w: seq<u8>)
      requires Valid() && forall c | c in chain :: c >= 2
      requires pos < end <= total && written + (end - pos) <= buf.Length
      modifies reader, buf
      ensures n == |w| <= end - pos && Copied(Content(reader.image, geom, chain, total), pos, w)
      ensures n == 0 ==> Content(reader.image, geom, chain, total)[pos] == None
      ensures buf[..] == old(buf[..written]) + w + old(buf[written + n..])
    {
      var ci, intra := Locate(pos, geom.clusterSize);
      if ci >= |chain| {
        HolePastChain(reader.image, geom, chain, total, ci, intra);
        return 0, [];
      }
      assert chain[ci] in chain;
      OffsetExists(geom, chain[ci]);
      var base := ClusterOffset(geom, chain[ci]).value;
      var want := Min(end - pos, geom.clusterSize - intra);
      ClusterRead(reader.image, geom, chain, total, pos, ci, intra, want);
      w := Window(reader.image, base + intra, want);
      n := reader.ReadRegion(base + intra, buf, written, written + want);
    }

    /** The image runs backing a node, physically adjacent clusters merged. */
    method RunsOf(id: FileId) returns (r: Result<seq<Run>>)
      requires Valid()
      modifies reader
      ensures DataExtent(V(), id).Err? ==> r == Err(DataExtent(V(), id).error)
      ensures DataExtent(V(), id).Ok? ==> r.Ok? && AreRuns(V(), DataExtent(V(), id).value, r.value)
    {
      var ext := DataExtentOf(id);
      if ext.Err? { return Err(ext.error); }
      var chain, total := ext.value.chain, ext.value.total;
      if chain == [] {
        return Ok(if total == 0 then [] else [Run(geom.rootDirStart, total)]);
      }
      var runs := MergeRuns(chain, total);
      return Ok(runs);
    }

    method MergeRuns(chain: seq<u32>, total: nat) returns (runs: seq<Run>)
      requires Valid() && forall c | c in chain :: c >= 2
      ensures Canonical(runs)
      ensures var addrs := ChainAddrs(geom, chain);
              RunAddrs(runs) == addrs[..Min(total, |addrs|)]
    {
      hide RunsCover, Covered;
      runs := [];
      var remaining: nat := total;
      var i := 0;
      RunsBegin(geom, chain, total);
      while i < |chain|
        invariant i <= |chain|
        invariant RunsCover(geom, chain, total, i, runs)
        invariant remaining == total - Covered(geom, total, i)
      {
        if remaining == 0 { break; }
        assert chain[i] in chain;
        OffsetExists(geom, chain[i]);
        var off := ClusterOffset(geom, chain[i]);
        if off.None? { break; }
        RunsStep(geom, chain, total, i, runs);
        var len := Min(geom.clusterSize, remaining);
        remaining := remaining - len;
        if runs != [] && runs[|runs| - 1].off + runs[|runs| - 1].len == off.value {
          runs := runs[|runs| - 1 := Run(runs[|runs| - 1].off, runs[|runs| - 1].len + len)];
        } else {
          runs := runs + [Run(off.value, len)];
        }
        i := i + 1;
      }
      RunsEnd(geom, chain, total, i, runs);
    }
  }
}
