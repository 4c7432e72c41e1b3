/** Properties of an opened volume: reads against runs, the contiguous fast form, distinct
    bytes behind distinct positions, and directories as flat content. */
module FsProofs {
  import opened Bytes
  import opened Wrappers
  import opened Fat
  import opened Boot
  import opened Image
  import opened Volume
  import opened FileMap
  import opened Fs

  // ----- Reads and runs -----

  /** The run lengths sum to what the chain holds of the file. */
  lemma RunLengths(v: Vol, e: Extent, runs: seq<Run>)
    requires AreRuns(v, e, runs) && e.chain != []
    ensures TotalLength(runs) == Min(e.total, Span(|e.chain|, v.geom.clusterSize))
  {
    RunAddrsLength(runs);
    ChainLength(v.geom, e.chain);
  }

  /** Any two answers of RunsOf for one extent are equal. */
  lemma RunsAreDetermined(v: Vol, e: Extent, a: seq<Run>, b: seq<Run>)
    requires AreRuns(v, e, a) && AreRuns(v, e, b)
    ensures a == b
  {
    if e.chain != [] { CanonicalRunsAreUnique(a, b); }
  }

  lemma RootRunContent(v: Vol, total: nat)
    requires total > 0
    ensures BackedPrefix(RunContent(v.image, [Run(v.geom.rootDirStart, total)])) == [] <==>
            v.geom.rootDirStart >= |v.image|
  {
    var r := [Run(v.geom.rootDirStart, total)];
    assert r[..0] == [];
    assert RunAddrs(r) == RunAddrs([]) + Stretch(v.geom.rootDirStart, total);
    assert RunAddrs(r)[0] == v.geom.rootDirStart;
  }

  /** Reading a whole node gives the bytes of its runs up to the first hole, except for a node
      with a size but no chain: its one run is the root region, which a read never returns. */
  lemma RunsMatchReadsIff(v: Vol, e: Extent, runs: seq<Run>)
    requires AreRuns(v, e, runs)
    ensures ReadOf(Content(v.image, v.geom, e.chain, e.total), 0, e.total) == BackedPrefix(RunContent(v.image, runs))
            <==> (e.chain != [] || e.total == 0 || v.geom.rootDirStart >= |v.image|)
  {
    var content := Content(v.image, v.geom, e.chain, e.total);
    if e.chain != [] {
      ReadIsRunContent(v.image, v.geom, e.chain, e.total, runs);
    } else {
      NoBytesInHoles(content);
      assert content[0..e.total] == content;
      if e.total > 0 { RootRunContent(v, e.total); }
    }
  }

  // ----- A size of zero -----

  lemma StartsAtFirst(v: Vol, first: u32, size: u64, contiguous: bool)
    requires Sound(v) && first >= 2
    ensures var chain := Clusters(v, first, size, contiguous); chain != [] && chain[0] == first
  {
    if contiguous && size > 0 { CeilCovers(size, v.geom.clusterSize); }
  }

  /** The length of a node is its size field, except that a size of zero with a cluster stands for
      the whole chain. */
  lemma LengthIsSizeIff(v: Vol, first: u32, size: u64, contiguous: bool)
    requires Sound(v)
    ensures ExtentOf(v, first, size, contiguous).total == size <==> size > 0 || first < 2
  {
    if first >= 2 {
      StartsAtFirst(v, first, size, contiguous);
      MulLe(1, |Clusters(v, first, size, contiguous)|, v.geom.clusterSize);
    }
  }

  /** So a file of size zero that still has a cluster is not read as empty: its first byte is the
      first byte of that cluster, if the image backs it. */
  lemma SizelessIsNotEmpty(v: Vol, first: u32, contiguous: bool)
    requires Sound(v) && first >= 2 && OffsetOf(v.geom, first) < |v.image|
    ensures var e := ExtentOf(v, first, 0, contiguous);
            ReadOf(Content(v.image, v.geom, e.chain, e.total), 0, 1) == [v.image[OffsetOf(v.geom, first)]]
  {
    var e := ExtentOf(v, first, 0, contiguous);
    StartsAtFirst(v, first, 0, contiguous);
    LengthIsSizeIff(v, first, 0, contiguous);
    FirstByte(v, e.chain, e.total);
  }

  lemma FirstByte(v: Vol, chain: seq<u32>, total: nat)
    requires v.geom.clusterSize > 0 && chain != [] && total > 0 && OffsetOf(v.geom, chain[0]) < |v.image|
    ensures ReadOf(Content(v.image, v.geom, chain, total), 0, 1) == [v.image[OffsetOf(v.geom, chain[0])]]
  {
    var content := Content(v.image, v.geom, chain, total);
    AddrInCluster(v.geom, chain, 0, 0);
    assert Span(0, v.geom.clusterSize) == 0;
    assert content[0..1] == [Some(v.image[OffsetOf(v.geom, chain[0])])];
    BackedPrefixIs(content[0..1], [v.image[OffsetOf(v.geom, chain[0])]]);
  }

  // ----- Distinct positions -----

  /** A walk that stays in the volume and ends at a terminator. */
  ghost predicate IsGoodWalk(v: Vol, w: seq<u32>) {
    IsWalk(v.fat, v.geom.variant, w) && EndsAtTerminator(v.fat, v.geom.variant, w) && InRange(w, v.geom.countOfClusters)
  }

  /** On an opened FAT12/16/32 volume, a file whose walk is good is read whole, and keeps every
      position in its own byte of the data region. */
  lemma FilePositionsAreDistinct(image: seq<u8>, v: Vol, w: seq<u32>, p: nat, q: nat)
    requires Opened(image) == Ok(v) && IsFat(v) && IsGoodWalk(v, w)
    requires p < |ChainAddrs(v.geom, w)| && q < |ChainAddrs(v.geom, w)| && p != q
    ensures Chain(v.fat, v.geom.variant, w[0], v.maxClusters) == w
    ensures ChainAddrs(v.geom, w)[p] != ChainAddrs(v.geom, w)[q]
    ensures v.geom.dataStart <= ChainAddrs(v.geom, w)[p] < VolumeEnd(v.geom)
  {
    hide Opened, ChainAddrs;
    OpenedIsSound(image);
    OpenedFatIsParsed(image);
    TerminatedWalkIsReturnedWhole(v.fat, v.geom.variant, w, v.geom.countOfClusters);
    assert forall i | 0 <= i < |w| :: w[i] in w;
    PositionsAreDistinct(v.geom, w, p, q);
  }

  lemma OpenedFatIsParsed(image: seq<u8>)
    requires Opened(image).Ok? && IsFat(Opened(image).value)
    ensures MetaInOrder(Opened(image).value.geom) && DataInVolume(Opened(image).value.geom)
  {
    var boot := image[..512];
    if Exfat.HasSignature(boot) { Exfat.AcceptedFits(boot); } else { AcceptedIsLaidOut(boot); }
  }

  // ----- The contiguous form -----

  /** The FAT links `n` clusters from `first` one after the other, to an end marker, and none
      of the links is itself a marker. */
  ghost predicate LinksConsecutively(v: Vol, first: u32, n: nat) {
    && first >= 2 && n > 0 && first + n <= U32_MAX
    && (n > 1 ==> first + n < EocThreshold(v.geom.variant))
    && (forall c: u32 | first <= c < first + n - 1 :: FatEntry(v.fat, v.geom.variant, c) == c + 1)
    && IsEoc(v.geom.variant, FatEntry(v.fat, v.geom.variant, first + n - 1))
  }

  lemma ChainOfLinked(v: Vol, first: u32, n: nat, cap: nat)
    requires LinksConsecutively(v, first, n) && n <= cap
    ensures Chain(v.fat, v.geom.variant, first, cap) == Contiguous(first, n, cap)
  {
    var w := Contiguous(first, n, cap);
    forall i | 0 < i < |w| ensures w[i] == FatEntry(v.fat, v.geom.variant, w[i - 1]) && !Stops(v.geom.variant, w[i]) {
      assert w[i - 1] == first + i - 1;
    }
    ChainIsTheMaximalWalk(v.fat, v.geom.variant, first, cap, w);
  }

  /** A NoFatChain extent is the chain of any FAT that links its clusters in order. */
  lemma ContiguousIsChain(v: Vol, first: u32, size: u64)
    requires Sound(v) && size > 0
    requires var n := DivCeil(size, v.geom.clusterSize);
             n <= v.maxClusters && LinksConsecutively(v, first, n)
    ensures Clusters(v, first, size, true) == Clusters(v, first, size, false)
    ensures ExtentOf(v, first, size, true) == ExtentOf(v, first, size, false)
  {
    ChainOfLinked(v, first, DivCeil(size, v.geom.clusterSize), v.maxClusters);
  }

  /** Cluster n of a run of clusters begins n whole clusters after the first. */
  lemma ConsecutiveOffset(g: Geometry, first: u32, n: nat)
    requires Fits(g) && first >= 2 && first + n <= U32_MAX
    ensures OffsetOf(g, first + n) == OffsetOf(g, first) + Span(n, g.clusterSize)
  {
    OffsetExists(g, first);
    OffsetExists(g, first + n);
    Distribute(first - 2, n, g.clusterSize);
  }

  lemma StretchOn(off: nat, a: nat, b: nat)
    ensures Stretch(off, a) + Stretch(off + a, b) == Stretch(off, a + b)
  {}

  lemma {:induction false} ConsecutiveAddrs(g: Geometry, chain: seq<u32>)
    requires Fits(g) && chain != [] && chain[0] >= 2
    requires forall i | 0 <= i < |chain| :: chain[i] == chain[0] + i
    ensures ChainAddrs(g, chain) == Stretch(OffsetOf(g, chain[0]), Span(|chain|, g.clusterSize))
  {
    hide OffsetOf, Stretch, Span, Fits;
    var n := |chain| - 1;
    var off := OffsetOf(g, chain[0]);
    assert chain[n] == chain[0] + n;
    ConsecutiveOffset(g, chain[0], n);
    SpanStep(n, g.clusterSize);
    if n > 0 {
      ConsecutiveAddrs(g, chain[..n]);
      StretchOn(off, Span(n, g.clusterSize), g.clusterSize);
    } else {
      OneClusterAddrs(g, chain);
    }
  }

  lemma OneClusterAddrs(g: Geometry, chain: seq<u32>)
    requires |chain| == 1
    ensures ChainAddrs(g, chain) == Stretch(OffsetOf(g, chain[0]), Span(1, g.clusterSize))
  {
    assert chain[..0] == [];
  }

  lemma CeilCovers(size: nat, unit: nat)
    requires unit > 0
    ensures size <= Span(DivCeil(size, unit), unit)
    ensures size > 0 ==> DivCeil(size, unit) > 0
  {
    CeilBounds(size, unit);
  }

  /** Such an extent backs its file by a single run. */
  lemma ContiguousIsOneRun(v: Vol, first: u32, size: u64, runs: seq<Run>)
    requires Sound(v) && size > 0 && first >= 2
    requires var n := DivCeil(size, v.geom.clusterSize); n <= v.maxClusters && first + n <= U32_MAX
    requires AreRuns(v, ExtentOf(v, first, size, true), runs)
    ensures runs == [Run(OffsetOf(v.geom, first), size)]
  {
    var e := ExtentOf(v, first, size, true);
    CeilCovers(size, v.geom.clusterSize);
    ConsecutiveAddrs(v.geom, e.chain);
    var one := [Run(OffsetOf(v.geom, first), size)];
    assert one[..0] == [];
    assert RunAddrs(one) == RunAddrs([]) + Stretch(OffsetOf(v.geom, first), size);
    assert RunAddrs(one) == ChainAddrs(v.geom, e.chain)[..size];
    CanonicalRunsAreUnique(runs, one);
  }

  // ----- Directory bytes are the same content -----

  ghost predicate Backed(v: Vol, chain: seq<u32>) {
    forall i | 0 <= i < |chain| :: chain[i] >= 2 && OffsetOf(v.geom, chain[i]) + v.geom.clusterSize <= |v.image|
  }

  function Values(s: seq<u8>): (r: seq<Option<u8>>)
    ensures |r| == |s|
  {
    seq(|s|, i requires 0 <= i < |s| => Some(s[i]))
  }

  lemma BackedPrefixOfValues(s: seq<u8>)
    ensures BackedPrefix(Values(s)) == s
  {
    BackedPrefixIs(Values(s), s);
  }

  /** One whole cluster more of the directory is one whole cluster more of the file. */
  lemma GatherStep(v: Vol, chain: seq<u32>, out: seq<u8>, at: nat)
    requires Sound(v) && Backed(v, chain) && at < |chain| && |out| == Span(at, v.geom.clusterSize)
    requires Values(out) == Content(v.image, v.geom, chain, |out|)
    ensures var out' := out + Window(v.image, OffsetOf(v.geom, chain[at]), v.geom.clusterSize);
            |out'| == Span(at + 1, v.geom.clusterSize) && Values(out') == Content(v.image, v.geom, chain, |out'|)
  {
    var w := Window(v.image, OffsetOf(v.geom, chain[at]), v.geom.clusterSize);
    SpanStep(at, v.geom.clusterSize);
    var total := |out| + |w|;
    ClusterRead(v.image, v.geom, chain, total, |out|, at, 0, v.geom.clusterSize);
    var content := Content(v.image, v.geom, chain, total);
    assert Content(v.image, v.geom, chain, |out|) == content[..|out|];
    forall i | 0 <= i < total ensures Values(out + w)[i] == content[i] {
      if i < |out| { assert Values(out)[i] == content[i]; }
      else { assert content[|out| + (i - |out|)] == Some(w[i - |out|]); }
    }
  }

  lemma {:induction false} GatherAppends(v: Vol, chain: seq<u32>, out: seq<u8>, at: nat)
    requires Sound(v) && Backed(v, chain) && at <= |chain| && |out| == Span(at, v.geom.clusterSize)
    requires chain == [] || Span(|chain| - 1, v.geom.clusterSize) < MAX_DIR_BYTES
    requires Values(out) == Content(v.image, v.geom, chain, |out|)
    ensures Values(Gather(v, chain[at..], out)) == Content(v.image, v.geom, chain, Span(|chain|, v.geom.clusterSize))
    decreases |chain| - at
  {
    if at < |chain| {
      GatherStep(v, chain, out, at);
      OffsetExists(v.geom, chain[at]);
      MulLe(at, |chain| - 1, v.geom.clusterSize);
      GatherAppends(v, chain, out + Window(v.image, OffsetOf(v.geom, chain[at]), v.geom.clusterSize), at + 1);
      assert chain[at..][0] == chain[at] && chain[at..][1..] == chain[at + 1..];
    }
  }

  /** Where every cluster is in the image and the size cap is not met, the bytes of a directory
      are what reading the same chain as a file would return. */
  lemma DirectoryBytesAreContent(v: Vol, first: u32, size: u64, contiguous: bool)
    requires Sound(v)
    requires var chain := Clusters(v, first, size, contiguous);
             Backed(v, chain) && (chain == [] || Span(|chain| - 1, v.geom.clusterSize) < MAX_DIR_BYTES)
    ensures var chain := Clusters(v, first, size, contiguous);
            var total := Span(|chain|, v.geom.clusterSize);
            DirBytes(v, ChainFrom(first, size, contiguous)) == ReadOf(Content(v.image, v.geom, chain, total), 0, total)
  {
    var chain := Clusters(v, first, size, contiguous);
    var total := Span(|chain|, v.geom.clusterSize);
    var content := Content(v.image, v.geom, chain, total);
    assert Span(0, v.geom.clusterSize) == 0;
    GatherAppends(v, chain, [], 0);
    assert chain[0..] == chain;
    BackedPrefixOfValues(DirBytes(v, ChainFrom(first, size, contiguous)));
    assert content[0..total] == content;
  }

  // ----- Exactly when they are the same -----

  function ClusterBytes(v: Vol, c: u32): seq<u8> { Window(v.image, OffsetOf(v.geom, c), v.geom.clusterSize) }

  /** The backed parts of the clusters, one after the other. */
  function Parts(v: Vol, chain: seq<u32>): seq<u8> {
    if chain == [] then [] else Parts(v, chain[..|chain| - 1]) + ClusterBytes(v, chain[|chain| - 1])
  }

  lemma {:induction false} PartsLength(v: Vol, chain: seq<u32>)
    ensures |Parts(v, chain)| <= Span(|chain|, v.geom.clusterSize)
  {
    if chain != [] {
      PartsLength(v, chain[..|chain| - 1]);
      SpanStep(|chain| - 1, v.geom.clusterSize);
    }
  }

  /** Below the cap a directory is these parts. */
  lemma {:induction false} GatherIsParts(v: Vol, chain: seq<u32>, at: nat)
    requires Sound(v) && at <= |chain| && forall c | c in chain :: c >= 2
    requires chain == [] || Span(|chain| - 1, v.geom.clusterSize) < MAX_DIR_BYTES
    ensures Gather(v, chain[at..], Parts(v, chain[..at])) == Parts(v, chain)
    decreases |chain| - at
  {
    if at < |chain| {
      assert chain[at] in chain;
      PartsLength(v, chain[..at]);
      MulLe(at, |chain| - 1, v.geom.clusterSize);
      OffsetExists(v.geom, chain[at]);
      assert chain[..at + 1][..at] == chain[..at];
      GatherIsParts(v, chain, at + 1);
      assert chain[at..][0] == chain[at] && chain[at..][1..] == chain[at + 1..];
    } else {
      assert chain[..at] == chain;
    }
  }

  predicate IsFullyBacked(v: Vol, c: u32) { |ClusterBytes(v, c)| == v.geom.clusterSize }

  predicate AllBacked(v: Vol, chain: seq<u32>) { forall i | 0 <= i < |chain| :: IsFullyBacked(v, chain[i]) }

  /** Behind a cluster that the image cuts or does not reach, no cluster holds a byte. */
  predicate NothingAfterHole(v: Vol, chain: seq<u32>) {
    forall i, j | 0 <= i < j < |chain| :: IsFullyBacked(v, chain[i]) || ClusterBytes(v, chain[j]) == []
  }

  /** What reading the clusters as a file gives. */
  function ChainRead(v: Vol, chain: seq<u32>): seq<u8> {
    BackedPrefix(Content(v.image, v.geom, chain, Span(|chain|, v.geom.clusterSize)))
  }

  lemma BackedWindow(image: seq<u8>, off: nat, len: nat)
    ensures BackedPrefix(Peeks(image, off, len)) == Window(image, off, len)
  {
    var peeks, w := Peeks(image, off, len), Window(image, off, len);
    forall i | 0 <= i < |w| ensures peeks[i] == Some(w[i]) {
      assert w[i] == image[off + i];
    }
    if |w| < len { assert peeks[|w|] == Peek(image, off + |w|) == None; }
    BackedPrefixIs(peeks, w);
  }

  function Peeks(image: seq<u8>, off: nat, len: nat): (r: seq<Option<u8>>)
    ensures |r| == len
  {
    seq(len, i requires i >= 0 => Peek(image, off + i))
  }

  lemma ContentStep(v: Vol, chain: seq<u32>)
    requires chain != []
    ensures var n, size := |chain| - 1, v.geom.clusterSize;
            Content(v.image, v.geom, chain, Span(n + 1, size)) ==
            Content(v.image, v.geom, chain[..n], Span(n, size)) + Peeks(v.image, OffsetOf(v.geom, chain[n]), size)
  {
    var n, size := |chain| - 1, v.geom.clusterSize;
    ChainLength(v.geom, chain[..n]);
    ChainLength(v.geom, chain);
    SpanStep(n, size);
  }

  lemma ReadStep(v: Vol, chain: seq<u32>)
    requires chain != []
    ensures var init, last := chain[..|chain| - 1], chain[|chain| - 1];
            ChainRead(v, chain) == if |ChainRead(v, init)| < Span(|init|, v.geom.clusterSize) then ChainRead(v, init)
                              else ChainRead(v, init) + ClusterBytes(v, last)
  {
    hide Content, BackedPrefix, Peeks;
    var n, size := |chain| - 1, v.geom.clusterSize;
    ContentStep(v, chain);
    var last := Peeks(v.image, OffsetOf(v.geom, chain[n]), size);
    BackedPrefixConcat(Content(v.image, v.geom, chain[..n], Span(n, size)), last);
    BackedWindow(v.image, OffsetOf(v.geom, chain[n]), size);
  }

  lemma {:induction false} ReadIsPartsIff(v: Vol, chain: seq<u32>)
    requires v.geom.clusterSize > 0
    ensures |ChainRead(v, chain)| <= |Parts(v, chain)|
    ensures |ChainRead(v, chain)| == Span(|chain|, v.geom.clusterSize) <==> AllBacked(v, chain)
    ensures ChainRead(v, chain) == Parts(v, chain) <==> NothingAfterHole(v, chain)
  {
    if chain == [] {
      assert Span(0, v.geom.clusterSize) == 0;
    } else {
      hide ChainRead, ClusterBytes;
      var init, last := chain[..|chain| - 1], chain[|chain| - 1];
      ReadIsPartsIff(v, init);
      ReadStep(v, chain);
      SpanStep(|init|, v.geom.clusterSize);
      ClusterPart(v, last);
      HolesStep(v, init, last);
      assert chain == init + [last];
    }
  }

  lemma ClusterPart(v: Vol, c: u32)
    ensures |ClusterBytes(v, c)| <= v.geom.clusterSize
  {}

  lemma HolesStep(v: Vol, init: seq<u32>, last: u32)
    ensures AllBacked(v, init + [last]) <==> AllBacked(v, init) && IsFullyBacked(v, last)
    ensures NothingAfterHole(v, init + [last]) <==>
            NothingAfterHole(v, init) && (AllBacked(v, init) || ClusterBytes(v, last) == [])
    ensures AllBacked(v, init) ==> NothingAfterHole(v, init)
  {
    var chain := init + [last];
    assert forall i | 0 <= i < |init| :: chain[i] == init[i];
    assert chain[|init|] == last;
    if NothingAfterHole(v, chain) && !AllBacked(v, init) {
      var i :| 0 <= i < |init| && !IsFullyBacked(v, init[i]);
      assert !IsFullyBacked(v, chain[i]) && ClusterBytes(v, chain[|init|]) == [];
    }
    if NothingAfterHole(v, chain) {
      forall i, j | 0 <= i < j < |init| ensures IsFullyBacked(v, init[i]) || ClusterBytes(v, init[j]) == [] {
        assert IsFullyBacked(v, chain[i]) || ClusterBytes(v, chain[j]) == [];
      }
    }
  }

  /** Directory bytes carry on behind a hole, a read stops at it: below the size cap the two agree
      exactly when no cluster behind a cut or missing one holds a byte. */
  lemma DirectoryMatchesReadIff(v: Vol, first: u32, size: u64, contiguous: bool)
    requires Sound(v)
    requires var chain := Clusters(v, first, size, contiguous);
             chain == [] || Span(|chain| - 1, v.geom.clusterSize) < MAX_DIR_BYTES
    ensures var chain := Clusters(v, first, size, contiguous);
            var total := Span(|chain|, v.geom.clusterSize);
            DirBytes(v, ChainFrom(first, size, contiguous)) == ReadOf(Content(v.image, v.geom, chain, total), 0, total)
            <==> NothingAfterHole(v, chain)
  {
    hide Clusters, Content, BackedPrefix, Parts;
    var chain := Clusters(v, first, size, contiguous);
    GatherIsParts(v, chain, 0);
    NoParts(v, chain);
    ReadIsPartsIff(v, chain);
    WholeRead(Content(v.image, v.geom, chain, Span(|chain|, v.geom.clusterSize)));
  }

  lemma NoParts(v: Vol, chain: seq<u32>)
    ensures chain[0..] == chain && Parts(v, chain[..0]) == []
  {}

  lemma WholeRead(content: seq<Option<u8>>)
    ensures ReadOf(content, 0, |content|) == BackedPrefix(content)
  {
    assert content[0..|content|] == content;
  }
}
