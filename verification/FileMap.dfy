/** One flat file behind a cluster chain: where each byte lies in the image, what a read of
    a range must return, and the one way to write the addresses as maximal runs. */
module FileMap {
  import opened Bytes
  import Seqs
  import opened Wrappers
  import opened Boot
  import opened Image

  // ----- Addresses -----

  /** The addresses off, off + 1, ..., off + len - 1. */
  function Stretch(off: nat, len: nat): (r: seq<nat>)
    ensures |r| == len
    ensures forall i | 0 <= i < len :: r[i] == off + i
  {
    seq(len, i requires i >= 0 => off + i)
  }

  function OffsetOf(g: Geometry, c: u32): nat {
    match ClusterOffset(g, c)
    case Some(off) => off
    case None => 0
  }

  /** The clusters laid end to end, as image addresses. */
  function ChainAddrs(g: Geometry, chain: seq<u32>): seq<nat> {
    if chain == [] then []
    else ChainAddrs(g, chain[..|chain| - 1]) + Stretch(OffsetOf(g, chain[|chain| - 1]), g.clusterSize)
  }

  /** The j-th byte of the k-th cluster follows k whole clusters. */
  lemma {:induction false} AddrInCluster(g: Geometry, chain: seq<u32>, k: nat, j: nat)
    requires k < |chain| && j < g.clusterSize
    ensures |ChainAddrs(g, chain)| == Span(|chain|, g.clusterSize)
    ensures Span(k, g.clusterSize) + j < |ChainAddrs(g, chain)|
    ensures ChainAddrs(g, chain)[Span(k, g.clusterSize) + j] == OffsetOf(g, chain[k]) + j
  {
    var n := |chain| - 1;
    ChainLength(g, chain);
    ChainLength(g, chain[..n]);
    SpanStep(n, g.clusterSize);
    ClusterEnd(k, |chain|, g.clusterSize);
    if k < n {
      AddrInCluster(g, chain[..n], k, j);
    }
  }

  lemma SpanStep(n: nat, size: nat)
    ensures Span(n + 1, size) == Span(n, size) + size
  {}

  lemma {:induction false} ChainLength(g: Geometry, chain: seq<u32>)
    ensures |ChainAddrs(g, chain)| == Span(|chain|, g.clusterSize)
  {
    if chain != [] {
      ChainLength(g, chain[..|chain| - 1]);
      SpanStep(|chain| - 1, g.clusterSize);
    } else {
      assert Span(0, g.clusterSize) == 0;
    }
  }

  /** Splitting a position into cluster number and offset inside it. */
  lemma PositionSplits(p: nat, size: nat)
    requires size > 0
    ensures p == Span(p / size, size) + p % size
  {}

  /** The cluster number of a file position, and the offset inside that cluster. */
  method Locate(p: nat, size: nat) returns (k: nat, j: nat)
    requires size > 0
    ensures p == Span(k, size) + j && j < size
  {
    k, j := p / size, p % size;
    PositionSplits(p, size);
  }

  lemma PositionInChain(p: nat, count: nat, size: nat)
    requires size > 0
    ensures p / size < count <==> p < Span(count, size)
  {
    PositionSplits(p, size);
    if p / size < count { ClusterEnd(p / size, count, size); }
    else { MulLe(count, p / size, size); }
  }

  /** Position p of the file is byte p % size of cluster p / size of the chain. */
  lemma AddrAt(g: Geometry, chain: seq<u32>, p: nat)
    requires g.clusterSize > 0
    ensures p < |ChainAddrs(g, chain)| <==> p / g.clusterSize < |chain|
    ensures p < |ChainAddrs(g, chain)| ==>
              ChainAddrs(g, chain)[p] == OffsetOf(g, chain[p / g.clusterSize]) + p % g.clusterSize
  {
    ChainLength(g, chain);
    PositionInChain(p, |chain|, g.clusterSize);
    PositionSplits(p, g.clusterSize);
    if p / g.clusterSize < |chain| {
      AddrInCluster(g, chain, p / g.clusterSize, p % g.clusterSize);
    }
  }

  // ----- Content -----

  function Peek(image: seq<u8>, addr: nat): Option<u8> { if addr < |image| then Some(image[addr]) else None }

  /** The file as the chain and the size field claim it: `total` positions, each a byte of the
      image or a hole (no cluster, or a cluster beyond the end of the image). */
  function Content(image: seq<u8>, g: Geometry, chain: seq<u32>, total: nat): (r: seq<Option<u8>>)
    ensures |r| == total
  {
    var addrs := ChainAddrs(g, chain);
    seq(total, p requires p >= 0 => if p < |addrs| then Peek(image, addrs[p]) else None)
  }

  /** The bytes before the first hole. */
  function BackedPrefix(s: seq<Option<u8>>): (r: seq<u8>)
    ensures |r| <= |s|
  {
    if s == [] || s[0].None? then [] else [s[0].value] + BackedPrefix(s[1..])
  }

  /** It is the only sequence that copies values up to a hole or the end. */
  lemma {:induction false} BackedPrefixIs(s: seq<Option<u8>>, r: seq<u8>)
    requires |r| <= |s| && forall i | 0 <= i < |r| :: s[i] == Some(r[i])
    requires |r| < |s| ==> s[|r|] == None
    ensures r == BackedPrefix(s)
  {
    if r != [] {
      BackedPrefixIs(s[1..], r[1..]);
    }
  }

  /** What a read of `len` bytes at `off` delivers. */
  function ReadOf(content: seq<Option<u8>>, off: nat, len: nat): seq<u8> {
    if off >= |content| then [] else BackedPrefix(content[off..Min(off + len, |content|)])
  }

  lemma {:induction false} BackedPrefixConcat(s: seq<Option<u8>>, t: seq<Option<u8>>)
    ensures BackedPrefix(s + t)
         == if |BackedPrefix(s)| < |s| then BackedPrefix(s) else BackedPrefix(s) + BackedPrefix(t)
  {
    if s == [] {
      assert s + t == t;
    } else {
      BackedPrefixConcat(s[1..], t);
      assert (s + t)[1..] == s[1..] + t;
    }
  }

  /** Reads compose: a full read continued where it stopped is one longer read, and a short
      read stays short however much is asked. */
  lemma ReadsCompose(content: seq<Option<u8>>, off: nat, a: nat, b: nat)
    ensures |ReadOf(content, off, a)| == a ==>
              ReadOf(content, off, a + b) == ReadOf(content, off, a) + ReadOf(content, off + a, b)
    ensures |ReadOf(content, off, a)| < a ==> ReadOf(content, off, a + b) == ReadOf(content, off, a)
  {
    if off < |content| {
      var n := |content|;
      var mid, end := Min(off + a, n), Min(off + a + b, n);
      assert content[off..end] == content[off..mid] + content[mid..end];
      BackedPrefixConcat(content[off..mid], content[mid..end]);
    }
  }

  // ----- Runs -----

  datatype Run = Run(off: nat, len: nat)

  function RunAddrs(runs: seq<Run>): seq<nat> {
    if runs == [] then [] else RunAddrs(runs[..|runs| - 1]) + Stretch(runs[|runs| - 1].off, runs[|runs| - 1].len)
  }

  function TotalLength(runs: seq<Run>): nat {
    if runs == [] then 0 else TotalLength(runs[..|runs| - 1]) + runs[|runs| - 1].len
  }

  /** No empty run, and no two neighbours that could be one. */
  ghost predicate Canonical(runs: seq<Run>) {
    && (forall i | 0 <= i < |runs| :: runs[i].len > 0)
    && (forall i | 0 < i < |runs| :: runs[i - 1].off + runs[i - 1].len != runs[i].off)
  }

  lemma {:induction false} RunAddrsLength(runs: seq<Run>)
    ensures |RunAddrs(runs)| == TotalLength(runs)
  {
    if runs != [] { RunAddrsLength(runs[..|runs| - 1]); }
  }

  /** The address before a run's first is either absent or not its predecessor. */
  lemma LastRunIsMaximal(runs: seq<Run>)
    requires Canonical(runs) && runs != []
    ensures var r, a := runs[|runs| - 1], RunAddrs(runs);
            && 0 < r.len <= |a| && a[|a| - r.len..] == Stretch(r.off, r.len)
            && a[..|a| - r.len] == RunAddrs(runs[..|runs| - 1])
            && (r.len < |a| ==> a[|a| - r.len - 1] + 1 != r.off)
  {
    var init := runs[..|runs| - 1];
    if init != [] {
      var p := init[|init| - 1];
      assert RunAddrs(init) == RunAddrs(init[..|init| - 1]) + Stretch(p.off, p.len);
      assert p == runs[|runs| - 2] && runs[|runs| - 2].off + runs[|runs| - 2].len != runs[|runs| - 1].off;
    }
  }

  /** The last run, read from its end. */
  lemma LastRunBackwards(runs: seq<Run>, i: nat)
    requires Canonical(runs) && runs != [] && i < runs[|runs| - 1].len
    ensures var r, a := runs[|runs| - 1], RunAddrs(runs);
            i < |a| && a[|a| - 1 - i] == r.off + r.len - 1 - i
  {
    LastRunIsMaximal(runs);
    var r, a := runs[|runs| - 1], RunAddrs(runs);
    assert a[|a| - 1 - i] == a[|a| - r.len..][r.len - 1 - i];
  }

  /** Equal addresses end in equal maximal stretches. */
  lemma SameLastRun(a: seq<Run>, b: seq<Run>)
    requires Canonical(a) && Canonical(b) && a != [] && b != [] && RunAddrs(a) == RunAddrs(b)
    requires a[|a| - 1].len <= b[|b| - 1].len
    ensures a[|a| - 1] == b[|b| - 1]
  {
    hide RunAddrs;
    var r, s := a[|a| - 1], b[|b| - 1];
    LastRunIsMaximal(a);
    LastRunBackwards(a, 0);
    LastRunBackwards(b, 0);
    if r.len < s.len {
      LastRunBackwards(b, r.len);
      assert false;
    }
  }

  /** A file's addresses determine its canonical runs. */
  lemma {:induction false} CanonicalRunsAreUnique(a: seq<Run>, b: seq<Run>)
    requires Canonical(a) && Canonical(b) && RunAddrs(a) == RunAddrs(b)
    ensures a == b
  {
    if a == [] || b == [] {
      if a != [] { LastRunIsMaximal(a); }
      if b != [] { LastRunIsMaximal(b); }
    } else {
      if a[|a| - 1].len <= b[|b| - 1].len { SameLastRun(a, b); } else { SameLastRun(b, a); }
      LastRunIsMaximal(a);
      LastRunIsMaximal(b);
      CanonicalRunsAreUnique(a[..|a| - 1], b[..|b| - 1]);
      Seqs.SameByLast(a, b);
    }
  }

  /** Growing the last run in place, or starting a new one, appends the same addresses. */
  function AddStretch(runs: seq<Run>, off: nat, len: nat): seq<Run> {
    if runs != [] && runs[|runs| - 1].off + runs[|runs| - 1].len == off
    then runs[|runs| - 1 := Run(runs[|runs| - 1].off, runs[|runs| - 1].len + len)]
    else runs + [Run(off, len)]
  }

  lemma AddStretchAppends(runs: seq<Run>, off: nat, len: nat)
    requires Canonical(runs) && len > 0
    ensures Canonical(AddStretch(runs, off, len))
    ensures RunAddrs(AddStretch(runs, off, len)) == RunAddrs(runs) + Stretch(off, len)
  {
    var r := AddStretch(runs, off, len);
    if runs != [] && runs[|runs| - 1].off + runs[|runs| - 1].len == off {
      var last := runs[|runs| - 1];
      assert r[..|r| - 1] == runs[..|runs| - 1];
      assert Stretch(last.off, last.len + len) == Stretch(last.off, last.len) + Stretch(off, len);
    } else {
      assert r[..|r| - 1] == runs;
    }
  }

  /** The bytes of the runs, with holes where the image does not reach. */
  function RunContent(image: seq<u8>, runs: seq<Run>): (r: seq<Option<u8>>)
    ensures |r| == |RunAddrs(runs)|
  {
    var addrs := RunAddrs(runs);
    seq(|addrs|, p requires 0 <= p < |addrs| => Peek(image, addrs[p]))
  }

  lemma {:induction false} ChainAddrsPrefix(g: Geometry, chain: seq<u32>, i: nat)
    requires i <= |chain|
    ensures Span(i, g.clusterSize) <= |ChainAddrs(g, chain)|
    ensures ChainAddrs(g, chain)[..Span(i, g.clusterSize)] == ChainAddrs(g, chain[..i])
    decreases |chain|
  {
    ChainLength(g, chain[..i]);
    if i < |chain| {
      var init := chain[..|chain| - 1];
      ChainAddrsPrefix(g, init, i);
      assert init[..i] == chain[..i];
    } else {
      assert chain[..i] == chain;
    }
  }

  /** What a cluster adds when only `remaining` bytes of the file are left. */
  lemma AddressesStep(g: Geometry, chain: seq<u32>, i: nat, total: nat)
    requires i < |chain|
    ensures var done, next := Min(total, Span(i, g.clusterSize)), Min(total, Span(i + 1, g.clusterSize));
            && done <= next <= |ChainAddrs(g, chain)|
            && next == done + Min(g.clusterSize, total - done)
            && ChainAddrs(g, chain)[..next] ==
               ChainAddrs(g, chain)[..done] + Stretch(OffsetOf(g, chain[i]), next - done)
  {
    ChainAddrsPrefix(g, chain, i);
    ChainAddrsPrefix(g, chain, i + 1);
    SpanStep(i, g.clusterSize);
    assert chain[..i + 1][..i] == chain[..i];
    var addrs, at := ChainAddrs(g, chain), Span(i, g.clusterSize);
    assert addrs[..at + g.clusterSize] == addrs[..at] + Stretch(OffsetOf(g, chain[i]), g.clusterSize);
    if total > at {
      var next := Min(total, at + g.clusterSize);
      assert addrs[..next] == addrs[..at + g.clusterSize][..next];
    }
  }

  // ----- Content through the runs -----

  lemma {:induction false} NoBytesInHoles(s: seq<Option<u8>>)
    requires forall i | 0 <= i < |s| :: s[i] == None
    ensures BackedPrefix(s) == []
  {}

  /** Reading a whole file returns what its runs hold, up to the first hole. */
  lemma ReadIsRunContent(image: seq<u8>, g: Geometry, chain: seq<u32>, total: nat, runs: seq<Run>)
    requires RunAddrs(runs) == ChainAddrs(g, chain)[..Min(total, |ChainAddrs(g, chain)|)]
    ensures ReadOf(Content(image, g, chain, total), 0, total) == BackedPrefix(RunContent(image, runs))
  {
    var content, held := Content(image, g, chain, total), RunContent(image, runs);
    var n := |held|;
    assert content == held + content[n..];
    NoBytesInHoles(content[n..]);
    BackedPrefixConcat(held, content[n..]);
    assert content[0..total] == content;
  }

  /** A position and those after it in the same cluster lie side by side in the image. */
  lemma ContentInCluster(image: seq<u8>, g: Geometry, chain: seq<u32>, total: nat, k: nat, j: nat)
    requires k < |chain| && j < g.clusterSize && Span(k, g.clusterSize) + j < total
    ensures Content(image, g, chain, total)[Span(k, g.clusterSize) + j] == Peek(image, OffsetOf(g, chain[k]) + j)
  {
    AddrInCluster(g, chain, k, j);
  }

  /** What one read inside a cluster says about the file: each byte read is the file's, and
      an empty read is a hole. */
  lemma ClusterRead(image: seq<u8>, g: Geometry, chain: seq<u32>, total: nat, pos: nat, k: nat, j: nat, want: nat)
    requires k < |chain| && pos == Span(k, g.clusterSize) + j
    requires 0 < want && j + want <= g.clusterSize && pos + want <= total
    ensures var w := Window(image, OffsetOf(g, chain[k]) + j, want);
            && Copied(Content(image, g, chain, total), pos, w)
            && (w == [] ==> Content(image, g, chain, total)[pos] == None)
  {
    var w := Window(image, OffsetOf(g, chain[k]) + j, want);
    ContentInCluster(image, g, chain, total, k, j);
    forall i | 0 <= i < |w| ensures Content(image, g, chain, total)[pos + i] == Some(w[i]) {
      ContentInCluster(image, g, chain, total, k, j + i);
    }
  }

  /** `got` is what the file holds from `off` on. */
  ghost predicate Copied(content: seq<Option<u8>>, off: nat, got: seq<u8>) {
    off + |got| <= |content| && forall i | 0 <= i < |got| :: content[off + i] == Some(got[i])
  }

  lemma CopiedConcat(content: seq<Option<u8>>, off: nat, got: seq<u8>, w: seq<u8>)
    requires Copied(content, off, got) && Copied(content, off + |got|, w)
    ensures Copied(content, off, got + w)
  {
    forall i | 0 <= i < |got + w| ensures content[off + i] == Some((got + w)[i]) {
      if i >= |got| { assert content[off + |got| + (i - |got|)] == Some(w[i - |got|]); }
    }
  }

  /** Copying up to the end of the request or a hole is the read. */
  lemma CopiedIsRead(content: seq<Option<u8>>, off: nat, len: nat, got: seq<u8>)
    requires off < |content| && Copied(content, off, got) && |got| <= len
    requires off + |got| < Min(off + len, |content|) ==> content[off + |got|] == None
    ensures got == ReadOf(content, off, len)
  {
    BackedPrefixIs(content[off..Min(off + len, |content|)], got);
  }

  /** A position past the chain is a hole. */
  lemma HolePastChain(image: seq<u8>, g: Geometry, chain: seq<u32>, total: nat, k: nat, j: nat)
    requires k >= |chain| && Span(k, g.clusterSize) + j < total
    ensures Content(image, g, chain, total)[Span(k, g.clusterSize) + j] == None
  {
    ChainLength(g, chain);
    MulLe(|chain|, k, g.clusterSize);
  }

  /** Bytes of the file covered by the first `i` clusters. */
  function Covered(g: Geometry, total: nat, i: nat): nat { Min(total, Span(i, g.clusterSize)) }

  /** The runs built so far cover exactly the first `i` clusters of the file. */
  ghost predicate RunsCover(g: Geometry, chain: seq<u32>, total: nat, i: nat, runs: seq<Run>) {
    && Canonical(runs) && Covered(g, total, i) <= |ChainAddrs(g, chain)|
    && RunAddrs(runs) == ChainAddrs(g, chain)[..Covered(g, total, i)]
  }

  lemma RunsBegin(g: Geometry, chain: seq<u32>, total: nat)
    ensures Covered(g, total, 0) == 0 && RunsCover(g, chain, total, 0, [])
  {
    assert Span(0, g.clusterSize) == 0;
  }

  /** Covering every cluster, or the whole file, is covering what the chain holds of it. */
  lemma RunsEnd(g: Geometry, chain: seq<u32>, total: nat, i: nat, runs: seq<Run>)
    requires RunsCover(g, chain, total, i, runs) && i <= |chain| && (i < |chain| ==> Covered(g, total, i) == total)
    ensures Canonical(runs) && RunAddrs(runs) == ChainAddrs(g, chain)[..Min(total, |ChainAddrs(g, chain)|)]
  {
    ChainLength(g, chain);
  }

  lemma RunsStep(g: Geometry, chain: seq<u32>, total: nat, i: nat, runs: seq<Run>)
    requires i < |chain| && RunsCover(g, chain, total, i, runs)
    requires Covered(g, total, i) < total && g.clusterSize > 0
    ensures var len := Min(g.clusterSize, total - Covered(g, total, i));
            && Covered(g, total, i + 1) == Covered(g, total, i) + len
            && RunsCover(g, chain, total, i + 1, AddStretch(runs, OffsetOf(g, chain[i]), len))
  {
    AddressesStep(g, chain, i, total);
    AddStretchAppends(runs, OffsetOf(g, chain[i]), Min(g.clusterSize, total - Covered(g, total, i)));
  }

  // ----- Different positions, different bytes -----

  lemma SplitPosition(g: Geometry, chain: seq<u32>, p: nat) returns (k: nat, i: nat)
    requires g.clusterSize > 0 && p < |ChainAddrs(g, chain)|
    ensures k < |chain| && i < g.clusterSize && p == Span(k, g.clusterSize) + i
    ensures ChainAddrs(g, chain)[p] == OffsetOf(g, chain[k]) + i
  {
    k, i := p / g.clusterSize, p % g.clusterSize;
    AddrAt(g, chain, p);
    PositionSplits(p, g.clusterSize);
  }

  /** Different bytes of clusters are different bytes of the image. */
  lemma ClusterBytesDiffer(g: Geometry, c: u32, i: nat, d: u32, j: nat)
    requires Fits(g) && c >= 2 && d >= 2 && i < g.clusterSize && j < g.clusterSize
    requires c != d || i != j
    ensures OffsetOf(g, c) + i != OffsetOf(g, d) + j
  {
    if c < d { ClustersDisjoint(g, c, d); }
    if d < c { ClustersDisjoint(g, d, c); }
  }

  /** On a laid-out volume, the positions of a file whose chain repeats no cluster are different
      bytes of the image, all of them inside the data region. */
  lemma PositionsAreDistinct(g: Geometry, chain: seq<u32>, p: nat, q: nat)
    requires DataInVolume(g) && Fits(g)
    requires forall i | 0 <= i < |chain| :: 2 <= chain[i] <= g.countOfClusters + 1
    requires forall i, j | 0 <= i < |chain| && 0 <= j < |chain| && i != j :: chain[i] != chain[j]
    requires p < |ChainAddrs(g, chain)| && q < |ChainAddrs(g, chain)| && p != q
    ensures ChainAddrs(g, chain)[p] != ChainAddrs(g, chain)[q]
    ensures g.dataStart <= ChainAddrs(g, chain)[p] < VolumeEnd(g)
  {
    var k, i := SplitPosition(g, chain, p);
    var l, j := SplitPosition(g, chain, q);
    assert k != l || i != j;
    ClusterInsideData(g, chain[k]);
    ClusterBytesDiffer(g, chain[k], i, chain[l], j);
  }
}
