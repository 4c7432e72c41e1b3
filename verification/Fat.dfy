/** FAT table access: decode one entry, classify it, follow a chain under a cap. */
module Fat {
  import opened Bytes
  import Seqs

  datatype FatVariant = Fat12 | Fat16 | Fat32 | ExFat

  type u12 = x: int | 0 <= x < 0x1000

  /** Byte offset and width of the window holding the entry of `cluster`. */
  function EntryOffset(v: FatVariant, cluster: u32): nat {
    match v
    case Fat12 => cluster * 3 / 2
    case Fat16 => cluster * 2
    case _ => cluster * 4
  }

  function EntryWidth(v: FatVariant): nat {
    match v
    case Fat12 => 2
    case Fat16 => 2
    case _ => 4
  }

  predicate InTable(fat: seq<u8>, v: FatVariant, cluster: u32) {
    EntryOffset(v, cluster) + EntryWidth(v) <= |fat|
  }

  /** The next-cluster pointer of `cluster`; 0 when its window is not all in the table. */
  function FatEntry(fat: seq<u8>, v: FatVariant, cluster: u32): (e: u32)
    ensures !InTable(fat, v, cluster) ==> e == 0
  {
    match v
    case Fat12 =>
      var raw := LeU16(fat, cluster * 3 / 2);
      if cluster % 2 == 1 then raw / 16 else raw % 0x1000
    case Fat16 => LeU16(fat, cluster * 2)
    case _ => LeU32(fat, cluster * 4) % 0x1000_0000
  }

  function EocThreshold(v: FatVariant): u32 {
    match v
    case Fat12 => 0x0FF8
    case Fat16 => 0xFFF8
    case _ => 0x0FFF_FFF8
  }

  predicate IsEoc(v: FatVariant, value: u32) { value >= EocThreshold(v) }

  predicate IsBad(v: FatVariant, value: u32) { value == EocThreshold(v) - 1 }

  /** The pointer values at which a walk ends. */
  predicate Stops(v: FatVariant, next: u32) { next < 2 || IsBad(v, next) || IsEoc(v, next) }

  /** What FollowChain returns, as a function. */
  function Chain(fat: seq<u8>, v: FatVariant, start: u32, cap: nat): (s: seq<u32>)
    ensures |s| <= cap
    ensures forall c | c in s :: c >= 2
    decreases cap
  {
    if cap == 0 || start < 2 then []
    else
      var next := FatEntry(fat, v, start);
      if Stops(v, next) then [start] else [start] + Chain(fat, v, next, cap - 1)
  }

  method FollowChain(fat: seq<u8>, v: FatVariant, start: u32, maxClusters: nat) returns (chain: seq<u32>)
    ensures chain == Chain(fat, v, start, maxClusters)
  {
    chain := [];
    var cluster := start;
    while |chain| < maxClusters
      invariant |chain| <= maxClusters
      invariant chain + Chain(fat, v, cluster, maxClusters - |chain|) == Chain(fat, v, start, maxClusters)
    {
      if cluster < 2 { break; }
      var next := FatEntry(fat, v, cluster);
      Seqs.Assoc(chain, [cluster], Chain(fat, v, next, maxClusters - |chain| - 1));
      Seqs.Nil(chain + [cluster]);
      chain := chain + [cluster];
      if Stops(v, next) { break; }
      cluster := next;
    }
  }

  // ----- What a chain is, without saying how it is computed -----

  /** Each cluster after the first is the pointer stored at the one before it. */
  ghost predicate IsWalk(fat: seq<u8>, v: FatVariant, w: seq<u32>) {
    && |w| > 0 && w[0] >= 2
    && forall i | 0 < i < |w| :: w[i] == FatEntry(fat, v, w[i - 1]) && !Stops(v, w[i])
  }

  ghost predicate EndsAtTerminator(fat: seq<u8>, v: FatVariant, w: seq<u32>)
    requires |w| > 0
  {
    Stops(v, FatEntry(fat, v, w[|w| - 1]))
  }

  /** A walk from `start` that only a terminator or the cap ends. */
  ghost predicate IsMaximalWalk(fat: seq<u8>, v: FatVariant, start: u32, cap: nat, w: seq<u32>) {
    IsWalk(fat, v, w) && w[0] == start && |w| <= cap && (|w| == cap || EndsAtTerminator(fat, v, w))
  }

  /** The chain is the one maximal walk from its start. */
  lemma ChainIsTheMaximalWalk(fat: seq<u8>, v: FatVariant, start: u32, cap: nat, w: seq<u32>)
    requires start >= 2 && cap > 0
    ensures w == Chain(fat, v, start, cap) <==> IsMaximalWalk(fat, v, start, cap, w)
  {
    ChainIsMaximal(fat, v, start, cap);
    if IsMaximalWalk(fat, v, start, cap, w) {
      var c := Chain(fat, v, start, cap);
      forall k: nat ensures k < |w| <==> k < |c| ensures k < |w| ==> w[k] == c[k] {
        MaximalWalksAgree(fat, v, start, cap, w, c, k);
      }
      MaximalWalksAgree(fat, v, start, cap, w, c, |w|);
      MaximalWalksAgree(fat, v, start, cap, w, c, |c|);
    }
  }

  lemma WalkCons(fat: seq<u8>, v: FatVariant, start: u32, w: seq<u32>)
    requires start >= 2 && IsWalk(fat, v, w) && w[0] == FatEntry(fat, v, start) && !Stops(v, w[0])
    ensures IsWalk(fat, v, [start] + w)
  {
    var c := [start] + w;
    forall i | 0 < i < |c| ensures c[i] == FatEntry(fat, v, c[i - 1]) && !Stops(v, c[i]) {
      assert c[i] == w[i - 1];
      assert i > 1 ==> c[i - 1] == w[i - 2];
    }
  }

  lemma {:induction false} ChainIsMaximal(fat: seq<u8>, v: FatVariant, start: u32, cap: nat)
    requires start >= 2 && cap > 0
    ensures IsMaximalWalk(fat, v, start, cap, Chain(fat, v, start, cap))
    decreases cap
  {
    var next := FatEntry(fat, v, start);
    if cap > 1 && !Stops(v, next) {
      ChainIsMaximal(fat, v, next, cap - 1);
      WalkCons(fat, v, start, Chain(fat, v, next, cap - 1));
    } else {
      assert Chain(fat, v, start, cap) == [start];
    }
  }

  lemma {:induction false} MaximalWalksAgree(
    fat: seq<u8>, v: FatVariant, start: u32, cap: nat, a: seq<u32>, b: seq<u32>, k: nat)
    requires IsMaximalWalk(fat, v, start, cap, a) && IsMaximalWalk(fat, v, start, cap, b)
    ensures k < |a| <==> k < |b|
    ensures k < |a| ==> a[k] == b[k]
  {
    if k > 0 {
      MaximalWalksAgree(fat, v, start, cap, a, b, k - 1);
      if k < |a| { assert a[k] == FatEntry(fat, v, a[k - 1]); }
      if k < |b| { assert b[k] == FatEntry(fat, v, b[k - 1]); }
    }
  }

  ghost predicate InRange(w: seq<u32>, count: nat) {
    forall c | c in w :: 2 <= c <= count + 1
  }

  ghost predicate Distinct(w: seq<u32>) {
    forall i, j | 0 <= i < j < |w| :: w[i] != w[j]
  }

  lemma WalkGoesOn(fat: seq<u8>, v: FatVariant, w: seq<u32>, i: nat)
    requires IsWalk(fat, v, w) && i + 1 < |w|
    ensures w[i + 1] == FatEntry(fat, v, w[i]) && !Stops(v, FatEntry(fat, v, w[i]))
  {
    var j := i + 1;
    assert w[j] == FatEntry(fat, v, w[j - 1]);
  }

  /** The successor is a function of the cluster, so equal positions stay equal. */
  lemma {:induction false} WalkRepeats(fat: seq<u8>, v: FatVariant, w: seq<u32>, i: nat, j: nat, k: nat)
    requires IsWalk(fat, v, w) && i < j && j + k < |w| && w[i] == w[j]
    ensures w[i + k] == w[j + k]
  {
    if k > 0 {
      WalkRepeats(fat, v, w, i, j, k - 1);
      assert w[i + k] == FatEntry(fat, v, w[i + k - 1]);
      assert w[j + k] == FatEntry(fat, v, w[j + k - 1]);
    }
  }

  /** The cap of count + 2 never cuts a good chain: a walk inside the volume that
      reaches a terminator has no repeated cluster and is returned whole. */
  lemma TerminatedWalkIsReturnedWhole(fat: seq<u8>, v: FatVariant, w: seq<u32>, count: nat)
    requires IsWalk(fat, v, w) && EndsAtTerminator(fat, v, w) && InRange(w, count)
    ensures Distinct(w) && |w| <= count
    ensures Chain(fat, v, w[0], count + 2) == w
  {
    hide Chain;
    forall i, j | 0 <= i < j < |w| ensures w[i] != w[j] {
      if w[i] == w[j] {
        var k := |w| - 1 - j;
        WalkRepeats(fat, v, w, i, j, k);
        WalkGoesOn(fat, v, w, i + k);
        assert false;
      }
    }
    if |w| > count { Pigeonhole(w, 2, count + 2); }
    ChainIsTheMaximalWalk(fat, v, w[0], count + 2, w);
  }

  lemma {:induction false} ChainPrefix(fat: seq<u8>, v: FatVariant, start: u32, a: nat, b: nat)
    requires a <= b && start >= 2
    ensures Chain(fat, v, start, a) <= Chain(fat, v, start, b)
    ensures |Chain(fat, v, start, a)| == Min(a, |Chain(fat, v, start, b)|)
    decreases a
  {
    var next := FatEntry(fat, v, start);
    if a > 0 && !Stops(v, next) {
      ChainPrefix(fat, v, next, a - 1, b - 1);
    }
  }

  /** Following on from position `a` of a chain gives the rest of it. */
  lemma {:induction false} ChainSplit(fat: seq<u8>, v: FatVariant, start: u32, a: nat, more: nat)
    requires |Chain(fat, v, start, a + 1)| == a + 1 && more > a
    ensures |Chain(fat, v, start, more)| == a + |Chain(fat, v, Chain(fat, v, start, a + 1)[a], more - a)|
    decreases a
  {
    hide FatEntry, Stops;
    if a > 0 {
      ChainSplit(fat, v, FatEntry(fat, v, start), a - 1, more - 1);
    }
  }

  /** A walk that comes back to its start after `d` steps fills any cap. */
  lemma {:induction false} LoopNeverEnds(fat: seq<u8>, v: FatVariant, p: u32, d: nat, more: nat)
    requires d > 0 && |Chain(fat, v, p, d + 1)| == d + 1 && Chain(fat, v, p, d + 1)[d] == p
    ensures |Chain(fat, v, p, more)| == more
    decreases more
  {
    if more <= d + 1 {
      ChainPrefix(fat, v, p, more, d + 1);
    } else {
      LoopNeverEnds(fat, v, p, d, more - d);
      ChainSplit(fat, v, p, d, more);
    }
  }

  /** The part of a chain from position i is the chain of that cluster. */
  lemma {:induction false} ChainDrop(fat: seq<u8>, v: FatVariant, start: u32, cap: nat, i: nat)
    requires i < |Chain(fat, v, start, cap)|
    ensures Chain(fat, v, start, cap)[i..] == Chain(fat, v, Chain(fat, v, start, cap)[i], cap - i)
    decreases i
  {
    if i > 0 {
      var next := FatEntry(fat, v, start);
      ChainDrop(fat, v, next, cap - 1, i - 1);
      assert Chain(fat, v, start, cap)[i..] == Chain(fat, v, next, cap - 1)[i - 1..];
    }
  }

  /** A repeated cluster is a loop from that cluster back to itself. */
  lemma RepeatIsLoop(fat: seq<u8>, v: FatVariant, start: u32, cap: nat, i: nat, j: nat)
    requires i < j < |Chain(fat, v, start, cap)|
    requires Chain(fat, v, start, cap)[i] == Chain(fat, v, start, cap)[j]
    ensures var p := Chain(fat, v, start, cap)[i];
            var loop := Chain(fat, v, p, j - i + 1);
            |loop| == j - i + 1 && loop[j - i] == p
  {
    var c := Chain(fat, v, start, cap);
    ChainDrop(fat, v, start, cap, i);
    assert c[i..][j - i] == c[i];
    ChainPrefix(fat, v, c[i], j - i + 1, cap - i);
  }

  lemma ChainStarts(fat: seq<u8>, v: FatVariant, start: u32, cap: nat)
    requires Chain(fat, v, start, cap) != []
    ensures start >= 2 && Chain(fat, v, start, cap)[0] == start
  {}

  /** A chain that repeats a cluster never ends, whatever the cap. */
  lemma RepeatNeverEnds(fat: seq<u8>, v: FatVariant, start: u32, cap: nat, i: nat, j: nat, more: nat)
    requires i < j < |Chain(fat, v, start, cap)|
    requires Chain(fat, v, start, cap)[i] == Chain(fat, v, start, cap)[j]
    ensures |Chain(fat, v, start, more)| == more
  {
    hide Chain, FatEntry;
    var c := Chain(fat, v, start, cap);
    ChainStarts(fat, v, start, cap);
    if more > i {
      RepeatIsLoop(fat, v, start, cap, i, j);
      LoopNeverEnds(fat, v, c[i], j - i, more - i);
      ChainPrefix(fat, v, start, i + 1, cap);
      ChainSplit(fat, v, start, i, more);
    } else {
      ChainPrefix(fat, v, start, more, cap);
    }
  }

  /** Conversely, more than `count` clusters that all lie in the volume prove a cycle:
      a cluster repeats, and the walk would fill any cap. */
  lemma FullCapProvesCycle(fat: seq<u8>, v: FatVariant, start: u32, count: nat, cap: nat)
    requires InRange(Chain(fat, v, start, cap), count) && |Chain(fat, v, start, cap)| > count
    ensures !Distinct(Chain(fat, v, start, cap))
    ensures forall more: nat :: |Chain(fat, v, start, more)| == more
  {
    var c := Chain(fat, v, start, cap);
    Pigeonhole(c, 2, count + 2);
    var i, j :| 0 <= i < j < |c| && c[i] == c[j];
    forall more: nat ensures |Chain(fat, v, start, more)| == more {
      RepeatNeverEnds(fat, v, start, cap, i, j, more);
    }
  }

  // ----- Clusters whose entry lies outside the table -----

  /** The walk stops after, not at, a cluster with no entry in the table: such a
      cluster is returned, but only as the last one. */
  lemma OutOfTableOnlyLast(fat: seq<u8>, v: FatVariant, start: u32, cap: nat, i: nat)
    requires i + 1 < |Chain(fat, v, start, cap)|
    ensures InTable(fat, v, Chain(fat, v, start, cap)[i])
  {
    ChainIsTheMaximalWalk(fat, v, start, cap, Chain(fat, v, start, cap));
    var c := Chain(fat, v, start, cap);
    assert c[i + 1] == FatEntry(fat, v, c[i]) && !Stops(v, c[i + 1]);
  }

  /** The doc comment promises a stop at an out-of-range next cluster; this table shows
      one that is returned. */
  lemma OutOfTableIsReturned()
    ensures var fat := [0, 0, 0, 0, 0x0F, 0x27];
            !InTable(fat, Fat16, 9999) && Chain(fat, Fat16, 2, 5) == [2, 9999]
  {
    var fat: seq<u8> := [0, 0, 0, 0, 0x0F, 0x27];
    assert FatEntry(fat, Fat16, 2) == 9999;
    assert FatEntry(fat, Fat16, 9999) == 0;
    assert Chain(fat, Fat16, 9999, 4) == [9999];
  }

  /** Every pointer stored in the table is a terminator or leads to another entry of it. */
  ghost predicate Closed(fat: seq<u8>, v: FatVariant) {
    forall c: u32 | c >= 2 && InTable(fat, v, c) ::
      Stops(v, FatEntry(fat, v, c)) || InTable(fat, v, FatEntry(fat, v, c))
  }

  /** Exactly the closed tables keep the promise: chains from inside stay inside. */
  lemma ChainsStayInTableIffClosed(fat: seq<u8>, v: FatVariant)
    ensures Closed(fat, v) <==>
            forall start: u32, cap: nat, c: u32
              | start >= 2 && InTable(fat, v, start) && c in Chain(fat, v, start, cap) :: InTable(fat, v, c)
  {
    if Closed(fat, v) {
      forall start: u32, cap: nat, c: u32 | start >= 2 && InTable(fat, v, start) && c in Chain(fat, v, start, cap)
        ensures InTable(fat, v, c)
      {
        ClosedStays(fat, v, start, cap, c);
      }
    } else {
      var c: u32 :| c >= 2 && InTable(fat, v, c) &&
        !(Stops(v, FatEntry(fat, v, c)) || InTable(fat, v, FatEntry(fat, v, c)));
      var next := FatEntry(fat, v, c);
      assert Chain(fat, v, next, 1) == [next];
      assert next in Chain(fat, v, c, 2);
    }
  }

  lemma {:induction false} ClosedStays(fat: seq<u8>, v: FatVariant, start: u32, cap: nat, c: u32)
    requires Closed(fat, v) && start >= 2 && InTable(fat, v, start) && c in Chain(fat, v, start, cap)
    ensures InTable(fat, v, c)
    decreases cap
  {
    if c != start {
      ClosedStays(fat, v, FatEntry(fat, v, start), cap - 1, c);
    }
  }

  // ----- Two tables -----

  /** Tables that agree on the entries of one chain give the same chain. */
  lemma {:induction false} ChainFrame(a: seq<u8>, b: seq<u8>, v: FatVariant, start: u32, cap: nat)
    requires forall c | c in Chain(a, v, start, cap) :: FatEntry(a, v, c) == FatEntry(b, v, c)
    ensures Chain(a, v, start, cap) == Chain(b, v, start, cap)
    decreases cap
  {
    if cap > 0 && start >= 2 {
      assert start in Chain(a, v, start, cap);
      var next := FatEntry(a, v, start);
      if !Stops(v, next) {
        assert forall c | c in Chain(a, v, next, cap - 1) :: c in Chain(a, v, start, cap);
        ChainFrame(a, b, v, next, cap - 1);
      }
    }
  }

  /** The two tables lead on from `c` to the same cluster, or both end there. */
  predicate SameLink(a: seq<u8>, b: seq<u8>, v: FatVariant, c: u32) {
    FatEntry(a, v, c) == FatEntry(b, v, c) || (Stops(v, FatEntry(a, v, c)) && Stops(v, FatEntry(b, v, c)))
  }

  ghost predicate SameLinks(a: seq<u8>, b: seq<u8>, v: FatVariant) {
    forall c: u32 | c >= 2 :: SameLink(a, b, v, c)
  }

  ghost predicate SameChains(a: seq<u8>, b: seq<u8>, v: FatVariant) {
    forall start: u32, cap: nat :: Chain(a, v, start, cap) == Chain(b, v, start, cap)
  }

  /** Two tables give the same chains exactly when they have the same link at every cluster. */
  lemma SameChainsIff(a: seq<u8>, b: seq<u8>, v: FatVariant)
    ensures SameChains(a, b, v) <==> SameLinks(a, b, v)
  {
    if SameLinks(a, b, v) {
      forall start: u32, cap: nat ensures Chain(a, v, start, cap) == Chain(b, v, start, cap) {
        SameLinksSameChain(a, b, v, start, cap);
      }
    } else {
      var c: u32 :| c >= 2 && !SameLink(a, b, v, c);
      ChainOfTwo(a, v, c);
      ChainOfTwo(b, v, c);
      assert Chain(a, v, c, 2) != Chain(b, v, c, 2);
    }
  }

  lemma ChainOfTwo(fat: seq<u8>, v: FatVariant, c: u32)
    requires c >= 2
    ensures Chain(fat, v, c, 2) == if Stops(v, FatEntry(fat, v, c)) then [c] else [c, FatEntry(fat, v, c)]
  {
    var next := FatEntry(fat, v, c);
    if !Stops(v, next) {
      assert Chain(fat, v, next, 1) == [next];
    }
  }

  lemma {:induction false} SameLinksSameChain(a: seq<u8>, b: seq<u8>, v: FatVariant, start: u32, cap: nat)
    requires SameLinks(a, b, v)
    ensures Chain(a, v, start, cap) == Chain(b, v, start, cap)
    decreases cap
  {
    if cap > 0 && start >= 2 {
      assert SameLink(a, b, v, start);
      if !Stops(v, FatEntry(a, v, start)) { SameLinksSameChain(a, b, v, FatEntry(a, v, start), cap - 1); }
    }
  }

  /** Equal but for the reserved top nibbles of 32-bit entries. */
  predicate DifferInTopNibbles(a: seq<u8>, b: seq<u8>) {
    |a| == |b| && forall i | 0 <= i < |a| :: a[i] == b[i] || (i % 4 == 3 && a[i] % 16 == b[i] % 16)
  }

  lemma PrefixInTopNibbles(a: seq<u8>, b: seq<u8>, n: nat)
    requires DifferInTopNibbles(a, b) && n <= |a|
    ensures DifferInTopNibbles(a[..n], b[..n])
  {}

  lemma TopNibblesKeepChains(a: seq<u8>, b: seq<u8>, v: FatVariant)
    requires DifferInTopNibbles(a, b) && (v == Fat32 || v == ExFat)
    ensures SameChains(a, b, v)
  {
    forall c: u32 | c >= 2 ensures SameLink(a, b, v, c) {
      TopNibbleIsIgnored(a, b, v, c);
    }
    SameChainsIff(a, b, v);
  }

  /** Those nibbles never reach a decoded entry. */
  lemma TopNibbleIsIgnored(a: seq<u8>, b: seq<u8>, v: FatVariant, c: u32)
    requires DifferInTopNibbles(a, b) && (v == Fat32 || v == ExFat)
    ensures FatEntry(a, v, c) == FatEntry(b, v, c)
  {
    var i := 4 * c;
    if i + 4 <= |a| {
      assert a[i] == b[i] && a[i + 1] == b[i + 1] && a[i + 2] == b[i + 2] && a[i + 3] % 16 == b[i + 3] % 16;
      Low28(LeU16(a, i) as int + a[i + 2] as int * 0x1_0000, a[i + 3]);
      Low28(LeU16(b, i) as int + b[i + 2] as int * 0x1_0000, b[i + 3]);
    }
  }

  lemma Low28(low: nat, top: u8)
    requires low < 0x100_0000
    ensures (low + top * 0x100_0000) % 0x1000_0000 == low + top % 16 * 0x100_0000
  {}

  // ----- Tables of whole 16-bit and 32-bit entries -----

  function Pack16(es: seq<u16>): (fat: seq<u8>)
    ensures |fat| == 2 * |es|
  {
    if es == [] then [] else ToLe16(es[0]) + Pack16(es[1..])
  }

  function Pack32(es: seq<u32>): (fat: seq<u8>)
    ensures |fat| == 4 * |es|
  {
    if es == [] then [] else ToLe32(es[0]) + Pack32(es[1..])
  }

  lemma {:induction false} Packed16(es: seq<u16>, i: nat)
    ensures LeU16(Pack16(es), 2 * i) == if i < |es| then es[i] else 0
  {
    if es != [] && i > 0 {
      Packed16(es[1..], i - 1);
      var p, q := Pack16(es), Pack16(es[1..]);
      assert p[2..] == q;
      assert LeU16(p, 2 * i) == LeU16(q, 2 * (i - 1));
    }
  }

  lemma {:induction false} Packed32(es: seq<u32>, i: nat)
    ensures LeU32(Pack32(es), 4 * i) == if i < |es| then es[i] else 0
  {
    if es != [] {
      var p, q := Pack32(es), Pack32(es[1..]);
      if i > 0 {
        Packed32(es[1..], i - 1);
        assert p[4..] == q;
        assert LeU32(p, 4 * i) == LeU32(q, 4 * (i - 1));
      } else {
        LeInside([], ToLe32(es[0]), q);
        assert [] + ToLe32(es[0]) + q == p;
      }
    }
  }

  /** Every 16-bit entry decodes to itself, every 32-bit entry to its low 28 bits, and whatever
      lies past the end of the table to 0. */
  lemma WideRoundTrip(narrow: seq<u16>, wide: seq<u32>, v: FatVariant, i: u32)
    requires v == Fat32 || v == ExFat
    ensures FatEntry(Pack16(narrow), Fat16, i) == if i < |narrow| then narrow[i] else 0
    ensures FatEntry(Pack32(wide), v, i) == if i < |wide| then wide[i] % 0x1000_0000 else 0
  {
    hide LeU16, LeU32, Pack16, Pack32;
    Packed16(narrow, i);
    Packed32(wide, i);
    assert 2 * i == i * 2 && 4 * i == i * 4;
  }

  // ----- FAT12 packing: two 12-bit entries in three bytes -----

  function PackFat12(es: seq<u12>): (fat: seq<u8>)
    ensures |fat| == (|es| * 3 + 1) / 2
  {
    if |es| == 0 then []
    else if |es| == 1 then [es[0] % 256, es[0] / 256]
    else [es[0] % 256, es[0] / 256 + 16 * (es[1] % 16), es[1] / 16] + PackFat12(es[2..])
  }

  /** Where the nibbles of the two entries sharing three bytes lie. */
  lemma Fat12Entry(fat: seq<u8>, h: nat)
    requires 2 * h + 1 < 0x1_0000_0000
    ensures FatEntry(fat, Fat12, 2 * h) == LowEntry(fat, h)
    ensures FatEntry(fat, Fat12, 2 * h + 1) == HighEntry(fat, h)
  {
    assert (2 * h) * 3 / 2 == 3 * h && (2 * h + 1) * 3 / 2 == 3 * h + 1;
  }

  function LowEntry(fat: seq<u8>, h: nat): int {
    if 3 * h + 2 <= |fat| then fat[3 * h] as int + 256 * (fat[3 * h + 1] as int % 16) else 0
  }

  function HighEntry(fat: seq<u8>, h: nat): int {
    if 3 * h + 3 <= |fat| then fat[3 * h + 1] as int / 16 + 16 * fat[3 * h + 2] as int else 0
  }

  lemma {:induction false} PackedPair(es: seq<u12>, h: nat)
    ensures LowEntry(PackFat12(es), h) == if 2 * h < |es| then es[2 * h] else 0
    ensures HighEntry(PackFat12(es), h) == if 2 * h + 1 < |es| then es[2 * h + 1] else 0
  {
    hide LowEntry, HighEntry;
    if |es| >= 2 && h >= 1 {
      PackedPair(es[2..], h - 1);
      ThreeBytesOn(PackFat12(es), PackFat12(es[2..]), h);
    } else if |es| >= 2 {
      FirstPair(es);
    } else {
      FewerThanTwo(es, h);
    }
  }

  lemma FirstPair(es: seq<u12>)
    requires |es| >= 2
    ensures LowEntry(PackFat12(es), 0) == es[0] && HighEntry(PackFat12(es), 0) == es[1]
  {
    var p, middle := PackFat12(es), Middle(es[0], es[1]);
    assert p[0] == es[0] % 256 && p[1] == middle && p[2] == es[1] / 16;
    MiddleSplits(es[0], es[1]);
    assert LowEntry(p, 0) == es[0] % 256 + 256 * (middle % 16);
    assert HighEntry(p, 0) == middle / 16 + 16 * (es[1] / 16);
  }

  /** The byte two packed entries share. */
  function Middle(x: nat, y: nat): nat { x / 256 + 16 * (y % 16) }

  lemma MiddleSplits(x: nat, y: nat)
    requires x < 0x1000
    ensures x % 256 + 256 * (Middle(x, y) % 16) == x && Middle(x, y) / 16 + 16 * (y / 16) == y
  {
    Nibbles(y % 16, x / 256);
  }

  lemma FewerThanTwo(es: seq<u12>, h: nat)
    requires |es| < 2
    ensures LowEntry(PackFat12(es), h) == if h < |es| then es[0] else 0
    ensures HighEntry(PackFat12(es), h) == 0
  {
    if |es| == 1 && h == 0 {
      var p, top := PackFat12(es), es[0] / 256;
      assert p == [es[0] % 256, top] && top % 16 == top;
      assert LowEntry(p, 0) == es[0] % 256 + 256 * top;
    }
  }

  lemma ThreeBytesOn(p: seq<u8>, q: seq<u8>, h: nat)
    requires |p| >= 3 && p[3..] == q && h > 0
    ensures LowEntry(p, h) == LowEntry(q, h - 1) && HighEntry(p, h) == HighEntry(q, h - 1)
  {
    assert forall i | 0 <= i < |q| :: p[i + 3] == q[i];
  }

  /** Every packed entry decodes to itself, and whatever lies past the end to 0. */
  lemma Fat12RoundTrip(es: seq<u12>, i: u32)
    ensures FatEntry(PackFat12(es), Fat12, i) == if i < |es| then es[i] else 0
  {
    hide FatEntry, LowEntry, HighEntry, PackFat12;
    var h := i / 2;
    Fat12Entry(PackFat12(es), h);
    PackedPair(es, h);
    assert i == 2 * h || i == 2 * h + 1;
  }

  /** Store a 12-bit value in the entry of `c`, keeping the nibble of its neighbour. */
  function SetFat12(fat: seq<u8>, c: u32, e: u12): seq<u8>
    requires InTable(fat, Fat12, c)
  {
    var off := c * 3 / 2;
    if c % 2 == 0 then fat[off := e % 256][off + 1 := fat[off + 1] / 16 * 16 + e / 256]
    else fat[off := fat[off] % 16 + 16 * (e % 16)][off + 1 := e / 16]
  }

  lemma SetFat12Pair(fat: seq<u8>, c: u32, e: u12, h: nat)
    requires InTable(fat, Fat12, c)
    ensures LowEntry(SetFat12(fat, c, e), h) == if c == 2 * h then e else LowEntry(fat, h)
    ensures HighEntry(SetFat12(fat, c, e), h) == if c == 2 * h + 1 then e else HighEntry(fat, h)
  {
    var k := c / 2;
    if c % 2 == 0 {
      assert c * 3 / 2 == 3 * k;
      Nibbles(fat[3 * k + 1] / 16, e / 256);
    } else {
      assert c * 3 / 2 == 3 * k + 1;
      Nibbles(e % 16, fat[3 * k + 1] % 16);
    }
  }

  lemma Nibbles(high: nat, low: nat)
    requires low < 16
    ensures (high * 16 + low) / 16 == high && (high * 16 + low) % 16 == low
  {}

  /** Writing one entry changes that entry and no other. */
  lemma SetFat12Frame(fat: seq<u8>, c: u32, e: u12, j: u32)
    requires InTable(fat, Fat12, c)
    ensures FatEntry(SetFat12(fat, c, e), Fat12, j) == if j == c then e else FatEntry(fat, Fat12, j)
  {
    var h := j / 2;
    Fat12Entry(fat, h);
    Fat12Entry(SetFat12(fat, c, e), h);
    SetFat12Pair(fat, c, e, h);
    assert j == 2 * h || j == 2 * h + 1;
  }
}
