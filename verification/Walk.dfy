/** The auditor's depth-capped, revisit-bounded directory walk, over any directory listing
    function; what it reports, and that it reports each reachable directory exactly once. */
module Walk {
  import opened Bytes
  import Seqs
  import opened Wrappers
  import opened Volume

  const MAX_DEPTH: nat := 64

  datatype Anomaly =
    | BootSignatureInvalid(found: u16)
    | BpbInvalid(detail: Error)
    | FatMirrorMismatch(fatOffset: nat, fat1: u8, fat2: u8, differingBytes: nat)
    | ExfatBootChecksumMismatch(computed: u32, stored: u32)
    | DeletedDirectoryEntry(name: string)

  /** How the walk reads a directory. */
  type Lister = FileId -> Result<seq<Node>>

  /** Two accumulators of the walk, `seen` and `out`, and a record of it: the first clusters in
      the order they were descended into, how often the walk called itself, and whether some
      call met the depth cap. */
  datatype State = State(seen: set<u32>, out: seq<Anomaly>, order: seq<u32>, calls: nat, capped: bool)

  predicate IsDot(n: Node) { n.name == "." || n.name == ".." }

  /** A node the walk reports. */
  predicate IsReported(n: Node) { !IsDot(n) && n.isDeleted }

  /** A node the walk may descend into. */
  predicate IsEdge(n: Node) { !IsDot(n) && !n.isDeleted && n.isDir && !n.isVolumeLabel }

  function Insert(st: State, c: u32): State { st.(seen := st.seen + {c}, order := st.order + [c]) }

  function Report(st: State, n: Node): State { st.(out := st.out + [DeletedDirectoryEntry(n.name)]) }

  function Visit(list: Lister, dir: FileId, depth: nat, st: State): State
    requires depth <= MAX_DEPTH
    decreases MAX_DEPTH - depth, 1, 0
  {
    var st := st.(calls := st.calls + 1);
    if depth >= MAX_DEPTH then st.(capped := true)
    else
      match list(dir)
      case Err(_) => st
      case Ok(nodes) => VisitNodes(list, nodes, depth, st)
  }

  lemma VisitOfListed(list: Lister, dir: FileId, depth: nat, st: State, nodes: seq<Node>)
    requires depth < MAX_DEPTH && list(dir) == Ok(nodes)
    ensures Visit(list, dir, depth, st) == VisitNodes(list, nodes, depth, st.(calls := st.calls + 1))
  {}

  lemma VisitOfUnlisted(list: Lister, dir: FileId, depth: nat, st: State)
    requires depth <= MAX_DEPTH
    ensures depth == MAX_DEPTH ==> Visit(list, dir, depth, st) == st.(calls := st.calls + 1, capped := true)
    ensures depth < MAX_DEPTH && list(dir).Err? ==> Visit(list, dir, depth, st) == st.(calls := st.calls + 1)
  {}

  function VisitNodes(list: Lister, nodes: seq<Node>, depth: nat, st: State): State
    requires depth < MAX_DEPTH
    decreases MAX_DEPTH - depth, 0, |nodes|
  {
    if nodes == [] then st
    else VisitNodes(list, nodes[1..], depth, VisitNode(list, nodes[0], depth, st))
  }

  function VisitNode(list: Lister, n: Node, depth: nat, st: State): State
    requires depth < MAX_DEPTH
    decreases MAX_DEPTH - depth, 0, 0
  {
    if IsReported(n) then Report(st, n)
    else if IsEdge(n) && n.firstCluster !in st.seen then
      Visit(list, n.id, depth + 1, Insert(st, n.firstCluster))
    else st
  }

  // ----- Every call is paid for by a first cluster -----

  /** Distinct clusters, none of them seen before. */
  ghost predicate AllNew(seen: set<u32>, added: seq<u32>) {
    && (forall i, j | 0 <= i < j < |added| :: added[i] != added[j])
    && (forall i | 0 <= i < |added| :: added[i] !in seen)
  }

  /** From `st` to `next` the walk only added: new clusters, each once, one call for each. */
  ghost predicate Grows(st: State, next: State, calls: nat) {
    && st.order <= next.order
    && var added := next.order[|st.order|..];
    && AllNew(st.seen, added)
    && next.seen == st.seen + Elements(added)
    && next.calls == st.calls + calls + |added|
    && (st.capped ==> next.capped)
  }

  lemma ElementsConcat(x: seq<u32>, y: seq<u32>)
    ensures Elements(x + y) == Elements(x) + Elements(y)
  {
    forall e | e in x ensures e in x + y { var i :| 0 <= i < |x| && x[i] == e; assert (x + y)[i] == e; }
    forall e | e in y ensures e in x + y { var i :| 0 <= i < |y| && y[i] == e; assert (x + y)[|x| + i] == e; }
  }

  /** Distinct new elements after distinct new elements are distinct new elements. */
  lemma NewConcat(seen: set<u32>, x: seq<u32>, y: seq<u32>)
    requires AllNew(seen, x) && AllNew(seen + Elements(x), y)
    ensures AllNew(seen, x + y)
  {
    forall i, j | 0 <= i < j < |x + y| ensures (x + y)[i] != (x + y)[j] {
      if i < |x| <= j { assert x[i] in Elements(x) && y[j - |x|] !in Elements(x); }
    }
    forall i | 0 <= i < |x + y| ensures (x + y)[i] !in seen {
      if i >= |x| { assert y[i - |x|] !in seen + Elements(x); }
    }
  }

  lemma GrowsTrans(a: State, b: State, c: State, m: nat, n: nat)
    requires Grows(a, b, m) && Grows(b, c, n)
    ensures Grows(a, c, m + n)
  {
    var x, y := b.order[|a.order|..], c.order[|b.order|..];
    assert c.order[|a.order|..] == x + y;
    NewConcat(a.seen, x, y);
    ElementsConcat(x, y);
  }

  lemma {:induction false} VisitGrows(list: Lister, dir: FileId, depth: nat, st: State)
    requires depth <= MAX_DEPTH
    ensures Grows(st, Visit(list, dir, depth, st), 1)
    decreases MAX_DEPTH - depth, 1, 0
  {
    var st1 := st.(calls := st.calls + 1);
    assert Grows(st, st1, 1) && Grows(st, st1.(capped := true), 1);
    if depth < MAX_DEPTH && list(dir).Ok? {
      NodesGrow(list, list(dir).value, depth, st1);
      GrowsTrans(st, st1, VisitNodes(list, list(dir).value, depth, st1), 1, 0);
    }
  }

  lemma {:induction false} NodesGrow(list: Lister, nodes: seq<Node>, depth: nat, st: State)
    requires depth < MAX_DEPTH
    ensures Grows(st, VisitNodes(list, nodes, depth, st), 0)
    decreases MAX_DEPTH - depth, 0, |nodes|
  {
    if nodes != [] {
      var next := VisitNode(list, nodes[0], depth, st);
      NodeGrows(list, nodes[0], depth, st);
      NodesGrow(list, nodes[1..], depth, next);
      GrowsTrans(st, next, VisitNodes(list, nodes[1..], depth, next), 0, 0);
    }
  }

  lemma {:induction false} NodeGrows(list: Lister, n: Node, depth: nat, st: State)
    requires depth < MAX_DEPTH
    ensures Grows(st, VisitNode(list, n, depth, st), 0)
    decreases MAX_DEPTH - depth, 0, 0
  {
    if !IsReported(n) && IsEdge(n) && n.firstCluster !in st.seen {
      var c := n.firstCluster;
      var inner := Visit(list, n.id, depth + 1, Insert(st, c));
      VisitGrows(list, n.id, depth + 1, Insert(st, c));
      assert Insert(st, c).order[|st.order|..] == [c] && Elements([c]) == {c};
      var paid := Insert(st, c).(calls := st.calls + 1);
      assert Grows(st, paid, 0);
      assert inner.order[|paid.order|..] == inner.order[|Insert(st, c).order|..];
      GrowsTrans(st, paid, inner.(calls := inner.calls), 0, 0);
    }
  }

  /** The walk ends on every listing, cyclic or not, having called itself once for the start and
      once for each first cluster it added, none of them twice. */
  lemma WalkIsBounded(list: Lister, dir: FileId, out: seq<Anomaly>)
    ensures var end := Visit(list, dir, 0, Start(out));
            && end.calls == 1 + |end.seen| == 1 + |end.order|
            && Elements(end.order) == end.seen
  {
    VisitGrows(list, dir, 0, Start(out));
    var end := Visit(list, dir, 0, Start(out));
    assert end.order[0..] == end.order;
    DistinctCard(end.order);
  }

  /** Nothing seen yet, these anomalies already reported. */
  function Start(out: seq<Anomaly>): State { State({}, out, [], 0, false) }

  // ----- Reachability -----

  /** A directory tree as the walk should see it: the nodes of the start, and the nodes of the
      directory that begins at each cluster. */
  datatype Tree = Tree(rootNodes: seq<Node>, kids: u32 -> seq<Node>)

  ghost predicate HasEdge(nodes: seq<Node>, c: u32) {
    exists k :: 0 <= k < |nodes| && IsEdge(nodes[k]) && nodes[k].firstCluster == c
  }

  /** Clusters of directories met one inside the other, from the start down. */
  ghost predicate IsPath(t: Tree, p: seq<u32>) {
    && |p| > 0 && HasEdge(t.rootNodes, p[0])
    && forall i | 0 < i < |p| :: HasEdge(t.kids(p[i - 1]), p[i])
  }

  ghost predicate Reachable(t: Tree, c: u32) { exists p :: IsPath(t, p) && p[|p| - 1] == c }

  /** Listing a directory by its handle gives the directory its first cluster begins. */
  ghost predicate Honest(list: Lister, t: Tree, nodes: seq<Node>) {
    forall k | 0 <= k < |nodes| && IsEdge(nodes[k]) :: list(nodes[k].id) == Ok(t.kids(nodes[k].firstCluster))
  }

  /** The start and every directory reachable from it are listed honestly. */
  ghost predicate Navigable(list: Lister, t: Tree) {
    Honest(list, t, t.rootNodes) && forall c: u32 | Reachable(t, c) :: Honest(list, t, t.kids(c))
  }

  /** Nodes the walk may be given: their directories are reachable and honestly listed. */
  ghost predicate Good(list: Lister, t: Tree, nodes: seq<Node>) {
    Honest(list, t, nodes) && forall c: u32 | HasEdge(nodes, c) :: Reachable(t, c)
  }

  lemma RootIsGood(list: Lister, t: Tree)
    requires Navigable(list, t)
    ensures Good(list, t, t.rootNodes)
  {
    forall c: u32 | HasEdge(t.rootNodes, c) ensures Reachable(t, c) {
      assert IsPath(t, [c]) && [c][|[c]| - 1] == c;
    }
  }

  lemma KidsAreGood(list: Lister, t: Tree, c: u32)
    requires Navigable(list, t) && Reachable(t, c)
    ensures Good(list, t, t.kids(c))
  {
    var p :| IsPath(t, p) && p[|p| - 1] == c;
    forall d: u32 | HasEdge(t.kids(c), d) ensures Reachable(t, d) {
      var q := p + [d];
      forall i | 0 < i < |q| ensures HasEdge(t.kids(q[i - 1]), q[i]) {
        if i < |p| { assert HasEdge(t.kids(p[i - 1]), p[i]); }
      }
      assert IsPath(t, q) && q[|q| - 1] == d;
    }
  }

  // ----- What is reported -----

  function OwnOf(n: Node): multiset<Anomaly> {
    if IsReported(n) then multiset{DeletedDirectoryEntry(n.name)} else multiset{}
  }

  /** The anomalies of one directory's own nodes. */
  function DeletedIn(nodes: seq<Node>): multiset<Anomaly> {
    if nodes == [] then multiset{}
    else OwnOf(nodes[0]) + DeletedIn(nodes[1..])
  }

  lemma {:induction false} DeletedNodeIsIn(nodes: seq<Node>, k: nat)
    requires k < |nodes| && IsReported(nodes[k])
    ensures DeletedDirectoryEntry(nodes[k].name) in DeletedIn(nodes)
  {
    if k > 0 { DeletedNodeIsIn(nodes[1..], k - 1); }
  }

  lemma {:induction false} DeletedIsUnder(t: Tree, order: seq<u32>, c: u32, a: Anomaly)
    requires c in order && a in DeletedIn(t.kids(c))
    ensures a in DeletedUnder(t, order)
  {
    if order[|order| - 1] != c { DeletedIsUnder(t, order[..|order| - 1], c, a); }
  }

  /** The anomalies of the directories at these clusters, each counted as often as it is listed. */
  function DeletedUnder(t: Tree, order: seq<u32>): multiset<Anomaly> {
    if order == [] then multiset{} else DeletedUnder(t, order[..|order| - 1]) + DeletedIn(t.kids(order[|order| - 1]))
  }

  lemma {:induction false} DeletedUnderConcat(t: Tree, a: seq<u32>, b: seq<u32>)
    ensures DeletedUnder(t, a + b) == DeletedUnder(t, a) + DeletedUnder(t, b)
  {
    if b == [] {
      Seqs.Nil(a);
    } else {
      DeletedUnderConcat(t, a, b[..|b| - 1]);
      Seqs.LastOfConcat(a, b);
    }
  }

  lemma DeletedUnderOne(t: Tree, c: u32)
    ensures DeletedUnder(t, [c]) == DeletedIn(t.kids(c))
  {
    assert [c][..0] == [];
  }

  /** All edges of these nodes lead into `seen`. */
  ghost predicate Into(nodes: seq<Node>, seen: set<u32>) {
    forall k | 0 <= k < |nodes| && IsEdge(nodes[k]) :: nodes[k].firstCluster in seen
  }

  /** What the walk owes for its `own` anomalies between `st` and `next`: it stayed inside the
      tree and reported no more than is there; unless it met the cap, it reported all of it and
      left no edge of an added directory unfollowed. */
  ghost predicate Covers(t: Tree, own: multiset<Anomaly>, st: State, next: State) {
    && st.order <= next.order && st.seen <= next.seen && (st.capped ==> next.capped)
    && var added := next.order[|st.order|..];
    && (forall i | 0 <= i < |added| :: Reachable(t, added[i]))
    && multiset(next.out) <= multiset(st.out) + own + DeletedUnder(t, added)
    && (!next.capped ==>
          && multiset(next.out) == multiset(st.out) + own + DeletedUnder(t, added)
          && forall i | 0 <= i < |added| :: Into(t.kids(added[i]), next.seen))
  }

  lemma SumsAdd(
    a: multiset<Anomaly>, b: multiset<Anomaly>, c: multiset<Anomaly>, own1: multiset<Anomaly>,
    own2: multiset<Anomaly>, x: multiset<Anomaly>, y: multiset<Anomaly>)
    ensures b <= a + own1 + x && c <= b + own2 + y ==> c <= a + (own1 + own2) + (x + y)
    ensures b == a + own1 + x && c == b + own2 + y ==> c == a + (own1 + own2) + (x + y)
  {}

  /** Counting a call changes nothing that is owed. */
  lemma CallCovers(t: Tree, own: multiset<Anomaly>, st: State, next: State)
    requires Covers(t, own, st.(calls := st.calls + 1), next)
    ensures Covers(t, own, st, next)
  {}

  /** A call at the cap owes nothing. */
  lemma CapCovers(t: Tree, own: multiset<Anomaly>, st: State)
    ensures Covers(t, own, st, st.(calls := st.calls + 1, capped := true))
  {
    assert DeletedUnder(t, []) == multiset{};
  }

  lemma ReportCovers(t: Tree, n: Node, st: State)
    ensures IsReported(n) ==> Covers(t, OwnOf(n), st, Report(st, n))
    ensures !IsReported(n) ==> Covers(t, OwnOf(n), st, st)
  {
    assert DeletedUnder(t, []) == multiset{};
  }

  lemma CoversTrans(t: Tree, own1: multiset<Anomaly>, own2: multiset<Anomaly>, a: State, b: State, c: State)
    requires Covers(t, own1, a, b) && Covers(t, own2, b, c)
    ensures Covers(t, own1 + own2, a, c)
  {
    hide DeletedUnder, Reachable;
    var x, y, z := b.order[|a.order|..], c.order[|b.order|..], c.order[|a.order|..];
    assert z == x + y;
    DeletedUnderConcat(t, x, y);
    SumsAdd(multiset(a.out), multiset(b.out), multiset(c.out), own1, own2, DeletedUnder(t, x), DeletedUnder(t, y));
    forall i | 0 <= i < |z| ensures Reachable(t, z[i]) && (!c.capped ==> Into(t.kids(z[i]), c.seen)) {
      if i < |x| { assert z[i] == x[i]; } else { assert z[i] == y[i - |x|]; }
    }
  }

  lemma {:induction false} VisitCovers(list: Lister, t: Tree, dir: FileId, depth: nat, st: State, nodes: seq<Node>)
    requires Navigable(list, t) && depth <= MAX_DEPTH && list(dir) == Ok(nodes) && Good(list, t, nodes)
    ensures var next := Visit(list, dir, depth, st);
            Covers(t, DeletedIn(nodes), st, next) && (!next.capped ==> Into(nodes, next.seen))
    decreases MAX_DEPTH - depth, 1, 0
  {
    hide Covers;
    if depth < MAX_DEPTH {
      VisitOfListed(list, dir, depth, st, nodes);
      NodesCover(list, t, nodes, depth, st.(calls := st.calls + 1));
      CallCovers(t, DeletedIn(nodes), st, Visit(list, dir, depth, st));
    } else {
      CapCovers(t, DeletedIn(nodes), st);
    }
  }

  lemma {:induction false} NodesCover(list: Lister, t: Tree, nodes: seq<Node>, depth: nat, st: State)
    requires Navigable(list, t) && depth < MAX_DEPTH && Good(list, t, nodes)
    ensures var next := VisitNodes(list, nodes, depth, st);
            Covers(t, DeletedIn(nodes), st, next) && (!next.capped ==> Into(nodes, next.seen))
    decreases MAX_DEPTH - depth, 0, |nodes|
  {
    hide Covers;
    if nodes == [] {
      CoversNothing(t, st);
    } else {
      var mid := VisitNode(list, nodes[0], depth, st);
      var next := VisitNodes(list, nodes[1..], depth, mid);
      GoodParts(list, t, nodes);
      NodeCovers(list, t, nodes[0], depth, st);
      NodesCover(list, t, nodes[1..], depth, mid);
      NodesCoverStep(t, nodes, st, mid, next);
    }
  }

  lemma CoversNothing(t: Tree, st: State)
    ensures Covers(t, DeletedIn([]), st, st)
  {
    assert DeletedUnder(t, []) == multiset{};
  }

  lemma NodesCoverStep(t: Tree, nodes: seq<Node>, st: State, mid: State, next: State)
    requires nodes != [] && Covers(t, OwnOf(nodes[0]), st, mid) && Covers(t, DeletedIn(nodes[1..]), mid, next)
    requires !mid.capped && IsEdge(nodes[0]) ==> nodes[0].firstCluster in mid.seen
    requires !next.capped ==> Into(nodes[1..], next.seen)
    ensures Covers(t, DeletedIn(nodes), st, next) && (!next.capped ==> Into(nodes, next.seen))
  {
    CoversTrans(t, OwnOf(nodes[0]), DeletedIn(nodes[1..]), st, mid, next);
    if !next.capped {
      forall k | 0 <= k < |nodes| && IsEdge(nodes[k]) ensures nodes[k].firstCluster in next.seen {
        if k > 0 { assert nodes[k] == nodes[1..][k - 1]; }
      }
    }
  }

  lemma GoodParts(list: Lister, t: Tree, nodes: seq<Node>)
    requires Good(list, t, nodes) && nodes != []
    ensures Good(list, t, nodes[1..])
    ensures IsEdge(nodes[0]) ==>
              Reachable(t, nodes[0].firstCluster) && list(nodes[0].id) == Ok(t.kids(nodes[0].firstCluster))
  {
    if IsEdge(nodes[0]) { assert HasEdge(nodes, nodes[0].firstCluster); }
    forall c: u32 | HasEdge(nodes[1..], c) ensures Reachable(t, c) {
      var k :| 0 <= k < |nodes[1..]| && IsEdge(nodes[1..][k]) && nodes[1..][k].firstCluster == c;
      assert nodes[k + 1] == nodes[1..][k];
    }
    forall k | 0 <= k < |nodes[1..]| && IsEdge(nodes[1..][k])
      ensures list(nodes[1..][k].id) == Ok(t.kids(nodes[1..][k].firstCluster))
    {
      assert nodes[k + 1] == nodes[1..][k];
    }
  }

  lemma {:induction false} NodeCovers(list: Lister, t: Tree, n: Node, depth: nat, st: State)
    requires Navigable(list, t) && depth < MAX_DEPTH
    requires IsEdge(n) ==> Reachable(t, n.firstCluster) && list(n.id) == Ok(t.kids(n.firstCluster))
    ensures var next := VisitNode(list, n, depth, st);
            Covers(t, OwnOf(n), st, next) && (!next.capped && IsEdge(n) ==> n.firstCluster in next.seen)
    decreases MAX_DEPTH - depth, 0, 0
  {
    hide Covers;
    ReportCovers(t, n, st);
    if IsEdge(n) && n.firstCluster !in st.seen {
      var c := n.firstCluster;
      KidsAreGood(list, t, c);
      VisitCovers(list, t, n.id, depth + 1, Insert(st, c), t.kids(c));
      DescentCovers(t, c, st, Visit(list, n.id, depth + 1, Insert(st, c)));
    }
  }

  /** Descending into a cluster turns its own anomalies into those of an added directory. */
  lemma DescentCovers(t: Tree, c: u32, st: State, next: State)
    requires Reachable(t, c) && Covers(t, DeletedIn(t.kids(c)), Insert(st, c), next)
    requires !next.capped ==> Into(t.kids(c), next.seen)
    ensures Covers(t, multiset{}, st, next) && c in next.seen
  {
    var added, tail := next.order[|st.order|..], next.order[|st.order| + 1..];
    assert added == [c] + tail;
    DeletedUnderConcat(t, [c], tail);
    DeletedUnderOne(t, c);
    forall i | 0 <= i < |added|
      ensures Reachable(t, added[i]) && (!next.capped ==> Into(t.kids(added[i]), next.seen))
    {
      if i > 0 { assert added[i] == tail[i - 1]; }
    }
  }

  // ----- Soundness and completeness -----

  lemma {:induction false} ReachesOnlySeen(t: Tree, seen: set<u32>, p: seq<u32>)
    requires Into(t.rootNodes, seen) && (forall c: u32 | c in seen :: Into(t.kids(c), seen)) && IsPath(t, p)
    ensures p[|p| - 1] in seen
  {
    if |p| > 1 {
      var q := p[..|p| - 1];
      forall i | 0 < i < |q| ensures HasEdge(t.kids(q[i - 1]), q[i]) {
        assert HasEdge(t.kids(p[i - 1]), p[i]);
      }
      ReachesOnlySeen(t, seen, q);
      var i := |p| - 1;
      assert HasEdge(t.kids(p[i - 1]), p[i]);
    }
  }

  /** Whatever the depth, the walk descends into reachable directories only, none of them twice, and
      reports nothing beyond the deleted nodes of the start and, once more each, of those. */
  lemma WalkIsSound(list: Lister, t: Tree, dir: FileId, out: seq<Anomaly>)
    requires Navigable(list, t) && list(dir) == Ok(t.rootNodes)
    ensures var end := Visit(list, dir, 0, Start(out));
            && (forall c | c in end.order :: Reachable(t, c))
            && (forall i, j | 0 <= i < j < |end.order| :: end.order[i] != end.order[j])
            && multiset(end.out) <= multiset(out) + DeletedIn(t.rootNodes) + DeletedUnder(t, end.order)
  {
    RootIsGood(list, t);
    VisitCovers(list, t, dir, 0, Start(out), t.rootNodes);
    VisitGrows(list, dir, 0, Start(out));
    var end := Visit(list, dir, 0, Start(out));
    assert end.order[0..] == end.order;
  }

  /** If no call met the depth cap, the walk descended into exactly the reachable directories,
      each once, and reported exactly the deleted nodes of the start and of those directories. */
  lemma WalkIsComplete(list: Lister, t: Tree, dir: FileId, out: seq<Anomaly>)
    requires Navigable(list, t) && list(dir) == Ok(t.rootNodes) && !Visit(list, dir, 0, Start(out)).capped
    ensures var end := Visit(list, dir, 0, Start(out));
            && (forall c: u32 :: c in end.order <==> Reachable(t, c))
            && (forall i, j | 0 <= i < j < |end.order| :: end.order[i] != end.order[j])
            && multiset(end.out) == multiset(out) + DeletedIn(t.rootNodes) + DeletedUnder(t, end.order)
  {
    RootIsGood(list, t);
    VisitCovers(list, t, dir, 0, Start(out), t.rootNodes);
    WalkIsBounded(list, dir, out);
    VisitGrows(list, dir, 0, Start(out));
    EverythingIsSeen(t, out, Visit(list, dir, 0, Start(out)));
  }

  lemma EverythingIsSeen(t: Tree, out: seq<Anomaly>, end: State)
    requires Covers(t, DeletedIn(t.rootNodes), Start(out), end) && Into(t.rootNodes, end.seen) && !end.capped
    requires Grows(Start(out), end, 1) && Elements(end.order) == end.seen
    ensures forall c: u32 :: c in end.order <==> Reachable(t, c)
    ensures forall i, j | 0 <= i < j < |end.order| :: end.order[i] != end.order[j]
    ensures multiset(end.out) == multiset(out) + DeletedIn(t.rootNodes) + DeletedUnder(t, end.order)
  {
    assert end.order[0..] == end.order;
    forall c: u32 | c in end.seen ensures Into(t.kids(c), end.seen) {
      assert c in end.order;
      var i :| 0 <= i < |end.order| && end.order[i] == c;
    }
    forall c: u32 | Reachable(t, c) ensures c in end.order {
      var p :| IsPath(t, p) && p[|p| - 1] == c;
      ReachesOnlySeen(t, end.seen, p);
    }
  }

  // ----- A start that is reached again -----

  function DeletedNode(name: string): Node {
    Node(Entry(0, 0), name, name, false, true, false, 0, 0, 0, false, None, None, None)
  }

  function DirNode(id: FileId, cluster: u32): Node {
    Node(id, "dir", "dir", true, false, false, 0, 0x10, cluster, false, None, None, None)
  }

  /** The start's own cluster is not among those seen: an entry leading back to it has it listed,
      and its deleted nodes reported, once more. */
  lemma RootReportedTwice(c: u32)
    ensures var nodes := [DeletedNode("gone"), DirNode(Entry(c, 1), c)];
            var list: Lister := id => Ok(nodes);
            var t, end := Tree(nodes, d => nodes), Visit(list, Root, 0, Start([]));
            && Navigable(list, t) && list(Root) == Ok(t.rootNodes) && !end.capped
            && end.out == [DeletedDirectoryEntry("gone"), DeletedDirectoryEntry("gone")]
  {
    var gone, dir := DeletedNode("gone"), DirNode(Entry(c, 1), c);
    var nodes := [gone, dir];
    var list: Lister := id => Ok(nodes);
    var first := Report(Start([]).(calls := 1), gone);
    TwoNodes(list, gone, dir, 0, Start([]).(calls := 1));
    var down := Insert(first, c);
    TwoNodes(list, gone, dir, 1, down.(calls := 2));
  }

  lemma OneNode(list: Lister, n: Node, depth: nat, st: State)
    requires depth < MAX_DEPTH
    ensures VisitNodes(list, [n], depth, st) == VisitNode(list, n, depth, st)
  {
    assert [n][1..] == [];
  }

  lemma TwoNodes(list: Lister, a: Node, b: Node, depth: nat, st: State)
    requires depth < MAX_DEPTH
    ensures VisitNodes(list, [a, b], depth, st) == VisitNode(list, b, depth, VisitNode(list, a, depth, st))
  {
    assert [a, b][1..] == [b];
    OneNode(list, b, depth, VisitNode(list, a, depth, st));
  }

  // ----- On any volume whatever -----

  /** Handles of directories met one inside the other as the walk lists them, from the start down. */
  ghost predicate IsHandlePath(list: Lister, start: FileId, p: seq<FileId>) {
    && |p| > 0 && p[0] == start
    && forall i | 0 < i < |p| :: LeadsTo(list, p[i - 1], p[i])
  }

  /** Listing `dir` shows a directory to descend into whose handle is `id`. */
  ghost predicate LeadsTo(list: Lister, dir: FileId, id: FileId) {
    list(dir).Ok? && exists k :: 0 <= k < |list(dir).value| && IsEdge(list(dir).value[k]) && list(dir).value[k].id == id
  }

  ghost predicate Reaches(list: Lister, start: FileId, id: FileId) {
    exists p :: IsHandlePath(list, start, p) && p[|p| - 1] == id
  }

  /** A deleted node listed in a directory the handles reach. */
  ghost predicate IsListedReport(list: Lister, start: FileId, a: Anomaly) {
    exists id, k :: Reaches(list, start, id) && list(id).Ok? && 0 <= k < |list(id).value|
      && IsReported(list(id).value[k]) && a == DeletedDirectoryEntry(list(id).value[k].name)
  }

  lemma ReachesOn(list: Lister, start: FileId, dir: FileId, id: FileId)
    requires Reaches(list, start, dir) && LeadsTo(list, dir, id)
    ensures Reaches(list, start, id)
  {
    var p :| IsHandlePath(list, start, p) && p[|p| - 1] == dir;
    var q := p + [id];
    forall i | 0 < i < |q| ensures LeadsTo(list, q[i - 1], q[i]) {
      if i < |p| { assert LeadsTo(list, p[i - 1], p[i]); }
    }
    assert IsHandlePath(list, start, q) && q[|q| - 1] == id;
  }

  /** Every new report is a listed deleted node. */
  ghost predicate OnlyListed(list: Lister, start: FileId, before: seq<Anomaly>, after: seq<Anomaly>) {
    before <= after && forall i | |before| <= i < |after| :: IsListedReport(list, start, after[i])
  }

  lemma {:induction false} VisitReportsListed(list: Lister, start: FileId, dir: FileId, depth: nat, st: State)
    requires depth <= MAX_DEPTH && Reaches(list, start, dir)
    ensures OnlyListed(list, start, st.out, Visit(list, dir, depth, st).out)
    decreases MAX_DEPTH - depth, 1, 0
  {
    if depth < MAX_DEPTH && list(dir).Ok? {
      hide OnlyListed;
      NodesReportListed(list, start, dir, 0, depth, st.(calls := st.calls + 1));
      assert list(dir).value[0..] == list(dir).value;
    }
  }

  lemma {:induction false} NodesReportListed(list: Lister, start: FileId, dir: FileId, k: nat, depth: nat, st: State)
    requires depth < MAX_DEPTH && Reaches(list, start, dir) && list(dir).Ok? && k <= |list(dir).value|
    ensures OnlyListed(list, start, st.out, VisitNodes(list, list(dir).value[k..], depth, st).out)
    decreases MAX_DEPTH - depth, 0, |list(dir).value| - k
  {
    hide IsListedReport;
    var nodes := list(dir).value;
    if k < |nodes| {
      var mid := VisitNode(list, nodes[k], depth, st);
      NodeReportsListed(list, start, dir, k, depth, st);
      NodesReportListed(list, start, dir, k + 1, depth, mid);
      assert nodes[k..][0] == nodes[k] && nodes[k..][1..] == nodes[k + 1..];
    }
  }

  lemma {:induction false} NodeReportsListed(list: Lister, start: FileId, dir: FileId, k: nat, depth: nat, st: State)
    requires depth < MAX_DEPTH && Reaches(list, start, dir) && list(dir).Ok? && k < |list(dir).value|
    ensures OnlyListed(list, start, st.out, VisitNode(list, list(dir).value[k], depth, st).out)
    decreases MAX_DEPTH - depth, 0, 0
  {
    hide Reaches;
    var n := list(dir).value[k];
    if IsReported(n) {
      assert IsListedReport(list, start, DeletedDirectoryEntry(n.name));
    } else if IsEdge(n) && n.firstCluster !in st.seen {
      ReachesOn(list, start, dir, n.id);
      VisitReportsListed(list, start, n.id, depth + 1, Insert(st, n.firstCluster));
    }
  }

  /** Whatever the listings, the walk keeps what was reported before it and adds only deleted nodes
      listed in directories that handles reach from the start. */
  lemma WalkReportsOnlyListed(list: Lister, dir: FileId, out: seq<Anomaly>)
    ensures OnlyListed(list, dir, out, Visit(list, dir, 0, Start(out)).out)
  {
    ReachesItself(list, dir);
    VisitReportsListed(list, dir, dir, 0, Start(out));
  }

  lemma ReachesItself(list: Lister, dir: FileId)
    ensures Reaches(list, dir, dir)
  {
    assert IsHandlePath(list, dir, [dir]) && [dir][|[dir]| - 1] == dir;
  }

  lemma {:induction false} NodesListedAreReported(list: Lister, dir: FileId, from: nat, k: nat, depth: nat, st: State)
    requires depth < MAX_DEPTH && list(dir).Ok? && from <= k < |list(dir).value| && IsReported(list(dir).value[k])
    ensures DeletedDirectoryEntry(list(dir).value[k].name) in VisitNodes(list, list(dir).value[from..], depth, st).out
    decreases k - from
  {
    hide OnlyListed, IsReported;
    var nodes := list(dir).value;
    var mid := VisitNode(list, nodes[from], depth, st);
    assert nodes[from..][0] == nodes[from] && nodes[from..][1..] == nodes[from + 1..];
    if from < k {
      NodesListedAreReported(list, dir, from + 1, k, depth, mid);
    } else {
      ReachesItself(list, dir);
      NodesReportListed(list, dir, dir, k + 1, depth, mid);
      KeepsReport(list, dir, st.out, mid.out, VisitNodes(list, nodes[k + 1..], depth, mid).out, nodes[k].name);
    }
  }

  lemma KeepsReport(list: Lister, dir: FileId, out: seq<Anomaly>, mid: seq<Anomaly>, end: seq<Anomaly>, name: string)
    requires mid == out + [DeletedDirectoryEntry(name)] && OnlyListed(list, dir, mid, end)
    ensures DeletedDirectoryEntry(name) in end
  {
    assert end[|out|] == mid[|out|];
  }

  /** Every deleted node of the start is reported, whatever the rest of the volume. */
  lemma StartIsReported(list: Lister, dir: FileId, out: seq<Anomaly>, k: nat)
    requires list(dir).Ok? && k < |list(dir).value| && IsReported(list(dir).value[k])
    ensures DeletedDirectoryEntry(list(dir).value[k].name) in Visit(list, dir, 0, Start(out)).out
  {
    VisitOfListed(list, dir, 0, Start(out), list(dir).value);
    NodesListedAreReported(list, dir, 0, k, 0, Start(out).(calls := 1));
    assert list(dir).value[0..] == list(dir).value;
  }

  // ----- When the cap cannot matter -----

  /** A path that enters no directory twice. */
  ghost predicate IsSimplePath(t: Tree, p: seq<u32>) {
    IsPath(t, p) && forall i, j | 0 <= i < j < |p| :: p[i] != p[j]
  }

  /** The nodes of the directory a path leads to. */
  function Below(t: Tree, p: seq<u32>): seq<Node> { if p == [] then t.rootNodes else t.kids(p[|p| - 1]) }

  /** The walk stands at the end of a simple path as long as its depth, all of it seen. */
  ghost predicate StandsAt(t: Tree, p: seq<u32>, depth: nat, st: State) {
    |p| == depth && (p != [] ==> IsSimplePath(t, p)) && forall c | c in p :: c in st.seen
  }

  /** These are some of the nodes of the directory the path leads to. */
  ghost predicate AreBelow(t: Tree, p: seq<u32>, nodes: seq<Node>) {
    forall c: u32 | HasEdge(nodes, c) :: HasEdge(Below(t, p), c)
  }

  lemma StepsDown(t: Tree, p: seq<u32>, depth: nat, st: State, c: u32)
    requires StandsAt(t, p, depth, st) && HasEdge(Below(t, p), c) && c !in st.seen
    ensures StandsAt(t, p + [c], depth + 1, Insert(st, c))
  {
    var q := p + [c];
    forall i | 0 < i < |q| ensures HasEdge(t.kids(q[i - 1]), q[i]) {
      if i < |p| { assert HasEdge(t.kids(p[i - 1]), p[i]); }
    }
  }

  lemma TailIsBelow(t: Tree, p: seq<u32>, nodes: seq<Node>)
    requires AreBelow(t, p, nodes) && nodes != []
    ensures AreBelow(t, p, nodes[1..])
    ensures IsEdge(nodes[0]) ==> HasEdge(Below(t, p), nodes[0].firstCluster)
  {
    if IsEdge(nodes[0]) { assert HasEdge(nodes, nodes[0].firstCluster); }
    forall c: u32 | HasEdge(nodes[1..], c) ensures HasEdge(nodes, c) {
      var k :| 0 <= k < |nodes[1..]| && IsEdge(nodes[1..][k]) && nodes[1..][k].firstCluster == c;
      assert nodes[k + 1] == nodes[1..][k];
    }
  }

  lemma {:induction false} VisitCapped(
    list: Lister, t: Tree, p: seq<u32>, dir: FileId, depth: nat, st: State) returns (deep: seq<u32>)
    requires Navigable(list, t) && depth <= MAX_DEPTH && StandsAt(t, p, depth, st)
    requires list(dir) == Ok(Below(t, p)) && Good(list, t, Below(t, p))
    requires !st.capped && Visit(list, dir, depth, st).capped
    ensures IsSimplePath(t, deep) && |deep| == 64
    decreases MAX_DEPTH - depth, 1, 0
  {
    hide Navigable, Good, IsSimplePath;
    if depth == MAX_DEPTH {
      deep := p;
    } else {
      VisitOfListed(list, dir, depth, st, Below(t, p));
      deep := NodesCapped(list, t, p, Below(t, p), depth, st.(calls := st.calls + 1));
    }
  }

  lemma {:induction false} NodesCapped(
    list: Lister, t: Tree, p: seq<u32>, nodes: seq<Node>, depth: nat, st: State) returns (deep: seq<u32>)
    requires Navigable(list, t) && depth < MAX_DEPTH && StandsAt(t, p, depth, st)
    requires AreBelow(t, p, nodes) && Good(list, t, nodes)
    requires !st.capped && VisitNodes(list, nodes, depth, st).capped
    ensures IsSimplePath(t, deep) && |deep| == 64
    decreases MAX_DEPTH - depth, 0, |nodes|
  {
    hide Navigable, Good, IsSimplePath, AreBelow;
    var mid := VisitNode(list, nodes[0], depth, st);
    TailIsBelow(t, p, nodes);
    GoodParts(list, t, nodes);
    if mid.capped {
      deep := NodeCapped(list, t, p, nodes[0], depth, st);
    } else {
      NodeGrows(list, nodes[0], depth, st);
      deep := NodesCapped(list, t, p, nodes[1..], depth, mid);
    }
  }

  lemma {:induction false} NodeCapped(
    list: Lister, t: Tree, p: seq<u32>, n: Node, depth: nat, st: State) returns (deep: seq<u32>)
    requires Navigable(list, t) && depth < MAX_DEPTH && StandsAt(t, p, depth, st)
    requires IsEdge(n) ==> HasEdge(Below(t, p), n.firstCluster)
    requires IsEdge(n) ==> Reachable(t, n.firstCluster) && list(n.id) == Ok(t.kids(n.firstCluster))
    requires !st.capped && VisitNode(list, n, depth, st).capped
    ensures IsSimplePath(t, deep) && |deep| == 64
    decreases MAX_DEPTH - depth, 0, 0
  {
    hide Navigable, Good, IsSimplePath, StandsAt;
    var c := n.firstCluster;
    KidsAreGood(list, t, c);
    StepsDown(t, p, depth, st, c);
    assert Below(t, p + [c]) == t.kids(c);
    deep := VisitCapped(list, t, p + [c], n.id, depth + 1, Insert(st, c));
  }

  /** A walk that met the cap followed a path of 64 directories, none of them twice. */
  lemma CapMeansDeepPath(list: Lister, t: Tree, dir: FileId, out: seq<Anomaly>) returns (deep: seq<u32>)
    requires Navigable(list, t) && list(dir) == Ok(t.rootNodes) && Visit(list, dir, 0, Start(out)).capped
    ensures IsSimplePath(t, deep) && |deep| == 64
  {
    RootIsGood(list, t);
    deep := VisitCapped(list, t, [], dir, 0, Start(out));
  }

  /** No path of 64 directories without a repeat: the depth cap cannot be met. */
  ghost predicate IsShallow(t: Tree) { forall p: seq<u32> | IsSimplePath(t, p) :: |p| < 64 }

  /** However many directories a tree has and however they are linked into cycles, the cap is not
      met when no path enters 64 of them. */
  lemma ShallowTreesAreNeverCapped(list: Lister, t: Tree, dir: FileId, out: seq<Anomaly>)
    requires Navigable(list, t) && list(dir) == Ok(t.rootNodes) && IsShallow(t)
    ensures !Visit(list, dir, 0, Start(out)).capped
  {
    if Visit(list, dir, 0, Start(out)).capped {
      var deep := CapMeansDeepPath(list, t, dir, out);
    }
  }

  /** A tree of fewer than 64 distinct directories is shallow, however they are nested or linked. */
  lemma SmallTreesAreShallow(t: Tree, all: set<u32>)
    requires (forall c: u32 | Reachable(t, c) :: c in all) && |all| < 64
    ensures IsShallow(t)
  {
    forall p: seq<u32> | IsSimplePath(t, p) ensures |p| < 64 {
      forall c | c in p ensures c in all {
        var i :| 0 <= i < |p| && p[i] == c;
        PrefixIsPath(t, p, i);
      }
      DistinctCard(p);
      SubsetCard(Elements(p), all);
    }
  }

  lemma PrefixIsPath(t: Tree, p: seq<u32>, i: nat)
    requires IsPath(t, p) && i < |p|
    ensures Reachable(t, p[i])
  {
    var q := p[..i + 1];
    forall j | 0 < j < |q| ensures HasEdge(t.kids(q[j - 1]), q[j]) {
      assert HasEdge(t.kids(p[j - 1]), p[j]);
    }
    assert IsPath(t, q) && q[|q| - 1] == p[i];
  }

  /** A directory first met at the cap is marked seen without being listed: it reports nothing then,
      and an entry leading to it at any smaller depth is skipped afterwards. */
  lemma MetAtCapIsSkipped(list: Lister, n: Node, again: Node, depth: nat, st: State)
    requires IsEdge(n) && n.firstCluster !in st.seen && depth < MAX_DEPTH
    requires IsEdge(again) && again.firstCluster == n.firstCluster
    ensures var met := VisitNode(list, n, MAX_DEPTH - 1, st);
            met.capped && met.out == st.out && VisitNode(list, again, depth, met) == met
  {
    VisitOfUnlisted(list, n.id, MAX_DEPTH, Insert(st, n.firstCluster));
  }

  // ----- A directory next to the start that goes unreported -----

  /** Directories 1 to 64 nested one in the other, the last of them holding a deleted node, and the
      start listing the first and then the last. */
  function NestedNodes(c: nat): seq<Node> {
    if c < MAX_DEPTH then [DirNode(Entry(0, c + 1), c + 1)] else [DeletedNode("gone")]
  }

  function Nested(): Lister {
    (id: FileId) =>
      match id
      case Root => Ok([DirNode(Entry(0, 1), 1), DirNode(Entry(0, 64), 64)])
      case Entry(_, c) => Ok(NestedNodes(c))
  }

  lemma {:induction false} NestedDescends(c: nat, st: State)
    requires 1 <= c <= MAX_DEPTH && c in st.seen && forall d | d in st.seen :: d <= c
    ensures var end := Visit(Nested(), Entry(0, c), c, st); end.out == st.out && end.capped && 64 in end.seen
    decreases MAX_DEPTH - c
  {
    if c < MAX_DEPTH {
      var next := DirNode(Entry(0, c + 1), c + 1);
      VisitOfListed(Nested(), Entry(0, c), c, st, [next]);
      OneNode(Nested(), next, c, st.(calls := st.calls + 1));
      NestedDescends(c + 1, Insert(st.(calls := st.calls + 1), c + 1));
    }
  }

  /** The walk meets the last directory at the cap first, marks it seen, and then skips the start's
      own entry for it: its deleted node is never reported. */
  lemma NextToStartUnreported()
    ensures var list := Nested();
            && LeadsTo(list, Root, Entry(0, 64)) && list(Entry(0, 64)) == Ok([DeletedNode("gone")])
            && IsReported(DeletedNode("gone")) && Visit(list, Root, 0, Start([])).out == []
  {
    var list, a, b := Nested(), DirNode(Entry(0, 1), 1), DirNode(Entry(0, 64), 64);
    var st := Start([]).(calls := 1);
    VisitOfListed(list, Root, 0, Start([]), [a, b]);
    TwoNodes(list, a, b, 0, st);
    NestedDescends(1, Insert(st, 1));
    assert list(Root).value[1] == b;
  }
}
