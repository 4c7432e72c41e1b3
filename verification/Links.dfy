/** FAT tables written entry by entry: clusters linked to a last entry that ends them, with the
    markers of each variant spelled out, are followed from the first to the last. */
module Links {
  import opened Bytes
  import opened Fat

  /** Entries a table of this variant can hold. */
  predicate AreEntries(v: FatVariant, es: seq<nat>) {
    forall i | 0 <= i < |es| :: es[i] < if v == Fat12 then 0x1000 else if v == Fat16 then 0x1_0000 else 0x1_0000_0000
  }

  /** A table with these entries: 12 bits each, two in three bytes; 16 bits; or 32 bits. */
  function Table(v: FatVariant, es: seq<nat>): seq<u8>
    requires AreEntries(v, es)
  {
    match v
    case Fat12 => PackFat12(es)
    case Fat16 => Pack16(es)
    case _ => Pack32(es)
  }

  /** The cluster an entry leads to: on FAT32 and exFAT its low 28 bits. */
  function LinkOf(v: FatVariant, e: nat): nat { if v == Fat12 || v == Fat16 then e else e % 0x1000_0000 }

  /** The bad-cluster marker; the values above it mark the end of a chain. */
  function BadMark(v: FatVariant): nat {
    match v
    case Fat12 => 0xFF7
    case Fat16 => 0xFFF7
    case _ => 0x0FFF_FFF7
  }

  /** Clusters linked in order: each from 2 up to below the markers, its entry the next one, the last
      entry a free or reserved value, the bad-cluster marker or an end marker. */
  predicate IsLinked(v: FatVariant, es: seq<nat>, w: seq<nat>) {
    && |w| > 0 && (forall i | 0 <= i < |w| :: 2 <= w[i] < BadMark(v) && w[i] < |es|)
    && (forall i | 0 < i < |w| :: LinkOf(v, es[w[i - 1]]) == w[i])
    && var last := LinkOf(v, es[w[|w| - 1]]);
    last < 2 || last >= BadMark(v)
  }

  lemma MarksEnd(v: FatVariant, e: u32)
    ensures Stops(v, e) <==> e < 2 || e >= BadMark(v)
  {}

  lemma EntryOfTable(v: FatVariant, es: seq<nat>, i: u32)
    requires AreEntries(v, es) && i < |es|
    ensures FatEntry(Table(v, es), v, i) == LinkOf(v, es[i]) && InTable(Table(v, es), v, i)
  {
    match v
    case Fat12 =>
      Fat12RoundTrip(es, i);
      Fat12Inside(|es|, i);
    case Fat16 => WideRoundTrip(es, [], Fat32, i);
    case _ => WideRoundTrip([], es, v, i);
  }

  lemma Fat12Inside(n: nat, i: nat)
    requires i < n
    ensures i * 3 / 2 + 2 <= (n * 3 + 1) / 2
  {}

  /** A table at the start of a longer one reads the same. */
  lemma EntryInPrefix(table: seq<u8>, fat: seq<u8>, v: FatVariant, i: u32)
    requires table <= fat && InTable(table, v, i)
    ensures FatEntry(fat, v, i) == FatEntry(table, v, i)
  {
    var off := EntryOffset(v, i);
    assert forall k | off <= k < off + EntryWidth(v) :: fat[k] == table[k];
    assert LeU16(fat, off) == LeU16(table, off);
    if EntryWidth(v) == 4 { assert LeU16(fat, off + 2) == LeU16(table, off + 2); }
  }

  lemma LinkedEntry(fat: seq<u8>, v: FatVariant, es: seq<nat>, w: seq<u32>, i: nat)
    requires AreEntries(v, es) && Table(v, es) <= fat && IsLinked(v, es, w) && i < |w|
    ensures FatEntry(fat, v, w[i]) == LinkOf(v, es[w[i]])
  {
    hide Table;
    EntryOfTable(v, es, w[i]);
    EntryInPrefix(Table(v, es), fat, v, w[i]);
  }

  /** Linked clusters are a walk to a terminator. */
  lemma LinkedIsWalk(fat: seq<u8>, v: FatVariant, es: seq<nat>, w: seq<u32>)
    requires AreEntries(v, es) && Table(v, es) <= fat && IsLinked(v, es, w)
    ensures IsWalk(fat, v, w) && EndsAtTerminator(fat, v, w)
  {
    hide Table, FatEntry, LinkOf, Stops;
    forall i | 0 < i < |w| ensures w[i] == FatEntry(fat, v, w[i - 1]) && !Stops(v, w[i]) {
      LinkedEntry(fat, v, es, w, i - 1);
      MarksEnd(v, w[i]);
    }
    LinkedEntry(fat, v, es, w, |w| - 1);
    MarksEnd(v, FatEntry(fat, v, w[|w| - 1]));
  }

  /** Following the first of some linked clusters gives them all, under any cap that fits them. */
  lemma LinkedClustersAreFollowed(fat: seq<u8>, v: FatVariant, es: seq<nat>, w: seq<u32>, cap: nat)
    requires AreEntries(v, es) && Table(v, es) <= fat && IsLinked(v, es, w) && |w| <= cap
    ensures Chain(fat, v, w[0], cap) == w
  {
    LinkedIsWalk(fat, v, es, w);
    ChainIsTheMaximalWalk(fat, v, w[0], cap, w);
  }
}
