/** exFAT directories: entry sets written slot by slot parse back, wherever they stand. */
module ExfatProofs {
  import opened Bytes
  import Seqs
  import opened Wrappers
  import opened Slots
  import opened Exfat
  import Text
  import Time

  // ----- File entry sets -----

  /** One file entry set: the fields the reader decodes, and the bytes it does not look at. */
  datatype FileSet = FileSet(
    deleted: bool, attributes: u16, created: Stamp, modified: Stamp, accessed: Stamp, flags: u8,
    firstCluster: u32, size: u64, units: seq<u16>, unread: Unread)

  /** A packed timestamp: date, time of day, and hundredths of a second (none for the last access). */
  datatype Stamp = Stamp(date: u16, time: u16, tenths: u8)

  /** Its 32-bit form: the time in the low half. */
  function StampBytes(s: Stamp): (r: seq<u8>)
    ensures |r| == 4
  {
    ToLe16(s.time) + ToLe16(s.date)
  }

  function StampOf(s: Stamp): Option<Time.FatTimestamp> { Time.Decode(s.date, s.time, s.tenths) }

  /** SetChecksum, reserved bytes, and UTC offsets of the File entry; NameHash, ValidDataLength and
      reserved bytes of the Stream Extension; whether the secondaries are marked unused; flags and
      padding of the File Name entries; and secondaries of other types behind them. */
  datatype Unread = Unread(
    checksum: seq<u8>, reserved: seq<u8>, offsets: seq<u8>, streamByte: u8, stream: seq<u8>,
    secondariesDeleted: bool, nameFlags: seq<u8>, padding: seq<u16>, vendor: seq<Slot>)

  /** A secondary that is neither a Stream Extension nor a File Name entry. */
  predicate IsOtherSecondary(s: Slot) { s[0] % 0x80 != 0x40 && s[0] % 0x80 != 0x41 }

  predicate IsUnread(x: Unread) {
    && |x.checksum| == |x.reserved| == 2 && |x.offsets| == 10 && |x.stream| == 16
    && forall k | 0 <= k < |x.vendor| :: IsOtherSecondary(x.vendor[k])
  }

  predicate IsFileSet(f: FileSet) {
    && |f.units| <= 255 && IsUnread(f.unread) && |f.units| + |f.unread.padding| == 15 * |f.unread.nameFlags|
    && 1 + |f.unread.nameFlags| + |f.unread.vendor| <= 255 && f.accessed.tenths == 0
  }

  /** The NoFatChain bit. */
  predicate IsContiguous(f: FileSet) { f.flags / 2 % 2 == 1 }

  function NameOf(f: FileSet): string { Text.FromUtf16Lossy(f.units) }

  /** The entry type with its in-use bit. */
  function TypeByte(base: u8, deleted: bool): u8
    requires base < 0x80
  {
    if deleted then base else base + 0x80
  }

  function FileSlot(f: FileSet, secondaryCount: u8): Slot
    requires IsUnread(f.unread)
  {
    [TypeByte(0x05, f.deleted), secondaryCount] + f.unread.checksum + ToLe16(f.attributes) + f.unread.reserved
    + StampBytes(f.created) + StampBytes(f.modified) + StampBytes(f.accessed)
    + [f.created.tenths, f.modified.tenths] + f.unread.offsets
  }

  function StreamSlot(f: FileSet): Slot
    requires IsFileSet(f)
  {
    [TypeByte(0x40, f.unread.secondariesDeleted), f.flags, f.unread.streamByte, |f.units|]
    + f.unread.stream + ToLe32(f.firstCluster) + ToLe64(f.size)
  }

  function LeUnits(units: seq<u16>): (r: seq<u8>)
    ensures |r| == 2 * |units|
  {
    if units == [] then [] else LeUnits(units[..|units| - 1]) + ToLe16(units[|units| - 1])
  }

  function NameSlot(deleted: bool, flags: u8, units: seq<u16>): Slot
    requires |units| == 15
  {
    [TypeByte(0x41, deleted), flags] + LeUnits(units)
  }

  /** File Name entries, 15 units and one flags byte each. */
  function NameSlots(deleted: bool, flags: seq<u8>, units: seq<u16>): (r: seq<Slot>)
    requires |units| == 15 * |flags|
    ensures |r| == |flags|
  {
    if flags == [] then []
    else
      NameSlots(deleted, flags[..|flags| - 1], units[..|units| - 15])
      + [NameSlot(deleted, flags[|flags| - 1], units[|units| - 15..])]
  }

  function SetSecondaries(f: FileSet): (r: seq<Slot>)
    requires IsFileSet(f)
    ensures |r| == 1 + |f.unread.nameFlags| + |f.unread.vendor| <= 255
  {
    [StreamSlot(f)] + NameSlots(f.unread.secondariesDeleted, f.unread.nameFlags, f.units + f.unread.padding)
    + f.unread.vendor
  }

  function EncodeSet(f: FileSet): (r: seq<Slot>)
    requires IsFileSet(f)
    ensures r != []
  {
    [FileSlot(f, |SetSecondaries(f)|)] + SetSecondaries(f)
  }

  function DecodedSet(f: FileSet, i: nat): ExfatDirEntry {
    ExfatDirEntry(
      NameOf(f), f.attributes, f.attributes / 16 % 2 == 1, f.deleted, f.firstCluster, f.size, IsContiguous(f),
      IndexOf(i), StampOf(f.created), StampOf(f.modified), StampOf(f.accessed))
  }

  // ----- Slots decode to their fields -----

  lemma FileSlotBytes(f: FileSet, n: u8)
    requires IsUnread(f.unread)
    ensures var s := FileSlot(f, n);
            && s[0] == TypeByte(0x05, f.deleted) && s[1] == n && s[20] == f.created.tenths && s[21] == f.modified.tenths
  {}

  lemma FileSlotFields(f: FileSet, n: u8)
    requires IsUnread(f.unread)
    ensures var s := FileSlot(f, n);
            && LeU16(s, 4) == f.attributes && LeU32(s, 8) == LeU32(StampBytes(f.created), 0)
            && LeU32(s, 12) == LeU32(StampBytes(f.modified), 0) && LeU32(s, 16) == LeU32(StampBytes(f.accessed), 0)
  {
    hide ToLe16, StampBytes, LeU16, LeU32;
    var s := FileSlot(f, n);
    LeSlice(s, 4, ToLe16(f.attributes));
    LeSlice(s, 8, StampBytes(f.created));
    LeSlice(s, 12, StampBytes(f.modified));
    LeSlice(s, 16, StampBytes(f.accessed));
  }

  lemma StampWord(s: Stamp)
    ensures LeU32(StampBytes(s), 0) == s.date * 0x1_0000 + s.time
  {
    var bytes := StampBytes(s);
    assert bytes[0] == s.time % 0x100 && bytes[1] == s.time / 0x100;
    assert bytes[2] == s.date % 0x100 && bytes[3] == s.date / 0x100;
  }

  lemma Halves(high: nat, low: nat)
    requires low < 0x1_0000
    ensures (high * 0x1_0000 + low) / 0x1_0000 == high && (high * 0x1_0000 + low) % 0x1_0000 == low
  {}

  lemma StampDecodes(s: Stamp)
    ensures TsDecode(LeU32(StampBytes(s), 0), s.tenths) == StampOf(s)
  {
    hide LeU32, StampBytes, Time.Decode;
    StampWord(s);
    Halves(s.date, s.time);
  }

  lemma LeSlice(s: seq<u8>, off: nat, field: seq<u8>)
    requires off + |field| <= |s| && s[off..off + |field|] == field
    ensures |field| == 2 ==> LeU16(s, off) == LeU16(field, 0)
    ensures |field| == 4 ==> LeU32(s, off) == LeU32(field, 0)
  {
    LeInside(s[..off], field, s[off + |field|..]);
    assert s[..off] + field + s[off + |field|..] == s;
  }

  lemma FileSlotDecodes(f: FileSet, n: u8)
    requires IsUnread(f.unread)
    ensures var s := FileSlot(f, n);
            && s[0] == TypeByte(0x05, f.deleted) && IsFile(s) && !IsEnd(s) && s[1] == n
            && LeU16(s, 4) == f.attributes && TsDecode(LeU32(s, 8), s[20]) == StampOf(f.created)
            && TsDecode(LeU32(s, 12), s[21]) == StampOf(f.modified)
            && TsDecode(LeU32(s, 16), f.accessed.tenths) == StampOf(f.accessed)
  {
    hide FileSlot, StampBytes, LeU16, LeU32, TsDecode, StampOf;
    FileSlotBytes(f, n);
    FileSlotFields(f, n);
    StampDecodes(f.created);
    StampDecodes(f.modified);
    StampDecodes(f.accessed);
  }

  lemma StreamSlotDecodes(f: FileSet)
    requires IsFileSet(f)
    ensures var s := StreamSlot(f);
            && s[0] % 0x80 == TYPE_STREAM_EXT && s[3] == |f.units| && s[1] == f.flags
            && LeU32(s, 20) == f.firstCluster && LeU64(s, 24) == f.size
  {
    var a := [TypeByte(0x40, f.unread.secondariesDeleted), f.flags, f.unread.streamByte, |f.units|]
      + f.unread.stream;
    var s := StreamSlot(f);
    LeInside(a, ToLe32(f.firstCluster), ToLe64(f.size));
    assert s == (a + ToLe32(f.firstCluster)) + ToLe64(f.size) + [];
    LeInside(a + ToLe32(f.firstCluster), ToLe64(f.size), []);
  }

  lemma {:induction false} LeUnitsDecode(before: seq<u8>, units: seq<u16>, k: nat)
    requires k < |units|
    ensures LeU16(before + LeUnits(units), |before| + 2 * k) == units[k]
  {
    var n := |units| - 1;
    var init, last := LeUnits(units[..n]), ToLe16(units[n]);
    assert before + LeUnits(units) == before + init + last;
    if k == n {
      LeInside(before + init, last, []);
      assert before + init + last + [] == before + init + last;
    } else {
      LeUnitsDecode(before, units[..n], k);
    }
  }

  lemma NameSlotDecodes(deleted: bool, flags: u8, units: seq<u16>)
    requires |units| == 15
    ensures var s := NameSlot(deleted, flags, units);
            s[0] == TypeByte(0x41, deleted) && NameUnits(s) == units
  {
    var head := [TypeByte(0x41, deleted), flags];
    forall k | 0 <= k < 15 ensures NameUnits(NameSlot(deleted, flags, units))[k] == units[k] {
      LeUnitsDecode(head, units, k);
    }
  }

  lemma NameSlotAbsorbed(st: SetState, deleted: bool, flags: u8, units: seq<u16>)
    requires |units| == 15
    ensures Absorb(st, NameSlot(deleted, flags, units)) == st.(units := st.units + units)
  {
    NameSlotDecodes(deleted, flags, units);
  }

  lemma AbsorbAllAppend(ss: seq<Slot>, s: Slot)
    ensures AbsorbAll(ss + [s]) == Absorb(AbsorbAll(ss), s)
  {
    Seqs.LastOfAppend(ss, s);
  }

  lemma {:induction false} NamesAbsorbed(stream: Slot, deleted: bool, flags: seq<u8>, units: seq<u16>)
    requires |units| == 15 * |flags| && stream[0] % 0x80 == TYPE_STREAM_EXT
    ensures AbsorbAll([stream] + NameSlots(deleted, flags, units)) == Absorb(NOTHING, stream).(units := units)
    decreases |flags|
  {
    if flags == [] {
      AbsorbAllAppend([], stream);
      Seqs.Nil([stream]);
    } else {
      var f, init, last := flags[|flags| - 1], units[..|units| - 15], units[|units| - 15..];
      NamesAbsorbed(stream, deleted, flags[..|flags| - 1], init);
      var names := NameSlots(deleted, flags[..|flags| - 1], init);
      Seqs.Assoc([stream], names, [NameSlot(deleted, f, last)]);
      AbsorbAllAppend([stream] + names, NameSlot(deleted, f, last));
      NameSlotAbsorbed(AbsorbAll([stream] + names), deleted, f, last);
      assert init + last == units;
    }
  }

  lemma {:induction false} OthersIgnored(ss: seq<Slot>, others: seq<Slot>)
    requires forall k | 0 <= k < |others| :: IsOtherSecondary(others[k])
    ensures AbsorbAll(ss + others) == AbsorbAll(ss)
  {
    if others == [] {
      Seqs.Nil(ss);
    } else {
      var n := |others| - 1;
      OthersIgnored(ss, others[..n]);
      Seqs.SplitLast(others);
      Seqs.Assoc(ss, others[..n], [others[n]]);
      AbsorbAllAppend(ss + others[..n], others[n]);
    }
  }

  lemma SetDecodes(f: FileSet, i: nat)
    requires IsFileSet(f)
    ensures EntryOf(FileSlot(f, |SetSecondaries(f)|), AbsorbAll(SetSecondaries(f)), i) == DecodedSet(f, i)
  {
    hide FileSlot, StreamSlot, NameSlots, TsDecode, StampOf;
    var stream, padded := StreamSlot(f), f.units + f.unread.padding;
    FileSlotDecodes(f, |SetSecondaries(f)|);
    StreamSlotDecodes(f);
    NamesAbsorbed(stream, f.unread.secondariesDeleted, f.unread.nameFlags, padded);
    OthersIgnored(
      [stream] + NameSlots(f.unread.secondariesDeleted, f.unread.nameFlags, padded), f.unread.vendor);
    assert padded[..|f.units|] == f.units;
  }

  // ----- Composition -----

  function Shift(e: ExfatDirEntry, dist: nat): ExfatDirEntry { e.(index := IndexOf(e.index + dist)) }

  function ShiftAll(es: seq<ExfatDirEntry>, dist: nat): (r: seq<ExfatDirEntry>)
    ensures |r| == |es|
  {
    seq(|es|, k requires 0 <= k < |es| => Shift(es[k], dist))
  }

  /** A File entry, deleted or in use. */
  predicate HasFileType(s: Slot) { s[0] == 0x05 || s[0] == 0x85 }

  lemma FileTypes(s: Slot)
    ensures IsFile(s) <==> HasFileType(s)
  {}

  /** The slot after the entry at slot `i`: behind the secondaries a File entry claims. */
  function StepFrom(slots: seq<Slot>, i: nat): (j: nat)
    requires i < |slots|
    ensures j > i
  {
    if HasFileType(slots[i]) then i + 1 + slots[i][1] else i + 1
  }

  /** From slot `i` on, the entries end exactly where the slots do, with no end marker before. */
  predicate Whole(a: seq<Slot>, i: nat)
    decreases |a| - i
  {
    if i >= |a| then i == |a| else a[i][0] != 0x00 && Whole(a, StepFrom(a, i))
  }

  lemma WholeStaysInside(a: seq<Slot>, i: nat)
    requires Whole(a, i)
    ensures i <= |a|
  {}

  lemma SetAtPrefix(a: seq<Slot>, b: seq<Slot>, i: nat)
    requires i < |a| && i + 1 + a[i][1] <= |a|
    ensures SetAt(a + b, i) == SetAt(a, i)
  {
    assert Secondaries(a + b, i) == Secondaries(a, i);
  }

  lemma EntryOfShift(file: Slot, st: SetState, i: nat, dist: nat)
    ensures EntryOf(file, st, dist + i) == Shift(EntryOf(file, st, i), dist)
  {}

  lemma SetAtShift(a: seq<Slot>, b: seq<Slot>, i: nat)
    requires i < |b|
    ensures SetAt(a + b, |a| + i) == Shift(SetAt(b, i), |a|)
  {
    assert (a + b)[|a| + i] == b[i];
    assert Secondaries(a + b, |a| + i) == Secondaries(b, i);
    EntryOfShift(b[i], AbsorbAll(Secondaries(b, i)), i, |a|);
  }

  lemma ShiftCons(e: ExfatDirEntry, es: seq<ExfatDirEntry>, dist: nat)
    ensures ShiftAll([e] + es, dist) == [Shift(e, dist)] + ShiftAll(es, dist)
  {}

  lemma NothingShifted(dist: nat)
    ensures ShiftAll([], dist) == []
  {}

  /** What stands before a directory only shifts its entries. */
  lemma {:induction false} SetsFromShift(a: seq<Slot>, b: seq<Slot>, i: nat)
    ensures SetsFrom(a + b, |a| + i) == ShiftAll(SetsFrom(b, i), |a|)
    decreases |b| - i
  {
    hide ShiftAll, SetAt;
    if i >= |b| || IsEnd(b[i]) {
      NothingShifted(|a|);
    } else if IsFile(b[i]) {
      SetsFromShift(a, b, i + 1 + b[i][1]);
      SetAtShift(a, b, i);
      ShiftCons(SetAt(b, i), SetsFrom(b, i + 1 + b[i][1]), |a|);
    } else {
      SetsFromShift(a, b, i + 1);
    }
  }

  lemma {:induction false} SetsFromPrefix(a: seq<Slot>, b: seq<Slot>, i: nat)
    requires Whole(a, i)
    ensures SetsFrom(a + b, i) == SetsFrom(a, i) + SetsFrom(a + b, |a|)
    decreases |a| - i
  {
    hide SetAt;
    if i < |a| {
      var j := StepFrom(a, i);
      SetsFromPrefix(a, b, j);
      WholeStaysInside(a, j);
      if IsFile(a[i]) {
        SetAtPrefix(a, b, i);
        Seqs.Assoc([SetAt(a, i)], SetsFrom(a, j), SetsFrom(a + b, |a|));
      }
    } else {
      Seqs.Nil(SetsFrom(a + b, |a|));
    }
  }

  /** Parsing is compositional wherever the entry sets before end whole. */
  lemma SetsCompose(a: seq<Slot>, b: seq<Slot>)
    requires Whole(a, 0)
    ensures SetsFrom(a + b, 0) == SetsFrom(a, 0) + ShiftAll(SetsFrom(b, 0), |a|)
  {
    SetsFromPrefix(a, b, 0);
    SetsFromShift(a, b, 0);
  }

  lemma ParseComposes(a: seq<u8>, b: seq<u8>)
    requires |a| % 32 == 0 && Whole(SlotsOf(a), 0)
    ensures SetsFrom(SlotsOf(a + b), 0) == SetsFrom(SlotsOf(a), 0) + ShiftAll(SetsFrom(SlotsOf(b), 0), SlotCount(a))
  {
    SlotsOfConcat(a, b);
    SetsCompose(SlotsOf(a), SlotsOf(b));
  }

  lemma {:induction false} WholeShift(a: seq<Slot>, b: seq<Slot>, i: nat)
    requires Whole(b, i)
    ensures Whole(a + b, |a| + i)
    decreases |b| - i
  {
    if i < |b| {
      WholeShift(a, b, StepFrom(b, i));
    }
  }

  lemma {:induction false} WholePrefix(a: seq<Slot>, b: seq<Slot>, i: nat)
    requires Whole(a, i) && Whole(a + b, |a|)
    ensures Whole(a + b, i)
    decreases |a| - i
  {
    if i < |a| {
      WholePrefix(a, b, StepFrom(a, i));
    }
  }

  lemma WholeConcat(a: seq<Slot>, b: seq<Slot>)
    requires Whole(a, 0) && Whole(b, 0)
    ensures Whole(a + b, 0)
  {
    WholeShift(a, b, 0);
    WholePrefix(a, b, 0);
  }

  // ----- A whole directory -----

  /** What stands in a directory: a file set, or a primary of another type (bitmap, up-case table,
      label) or a stray secondary. */
  datatype Item = File(entry: FileSet) | Other(slot: Slot)

  predicate IsItem(it: Item) {
    match it
    case File(f) => IsFileSet(f)
    case Other(s) => s[0] != 0x00 && !HasFileType(s)
  }

  function EncodeItem(it: Item): (r: seq<Slot>)
    requires IsItem(it)
    ensures r != []
  {
    match it
    case File(f) => EncodeSet(f)
    case Other(s) => [s]
  }

  /** What an item lists when it begins at slot `at`. */
  function DecodedItem(it: Item, at: nat): seq<ExfatDirEntry> {
    if it.File? then [DecodedSet(it.entry, at)] else []
  }

  /** A directory that is one set lists just that. */
  lemma OneSet(slots: seq<Slot>)
    requires slots != [] && slots[0][0] != 0x00 && IsFile(slots[0]) && |slots| - 1 == slots[0][1]
    ensures SetsFrom(slots, 0) == [SetAt(slots, 0)] && Whole(slots, 0)
  {
    hide SetAt, IsFile, HasFileType;
    FileTypes(slots[0]);
    assert StepFrom(slots, 0) == |slots| && Whole(slots, |slots|) && SetsFrom(slots, |slots|) == [];
  }

  lemma ClaimsTheRest(file: Slot, rest: seq<Slot>)
    requires file[1] == |rest|
    ensures ([file] + rest)[0] == file && Secondaries([file] + rest, 0) == rest
  {}

  lemma SetAlone(f: FileSet)
    requires IsFileSet(f)
    ensures SetsFrom(EncodeSet(f), 0) == [DecodedSet(f, 0)] && Whole(EncodeSet(f), 0)
  {
    hide DecodedSet, FileSlot, SetSecondaries, EntryOf, AbsorbAll, IsFile, SetsFrom, Whole, Secondaries;
    var file, rest := FileSlot(f, |SetSecondaries(f)|), SetSecondaries(f);
    FileSlotDecodes(f, |rest|);
    ClaimsTheRest(file, rest);
    OneSet([file] + rest);
    SetDecodes(f, 0);
  }

  /** An item written at the start of a directory lists what it decodes to. */
  lemma ItemRoundTrip(it: Item)
    requires IsItem(it)
    ensures SetsFrom(EncodeItem(it), 0) == DecodedItem(it, 0) && Whole(EncodeItem(it), 0)
  {
    hide EncodeSet, DecodedSet;
    match it
    case File(f) => SetAlone(f);
    case Other(s) =>
      assert StepFrom([s], 0) == 1 && SetsFrom([s], 1) == [];
  }

  lemma DecodedItemShift(it: Item, dist: nat)
    ensures ShiftAll(DecodedItem(it, 0), dist) == DecodedItem(it, dist)
  {}

  lemma ItemAfter(before: seq<Slot>, it: Item)
    requires Whole(before, 0) && IsItem(it)
    ensures var slots := before + EncodeItem(it);
            Whole(slots, 0) && SetsFrom(slots, 0) == SetsFrom(before, 0) + DecodedItem(it, |before|)
  {
    hide SetsFrom, Whole, EncodeItem, DecodedItem, ShiftAll;
    ItemRoundTrip(it);
    SetsCompose(before, EncodeItem(it));
    DecodedItemShift(it, |before|);
    WholeConcat(before, EncodeItem(it));
  }

  /** Wherever the sets before it end whole, a written item is listed between them and what
      follows, whatever that is. */
  lemma ItemIsListed(before: seq<Slot>, it: Item, after: seq<Slot>)
    requires Whole(before, 0) && IsItem(it)
    ensures SetsFrom(before + EncodeItem(it) + after, 0) ==
            SetsFrom(before, 0) + DecodedItem(it, |before|)
            + ShiftAll(SetsFrom(after, 0), |before + EncodeItem(it)|)
  {
    hide SetsFrom, Whole, EncodeItem, DecodedItem, ShiftAll;
    ItemAfter(before, it);
    SetsCompose(before + EncodeItem(it), after);
  }

  predicate AllItems(items: seq<Item>) { forall k | 0 <= k < |items| :: IsItem(items[k]) }

  function EncodeItems(items: seq<Item>): seq<Slot>
    requires AllItems(items)
  {
    if items == [] then [] else EncodeItems(items[..|items| - 1]) + EncodeItem(items[|items| - 1])
  }

  /** The file sets among the items, each at the slot its File entry lands on. */
  function DecodedItems(items: seq<Item>): seq<ExfatDirEntry>
    requires AllItems(items)
  {
    if items == [] then []
    else
      var init := items[..|items| - 1];
      DecodedItems(init) + DecodedItem(items[|items| - 1], |EncodeItems(init)|)
  }

  lemma NothingWritten()
    ensures SetsFrom([], 0) == [] && Whole([], 0)
  {}

  lemma {:induction false} ItemsRead(items: seq<Item>)
    requires AllItems(items)
    ensures SetsFrom(EncodeItems(items), 0) == DecodedItems(items) && Whole(EncodeItems(items), 0)
  {
    hide SetsFrom, Whole, EncodeItem, DecodedItem;
    if items == [] {
      NothingWritten();
    } else {
      ItemsRead(items[..|items| - 1]);
      ItemAfter(EncodeItems(items[..|items| - 1]), items[|items| - 1]);
    }
  }

  lemma EndListsNothing(after: seq<Slot>)
    requires after != [] ==> IsEnd(after[0])
    ensures SetsFrom(after, 0) == []
  {}

  /** Any directory of file sets and other primaries, written out and followed by nothing or
      by an end marker, parses back to exactly its file sets. */
  lemma DirectoryRoundTrip(items: seq<Item>, after: seq<Slot>)
    requires AllItems(items) && (after != [] ==> after[0][0] == 0x00)
    ensures SetsFrom(SlotsOf(Flatten(EncodeItems(items) + after)), 0) == DecodedItems(items)
  {
    hide SetsFrom, Whole, ShiftAll;
    SlotsOfFlatten(EncodeItems(items) + after);
    ItemsRead(items);
    SetsCompose(EncodeItems(items), after);
    EndListsNothing(after);
    NothingShifted(|EncodeItems(items)|);
    Seqs.Nil(DecodedItems(items));
  }

  /** In a directory of at most 65536 slots the listed indices strictly increase. */
  lemma {:induction false} IndicesIncrease(slots: seq<Slot>, i: nat)
    requires |slots| <= 0x1_0000
    ensures forall k | 0 <= k < |SetsFrom(slots, i)| :: i <= SetsFrom(slots, i)[k].index
    ensures forall j, k | 0 <= j < k < |SetsFrom(slots, i)| :: SetsFrom(slots, i)[j].index < SetsFrom(slots, i)[k].index
    decreases |slots| - i
  {
    if i < |slots| && !IsEnd(slots[i]) {
      if IsFile(slots[i]) { IndicesIncrease(slots, i + 1 + slots[i][1]); } else { IndicesIncrease(slots, i + 1); }
    }
  }

  // ----- Slots of a listing -----

  /** The slots, from slot `i` on, at which reading finds a File entry. */
  function StartSlots(slots: seq<Slot>, i: nat): (r: seq<nat>)
    ensures |r| == |SetsFrom(slots, i)|
    ensures forall k | 0 <= k < |r| :: i <= r[k] < |slots|
    decreases |slots| - i
  {
    if i >= |slots| || IsEnd(slots[i]) then []
    else if !IsFile(slots[i]) then StartSlots(slots, i + 1)
    else [i] + StartSlots(slots, i + 1 + slots[i][1])
  }

  /** The k-th listed entry is the set at the k-th of these slots. */
  lemma {:induction false} SetsAtStarts(slots: seq<Slot>, i: nat, k: nat)
    requires k < |StartSlots(slots, i)|
    ensures SetsFrom(slots, i)[k] == SetAt(slots, StartSlots(slots, i)[k])
    decreases |slots| - i
  {
    hide SetAt;
    if !IsFile(slots[i]) {
      SetsAtStarts(slots, i + 1, k);
    } else if k > 0 {
      SetsAtStarts(slots, i + 1 + slots[i][1], k - 1);
    }
  }

  lemma {:induction false} StartsAfter(a: seq<Slot>, b: seq<Slot>, i: nat)
    requires Whole(a, i)
    ensures StartSlots(a + b, i) == StartSlots(a, i) + StartSlots(a + b, |a|)
    decreases |a| - i
  {
    hide IsFile, HasFileType, SetsFrom;
    if i < |a| {
      FileTypes(a[i]);
      StartsAfter(a, b, StepFrom(a, i));
      if IsFile(a[i]) {
        Seqs.Assoc([i], StartSlots(a, StepFrom(a, i)), StartSlots(a + b, |a|));
      }
    } else {
      Seqs.Nil(StartSlots(a + b, |a|));
    }
  }

  /** A file set after `before` is listed at the slot it was written at. */
  lemma StartAfter(before: seq<Slot>, f: FileSet, after: seq<Slot>)
    requires Whole(before, 0) && IsFileSet(f)
    ensures var starts, k := StartSlots(before + EncodeSet(f) + after, 0), |SetsFrom(before, 0)|;
            k < |starts| && starts[k] == |before|
  {
    hide SetsFrom, Whole, FileSlot;
    var n := |SetSecondaries(f)|;
    FileSlotDecodes(f, n);
    var rest := EncodeSet(f) + after;
    Seqs.Assoc(before, EncodeSet(f), after);
    StartsAfter(before, rest, 0);
    assert (before + rest)[|before|] == FileSlot(f, n);
  }

  /** The first slot from `i` on that lists an entry with this index. */
  function StartOf(slots: seq<Slot>, i: nat, index: u16): (r: Option<nat>)
    ensures r.Some? ==> i <= r.value < |slots| && IndexOf(r.value) == index
    decreases |slots| - i
  {
    if i >= |slots| || IsEnd(slots[i]) then None
    else if IsFile(slots[i]) && IndexOf(i) == index then Some(i)
    else StartOf(slots, StepFrom(slots, i), index)
  }

  /** An entry whose slot fits its index is the first with that index; cutting the slots at `n`
      keeps it there exactly when its slot is among them. */
  lemma {:induction false} StartOfCut(slots: seq<Slot>, n: nat, i: nat, k: nat)
    requires n <= |slots| && k < |StartSlots(slots, i)| && StartSlots(slots, i)[k] <= U16_MAX
    ensures var p := StartSlots(slots, i)[k]; StartOf(slots[..n], i, p) == if p < n then Some(p) else None
    decreases |slots| - i
  {
    hide SetsFrom, IsFile, HasFileType, IsEnd;
    FileTypes(slots[i]);
    if !IsFile(slots[i]) {
      StartOfCut(slots, n, i + 1, k);
    } else if k > 0 {
      StartOfCut(slots, n, i + 1 + slots[i][1], k - 1);
    }
  }
}
