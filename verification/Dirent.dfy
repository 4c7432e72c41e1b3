/** FAT12/16/32 directory entries: short records, VFAT long names bound to them by
    checksum, deleted records kept. */
module Dirent {
  import opened Bytes
  import opened Wrappers
  import opened Slots
  import Checksum
  import Text

  const ATTR_VOLUME_ID: u8 := 0x08
  const ATTR_DIRECTORY: u8 := 0x10
  const ATTR_LFN: u8 := 0x0F
  const DELETED: u8 := 0xE5
  const END: u8 := 0x00

  datatype DirEntry = DirEntry(
    name: string, shortName: string, attributes: u8, isDir: bool, isVolumeLabel: bool, deleted: bool,
    firstCluster: u32, size: u32, index: u16,
    createdDate: u16, createdTime: u16, createdTenths: u8,
    modifiedDate: u16, modifiedTime: u16, accessed: u16)

  /** One pending long-name component: its sequence number and 13 code units. */
  datatype LfnPart = LfnPart(seqNo: u8, chars: seq<u16>)

  predicate HasVolumeBit(attr: u8) { attr / 8 % 2 == 1 }
  predicate HasDirectoryBit(attr: u8) { attr / 16 % 2 == 1 }

  // ----- Short records -----

  function AsChars(bytes: seq<u8>): string {
    seq(|bytes|, i requires 0 <= i < |bytes| => bytes[i] as char)
  }

  function Trim(bytes: seq<u8>): string {
    if bytes != [] && bytes[|bytes| - 1] == 0x20 then Trim(bytes[..|bytes| - 1]) else AsChars(bytes)
  }

  function Lower(s: string): string {
    seq(|s|, i requires 0 <= i < |s| => if 'A' <= s[i] <= 'Z' then (s[i] as int + 32) as char else s[i])
  }

  /** Render 11 raw name bytes as 8.3, restoring 0xE5 from 0x05 and masking a deleted lead byte. */
  function DecodeShortName(raw: seq<u8>, ntFlags: u8, isVolumeLabel: bool, deleted: bool): string
    requires |raw| == 11
  {
    var b0: u8 := if deleted then 0x3F else if raw[0] == 0x05 then 0xE5 else raw[0];
    var bytes := raw[0 := b0];
    if isVolumeLabel then Trim(bytes)
    else
      var base := Trim(bytes[..8]);
      var ext := Trim(bytes[8..]);
      var base' := if ntFlags / 8 % 2 == 1 then Lower(base) else base;
      var ext' := if ntFlags / 16 % 2 == 1 then Lower(ext) else ext;
      if ext' == [] then base' else base' + "." + ext'
  }

  function DecodeShort(chunk: Slot, idx: nat, longName: Option<string>, deleted: bool): DirEntry {
    var attr := chunk[11];
    var isVolumeLabel := HasVolumeBit(attr) && attr != ATTR_LFN;
    var shortName := DecodeShortName(chunk[..11], chunk[12], isVolumeLabel, deleted);
    DirEntry(
      if longName.Some? then longName.value else shortName,
      shortName, attr, HasDirectoryBit(attr) && !isVolumeLabel, isVolumeLabel, deleted,
      LeU16(chunk, 20) as int * 0x1_0000 + LeU16(chunk, 26),
      LeU16(chunk, 28) as int + LeU16(chunk, 30) as int * 0x1_0000,
      IndexOf(idx),
      LeU16(chunk, 16), LeU16(chunk, 14), chunk[13],
      LeU16(chunk, 24), LeU16(chunk, 22), LeU16(chunk, 18))
  }

  // ----- Long names -----

  /** Offsets of the 13 code units inside a long-name slot. */
  const OFFSETS: seq<nat> := [1, 3, 5, 7, 9, 14, 16, 18, 20, 22, 24, 28, 30]

  function CharsOf(chunk: Slot): (r: seq<u16>)
    ensures |r| == 13
  {
    seq(13, i requires 0 <= i < 13 => LeU16(chunk, OFFSETS[i]))
  }

  method LfnChars(chunk: Slot) returns (chars: seq<u16>)
    ensures chars == CharsOf(chunk)
  {
    chars := [];
    for i := 0 to 13
      invariant chars == CharsOf(chunk)[..i]
    {
      chars := chars + [LeU16(chunk, OFFSETS[i])];
    }
  }

  function ChecksumOf(name: seq<u8>): u8 { Checksum.Sum(0x80, name, Min(11, |name|), {}) }

  method ShortChecksum(name: seq<u8>) returns (sum: u8)
    ensures sum == ChecksumOf(name)
  {
    sum := 0;
    for i := 0 to Min(11, |name|)
      invariant sum == Checksum.Sum(0x80, name, i, {})
    {
      sum := Checksum.RotateAdd(0x80, sum, name[i]);
    }
  }

  /** The checksum of an 11-byte short name: the last sum in an 8-bit register, no byte left out. */
  ghost predicate IsShortChecksum(raw: seq<u8>, sum: u8) {
    |raw| == 11 && Checksum.IsSumOf(0x80, raw, {}, sum)
  }

  /** The computed checksum of a short name is the one defined sum by sum. */
  lemma ChecksumIsRunningSum(raw: seq<u8>, sum: u8)
    requires |raw| == 11
    ensures IsShortChecksum(raw, sum) <==> sum == ChecksumOf(raw)
  {
    Checksum.SumIsLastRunning(0x80, raw, {}, sum);
  }

  /** Short names that differ in one byte have different checksums. */
  lemma ChecksumSeparatesOneByte(a: seq<u8>, b: seq<u8>, k: nat)
    requires |a| == |b| == 11 && k < 11 && a[k] != b[k]
    requires forall i | 0 <= i < 11 && i != k :: a[i] == b[i]
    ensures ChecksumOf(a) != ChecksumOf(b)
  {
    Checksum.SingleByteChangesSum(0x80, a, b, 11, {}, k);
  }

  /** Changes of two neighbouring bytes can go unseen: whatever byte k of a short name becomes,
      exactly one change of the byte after it restores the checksum. */
  lemma NeighbourRestoresChecksum(name: seq<u8>, k: nat, x: u8) returns (y: u8)
    requires |name| == 11 && k < 10 && x != name[k]
    ensures y != name[k + 1]
    ensures forall z: u8 :: ChecksumOf(Checksum.Changed(name, k, x, z)) == ChecksumOf(name) <==> z == y
  {
    y := Checksum.NextByteCancels(name, 11, k, x);
  }

  /** Stable insertion by sequence number. */
  function Insert(p: LfnPart, s: seq<LfnPart>): seq<LfnPart> {
    if s != [] && s[|s| - 1].seqNo > p.seqNo then Insert(p, s[..|s| - 1]) + [s[|s| - 1]] else s + [p]
  }

  function SortBySeq(parts: seq<LfnPart>): seq<LfnPart> {
    if parts == [] then [] else Insert(parts[|parts| - 1], SortBySeq(parts[..|parts| - 1]))
  }

  /** The units of one part: up to the first 0x0000, without 0xFFFF padding. */
  function Kept(chars: seq<u16>): seq<u16> {
    if chars == [] || chars[0] == 0 then []
    else (if chars[0] == 0xFFFF then [] else [chars[0]]) + Kept(chars[1..])
  }

  function KeptAll(parts: seq<LfnPart>): seq<u16> {
    if parts == [] then [] else KeptAll(parts[..|parts| - 1]) + Kept(parts[|parts| - 1].chars)
  }

  /** The long name the pending parts give this short record, if they are bound to it. */
  function LongName(parts: seq<LfnPart>, checksum: Option<u8>, shortRaw: seq<u8>): Option<string> {
    if checksum.None? || parts == [] || checksum.value != ChecksumOf(shortRaw) then None
    else
      var units := KeptAll(SortBySeq(parts));
      if units == [] then None else Some(Text.FromUtf16Lossy(units))
  }

  method ReassembleLong(parts: seq<LfnPart>, checksum: Option<u8>, shortRaw: seq<u8>) returns (r: Option<string>)
    ensures r == LongName(parts, checksum, shortRaw)
  {
    if checksum.None? { return None; }
    var sum := ShortChecksum(shortRaw);
    if parts == [] || checksum.value != sum { return None; }
    var ordered := SortBySeq(parts);
    var units: seq<u16> := [];
    for k := 0 to |ordered|
      invariant units == KeptAll(ordered[..k])
    {
      var chars := ordered[k].chars;
      var j := 0;
      while j < |chars|
        invariant j <= |chars|
        invariant units + Kept(chars[j..]) == KeptAll(ordered[..k]) + Kept(chars)
      {
        var c := chars[j];
        if c == 0x0000 { break; }
        if c != 0xFFFF { units := units + [c]; }
        j := j + 1;
      }
      assert ordered[..k + 1][..k] == ordered[..k];
    }
    assert ordered[..|ordered|] == ordered;
    if units == [] { return None; }
    return Some(Text.FromUtf16Lossy(units));
  }

  // ----- What a directory lists -----

  predicate IsEnd(s: Slot) { s[0] == END }
  predicate IsDeleted(s: Slot) { s[0] == DELETED }
  predicate IsLfn(s: Slot) { s[11] == ATTR_LFN }
  predicate IsLiveLfn(s: Slot) { !IsEnd(s) && !IsDeleted(s) && IsLfn(s) }

  /** Slots before the first end marker. */
  function EndOf(slots: seq<Slot>): (n: nat)
    ensures n <= |slots|
    ensures forall i | 0 <= i < n :: !IsEnd(slots[i])
    ensures n < |slots| ==> IsEnd(slots[n])
  {
    if slots == [] || IsEnd(slots[0]) then 0
    else
      var n := EndOf(slots[1..]);
      assert forall i | 0 < i < 1 + n :: slots[i] == slots[1..][i - 1];
      1 + n
  }

  /** Start of the maximal run of live long-name slots that ends just before slot `i`. */
  function RunStart(slots: seq<Slot>, i: nat): (r: nat)
    requires i <= |slots|
    ensures r <= i
    ensures forall k | r <= k < i :: IsLiveLfn(slots[k])
    ensures r > 0 ==> !IsLiveLfn(slots[r - 1])
  {
    if i > 0 && IsLiveLfn(slots[i - 1]) then RunStart(slots, i - 1) else i
  }

  function PartOf(s: Slot): LfnPart { LfnPart(s[0] % 32, CharsOf(s)) }

  function PartsOf(slots: seq<Slot>): (r: seq<LfnPart>)
    ensures |r| == |slots|
  {
    seq(|slots|, i requires 0 <= i < |slots| => PartOf(slots[i]))
  }

  /** The checksum pending after a run: that of its last slot. */
  function RunChecksum(run: seq<Slot>): Option<u8> {
    if run == [] then None else Some(run[|run| - 1][13])
  }

  /** The long-name parts and checksum bound to a record at slot `i`: the run just before it. */
  function PendingParts(slots: seq<Slot>, i: nat): seq<LfnPart>
    requires i <= |slots|
  {
    PartsOf(slots[RunStart(slots, i)..i])
  }

  function PendingChecksum(slots: seq<Slot>, i: nat): Option<u8>
    requires i <= |slots|
  {
    RunChecksum(slots[RunStart(slots, i)..i])
  }

  /** The record a slot lists. A live one takes its long name from the run just before it. */
  function EntryAt(slots: seq<Slot>, i: nat): DirEntry
    requires i < |slots|
  {
    if IsDeleted(slots[i]) then DecodeShort(slots[i], i, None, true)
    else DecodeShort(slots[i], i, LongName(PendingParts(slots, i), PendingChecksum(slots, i), slots[i][..11]), false)
  }

  /** What one slot before the end marker adds to the listing: nothing for a long-name slot. */
  function Emit(slots: seq<Slot>, i: nat): seq<DirEntry>
    requires i < |slots|
  {
    if IsLfn(slots[i]) then [] else [EntryAt(slots, i)]
  }

  /** The records listed by the first `n` slots. */
  function EntriesUpTo(slots: seq<Slot>, n: nat): seq<DirEntry>
    requires n <= |slots|
  {
    if n == 0 then [] else EntriesUpTo(slots, n - 1) + Emit(slots, n - 1)
  }

  /** The declarative reading of a directory: one record per slot before the end marker
      that is not a long-name slot, each decoded on its own. */
  function Entries(slots: seq<Slot>): seq<DirEntry> {
    EntriesUpTo(slots, EndOf(slots))
  }

  lemma PendingStep(slots: seq<Slot>, i: nat)
    requires i < |slots|
    ensures IsLiveLfn(slots[i]) ==>
              && PendingParts(slots, i + 1) == PendingParts(slots, i) + [PartOf(slots[i])]
              && PendingChecksum(slots, i + 1) == Some(slots[i][13])
    ensures !IsLiveLfn(slots[i]) ==> PendingParts(slots, i + 1) == [] && PendingChecksum(slots, i + 1) == None
  {
    if IsLiveLfn(slots[i]) {
      var r := RunStart(slots, i);
      assert RunStart(slots, i + 1) == r;
      assert slots[r..i + 1] == slots[r..i] + [slots[i]];
    }
  }

  lemma NothingPending(slots: seq<Slot>)
    ensures PendingParts(slots, 0) == [] && PendingChecksum(slots, 0) == None && EntriesUpTo(slots, 0) == []
  {}

  /** The one-pass state machine computes the declarative reading. */
  method ParseDirectory(data: seq<u8>) returns (out: seq<DirEntry>)
    ensures out == Entries(SlotsOf(data))
  {
    hide DecodeShort, LongName, CharsOf, PendingParts, PendingChecksum, LeU16;
    out := [];
    var lfnParts: seq<LfnPart> := [];
    var lfnChecksum: Option<u8> := None;
    ghost var slots := SlotsOf(data);
    NothingPending(slots);
    var idx := 0;
    while idx < SlotCount(data)
      invariant idx <= EndOf(slots)
      invariant out == EntriesUpTo(slots, idx)
      invariant lfnParts == PendingParts(slots, idx)
      invariant lfnChecksum == PendingChecksum(slots, idx)
    {
      var chunk := SlotAt(data, idx);
      assert chunk == slots[idx];
      PendingStep(slots, idx);
      var first := chunk[0];
      if first == END { break; }
      var attr := chunk[11];
      if first == DELETED {
        lfnParts, lfnChecksum := [], None;
        if attr != ATTR_LFN {
          out := out + [DecodeShort(chunk, idx, None, true)];
        }
      } else if attr == ATTR_LFN {
        var chars := LfnChars(chunk);
        lfnParts := lfnParts + [LfnPart(first % 32, chars)];
        lfnChecksum := Some(chunk[13]);
      } else {
        var long := ReassembleLong(lfnParts, lfnChecksum, chunk[..11]);
        out := out + [DecodeShort(chunk, idx, long, false)];
        lfnParts, lfnChecksum := [], None;
      }
      idx := idx + 1;
    }
  }
}
