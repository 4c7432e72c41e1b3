/** Short directory records written field by field read back, with their 8.3 names. */
module ShortRecords {
  import opened Bytes
  import opened Wrappers
  import opened Slots
  import opened Dirent

  /** The fields of a 32-byte record, in on-disk order. */
  datatype ShortFields = ShortFields(
    raw: seq<u8>, attributes: u8, ntFlags: u8, createdTenths: u8, createdTime: u16, createdDate: u16,
    accessed: u16, firstCluster: u32, modifiedTime: u16, modifiedDate: u16, size: u32)

  predicate IsFields(f: ShortFields) { |f.raw| == 11 }

  function ShortSlot(f: ShortFields): Slot
    requires IsFields(f)
  {
    f.raw + [f.attributes, f.ntFlags, f.createdTenths]
    + ToLe16(f.createdTime) + ToLe16(f.createdDate) + ToLe16(f.accessed) + ToLe16(f.firstCluster / 0x1_0000)
    + ToLe16(f.modifiedTime) + ToLe16(f.modifiedDate) + ToLe16(f.firstCluster % 0x1_0000)
    + ToLe16(f.size % 0x1_0000) + ToLe16(f.size / 0x1_0000)
  }

  /** The 16-bit fields of a record by position: offset 14, 16, ..., 30. */
  function Words(f: ShortFields): (r: seq<u16>)
    ensures |r| == 9
  {
    [f.createdTime, f.createdDate, f.accessed, f.firstCluster / 0x1_0000, f.modifiedTime, f.modifiedDate,
     f.firstCluster % 0x1_0000, f.size % 0x1_0000, f.size / 0x1_0000]
  }

  lemma WordsDecode(f: ShortFields, k: nat)
    requires IsFields(f) && k < 9
    ensures LeU16(ShortSlot(f), 14 + 2 * k) == Words(f)[k]
  {
    var s := ShortSlot(f);
    assert s[14 + 2 * k] == Words(f)[k] % 0x100 && s[15 + 2 * k] == Words(f)[k] / 0x100;
  }

  /** The record of a volume label: its bit is set, and it is no long-name slot. */
  predicate IsLabel(f: ShortFields) { f.attributes / 8 % 2 == 1 && f.attributes != 0x0F }

  lemma BytesDecode(f: ShortFields)
    requires IsFields(f)
    ensures var s := ShortSlot(f);
            s[..11] == f.raw && s[11] == f.attributes && s[12] == f.ntFlags && s[13] == f.createdTenths
  {}

  /** Every field of a written record is decoded from its place; the directory and volume-label
      flags follow the attribute bits. */
  lemma ShortRecordRoundTrip(f: ShortFields, i: nat, long: Option<string>, deleted: bool)
    requires IsFields(f)
    ensures var e := DecodeShort(ShortSlot(f), i, long, deleted);
            && e.attributes == f.attributes && e.firstCluster == f.firstCluster && e.size == f.size
            && e.createdDate == f.createdDate && e.createdTime == f.createdTime && e.createdTenths == f.createdTenths
            && e.modifiedDate == f.modifiedDate && e.modifiedTime == f.modifiedTime && e.accessed == f.accessed
            && e.deleted == deleted && e.index == IndexOf(i)
            && (e.isVolumeLabel <==> IsLabel(f)) && (e.isDir <==> f.attributes / 16 % 2 == 1 && !IsLabel(f))
  {
    BytesDecode(f);
    hide ShortSlot, DecodeShortName, LeU16;
    WordsDecode(f, 0); WordsDecode(f, 1); WordsDecode(f, 2); WordsDecode(f, 3); WordsDecode(f, 4);
    WordsDecode(f, 5); WordsDecode(f, 6); WordsDecode(f, 7); WordsDecode(f, 8);
  }

  // ----- 8.3 names -----

  /** A name part of at most `width` bytes that does not end in a space. */
  predicate IsPart(s: seq<u8>, width: nat) { |s| <= width && (s != [] ==> s[|s| - 1] != 0x20) }

  function Pad(s: seq<u8>, width: nat): (r: seq<u8>)
    requires |s| <= width
    ensures |r| == width
  {
    s + seq(width - |s|, _ => 0x20)
  }

  lemma {:induction false} TrimPadded(s: seq<u8>, width: nat)
    requires IsPart(s, width)
    ensures Trim(Pad(s, width)) == AsChars(s)
    decreases width
  {
    if |s| < width {
      TrimPadded(s, width - 1);
      assert Pad(s, width)[..width - 1] == Pad(s, width - 1);
    } else {
      assert Pad(s, width) == s;
    }
  }

  /** What an 11-byte name spells: a base and an extension, or the text of a label. */
  datatype ShortName = FileName(base: seq<u8>, ext: seq<u8>) | LabelName(text: seq<u8>)

  predicate IsShortName(n: ShortName) {
    match n
    case FileName(base, ext) => IsPart(base, 8) && IsPart(ext, 3)
    case LabelName(text) => IsPart(text, 11)
  }

  function NameBytes(n: ShortName): (r: seq<u8>)
    requires IsShortName(n)
    ensures |r| == 11
  {
    match n
    case FileName(base, ext) => Pad(base, 8) + Pad(ext, 3)
    case LabelName(text) => Pad(text, 11)
  }

  /** How a name is kept in a record: the first byte 0xE5 if it is deleted, and '?' in its place;
      else a leading 0xE5 as 0x05. */
  predicate IsStoredAs(raw: seq<u8>, n: ShortName, deleted: bool)
    requires IsShortName(n)
  {
    && |raw| == 11 && raw[1..] == NameBytes(n)[1..]
    && var first := NameBytes(n)[0];
    if deleted then raw[0] == 0xE5 && first == 0x3F
    else if first == 0xE5 then raw[0] == 0x05
    else raw[0] == first && first != 0x05
  }

  /** The characters of a part, letters in lower case if its flag says so. */
  function Letters(part: seq<u8>, lower: bool): (s: string)
    ensures |s| == |part|
  {
    seq(|part|, i requires 0 <= i < |part| =>
      if lower && 0x41 <= part[i] <= 0x5A then (part[i] as int + 32) as char else part[i] as char)
  }

  /** A base, a dot and an extension, or the base alone if there is none; bit 3 of the flags puts the
      base, bit 4 the extension in lower case. A label is spelled as it is. */
  function Spelled(n: ShortName, flags: u8): string {
    match n
    case FileName(base, ext) =>
      if ext == [] then Letters(base, flags / 8 % 2 == 1)
      else Letters(base, flags / 8 % 2 == 1) + "." + Letters(ext, flags / 16 % 2 == 1)
    case LabelName(text) => Letters(text, false)
  }

  lemma LettersShown(part: seq<u8>, lower: bool)
    ensures Letters(part, lower) == if lower then Lower(AsChars(part)) else AsChars(part)
  {}

  /** Restoring the first byte of a stored name gives the bytes it spells. */
  lemma StoredRestores(raw: seq<u8>, n: ShortName, deleted: bool)
    requires IsShortName(n) && IsStoredAs(raw, n, deleted)
    ensures raw[0 := if deleted then 0x3F else if raw[0] == 0x05 then 0xE5 else raw[0]] == NameBytes(n)
  {
    var restored := raw[0 := if deleted then 0x3F else if raw[0] == 0x05 then 0xE5 else raw[0]];
    forall i | 0 <= i < 11 ensures restored[i] == NameBytes(n)[i] {
      if i > 0 { assert raw[1..][i - 1] == NameBytes(n)[1..][i - 1]; }
    }
  }

  /** Every stored name, live or deleted, is shown as what it spells. */
  lemma ShortNameRoundTrip(raw: seq<u8>, n: ShortName, flags: u8, deleted: bool)
    requires IsShortName(n) && IsStoredAs(raw, n, deleted)
    ensures DecodeShortName(raw, flags, n.LabelName?, deleted) == Spelled(n, flags)
  {
    StoredRestores(raw, n, deleted);
    hide Trim, Letters, Lower, AsChars, IsStoredAs;
    match n
    case FileName(base, ext) =>
      assert NameBytes(n)[..8] == Pad(base, 8) && NameBytes(n)[8..] == Pad(ext, 3);
      TrimPadded(base, 8);
      TrimPadded(ext, 3);
      LettersShown(base, flags / 8 % 2 == 1);
      LettersShown(ext, flags / 16 % 2 == 1);
    case LabelName(text) =>
      TrimPadded(text, 11);
      LettersShown(text, false);
  }

  function Strip(s: seq<u8>): (r: seq<u8>)
    ensures r != [] ==> r[|r| - 1] != 0x20
    ensures |r| <= |s| && r + seq(|s| - |r|, _ => 0x20) == s
  {
    if s != [] && s[|s| - 1] == 0x20 then Strip(s[..|s| - 1]) else s
  }

  /** Every 11 bytes of a record spell some name. */
  lemma EveryRawSpells(raw: seq<u8>, isLabel: bool, deleted: bool) returns (n: ShortName)
    requires |raw| == 11 && (deleted <==> raw[0] == 0xE5)
    ensures IsShortName(n) && IsStoredAs(raw, n, deleted) && n.LabelName? == isLabel
  {
    var bytes := raw[0 := if deleted then 0x3F else if raw[0] == 0x05 then 0xE5 else raw[0]];
    if isLabel {
      n := LabelName(Strip(bytes));
    } else {
      n := FileName(Strip(bytes[..8]), Strip(bytes[8..]));
      assert bytes[..8] + bytes[8..] == bytes;
    }
    assert NameBytes(n) == bytes;
  }

  /** A written record is listed under its long name, or else under what its 11 bytes spell. */
  lemma RecordNameRoundTrip(f: ShortFields, n: ShortName, i: nat, long: Option<string>, deleted: bool)
    requires IsFields(f) && IsShortName(n) && IsStoredAs(f.raw, n, deleted) && n.LabelName? == IsLabel(f)
    ensures var e := DecodeShort(ShortSlot(f), i, long, deleted);
            && e.shortName == Spelled(n, f.ntFlags)
            && e.name == if long.Some? then long.value else Spelled(n, f.ntFlags)
  {
    BytesDecode(f);
    hide ShortSlot, Spelled, DecodeShortName;
    ShortNameRoundTrip(f.raw, n, f.ntFlags, deleted);
  }

  lemma {:induction false} TrimKeepsFirst(bytes: seq<u8>)
    requires bytes != [] && bytes[0] != 0x20
    ensures Trim(bytes) != [] && Trim(bytes)[0] == bytes[0] as char
    decreases |bytes|
  {
    if bytes[|bytes| - 1] == 0x20 { TrimKeepsFirst(bytes[..|bytes| - 1]); }
  }

  /** The name of a deleted record starts with '?', so it is never "." or "..". */
  lemma DeletedIsNeverDot(chunk: Slot, i: nat)
    ensures var e := DecodeShort(chunk, i, None, true);
            e.name != [] && e.name[0] == '?' && e.name != "." && e.name != ".."
  {
    var bytes := chunk[..11][0 := 0x3F];
    assert bytes[..8][0] == 0x3F;
    TrimKeepsFirst(bytes);
    TrimKeepsFirst(bytes[..8]);
  }
}
