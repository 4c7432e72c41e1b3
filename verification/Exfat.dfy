/** exFAT: boot-sector geometry, boot-region checksum, and the directory entry sets. */
module Exfat {
  import opened Bytes
  import opened Wrappers
  import opened Fat
  import opened Boot
  import opened Slots
  import Checksum
  import Text
  import Time

  const TYPE_FILE: u8 := 0x05
  const TYPE_STREAM_EXT: u8 := 0x40
  const TYPE_FILE_NAME: u8 := 0x41

  /** "EXFAT   " at offset 3. */
  predicate HasSignature(boot: seq<u8>) {
    |boot| >= 11 && boot[3..11] == [0x45, 0x58, 0x46, 0x41, 0x54, 0x20, 0x20, 0x20]
  }

  function Pow2(n: nat): nat { if n == 0 then 1 else 2 * Pow2(n - 1) }

  function ParseBoot(boot: seq<u8>): Result<Geometry> {
    var bpsShift := U8At(boot, 108);
    var spcShift := U8At(boot, 109);
    var numFats := U8At(boot, 110);
    var count := LeU32(boot, 92);
    var root := LeU32(boot, 96);
    if !HasSignature(boot) then Err(NotFat)
    else if LeU16(boot, 510) != 0xAA55 then Err(InvalidBoot("signature"))
    else if !(9 <= bpsShift <= 12) then Err(InvalidBoot("bytes per sector shift"))
    else if bpsShift as int + spcShift as int > 25 then Err(InvalidBoot("sectors per cluster shift"))
    else if numFats == 0 || numFats > 2 then Err(InvalidBoot("number of FATs"))
    else if root < 2 || root > Min(count as int + 1, U32_MAX) then Err(InvalidBoot("root cluster"))
    else
      var bps := Pow2(bpsShift);
      var spc := Pow2(spcShift);
      Ok(Geometry(
        ExFat, bps, spc, Span(bps, spc), 0, numFats, LeU32(boot, 84), 0, LeU64(boot, 72), root, count,
        Span(LeU32(boot, 80), bps), 0, 0, Span(LeU32(boot, 88), bps)))
  }

  lemma {:induction false} Pow2Add(a: nat, b: nat)
    ensures Pow2(a) * Pow2(b) == Pow2(a + b)
  {
    if a > 0 { Pow2Add(a - 1, b); }
  }

  lemma {:induction false} Pow2Mono(a: nat, b: nat)
    requires a <= b
    ensures 1 <= Pow2(a) <= Pow2(b)
    decreases b
  {
    if a < b { Pow2Mono(a, b - 1); } else if a > 0 { Pow2Mono(a - 1, b - 1); }
  }

  lemma Pow2Values()
    ensures Pow2(9) == 512 && Pow2(12) == 4096 && Pow2(25) == 0x200_0000
  {
    assert Pow2(12) == 4096 && Pow2(13) == 8192;
    Pow2Add(12, 13);
  }

  /** An accepted exFAT boot sector has its root cluster in the heap and no integer overflow. */
  lemma AcceptedFits(boot: seq<u8>)
    requires ParseBoot(boot).Ok?
    ensures var g := ParseBoot(boot).value;
            Fits(g) && g.variant == ExFat && 2 <= g.rootCluster <= g.countOfClusters + 1
            && 512 <= g.bytesPerSector <= 4096
  {
    var s, t := U8At(boot, 108), U8At(boot, 109);
    Pow2Add(s, t);
    Pow2Mono(s + t, 25);
    Pow2Mono(9, s);
    Pow2Mono(s, 12);
    Pow2Values();
    hide Pow2;
    MulLe(LeU32(boot, 80), U32_MAX, Pow2(s));
    MulLe(LeU32(boot, 88), U32_MAX, Pow2(s));
    MulLe(Pow2(s), 4096, U32_MAX);
  }

  // ----- Boot-region checksum -----

  /** VolumeFlags and PercentInUse change in normal use and are left out. */
  const UNSUMMED: set<nat> := {106, 107, 112}

  function SummedLength(sectors: seq<u8>, bytesPerSector: nat): nat { Min(bytesPerSector * 11, |sectors|) }

  function BootSum(sectors: seq<u8>, bytesPerSector: nat): u32 {
    Checksum.Sum(0x8000_0000, sectors, SummedLength(sectors, bytesPerSector), UNSUMMED)
  }

  method BootChecksum(sectors: seq<u8>, bytesPerSector: nat) returns (checksum: u32)
    ensures checksum == BootSum(sectors, bytesPerSector)
  {
    var n := Min(bytesPerSector * 11, |sectors|);
    checksum := 0;
    for i := 0 to n
      invariant checksum == Checksum.Sum(0x8000_0000, sectors, i, UNSUMMED)
    {
      if i == 106 || i == 107 || i == 112 { continue; }
      checksum := Checksum.RotateAdd(0x8000_0000, checksum, sectors[i]);
    }
  }

  /** The checksum of the first 11 sectors: the last sum in a 32-bit register, leaving out
      VolumeFlags (106, 107) and PercentInUse (112). */
  ghost predicate IsBootChecksum(sectors: seq<u8>, sum: u32) {
    Checksum.IsSumOf(0x8000_0000, sectors, {106, 107, 112}, sum)
  }

  /** The computed checksum of a boot region is the one defined sum by sum. */
  lemma BootSumIsRunningSum(sectors: seq<u8>, bytesPerSector: nat, sum: u32)
    requires |sectors| == 11 * bytesPerSector
    ensures IsBootChecksum(sectors, sum) <==> sum == BootSum(sectors, bytesPerSector)
  {
    Checksum.SumIsLastRunning(0x8000_0000, sectors, {106, 107, 112}, sum);
  }

  /** Changing exactly one summed byte of a boot region changes its checksum; the unsummed
      bytes may change with it or not. */
  lemma TamperIsDetected(a: seq<u8>, b: seq<u8>, bytesPerSector: nat, k: nat)
    requires |a| == |b| && k < SummedLength(a, bytesPerSector) && k !in UNSUMMED && a[k] != b[k]
    requires forall i | 0 <= i < |a| && i != k && i !in UNSUMMED :: a[i] == b[i]
    ensures BootSum(a, bytesPerSector) != BootSum(b, bytesPerSector)
  {
    Checksum.SingleByteChangesSum(0x8000_0000, a, b, SummedLength(a, bytesPerSector), UNSUMMED, k);
  }

  /** Changes confined to the unsummed bytes never alter it. */
  lemma UnsummedNeverMatter(a: seq<u8>, b: seq<u8>, bytesPerSector: nat)
    requires |a| == |b| && forall i | 0 <= i < |a| && i !in UNSUMMED :: a[i] == b[i]
    ensures BootSum(a, bytesPerSector) == BootSum(b, bytesPerSector)
  {
    Checksum.SkippedBytesDoNotMatter(0x8000_0000, a, b, SummedLength(a, bytesPerSector), UNSUMMED);
  }

  // ----- Directory entry sets -----

  datatype ExfatDirEntry = ExfatDirEntry(
    name: string, attributes: u16, isDir: bool, deleted: bool, firstCluster: u32, size: u64, contiguous: bool,
    index: u16, created: Option<Time.FatTimestamp>, modified: Option<Time.FatTimestamp>,
    accessed: Option<Time.FatTimestamp>)

  function TsDecode(raw: u32, tenths: u8): Option<Time.FatTimestamp> {
    Time.Decode(raw / 0x1_0000, raw % 0x1_0000, tenths)
  }

  /** What the secondary entries of a set have said so far. */
  datatype SetState = SetState(firstCluster: u32, size: u64, contiguous: bool, nameLen: u8, units: seq<u16>)

  const NOTHING := SetState(0, 0, false, 0, [])

  function NameUnits(s: Slot): (r: seq<u16>)
    ensures |r| == 15
  {
    seq(15, k requires 0 <= k < 15 => LeU16(s, 2 + k * 2))
  }

  function Absorb(st: SetState, s: Slot): SetState {
    if s[0] % 0x80 == TYPE_STREAM_EXT then
      SetState(LeU32(s, 20), LeU64(s, 24), s[1] / 2 % 2 == 1, s[3], st.units)
    else if s[0] % 0x80 == TYPE_FILE_NAME then st.(units := st.units + NameUnits(s))
    else st
  }

  function AbsorbAll(secondaries: seq<Slot>): SetState {
    if secondaries == [] then NOTHING
    else Absorb(AbsorbAll(secondaries[..|secondaries| - 1]), secondaries[|secondaries| - 1])
  }

  function EntryOf(file: Slot, st: SetState, i: nat): ExfatDirEntry {
    var attributes := LeU16(file, 4);
    ExfatDirEntry(
      Text.FromUtf16Lossy(st.units[..Min(st.nameLen, |st.units|)]), attributes, attributes / 16 % 2 == 1,
      file[0] < 0x80, st.firstCluster, st.size, st.contiguous, IndexOf(i),
      TsDecode(LeU32(file, 8), file[20]), TsDecode(LeU32(file, 12), file[21]), TsDecode(LeU32(file, 16), 0))
  }

  /** The secondaries claimed by the File entry at slot `i`, as far as the directory goes. */
  function Secondaries(slots: seq<Slot>, i: nat): seq<Slot>
    requires i < |slots|
  {
    slots[i + 1..Min(i + 1 + slots[i][1] as int, |slots|)]
  }

  function SetAt(slots: seq<Slot>, i: nat): ExfatDirEntry
    requires i < |slots|
  {
    EntryOf(slots[i], AbsorbAll(Secondaries(slots, i)), i)
  }

  predicate IsEnd(s: Slot) { s[0] == 0x00 }
  predicate IsFile(s: Slot) { s[0] % 0x80 == TYPE_FILE }

  /** The sets from slot `i` on: a File entry and the secondaries it claims are one step. */
  function SetsFrom(slots: seq<Slot>, i: nat): seq<ExfatDirEntry>
    decreases |slots| - i
  {
    if i >= |slots| || IsEnd(slots[i]) then []
    else if !IsFile(slots[i]) then SetsFrom(slots, i + 1)
    else [SetAt(slots, i)] + SetsFrom(slots, i + 1 + slots[i][1])
  }

  method DecodeSet(slots: seq<Slot>, i: nat, secondaryCount: nat, file: Slot) returns (e: ExfatDirEntry)
    requires i < |slots| && file == slots[i] && secondaryCount == file[1]
    ensures e == SetAt(slots, i)
  {
    var firstCluster: u32, size: u64, contiguous, nameLen: u8 := 0, 0, false, 0;
    var units: seq<u16> := [];
    var j := 1;
    while j <= secondaryCount
      invariant 1 <= j <= secondaryCount + 1 && i + j <= |slots|
      invariant SetState(firstCluster, size, contiguous, nameLen, units) == AbsorbAll(slots[i + 1..i + j])
    {
      if i + j >= |slots| { break; }
      var s := slots[i + j];
      assert slots[i + 1..i + j + 1][..j - 1] == slots[i + 1..i + j];
      if s[0] % 0x80 == TYPE_STREAM_EXT {
        contiguous := s[1] / 2 % 2 == 1;
        nameLen := s[3];
        firstCluster := LeU32(s, 20);
        size := LeU64(s, 24);
      } else if s[0] % 0x80 == TYPE_FILE_NAME {
        ghost var before := units;
        for k := 0 to 15
          invariant units == before + NameUnits(s)[..k]
        {
          units := units + [LeU16(s, 2 + k * 2)];
        }
      }
      j := j + 1;
    }
    assert Secondaries(slots, i) == slots[i + 1..i + j];
    units := units[..Min(nameLen, |units|)];
    var attributes := LeU16(file, 4);
    e := ExfatDirEntry(
      Text.FromUtf16Lossy(units), attributes, attributes / 16 % 2 == 1, file[0] < 0x80, firstCluster, size,
      contiguous, IndexOf(i), TsDecode(LeU32(file, 8), U8At(file, 20)), TsDecode(LeU32(file, 12), U8At(file, 21)),
      TsDecode(LeU32(file, 16), 0));
  }

  method ParseDirectory(data: seq<u8>) returns (out: seq<ExfatDirEntry>)
    ensures out == SetsFrom(SlotsOf(data), 0)
  {
    hide SetAt, SlotsOf;
    var slots := SlotsOf(data);
    out := [];
    var i := 0;
    while i < |slots|
      invariant out + SetsFrom(slots, i) == SetsFrom(slots, 0)
    {
      var e := slots[i];
      if e[0] == 0x00 { break; }
      if e[0] % 0x80 != TYPE_FILE {
        i := i + 1;
      } else {
        var secondaryCount := e[1];
        var entry := DecodeSet(slots, i, secondaryCount, e);
        out := out + [entry];
        i := i + 1 + secondaryCount;
      }
    }
  }
}
