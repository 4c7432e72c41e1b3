/** Laws of the VFAT directory reading: locality, composition, long-name round trips. */
module DirentProofs {
  import opened Bytes
  import Seqs
  import opened Wrappers
  import opened Slots
  import opened Dirent
  import Text

  // ----- Composition -----

  function Shift(e: DirEntry, dist: nat): DirEntry { e.(index := IndexOf(e.index + dist)) }

  function ShiftAll(es: seq<DirEntry>, dist: nat): (r: seq<DirEntry>)
    ensures |r| == |es|
  {
    seq(|es|, k requires 0 <= k < |es| => Shift(es[k], dist))
  }

  /** `a` leaves nothing pending: no end marker inside and no live long-name slot last. */
  predicate Complete(a: seq<Slot>) {
    && (forall i | 0 <= i < |a| :: a[i][0] != 0x00)
    && (a != [] ==> a[|a| - 1][11] != 0x0F || a[|a| - 1][0] == 0xE5)
  }

  lemma {:induction false} EndOfConcat(a: seq<Slot>, b: seq<Slot>)
    requires forall i | 0 <= i < |a| :: !IsEnd(a[i])
    ensures EndOf(a + b) == |a| + EndOf(b)
  {
    if a == [] {
      assert a + b == b;
    } else {
      EndOfConcat(a[1..], b);
      assert (a + b)[1..] == a[1..] + b;
    }
  }

  lemma {:induction false} RunStartConcat(a: seq<Slot>, b: seq<Slot>, i: nat)
    requires Complete(a) && i <= |b|
    ensures RunStart(a + b, |a| + i) == |a| + RunStart(b, i)
  {
    if i > 0 {
      RunStartConcat(a, b, i - 1);
      assert (a + b)[|a| + i - 1] == b[i - 1];
    }
  }

  lemma {:induction false} RunStartPrefix(a: seq<Slot>, b: seq<Slot>, i: nat)
    requires i <= |a|
    ensures RunStart(a + b, i) == RunStart(a, i)
  {
    if i > 0 { RunStartPrefix(a, b, i - 1); }
  }

  lemma PendingConcat(a: seq<Slot>, b: seq<Slot>, i: nat)
    requires Complete(a) && i <= |b|
    ensures PendingParts(a + b, |a| + i) == PendingParts(b, i)
    ensures PendingChecksum(a + b, |a| + i) == PendingChecksum(b, i)
  {
    RunStartConcat(a, b, i);
    hide Complete, PartsOf, RunChecksum, RunStart;
    var r := RunStart(b, i);
    assert (a + b)[|a| + r..|a| + i] == b[r..i];
  }

  lemma DecodeShortShift(chunk: Slot, i: nat, dist: nat, long: Option<string>, deleted: bool)
    ensures DecodeShort(chunk, dist + i, long, deleted) == Shift(DecodeShort(chunk, i, long, deleted), dist)
  {}

  lemma EntryAtConcat(a: seq<Slot>, b: seq<Slot>, i: nat)
    requires Complete(a) && i < |b|
    ensures EntryAt(a + b, |a| + i) == Shift(EntryAt(b, i), |a|)
  {
    PendingConcat(a, b, i);
    assert (a + b)[|a| + i] == b[i];
    var long := if IsDeleted(b[i]) then None else LongName(PendingParts(b, i), PendingChecksum(b, i), b[i][..11]);
    assert EntryAt(b, i) == DecodeShort(b[i], i, long, IsDeleted(b[i]));
    assert EntryAt(a + b, |a| + i) == DecodeShort(b[i], |a| + i, long, IsDeleted(b[i]));
    DecodeShortShift(b[i], i, |a|, long, IsDeleted(b[i]));
  }

  lemma EntryAtPrefix(a: seq<Slot>, b: seq<Slot>, i: nat)
    requires i < |a|
    ensures EntryAt(a + b, i) == EntryAt(a, i)
  {
    RunStartPrefix(a, b, i);
    var r := RunStart(a, i);
    assert (a + b)[r..i] == a[r..i];
  }

  lemma {:induction false} EntriesPrefix(a: seq<Slot>, b: seq<Slot>, n: nat)
    requires n <= |a|
    ensures EntriesUpTo(a + b, n) == EntriesUpTo(a, n)
  {
    if n > 0 {
      EntriesPrefix(a, b, n - 1);
      EntryAtPrefix(a, b, n - 1);
    }
  }

  lemma EmitConcat(a: seq<Slot>, b: seq<Slot>, n: nat)
    requires Complete(a) && n < |b|
    ensures Emit(a + b, |a| + n) == ShiftAll(Emit(b, n), |a|)
  {
    EntryAtConcat(a, b, n);
    assert (a + b)[|a| + n] == b[n];
  }

  lemma OneMoreSlot(slots: seq<Slot>, n: nat)
    requires n < |slots|
    ensures EntriesUpTo(slots, n + 1) == EntriesUpTo(slots, n) + Emit(slots, n)
  {}

  lemma NoEntriesYet(slots: seq<Slot>, dist: nat)
    ensures ShiftAll(EntriesUpTo(slots, 0), dist) == []
  {}

  lemma ShiftAllAppend(before: seq<DirEntry>, es: seq<DirEntry>, more: seq<DirEntry>, dist: nat)
    ensures before + ShiftAll(es, dist) + ShiftAll(more, dist) == before + ShiftAll(es + more, dist)
  {}

  lemma {:induction false} EntriesConcat(a: seq<Slot>, b: seq<Slot>, n: nat)
    requires Complete(a) && n <= |b|
    ensures EntriesUpTo(a + b, |a| + n) == EntriesUpTo(a, |a|) + ShiftAll(EntriesUpTo(b, n), |a|)
  {
    hide Emit, EntriesUpTo, ShiftAll;
    if n == 0 {
      EntriesPrefix(a, b, |a|);
      NoEntriesYet(b, |a|);
      Seqs.Nil(EntriesUpTo(a, |a|));
    } else {
      EntriesConcat(a, b, n - 1);
      OneMoreSlot(b, n - 1);
      OneMoreSlot(a + b, |a| + n - 1);
      EmitConcat(a, b, n - 1);
      ShiftAllAppend(EntriesUpTo(a, |a|), EntriesUpTo(b, n - 1), Emit(b, n - 1), |a|);
    }
  }

  /** Parsing is compositional at any slot boundary where nothing is pending. */
  lemma ParseComposes(a: seq<u8>, b: seq<u8>)
    requires |a| % 32 == 0 && Complete(SlotsOf(a))
    ensures Entries(SlotsOf(a + b)) == Entries(SlotsOf(a)) + ShiftAll(Entries(SlotsOf(b)), SlotCount(a))
  {
    SlotsOfConcat(a, b);
    SlotsCompose(SlotsOf(a), SlotsOf(b));
  }

  lemma SlotsCompose(a: seq<Slot>, b: seq<Slot>)
    requires Complete(a)
    ensures Entries(a + b) == Entries(a) + ShiftAll(Entries(b), |a|)
  {
    hide Emit;
    EndOfConcat(a, b);
    EndOfWhole(a);
    EntriesConcat(a, b, EndOf(b));
  }

  lemma EndOfWhole(a: seq<Slot>)
    requires forall i | 0 <= i < |a| :: !IsEnd(a[i])
    ensures EndOf(a) == |a|
  {
    EndOfConcat(a, []);
    assert a + [] == a;
  }

  /** A record depends on its own slot and the maximal run of live long-name slots just
      before it, wherever in a directory they stand. */
  lemma RecordIsLocal(a: seq<Slot>, i: nat, b: seq<Slot>, j: nat)
    requires i < |a| && j < |b|
    requires a[RunStart(a, i)..i] == b[RunStart(b, j)..j] && a[i] == b[j]
    ensures EntryAt(a, i) == EntryAt(b, j).(index := IndexOf(i))
  {
    hide LongName, DecodeShort;
    assert PendingParts(a, i) == PendingParts(b, j) && PendingChecksum(a, i) == PendingChecksum(b, j);
    var long := LongName(PendingParts(b, j), PendingChecksum(b, j), b[j][..11]);
    DecodeShortAnywhere(b[j], i, j, None, true);
    DecodeShortAnywhere(b[j], i, j, long, false);
  }

  lemma DecodeShortAnywhere(chunk: Slot, i: nat, j: nat, long: Option<string>, deleted: bool)
    ensures DecodeShort(chunk, i, long, deleted) == DecodeShort(chunk, j, long, deleted).(index := IndexOf(i))
  {
  }

  // ----- Sorting by sequence number -----

  predicate Sorted(s: seq<LfnPart>) { forall i, j | 0 <= i < j < |s| :: s[i].seqNo <= s[j].seqNo }

  predicate StrictlySorted(s: seq<LfnPart>) { forall i, j | 0 <= i < j < |s| :: s[i].seqNo < s[j].seqNo }

  lemma {:induction false} InsertSorts(p: LfnPart, s: seq<LfnPart>)
    requires Sorted(s)
    ensures Sorted(Insert(p, s)) && multiset(Insert(p, s)) == multiset(s) + multiset{p}
  {
    if s != [] && s[|s| - 1].seqNo > p.seqNo {
      var init, last := s[..|s| - 1], s[|s| - 1];
      InsertSorts(p, init);
      Seqs.SplitLast(s);
      var r := Insert(p, init);
      if r != [] {
        var x := r[|r| - 1];
        assert x in multiset(r);
        assert x in init || x == p;
      }
      AppendSorted(r, last);
    } else {
      AppendSorted(s, p);
    }
  }

  lemma AppendSorted(s: seq<LfnPart>, p: LfnPart)
    requires Sorted(s) && (s != [] ==> s[|s| - 1].seqNo <= p.seqNo)
    ensures Sorted(s + [p])
  {}

  lemma {:induction false} SortSorts(parts: seq<LfnPart>)
    ensures Sorted(SortBySeq(parts)) && multiset(SortBySeq(parts)) == multiset(parts)
  {
    if parts != [] {
      var init := parts[..|parts| - 1];
      SortSorts(init);
      hide Sorted, Insert;
      InsertSorts(parts[|parts| - 1], SortBySeq(init));
      DropLast(parts);
    }
  }

  lemma LastIsTheSame(a: seq<LfnPart>, b: seq<LfnPart>)
    requires a != [] && b != [] && Sorted(a) && StrictlySorted(b) && multiset(a) == multiset(b)
    ensures a[|a| - 1] == b[|b| - 1]
  {
    var x, y := a[|a| - 1], b[|b| - 1];
    assert x in multiset(b) && y in multiset(a);
    var i :| 0 <= i < |b| && b[i] == x;
    var j :| 0 <= j < |a| && a[j] == y;
    assert y.seqNo <= x.seqNo;
    assert i < |b| - 1 ==> x.seqNo < y.seqNo;
  }

  lemma DropLast<T>(s: seq<T>)
    requires s != []
    ensures multiset(s[..|s| - 1]) == multiset(s) - multiset{s[|s| - 1]}
  {
    assert s == s[..|s| - 1] + [s[|s| - 1]];
  }

  lemma SameSize<T>(s: seq<T>, t: seq<T>)
    requires multiset(s) == multiset(t)
    ensures |s| == |t|
  {
    assert |multiset(s)| == |s| && |multiset(t)| == |t|;
  }

  /** Distinct keys leave only one sorted order. */
  lemma {:induction false} SortedIsUnique(a: seq<LfnPart>, b: seq<LfnPart>)
    requires Sorted(a) && StrictlySorted(b) && multiset(a) == multiset(b)
    ensures a == b
  {
    SameSize(a, b);
    if a != [] {
      LastIsTheSame(a, b);
      DropLast(a);
      DropLast(b);
      SortedIsUnique(a[..|a| - 1], b[..|b| - 1]);
      Seqs.SameByLast(a, b);
    }
  }

  lemma PartsOfRemoved(t: seq<Slot>, i: nat)
    requires i < |t|
    ensures multiset(t[..i] + t[i + 1..]) == multiset(t) - multiset{t[i]}
    ensures multiset(PartsOf(t)) == multiset(PartsOf(t[..i] + t[i + 1..])) + multiset{PartOf(t[i])}
  {
    assert t == t[..i] + [t[i]] + t[i + 1..];
    assert PartsOf(t) == PartsOf(t[..i]) + [PartOf(t[i])] + PartsOf(t[i + 1..]);
    assert PartsOf(t[..i] + t[i + 1..]) == PartsOf(t[..i]) + PartsOf(t[i + 1..]);
  }

  lemma {:induction false} PartsOfPermutation(s: seq<Slot>, t: seq<Slot>)
    requires multiset(s) == multiset(t)
    ensures multiset(PartsOf(s)) == multiset(PartsOf(t))
  {
    hide PartsOf;
    SameSize(s, t);
    if s != [] {
      assert s[0] in multiset(t);
      var i :| 0 <= i < |t| && t[i] == s[0];
      PartsOfRemoved(s, 0);
      PartsOfRemoved(t, i);
      PartsOfPermutation(s[..0] + s[1..], t[..i] + t[i + 1..]);
    }
  }

  lemma {:induction false} ReverseIsPermutation(s: seq<LfnPart>, t: seq<LfnPart>)
    requires |s| == |t| && forall i | 0 <= i < |s| :: s[i] == t[|t| - 1 - i]
    ensures multiset(s) == multiset(t)
  {
    if s != [] {
      ReverseIsPermutation(s[1..], t[..|t| - 1]);
      assert s == [s[0]] + s[1..] && t == t[..|t| - 1] + [t[|t| - 1]];
    }
  }

  /** The parts with one sequence number, in order. */
  function Numbered(parts: seq<LfnPart>, no: u8): seq<LfnPart> {
    if parts == [] then []
    else
      Numbered(parts[..|parts| - 1], no)
      + if parts[|parts| - 1].seqNo == no then [parts[|parts| - 1]] else []
  }

  lemma NumberedAppend(parts: seq<LfnPart>, p: LfnPart, no: u8)
    ensures Numbered(parts + [p], no) == Numbered(parts, no) + if p.seqNo == no then [p] else []
  {
    Seqs.LastOfAppend(parts, p);
  }

  lemma {:induction false} InsertIsStable(p: LfnPart, s: seq<LfnPart>, no: u8)
    requires Sorted(s)
    ensures Numbered(Insert(p, s), no) == Numbered(s, no) + if p.seqNo == no then [p] else []
  {
    hide Numbered;
    if s != [] && s[|s| - 1].seqNo > p.seqNo {
      var init, last := s[..|s| - 1], s[|s| - 1];
      InsertIsStable(p, init, no);
      NumberedAppend(Insert(p, init), last, no);
      Seqs.SplitLast(s);
      NumberedAppend(init, last, no);
      if p.seqNo == no && last.seqNo != no { Seqs.Nil(Numbered(init, no)); }
      NothingAbove(s, p.seqNo, no);
    } else {
      NumberedAppend(s, p, no);
    }
  }

  lemma NothingAbove(s: seq<LfnPart>, p: u8, no: u8)
    requires s != [] && s[|s| - 1].seqNo > p
    ensures p == no ==> s[|s| - 1].seqNo != no
  {}

  /** Parts that share a sequence number keep their order. */
  lemma {:induction false} SortIsStable(parts: seq<LfnPart>, no: u8)
    ensures Numbered(SortBySeq(parts), no) == Numbered(parts, no)
  {
    if parts != [] {
      var init := parts[..|parts| - 1];
      SortIsStable(init, no);
      SortSorts(init);
      InsertIsStable(parts[|parts| - 1], SortBySeq(init), no);
    }
  }

  // ----- Writing a long name -----

  /** Free of the terminator and padding units. */
  predicate Clean(units: seq<u16>) { forall i | 0 <= i < |units| :: units[i] != 0 && units[i] != 0xFFFF }

  /** A name a long-name run can carry. */
  predicate IsLongName(units: seq<u16>) { 0 < |units| <= 31 * 13 && Clean(units) }

  /** The i-th unit of a slot: the name, one terminator, then padding. */
  function Padded(chars: seq<u16>): (r: seq<u16>)
    ensures |r| == 13
  {
    seq(13, i requires 0 <= i < 13 => if i < |chars| then chars[i] else if i == |chars| then 0 else 0xFFFF)
  }

  /** A sequence number and three flag bits above it, 0x40 marking the last part. */
  predicate IsOrdinal(seqNo: u8, flags: u8) {
    1 <= seqNo <= 31 && flags % 0x20 == 0 && seqNo as int + flags as int != 0xE5
  }

  function LfnSlot(seqNo: u8, flags: u8, sum: u8, chars: seq<u16>): Slot
    requires IsOrdinal(seqNo, flags)
  {
    var u := Padded(chars);
    [seqNo + flags]
    + ToLe16(u[0]) + ToLe16(u[1]) + ToLe16(u[2]) + ToLe16(u[3]) + ToLe16(u[4])
    + [0x0F, 0, sum]
    + ToLe16(u[5]) + ToLe16(u[6]) + ToLe16(u[7]) + ToLe16(u[8]) + ToLe16(u[9]) + ToLe16(u[10])
    + [0, 0] + ToLe16(u[11]) + ToLe16(u[12])
  }

  lemma LfnSlotDecodes(seqNo: u8, flags: u8, sum: u8, chars: seq<u16>)
    requires IsOrdinal(seqNo, flags)
    ensures var s := LfnSlot(seqNo, flags, sum, chars);
            IsLiveLfn(s) && s[13] == sum && PartOf(s) == LfnPart(seqNo, Padded(chars))
  {
    LfnSlotBytes(seqNo, flags, sum, chars);
    LfnSlotUnits(seqNo, flags, sum, chars);
    hide LfnSlot, CharsOf, Padded;
    assert (seqNo + flags) % 0x20 == seqNo;
  }

  lemma LfnSlotBytes(seqNo: u8, flags: u8, sum: u8, chars: seq<u16>)
    requires IsOrdinal(seqNo, flags)
    ensures var s := LfnSlot(seqNo, flags, sum, chars);
            s[0] == seqNo + flags != 0x00 && s[11] == 0x0F && s[13] == sum
  {}

  lemma LfnSlotUnits(seqNo: u8, flags: u8, sum: u8, chars: seq<u16>)
    requires IsOrdinal(seqNo, flags)
    ensures CharsOf(LfnSlot(seqNo, flags, sum, chars)) == Padded(chars)
  {
    var s, u := LfnSlot(seqNo, flags, sum, chars), Padded(chars);
    forall i | 0 <= i < 13 ensures LeU16(s, OFFSETS[i]) == u[i] {
      var at := OFFSETS[i];
      assert s[at] == u[i] % 0x100 && s[at + 1] == u[i] / 0x100;
      UnitInBytes(s, at, u[i]);
    }
  }

  lemma UnitInBytes(s: Slot, at: nat, u: u16)
    requires at + 2 <= 32 && s[at] == u % 0x100 && s[at + 1] == u / 0x100
    ensures LeU16(s, at) == u
  {}

  function Pieces(units: seq<u16>): (n: nat)
    ensures IsLongName(units) ==> 1 <= n <= 31
  {
    (|units| + 12) / 13
  }

  /** The k-th 13-unit piece of a name. */
  function Piece(units: seq<u16>, k: nat): seq<u16>
    requires k < Pieces(units)
  {
    units[13 * k..Min(13 * k + 13, |units|)]
  }

  /** The slots of a long name in on-disk order: highest sequence number first. */
  function LfnSlots(units: seq<u16>, sum: u8): (r: seq<Slot>)
    requires IsLongName(units)
    ensures |r| == Pieces(units)
  {
    hide IsLongName, Piece;
    var n := Pieces(units);
    seq(n, i requires 0 <= i < n => LfnSlot(n - i, if i == 0 then 0x40 else 0, sum, Piece(units, n - 1 - i)))
  }

  function OrderedParts(units: seq<u16>): (r: seq<LfnPart>)
    requires IsLongName(units)
    ensures |r| == Pieces(units)
  {
    seq(Pieces(units), k requires 0 <= k < Pieces(units) => LfnPart(k + 1, Padded(Piece(units, k))))
  }

  lemma {:induction false} KeptStops(chars: seq<u16>, tail: seq<u16>)
    requires Clean(chars)
    requires tail == [] || tail[0] == 0
    ensures Kept(chars + tail) == chars
  {
    if chars == [] {
      assert chars + tail == tail;
    } else {
      KeptStops(chars[1..], tail);
      assert (chars + tail)[1..] == chars[1..] + tail;
    }
  }

  /** The units of a part end at its first zero, and padding before that is left out, whatever the
      rest holds. */
  lemma {:induction false} KeptUnits(a: seq<u16>, b: seq<u16>)
    requires forall i | 0 <= i < |a| :: a[i] != 0
    ensures Kept(a + ([0] + b)) == Kept(a) && Kept(a + ([0xFFFF] + b)) == Kept(a) + Kept(b)
  {
    if a == [] {
      assert a + ([0] + b) == [0] + b && a + ([0xFFFF] + b) == [0xFFFF] + b && ([0xFFFF] + b)[1..] == b;
    } else {
      KeptUnits(a[1..], b);
      assert (a + ([0] + b))[1..] == a[1..] + ([0] + b) && (a + ([0xFFFF] + b))[1..] == a[1..] + ([0xFFFF] + b);
    }
  }

  /** A run that spells nothing, or one of another checksum, gives no long name. */
  lemma NoLongName(parts: seq<LfnPart>, sum: u8, raw: seq<u8>)
    requires |raw| == 11 && (KeptAll(SortBySeq(parts)) == [] || !IsShortChecksum(raw, sum))
    ensures LongName(parts, Some(sum), raw) == None
  {
    ChecksumIsRunningSum(raw, sum);
  }

  lemma KeptPadded(chars: seq<u16>)
    requires |chars| <= 13 && Clean(chars)
    ensures Kept(Padded(chars)) == chars
  {
    var tail := Padded(chars)[|chars|..];
    assert Padded(chars) == chars + tail;
    KeptStops(chars, tail);
  }

  lemma PieceIsClean(units: seq<u16>, k: nat)
    requires Clean(units) && k < Pieces(units)
    ensures Clean(Piece(units, k)) && |Piece(units, k)| <= 13
  {}

  lemma PieceExtends(units: seq<u16>, k: nat)
    requires k < Pieces(units)
    ensures 13 * k < |units| && units[..Min(13 * k + 13, |units|)] == units[..13 * k] + Piece(units, k)
  {}

  lemma KeptAllExtends(parts: seq<LfnPart>, k: nat)
    requires k < |parts|
    ensures KeptAll(parts[..k + 1]) == KeptAll(parts[..k]) + Kept(parts[k].chars)
  {
    assert parts[..k + 1][..k] == parts[..k];
  }

  lemma {:induction false} PiecesMakeTheName(units: seq<u16>, k: nat)
    requires IsLongName(units) && k <= Pieces(units)
    ensures KeptAll(OrderedParts(units)[..k]) == units[..Min(13 * k, |units|)]
  {
    hide Clean, Piece, Padded, KeptAll, Kept;
    if k > 0 {
      PiecesMakeTheName(units, k - 1);
      KeptAllExtends(OrderedParts(units), k - 1);
      PieceIsClean(units, k - 1);
      KeptPadded(Piece(units, k - 1));
      PieceExtends(units, k - 1);
    } else {
      NoPartsKept(OrderedParts(units));
    }
  }

  lemma NoPartsKept(parts: seq<LfnPart>)
    ensures KeptAll(parts[..0]) == []
  {}

  lemma CanonicalParts(units: seq<u16>, sum: u8)
    requires IsLongName(units)
    ensures multiset(PartsOf(LfnSlots(units, sum))) == multiset(OrderedParts(units))
    ensures forall s | s in LfnSlots(units, sum) :: IsLiveLfn(s) && s[13] == sum
  {
    var canon, n := LfnSlots(units, sum), Pieces(units);
    hide LfnSlot, Padded, Piece, CharsOf;
    forall i | 0 <= i < n
      ensures PartOf(canon[i]) == OrderedParts(units)[n - 1 - i] && IsLiveLfn(canon[i]) && canon[i][13] == sum
    {
      LfnSlotDecodes(n - i, if i == 0 then 0x40 else 0, sum, Piece(units, n - 1 - i));
    }
    ReverseIsPermutation(PartsOf(canon), OrderedParts(units));
  }

  /** The slots of a long name in any order sort back to the name. */
  lemma PermutedPartsSort(units: seq<u16>, sum: u8, slots: seq<Slot>)
    requires IsLongName(units) && multiset(slots) == multiset(LfnSlots(units, sum))
    ensures KeptAll(SortBySeq(PartsOf(slots))) == units
    ensures |slots| == Pieces(units) > 0
    ensures forall s | s in slots :: IsLiveLfn(s) && s[13] == sum
  {
    PermutedSlotsAreLfn(units, sum, slots);
    CanonicalParts(units, sum);
    PartsOfPermutation(slots, LfnSlots(units, sum));
    PartsSortToName(units, PartsOf(slots));
  }

  lemma PartsSortToName(units: seq<u16>, parts: seq<LfnPart>)
    requires IsLongName(units) && multiset(parts) == multiset(OrderedParts(units))
    ensures KeptAll(SortBySeq(parts)) == units
  {
    var sorted := SortBySeq(parts);
    SortSorts(parts);
    SortedIsUnique(sorted, OrderedParts(units));
    OrderedName(units);
  }

  lemma OrderedName(units: seq<u16>)
    requires IsLongName(units)
    ensures KeptAll(OrderedParts(units)) == units
  {
    var n := Pieces(units);
    PiecesMakeTheName(units, n);
    assert OrderedParts(units)[..n] == OrderedParts(units) && units[..|units|] == units;
  }

  lemma PermutedSlotsAreLfn(units: seq<u16>, sum: u8, slots: seq<Slot>)
    requires IsLongName(units) && multiset(slots) == multiset(LfnSlots(units, sum))
    ensures |slots| == Pieces(units) > 0
    ensures forall s | s in slots :: IsLiveLfn(s) && s[13] == sum
  {
    CanonicalParts(units, sum);
    SameSize(slots, LfnSlots(units, sum));
    forall s | s in slots ensures s in LfnSlots(units, sum) {
      assert s in multiset(slots);
    }
  }

  /** Neither an end marker nor deleted, and no long-name slot. */
  predicate IsLiveShort(s: Slot) { s[0] != 0x00 && s[0] != 0xE5 && s[11] != 0x0F }

  /** Live long-name slots only. */
  predicate IsRun(slots: seq<Slot>) {
    forall k | 0 <= k < |slots| :: slots[k][0] != 0x00 && slots[k][0] != 0xE5 && slots[k][11] == 0x0F
  }

  lemma {:induction false} RunOfLfn(run: seq<Slot>, more: seq<Slot>, i: nat)
    requires IsRun(run) && i <= |run|
    ensures RunStart(run + more, i) == 0 && EntriesUpTo(run + more, i) == []
  {
    if i > 0 { RunOfLfn(run, more, i - 1); }
  }

  /** What a slot after a run lists: nothing, a deleted record, or a live one with the name the
      run gives it. */
  function AfterRun(run: seq<Slot>, s: Slot, at: nat): seq<DirEntry> {
    if IsLfn(s) then []
    else if IsDeleted(s) then [DecodeShort(s, at, None, true)]
    else [DecodeShort(s, at, LongName(PartsOf(run), RunChecksum(run), s[..11]), false)]
  }

  lemma OneRecord(run: seq<Slot>, s: Slot)
    requires IsRun(run) && !IsEnd(s) && !IsLiveLfn(s)
    ensures Entries(run + [s]) == AfterRun(run, s, |run|)
    ensures Complete(run + [s])
  {
    hide DecodeShort, LongName, PartsOf;
    var all, n := run + [s], |run|;
    EndOfWhole(all);
    RunOfLfn(run, [s], n);
    assert all[0..n] == run;
    OneMoreSlot(all, n);
    Seqs.Nil(Emit(all, n));
  }

  /** A long name written as numbered, checksummed slots, in any order, before its short
      record reads back as one record with that name. */
  lemma LongNameRoundTrip(units: seq<u16>, short: Slot, sum: u8, slots: seq<Slot>)
    requires IsLongName(units) && IsLiveShort(short) && IsShortChecksum(short[..11], sum)
    requires multiset(slots) == multiset(LfnSlots(units, sum))
    ensures Entries(slots + [short]) == [DecodeShort(short, |slots|, Some(Text.FromUtf16Lossy(units)), false)]
    ensures Complete(slots + [short])
  {
    hide Entries, LfnSlots, DecodeShort;
    ChecksumIsRunningSum(short[..11], sum);
    PermutedPartsSort(units, sum, slots);
    assert forall k | 0 <= k < |slots| :: slots[k] in slots;
    OneRecord(slots, short);
  }

  /** Cutting between the slots of a run and its record is where parsing stops composing:
      on its own the record falls back to the short name. */
  lemma CutRunRenames(units: seq<u16>, short: Slot, sum: u8)
    requires IsLongName(units) && IsLiveShort(short) && IsShortChecksum(short[..11], sum)
    requires Text.FromUtf16Lossy(units) != DecodeShort(short, 0, None, false).shortName
    ensures var run := LfnSlots(units, sum);
            Entries(run + [short]) != Entries(run) + ShiftAll(Entries([short]), |run|)
  {
    var run := LfnSlots(units, sum);
    LongNameRoundTrip(units, short, sum, run);
    AloneIsShort(short);
    hide Entries;
    var parts := Entries(run) + ShiftAll(Entries([short]), |run|);
    assert parts[|parts| - 1].name == DecodeShort(short, 0, None, false).name;
  }

  /** A live record with nothing before it has its short name. */
  lemma AloneIsShort(short: Slot)
    requires IsLiveShort(short)
    ensures Entries([short]) == [DecodeShort(short, 0, None, false)]
  {
    hide DecodeShort;
    assert EndOf([short]) == 1;
    assert EntriesUpTo([short], 1) == EntriesUpTo([short], 0) + Emit([short], 0);
    assert PendingChecksum([short], 0) == None;
  }

  // ----- A whole directory -----

  /** What stands in a directory: a record under its long name, bound by its checksum; a record with no long-name slots
      before it, or with slots of another checksum; or a deleted slot, record or long-name slot,
      after any live long-name slots. */
  datatype Item =
    | Long(name: string, short: Slot, sum: u8)
    | Short(run: seq<Slot>, short: Slot)
    | Removed(run: seq<Slot>, slot: Slot)

  predicate CleanName(s: string) { forall i | 0 <= i < |s| :: s[i] as int != 0 && s[i] as int != 0xFFFF }

  /** A name that fits a long-name run. */
  predicate IsName(s: string) { CleanName(s) && 0 < |Text.ToUtf16(s)| <= 31 * 13 }

  ghost predicate IsItem(it: Item) {
    match it
    case Long(name, short, sum) => IsName(name) && IsLiveShort(short) && IsShortChecksum(short[..11], sum)
    case Short(run, short) =>
      IsRun(run) && IsLiveShort(short) && (run != [] ==> !IsShortChecksum(short[..11], run[|run| - 1][13]))
    case Removed(run, slot) => IsRun(run) && slot[0] == 0xE5
  }

  lemma {:induction false} UnitsOfName(s: string)
    requires CleanName(s)
    ensures Clean(Text.ToUtf16(s))
  {
    if s != [] { UnitsOfName(s[1..]); }
  }

  function EncodeItem(it: Item): (r: seq<Slot>)
    requires IsItem(it)
    ensures r != []
  {
    match it
    case Long(name, short, sum) =>
      UnitsOfName(name);
      LfnSlots(Text.ToUtf16(name), sum) + [short]
    case Short(run, short) => run + [short]
    case Removed(run, slot) => run + [slot]
  }

  /** What an item lists when its last slot is slot `at`. */
  function DecodedItem(it: Item, at: nat): seq<DirEntry> {
    match it
    case Long(name, short, _) => [DecodeShort(short, at, Some(name), false)]
    case Short(_, short) => [DecodeShort(short, at, None, false)]
    case Removed(_, slot) => if slot[11] == 0x0F then [] else [DecodeShort(slot, at, None, true)]
  }

  /** An item written at the start of a directory lists what it decodes to. */
  lemma ItemRoundTrip(it: Item)
    requires IsItem(it)
    ensures Entries(EncodeItem(it)) == DecodedItem(it, |EncodeItem(it)| - 1)
    ensures Complete(EncodeItem(it))
  {
    hide Entries, DecodeShort, LfnSlots, Complete, LongName, PartsOf, RunChecksum;
    match it
    case Long(name, short, sum) =>
      UnitsOfName(name);
      var units := Text.ToUtf16(name);
      LongNameRoundTrip(units, short, sum, LfnSlots(units, sum));
      Text.Utf16RoundTrip(name);
    case Short(run, short) =>
      OneRecord(run, short);
      NoNameAfter(run, short);
    case Removed(run, slot) => OneRecord(run, slot);
  }

  lemma NoNameAfter(run: seq<Slot>, short: Slot)
    requires run != [] ==> !IsShortChecksum(short[..11], run[|run| - 1][13])
    ensures LongName(PartsOf(run), RunChecksum(run), short[..11]) == None
  {
    if run != [] { ChecksumIsRunningSum(short[..11], run[|run| - 1][13]); }
  }

  lemma DecodedItemShift(it: Item, at: nat, dist: nat)
    ensures ShiftAll(DecodedItem(it, at), dist) == DecodedItem(it, dist + at)
  {
    hide DecodeShort;
    match it
    case Long(name, short, _) => DecodeShortShift(short, at, dist, Some(name), false);
    case Short(_, short) => DecodeShortShift(short, at, dist, None, false);
    case Removed(_, slot) => DecodeShortShift(slot, at, dist, None, true);
  }

  lemma CompleteConcat(a: seq<Slot>, b: seq<Slot>)
    requires Complete(a) && Complete(b) && b != []
    ensures Complete(a + b)
  {}

  lemma ItemAfter(before: seq<Slot>, it: Item)
    requires Complete(before) && IsItem(it)
    ensures var slots := before + EncodeItem(it);
            Complete(slots) && Entries(slots) == Entries(before) + DecodedItem(it, |slots| - 1)
  {
    hide Entries, Complete, DecodedItem, EncodeItem, ShiftAll;
    ItemRoundTrip(it);
    SlotsCompose(before, EncodeItem(it));
    DecodedItemShift(it, |EncodeItem(it)| - 1, |before|);
    CompleteConcat(before, EncodeItem(it));
  }

  /** Wherever nothing is pending, a written item is listed between what stands before it and what
      follows, whatever that is. */
  lemma ItemIsListed(before: seq<Slot>, it: Item, after: seq<Slot>)
    requires Complete(before) && IsItem(it)
    ensures var n := |before + EncodeItem(it)|;
            Entries(before + EncodeItem(it) + after) ==
            Entries(before) + DecodedItem(it, n - 1) + ShiftAll(Entries(after), n)
  {
    hide Entries, Complete, DecodedItem, EncodeItem, ShiftAll;
    ItemAfter(before, it);
    SlotsCompose(before + EncodeItem(it), after);
  }

  ghost predicate AllItems(items: seq<Item>) { forall k | 0 <= k < |items| :: IsItem(items[k]) }

  function EncodeDir(items: seq<Item>): seq<Slot>
    requires AllItems(items)
  {
    if items == [] then [] else EncodeDir(items[..|items| - 1]) + EncodeItem(items[|items| - 1])
  }

  /** What the directory lists: the items' records, each at its own slot. */
  function Decoded(items: seq<Item>): (r: seq<DirEntry>)
    requires AllItems(items)
  {
    if items == [] then []
    else Decoded(items[..|items| - 1]) + DecodedItem(items[|items| - 1], |EncodeDir(items)| - 1)
  }

  lemma NothingWritten()
    ensures Entries([]) == [] && Complete([])
  {}

  lemma {:induction false} DirectorySlots(items: seq<Item>)
    requires AllItems(items)
    ensures Entries(EncodeDir(items)) == Decoded(items)
    ensures Complete(EncodeDir(items))
  {
    hide Entries, Complete, DecodedItem, EncodeItem;
    if items == [] {
      NothingWritten();
    } else {
      var init := items[..|items| - 1];
      DirectorySlots(init);
      ItemAfter(EncodeDir(init), items[|items| - 1]);
    }
  }

  /** Nothing but long-name slots before the end. */
  predicate IsTail(after: seq<Slot>) {
    forall i | 0 <= i < |after| && (forall j | 0 <= j <= i :: after[j][0] != 0x00) :: after[i][11] == 0x0F
  }

  lemma {:induction false} TailListsNothing(after: seq<Slot>, n: nat)
    requires IsTail(after) && n <= EndOf(after)
    ensures EntriesUpTo(after, n) == []
  {
    hide IsTail, EntryAt, EntriesUpTo;
    if n > 0 {
      TailListsNothing(after, n - 1);
      TailSlot(after, n - 1);
      OneMoreSlot(after, n - 1);
    } else {
      NoneYet(after);
    }
  }

  lemma NoneYet(slots: seq<Slot>)
    ensures EntriesUpTo(slots, 0) == []
  {}

  lemma TailSlot(after: seq<Slot>, i: nat)
    requires IsTail(after) && i < EndOf(after)
    ensures IsLfn(after[i])
  {
    assert forall j | 0 <= j <= i :: !IsEnd(after[j]);
  }

  /** Any directory of items, written out and followed by nothing, by an end marker with anything
      behind it, or by stray long-name slots before either, parses back to the items' records. */
  lemma DirectoryRoundTrip(items: seq<Item>, after: seq<Slot>)
    requires AllItems(items) && IsTail(after)
    ensures Entries(SlotsOf(Flatten(EncodeDir(items) + after))) == Decoded(items)
  {
    SlotsOfFlatten(EncodeDir(items) + after);
    DirectorySlots(items);
    TailListsNothing(after, EndOf(after));
    hide EntriesUpTo, Complete;
    SlotsCompose(EncodeDir(items), after);
    NothingShifted(|EncodeDir(items)|);
    Seqs.Nil(Decoded(items));
  }

  lemma NothingShifted(dist: nat)
    ensures ShiftAll([], dist) == []
  {}
}
