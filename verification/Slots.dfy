/** A directory's bytes as whole 32-byte slots; a short tail is dropped. */
module Slots {
  import opened Bytes

  type Slot = s: seq<u8> | |s| == 32 witness seq(32, _ => 0)

  function SlotCount(data: seq<u8>): nat { |data| / 32 }

  function SlotAt(data: seq<u8>, i: nat): (s: Slot)
    requires i < SlotCount(data)
  {
    data[32 * i..32 * i + 32]
  }

  /** chunks_exact(32) as a value. */
  function SlotsOf(data: seq<u8>): (r: seq<Slot>)
    ensures |r| == SlotCount(data)
  {
    seq(SlotCount(data), i requires 0 <= i < SlotCount(data) => SlotAt(data, i))
  }

  function Flatten(slots: seq<Slot>): (data: seq<u8>)
    ensures |data| == 32 * |slots|
  {
    if slots == [] then [] else Flatten(slots[..|slots| - 1]) + slots[|slots| - 1]
  }

  /** Cutting laid-out slots apart gives them back. */
  lemma {:induction false} SlotsOfFlatten(slots: seq<Slot>)
    ensures SlotsOf(Flatten(slots)) == slots
  {
    if slots != [] {
      var n := |slots| - 1;
      var data, init := Flatten(slots), Flatten(slots[..n]);
      SlotsOfFlatten(slots[..n]);
      forall i | 0 <= i < |slots| ensures SlotAt(data, i) == slots[i] {
        if i < n {
          assert SlotAt(init, i) == SlotsOf(init)[i] == slots[i];
          assert data[32 * i..32 * i + 32] == init[32 * i..32 * i + 32];
        }
      }
    }
  }

  lemma SlotInConcat(a: seq<u8>, b: seq<u8>, i: nat)
    requires |a| % 32 == 0 && i < SlotCount(a + b)
    ensures i < SlotCount(a) ==> SlotAt(a + b, i) == SlotAt(a, i)
    ensures i >= SlotCount(a) ==> SlotAt(a + b, i) == SlotAt(b, i - SlotCount(a))
  {
    var n := SlotCount(a);
    if i < n {
      assert (a + b)[32 * i..32 * i + 32] == a[32 * i..32 * i + 32];
    } else {
      SliceOfSecond(a, b, 32 * (i - n));
    }
  }

  lemma SliceOfSecond(a: seq<u8>, b: seq<u8>, from: nat)
    requires from + 32 <= |b|
    ensures (a + b)[|a| + from..|a| + from + 32] == b[from..from + 32]
  {}

  /** Whole slots before other bytes are cut off on their own. */
  lemma SlotsOfConcat(a: seq<u8>, b: seq<u8>)
    requires |a| % 32 == 0
    ensures SlotsOf(a + b) == SlotsOf(a) + SlotsOf(b)
  {
    hide SlotAt;
    var n := SlotCount(a);
    assert SlotCount(a + b) == n + SlotCount(b);
    forall i | 0 <= i < SlotCount(a + b) ensures SlotsOf(a + b)[i] == (SlotsOf(a) + SlotsOf(b))[i] {
      SlotInConcat(a, b, i);
    }
  }

  /** The 16-bit slot index kept in a handle saturates. */
  function IndexOf(slot: nat): u16 { Min(slot, U16_MAX) }
}
