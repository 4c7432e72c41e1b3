/** Fixed-width integers and the little-endian readers over untrusted bytes.
    A reader yields 0 when its window does not fit in the data. */
module Bytes {
  type u8 = x: int | 0 <= x < 0x100
  type u16 = x: int | 0 <= x < 0x1_0000
  type u32 = x: int | 0 <= x < 0x1_0000_0000
  type u64 = x: int | 0 <= x < 0x1_0000_0000_0000_0000

  const U16_MAX: u16 := 0xFFFF
  const U32_MAX: u32 := 0xFFFF_FFFF

  function Min(a: int, b: int): (m: int)
    ensures m == a || m == b
    ensures m <= a && m <= b
  {
    if a <= b then a else b
  }

  function U8At(data: seq<u8>, off: nat): u8 {
    if off < |data| then data[off] else 0
  }

  function LeU16(data: seq<u8>, off: nat): u16 {
    if off + 2 <= |data| then data[off] as int + data[off + 1] as int * 0x100 else 0
  }

  function LeU32(data: seq<u8>, off: nat): u32 {
    if off + 4 <= |data| then LeU16(data, off) as int + LeU16(data, off + 2) as int * 0x1_0000 else 0
  }

  function LeU64(data: seq<u8>, off: nat): u64 {
    if off + 8 <= |data| then LeU32(data, off) as int + LeU32(data, off + 4) as int * 0x1_0000_0000 else 0
  }

  function Zeros(n: nat): (r: seq<u8>)
    ensures |r| == n
  {
    seq(n, _ => 0)
  }

  function ToLe16(x: u16): (s: seq<u8>)
    ensures |s| == 2 && LeU16(s, 0) == x
  {
    [x % 0x100, x / 0x100]
  }

  function ToLe32(x: u32): (s: seq<u8>)
    ensures |s| == 4 && LeU32(s, 0) == x
  {
    ToLe16(x % 0x1_0000) + ToLe16(x / 0x1_0000)
  }

  function ToLe64(x: u64): (s: seq<u8>)
    ensures |s| == 8 && LeU64(s, 0) == x
  {
    var s := ToLe32(x % 0x1_0000_0000) + ToLe32(x / 0x1_0000_0000);
    LeInside([], ToLe32(x % 0x1_0000_0000), ToLe32(x / 0x1_0000_0000));
    LeInside(ToLe32(x % 0x1_0000_0000), ToLe32(x / 0x1_0000_0000), []);
    s
  }

  /** A field laid between other bytes reads as it does on its own. */
  lemma LeInside(before: seq<u8>, field: seq<u8>, after: seq<u8>)
    ensures |field| == 2 ==> LeU16(before + field + after, |before|) == LeU16(field, 0)
    ensures |field| == 4 ==> LeU32(before + field + after, |before|) == LeU32(field, 0)
    ensures |field| == 8 ==> LeU64(before + field + after, |before|) == LeU64(field, 0)
  {
    var s := before + field + after;
    assert forall i | 0 <= i < |field| :: s[|before| + i] == field[i];
  }

  /** A sequence longer than the range its values come from repeats one. */
  lemma Pigeonhole(s: seq<int>, lo: int, hi: int)
    requires lo <= hi && forall x | x in s :: lo <= x < hi
    requires |s| > hi - lo
    ensures exists i, j :: 0 <= i < j < |s| && s[i] == s[j]
  {
    if forall i, j | 0 <= i < j < |s| :: s[i] != s[j] {
      DistinctCard(s);
      SubsetCard(Elements(s), Range(lo, hi));
      assert false;
    }
  }

  ghost function Elements<T>(s: seq<T>): set<T> { set x | x in s }

  ghost function Range(lo: int, hi: int): (r: set<int>)
    requires lo <= hi
    ensures forall x :: x in r <==> lo <= x < hi
    ensures |r| == hi - lo
    decreases hi - lo
  {
    if lo == hi then {} else Range(lo, hi - 1) + {hi - 1}
  }

  lemma {:induction false} SubsetCard<T>(a: set<T>, b: set<T>)
    requires a <= b
    ensures |a| <= |b|
  {
    if a != {} {
      var x :| x in a;
      SubsetCard(a - {x}, b - {x});
    }
  }

  lemma {:induction false} DistinctCard<T>(s: seq<T>)
    requires forall i, j | 0 <= i < j < |s| :: s[i] != s[j]
    ensures |Elements(s)| == |s|
  {
    if s != [] {
      var t := s[..|s| - 1];
      DistinctCard(t);
      assert Elements(s) == Elements(t) + {s[|s| - 1]};
    }
  }
}
