/** The rotate-right-and-add checksum, at 8 bits for VFAT short names and at 32 bits
    for the exFAT boot region. */
module Checksum {
  import opened Bytes

  /** Half the modulus: the value of the top bit of the accumulator. */
  type Half = h: int | h == 0x80 || h == 0x8000_0000 witness 0x80

  /** Rotate the accumulator right by one bit, then add a byte, wrapping. */
  function RotateAdd(h: Half, x: nat, b: u8): (r: nat)
    requires x < 2 * h
    ensures r < 2 * h
  {
    var sum := (if x % 2 == 1 then h else 0) + x / 2 + b;
    if sum < 2 * h then sum else sum - 2 * h
  }

  /** The checksum of the first `n` bytes, leaving out the positions in `skip`. */
  function Sum(h: Half, s: seq<u8>, n: nat, skip: set<nat>): (r: nat)
    requires n <= |s|
    ensures r < 2 * h
  {
    if n == 0 then 0
    else if n - 1 in skip then Sum(h, s, n - 1, skip)
    else RotateAdd(h, Sum(h, s, n - 1, skip), s[n - 1])
  }

  lemma RotateAddInjective(h: Half, x: nat, y: nat, b: u8, c: u8)
    requires x < 2 * h && y < 2 * h
    requires RotateAdd(h, x, b) == RotateAdd(h, y, c)
    requires x == y || b == c
    ensures x == y && b == c
  {
    var p, q := (if x % 2 == 1 then h else 0) + x / 2, (if y % 2 == 1 then h else 0) + y / 2;
    assert x == y <==> p == q;
  }

  /** Bytes at skipped positions do not matter. */
  lemma {:induction false} SkippedBytesDoNotMatter(h: Half, a: seq<u8>, b: seq<u8>, n: nat, skip: set<nat>)
    requires n <= |a| && n <= |b|
    requires forall i | 0 <= i < n && i !in skip :: a[i] == b[i]
    ensures Sum(h, a, n, skip) == Sum(h, b, n, skip)
  {
    if n > 0 { SkippedBytesDoNotMatter(h, a, b, n - 1, skip); }
  }

  /** Changing exactly one summed byte always changes the checksum. */
  lemma {:induction false} SingleByteChangesSum(h: Half, a: seq<u8>, b: seq<u8>, n: nat, skip: set<nat>, k: nat)
    requires k < n <= |a| && n <= |b| && k !in skip
    requires a[k] != b[k] && forall i | 0 <= i < n && i != k && i !in skip :: a[i] == b[i]
    ensures Sum(h, a, n, skip) != Sum(h, b, n, skip)
  {
    var x, y := Sum(h, a, n - 1, skip), Sum(h, b, n - 1, skip);
    if n - 1 == k {
      SkippedBytesDoNotMatter(h, a, b, n - 1, skip);
      if RotateAdd(h, x, a[k]) == RotateAdd(h, y, b[k]) { RotateAddInjective(h, x, y, a[k], b[k]); }
    } else {
      SingleByteChangesSum(h, a, b, n - 1, skip, k);
      if n - 1 !in skip && RotateAdd(h, x, a[n - 1]) == RotateAdd(h, y, b[n - 1]) {
        RotateAddInjective(h, x, y, a[n - 1], b[n - 1]);
      }
    }
  }

  /** The sum of the first `n` bytes as it goes on from the sum of the first `from`. */
  lemma {:induction false} SumGoesOn(h: Half, a: seq<u8>, b: seq<u8>, from: nat, n: nat)
    requires from <= n <= |a| == |b| && forall i | from <= i < n :: a[i] == b[i]
    ensures Sum(h, a, n, {}) == Sum(h, b, n, {}) <==> Sum(h, a, from, {}) == Sum(h, b, from, {})
  {
    if from < n {
      SumGoesOn(h, a, b, from, n - 1);
      var x, y := Sum(h, a, n - 1, {}), Sum(h, b, n - 1, {});
      if RotateAdd(h, x, a[n - 1]) == RotateAdd(h, y, b[n - 1]) {
        RotateAddInjective(h, x, y, a[n - 1], b[n - 1]);
      }
    }
  }

  /** At 8 bits exactly one next byte leads from a sum to a given sum. */
  function Reaching(x: u8, target: u8): (b: u8)
    ensures RotateAdd(0x80, x, b) == target
    ensures forall c: u8 | RotateAdd(0x80, x, c) == target :: c == b
  {
    var rotated := (if x % 2 == 1 then 0x80 else 0) + x / 2;
    if target >= rotated then target - rotated else target + 0x100 - rotated
  }

  /** Bytes k and k + 1 replaced. */
  function Changed(a: seq<u8>, k: nat, x: u8, z: u8): (r: seq<u8>)
    requires k + 1 < |a|
    ensures |r| == |a|
  {
    a[k := x][k + 1 := z]
  }

  /** At 8 bits every change of one byte is cancelled by exactly one change of the next. */
  lemma NextByteCancels(a: seq<u8>, n: nat, k: nat, x: u8) returns (y: u8)
    requires k + 1 < n <= |a| && x != a[k]
    ensures y != a[k + 1]
    ensures forall z: u8 :: Sum(0x80, Changed(a, k, x, z), n, {}) == Sum(0x80, a, n, {}) <==> z == y
  {
    var b := a[k := x];
    var was, now := Sum(0x80, a, k + 1, {}), Sum(0x80, b, k + 1, {});
    SingleByteChangesSum(0x80, a, b, k + 1, {}, k);
    y := Reaching(now, Sum(0x80, a, k + 2, {}));
    if y == a[k + 1] { RotateAddInjective(0x80, was, now, y, y); }
    forall z: u8 ensures Sum(0x80, Changed(a, k, x, z), n, {}) == Sum(0x80, a, n, {}) <==> z == y {
      var c := Changed(a, k, x, z);
      SumGoesOn(0x80, c, a, k + 2, n);
      SkippedBytesDoNotMatter(0x80, b, c, k + 1, {});
      assert Sum(0x80, c, k + 2, {}) == RotateAdd(0x80, now, z);
    }
  }

  // ----- The value of the sum, step by step -----

  /** The running sums over some bytes: 0 before the first; after a skipped byte the sum before it;
      after any other half the sum before, its odd bit carried to the top, plus the byte, in a
      register that holds 0 to 2 * half - 1. */
  ghost predicate AreRunningSums(half: nat, s: seq<u8>, skip: set<nat>, sums: seq<nat>)
    requires half > 0
  {
    && |sums| == |s| + 1 && sums[0] == 0
    && forall i | 0 <= i < |s| ::
         sums[i + 1] == if i in skip then sums[i] else (sums[i] / 2 + half * (sums[i] % 2) + s[i]) % (2 * half)
  }

  ghost predicate IsSumOf(half: nat, s: seq<u8>, skip: set<nat>, sum: nat)
    requires half > 0
  {
    exists sums :: AreRunningSums(half, s, skip, sums) && sums[|s|] == sum
  }

  lemma RotateAddStep(h: Half, x: nat, b: u8)
    requires x < 2 * h
    ensures RotateAdd(h, x, b) == (x / 2 + h * (x % 2) + b) % (2 * h)
  {
    assert h == 0x80 || h == 0x8000_0000;
  }

  lemma {:induction false} RunningSumsAre(h: Half, s: seq<u8>, skip: set<nat>, sums: seq<nat>, i: nat)
    requires AreRunningSums(h, s, skip, sums) && i <= |s|
    ensures sums[i] == Sum(h, s, i, skip)
  {
    if i > 0 {
      RunningSumsAre(h, s, skip, sums, i - 1);
      RotateAddStep(h, Sum(h, s, i - 1, skip), s[i - 1]);
      assert sums[i - 1 + 1] == sums[i];
    }
  }

  /** The computed sum is the last running sum. */
  lemma SumIsLastRunning(h: Half, s: seq<u8>, skip: set<nat>, sum: nat)
    ensures IsSumOf(h, s, skip, sum) <==> sum == Sum(h, s, |s|, skip)
  {
    if IsSumOf(h, s, skip, sum) {
      var sums :| AreRunningSums(h, s, skip, sums) && sums[|s|] == sum;
      RunningSumsAre(h, s, skip, sums, |s|);
    }
    var sums := seq(|s| + 1, i requires 0 <= i <= |s| => Sum(h, s, i, skip));
    forall i | 0 <= i < |s|
      ensures sums[i + 1] == if i in skip then sums[i] else (sums[i] / 2 + h * (sums[i] % 2) + s[i]) % (2 * h)
    {
      RotateAddStep(h, Sum(h, s, i, skip), s[i]);
    }
    assert AreRunningSums(h, s, skip, sums);
  }
}
