/** Names: UTF-16 code units on disk, Unicode strings in memory, UTF-8 at the caller. */
module Text {
  import opened Bytes

  const REPLACEMENT: char := '\U{FFFD}'

  predicate IsHigh(u: u16) { 0xD800 <= u < 0xDC00 }
  predicate IsLow(u: u16) { 0xDC00 <= u < 0xE000 }

  /** Decode code units; a surrogate without its partner becomes U+FFFD. */
  function FromUtf16Lossy(units: seq<u16>): string {
    if units == [] then []
    else if IsHigh(units[0]) && |units| > 1 && IsLow(units[1]) then
      [(0x1_0000 + (units[0] as int - 0xD800) * 0x400 + units[1] as int - 0xDC00) as char] + FromUtf16Lossy(units[2..])
    else if IsHigh(units[0]) || IsLow(units[0]) then [REPLACEMENT] + FromUtf16Lossy(units[1..])
    else [units[0] as char] + FromUtf16Lossy(units[1..])
  }

  function Utf16Of(c: char): seq<u16> {
    var x := c as int;
    if x < 0x1_0000 then [x] else [0xD800 + (x - 0x1_0000) / 0x400, 0xDC00 + (x - 0x1_0000) % 0x400]
  }

  function ToUtf16(s: string): seq<u16> {
    if s == [] then [] else Utf16Of(s[0]) + ToUtf16(s[1..])
  }

  /** Every string survives the round trip through its code units. */
  lemma {:induction false} Utf16RoundTrip(s: string)
    ensures FromUtf16Lossy(ToUtf16(s)) == s
  {
    if s != [] {
      Utf16RoundTrip(s[1..]);
      var u, rest := Utf16Of(s[0]), ToUtf16(s[1..]);
      assert (u + rest)[|u|..] == rest;
      assert s == [s[0]] + s[1..];
      assert (u + rest)[0] == u[0];
      if |u| == 2 { assert (u + rest)[1] == u[1]; }
    }
  }

  function Utf8Of(c: char): (r: seq<u8>)
    ensures 1 <= |r| <= 4
  {
    var x := c as int;
    if x < 0x80 then [x]
    else if x < 0x800 then [0xC0 + x / 0x40, 0x80 + x % 0x40]
    else if x < 0x1_0000 then [0xE0 + x / 0x1000, 0x80 + x / 0x40 % 0x40, 0x80 + x % 0x40]
    else [0xF0 + x / 0x4_0000, 0x80 + x / 0x1000 % 0x40, 0x80 + x / 0x40 % 0x40, 0x80 + x % 0x40]
  }

  /** The bytes of a name, as lookup compares them. */
  function ToUtf8(s: string): seq<u8> {
    if s == [] then [] else Utf8Of(s[0]) + ToUtf8(s[1..])
  }

  /** The first byte gives the length of a character's code, so no code is cut short by another. */
  lemma Utf8PrefixFree(a: char, b: char, x: seq<u8>, y: seq<u8>)
    requires Utf8Of(a) + x == Utf8Of(b) + y
    ensures a == b && x == y
  {
    var p, q := Utf8Of(a), Utf8Of(b);
    assert (p + x)[0] == (q + y)[0];
    assert |p| == |q|;
    assert p == (p + x)[..|p|] && q == (q + y)[..|q|];
    assert x == (p + x)[|p|..] && y == (q + y)[|q|..];
    assert forall i | 0 <= i < |p| :: p[i] == q[i];
    SameCode(a, b);
  }

  lemma SameCode(a: char, b: char)
    requires Utf8Of(a) == Utf8Of(b)
    ensures a == b
  {
    var x, y := a as int, b as int;
    var p, q := Utf8Of(a), Utf8Of(b);
    assert p[0] == q[0];
    if |p| == 2 { assert p[1] == q[1]; }
    if |p| == 3 {
      assert p[1] == q[1] && p[2] == q[2];
      assert x / 0x40 / 0x40 == x / 0x1000 && y / 0x40 / 0x40 == y / 0x1000;
    }
    if |p| == 4 {
      assert p[1] == q[1] && p[2] == q[2] && p[3] == q[3];
      assert x / 0x40 / 0x40 == x / 0x1000 && y / 0x40 / 0x40 == y / 0x1000;
      assert x / 0x1000 / 0x40 == x / 0x4_0000 && y / 0x1000 / 0x40 == y / 0x4_0000;
    }
    assert x == y;
  }

  /** Comparing names as UTF-8 bytes is comparing the names. */
  lemma {:induction false} Utf8Injective(a: string, b: string)
    requires ToUtf8(a) == ToUtf8(b)
    ensures a == b
  {
    if a != [] && b != [] {
      Utf8PrefixFree(a[0], b[0], ToUtf8(a[1..]), ToUtf8(b[1..]));
      Utf8Injective(a[1..], b[1..]);
      assert a == [a[0]] + a[1..] && b == [b[0]] + b[1..];
    }
  }

  // ----- The codes bit by bit -----

  /** These bytes are the UTF-8 code of x: the lead byte gives the length and the top bits, each
      other byte, 0x80 to 0xBF, six more; the shortest code that fits. */
  predicate IsUtf8(b: seq<u8>, x: nat) {
    && (forall i | 0 < i < |b| :: 0x80 <= b[i] <= 0xBF)
    && if x < 0x80 then |b| == 1 && b[0] == x
       else if x < 0x800 then |b| == 2 && x == (b[0] as int - 0xC0) * 64 + b[1] as int - 0x80
       else if x < 0x1_0000 then
         |b| == 3 && x == (b[0] as int - 0xE0) * 4096 + (b[1] as int - 0x80) * 64 + b[2] as int - 0x80
       else
         |b| == 4 && x == (b[0] as int - 0xF0) * 262_144 + (b[1] as int - 0x80) * 4096
                            + (b[2] as int - 0x80) * 64 + b[3] as int - 0x80
  }

  lemma Utf8IsStandard(c: char)
    ensures IsUtf8(Utf8Of(c), c as int)
  {
    var x := c as int;
    assert x / 0x1000 == x / 0x40 / 0x40 && x / 0x4_0000 == x / 0x40 / 0x40 / 0x40;
  }

  /** These units are the UTF-16 code of x: itself, or a high and a low surrogate of ten bits each. */
  predicate IsUtf16(u: seq<u16>, x: nat) {
    if x < 0x1_0000 then u == [x]
    else
      && |u| == 2 && 0xD800 <= u[0] <= 0xDBFF && 0xDC00 <= u[1] <= 0xDFFF
      && x == 0x1_0000 + (u[0] as int - 0xD800) * 1024 + u[1] as int - 0xDC00
  }

  lemma Utf16IsStandard(c: char)
    ensures IsUtf16(Utf16Of(c), c as int)
  {}

  /** The name of a string in code units or bytes is that of its characters in order. */
  lemma CodesInOrder(s: string)
    requires s != []
    ensures ToUtf16(s) == Utf16Of(s[0]) + ToUtf16(s[1..]) && ToUtf8(s) == Utf8Of(s[0]) + ToUtf8(s[1..])
    ensures ToUtf16([]) == [] && ToUtf8([]) == []
  {}

  predicate IsSurrogate(u: u16) { 0xD800 <= u <= 0xDFFF }

  /** A character's code decodes to it, whatever follows. */
  lemma DecodeCons(c: char, tail: seq<u16>)
    ensures FromUtf16Lossy(Utf16Of(c) + tail) == [c] + FromUtf16Lossy(tail)
  {
    var code := Utf16Of(c);
    assert (code + tail)[|code|..] == tail && (code + tail)[0] == code[0];
    if |code| == 2 { assert (code + tail)[1] == code[1]; }
  }

  lemma LoneFirst(u: u16, b: string)
    requires IsSurrogate(u)
    ensures FromUtf16Lossy([u] + ToUtf16(b)) == ['\U{FFFD}'] + b
  {
    Utf16RoundTrip(b);
    var rest := [u] + ToUtf16(b);
    assert rest[1..] == ToUtf16(b);
    if b != [] { assert rest[1] == ToUtf16(b)[0] == Utf16Of(b[0])[0]; }
  }

  /** A surrogate between two names that pairs with neither neighbour decodes to U+FFFD. */
  lemma {:induction false} LoneSurrogate(a: string, u: u16, b: string)
    requires IsSurrogate(u)
    ensures FromUtf16Lossy(ToUtf16(a) + ([u] + ToUtf16(b))) == a + (['\U{FFFD}'] + b)
  {
    hide FromUtf16Lossy, Utf16Of, IsSurrogate;
    if a == [] {
      LoneFirst(u, b);
      assert ToUtf16(a) + ([u] + ToUtf16(b)) == [u] + ToUtf16(b);
    } else {
      LoneSurrogate(a[1..], u, b);
      var tail := ToUtf16(a[1..]) + ([u] + ToUtf16(b));
      assert ToUtf16(a) + ([u] + ToUtf16(b)) == Utf16Of(a[0]) + tail;
      DecodeCons(a[0], tail);
      assert a == [a[0]] + a[1..];
    }
  }
}
