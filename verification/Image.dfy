/** The image behind a seekable reader that may split any read into smaller ones. */
module Image {
  import opened Bytes
  import opened Wrappers

  /** The bytes a read of `len` at `off` can deliver: cut short where the image ends. */
  function Window(image: seq<u8>, off: nat, len: nat): (w: seq<u8>)
    ensures |w| <= len
  {
    if off >= |image| then [] else image[off..Min(off + len, |image|)]
  }

  /** `w` has been written into `orig` at `lo`. */
  ghost predicate Wrote(orig: seq<u8>, lo: nat, w: seq<u8>, now: seq<u8>) {
    lo + |w| <= |orig| && now == orig[..lo] + w + orig[lo + |w|..]
  }

  lemma NothingWrote(orig: seq<u8>, lo: nat)
    requires lo <= |orig|
    ensures Wrote(orig, lo, [], orig)
  {}

  lemma NothingRead(orig: seq<u8>, lo: nat, w: seq<u8>, now: seq<u8>)
    requires w == [] && lo <= |orig| && now == orig[..lo] + w + orig[lo..]
    ensures now == orig
  {}

  lemma ReadWrote(orig: seq<u8>, lo: nat, w: seq<u8>, now: seq<u8>)
    requires lo + |w| <= |orig| && now == orig[..lo] + w + orig[lo + |w|..]
    ensures Wrote(orig, lo, w, now)
  {}

  lemma WroteAll(orig: seq<u8>, lo: nat, w: seq<u8>, now: seq<u8>)
    requires Wrote(orig, lo, w, now)
    ensures lo + |w| <= |orig| && now == orig[..lo] + w + orig[lo + |w|..]
  {}

  lemma WroteOn(orig: seq<u8>, lo: nat, w: seq<u8>, before: seq<u8>, more: seq<u8>, after: seq<u8>)
    requires Wrote(orig, lo, w, before) && Wrote(before, lo + |w|, more, after)
    ensures Wrote(orig, lo, w + more, after)
  {}

  /** A read that goes on where filling stopped fills further. */
  lemma FillOn(image: seq<u8>, orig: seq<u8>, lo: nat, off: nat, w: seq<u8>, before: seq<u8>, n: nat, after: seq<u8>)
    requires w == Window(image, off, |w|) && Wrote(orig, lo, w, before) && off + |w| + n <= |image|
    requires var more := Window(image, off + |w|, n);
             lo + |w| + |more| <= |before| && after == before[..lo + |w|] + more + before[lo + |w| + |more|..]
    ensures var more := Window(image, off + |w|, n);
            |more| == n && w + more == Window(image, off, |w| + n) && Wrote(orig, lo, w + more, after)
  {
    hide Wrote;
    var more := Window(image, off + |w|, n);
    ReadWrote(before, lo + |w|, more, after);
    WindowOn(image, off, |w|, n);
    WroteOn(orig, lo, w, before, more, after);
  }

  /** Writing `w` just after `got` in a buffer extends what has been written by `w`. */
  lemma WriteOn(orig: seq<u8>, got: seq<u8>, before: seq<u8>, w: seq<u8>, after: seq<u8>)
    requires |got| + |w| <= |orig| && before == got + orig[|got|..]
    requires after == before[..|got|] + w + before[|got| + |w|..]
    ensures after == (got + w) + orig[|got + w|..]
  {}

  lemma WindowLength(image: seq<u8>, off: nat, len: nat)
    ensures |Window(image, off, len)| == if off >= |image| then 0 else Min(len, |image| - off)
  {}

  lemma WindowOn(image: seq<u8>, off: nat, a: nat, b: nat)
    requires a == 0 || off + a <= |image|
    ensures Window(image, off, a + b) == Window(image, off, a) + Window(image, off + a, b)
  {}

  class Reader {
    const image: seq<u8>
    var pos: nat

    constructor (image: seq<u8>)
      ensures this.image == image
    {
      this.image := image;
      pos := 0;
    }

    method Seek(offset: nat)
      modifies this
      ensures pos == offset
    {
      pos := offset;
    }

    /** One read into buf[lo..hi]: some bytes, as few as one, and none only at the end of the
        image or for an empty request. How many is the reader's choice. */
    method Read(buf: array<u8>, lo: nat, hi: nat) returns (n: nat)
      requires lo <= hi <= buf.Length
      modifies this, buf
      ensures n <= hi - lo && pos == old(pos) + n
      ensures n == 0 <==> lo == hi || old(pos) >= |image|
      ensures n > 0 ==> pos <= |image|
      ensures buf[..] == old(buf[..lo]) + Window(image, old(pos), n) + old(buf[lo + n..])
    {
      if lo == hi || pos >= |image| {
        n := 0;
      } else {
        var most := Min(hi - lo, |image| - pos);
        n :| 1 <= n <= most;
        forall i | lo <= i < lo + n {
          buf[i] := image[pos + i - lo];
        }
        pos := pos + n;
      }
    }

    /** Keep reading until buf[lo..hi] is full or the image ends. */
    method ReadFill(buf: array<u8>, lo: nat, hi: nat) returns (filled: nat)
      requires lo <= hi <= buf.Length
      modifies this, buf
      ensures filled == |Window(image, old(pos), hi - lo)|
      ensures buf[..] == old(buf[..lo]) + Window(image, old(pos), hi - lo) + old(buf[lo + filled..])
    {
      hide Window, Wrote;
      WindowLength(image, pos, 0);
      filled := 0;
      ghost var orig, w: seq<u8> := buf[..], [];
      NothingWrote(orig, lo);
      while filled < hi - lo
        invariant filled <= hi - lo && pos == old(pos) + filled && (filled > 0 ==> pos <= |image|)
        invariant w == Window(image, old(pos), filled) && |w| == filled
        invariant Wrote(orig, lo, w, buf[..])
      {
        ghost var before, at := buf[..], pos;
        var n := Read(buf, lo + filled, hi);
        WindowLength(image, at, n);
        if n == 0 {
          NothingRead(before, lo + filled, Window(image, at, n), buf[..]);
          break;
        }
        FillOn(image, orig, lo, old(pos), w, before, n, buf[..]);
        w := w + Window(image, at, n);
        filled := filled + n;
      }
      WindowOn(image, old(pos), filled, hi - lo - filled);
      WindowLength(image, old(pos) + filled, hi - lo - filled);
      assert Window(image, old(pos) + filled, hi - lo - filled) == [];
      WroteAll(orig, lo, w, buf[..]);
    }

    /** Seek, then fill: read up to `hi - lo` bytes at `offset` into buf[lo..hi]. */
    method ReadRegion(offset: nat, buf: array<u8>, lo: nat, hi: nat) returns (n: nat)
      requires lo <= hi <= buf.Length
      modifies this, buf
      ensures n == |Window(image, offset, hi - lo)|
      ensures buf[..] == old(buf[..lo]) + Window(image, offset, hi - lo) + old(buf[lo + n..])
    {
      Seek(offset);
      n := ReadFill(buf, lo, hi);
    }

    /** Read up to `len` bytes at `offset` into a fresh buffer, cut to what was read. */
    method ReadUpto(offset: nat, len: nat) returns (data: seq<u8>)
      modifies this
      ensures data == Window(image, offset, len)
    {
      var buf := new u8[len](_ => 0);
      var n := ReadRegion(offset, buf, 0, len);
      data := buf[..n];
    }

    /** Read exactly `len` bytes, failing at the end of the image. */
    method ReadExact(offset: nat, len: nat) returns (r: Result<seq<u8>>)
      modifies this
      ensures r == if offset + len <= |image| || len == 0 then Ok(Window(image, offset, len)) else Err(Io)
    {
      var data := ReadUpto(offset, len);
      if |data| < len { return Err(Io); }
      return Ok(data);
    }
  }
}
