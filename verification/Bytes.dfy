/** Big-endian integers inside byte strings. */
module Bytes {
  import opened Bits

  /** The big-endian value of a byte string: `from_be_bytes` at any width. */
  function BE(s: seq<byte>): nat {
    if |s| == 0 then 0
    else
      var k := |s| - 1;
      BE(s[..k]) * 256 + s[k]
  }

  lemma {:induction false} BEBound(s: seq<byte>)
    ensures BE(s) < Pow2(8 * |s|)
  {
    if |s| != 0 {
      var k := |s| - 1;
      BEBound(s[..k]);
      Pow2Add(8 * k, 8);
      Pow2Small();
    }
  }

  /** The `n`-byte big-endian encoding: `to_be_bytes`. */
  function ToBE(v: nat, n: nat): (s: seq<byte>)
    ensures |s| == n
  {
    if n == 0 then [] else ToBE(v / 256, n - 1) + [v % 256]
  }

  lemma {:induction false} DecodeEncode(v: nat, n: nat)
    requires v < Pow2(8 * n)
    ensures BE(ToBE(v, n)) == v
  {
    if n != 0 {
      Pow2Add(8 * (n - 1), 8);
      Pow2Small();
      DecodeEncode(v / 256, n - 1);
      assert ToBE(v, n)[..n - 1] == ToBE(v / 256, n - 1);
    }
  }

  lemma {:induction false} EncodeDecode(s: seq<byte>)
    ensures ToBE(BE(s), |s|) == s
  {
    if |s| != 0 {
      var k := |s| - 1;
      EncodeDecode(s[..k]);
      assert BE(s) / 256 == BE(s[..k]) && BE(s) % 256 == s[k];
      assert s == s[..k] + [s[k]];
    }
  }

  lemma WordBound(s: seq<byte>)
    ensures |s| == 2 ==> BE(s) < U16_LIMIT
    ensures |s| == 4 ==> BE(s) < U32_LIMIT
    ensures |s| == 8 ==> BE(s) < U64_LIMIT
  {
    BEBound(s);
    Pow2Values();
  }

  // The bounds-checked field readers: out of range reads as zero.

  function BeU16(data: seq<byte>, off: nat): u16 {
    if off + 2 <= |data| then
      WordBound(data[off..off + 2]);
      BE(data[off..off + 2])
    else 0
  }

  function BeU32(data: seq<byte>, off: nat): u32 {
    if off + 4 <= |data| then
      WordBound(data[off..off + 4]);
      BE(data[off..off + 4])
    else 0
  }

  function BeU64(data: seq<byte>, off: nat): u64 {
    if off + 8 <= |data| then
      WordBound(data[off..off + 8]);
      BE(data[off..off + 8])
    else 0
  }

  // A field that lies inside a prefix reads the same from the longer byte string.

  lemma PrefixU16(data: seq<byte>, n: nat, off: nat)
    requires off + 2 <= n <= |data|
    ensures BeU16(data[..n], off) == BeU16(data, off)
  {
    assert data[..n][off..off + 2] == data[off..off + 2];
  }

  lemma PrefixU32(data: seq<byte>, n: nat, off: nat)
    requires off + 4 <= n <= |data|
    ensures BeU32(data[..n], off) == BeU32(data, off)
  {
    assert data[..n][off..off + 4] == data[off..off + 4];
  }

  lemma PrefixU64(data: seq<byte>, n: nat, off: nat)
    requires off + 8 <= n <= |data|
    ensures BeU64(data[..n], off) == BeU64(data, off)
  {
    assert data[..n][off..off + 8] == data[off..off + 8];
  }

  // A field that holds an encoded word reads back as that word.

  lemma HalfAt(h: seq<byte>, off: nat, v: u16)
    requires off + 2 <= |h| && h[off..off + 2] == ToBE(v, 2)
    ensures BeU16(h, off) == v
  {
    Pow2Values();
    DecodeEncode(v, 2);
  }

  lemma WordAt(h: seq<byte>, off: nat, v: u32)
    requires off + 4 <= |h| && h[off..off + 4] == ToBE(v, 4)
    ensures BeU32(h, off) == v
  {
    Pow2Values();
    DecodeEncode(v, 4);
  }

  lemma LongAt(h: seq<byte>, off: nat, v: u64)
    requires off + 8 <= |h| && h[off..off + 8] == ToBE(v, 8)
    ensures BeU64(h, off) == v
  {
    Pow2Values();
    DecodeEncode(v, 8);
  }

  /** An encoded word reads back as its value. */
  lemma EncodedU32(pre: seq<byte>, v: u32, post: seq<byte>)
    ensures BeU32(pre + ToBE(v, 4) + post, |pre|) == v
  {
    Pow2Values();
    DecodeEncode(v, 4);
    assert (pre + ToBE(v, 4) + post)[|pre|..|pre| + 4] == ToBE(v, 4);
  }

  /** What is left of the window `off..off+n` after clipping it to the byte string. */
  function Window(bytes: seq<byte>, off: nat, n: nat): (w: seq<byte>)
    ensures |w| <= n
    ensures off + n <= |bytes| ==> |w| == n
  {
    if off >= |bytes| then []
    else if off + n <= |bytes| then bytes[off..off + n]
    else bytes[off..]
  }

  /** The big-endian u64 table stored in a byte string whose length is a multiple of 8. */
  function Table(s: seq<byte>): (t: seq<u64>)
    requires |s| % 8 == 0
    ensures |t| == |s| / 8
    ensures forall i :: 0 <= i < |t| ==> t[i] == BeU64(s, 8 * i)
  {
    seq(|s| / 8, i requires 0 <= i < |s| / 8 => BeU64(s, 8 * i))
  }

  /** Entry `j` of a table read from a slice is the word at its place in the whole string. */
  lemma TableOfSlice(bytes: seq<byte>, t: nat, n: nat, j: nat)
    requires t + n * 8 <= |bytes| && j < n
    ensures Table(bytes[t..t + n * 8])[j] == BeU64(bytes, t + j * 8)
  {
    var p := t + j * 8;
    SliceOfSlice(bytes, t, t + n * 8, 8 * j, 8 * j + 8);
    assert bytes[t + 8 * j..t + (8 * j + 8)] == bytes[p..p + 8];
  }

  lemma SliceOfSlice(s: seq<byte>, lo: nat, hi: nat, a: nat, b: nat)
    requires lo <= hi <= |s| && a <= b <= hi - lo
    ensures s[lo..hi][a..b] == s[lo + a..lo + b]
  {
    var left, right := s[lo..hi][a..b], s[lo + a..lo + b];
    forall i | 0 <= i < b - a ensures left[i] == right[i] {
      assert left[i] == s[lo..hi][a + i] == s[lo + (a + i)];
    }
    assert left == right;
  }
}
