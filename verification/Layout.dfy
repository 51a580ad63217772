/** Writing an image: the header field by field, tables word by word.

    Nothing here knows how the program reads a file; the laws stated over it say that what was written is
    what is read. */
module Layout {
  import opened Bits
  import opened Bytes

  /** Every field of a header, in file order */
  datatype Fields = Fields(
    magic: u32, version: u32, backingOffset: u64, backingSize: u32,
    clusterBits: u32, size: u64, encryption: u32, l1Size: u32,
    l1Offset: u64, rtOffset: u64, rtClusters: u32, snapshots: u32, snapshotsOffset: u64,
    features: u64, compatible: u64, autoclear: u64, refcountOrder: u32, headerLength: u32)

  function Zeros(n: nat): (z: seq<byte>)
    ensures |z| == n
  {
    seq(n, _ => 0)
  }

  /** A 104-byte header; its first 72 bytes are a version-2 header. */
  function Head(f: Fields): (h: seq<byte>)
    ensures |h| == 104
  {
    (ToBE(f.magic, 4) + ToBE(f.version, 4) + ToBE(f.backingOffset, 8) + ToBE(f.backingSize, 4))
    + (ToBE(f.clusterBits, 4) + ToBE(f.size, 8) + ToBE(f.encryption, 4) + ToBE(f.l1Size, 4))
    + (ToBE(f.l1Offset, 8) + ToBE(f.rtOffset, 8) + ToBE(f.rtClusters, 4) + ToBE(f.snapshots, 4)
       + ToBE(f.snapshotsOffset, 8))
    + (ToBE(f.features, 8) + ToBE(f.compatible, 8) + ToBE(f.autoclear, 8) + ToBE(f.refcountOrder, 4)
       + ToBE(f.headerLength, 4))
  }

  lemma Quarters(a: seq<byte>, b: seq<byte>, c: seq<byte>, d: seq<byte>)
    requires |a| == 20 && |b| == 20 && |c| == 32 && |d| == 32
    ensures
      var h := a + b + c + d;
      && h[0..4] == a[0..4] && h[4..8] == a[4..8] && h[8..16] == a[8..16] && h[16..20] == a[16..20]
      && h[20..24] == b[0..4] && h[24..32] == b[4..12] && h[32..36] == b[12..16] && h[36..40] == b[16..20]
      && h[40..48] == c[0..8] && h[48..56] == c[8..16] && h[56..60] == c[16..20] && h[60..64] == c[20..24]
      && h[64..72] == c[24..32]
      && h[72..80] == d[0..8] && h[80..88] == d[8..16] && h[88..96] == d[16..24] && h[96..100] == d[24..28]
      && h[100..104] == d[28..32]
  {
  }

  lemma FirstPieces(p: seq<byte>, q: seq<byte>, r: seq<byte>, s: seq<byte>)
    requires |p| == |q| == |s| == 4 && |r| == 8
    ensures
      var a := p + q + r + s;
      a[0..4] == p && a[4..8] == q && a[8..16] == r && a[16..20] == s
  {
  }

  lemma SecondPieces(p: seq<byte>, q: seq<byte>, r: seq<byte>, s: seq<byte>)
    requires |p| == |r| == |s| == 4 && |q| == 8
    ensures
      var b := p + q + r + s;
      b[0..4] == p && b[4..12] == q && b[12..16] == r && b[16..20] == s
  {
  }

  lemma ThirdPieces(p: seq<byte>, q: seq<byte>, r: seq<byte>, s: seq<byte>, t: seq<byte>)
    requires |p| == |q| == |t| == 8 && |r| == |s| == 4
    ensures
      var c := p + q + r + s + t;
      c[0..8] == p && c[8..16] == q && c[16..20] == r && c[20..24] == s && c[24..32] == t
  {
  }

  lemma FourthPieces(p: seq<byte>, q: seq<byte>, r: seq<byte>, s: seq<byte>, t: seq<byte>)
    requires |p| == |q| == |r| == 8 && |s| == |t| == 4
    ensures
      var d := p + q + r + s + t;
      d[0..8] == p && d[8..16] == q && d[16..24] == r && d[24..28] == s && d[28..32] == t
  {
  }

  lemma PiecesOfHead(f: Fields)
    ensures
      var h := Head(f);
      && h[0..4] == ToBE(f.magic, 4) && h[4..8] == ToBE(f.version, 4) && h[8..16] == ToBE(f.backingOffset, 8)
      && h[16..20] == ToBE(f.backingSize, 4)
      && h[20..24] == ToBE(f.clusterBits, 4) && h[24..32] == ToBE(f.size, 8)
      && h[32..36] == ToBE(f.encryption, 4) && h[36..40] == ToBE(f.l1Size, 4)
      && h[40..48] == ToBE(f.l1Offset, 8) && h[48..56] == ToBE(f.rtOffset, 8)
      && h[56..60] == ToBE(f.rtClusters, 4) && h[60..64] == ToBE(f.snapshots, 4)
      && h[64..72] == ToBE(f.snapshotsOffset, 8)
      && h[72..80] == ToBE(f.features, 8) && h[80..88] == ToBE(f.compatible, 8)
      && h[88..96] == ToBE(f.autoclear, 8) && h[96..100] == ToBE(f.refcountOrder, 4)
      && h[100..104] == ToBE(f.headerLength, 4)
  {
    Quarters(ToBE(f.magic, 4) + ToBE(f.version, 4) + ToBE(f.backingOffset, 8) + ToBE(f.backingSize, 4),
             ToBE(f.clusterBits, 4) + ToBE(f.size, 8) + ToBE(f.encryption, 4) + ToBE(f.l1Size, 4),
             ToBE(f.l1Offset, 8) + ToBE(f.rtOffset, 8) + ToBE(f.rtClusters, 4) + ToBE(f.snapshots, 4)
               + ToBE(f.snapshotsOffset, 8),
             ToBE(f.features, 8) + ToBE(f.compatible, 8) + ToBE(f.autoclear, 8) + ToBE(f.refcountOrder, 4)
               + ToBE(f.headerLength, 4));
    FirstPieces(ToBE(f.magic, 4), ToBE(f.version, 4), ToBE(f.backingOffset, 8), ToBE(f.backingSize, 4));
    SecondPieces(ToBE(f.clusterBits, 4), ToBE(f.size, 8), ToBE(f.encryption, 4), ToBE(f.l1Size, 4));
    ThirdPieces(ToBE(f.l1Offset, 8), ToBE(f.rtOffset, 8), ToBE(f.rtClusters, 4), ToBE(f.snapshots, 4),
                ToBE(f.snapshotsOffset, 8));
    FourthPieces(ToBE(f.features, 8), ToBE(f.compatible, 8), ToBE(f.autoclear, 8), ToBE(f.refcountOrder, 4),
                 ToBE(f.headerLength, 4));
  }

  /** The fields of a version-2 header read back from its 72 bytes. */
  lemma FieldsOfHead(f: Fields)
    ensures
      var h := Head(f);
      && BeU32(h, 0) == f.magic && BeU32(h, 4) == f.version && BeU64(h, 8) == f.backingOffset
      && BeU32(h, 16) == f.backingSize && BeU32(h, 20) == f.clusterBits && BeU64(h, 24) == f.size
      && BeU32(h, 32) == f.encryption && BeU32(h, 36) == f.l1Size && BeU64(h, 40) == f.l1Offset
      && BeU64(h, 48) == f.rtOffset && BeU32(h, 56) == f.rtClusters && BeU32(h, 60) == f.snapshots
      && BeU64(h, 64) == f.snapshotsOffset
  {
    PiecesOfHead(f);
    var h := Head(f);
    WordAt(h, 0, f.magic);
    WordAt(h, 4, f.version);
    LongAt(h, 8, f.backingOffset);
    WordAt(h, 16, f.backingSize);
    WordAt(h, 20, f.clusterBits);
    LongAt(h, 24, f.size);
    WordAt(h, 32, f.encryption);
    WordAt(h, 36, f.l1Size);
    LongAt(h, 40, f.l1Offset);
    LongAt(h, 48, f.rtOffset);
    WordAt(h, 56, f.rtClusters);
    WordAt(h, 60, f.snapshots);
    LongAt(h, 64, f.snapshotsOffset);
  }

  /** The fields version 3 adds */
  lemma MoreFieldsOfHead(f: Fields)
    ensures
      var h := Head(f);
      BeU64(h, 72) == f.features && BeU32(h, 96) == f.refcountOrder && BeU32(h, 100) == f.headerLength
  {
    PiecesOfHead(f);
    var h := Head(f);
    LongAt(h, 72, f.features);
    WordAt(h, 96, f.refcountOrder);
    WordAt(h, 100, f.headerLength);
  }

  /** `data` starts with the first `k` bytes of the header, and with all of it if there is more. */
  predicate Begins(data: seq<byte>, f: Fields, k: nat) {
    72 <= k <= 104 && k <= |data| && data[..k] == Head(f)[..k] && (k < 104 ==> |data| == k)
  }

  lemma SameU32(a: seq<byte>, b: seq<byte>, k: nat, off: nat)
    requires k <= |a| && k <= |b| && a[..k] == b[..k] && off + 4 <= k
    ensures BeU32(a, off) == BeU32(b, off)
  {
    PrefixU32(a, k, off);
    PrefixU32(b, k, off);
  }

  lemma SameU64(a: seq<byte>, b: seq<byte>, k: nat, off: nat)
    requires k <= |a| && k <= |b| && a[..k] == b[..k] && off + 8 <= k
    ensures BeU64(a, off) == BeU64(b, off)
  {
    PrefixU64(a, k, off);
    PrefixU64(b, k, off);
  }

  /** The header of a file reads back. */
  lemma FieldsOfFile(data: seq<byte>, f: Fields, k: nat)
    requires Begins(data, f, k)
    ensures BeU32(data, 0) == f.magic && BeU32(data, 4) == f.version && BeU64(data, 8) == f.backingOffset
    ensures BeU32(data, 16) == f.backingSize && BeU32(data, 20) == f.clusterBits && BeU64(data, 24) == f.size
    ensures BeU32(data, 32) == f.encryption && BeU32(data, 36) == f.l1Size && BeU64(data, 40) == f.l1Offset
    ensures BeU64(data, 48) == f.rtOffset && BeU32(data, 56) == f.rtClusters && BeU32(data, 60) == f.snapshots
    ensures BeU64(data, 64) == f.snapshotsOffset
  {
    FieldsOfHead(f);
    var h := Head(f);
    SameU32(data, h, k, 0);
    SameU32(data, h, k, 4);
    SameU64(data, h, k, 8);
    SameU32(data, h, k, 16);
    SameU32(data, h, k, 20);
    SameU64(data, h, k, 24);
    SameU32(data, h, k, 32);
    SameU32(data, h, k, 36);
    SameU64(data, h, k, 40);
    SameU64(data, h, k, 48);
    SameU32(data, h, k, 56);
    SameU32(data, h, k, 60);
    SameU64(data, h, k, 64);
  }

  /** So do the fields version 3 adds, as far as the file goes. */
  lemma MoreFieldsOfFile(data: seq<byte>, f: Fields, k: nat)
    requires Begins(data, f, k)
    ensures k >= 80 ==> BeU64(data, 72) == f.features
    ensures k >= 100 ==> BeU32(data, 96) == f.refcountOrder
    ensures BeU32(data, 100) == if k == 104 then f.headerLength else 0
  {
    MoreFieldsOfHead(f);
    var h := Head(f);
    if k >= 80 {
      SameU64(data, h, k, 72);
    }
    if k >= 100 {
      SameU32(data, h, k, 96);
    }
    if k == 104 {
      SameU32(data, h, k, 100);
    }
  }

  /** The first 104 bytes of a file begin the same way. */
  lemma WindowBegins(data: seq<byte>, f: Fields, k: nat, n: nat)
    requires Begins(data, f, k) && 104 <= n
    ensures Begins(Window(data, 0, n), f, k)
    ensures |Window(data, 0, n)| >= 104 <==> k == 104
    ensures n == 104 ==> |Window(data, 0, n)| == k
  {
    var w := Window(data, 0, n);
    assert w[..k] == data[..k];
  }

  // Words.

  function EncodeWords(ws: seq<u64>): (s: seq<byte>)
    ensures |s| == |ws| * 8
  {
    if ws == [] then [] else ToBE(ws[0], 8) + EncodeWords(ws[1..])
  }

  /** `s` stands at `off` in the file. */
  predicate Stands(bytes: seq<byte>, off: nat, s: seq<byte>) {
    off + |s| <= |bytes| && bytes[off..off + |s|] == s
  }

  lemma {:induction false} EncodedWord(ws: seq<u64>, k: nat)
    requires k < |ws|
    ensures EncodeWords(ws)[k * 8..k * 8 + 8] == ToBE(ws[k], 8)
  {
    var rest := EncodeWords(ws[1..]);
    if k == 0 {
      assert (ToBE(ws[0], 8) + rest)[0..8] == ToBE(ws[0], 8);
    } else {
      EncodedWord(ws[1..], k - 1);
      BehindFirst(ToBE(ws[0], 8), rest, 8, (k - 1) * 8, k * 8);
    }
  }

  lemma BehindFirst(a: seq<byte>, b: seq<byte>, n: nat, i: nat, j: nat)
    requires |a| == n == 8 && i + 8 <= |b| && j == i + n
    ensures (a + b)[j..j + 8] == b[i..i + 8]
  {
  }

  /** A part of what stands in a file stands there too. */
  lemma PartStands(bytes: seq<byte>, off: nat, s: seq<byte>, i: nat, w: seq<byte>, p: nat)
    requires Stands(bytes, off, s) && i + |w| <= |s| && s[i..i + |w|] == w && p == off + i
    ensures Stands(bytes, p, w)
  {
    SliceOfSlice(bytes, off, off + |s|, i, i + |w|);
  }

  /** A written word reads back. */
  lemma StandingLong(bytes: seq<byte>, p: nat, v: u64)
    requires Stands(bytes, p, ToBE(v, 8))
    ensures p + 8 <= |bytes| && BeU64(bytes, p) == v
  {
    LongAt(bytes, p, v);
  }

  /** The words stand at `off`, one after the other. */
  predicate WordsStand(bytes: seq<byte>, off: nat, ws: seq<u64>) {
    Stands(bytes, off, EncodeWords(ws))
  }

  /** So does each word of a written list. */
  lemma StandingWord(bytes: seq<byte>, off: nat, ws: seq<u64>, k: nat)
    requires WordsStand(bytes, off, ws) && k < |ws|
    ensures off + k * 8 + 8 <= |bytes| && BeU64(bytes, off + k * 8) == ws[k]
  {
    EncodedWord(ws, k);
    WordInside(bytes, off, EncodeWords(ws), k * 8, ws[k], off + k * 8);
  }

  lemma WordInside(bytes: seq<byte>, off: nat, s: seq<byte>, i: nat, v: u64, p: nat)
    requires Stands(bytes, off, s) && i + 8 <= |s| && s[i..i + 8] == ToBE(v, 8) && p == off + i
    ensures p + 8 <= |bytes| && BeU64(bytes, p) == v
  {
    PartStands(bytes, off, s, i, ToBE(v, 8), p);
    StandingLong(bytes, p, v);
  }

  /** A written table reads back. */
  lemma StandingTable(bytes: seq<byte>, off: nat, ws: seq<u64>)
    requires WordsStand(bytes, off, ws)
    ensures off + |ws| * 8 <= |bytes| && Table(bytes[off..off + |ws| * 8]) == ws
  {
    forall k | 0 <= k < |ws| ensures BeU64(bytes, off + k * 8) == ws[k] {
      StandingWord(bytes, off, ws, k);
    }
    TableOfWords(bytes, off, ws);
  }

  lemma TableOfWords(bytes: seq<byte>, off: nat, ws: seq<u64>)
    requires off + |ws| * 8 <= |bytes| && forall k :: 0 <= k < |ws| ==> BeU64(bytes, off + k * 8) == ws[k]
    ensures Table(bytes[off..off + |ws| * 8]) == ws
  {
    var t := Table(bytes[off..off + |ws| * 8]);
    forall k | 0 <= k < |ws| ensures t[k] == ws[k] {
      TableOfSlice(bytes, off, |ws|, k);
    }
    assert t == ws;
  }
}
