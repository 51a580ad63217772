/** The compressed-cluster descriptor: its codec, and how the program's split of the descriptor
    relates to the one in the "Cluster mapping" section of the image format specification. */
module Compressed {
  import opened Bits
  import opened Bytes
  import opened Io
  import opened Mapping

  /** Lowest bit of the sector count in the program's split */
  function SplitBit(clusterBits: nat): nat
    requires clusterBits <= 20
  {
    63 - clusterBits
  }

  const COMPRESSED_FLAG: u64 := 0x4000_0000_0000_0000

  /** A descriptor for `sectors` sectors at `offset`, put together with shifts and ors */
  function Encode(offset: u64, sectors: u64, clusterBits: nat): nat
    requires 9 <= clusterBits <= 20 && 1 <= sectors
  {
    Or(COMPRESSED_FLAG, Or(Shl(sectors - 1, SplitBit(clusterBits)), offset))
  }

  lemma EncodeIsSum(offset: u64, sectors: u64, clusterBits: nat)
    requires 9 <= clusterBits <= 20
    requires offset < Pow2(SplitBit(clusterBits)) && 1 <= sectors <= Pow2(clusterBits - 1)
    ensures
      var low := Compose(sectors - 1, Pow2(SplitBit(clusterBits)), offset);
      low < Pow2(62) && Encode(offset, sectors, clusterBits) == Pow2(62) + low
  {
    var k := SplitBit(clusterBits);
    CountRoom(offset, sectors - 1, clusterBits);
    Pow2Values();
    OrShifted(sectors - 1, offset, k);
    OrFlag(Compose(sectors - 1, Pow2(k), offset));
  }

  lemma CountRoom(offset: nat, count: nat, clusterBits: nat)
    requires 9 <= clusterBits <= 20
    requires offset < Pow2(SplitBit(clusterBits)) && count < Pow2(clusterBits - 1)
    ensures Compose(count, Pow2(SplitBit(clusterBits)), offset) < Pow2(62)
  {
    var k := SplitBit(clusterBits);
    assert k + (clusterBits - 1) == 62;
    Pow2Add(k, clusterBits - 1);
    MulBound(count, Pow2(k), Pow2(clusterBits - 1));
  }

  lemma OrShifted(x: u64, y: nat, k: nat)
    requires y < Pow2(k) && Compose(x, Pow2(k), y) < U64_LIMIT
    ensures Or(Shl(x, k), y) == Compose(x, Pow2(k), y)
  {
    ProductIsNat(x, Pow2(k));
    DivModUnique(x * Pow2(k), U64_LIMIT, 0, x * Pow2(k));
    OrDisjoint(x, y, k);
  }

  lemma OrFlag(low: nat)
    requires low < Pow2(62)
    ensures Or(COMPRESSED_FLAG, low) == Pow2(62) + low
  {
    Pow2Values();
    assert 1 * Pow2(62) == Pow2(62);
    OrDisjoint(1, low, 62);
  }

  lemma ProductIsNat(a: nat, b: nat)
    ensures 0 <= a * b
  {
  }

  /** The offset, the count and the two flag bits partition the descriptor. */
  lemma DescriptorPartition(e: u64, clusterBits: nat)
    requires 9 <= clusterBits <= 20
    ensures
      var split := SplitBit(clusterBits);
      e == Compose(Field(e, 62, 64), Pow2(62), Compose(Field(e, split, 62), Pow2(split), Mod(e, Pow2(split))))
  {
    var k := SplitBit(clusterBits);
    Pow2Values();
    AndField(e, k, 62);
    AndField(e, 62, 64);
    DivModUnique(e, U64_LIMIT, 0, e);
  }

  /** Decoding inverts encoding on the program's whole range of offsets and counts. */
  lemma DecodeOfEncode(offset: u64, sectors: u64, clusterBits: nat)
    requires 9 <= clusterBits <= 20
    requires offset < Pow2(SplitBit(clusterBits)) && 1 <= sectors <= Pow2(clusterBits - 1)
    ensures
      var e := Encode(offset, sectors, clusterBits);
      e < U64_LIMIT && DecodeL2(e, clusterBits) == ClusterRef.Compressed(offset, sectors * 512)
  {
    EncodeIsSum(offset, sectors, clusterBits);
    var low := Compose(sectors - 1, Pow2(SplitBit(clusterBits)), offset);
    var e := Encode(offset, sectors, clusterBits);
    DecodeOfSum(e, low, offset, sectors, clusterBits);
  }

  lemma DecodeOfSum(e: nat, low: nat, offset: u64, sectors: nat, clusterBits: nat)
    requires 9 <= clusterBits <= 20
    requires offset < Pow2(SplitBit(clusterBits)) && 1 <= sectors <= Pow2(clusterBits - 1)
    requires e == Pow2(62) + low
    requires low == Compose(sectors - 1, Pow2(SplitBit(clusterBits)), offset) && low < Pow2(62)
    ensures e < U64_LIMIT
    ensures DecodeL2(e, clusterBits) == ClusterRef.Compressed(offset, sectors * 512)
  {
    FlagOfSum(low, e);
    LowOfSum(e, low, offset, sectors - 1, clusterBits);
    DescriptorMeaning(e, offset, sectors, clusterBits);
  }

  lemma DescriptorMeaning(e: u64, offset: u64, sectors: nat, clusterBits: nat)
    requires 9 <= clusterBits <= 20 && 1 <= sectors && Field(e, 62, 63) == 1
    requires Mod(e, Pow2(SplitBit(clusterBits))) == offset
    requires Field(e, SplitBit(clusterBits), 62) == sectors - 1
    ensures DecodeL2(e, clusterBits) == ClusterRef.Compressed(offset, sectors * 512)
  {
  }

  lemma DescriptorParts(e: u64, clusterBits: nat)
    requires 9 <= clusterBits <= 20 && DecodeL2(e, clusterBits).Compressed?
    ensures Field(e, 62, 63) == 1
    ensures DecodeL2(e, clusterBits).fileOffset == Mod(e, Pow2(SplitBit(clusterBits)))
    ensures DecodeL2(e, clusterBits).compressedBytes / 512 == Field(e, SplitBit(clusterBits), 62) + 1
  {
  }

  lemma LowOfSum(e: nat, low: nat, offset: nat, count: nat, clusterBits: nat)
    requires 9 <= clusterBits <= 20
    requires offset < Pow2(SplitBit(clusterBits)) && count < Pow2(clusterBits - 1)
    requires e == Pow2(62) + low && low == Compose(count, Pow2(SplitBit(clusterBits)), offset)
    ensures Mod(e, Pow2(SplitBit(clusterBits))) == offset
    ensures Field(e, SplitBit(clusterBits), 62) == count
  {
    var k := SplitBit(clusterBits);
    assert 62 - k == clusterBits - 1;
    Pow2Add(clusterBits - 1, k);
    LowDigits(Pow2(clusterBits - 1), Pow2(k), count, offset, e);
  }

  lemma FlagOfSum(low: nat, e: nat)
    requires low < Pow2(62) && e == Pow2(62) + low
    ensures Field(e, 62, 63) == 1 && e < U64_LIMIT
  {
    DivModUnique(e, Pow2(62), 1, low);
    assert Pow2(1) == 2;
    Pow2Values();
  }

  lemma LowDigits(w: nat, p: nat, count: nat, offset: nat, e: nat)
    requires offset < p && count < w && e == w * p + count * p + offset
    ensures Mod(e, p) == offset
    ensures Mod(Div(e, p), w) == count
  {
    assert (w + count) * p == w * p + count * p;
    DivModUnique(e, p, w + count, offset);
    DivModUnique(w + count, w, 1, count);
  }

  /** Encoding inverts decoding on every compressed descriptor whose top bit is clear. */
  lemma EncodeOfDecode(e: u64, clusterBits: nat)
    requires 9 <= clusterBits <= 20 && e < I64_LIMIT && DecodeL2(e, clusterBits).Compressed?
    ensures
      var r := DecodeL2(e, clusterBits);
      Encode(r.fileOffset, r.compressedBytes / 512, clusterBits) == e
  {
    var r, k := DecodeL2(e, clusterBits), SplitBit(clusterBits);
    DescriptorParts(e, clusterBits);
    EncodeOfFields(e, clusterBits);
    SameEncode(r.fileOffset, r.compressedBytes / 512, Mod(e, Pow2(k)), Field(e, k, 62) + 1, clusterBits);
  }

  lemma EncodeOfFields(e: u64, clusterBits: nat)
    requires 9 <= clusterBits <= 20 && e < I64_LIMIT && Field(e, 62, 63) == 1
    ensures Field(e, SplitBit(clusterBits), 62) + 1 < U64_LIMIT
    ensures Encode(Mod(e, Pow2(SplitBit(clusterBits))), Field(e, SplitBit(clusterBits), 62) + 1, clusterBits) == e
  {
    var k := SplitBit(clusterBits);
    FlaggedPartition(e, clusterBits);
    SectorsInRange(e, clusterBits);
    EncodeOfParts(e, Mod(e, Pow2(k)), Field(e, k, 62), clusterBits);
  }

  lemma SameEncode(o: u64, n: u64, o': u64, n': u64, clusterBits: nat)
    requires 9 <= clusterBits <= 20 && 1 <= n && o == o' && n == n'
    ensures Encode(o, n, clusterBits) == Encode(o', n', clusterBits)
  {
  }

  lemma EncodeOfParts(e: u64, offset: u64, count: nat, clusterBits: nat)
    requires 9 <= clusterBits <= 20
    requires offset < Pow2(SplitBit(clusterBits)) && count < Pow2(clusterBits - 1)
    requires e == Pow2(62) + Compose(count, Pow2(SplitBit(clusterBits)), offset)
    requires count + 1 < U64_LIMIT
    ensures Encode(offset, count + 1, clusterBits) == e
  {
    EncodeIsSum(offset, count + 1, clusterBits);
    assert count + 1 - 1 == count;
  }

  lemma FlaggedPartition(e: u64, clusterBits: nat)
    requires 9 <= clusterBits <= 20 && e < I64_LIMIT && Field(e, 62, 63) == 1
    ensures
      var split := SplitBit(clusterBits);
      e == Pow2(62) + Compose(Field(e, split, 62), Pow2(split), Mod(e, Pow2(split)))
  {
    TopBitsClear(e);
    DescriptorPartition(e, clusterBits);
    assert Field(e, 62, 64) * Pow2(62) == Pow2(62);
  }

  lemma TopBitsClear(e: u64)
    requires e < I64_LIMIT && Field(e, 62, 63) == 1
    ensures Field(e, 62, 64) == 1
  {
    Pow2Values();
    FieldSplit(e, 62, 63, 64);
    DivModUnique(e, I64_LIMIT, 0, e);
    assert Field(e, 63, 64) == 0;
  }

  lemma SectorsInRange(e: u64, clusterBits: nat)
    requires 9 <= clusterBits <= 20
    ensures Field(e, SplitBit(clusterBits), 62) < Pow2(clusterBits - 1) <= 0x10_0000
  {
    Pow2Mono(clusterBits - 1, 20);
    Pow2Values();
    assert 62 - SplitBit(clusterBits) == clusterBits - 1;
  }

  // The standard's reading of the same descriptor: the split is at x = 62 - (cluster_bits - 8).

  function StandardSplitBit(clusterBits: nat): nat
    requires clusterBits <= 20
  {
    62 - (clusterBits - 8)
  }

  function StandardOffset(e: u64, clusterBits: nat): nat
    requires 9 <= clusterBits <= 20
  {
    Mod(e, Pow2(StandardSplitBit(clusterBits)))
  }

  /** Additional sectors beyond the one that holds the offset */
  function StandardExtraSectors(e: u64, clusterBits: nat): nat
    requires 9 <= clusterBits <= 20
  {
    Field(e, StandardSplitBit(clusterBits), 62)
  }

  /** From the offset to the end of the last sector */
  function StandardLength(e: u64, clusterBits: nat): nat
    requires 9 <= clusterBits <= 20
  {
    (StandardExtraSectors(e, clusterBits) + 1) * 512 - StandardOffset(e, clusterBits) % 512
  }

  /** The program finds the standard's offset exactly when that offset fits below its own split, and
      its window is then 128 sectors for each of the standard's additional ones, plus one: never
      shorter than the standard's. */
  lemma StandardDescriptor(e: u64, clusterBits: nat)
    requires 9 <= clusterBits <= 20 && DecodeL2(e, clusterBits).Compressed?
    ensures
      var r := DecodeL2(e, clusterBits);
      && (r.fileOffset == StandardOffset(e, clusterBits) <==>
            StandardOffset(e, clusterBits) < Pow2(63 - clusterBits))
      && (StandardOffset(e, clusterBits) < Pow2(63 - clusterBits) ==>
            && r.compressedBytes == (128 * StandardExtraSectors(e, clusterBits) + 1) * 512
            && StandardLength(e, clusterBits) <= r.compressedBytes)
  {
    var mid := Field(e, SplitBit(clusterBits), SplitBit(clusterBits) + 7);
    StandardSplit(e, clusterBits);
    if mid != 0 {
      MulAtLeast(mid, Pow2(SplitBit(clusterBits)));
    }
  }

  /** The seven bits between the two splits are the standard's top offset bits and the program's low
      count bits. */
  lemma StandardSplit(e: u64, clusterBits: nat)
    requires 9 <= clusterBits <= 20
    ensures
      var k := SplitBit(clusterBits);
      var mid := Field(e, k, k + 7);
      && StandardOffset(e, clusterBits) == mid * Pow2(k) + Mod(e, Pow2(k))
      && Field(e, k, 62) == StandardExtraSectors(e, clusterBits) * 128 + mid
  {
    var k := SplitBit(clusterBits);
    Pow2Small();
    FieldSplit(e, k, k + 7, 62);
    Pow2Add(k, 7);
    ModSplit(e, Pow2(k), 128);
  }

  /** With an offset at or above the split the program looks elsewhere: bit 54 of a 512-byte-cluster
      descriptor is an offset bit of the standard and a count bit of the program. */
  lemma StandardOffsetLost()
    ensures
      var e := 0x4040_0000_0000_0000;
      && DecodeL2(e, 9) == ClusterRef.Compressed(0, 2 * 512)
      && StandardOffset(e, 9) == 0x0040_0000_0000_0000
  {
    var e := 0x4040_0000_0000_0000;
    Pow2Values();
    Pow2Small();
    Pow2Sum(48, 6, 0x1_0000_0000_0000, 64);
    Pow2Sum(56, 5, 0x0100_0000_0000_0000, 32);
    assert Pow2(54) == 0x0040_0000_0000_0000 && Pow2(61) == 0x2000_0000_0000_0000;
  }

  /** The stream inflates, and ends inside `s`: bytes after `s` do not change what it decodes to. */
  ghost predicate EndsWithin(inflate: Inflate, s: seq<byte>) {
    inflate(s).Some? && forall t: seq<byte> :: inflate(s + t) == inflate(s)
  }

  /** Where the standard's window holds a whole stream, the program serves the cluster the standard
      defines. */
  lemma StandardClusterIsServed(img: Image, e: u64)
    requires img.Valid()
    requires DecodeL2(e, img.clusterBits).Compressed?
    requires StandardOffset(e, img.clusterBits) < Pow2(63 - img.clusterBits)
    requires StandardOffset(e, img.clusterBits) <= img.seekLimit
    ensures
      var r := DecodeL2(e, img.clusterBits);
      var stream := Window(img.bytes, StandardOffset(e, img.clusterBits), StandardLength(e, img.clusterBits));
      EndsWithin(img.inflate, stream) ==>
        Decompress(img, r.fileOffset, r.compressedBytes) == Some(PadTo(img.inflate(stream).value, img.ClusterSize()))
  {
    var r := DecodeL2(e, img.clusterBits);
    var stream := Window(img.bytes, StandardOffset(e, img.clusterBits), StandardLength(e, img.clusterBits));
    StandardDescriptor(e, img.clusterBits);
    var served := Window(img.bytes, r.fileOffset, r.compressedBytes);
    assert stream <= served;
    var rest := served[|stream|..];
    assert served == stream + rest;
  }

  // Streams that do not inflate to one cluster.

  /** What a guest offset holds under the documented policy: a stream that does not inflate to exactly
      one cluster is an error. */
  function StrictCellAt(img: Image, off: nat): Cell
    requires img.Valid()
  {
    var r := Resolve(img, off);
    if r.Some? && r.value.Compressed? then
      StrictCellIn(img, r.value.fileOffset, r.value.compressedBytes, Mod(off, img.ClusterSize()))
    else CellAt(img, off)
  }

  function StrictCellIn(img: Image, fileOffset: nat, n: nat, within: nat): Cell
    requires within < img.ClusterSize()
  {
    var out := img.inflate(Window(img.bytes, fileOffset, n));
    if fileOffset > img.seekLimit || out.None? || |out.value| != img.ClusterSize() then Fault
    else Byte(out.value[within])
  }

  /** The L2 entry of `off` is `e` */
  predicate EntryIs(img: Image, off: nat, e: u64)
    requires img.Valid()
  {
    Resolve(img, off) == Some(DecodeL2(e, img.clusterBits))
  }

  /** A compressed entry that names a reachable position at or past the end of the file */
  predicate PointsPastEnd(img: Image, e: u64)
    requires img.Valid()
  {
    && Field(e, 62, 63) == 1
    && |img.bytes| <= Mod(e, Pow2(SplitBit(img.clusterBits))) <= img.seekLimit
  }

  /** The documented failure: past the end of the file the decoder is handed no bytes, accepts them, and
      the program serves a zero where the policy demands an error. */
  lemma PastEndReadsZero(img: Image, off: nat, e: u64)
    requires img.Valid() && EntryIs(img, off, e) && PointsPastEnd(img, e)
    requires img.inflate([]) == Some([])
    ensures CellAt(img, off) == Byte(0) && StrictCellAt(img, off) == Fault
  {
  }

  /** A compressed entry that names a nonempty window of the file, whose stream is not one cluster long */
  predicate WrongLength(img: Image, e: u64)
    requires img.Valid()
  {
    var r := DecodeL2(e, img.clusterBits);
    && r.Compressed?
    && r.fileOffset < |img.bytes|
    && var out := img.inflate(Window(img.bytes, r.fileOffset, r.compressedBytes));
       out.Some? && |out.value| != img.ClusterSize()
  }

  /** With a decoder that accepts no bytes at all, the program departs from the documented policy at
      exactly the guest offsets whose entry points past the end of the file, or at a stream that is not
      one cluster long. */
  lemma PolicyDiffers(img: Image, off: nat, e: u64)
    requires img.Valid() && EntryIs(img, off, e) && img.inflate([]) == Some([])
    ensures CellAt(img, off) != StrictCellAt(img, off) <==> PointsPastEnd(img, e) || WrongLength(img, e)
  {
    var r := DecodeL2(e, img.clusterBits);
    if PointsPastEnd(img, e) {
      PastEndReadsZero(img, off, e);
    } else if r.Compressed? {
      InFile(img, off, r.fileOffset, r.compressedBytes);
    }
  }

  lemma InFile(img: Image, off: nat, o: u64, n: nat)
    requires img.Valid() && Resolve(img, off) == Some(ClusterRef.Compressed(o, n))
    requires o < |img.bytes| || o > img.seekLimit
    ensures
      var out := img.inflate(Window(img.bytes, o, n));
      CellAt(img, off) != StrictCellAt(img, off) <==>
        o < |img.bytes| && out.Some? && |out.value| != img.ClusterSize()
  {
  }

  /** What is resolved from a readable slot */
  lemma ReadableSlot(img: Image, off: nat, table: nat, p: nat)
    requires img.Valid() && Split(img, off).l1Index < |img.l1|
    requires table == img.l1[Split(img, off).l1Index] % I64_LIMIT && table != 0
    requires p == table + Split(img, off).l2Index * 8 && p + 8 <= |img.bytes|
    ensures EntryIs(img, off, BeU64(img.bytes, p))
  {
  }

  lemma FirstSlot(img: Image)
    requires img.Valid()
    ensures Split(img, 0) == Address(0, 0, 0)
  {
    DivModUnique(0, img.ClusterSize(), 0, 0);
    DivModUnique(0, img.L2Entries(), 0, 0);
  }
}
