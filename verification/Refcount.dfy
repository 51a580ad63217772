/** The lookup of one refcount in the two-level refcount structure. */
module Refcount {
  import opened Bits
  import opened Bytes
  import opened Io
  import opened Packing

  /** The powers of two from 2^9 to 2^20 */
  predicate IsClusterSize(c: nat) {
    c in {512, 1024, 2048, 4096, 8192, 16384, 32768, 65536, 131072, 262144, 524288, 1048576}
  }

  lemma ClusterSizes()
    ensures Pow2(9) == 512 && Pow2(10) == 1024 && Pow2(11) == 2048 && Pow2(12) == 4096
    ensures Pow2(13) == 8192 && Pow2(14) == 16384 && Pow2(15) == 32768 && Pow2(16) == 65536
    ensures Pow2(17) == 131072 && Pow2(18) == 262144 && Pow2(19) == 524288 && Pow2(20) == 1048576
  {
    Pow2Small();
    assert Pow2(11) == 2048;
    assert Pow2(13) == 8192;
    assert Pow2(15) == 32768;
    assert Pow2(17) == 131072;
    assert Pow2(19) == 524288;
  }

  lemma ClusterSizeOfBits(k: nat)
    requires 9 <= k <= 20
    ensures IsClusterSize(Pow2(k))
  {
    ClusterSizes();
    assert k in {9, 10, 11, 12, 13, 14, 15, 16, 17, 18, 19, 20};
  }

  lemma BitsOfClusterSize(c: nat) returns (k: nat)
    requires IsClusterSize(c)
    ensures 9 <= k <= 20 && Pow2(k) == c
  {
    ClusterSizes();
    k := if c == 512 then 9 else if c == 1024 then 10 else if c == 2048 then 11 else if c == 4096 then 12
         else if c == 8192 then 13 else if c == 16384 then 14 else if c == 32768 then 15
         else if c == 65536 then 16 else if c == 131072 then 17 else if c == 262144 then 18
         else if c == 524288 then 19 else 20;
  }

  // Specification of the lookup.

  /** The cluster-aligned position in a refcount-table entry */
  function BlockOffset(entry: u64, clusterSize: nat): (off: nat)
    requires 0 < clusterSize
    ensures off <= entry
  {
    entry - Mod(entry, clusterSize)
  }

  function PerBlock(width: nat, clusterSize: nat): (n: nat)
    requires IsWidth(width) && 512 <= clusterSize
    ensures 0 < n
  {
    clusterSize * 8 / width
  }

  /** Where the refcount of a cluster is stored, as a bit position in the file; `None` where the table
      has no entry, `Some(0)` where it has no block. */
  function RefcountPosition(table: seq<u64>, clusterIdx: nat, width: nat, clusterSize: nat): Option<nat>
    requires IsWidth(width) && 512 <= clusterSize
  {
    var perBlock := PerBlock(width, clusterSize);
    var i := Div(clusterIdx, perBlock);
    if i >= |table| then None
    else
      var off := BlockOffset(table[i], clusterSize);
      if off == 0 then Some(0) else Some(8 * off + Mod(clusterIdx, perBlock) * width)
  }

  /** The refcount of a cluster: the field at its position, 0 where no block is allocated, and unknown
      where the table or the file does not reach. */
  function Lookup(bytes: seq<byte>, table: seq<u64>, clusterIdx: nat, width: nat, clusterSize: nat): Option<nat>
    requires IsWidth(width) && 512 <= clusterSize
  {
    Fetch(bytes, RefcountPosition(table, clusterIdx, width, clusterSize), width)
  }

  function Fetch(bytes: seq<byte>, position: Option<nat>, width: nat): Option<nat> {
    match position
    case None => None
    case Some(start) =>
      if start == 0 then Some(0)
      else if start + width > 8 * |bytes| then None
      else Some(FieldValue(bytes, start, start + width))
  }

  /** A block offset is a multiple of the cluster size with room for a whole block below 2^64. */
  lemma BlockMask(entry: u64, clusterSize: nat)
    requires IsClusterSize(clusterSize)
    ensures And(entry, Not(clusterSize - 1)) == BlockOffset(entry, clusterSize)
    ensures BlockOffset(entry, clusterSize) + clusterSize <= U64_LIMIT
    ensures BlockOffset(entry, clusterSize) % 512 == 0
  {
    var k := BitsOfClusterSize(clusterSize);
    BlockMaskBits(entry, k, clusterSize);
    RoundedDown(entry, clusterSize / 512, clusterSize);
  }

  lemma BlockMaskBits(entry: u64, k: nat, clusterSize: nat)
    requires k <= 20 && clusterSize == Pow2(k)
    ensures clusterSize <= U64_LIMIT
    ensures And(entry, Not(clusterSize - 1)) == BlockOffset(entry, clusterSize)
    ensures BlockOffset(entry, clusterSize) + clusterSize <= U64_LIMIT
  {
    AndClearLow(entry, k);
    assert Not(clusterSize - 1) == U64_LIMIT - Pow2(k);
    BlockRoom(entry, k, clusterSize);
  }

  lemma BlockRoom(entry: u64, k: nat, clusterSize: nat)
    requires k <= 20 && clusterSize == Pow2(k)
    ensures BlockOffset(entry, clusterSize) + clusterSize <= U64_LIMIT
  {
    Pow2Values();
    Pow2Sum(k, 64 - k, clusterSize, Pow2(64 - k));
    RoomBelow(entry, clusterSize, Pow2(64 - k));
  }

  lemma RoundedDown(x: nat, m: nat, d: nat)
    requires 0 < m && d == 512 * m
    ensures (x - Mod(x, d)) % 512 == 0
  {
    ModSplit(x, 512, m);
    assert x - Mod(x, 512 * m) == 512 * (x / 512 - x / 512 % m);
  }

  lemma RoomBelow(x: nat, d: nat, n: nat)
    requires 0 < d && x < d * n
    ensures x - Mod(x, d) + d <= d * n
  {
    QuotientBelow(x, d, n);
    MulBound(Div(x, d), d, n);
    assert x == Div(x, d) * d + Mod(x, d);
  }

  /** A slot lies inside its block, at a multiple of its width. */
  lemma SlotInBlock(slot: nat, width: nat, clusterSize: nat)
    requires IsWidth(width) && 512 <= clusterSize && slot < PerBlock(width, clusterSize)
    ensures slot * width + width <= 8 * clusterSize
    ensures slot * width % width == 0
  {
    var perBlock := PerBlock(width, clusterSize);
    MulBound(slot, width, perBlock);
    QuotientTimes(8 * clusterSize, width);
    DivModUnique(slot * width, width, slot, 0);
  }

  lemma QuotientTimes(x: nat, d: nat)
    requires 0 < d
    ensures d * (x / d) <= x
  {
    assert x == d * (x / d) + x % d;
  }

  /** Every stored refcount is an aligned field wholly inside its own block, whose last byte still has
      a 64-bit address; a field narrower than a byte never straddles two. */
  lemma PositionInBlock(table: seq<u64>, clusterIdx: nat, width: nat, clusterSize: nat)
    requires IsWidth(width) && IsClusterSize(clusterSize)
    ensures
      var i := Div(clusterIdx, PerBlock(width, clusterSize));
      i < |table| && BlockOffset(table[i], clusterSize) != 0 ==>
        var off := BlockOffset(table[i], clusterSize);
        var start := RefcountPosition(table, clusterIdx, width, clusterSize).value;
        && 8 * off <= start && start + width <= 8 * (off + clusterSize)
        && off + clusterSize <= U64_LIMIT
        && start % width == 0
        && (width < 8 ==> start % 8 + width <= 8)
  {
    var perBlock := PerBlock(width, clusterSize);
    var i, slot := Div(clusterIdx, perBlock), Mod(clusterIdx, perBlock);
    if i < |table| && BlockOffset(table[i], clusterSize) != 0 {
      BlockMask(table[i], clusterSize);
      SlotPlace(BlockOffset(table[i], clusterSize), slot, width, clusterSize);
    }
  }

  lemma SlotPlace(off: nat, slot: nat, width: nat, clusterSize: nat)
    requires IsWidth(width) && 512 <= clusterSize && off % 512 == 0 && slot < PerBlock(width, clusterSize)
    ensures
      var start := 8 * off + slot * width;
      && 8 * off <= start && start + width <= 8 * (off + clusterSize)
      && start % width == 0
      && (width < 8 ==> start % 8 + width <= 8)
  {
    SlotInBlock(slot, width, clusterSize);
    SumAligned(off, slot * width, width);
    AlignedInByte(8 * off + slot * width, width);
  }

  lemma SumAligned(off: nat, bitOff: nat, width: nat)
    requires IsWidth(width) && off % 512 == 0 && bitOff % width == 0
    ensures (8 * off + bitOff) % width == 0
  {
    WidthDividesBlock(off / 512, width);
    SumOfMultiples(8 * off, bitOff, width);
  }

  lemma WidthDividesBlock(m: nat, width: nat)
    requires IsWidth(width)
    ensures 4096 * m % width == 0
  {
    var k := 64 / width;
    assert width * k == 64;
    assert width * (k * (64 * m)) == width * k * (64 * m);
    DivModUnique(4096 * m, width, k * (64 * m), 0);
  }

  lemma SumOfMultiples(a: nat, b: nat, w: nat)
    requires 0 < w && a % w == 0 && b % w == 0
    ensures (a + b) % w == 0
  {
    var p, q := a / w, b / w;
    assert a == p * w && b == q * w;
    assert (p + q) * w == p * w + q * w;
    DivModUnique(a + b, w, p + q, 0);
  }

  lemma PositionAligned(table: seq<u64>, clusterIdx: nat, width: nat, clusterSize: nat)
    requires IsWidth(width) && IsClusterSize(clusterSize)
    ensures
      var p := RefcountPosition(table, clusterIdx, width, clusterSize);
      p.Some? ==> p.value % width == 0
  {
    var p := RefcountPosition(table, clusterIdx, width, clusterSize);
    if p.Some? && p.value != 0 {
      PositionInBlock(table, clusterIdx, width, clusterSize);
    }
  }

  /** Storing a refcount makes the lookup return it, and changes the lookup of no cluster whose
      refcount is stored elsewhere. */
  lemma LookupAfterStore(bytes: seq<byte>, table: seq<u64>, clusterIdx: nat, v: nat, other: nat, width: nat,
                         clusterSize: nat)
    requires IsWidth(width) && IsClusterSize(clusterSize) && v < Pow2(width)
    requires Lookup(bytes, table, clusterIdx, width, clusterSize).Some?
    requires RefcountPosition(table, clusterIdx, width, clusterSize) != Some(0)
    ensures
      var start := RefcountPosition(table, clusterIdx, width, clusterSize).value;
      && start % width == 0
      && Lookup(Store(bytes, start, width, v), table, other, width, clusterSize) ==
           if RefcountPosition(table, other, width, clusterSize) == Some(start) then Some(v)
           else Lookup(bytes, table, other, width, clusterSize)
  {
    PositionAligned(table, clusterIdx, width, clusterSize);
    PositionAligned(table, other, width, clusterSize);
    FetchAfterStore(bytes, RefcountPosition(table, clusterIdx, width, clusterSize).value, width, v,
                    RefcountPosition(table, other, width, clusterSize));
  }

  lemma FetchAfterStore(bytes: seq<byte>, start: nat, width: nat, v: nat, there: Option<nat>)
    requires IsWidth(width) && v < Pow2(width)
    requires start != 0 && start % width == 0 && start + width <= 8 * |bytes|
    requires there.Some? ==> there.value % width == 0
    ensures Fetch(Store(bytes, start, width, v), there, width) ==
            if there == Some(start) then Some(v) else Fetch(bytes, there, width)
  {
    if there.Some? && there.value != 0 && there.value + width <= 8 * |bytes| {
      FetchStored(bytes, start, width, v, there.value);
    }
  }

  lemma FetchStored(bytes: seq<byte>, start: nat, width: nat, v: nat, other: nat)
    requires IsWidth(width) && v < Pow2(width)
    requires start != 0 && start % width == 0 && start + width <= 8 * |bytes|
    requires other != 0 && other % width == 0 && other + width <= 8 * |bytes|
    ensures Fetch(Store(bytes, start, width, v), Some(other), width) ==
            if other == start then Some(v) else Fetch(bytes, Some(other), width)
  {
    StoreThenRead(bytes, start, width, v, other);
    FetchIn(bytes, other, width);
    FetchIn(Store(bytes, start, width, v), other, width);
  }

  lemma FetchIn(bytes: seq<byte>, start: nat, width: nat)
    requires start != 0 && start + width <= 8 * |bytes|
    ensures Fetch(bytes, Some(start), width) == Some(FieldValue(bytes, start, start + width))
  {
  }

  /** Clusters of one block store their refcounts at different positions. */
  lemma SlotsAreDistinct(table: seq<u64>, a: nat, b: nat, width: nat, clusterSize: nat)
    requires IsWidth(width) && 512 <= clusterSize && a != b
    requires Div(a, PerBlock(width, clusterSize)) == Div(b, PerBlock(width, clusterSize)) < |table|
    requires BlockOffset(table[Div(a, PerBlock(width, clusterSize))], clusterSize) != 0
    ensures RefcountPosition(table, a, width, clusterSize) != RefcountPosition(table, b, width, clusterSize)
  {
    var perBlock := PerBlock(width, clusterSize);
    SameQuotient(a, b, perBlock);
    DistinctMultiples(Mod(a, perBlock), Mod(b, perBlock), width);
  }

  lemma SameQuotient(a: nat, b: nat, d: nat)
    requires 0 < d && Div(a, d) == Div(b, d) && a != b
    ensures Mod(a, d) != Mod(b, d)
  {
    assert a == Div(a, d) * d + Mod(a, d) && b == Div(b, d) * d + Mod(b, d);
  }

  lemma DistinctMultiples(i: nat, j: nat, w: nat)
    requires i != j && 0 < w
    ensures i * w != j * w
  {
    if i < j {
      MulBound(i, w, j);
    } else {
      MulBound(j, w, i);
    }
  }

  /** Round trip in one block: a stored refcount is looked up again, and every other slot of the block,
      the neighbours in the same byte included, keeps its refcount. */
  lemma BlockRoundTrip(bytes: seq<byte>, table: seq<u64>, clusterIdx: nat, v: nat, other: nat, width: nat,
                       clusterSize: nat)
    requires IsWidth(width) && IsClusterSize(clusterSize) && v < Pow2(width)
    requires Lookup(bytes, table, clusterIdx, width, clusterSize).Some?
    requires RefcountPosition(table, clusterIdx, width, clusterSize) != Some(0)
    requires Div(other, PerBlock(width, clusterSize)) == Div(clusterIdx, PerBlock(width, clusterSize))
    ensures
      var start := RefcountPosition(table, clusterIdx, width, clusterSize).value;
      && start % width == 0
      && Lookup(Store(bytes, start, width, v), table, other, width, clusterSize) ==
           if other == clusterIdx then Some(v) else Lookup(bytes, table, other, width, clusterSize)
  {
    LookupAfterStore(bytes, table, clusterIdx, v, other, width, clusterSize);
    if other != clusterIdx {
      SlotsAreDistinct(table, clusterIdx, other, width, clusterSize);
    }
  }

  // The lookup as the program runs it.

  /** Read exactly `n` bytes at an absolute position. */
  method ReadAt(file: RegularFile, offset: u64, n: nat) returns (r: Option<seq<byte>>)
    requires file.Valid() && 0 < n
    modifies file
    ensures r == if offset + n <= |file.bytes| then Some(file.bytes[offset..offset + n]) else None
  {
    var ok := file.Seek(offset);
    if !ok {
      return None;
    }
    r := file.ReadExact(n);
  }

  method RefcountOf(file: RegularFile, refcountTable: seq<u64>, clusterIdx: u64, refcountBits: u32, clusterSize: u64)
    returns (r: Option<nat>)
    requires file.Valid() && IsWidth(refcountBits) && IsClusterSize(clusterSize)
    modifies file
    ensures r == Lookup(file.bytes, refcountTable, clusterIdx, refcountBits, clusterSize)
  {
    LookupCases(file.bytes, refcountTable, clusterIdx, refcountBits, clusterSize);
    var refcountsPerBlock := PerBlock(refcountBits, clusterSize);
    if refcountsPerBlock == 0 {
      return None;
    }
    var tableIdx := Div(clusterIdx, refcountsPerBlock);
    var blockIdx := Mod(clusterIdx, refcountsPerBlock);
    if tableIdx >= |refcountTable| {
      return None;
    }
    r := FetchSlot(file, refcountTable[tableIdx], blockIdx, refcountBits, clusterSize);
  }

  /** The refcount in a slot of the block that a table entry points to, 0 without a block. */
  method FetchSlot(file: RegularFile, entry: u64, slot: nat, refcountBits: u32, clusterSize: u64)
    returns (r: Option<nat>)
    requires file.Valid() && IsWidth(refcountBits) && IsClusterSize(clusterSize)
    requires slot < PerBlock(refcountBits, clusterSize)
    modifies file
    ensures
      var off := BlockOffset(entry, clusterSize);
      r == if off == 0 then Some(0) else Fetch(file.bytes, Some(8 * off + slot * refcountBits), refcountBits)
  {
    var blockOffset := BlockPointer(entry, clusterSize);
    if blockOffset == 0 {
      return Some(0);
    }
    SlotInBlock(slot, refcountBits, clusterSize);
    r := ReadRefcount(file, blockOffset, slot * refcountBits, refcountBits);
  }

  /** Mask off the reserved low bits of a refcount-table entry. */
  method BlockPointer(entry: u64, clusterSize: u64) returns (off: u64)
    requires IsClusterSize(clusterSize)
    ensures off == BlockOffset(entry, clusterSize) && off % 512 == 0 && off + clusterSize <= U64_LIMIT
  {
    BlockMask(entry, clusterSize);
    off := And(entry, Not(clusterSize - 1));
  }

  /** The width-specific arms: fetch the bytes that hold the refcount at bit `bitOff` of the block. */
  method ReadRefcount(file: RegularFile, blockOffset: u64, bitOff: nat, refcountBits: u32) returns (r: Option<nat>)
    requires file.Valid() && IsWidth(refcountBits)
    requires 0 < blockOffset && blockOffset % 512 == 0 && bitOff % refcountBits == 0
    requires 8 * blockOffset + bitOff + refcountBits <= 8 * U64_LIMIT
    modifies file
    ensures r == Fetch(file.bytes, Some(8 * blockOffset + bitOff), refcountBits)
  {
    AlignedInByte(bitOff, refcountBits);
    var byteOff: u64 := blockOffset + bitOff / 8;
    if refcountBits >= 8 {
      r := ReadWhole(file, byteOff, refcountBits / 8);
    } else {
      r := ReadPacked(file, byteOff, bitOff % 8, refcountBits);
    }
    assert 8 * byteOff + bitOff % 8 == 8 * blockOffset + bitOff;
  }

  /** The lookup by cases, in the order the program tests them */
  lemma LookupCases(bytes: seq<byte>, table: seq<u64>, clusterIdx: nat, width: nat, clusterSize: nat)
    requires IsWidth(width) && 512 <= clusterSize
    ensures
      var i, slot := Div(clusterIdx, PerBlock(width, clusterSize)), Mod(clusterIdx, PerBlock(width, clusterSize));
      Lookup(bytes, table, clusterIdx, width, clusterSize) ==
        if i >= |table| then None
        else if BlockOffset(table[i], clusterSize) == 0 then Some(0)
        else Fetch(bytes, Some(8 * BlockOffset(table[i], clusterSize) + slot * width), width)
  {
  }

  /** The 8, 16, 32 and 64-bit arms */
  method ReadWhole(file: RegularFile, byteOff: u64, n: nat) returns (r: Option<nat>)
    requires file.Valid() && 0 < n
    modifies file
    ensures 0 < byteOff ==> r == Fetch(file.bytes, Some(8 * byteOff), 8 * n)
  {
    var b := ReadAt(file, byteOff, n);
    if b.None? {
      return None;
    }
    FieldOfBytes(file.bytes, byteOff, n);
    assert 8 * (byteOff + n) == 8 * byteOff + 8 * n;
    return Some(BE(b.value));
  }

  /** The 1, 2 and 4-bit arm: most significant bits first */
  method ReadPacked(file: RegularFile, byteOff: u64, within: nat, bits: u32) returns (r: Option<nat>)
    requires file.Valid() && bits in {1, 2, 4} && within + bits <= 8
    modifies file
    ensures 0 < byteOff ==> r == Fetch(file.bytes, Some(8 * byteOff + within), bits)
  {
    var b := ReadAt(file, byteOff, 1);
    if b.None? {
      return None;
    }
    PackedField(file.bytes, byteOff, within, bits, 8 * byteOff + within);
    if 0 < byteOff {
      FetchIn(file.bytes, 8 * byteOff + within, bits);
    }
    var mask: u64 := MaskOf(bits);
    var shift: nat := 8 - within - bits;
    return Some(And(Shr(b.value[0], shift), mask));
  }

  /** Shifting a byte down and masking it takes the slot `within` bits from its high end. */
  lemma PackedField(bytes: seq<byte>, q: nat, within: nat, bits: nat, start: nat)
    requires q < |bytes| && within + bits <= 8 && start == 8 * q + within
    ensures And(Shr(bytes[q], 8 - within - bits), Pow2(bits) - 1) == FieldValue(bytes, start, start + bits)
  {
    var shift := 8 - within - bits;
    FieldInByte(bytes, q, within, within + bits);
    AndLow(Shr(bytes[q], shift), bits);
    assert 8 * q + (within + bits) == start + bits;
    assert 8 - within == shift + bits && 8 - (within + bits) == shift && shift + bits - shift == bits;
  }

  /** `(1 << bits) - 1` */
  function MaskOf(bits: u32): (m: u64)
    requires bits in {1, 2, 4}
    ensures m == Pow2(bits) - 1
  {
    Pow2Small();
    Shl(1, bits) - 1
  }
}
