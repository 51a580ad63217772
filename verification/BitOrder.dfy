/** The order of refcounts inside a byte: the program's, most significant bits first, against the
    standard's, in which bit 0 is the least significant ("Host cluster management"). */
module BitOrder {
  import opened Bits
  import opened Bytes
  import opened Io
  import opened Packing
  import opened Refcount
  import opened Scan

  /** A slot that lies inside one byte, or is made of whole bytes */
  predicate IsSlot(start: nat, width: nat) {
    IsWidth(width) && if width < 8 then start % 8 + width <= 8 else start % 8 == 0
  }

  /** The standard's reading of the refcount stored at bit `start`: slots narrower than a byte fill it
      from the low end, the others are big-endian. */
  function StandardValue(bytes: seq<byte>, start: nat, width: nat): nat
    requires IsWidth(width) && start + width <= 8 * |bytes|
  {
    if width >= 8 then BE(bytes[start / 8..start / 8 + width / 8])
    else Field(bytes[start / 8], start % 8, start % 8 + width)
  }

  function StandardFetch(bytes: seq<byte>, position: Option<nat>, width: nat): Option<nat>
    requires IsWidth(width)
  {
    match position
    case None => None
    case Some(start) =>
      if start == 0 then Some(0)
      else if start + width > 8 * |bytes| then None
      else Some(StandardValue(bytes, start, width))
  }

  /** The refcount of a cluster by the standard's bit order */
  function StandardLookup(bytes: seq<byte>, table: seq<u64>, clusterIdx: nat, width: nat, clusterSize: nat)
    : Option<nat>
    requires IsWidth(width) && 512 <= clusterSize
  {
    StandardFetch(bytes, RefcountPosition(table, clusterIdx, width, clusterSize), width)
  }

  // Fields.

  /** The slot at the same distance from the other end of the byte; a wide slot is its own mirror. */
  function MirrorBit(start: nat, width: nat): nat
    requires IsSlot(start, width)
  {
    if width >= 8 then start else 8 * (start / 8) + (8 - start % 8 - width)
  }

  /** The program's value of a slot is the standard's value of the mirrored slot. */
  lemma ValueIsMirrored(bytes: seq<byte>, start: nat, width: nat)
    requires IsSlot(start, width) && start + width <= 8 * |bytes|
    ensures MirrorBit(start, width) + width <= 8 * |bytes|
    ensures FieldValue(bytes, start, start + width) == StandardValue(bytes, MirrorBit(start, width), width)
  {
    if width >= 8 {
      WideIsStandard(bytes, start, width);
    } else {
      var i := start % 8;
      NarrowIsMirrored(bytes, start / 8, i, 8 - i - width, width, start, MirrorBit(start, width));
    }
  }

  lemma WideIsStandard(bytes: seq<byte>, start: nat, width: nat)
    requires IsSlot(start, width) && width >= 8 && start + width <= 8 * |bytes|
    ensures FieldValue(bytes, start, start + width) == StandardValue(bytes, start, width)
  {
    WideBytes(bytes, start, width, start / 8, width / 8);
  }

  lemma WideBytes(bytes: seq<byte>, start: nat, width: nat, q: nat, n: nat)
    requires IsWidth(width) && width == 8 * n && start == 8 * q && q + n <= |bytes|
    ensures FieldValue(bytes, start, start + width) == StandardValue(bytes, start, width)
  {
    WideValue(bytes, q, n, start, start + width);
    assert start / 8 == q && width / 8 == n && width >= 8;
  }

  lemma NarrowIsMirrored(bytes: seq<byte>, q: nat, i: nat, k: nat, width: nat, start: nat, mirror: nat)
    requires width in {1, 2, 4} && q < |bytes| && i + k + width == 8
    requires start == 8 * q + i && mirror == 8 * q + k
    ensures FieldValue(bytes, start, start + width) == StandardValue(bytes, mirror, width)
  {
    NarrowValue(bytes, q, i, width, start, start + width);
    BitOfByte(q, k);
    assert 8 - i - width == k;
  }

  lemma WideValue(bytes: seq<byte>, q: nat, n: nat, lo: nat, hi: nat)
    requires q + n <= |bytes| && lo == 8 * q && hi == 8 * (q + n)
    ensures FieldValue(bytes, lo, hi) == BE(bytes[q..q + n])
  {
    FieldOfBytes(bytes, q, n);
  }

  lemma NarrowValue(bytes: seq<byte>, q: nat, i: nat, width: nat, lo: nat, hi: nat)
    requires q < |bytes| && i + width <= 8 && lo == 8 * q + i && hi == lo + width
    ensures FieldValue(bytes, lo, hi) == Field(bytes[q], 8 - i - width, 8 - i - width + width)
  {
    FieldInByte(bytes, q, i, i + width);
    assert hi == 8 * q + (i + width);
    assert 8 - (i + width) == 8 - i - width && 8 - i == 8 - i - width + width;
  }

  lemma BitOfByte(q: nat, k: nat)
    requires k < 8
    ensures (8 * q + k) / 8 == q && (8 * q + k) % 8 == k
  {
  }

  // Whole bytes.

  /** Slots in a byte */
  function PerByte(width: nat): (n: nat)
    requires width in {1, 2, 4}
    ensures n * width == 8 && n in {2, 4, 8}
  {
    if width == 1 then 8 else if width == 2 then 4 else 2
  }

  /** Where slot `i` of byte `q` starts */
  function SlotStart(q: nat, width: nat, i: nat): (start: nat)
    requires width in {1, 2, 4} && i < PerByte(width)
    ensures start / 8 == q && start % 8 + width <= 8
  {
    SlotSums(0, i, width, PerByte(width));
    BitOfByte(q, i * width);
    8 * q + i * width
  }

  /** Slot `i` of a group of `n` after `t` whole bytes, and its mirror, as bit offsets */
  lemma SlotSums(t: nat, i: nat, width: nat, n: nat)
    requires 0 < width && n * width == 8 && i < n
    ensures 0 <= i * width && i * width + width <= 8
    ensures (t * n + i) * width == 8 * t + i * width
    ensures (n - 1 - i) * width == 8 - i * width - width
    ensures (t * n + (n - 1 - i)) * width == 8 * t + (8 - i * width - width)
  {
    MulBound(i, width, n);
    assert (n - 1 - i) * width == n * width - width - i * width;
    GroupSum(t, n, i, width);
    GroupSum(t, n, n - 1 - i, width);
  }

  lemma GroupSum(t: nat, n: nat, i: nat, width: nat)
    requires n * width == 8
    ensures (t * n + i) * width == 8 * t + i * width
  {
    assert t * n * width == t * (n * width);
  }

  function ProgramSlot(bytes: seq<byte>, q: nat, width: nat, i: nat): nat
    requires width in {1, 2, 4} && q < |bytes| && i < PerByte(width)
  {
    var start := SlotStart(q, width, i);
    FieldValue(bytes, start, start + width)
  }

  function StandardSlot(bytes: seq<byte>, q: nat, width: nat, i: nat): nat
    requires width in {1, 2, 4} && q < |bytes| && i < PerByte(width)
  {
    StandardValue(bytes, SlotStart(q, width, i), width)
  }

  /** The slots of a byte from its low end */
  function Digits(b: byte, width: nat): (d: seq<nat>)
    requires width in {1, 2, 4}
    ensures |d| == PerByte(width)
  {
    seq(PerByte(width), i requires 0 <= i < PerByte(width) => Field(b, i * width, i * width + width))
  }

  function Reversed(s: seq<nat>): (r: seq<nat>)
    ensures |r| == |s|
    ensures forall i :: 0 <= i < |s| ==> r[i] == s[|s| - 1 - i]
  {
    seq(|s|, i requires 0 <= i < |s| => s[|s| - 1 - i])
  }

  /** The standard reads the digits of a byte from the low end, the program reads them reversed. */
  lemma SlotsOfByte(bytes: seq<byte>, q: nat, width: nat, i: nat)
    requires width in {1, 2, 4} && q < |bytes| && i < PerByte(width)
    ensures ProgramSlot(bytes, q, width, i) == Reversed(Digits(bytes[q], width))[i]
    ensures StandardSlot(bytes, q, width, i) == Digits(bytes[q], width)[i]
  {
    ProgramSlotIs(bytes, q, width, i);
    StandardSlotIs(bytes, q, width, i);
  }

  lemma ProgramSlotIs(bytes: seq<byte>, q: nat, width: nat, i: nat)
    requires width in {1, 2, 4} && q < |bytes| && i < PerByte(width)
    ensures ProgramSlot(bytes, q, width, i) == Reversed(Digits(bytes[q], width))[i]
  {
    var j := PerByte(width) - 1 - i;
    ProgramSlotField(bytes, q, width, i, j);
    MirroredDigit(bytes[q], width, i, j);
  }

  lemma ProgramSlotField(bytes: seq<byte>, q: nat, width: nat, i: nat, j: nat)
    requires width in {1, 2, 4} && q < |bytes| && i + j + 1 == PerByte(width)
    ensures 0 <= j * width && ProgramSlot(bytes, q, width, i) == Field(bytes[q], j * width, j * width + width)
  {
    SlotSums(0, i, width, PerByte(width));
    assert PerByte(width) - 1 - i == j;
    ProgramReads(bytes, q, i * width, j * width, width, SlotStart(q, width, i));
  }

  lemma MirroredDigit(b: byte, width: nat, i: nat, j: nat)
    requires width in {1, 2, 4} && i + j + 1 == PerByte(width)
    ensures 0 <= j * width && Reversed(Digits(b, width))[i] == Field(b, j * width, j * width + width)
  {
    DigitAt(b, width, j);
  }

  lemma StandardSlotIs(bytes: seq<byte>, q: nat, width: nat, i: nat)
    requires width in {1, 2, 4} && q < |bytes| && i < PerByte(width)
    ensures StandardSlot(bytes, q, width, i) == Digits(bytes[q], width)[i]
  {
    SlotSums(0, i, width, PerByte(width));
    StandardReads(bytes, q, i * width, width, SlotStart(q, width, i));
    DigitAt(bytes[q], width, i);
  }

  lemma DigitAt(b: byte, width: nat, i: nat)
    requires width in {1, 2, 4} && i < PerByte(width)
    ensures 0 <= i * width && Digits(b, width)[i] == Field(b, i * width, i * width + width)
    ensures Reversed(Digits(b, width))[PerByte(width) - 1 - i] == Digits(b, width)[i]
  {
  }

  lemma ProgramReads(bytes: seq<byte>, q: nat, i: nat, k: nat, width: nat, start: nat)
    requires width in {1, 2, 4} && q < |bytes| && i + k + width == 8 && start == 8 * q + i
    ensures FieldValue(bytes, start, start + width) == Field(bytes[q], k, k + width)
  {
    NarrowValue(bytes, q, i, width, start, start + width);
    assert 8 - i - width == k;
  }

  lemma StandardReads(bytes: seq<byte>, q: nat, i: nat, width: nat, start: nat)
    requires width in {1, 2, 4} && q < |bytes| && i + width <= 8 && start == 8 * q + i
    ensures StandardValue(bytes, start, width) == Field(bytes[q], i, i + width)
  {
    BitOfByte(q, i);
  }

  /** Program and standard agree on every slot of a byte exactly when its digits read the same in both
      directions. */
  lemma ByteAgrees(bytes: seq<byte>, q: nat, width: nat)
    requires width in {1, 2, 4} && q < |bytes|
    ensures
      (forall i :: 0 <= i < PerByte(width) ==> ProgramSlot(bytes, q, width, i) == StandardSlot(bytes, q, width, i))
      <==> Reversed(Digits(bytes[q], width)) == Digits(bytes[q], width)
  {
    var d := Digits(bytes[q], width);
    forall i | 0 <= i < PerByte(width)
      ensures ProgramSlot(bytes, q, width, i) == Reversed(d)[i] && StandardSlot(bytes, q, width, i) == d[i]
    {
      SlotsOfByte(bytes, q, width, i);
    }
    SameSeq(Reversed(d), d);
  }

  /** They agree on which slots of a byte are zero exactly when its zero digits sit symmetrically. */
  lemma ZerosAgree(bytes: seq<byte>, q: nat, width: nat)
    requires width in {1, 2, 4} && q < |bytes|
    ensures
      var d := Digits(bytes[q], width);
      (forall i :: 0 <= i < PerByte(width) ==>
         (ProgramSlot(bytes, q, width, i) == 0 <==> StandardSlot(bytes, q, width, i) == 0))
      <==> (forall i :: 0 <= i < PerByte(width) ==> (Reversed(d)[i] == 0 <==> d[i] == 0))
  {
    var d := Digits(bytes[q], width);
    forall i | 0 <= i < PerByte(width)
      ensures ProgramSlot(bytes, q, width, i) == Reversed(d)[i] && StandardSlot(bytes, q, width, i) == d[i]
    {
      SlotsOfByte(bytes, q, width, i);
    }
  }

  lemma SameSeq(a: seq<nat>, b: seq<nat>)
    requires |a| == |b|
    ensures a == b <==> forall i :: 0 <= i < |a| ==> a[i] == b[i]
  {
  }

  // Lookups and verdicts.

  /** The cluster whose refcount is stored in the mirrored slot of the same byte */
  function MirrorCluster(clusterIdx: nat, width: nat): nat
    requires IsWidth(width)
  {
    if width >= 8 then clusterIdx else MirrorIn(clusterIdx, PerByte(width))
  }

  /** The mirror image inside groups of `n` */
  function MirrorIn(c: nat, n: nat): (m: nat)
    requires 0 < n
  {
    Div(c, n) * n + (n - 1 - Mod(c, n))
  }

  lemma MirrorInGroup(c: nat, n: nat)
    requires 0 < n
    ensures Div(MirrorIn(c, n), n) == Div(c, n) && Mod(MirrorIn(c, n), n) == n - 1 - Mod(c, n)
    ensures MirrorIn(MirrorIn(c, n), n) == c
  {
    DivModUnique(MirrorIn(c, n), n, Div(c, n), n - 1 - Mod(c, n));
    assert c == Div(c, n) * n + Mod(c, n);
  }

  /** Positions `p` and `m` are both missing, both unallocated, or mirrored slots. */
  predicate MirroredPositions(p: Option<nat>, m: Option<nat>, width: nat) {
    match p
    case None => m == None
    case Some(start) =>
      if start == 0 then m == Some(0)
      else IsSlot(start, width) && m == Some(MirrorBit(start, width)) && MirrorBit(start, width) != 0
  }

  /** Mirroring clusters is mirroring positions. */
  lemma MirrorPosition(table: seq<u64>, clusterIdx: nat, width: nat, clusterSize: nat)
    requires IsWidth(width) && IsClusterSize(clusterSize)
    ensures
      MirroredPositions(RefcountPosition(table, clusterIdx, width, clusterSize),
                        RefcountPosition(table, MirrorCluster(clusterIdx, width), width, clusterSize), width)
  {
    if width >= 8 {
      WidePosition(table, clusterIdx, width, clusterSize);
    } else {
      NarrowPosition(table, clusterIdx, width, clusterSize);
    }
  }

  lemma WidePosition(table: seq<u64>, clusterIdx: nat, width: nat, clusterSize: nat)
    requires IsWidth(width) && IsClusterSize(clusterSize) && width >= 8
    ensures
      var p := RefcountPosition(table, clusterIdx, width, clusterSize);
      MirroredPositions(p, p, width)
  {
    PositionAligned(table, clusterIdx, width, clusterSize);
    var p := RefcountPosition(table, clusterIdx, width, clusterSize);
    if p.Some? {
      AlignedInByte(p.value, width);
    }
  }

  lemma NarrowPosition(table: seq<u64>, clusterIdx: nat, width: nat, clusterSize: nat)
    requires width in {1, 2, 4} && IsClusterSize(clusterSize)
    ensures
      MirroredPositions(RefcountPosition(table, clusterIdx, width, clusterSize),
                        RefcountPosition(table, MirrorCluster(clusterIdx, width), width, clusterSize), width)
  {
    SameBlock(clusterIdx, width, clusterSize);
    var perBlock := PerBlock(width, clusterSize);
    MirroredSlots(table, Div(clusterIdx, perBlock), Mod(clusterIdx, perBlock), width, clusterSize);
    PositionOfSlot(table, clusterIdx, width, clusterSize);
    PositionOfSlot(table, MirrorCluster(clusterIdx, width), width, clusterSize);
  }

  lemma PositionOfSlot(table: seq<u64>, c: nat, width: nat, clusterSize: nat)
    requires IsWidth(width) && 512 <= clusterSize
    ensures
      var perBlock := PerBlock(width, clusterSize);
      RefcountPosition(table, c, width, clusterSize) ==
        SlotPosition(table, Div(c, perBlock), Mod(c, perBlock), width, clusterSize)
  {
  }

  /** The position of slot `slot` of the block that table entry `i` points to */
  function SlotPosition(table: seq<u64>, i: nat, slot: nat, width: nat, clusterSize: nat): Option<nat>
    requires 0 < clusterSize
  {
    if i >= |table| then None
    else if BlockOffset(table[i], clusterSize) == 0 then Some(0)
    else Some(8 * BlockOffset(table[i], clusterSize) + slot * width)
  }

  lemma MirroredSlots(table: seq<u64>, i: nat, slot: nat, width: nat, clusterSize: nat)
    requires width in {1, 2, 4} && 0 < clusterSize
    ensures MirroredPositions(SlotPosition(table, i, slot, width, clusterSize),
                              SlotPosition(table, i, MirrorCluster(slot, width), width, clusterSize), width)
  {
    if i < |table| && BlockOffset(table[i], clusterSize) != 0 {
      MirrorInBlock(BlockOffset(table[i], clusterSize), slot, width);
    }
  }

  /** A cluster and its mirror have their refcounts in the same block, at mirrored slots. */
  lemma SameBlock(c: nat, width: nat, clusterSize: nat)
    requires width in {1, 2, 4} && IsClusterSize(clusterSize)
    ensures
      var perBlock, m := PerBlock(width, clusterSize), MirrorCluster(c, width);
      && Div(m, perBlock) == Div(c, perBlock)
      && Mod(m, perBlock) == MirrorCluster(Mod(c, perBlock), width)
  {
    BlockOfSlots(width, clusterSize);
    MirrorInBlocks(c, PerByte(width), clusterSize);
  }

  lemma MirrorInBlocks(c: nat, n: nat, k: nat)
    requires 0 < n && 0 < k
    ensures 0 < n * k
    ensures Div(MirrorIn(c, n), n * k) == Div(c, n * k)
    ensures Mod(MirrorIn(c, n), n * k) == MirrorIn(Mod(c, n * k), n)
  {
    MirrorInGroup(c, n);
    ModSplit(c, n, k);
    ModSplit(MirrorIn(c, n), n, k);
    DivModUnique(Mod(c, n * k), n, Mod(Div(c, n), k), Mod(c, n));
  }

  lemma BlockOfSlots(width: nat, clusterSize: nat)
    requires width in {1, 2, 4} && 512 <= clusterSize
    ensures PerBlock(width, clusterSize) == PerByte(width) * clusterSize
  {
    if width == 1 {
    } else if width == 2 {
    } else {
      assert width == 4;
    }
  }

  lemma MirrorInBlock(off: nat, slot: nat, width: nat)
    requires width in {1, 2, 4} && off != 0
    ensures 0 <= slot * width
    ensures MirroredPositions(Some(8 * off + slot * width), Some(8 * off + MirrorCluster(slot, width) * width), width)
  {
    var n := PerByte(width);
    var t, i := Div(slot, n), Mod(slot, n);
    SlotSums(t, i, width, n);
    assert slot == t * n + i;
    BitOfByte(off + t, i * width);
    assert 8 * off + slot * width == 8 * (off + t) + i * width;
  }

  /** At every width the program's refcount of a cluster is the standard's refcount of the mirrored
      cluster. */
  lemma LookupIsMirrored(bytes: seq<byte>, table: seq<u64>, clusterIdx: nat, width: nat, clusterSize: nat)
    requires IsWidth(width) && IsClusterSize(clusterSize)
    ensures Lookup(bytes, table, clusterIdx, width, clusterSize) ==
            StandardLookup(bytes, table, MirrorCluster(clusterIdx, width), width, clusterSize)
  {
    MirrorPosition(table, clusterIdx, width, clusterSize);
    FetchIsMirrored(bytes, RefcountPosition(table, clusterIdx, width, clusterSize),
                    RefcountPosition(table, MirrorCluster(clusterIdx, width), width, clusterSize), width);
  }

  lemma FetchIsMirrored(bytes: seq<byte>, p: Option<nat>, m: Option<nat>, width: nat)
    requires IsWidth(width) && MirroredPositions(p, m, width)
    ensures Fetch(bytes, p, width) == StandardFetch(bytes, m, width)
  {
    if p.Some? && p.value != 0 {
      FetchesSame(bytes, p.value, MirrorBit(p.value, width), width);
    }
  }

  lemma FetchesSame(bytes: seq<byte>, start: nat, mirror: nat, width: nat)
    requires IsSlot(start, width) && mirror == MirrorBit(start, width) && start != 0 && mirror != 0
    ensures Fetch(bytes, Some(start), width) == StandardFetch(bytes, Some(mirror), width)
  {
    SameByte(start, width, |bytes|);
    if start + width <= 8 * |bytes| {
      ValueIsMirrored(bytes, start, width);
    }
  }

  lemma SameByte(start: nat, width: nat, n: nat)
    requires IsSlot(start, width)
    ensures start + width <= 8 * n <==> MirrorBit(start, width) + width <= 8 * n
  {
  }

  lemma MirrorTwice(clusterIdx: nat, width: nat)
    requires IsWidth(width)
    ensures MirrorCluster(MirrorCluster(clusterIdx, width), width) == clusterIdx
  {
    if width < 8 {
      MirrorInGroup(clusterIdx, PerByte(width));
    }
  }

  /** The two readings of the slot at position `p`: counted from the high and from the low end of its
      byte.  `None` where they cannot differ: no such slot, or one of whole bytes. */
  function Readings(bytes: seq<byte>, p: Option<nat>, width: nat): Option<(nat, nat)>
    requires p.Some? ==> IsSlot(p.value, width)
  {
    if p.None? || p.value == 0 || width >= 8 || p.value + width > 8 * |bytes| then None
    else
      var b, i := bytes[p.value / 8], p.value % 8;
      Some((Field(b, 8 - i - width, 8 - i), Field(b, i, i + width)))
  }

  lemma FetchesByReadings(bytes: seq<byte>, p: Option<nat>, width: nat)
    requires IsWidth(width) && (p.Some? ==> IsSlot(p.value, width))
    ensures
      match Readings(bytes, p, width)
      case None => Fetch(bytes, p, width) == StandardFetch(bytes, p, width)
      case Some((high, low)) => Fetch(bytes, p, width) == Some(high) && StandardFetch(bytes, p, width) == Some(low)
  {
    if p.Some? && p.value != 0 && p.value + width <= 8 * |bytes| {
      FetchesInFile(bytes, p.value, width);
      if width >= 8 {
        WideIsStandard(bytes, p.value, width);
      } else {
        NarrowReadings(bytes, p.value, p.value / 8, p.value % 8, width);
      }
    }
  }

  lemma FetchesInFile(bytes: seq<byte>, start: nat, width: nat)
    requires IsWidth(width) && start != 0 && start + width <= 8 * |bytes|
    ensures Fetch(bytes, Some(start), width) == Some(FieldValue(bytes, start, start + width))
    ensures StandardFetch(bytes, Some(start), width) == Some(StandardValue(bytes, start, width))
  {
  }

  lemma NarrowReadings(bytes: seq<byte>, start: nat, q: nat, i: nat, width: nat)
    requires width in {1, 2, 4} && i + width <= 8 && start == 8 * q + i && q < |bytes|
    ensures FieldValue(bytes, start, start + width) == Field(bytes[q], 8 - i - width, 8 - i)
    ensures StandardValue(bytes, start, width) == Field(bytes[q], i, i + width)
  {
    NarrowValue(bytes, q, i, width, start, start + width);
    StandardReads(bytes, q, i, width, start);
    assert 8 - i - width + width == 8 - i;
  }

  lemma PositionIsSlot(table: seq<u64>, clusterIdx: nat, width: nat, clusterSize: nat)
    requires IsWidth(width) && IsClusterSize(clusterSize)
    ensures
      var p := RefcountPosition(table, clusterIdx, width, clusterSize);
      p.Some? ==> IsSlot(p.value, width)
  {
    PositionAligned(table, clusterIdx, width, clusterSize);
    var p := RefcountPosition(table, clusterIdx, width, clusterSize);
    if p.Some? {
      AlignedInByte(p.value, width);
    }
  }

  /** The program's refcount of a cluster is the standard's exactly when its slot reads the same from
      both ends of its byte; slots of whole bytes, and clusters without a slot in the file, always
      agree. */
  lemma LookupsAgree(bytes: seq<byte>, table: seq<u64>, clusterIdx: nat, width: nat, clusterSize: nat)
    requires IsWidth(width) && IsClusterSize(clusterSize)
    ensures
      var p := RefcountPosition(table, clusterIdx, width, clusterSize);
      && (p.Some? ==> IsSlot(p.value, width))
      && (Lookup(bytes, table, clusterIdx, width, clusterSize) ==
            StandardLookup(bytes, table, clusterIdx, width, clusterSize)
          <==> match Readings(bytes, p, width)
               case None => true
               case Some((high, low)) => high == low)
  {
    PositionIsSlot(table, clusterIdx, width, clusterSize);
    FetchesByReadings(bytes, RefcountPosition(table, clusterIdx, width, clusterSize), width);
  }

  /** In terms of the program alone: it agrees with the standard on a cluster exactly when it reads the
      same refcount for the mirrored cluster. */
  lemma LookupsAgreeOnMirror(bytes: seq<byte>, table: seq<u64>, clusterIdx: nat, width: nat, clusterSize: nat)
    requires IsWidth(width) && IsClusterSize(clusterSize)
    ensures
      var here := Lookup(bytes, table, clusterIdx, width, clusterSize);
      var there := Lookup(bytes, table, MirrorCluster(clusterIdx, width), width, clusterSize);
      var standard := StandardLookup(bytes, table, clusterIdx, width, clusterSize);
      && (here == standard <==> here == there)
      && (width >= 8 ==> here == standard)
  {
    MirrorTwice(clusterIdx, width);
    LookupIsMirrored(bytes, table, clusterIdx, width, clusterSize);
    LookupIsMirrored(bytes, table, MirrorCluster(clusterIdx, width), width, clusterSize);
  }

  /** The standard's verdict on the data cluster at `host` */
  predicate StandardOrphan(bytes: seq<byte>, rt: seq<u64>, host: u64, width: nat, clusterSize: nat)
    requires IsWidth(width) && IsClusterSize(clusterSize)
  {
    StandardLookup(bytes, rt, Div(host, clusterSize), width, clusterSize) == Some(0)
  }

  /** The scan's verdict on a data cluster is the standard's exactly when its slot is zero from both ends
      of its byte or from neither; without a slot narrower than a byte it always is. */
  lemma VerdictsAgree(bytes: seq<byte>, rt: seq<u64>, host: u64, width: nat, clusterSize: nat)
    requires IsWidth(width) && IsClusterSize(clusterSize)
    ensures
      var p := RefcountPosition(rt, Div(host, clusterSize), width, clusterSize);
      && (p.Some? ==> IsSlot(p.value, width))
      && ((IsOrphan(bytes, rt, host, width, clusterSize) <==> StandardOrphan(bytes, rt, host, width, clusterSize))
          <==> match Readings(bytes, p, width)
               case None => true
               case Some((high, low)) => high == 0 <==> low == 0)
  {
    PositionIsSlot(rt, Div(host, clusterSize), width, clusterSize);
    FetchesByReadings(bytes, RefcountPosition(rt, Div(host, clusterSize), width, clusterSize), width);
  }

  /** A byte 0x80 at width 1: in slot 0 the program reads 1 and the standard 0, in slot 7 the reverse. */
  lemma HighBitDiffers(bytes: seq<byte>, q: nat)
    requires q < |bytes| && bytes[q] == 0x80
    ensures ProgramSlot(bytes, q, 1, 0) == 1 && StandardSlot(bytes, q, 1, 0) == 0
    ensures ProgramSlot(bytes, q, 1, 7) == 0 && StandardSlot(bytes, q, 1, 7) == 1
  {
    SlotsOfByte(bytes, q, 1, 0);
    SlotsOfByte(bytes, q, 1, 7);
    EndDigits(bytes[q]);
  }

  lemma EndDigits(b: byte)
    requires b == 0x80
    ensures Digits(b, 1)[0] == 0 && Digits(b, 1)[7] == 1
  {
    Pow2Small();
  }

  /** A file whose refcount block at 512 starts with 0x80, at width 1: the scan calls the cluster at 3584 an
      orphan, the standard says it is in use. */
  lemma FalseOrphan(bytes: seq<byte>, rt: seq<u64>)
    requires 512 < |bytes| && bytes[512] == 0x80 && rt != [] && rt[0] == 512
    ensures IsOrphan(bytes, rt, 3584, 1, 512) && !StandardOrphan(bytes, rt, 3584, 1, 512)
  {
    HighBitDiffers(bytes, 512);
    LastSlot(rt);
    FetchesInFile(bytes, 4103, 1);
    assert SlotStart(512, 1, 7) == 4103;
  }

  lemma LastSlot(rt: seq<u64>)
    requires rt != [] && rt[0] == 512
    ensures RefcountPosition(rt, 7, 1, 512) == Some(4103)
  {
    PositionOfSlot(rt, 7, 1, 512);
    BitsPerBlock(512);
    DivModUnique(7, 4096, 0, 7);
    FirstBlock(rt, 7, 512);
  }

  lemma BitsPerBlock(clusterSize: nat)
    requires 512 <= clusterSize
    ensures PerBlock(1, clusterSize) == 8 * clusterSize
  {
  }

  lemma FirstBlock(rt: seq<u64>, slot: nat, clusterSize: nat)
    requires rt != [] && 0 < clusterSize == rt[0]
    ensures SlotPosition(rt, 0, slot, 1, clusterSize) == Some(8 * clusterSize + slot)
  {
    DivModUnique(rt[0], clusterSize, 1, 0);
  }
}
