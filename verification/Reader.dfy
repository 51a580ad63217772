/** The strict reader: opening an image, resolving clusters, reading and seeking. */
module Reader {
  import opened Bits
  import opened Bytes
  import opened Io
  import opened Header
  import opened Mapping
  import C = Cursor

  const HEADER_WINDOW: nat := 104

  /** What opening an image yields, as a function of the bytes alone.  The header is read at the
      backing's current position `start`; everything after that is positioned absolutely. */
  function OpenImage(bytes: seq<byte>, seekLimit: u64, inflate: Inflate, start: nat): Result<Image, Qcow2Error> {
    match ParseHeader(Window(bytes, start, HEADER_WINDOW))
    case Err(e) => Err(e)
    case Ok(h) =>
      if h.l1Size > MAX_L1_ENTRIES then Err(L1TableTooLarge(h.l1Size))
      else
        match L1TableAt(bytes, seekLimit, h.l1TableOffset, h.l1Size)
        case None => Err(Io)
        case Some(l1) => Ok(Image(bytes, seekLimit, h.clusterBits, h.diskSize, l1, inflate))
  }

  /** The L1 table, if all of it lies in the file; an empty one only needs a valid position. */
  function L1TableAt(bytes: seq<byte>, seekLimit: u64, offset: u64, entries: nat): (t: Option<seq<u64>>)
    ensures t.Some? ==> |t.value| == entries
  {
    if offset > seekLimit then None
    else if entries == 0 then Some([])
    else if offset + entries * 8 > |bytes| then None
    else Some(Table(Window(bytes, offset, entries * 8)))
  }

  /** What a successful opening fixes */
  lemma OpenedImage(bytes: seq<byte>, seekLimit: u64, inflate: Inflate, start: nat, img: Image)
    requires OpenImage(bytes, seekLimit, inflate, start) == Ok(img)
    ensures
      var hdr := Window(bytes, start, HEADER_WINDOW);
      && img.bytes == bytes && img.clusterBits == BeU32(hdr, 20) && img.size == BeU64(hdr, 24)
      && |img.l1| == BeU32(hdr, 36) <= MAX_L1_ENTRIES
      && L1TableAt(bytes, seekLimit, BeU64(hdr, 40), BeU32(hdr, 36)) == Some(img.l1)
  {
  }

  class Qcow2Reader {
    const backing: Backing
    const virtualDiskSize: u64
    const clusterSize: u64
    const l1Table: seq<u64>
    const l2Bits: nat
    const l2Mask: u64
    const inflate: Inflate
    const overflowChecks: bool // whether the program was built to panic on arithmetic overflow
    var pos: u64

    ghost const image: Image // what this reader serves

    constructor (backing: Backing, virtualDiskSize: u64, clusterSize: u64, l1Table: seq<u64>, l2Bits: nat,
                 l2Mask: u64, inflate: Inflate, overflowChecks: bool, ghost clusterBits: nat)
      ensures this.backing == backing && this.virtualDiskSize == virtualDiskSize
      ensures this.clusterSize == clusterSize && this.l1Table == l1Table
      ensures this.l2Bits == l2Bits && this.l2Mask == l2Mask && this.inflate == inflate && pos == 0
      ensures this.overflowChecks == overflowChecks
      ensures image == Image(backing.bytes, backing.seekLimit, clusterBits, virtualDiskSize, l1Table, inflate)
    {
      this.backing, this.virtualDiskSize, this.clusterSize := backing, virtualDiskSize, clusterSize;
      this.l1Table, this.l2Bits, this.l2Mask, this.inflate := l1Table, l2Bits, l2Mask, inflate;
      image := Image(backing.bytes, backing.seekLimit, clusterBits, virtualDiskSize, l1Table, inflate);
      this.overflowChecks, pos := overflowChecks, 0;
    }

    ghost predicate Valid() {
      && backing.Valid()
      && image.Valid()
      && image == Image(backing.bytes, backing.seekLimit, image.clusterBits, virtualDiskSize, l1Table, inflate)
      && clusterSize == image.ClusterSize()
      && l2Bits == image.clusterBits - 3
      && l2Mask == Pow2(l2Bits) - 1
    }

    /** `cluster_size.trailing_zeros()` */
    method ClusterBits() returns (bits: nat)
      requires Valid()
      ensures bits == image.clusterBits
    {
      TrailingZerosPow2(image.clusterBits);
      bits := TrailingZeros(clusterSize);
    }

    /** Opening succeeds exactly when the image itself is acceptable, and fails with the error that
        image calls for. */
    static method FromBacking(backing: Backing, inflate: Inflate, overflowChecks: bool)
      returns (r: Result<Qcow2Reader, Qcow2Error>)
      requires backing.Valid()
      modifies backing
      ensures r.Ok? ==>
        && fresh(r.value) && r.value.backing == backing && r.value.Valid() && r.value.pos == 0
        && r.value.overflowChecks == overflowChecks
        && OpenImage(backing.bytes, backing.seekLimit, inflate, old(backing.cursor)) == Ok(r.value.image)
      ensures r.Err? && backing.reliable ==>
        OpenImage(backing.bytes, backing.seekLimit, inflate, old(backing.cursor)) == Err(r.error)
    {
      var hdrBuf := new byte[HEADER_WINDOW](_ => 0);
      var hdrRead := backing.ReadWindow(hdrBuf);
      if hdrRead.None? {
        return Err(Io);
      }
      var parsed := ParseHeader(hdrBuf[..hdrRead.value]);
      if parsed.Err? {
        return Err(parsed.error);
      }
      var hdr := parsed.value;
      ClusterGeometry(hdr.clusterBits);
      var clusterSize: u64 := Shl(1, hdr.clusterBits);
      var l2Entries: u64 := clusterSize / 8;
      var l2Bits := hdr.clusterBits - 3;
      var l2Mask: u64 := l2Entries - 1;
      if hdr.l1Size > MAX_L1_ENTRIES {
        return Err(L1TableTooLarge(hdr.l1Size));
      }
      var l1Table := LoadL1(backing, hdr.l1TableOffset, hdr.l1Size);
      if l1Table.None? {
        return Err(Io);
      }
      var reader := new Qcow2Reader(backing, hdr.diskSize, clusterSize, l1Table.value, l2Bits, l2Mask, inflate,
                                     overflowChecks, hdr.clusterBits);
      return Ok(reader);
    }

    static method LoadL1(backing: Backing, offset: u64, entries: nat) returns (r: Option<seq<u64>>)
      requires backing.Valid()
      modifies backing
      ensures r.Some? ==> r == L1TableAt(backing.bytes, backing.seekLimit, offset, entries)
      ensures backing.reliable ==> r == L1TableAt(backing.bytes, backing.seekLimit, offset, entries)
    {
      var ok := backing.Seek(offset);
      if !ok {
        return None;
      }
      var l1Buf := new byte[entries * 8](_ => 0);
      ok := backing.ReadExact(l1Buf);
      if !ok {
        return None;
      }
      return Some(Table(l1Buf[..]));
    }

    /** The table indices of a guest offset, by shifts and a mask. */
    method Locate(virtualOffset: u64, clusterBits: nat) returns (l1Idx: nat, l2Idx: nat)
      requires Valid() && clusterBits == image.clusterBits
      ensures l1Idx == Split(image, virtualOffset).l1Index && l2Idx == Split(image, virtualOffset).l2Index
    {
      var clusterIdx := Shr(virtualOffset, clusterBits);
      AndLow(clusterIdx, l2Bits);
      l1Idx := Shr(clusterIdx, l2Bits);
      l2Idx := And(clusterIdx, l2Mask);
    }

    /** Resolve a guest offset to the place its bytes come from. */
    method ClusterRefFor(virtualOffset: u64) returns (r: Option<ClusterRef>)
      requires Valid()
      modifies backing
      ensures r.Some? ==> r == Resolve(image, virtualOffset)
      ensures backing.reliable ==> r == Resolve(image, virtualOffset)
      ensures r.Some? ==> InBounds(r.value)
    {
      var clusterBits := ClusterBits();
      var l1Idx, l2Idx := Locate(virtualOffset, clusterBits);
      var l1Entry: u64 := if l1Idx < |l1Table| then l1Table[l1Idx] else 0;
      TableOffsetMask(l1Entry);
      var l2TableOffset: u64 := And(l1Entry, 0x7FFF_FFFF_FFFF_FFFF);
      if l2TableOffset == 0 {
        return Some(Unallocated);
      }
      L2IndexBound(l2Bits, l2Idx);
      var l2EntryPos: u64 := l2TableOffset + l2Idx * 8;
      var l2Entry := ReadEntry(l2EntryPos);
      if l2Entry.None? {
        return None;
      }
      var ref := DecodeEntry(l2Entry.value, clusterBits);
      return Some(ref);
    }

    /** The big-endian word at an absolute position of the backing. */
    method ReadEntry(pos: u64) returns (e: Option<u64>)
      requires Valid()
      modifies backing
      ensures e.Some? ==> pos + 8 <= |image.bytes| && e.value == BeU64(image.bytes, pos)
      ensures e.None? && backing.reliable ==> pos + 8 > |image.bytes|
    {
      var ok := backing.Seek(pos);
      if !ok {
        return None;
      }
      var l2Bytes := new byte[8](_ => 0);
      ok := backing.ReadExact(l2Bytes);
      if !ok {
        return None;
      }
      assert l2Bytes[..][0..8] == backing.bytes[pos..pos + 8];
      return Some(BeU64(l2Bytes[..], 0));
    }

    /** Read and decompress a compressed cluster, padded to the cluster size. */
    method DecompressCluster(fileOffset: u64, compressedBytes: nat) returns (r: Option<seq<byte>>)
      requires Valid()
      modifies backing
      ensures r.Some? ==> r == Decompress(image, fileOffset, compressedBytes)
      ensures backing.reliable ==> r == Decompress(image, fileOffset, compressedBytes)
    {
      var ok := backing.Seek(fileOffset);
      if !ok {
        return None;
      }
      var raw := new byte[compressedBytes](_ => 0);
      var filled := 0;
      while filled < compressedBytes
        invariant 0 <= filled <= compressedBytes
        invariant backing.cursor == fileOffset + filled
        invariant filled > 0 ==> backing.cursor <= |backing.bytes|
        invariant forall k :: 0 <= k < filled ==> raw[k] == backing.bytes[fileOffset + k]
      {
        var n := backing.Read(raw, filled, compressedBytes);
        if n.None? {
          return None;
        }
        if n.value == 0 {
          break;
        }
        filled := filled + n.value;
      }
      assert raw[..filled] == Window(backing.bytes, fileOffset, compressedBytes);
      var out := inflate(raw[..filled]);
      if out.None? {
        return None;
      }
      return Some(PadTo(out.value, clusterSize));
    }

    /** `Read::read` into `buf[lo..hi]`. */
    method Read(buf: array<byte>, lo: nat, hi: nat) returns (r: Option<nat>)
      requires Valid() && lo <= hi <= buf.Length
      modifies this, backing, buf
      ensures r.Some? ==> r.value <= hi - lo
      ensures C.ReadStep(image, backing.reliable, old(pos), hi - lo,
                         if r.Some? then C.Data(buf[lo..lo + r.value]) else C.Failed, pos)
      ensures forall k :: 0 <= k < buf.Length && !(lo <= k < hi) ==> buf[k] == old(buf[k])
    {
      if pos >= virtualDiskSize || lo == hi {
        return Some(0);
      }
      var toRead, offsetInCluster := PlanRead(hi - lo);
      var ref := ClusterRefFor(pos);
      if ref.None? {
        ReadFailed(image, backing.reliable, pos, hi - lo);
        return None;
      }
      r := ReadCluster(ref.value, offsetInCluster, buf, lo, toRead);
      if r.None? {
        ReadFailed(image, backing.reliable, pos, hi - lo);
        return None;
      }
      ReadDelivered(image, backing.reliable, pos, hi - lo, buf[lo..lo + r.value]);
      pos := pos + r.value;
    }

    /** How much of a nonempty request one read may serve, and where in the cluster it starts. */
    method PlanRead(len: nat) returns (toRead: nat, offsetInCluster: nat)
      requires Valid() && pos < virtualDiskSize && 0 < len
      ensures toRead == C.ReadLimit(image, pos, len) && 0 < toRead <= len && pos + toRead <= virtualDiskSize
      ensures offsetInCluster == Mod(pos, image.ClusterSize()) && offsetInCluster + toRead <= clusterSize
    {
      var remainingVirtual := virtualDiskSize - pos;
      AndLow(pos, image.clusterBits);
      offsetInCluster := And(pos, clusterSize - 1);
      var remainingInCluster := clusterSize - offsetInCluster;
      toRead := Min(Min(len, remainingVirtual), remainingInCluster);
    }

    /** The part of `read` that fetches up to `toRead` bytes of a resolved cluster. */
    method ReadCluster(ref: ClusterRef, offsetInCluster: nat, buf: array<byte>, lo: nat, toRead: nat)
      returns (r: Option<nat>)
      requires Valid() && 0 < toRead && lo + toRead <= buf.Length
      requires offsetInCluster + toRead <= clusterSize && InBounds(ref)
      modifies backing, buf
      ensures r.Some? ==> r.value <= toRead && (r.value < toRead ==> ref.Normal?)
      ensures r.Some? ==> PlaceHolds(image, Some(ref), offsetInCluster, buf[lo..lo + r.value])
      ensures r == Some(0) ==> CellIn(image, Some(ref), offsetInCluster) == HostEof
      ensures r == None && backing.reliable ==> CellIn(image, Some(ref), offsetInCluster) == Fault
      ensures forall k :: 0 <= k < buf.Length && !(lo <= k < lo + toRead) ==> buf[k] == old(buf[k])
    {
      match ref {
        case Normal(clusterOffset) =>
          ClusterSizeBound(image.clusterBits);
          var fileOff: u64 := clusterOffset + offsetInCluster;
          var ok := backing.Seek(fileOff);
          if !ok {
            return None;
          }
          r := backing.Read(buf, lo, lo + toRead);
        case Compressed(fileOffset, compressedBytes) =>
          var data := DecompressCluster(fileOffset, compressedBytes);
          if data.None? {
            return None;
          }
          forall k | lo <= k < lo + toRead {
            buf[k] := data.value[offsetInCluster + k - lo];
          }
          return Some(toRead);
        case _ =>
          forall k | lo <= k < lo + toRead {
            buf[k] := 0;
          }
          return Some(toRead);
      }
    }

    /** `Seek::seek`: only a build with overflow checks ever panics, and never for `Start`. */
    method Seek(whence: C.SeekFrom) returns (out: C.Outcome)
      requires Valid()
      modifies this
      ensures C.SeekStep(overflowChecks, virtualDiskSize, old(pos), whence, out, pos)
    {
      var sum := C.SignedSum(virtualDiskSize, pos, whence);
      if overflowChecks && !C.IsI64(sum) {
        return C.Panicked;
      }
      var newPos := C.Wrap(sum);
      if newPos < 0 {
        return C.Failed;
      }
      pos := newPos;
      return C.Moved(pos);
    }
  }

  /** Classify an L2 entry with the program's shifts and masks. */
  method DecodeEntry(l2Entry: u64, clusterBits: nat) returns (r: ClusterRef)
    requires 9 <= clusterBits <= 20
    ensures r == DecodeL2(l2Entry, clusterBits) && InBounds(r)
  {
    FlagMasks(l2Entry);
    if And(l2Entry, Shl(1, 62)) != 0 {
      r := DecodeDescriptor(l2Entry, clusterBits);
      return;
    }
    if And(l2Entry, 1) != 0 {
      return ZeroCluster;
    }
    var clusterOffset: u64 := And(l2Entry, 0x3FFF_FFFF_FFFF_FFFF);
    if clusterOffset == 0 {
      return Unallocated;
    }
    return Normal(clusterOffset);
  }

  /** The offset and the sector count of a compressed-cluster descriptor */
  method DecodeDescriptor(l2Entry: u64, clusterBits: nat) returns (r: ClusterRef)
    requires 9 <= clusterBits <= 20 && Field(l2Entry, 62, 63) == 1
    ensures r == DecodeL2(l2Entry, clusterBits) && InBounds(r)
  {
    DescriptorMasks(l2Entry, clusterBits);
    var split := 63 - clusterBits;
    var countMask: u64 := Shl(1, clusterBits - 1) - 1;
    var fileOffset: u64 := And(l2Entry, Shl(1, split) - 1);
    var nbSectors := And(Shr(l2Entry, split), countMask) + 1;
    return Compressed(fileOffset, nbSectors * 512);
  }

  // Each mask of the entry decoder is the bit field it stands for.

  lemma FlagMasks(e: u64)
    ensures And(e, Shl(1, 62)) != 0 <==> Field(e, 62, 63) == 1
    ensures And(e, 1) != 0 <==> e % 2 == 1
    ensures And(e, 0x3FFF_FFFF_FFFF_FFFF) == Mod(e, Pow2(62)) < 0x4000_0000_0000_0000
  {
    Pow2Values();
    ShlOne(62);
    AndBit(e, 62);
    AndLow(e, 1);
    AndLow(e, 62);
    assert Pow2(1) == 2;
  }

  lemma DescriptorMasks(e: u64, clusterBits: nat)
    requires 9 <= clusterBits <= 20
    ensures Shl(1, clusterBits - 1) > 0 && Shl(1, 63 - clusterBits) > 0
    ensures And(e, Shl(1, 63 - clusterBits) - 1) == Mod(e, Pow2(63 - clusterBits)) < 0x4000_0000_0000_0000
    ensures And(Shr(e, 63 - clusterBits), Shl(1, clusterBits - 1) - 1) == Field(e, 63 - clusterBits, 62)
  {
    ShlOne(63 - clusterBits);
    ShlOne(clusterBits - 1);
    AndLow(e, 63 - clusterBits);
    AndLow(Shr(e, 63 - clusterBits), clusterBits - 1);
    assert 62 - (63 - clusterBits) == clusterBits - 1;
    Pow2Mono(63 - clusterBits, 62);
    Pow2Values();
  }

  lemma ClusterGeometry(clusterBits: nat)
    requires 9 <= clusterBits <= 20
    ensures Shl(1, clusterBits) == Pow2(clusterBits) && TrailingZeros(Pow2(clusterBits)) == clusterBits
    ensures Pow2(clusterBits) / 8 == Pow2(clusterBits - 3)
  {
    ShlOne(clusterBits);
    TrailingZerosPow2(clusterBits);
    assert clusterBits - 3 + 3 == clusterBits;
    Pow2Add(clusterBits - 3, 3);
    assert Pow2(3) == 8;
  }

  lemma TableOffsetMask(e: u64)
    ensures And(e, 0x7FFF_FFFF_FFFF_FFFF) == e % I64_LIMIT
  {
    Pow2Values();
    AndLow(e, 63);
  }

  lemma L2IndexBound(l2Bits: nat, i: nat)
    requires l2Bits <= 17 && i < Pow2(l2Bits)
    ensures i < 0x10_0000
  {
    Pow2Mono(l2Bits, 20);
    Pow2Values();
  }

  lemma ClusterSizeBound(clusterBits: nat)
    requires clusterBits <= 20
    ensures Pow2(clusterBits) <= 0x10_0000
  {
    Pow2Mono(clusterBits, 20);
    Pow2Values();
  }

  /** Host positions of a decoded entry leave room for an offset in the cluster. */
  predicate InBounds(r: ClusterRef) {
    && (r.Normal? ==> r.offset < 0x4000_0000_0000_0000)
    && (r.Compressed? ==> r.fileOffset < 0x4000_0000_0000_0000)
  }

  /** Bytes that sit at a resolved place, `within` bytes into the cluster */
  ghost predicate PlaceHolds(img: Image, place: Option<ClusterRef>, within: nat, bs: seq<byte>)
    requires img.Valid() && within + |bs| <= img.ClusterSize()
  {
    forall i :: 0 <= i < |bs| ==> CellIn(img, place, within + i) == Byte(bs[i])
  }

  lemma PlaceDelivers(img: Image, p: nat, bs: seq<byte>)
    requires img.Valid() && Mod(p, img.ClusterSize()) + |bs| <= img.ClusterSize()
    requires PlaceHolds(img, Resolve(img, p), Mod(p, img.ClusterSize()), bs)
    ensures C.Delivers(Cells(img), p, bs)
  {
    forall j | p <= j < p + |bs| ensures Cells(img)(j) == Byte(bs[j - p]) {
      PlaceDeliversAt(img, p, bs, j, j - p);
    }
  }

  lemma PlaceDeliversAt(img: Image, p: nat, bs: seq<byte>, j: nat, i: nat)
    requires img.Valid() && Mod(p, img.ClusterSize()) + |bs| <= img.ClusterSize()
    requires PlaceHolds(img, Resolve(img, p), Mod(p, img.ClusterSize()), bs)
    requires j == p + i && i < |bs|
    ensures Cells(img)(j) == Byte(bs[i])
  {
    var within := Mod(p, img.ClusterSize());
    SameCluster(img, p, j);
    assert CellIn(img, Resolve(img, p), within + i) == Byte(bs[i]);
    assert within + (j - p) == within + i;
  }

  lemma ReadDelivered(img: Image, reliable: bool, p: nat, len: nat, bs: seq<byte>)
    requires img.Valid() && 0 < C.ReadLimit(img, p, len) && |bs| <= C.ReadLimit(img, p, len)
    requires PlaceHolds(img, Resolve(img, p), Mod(p, img.ClusterSize()), bs)
    requires |bs| == 0 ==> CellIn(img, Resolve(img, p), Mod(p, img.ClusterSize())) == HostEof
    requires |bs| < C.ReadLimit(img, p, len) ==> Resolve(img, p).Some? && Resolve(img, p).value.Normal?
    ensures C.ReadStep(img, reliable, p, len, C.Data(bs), p + |bs|)
  {
    PlaceDelivers(img, p, bs);
    SameCluster(img, p, p);
  }

  lemma ReadFailed(img: Image, reliable: bool, p: nat, len: nat)
    requires img.Valid() && 0 < C.ReadLimit(img, p, len)
    requires reliable ==> CellIn(img, Resolve(img, p), Mod(p, img.ClusterSize())) == Fault
    ensures C.ReadStep(img, reliable, p, len, C.Failed, p)
  {
    SameCluster(img, p, p);
  }
}
