/** The meaning of an image: which byte, if any, each guest offset holds.

    Everything here is stated with division, remainder and bit fields, as in the "Cluster
    mapping" section of the QEMU QCOW2 image format specification; the reader computes the same
    things with shifts and masks. */
module Mapping {
  import opened Bits
  import opened Bytes
  import opened Io

  type Inflate = seq<byte> -> Option<seq<byte>>

  datatype ClusterRef =
    | Unallocated
    | ZeroCluster
    | Normal(offset: u64)
    | Compressed(fileOffset: u64, compressedBytes: nat)

  const MAX_L1_ENTRIES: nat := 0x10_0000

  datatype Image = Image(
    bytes: seq<byte>,   // the whole container file
    seekLimit: u64,     // the largest position the file can be positioned at
    clusterBits: nat,
    size: u64,          // virtual disk size
    l1: seq<u64>,
    inflate: Inflate)
  {
    predicate Valid() {
      && 9 <= clusterBits <= 20
      && |bytes| <= seekLimit && |bytes| < I64_LIMIT
      && |l1| <= MAX_L1_ENTRIES
    }

    function ClusterSize(): (c: nat)
      ensures 0 < c
    {
      Pow2(clusterBits)
    }

    function L2Entries(): (n: nat)
      requires 3 <= clusterBits
      ensures 0 < n
    {
      Pow2(clusterBits - 3)
    }
  }

  /** A guest offset as indices into the L1 table, the L2 table and the cluster. */
  datatype Address = Address(l1Index: nat, l2Index: nat, within: nat)

  function Split(img: Image, off: nat): Address
    requires img.Valid()
  {
    var cluster := Div(off, img.ClusterSize());
    Address(Div(cluster, img.L2Entries()), Mod(cluster, img.L2Entries()), Mod(off, img.ClusterSize()))
  }

  function Join(img: Image, a: Address): nat
    requires img.Valid()
  {
    Compose(Compose(a.l1Index, img.L2Entries(), a.l2Index), img.ClusterSize(), a.within)
  }

  predicate InRange(img: Image, a: Address)
    requires img.Valid()
  {
    a.l2Index < img.L2Entries() && a.within < img.ClusterSize()
  }

  /** Guest offsets and in-range addresses correspond one to one. */
  lemma AddressBijection(img: Image, off: nat, a: Address)
    requires img.Valid()
    ensures InRange(img, Split(img, off)) && Join(img, Split(img, off)) == off
    ensures InRange(img, a) ==> Split(img, Join(img, a)) == a
  {
    DivThenMul(off, img.ClusterSize());
    DivThenMul(Div(off, img.ClusterSize()), img.L2Entries());
    if InRange(img, a) {
      SplitOfJoin(img, a);
    }
  }

  lemma DivThenMul(x: nat, d: nat)
    requires 0 < d
    ensures Compose(Div(x, d), d, Mod(x, d)) == x
  {
  }

  lemma SplitOfJoin(img: Image, a: Address)
    requires img.Valid() && InRange(img, a)
    ensures Split(img, Join(img, a)) == a
  {
    var cluster := Compose(a.l1Index, img.L2Entries(), a.l2Index);
    DivModOfCompose(a.l1Index, img.L2Entries(), a.l2Index);
    DivModOfCompose(cluster, img.ClusterSize(), a.within);
  }

  /** The meaning of one L2 entry. */
  function DecodeL2(e: u64, clusterBits: nat): (r: ClusterRef)
    requires 9 <= clusterBits <= 20
    ensures r.Normal? ==> 0 < r.offset < Pow2(62)
    ensures r.Compressed? ==> r.fileOffset < Pow2(63 - clusterBits)
    ensures r.Compressed? ==> 512 <= r.compressedBytes <= Pow2(clusterBits + 8)
  {
    if Field(e, 62, 63) == 1 then
      CompressedBound(e, clusterBits);
      Compressed(Mod(e, Pow2(63 - clusterBits)), (Field(e, 63 - clusterBits, 62) + 1) * 512)
    else if e % 2 == 1 then ZeroCluster
    else if Mod(e, Pow2(62)) == 0 then Unallocated
    else Normal(Mod(e, Pow2(62)))
  }

  lemma CompressedBound(e: u64, clusterBits: nat)
    requires 9 <= clusterBits <= 20
    ensures (Field(e, 63 - clusterBits, 62) + 1) * 512 <= Pow2(clusterBits + 8)
  {
    Pow2Add(clusterBits - 1, 9);
    Pow2Small();
    assert 62 - (63 - clusterBits) == clusterBits - 1;
  }

  /** Where the bytes of a guest offset come from; `None` when its L2 entry cannot be read. */
  function Resolve(img: Image, off: nat): (r: Option<ClusterRef>)
    requires img.Valid()
  {
    var a := Split(img, off);
    if a.l1Index >= |img.l1| then Some(Unallocated)
    else
      var table := img.l1[a.l1Index] % I64_LIMIT;
      if table == 0 then Some(Unallocated)
      else
        var p := table + a.l2Index * 8;
        if p + 8 > |img.bytes| then None
        else Some(DecodeL2(BeU64(img.bytes, p), img.clusterBits))
  }

  /** The decompressed cluster, zero-padded to the cluster size. */
  function Decompress(img: Image, fileOffset: nat, n: nat): (r: Option<seq<byte>>)
    ensures r.Some? ==> |r.value| >= img.ClusterSize()
  {
    if fileOffset > img.seekLimit then None
    else
      match img.inflate(Window(img.bytes, fileOffset, n))
      case None => None
      case Some(out) => Some(PadTo(out, img.ClusterSize()))
  }

  function PadTo(s: seq<byte>, n: nat): (t: seq<byte>)
    ensures |t| >= n && s <= t
    ensures |t| == if |s| < n then n else |s|
  {
    if |s| < n then s + seq(n - |s|, _ => 0) else s
  }

  /** What a guest offset holds: a byte, nothing because the data cluster runs past the end of
      the file, or a fault (unreadable table, unreachable position or undecodable stream). */
  datatype Cell = Byte(value: byte) | HostEof | Fault

  function CellIn(img: Image, r: Option<ClusterRef>, within: nat): Cell
    requires img.Valid() && within < img.ClusterSize()
  {
    match r
    case None => Fault
    case Some(Unallocated) => Byte(0)
    case Some(ZeroCluster) => Byte(0)
    case Some(Normal(c)) =>
      if c + within > img.seekLimit then Fault
      else if c + within >= |img.bytes| then HostEof
      else Byte(img.bytes[c + within])
    case Some(Compressed(o, n)) =>
      match Decompress(img, o, n)
      case None => Fault
      case Some(data) => Byte(data[within])
  }

  function CellAt(img: Image, off: nat): Cell
    requires img.Valid()
  {
    CellIn(img, Resolve(img, off), Mod(off, img.ClusterSize()))
  }

  /** The image as a function from guest offsets to cells */
  function Cells(img: Image): nat -> Cell
    requires img.Valid()
  {
    (off: nat) => CellAt(img, off)
  }

  /** What an L2 entry gives a byte of its cluster, in terms of the file alone */
  function EntryCell(img: Image, e: u64, within: nat): Cell
    requires img.Valid()
  {
    var host := Mod(e, Pow2(62));
    if Field(e, 62, 63) == 1 then
      StreamCell(img, Mod(e, Pow2(63 - img.clusterBits)), Field(e, 63 - img.clusterBits, 62) + 1, within)
    else if e % 2 == 1 || host == 0 then Byte(0)
    else FileCell(img, host + within)
  }

  /** A byte of the file, a hole behind its end, a fault where no seek reaches */
  function FileCell(img: Image, p: nat): Cell {
    if p > img.seekLimit then Fault
    else if p >= |img.bytes| then HostEof
    else Byte(img.bytes[p])
  }

  /** A byte of a stream in `sectors` sectors at `offset`, zero behind its end */
  function StreamCell(img: Image, offset: nat, sectors: nat, within: nat): Cell {
    var n := |img.bytes|;
    var lo, hi := if offset < n then offset else n, if offset + sectors * 512 < n then offset + sectors * 512 else n;
    var out := img.inflate(img.bytes[lo..hi]);
    if offset > img.seekLimit || out.None? then Fault
    else if within < |out.value| then Byte(out.value[within])
    else Byte(0)
  }

  /** What slot (i, j) of the tables gives a byte of its cluster */
  function SlotCell(img: Image, i: nat, j: nat, within: nat): Cell
    requires img.Valid()
  {
    var table := if i < |img.l1| then img.l1[i] % 0x8000_0000_0000_0000 else 0;
    if table == 0 then Byte(0)
    else if table + j * 8 + 8 > |img.bytes| then Fault
    else EntryCell(img, BeU64(img.bytes, table + j * 8), within)
  }

  /** The meaning of a guest offset, read off the file step by step: the L1 slot, the L2 entry, the
      place.  An entry that is not all in the file is a fault, not a hole. */
  lemma CellOnFile(img: Image, off: nat)
    requires img.Valid()
    ensures
      var cluster, n := Div(off, Pow2(img.clusterBits)), Pow2(img.clusterBits - 3);
      CellAt(img, off) == SlotCell(img, Div(cluster, n), Mod(cluster, n), Mod(off, Pow2(img.clusterBits)))
  {
    var a := Split(img, off);
    var table := if a.l1Index < |img.l1| then img.l1[a.l1Index] % I64_LIMIT else 0;
    if table == 0 {
      assert Resolve(img, off) == Some(Unallocated);
    } else if table + a.l2Index * 8 + 8 > |img.bytes| {
      assert Resolve(img, off) == None;
    } else {
      var e := BeU64(img.bytes, table + a.l2Index * 8);
      assert Resolve(img, off) == Some(DecodeL2(e, img.clusterBits));
      CellOfEntry(img, e, a.within);
    }
  }

  lemma CellOfEntry(img: Image, e: u64, within: nat)
    requires img.Valid() && within < img.ClusterSize()
    ensures CellIn(img, Some(DecodeL2(e, img.clusterBits)), within) == EntryCell(img, e, within)
  {
    var host := Mod(e, Pow2(62));
    if Field(e, 62, 63) == 1 {
      CellOfDescriptor(img, e, Mod(e, Pow2(63 - img.clusterBits)), Field(e, 63 - img.clusterBits, 62) + 1, within);
    } else if e % 2 == 0 && host != 0 {
      CellOfHost(img, host, within);
    }
  }

  lemma CellOfHost(img: Image, host: u64, within: nat)
    requires img.Valid() && within < img.ClusterSize()
    ensures CellIn(img, Some(Normal(host)), within) == FileCell(img, host + within)
  {
  }

  lemma CellOfDescriptor(img: Image, e: u64, offset: u64, sectors: nat, within: nat)
    requires img.Valid() && within < img.ClusterSize() && Field(e, 62, 63) == 1
    requires offset == Mod(e, Pow2(63 - img.clusterBits)) && sectors == Field(e, 63 - img.clusterBits, 62) + 1
    ensures CellIn(img, Some(DecodeL2(e, img.clusterBits)), within) == StreamCell(img, offset, sectors, within)
  {
    assert DecodeL2(e, img.clusterBits) == Compressed(offset, sectors * 512);
    CellOfStream(img, offset, sectors, sectors * 512, within);
  }

  lemma CellOfStream(img: Image, offset: u64, sectors: nat, n: nat, within: nat)
    requires img.Valid() && within < img.ClusterSize() && n == sectors * 512
    ensures CellIn(img, Some(Compressed(offset, n)), within) == StreamCell(img, offset, sectors, within)
  {
    var w := |img.bytes|;
    var lo, hi := if offset < w then offset else w, if offset + n < w then offset + n else w;
    assert Window(img.bytes, offset, n) == img.bytes[lo..hi];
  }

  /** Every guest offset of the disk holds a byte, and offsets fit a signed seek. */
  ghost predicate WellFormed(img: Image) {
    && img.Valid()
    && img.size < I64_LIMIT
    && forall off: nat :: off < img.size ==> Cells(img)(off).Byte?
  }

  /** The table entry behind a guest offset can be read, and leads to a byte inside the file, to a
      stream that inflates, or nowhere. */
  predicate Hosted(img: Image, off: nat)
    requires img.Valid()
  {
    match Resolve(img, off)
    case None => false
    case Some(Normal(c)) => c + Mod(off, img.ClusterSize()) < |img.bytes|
    case Some(Compressed(o, n)) => o <= img.seekLimit && img.inflate(Window(img.bytes, o, n)).Some?
    case Some(_) => true
  }

  /** Well-formedness asks no more than that of the file. */
  lemma WellFormedIffHosted(img: Image)
    requires img.Valid() && img.size < I64_LIMIT
    ensures WellFormed(img) <==> forall off: nat :: off < img.size ==> Hosted(img, off)
  {
    forall off: nat | off < img.size ensures Cells(img)(off).Byte? <==> Hosted(img, off) {
      HostedHoldsByte(img, off);
    }
  }

  lemma HostedHoldsByte(img: Image, off: nat)
    requires img.Valid()
    ensures CellAt(img, off).Byte? <==> Hosted(img, off)
  {
  }

  /** The guest disk of a well-formed image. */
  ghost function Guest(img: Image): (g: seq<byte>)
    requires WellFormed(img)
    ensures |g| == img.size
  {
    seq(img.size, off requires 0 <= off < img.size => Cells(img)(off).value)
  }

  /** Guest offsets whose L1 slot lies past the table, or is empty, read as zeros. */
  lemma SparseReadsZero(img: Image, off: nat)
    requires img.Valid()
    requires Split(img, off).l1Index < |img.l1| ==> img.l1[Split(img, off).l1Index] % I64_LIMIT == 0
    ensures CellAt(img, off) == Byte(0)
  {
  }

  lemma SameSplit(img: Image, p: nat, j: nat)
    requires img.Valid() && p <= j
    requires Mod(p, img.ClusterSize()) + (j - p) < img.ClusterSize()
    ensures Split(img, j) == Split(img, p).(within := Mod(p, img.ClusterSize()) + (j - p))
  {
    var c := img.ClusterSize();
    DivThenMul(p, c);
    DivModOfCompose(Div(p, c), c, Mod(p, c) + (j - p));
  }

  /** Two offsets of the same cluster are resolved to the same place. */
  lemma SameCluster(img: Image, p: nat, j: nat)
    requires img.Valid() && p <= j
    requires Mod(p, img.ClusterSize()) + (j - p) < img.ClusterSize()
    ensures CellAt(img, j) == CellIn(img, Resolve(img, p), Mod(p, img.ClusterSize()) + (j - p))
  {
    SameSplit(img, p, j);
    assert Resolve(img, j) == Resolve(img, p);
    assert Mod(j, img.ClusterSize()) == Mod(p, img.ClusterSize()) + (j - p);
  }
}
