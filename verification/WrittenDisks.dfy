/** Write, then read: a file in which a guest disk is laid out, cluster by cluster and in any way the
    format offers, opens, and the disk the reader serves is the one that was written. */
module WrittenDisks {
  import opened Bits
  import opened Bytes
  import opened Io
  import opened Layout
  import opened Mapping
  import opened WrittenHeaders
  import C = Compressed
  import R = Reader
  import V = Vfs

  /** How one guest cluster is stored: not at all, at a host offset, flagged as zeros (with or without a
      host cluster), or as a stream in so many sectors */
  datatype Piece =
    | Absent
    | Stored(host: u64, copied: bool)
    | Zeroed(host: u64)
    | Packed(offset: u64, sectors: nat)

  /** A pointer to an L2 table; offset 0 for none */
  datatype Pointer = Pointer(offset: u64, copied: bool)

  predicate IsHostOffset(x: u64) {
    x < 0x0100_0000_0000_0000 && x % 512 == 0
  }

  predicate ValidPiece(p: Piece, clusterBits: nat)
    requires 9 <= clusterBits <= 20
  {
    match p
    case Absent => true
    case Stored(h, _) => h != 0 && IsHostOffset(h)
    case Zeroed(h) => IsHostOffset(h)
    case Packed(o, n) => o < Pow2(63 - clusterBits) && 1 <= n <= Pow2(clusterBits - 1)
  }

  function CopiedBit(copied: bool): u64 {
    if copied then 0x8000_0000_0000_0000 else 0
  }

  /** The L2 entry of a piece */
  function EntryOf(p: Piece, clusterBits: nat): (e: u64)
    requires 9 <= clusterBits <= 20 && ValidPiece(p, clusterBits)
  {
    match p
    case Absent => 0
    case Stored(h, copied) => h + CopiedBit(copied)
    case Zeroed(h) => h + 1
    case Packed(o, n) =>
      PackedBound(o, n - 1, clusterBits);
      0x4000_0000_0000_0000 + Compose(n - 1, Pow2(63 - clusterBits), o)
  }

  lemma PackedBound(offset: nat, count: nat, clusterBits: nat)
    requires 9 <= clusterBits <= 20 && offset < Pow2(63 - clusterBits) && count < Pow2(clusterBits - 1)
    ensures Compose(count, Pow2(63 - clusterBits), offset) < 0x4000_0000_0000_0000
  {
    C.CountRoom(offset, count, clusterBits);
    Pow2Values();
  }

  function PointerWord(p: Pointer): u64
    requires IsHostOffset(p.offset)
  {
    p.offset + CopiedBit(p.copied)
  }

  /** A layout: the header, the table pointers, and a piece for every slot of the tables */
  datatype Plan = Plan(fields: Fields, pointers: seq<Pointer>, pieces: seq<Piece>) {
    predicate Sized() {
      && 9 <= fields.clusterBits <= 20
      && |pointers| <= 0x10_0000 && |pieces| == |pointers| * Pow2(fields.clusterBits - 3)
    }

    /** The pieces fit their entries, and there are none without a table. */
    predicate Valid() {
      && Sized()
      && (forall i :: 0 <= i < |pointers| ==> IsHostOffset(pointers[i].offset))
      && (forall k :: 0 <= k < |pieces| ==> ValidPiece(pieces[k], fields.clusterBits))
      && (forall i, j :: 0 <= i < |pointers| && 0 <= j < Entries() && pointers[i].offset == 0 ==>
            PieceAt(Compose(i, Entries(), j)) == Absent)
    }

    /** A header the strict reader takes */
    predicate Openable() {
      && fields.magic == 0x5146_49fb && 2 <= fields.version <= 3 && fields.backingOffset == 0
      && fields.encryption == 0 && (fields.version == 3 ==> Field(fields.features, 2, 5) == 0)
      && fields.l1Size == |pointers|
    }

    function Entries(): (n: nat)
      requires 9 <= fields.clusterBits
      ensures 0 < n
    {
      Pow2(fields.clusterBits - 3)
    }

    /** The piece of guest cluster `k`; past the tables there is none. */
    function PieceAt(k: nat): Piece {
      if k < |pieces| then pieces[k] else Absent
    }

    function L1Words(): (ws: seq<u64>)
      requires forall i :: 0 <= i < |pointers| ==> IsHostOffset(pointers[i].offset)
      ensures |ws| == |pointers|
    {
      seq(|pointers|, i requires 0 <= i < |pointers| => PointerWord(pointers[i]))
    }

    /** The entries of the table under pointer `i` */
    function TableWords(i: nat): (ws: seq<u64>)
      requires Valid() && i < |pointers|
      ensures |ws| == Entries()
      ensures forall j :: 0 <= j < |ws| ==>
        ValidPiece(PieceAt(Compose(i, Entries(), j)), fields.clusterBits)
        && ws[j] == EntryOf(PieceAt(Compose(i, Entries(), j)), fields.clusterBits)
    {
      seq(Entries(), j requires 0 <= j < Entries() =>
        EntryOf(PieceAt(Compose(i, Entries(), j)), fields.clusterBits))
    }
  }

  /** The metadata of the plan stands in the file. */
  ghost predicate Written(plan: Plan, bytes: seq<byte>)
    requires plan.Valid()
  {
    && Begins(bytes, plan.fields, 104)
    && WordsStand(bytes, plan.fields.l1Offset, plan.L1Words())
    && forall i :: 0 <= i < |plan.pointers| && plan.pointers[i].offset != 0 ==>
         WordsStand(bytes, plan.pointers[i].offset, plan.TableWords(i))
  }

  /** The piece holds `s`, the part of a guest cluster that lies on the disk. */
  predicate PieceHolds(bytes: seq<byte>, inflate: Inflate, p: Piece, s: seq<byte>) {
    match p
    case Absent => s == Zeros(|s|)
    case Zeroed(_) => s == Zeros(|s|)
    case Stored(h, _) => Stands(bytes, h, s)
    case Packed(o, n) =>
      && o <= |bytes|
      && var out := inflate(bytes[o..Min(o + n * 512, |bytes|)]);
         out.Some? && forall i :: 0 <= i < |s| ==> s[i] == if i < |out.value| then out.value[i] else 0
  }

  /** Guest cluster `k` of a disk, cut off at the disk's end */
  function ClusterOf(g: seq<byte>, k: nat, clusterSize: nat): (s: seq<byte>)
    requires Compose(k, clusterSize, 0) <= |g|
  {
    g[Compose(k, clusterSize, 0)..Min(Compose(k, clusterSize, clusterSize), |g|)]
  }

  /** Every guest cluster of the disk is held by its piece. */
  ghost predicate Holds(plan: Plan, bytes: seq<byte>, inflate: Inflate, g: seq<byte>) {
    && |g| == plan.fields.size
    && forall k: nat :: Compose(k, Pow2(plan.fields.clusterBits), 0) < |g| ==>
         PieceHolds(bytes, inflate, plan.PieceAt(k), ClusterOf(g, k, Pow2(plan.fields.clusterBits)))
  }

  // What the reader makes of it.

  function RefOf(p: Piece): ClusterRef {
    match p
    case Absent => Unallocated
    case Zeroed(_) => ZeroCluster
    case Stored(h, _) => Normal(h)
    case Packed(o, n) => ClusterRef.Compressed(o, n * 512)
  }

  /** A written entry is read as its piece. */
  lemma EntryDecodes(p: Piece, clusterBits: nat)
    requires 9 <= clusterBits <= 20 && ValidPiece(p, clusterBits)
    ensures DecodeL2(EntryOf(p, clusterBits), clusterBits) == RefOf(p)
  {
    match p
    case Absent => AbsentEntry(clusterBits);
    case Zeroed(h) => ZeroedEntry(h, clusterBits);
    case Stored(h, copied) => StoredEntry(h, copied, clusterBits);
    case Packed(o, n) => PackedEntry(o, n, clusterBits);
  }

  lemma AbsentEntry(clusterBits: nat)
    requires 9 <= clusterBits <= 20
    ensures DecodeL2(0, clusterBits) == Unallocated
  {
    PlainEntry(0, false, clusterBits);
  }

  lemma StoredEntry(h: u64, copied: bool, clusterBits: nat)
    requires 9 <= clusterBits <= 20 && h != 0 && IsHostOffset(h)
    ensures h + CopiedBit(copied) < U64_LIMIT && DecodeL2(h + CopiedBit(copied), clusterBits) == Normal(h)
  {
    assert h == 2 * (256 * (h / 512));
    PlainEntry(h, copied, clusterBits);
  }

  lemma ZeroedEntry(h: u64, clusterBits: nat)
    requires 9 <= clusterBits <= 20 && IsHostOffset(h)
    ensures DecodeL2(h + 1, clusterBits) == ZeroCluster
  {
    OddNext(h);
    PlainEntry(h + 1, false, clusterBits);
  }

  lemma OddNext(h: nat)
    requires h % 512 == 0
    ensures (h + 1) % 2 == 1
  {
    DivModUnique(h + 1, 2, 256 * (h / 512), 1);
  }

  lemma PackedEntry(o: u64, n: nat, clusterBits: nat)
    requires 9 <= clusterBits <= 20 && ValidPiece(Packed(o, n), clusterBits)
    ensures DecodeL2(EntryOf(Packed(o, n), clusterBits), clusterBits) == ClusterRef.Compressed(o, n * 512)
  {
    PackedBound(o, n - 1, clusterBits);
    Pow2Values();
    C.DecodeOfSum(EntryOf(Packed(o, n), clusterBits), Compose(n - 1, Pow2(63 - clusterBits), o), o, n, clusterBits);
  }

  lemma PlainEntry(low: u64, copied: bool, clusterBits: nat)
    requires 9 <= clusterBits <= 20 && low < 0x4000_0000_0000_0000
    ensures low + CopiedBit(copied) < U64_LIMIT
    ensures
      DecodeL2(low + CopiedBit(copied), clusterBits) ==
        if low % 2 == 1 then ZeroCluster else if low == 0 then Unallocated else Normal(low)
  {
    PlainFields(low, copied, low + CopiedBit(copied));
  }

  lemma PlainFields(low: u64, copied: bool, e: nat)
    requires low < 0x4000_0000_0000_0000 && e == low + CopiedBit(copied)
    ensures Field(e, 62, 63) == 0 && Mod(e, Pow2(62)) == low && e % 2 == low % 2
  {
    Pow2Values();
    DivModUnique(e, Pow2(62), if copied then 2 else 0, low);
    assert Pow2(1) == 2;
  }

  /** An image of the file with the plan's tables */
  predicate IsImageOf(img: Image, plan: Plan, bytes: seq<byte>)
    requires plan.Valid()
  {
    && img.Valid() && img.bytes == bytes && img.clusterBits == plan.fields.clusterBits
    && img.size == plan.fields.size && img.l1 == plan.L1Words()
  }

  /** Every guest offset is resolved to its cluster's piece. */
  lemma PieceResolves(plan: Plan, bytes: seq<byte>, img: Image, off: nat)
    requires plan.Valid() && Written(plan, bytes) && IsImageOf(img, plan, bytes)
    ensures Resolve(img, off) == Some(RefOf(plan.PieceAt(Div(off, img.ClusterSize()))))
  {
    var k, n := Div(off, img.ClusterSize()), plan.Entries();
    var i, j := Div(k, n), Mod(k, n);
    assert Split(img, off).l1Index == i && Split(img, off).l2Index == j;
    DivThenMul(k, n);
    if i >= |plan.pointers| {
      PastTables(k, n, |plan.pointers|);
    } else {
      SlotResolves(plan, bytes, img, off, i, j);
    }
  }

  lemma SlotResolves(plan: Plan, bytes: seq<byte>, img: Image, off: nat, i: nat, j: nat)
    requires plan.Valid() && Written(plan, bytes) && IsImageOf(img, plan, bytes)
    requires Split(img, off).l1Index == i < |plan.pointers| && Split(img, off).l2Index == j < plan.Entries()
    ensures Resolve(img, off) == Some(RefOf(plan.PieceAt(Compose(i, plan.Entries(), j))))
  {
    var t := plan.pointers[i].offset;
    PointerOffset(plan.pointers[i]);
    assert img.l1[i] % I64_LIMIT == t;
    if t != 0 {
      StandingWord(bytes, t, plan.TableWords(i), j);
      EntryDecodes(plan.PieceAt(Compose(i, plan.Entries(), j)), img.clusterBits);
    }
  }

  lemma PastTables(k: nat, n: nat, m: nat)
    requires 0 < n && Div(k, n) >= m
    ensures k >= m * n
  {
    MulMono(m, Div(k, n), n);
    assert k == Div(k, n) * n + Mod(k, n);
  }

  lemma PointerOffset(p: Pointer)
    requires IsHostOffset(p.offset)
    ensures PointerWord(p) % I64_LIMIT == p.offset
  {
  }

  lemma CellOfPiece(img: Image, p: Piece, s: seq<byte>, w: nat)
    requires img.Valid() && w < |s| <= img.ClusterSize() && PieceHolds(img.bytes, img.inflate, p, s)
    ensures CellIn(img, Some(RefOf(p)), w) == Byte(s[w])
  {
    match p
    case Absent => assert s[w] == Zeros(|s|)[w];
    case Zeroed(_) => assert s[w] == Zeros(|s|)[w];
    case Stored(h, _) => assert img.bytes[h..h + |s|][w] == s[w];
    case Packed(o, n) => StreamWindow(img.bytes, o, n * 512);
  }

  lemma StreamWindow(bytes: seq<byte>, o: nat, n: nat)
    requires o <= |bytes|
    ensures Window(bytes, o, n) == bytes[o..Min(o + n, |bytes|)]
  {
  }

  /** Each cell of a written disk is the byte that was written. */
  lemma WrittenCell(plan: Plan, bytes: seq<byte>, img: Image, g: seq<byte>, off: nat)
    requires plan.Valid() && Written(plan, bytes) && IsImageOf(img, plan, bytes)
    requires Holds(plan, bytes, img.inflate, g) && off < |g|
    ensures Cells(img)(off) == Byte(g[off])
  {
    var c := img.ClusterSize();
    var k, w := Div(off, c), Mod(off, c);
    PieceResolves(plan, bytes, img, off);
    DivThenMul(off, c);
    assert Compose(k, c, 0) < |g|;
    ByteOfCluster(g, k, c, w, off);
    CellOfPiece(img, plan.PieceAt(k), ClusterOf(g, k, c), w);
  }

  lemma ByteOfCluster(g: seq<byte>, k: nat, c: nat, w: nat, off: nat)
    requires w < c && off == Compose(k, c, w) < |g|
    ensures Compose(k, c, 0) <= |g|
    ensures w < |ClusterOf(g, k, c)| <= c && ClusterOf(g, k, c)[w] == g[off]
  {
  }

  /** Write, then read: the file opens, and its guest disk is the one that was written. */
  lemma WrittenDiskIsServed(plan: Plan, bytes: seq<byte>, g: seq<byte>, seekLimit: u64, inflate: Inflate)
    requires plan.Valid() && plan.Openable() && Written(plan, bytes) && Holds(plan, bytes, inflate, g)
    requires |bytes| <= seekLimit && |bytes| < I64_LIMIT && |g| < I64_LIMIT
    ensures R.OpenImage(bytes, seekLimit, inflate, 0).Ok?
    ensures
      var img := R.OpenImage(bytes, seekLimit, inflate, 0).value;
      WellFormed(img) && Guest(img) == g
  {
    var f := plan.fields;
    OpeningOfWritten(bytes, f, 104, seekLimit, inflate);
    var img := R.OpenImage(bytes, seekLimit, inflate, 0).value;
    WrittenL1(bytes, f, plan.L1Words(), img.l1);
    forall off: nat | off < |g| ensures Cells(img)(off) == Byte(g[off]) {
      WrittenCell(plan, bytes, img, g, off);
    }
    assert Guest(img) == g;
  }

  /** Open a written file and read from it: any bytes of the disk, in one call. */
  method OpenAndRead(backing: Backing, inflate: Inflate, overflowChecks: bool, ghost plan: Plan, ghost g: seq<byte>,
                     offset: u64, buf: array<byte>)
    returns (n: nat)
    requires backing.Valid() && backing.reliable && backing.cursor == 0
    requires plan.Valid() && plan.Openable() && Written(plan, backing.bytes) && Holds(plan, backing.bytes, inflate, g)
    requires |g| < I64_LIMIT
    modifies backing, buf
    ensures n == if offset >= |g| then 0 else Min(buf.Length, |g| - offset)
    ensures offset < |g| ==> buf[..n] == g[offset..offset + n]
  {
    WrittenDiskIsServed(plan, backing.bytes, g, backing.seekLimit, inflate);
    var file := R.Qcow2Reader.FromBacking(backing, inflate, overflowChecks);
    var source := new V.Qcow2Source(file.value);
    var r := source.ReadAt(offset, buf);
    V.WellFormedReadsFull(source.inner.image, offset, buf.Length, if r.None? then None else Some(buf[..r.value]));
    n := r.value;
  }
}
