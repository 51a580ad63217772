/** Write, then scan: over a file in which tables, refcount blocks and a refcount table were written, the
    report counts the clusters that were stored and the ones whose refcount was written as zero. */
module WrittenCounts {
  import opened Bits
  import opened Bytes
  import opened Io
  import opened Layout
  import opened Mapping
  import opened Packing
  import opened Refcount
  import opened Scan
  import opened Agreement
  import opened WrittenDisks

  // One block.

  predicate FillsBlock(vals: seq<nat>, width: nat, size: nat) {
    && IsWidth(width) && |vals| * width == 8 * size
    && forall j :: 0 <= j < |vals| ==> vals[j] < Pow2(width)
  }

  lemma SlotFits(k: nat, n: nat, width: nat, size: nat)
    requires k < n && 0 < width && n * width == 8 * size
    ensures 0 <= k * width && k * width + width <= 8 * size && k * width % width == 0
  {
    MulBound(k, width, n);
    DivModUnique(k * width, width, k, 0);
    assert width * n == n * width;
  }

  /** A block with the first `k` refcounts stored, one after the other */
  function Fill(vals: seq<nat>, width: nat, size: nat, k: nat): (b: seq<byte>)
    requires FillsBlock(vals, width, size) && k <= |vals|
    ensures |b| == size
  {
    if k == 0 then Zeros(size)
    else
      SlotFits(k - 1, |vals|, width, size);
      Store(Fill(vals, width, size, k - 1), (k - 1) * width, width, vals[k - 1])
  }

  /** A whole block */
  function Block(vals: seq<nat>, width: nat, size: nat): (b: seq<byte>)
    requires FillsBlock(vals, width, size)
    ensures |b| == size
  {
    Fill(vals, width, size, |vals|)
  }

  lemma {:induction false} FillHolds(vals: seq<nat>, width: nat, size: nat, k: nat, j: nat)
    requires FillsBlock(vals, width, size) && j < k <= |vals|
    ensures 0 <= j * width && j * width + width <= 8 * size
    ensures FieldValue(Fill(vals, width, size, k), j * width, j * width + width) == vals[j]
    decreases k
  {
    SlotFits(j, |vals|, width, size);
    if j < k - 1 {
      FillHolds(vals, width, size, k - 1, j);
    }
    FillStep(vals, width, size, k - 1, j);
  }

  /** Storing refcount `k` sets it and keeps the others. */
  lemma FillStep(vals: seq<nat>, width: nat, size: nat, k: nat, j: nat)
    requires FillsBlock(vals, width, size) && j <= k < |vals| && 0 <= j * width && j * width + width <= 8 * size
    ensures FieldValue(Fill(vals, width, size, k + 1), j * width, j * width + width) ==
            if j == k then vals[k] else FieldValue(Fill(vals, width, size, k), j * width, j * width + width)
  {
    SlotFits(k, |vals|, width, size);
    SlotFits(j, |vals|, width, size);
    StoreThenRead(Fill(vals, width, size, k), k * width, width, vals[k], j * width);
    if j != k {
      DistinctMultiples(j, k, width);
    }
  }

  /** A field of what stands in a file is a field of the file. */
  lemma {:induction false} FieldStands(bytes: seq<byte>, off: nat, s: seq<byte>, lo: nat, hi: nat, a: nat, b: nat)
    requires Stands(bytes, off, s) && lo <= hi <= 8 * |s| && a == 8 * off + lo && b == 8 * off + hi <= 8 * |bytes|
    ensures FieldValue(bytes, a, b) == FieldValue(s, lo, hi)
    decreases hi
  {
    if lo == hi {
      NoBits(bytes, a, b, s, lo, hi);
    } else {
      FieldStands(bytes, off, s, lo, hi - 1, a, b - 1);
      BitStands(bytes, off, s, hi - 1, b - 1);
      NextBits(bytes, a, b, s, lo, hi);
    }
  }

  lemma NoBits(x: seq<byte>, a: nat, b: nat, y: seq<byte>, lo: nat, hi: nat)
    requires a == b <= 8 * |x| && lo == hi <= 8 * |y|
    ensures FieldValue(x, a, b) == FieldValue(y, lo, hi)
  {
  }

  lemma NextBits(x: seq<byte>, a: nat, b: nat, y: seq<byte>, lo: nat, hi: nat)
    requires a < b <= 8 * |x| && lo < hi <= 8 * |y|
    requires FieldValue(x, a, b - 1) == FieldValue(y, lo, hi - 1) && BitAt(x, b - 1) == BitAt(y, hi - 1)
    ensures FieldValue(x, a, b) == FieldValue(y, lo, hi)
  {
  }

  lemma BitStands(bytes: seq<byte>, off: nat, s: seq<byte>, i: nat, p: nat)
    requires Stands(bytes, off, s) && i < 8 * |s| && p == 8 * off + i
    ensures p < 8 * |bytes| && BitAt(bytes, p) == BitAt(s, i)
  {
    assert p / 8 == off + i / 8 && p % 8 == i % 8;
    assert bytes[off..off + |s|][i / 8] == bytes[p / 8];
  }

  /** A refcount written into a block that the table points to is the one looked up. */
  lemma LookupInBlock(bytes: seq<byte>, rt: seq<u64>, i: nat, vals: seq<nat>, j: nat, c: nat, width: nat, size: nat)
    requires FillsBlock(vals, width, size) && 512 <= size && i < |rt| && j < |vals| && c == Compose(i, |vals|, j)
    requires size <= rt[i] && Stands(bytes, rt[i] - rt[i] % size, Block(vals, width, size))
    ensures Lookup(bytes, rt, c, width, size) == Some(vals[j])
  {
    var off, lo := rt[i] - rt[i] % size, j * width;
    BlockField(bytes, off, vals, width, size, j, lo);
    SlotLookup(bytes, rt, i, j, c, |vals|, width, size, lo);
    FetchIn(bytes, 8 * off + lo, width);
  }

  lemma BlockField(bytes: seq<byte>, off: nat, vals: seq<nat>, width: nat, size: nat, j: nat, lo: int)
    requires FillsBlock(vals, width, size) && j < |vals| && Stands(bytes, off, Block(vals, width, size))
    requires lo == j * width
    ensures 0 <= lo && 8 * off + lo + width <= 8 * |bytes|
    ensures FieldValue(bytes, 8 * off + lo, 8 * off + lo + width) == vals[j]
  {
    SlotFits(j, |vals|, width, size);
    FillHolds(vals, width, size, |vals|, j);
    FieldInside(bytes, off, Block(vals, width, size), lo, width, vals[j]);
  }

  lemma FieldInside(bytes: seq<byte>, off: nat, b: seq<byte>, lo: nat, width: nat, v: nat)
    requires Stands(bytes, off, b) && lo + width <= 8 * |b| && FieldValue(b, lo, lo + width) == v
    ensures 8 * off + lo + width <= 8 * |bytes|
    ensures FieldValue(bytes, 8 * off + lo, 8 * off + lo + width) == v
  {
    FieldStands(bytes, off, b, lo, lo + width, 8 * off + lo, 8 * off + lo + width);
  }

  lemma SlotLookup(bytes: seq<byte>, rt: seq<u64>, i: nat, j: nat, c: nat, n: nat, width: nat, size: nat, lo: nat)
    requires IsWidth(width) && n * width == 8 * size && 512 <= size && i < |rt| && j < n && c == Compose(i, n, j)
    requires size <= rt[i] && lo == j * width
    ensures Lookup(bytes, rt, c, width, size) == Fetch(bytes, Some(8 * (rt[i] - rt[i] % size) + lo), width)
  {
    SlotsPerBlock(n, width, size);
    DivModOfCompose(i, n, j);
    LookupCases(bytes, rt, c, width, size);
    assert BlockOffset(rt[i], size) == rt[i] - rt[i] % size;
  }

  lemma SlotsPerBlock(n: nat, width: nat, size: nat)
    requires IsWidth(width) && n * width == 8 * size && 512 <= size
    ensures PerBlock(width, size) == n && 0 < n
  {
    DivModUnique(size * 8, width, n, 0);
  }

  // All of them.

  /** The refcounts of a file, block by block; an empty list stands for a block that was never allocated. */
  ghost predicate CountsWritten(bytes: seq<byte>, rt: seq<u64>, blocks: seq<seq<nat>>, width: nat, size: nat)
    requires 0 < size
  {
    && |blocks| == |rt|
    && forall i :: 0 <= i < |blocks| ==> BlockWritten(bytes, rt[i], blocks[i], width, size)
  }

  predicate BlockWritten(bytes: seq<byte>, entry: u64, vals: seq<nat>, width: nat, size: nat)
    requires 0 < size
  {
    if vals == [] then entry < size
    else
      && FillsBlock(vals, width, size)
      && size <= entry && Stands(bytes, entry - entry % size, Block(vals, width, size))
  }

  /** The refcount of cluster `c`, with `n` to a block: 0 without a block, unknown past the last one */
  function CountOf(blocks: seq<seq<nat>>, n: nat, c: nat): Option<nat>
    requires 0 < n && forall i :: 0 <= i < |blocks| ==> blocks[i] == [] || |blocks[i]| == n
  {
    if c / n >= |blocks| then None
    else if blocks[c / n] == [] then Some(0)
    else Some(blocks[c / n][c % n])
  }

  /** Every lookup returns what was written. */
  lemma WrittenLookup(bytes: seq<byte>, rt: seq<u64>, blocks: seq<seq<nat>>, width: nat, size: nat, n: nat, c: nat)
    requires 512 <= size && IsWidth(width) && n * width == 8 * size && CountsWritten(bytes, rt, blocks, width, size)
    requires 0 < n && forall i :: 0 <= i < |blocks| ==> blocks[i] == [] || |blocks[i]| == n
    ensures Lookup(bytes, rt, c, width, size) == CountOf(blocks, n, c)
  {
    var i, j := Div(c, n), Mod(c, n);
    SlotsPerBlock(n, width, size);
    LookupCases(bytes, rt, c, width, size);
    if i < |rt| {
      assert BlockWritten(bytes, rt[i], blocks[i], width, size);
      if blocks[i] == [] {
        DivModUnique(rt[i], size, 0, rt[i]);
      } else {
        DivThenMul(c, n);
        LookupInBlock(bytes, rt, i, blocks[i], j, c, width, size);
      }
    }
  }

  // The report.

  /** Why a report is refused: the first condition that fails, in the program's order */
  function ReportRefusal(f: Fields): Option<Qcow2Error> {
    if f.magic != 0x5146_49fb then Some(BadMagic)
    else if f.version != 2 && f.version != 3 then Some(UnsupportedVersion(f.version))
    else if f.clusterBits < 9 || 20 < f.clusterBits then Some(ClusterBitsOutOfRange(f.clusterBits))
    else None
  }

  /** The width exponent of a header, 4 where the file does not say */
  function OrderOf(f: Fields, k: nat): u32 {
    if f.version == 3 && 100 <= k then f.refcountOrder else 4
  }

  /** How many entries of the refcount table are loaded */
  function Loaded(f: Fields): nat {
    Min(f.rtClusters * Pow2(f.clusterBits) / 8, 0x10_0000)
  }

  lemma LoadedIs(f: Fields)
    requires 9 <= f.clusterBits <= 20
    ensures TableEntries(f.rtClusters, f.clusterBits) == Loaded(f)
  {
    Eighth(f.rtClusters, f.clusterBits);
  }

  /** The report on a written header, apart from its two counts: every field and every error */
  lemma ReportOfWritten(bytes: seq<byte>, f: Fields, k: nat)
    requires Begins(bytes, f, k)
    ensures
      match ReportRefusal(f)
      case Some(e) => ReportOf(bytes) == Err(e)
      case None =>
        var order, n := OrderOf(f, k), Loaded(f);
        if order > 6 then ReportOf(bytes) == Ok(Report(order, f.rtOffset, f.rtClusters, 0, 0))
        else if n != 0 && f.rtOffset != 0 && f.rtOffset + n * 8 > |bytes| then ReportOf(bytes) == Err(Io)
        else
          ReportIs(bytes, f, order)
  {
    var hdr := Window(bytes, 0, 104);
    WindowBegins(bytes, f, k, 104);
    FieldsOfFile(hdr, f, k);
    MoreFieldsOfFile(hdr, f, k);
    if 9 <= f.clusterBits <= 20 {
      LoadedIs(f);
    }
  }

  /** A file with less than a version-2 header is not reported on. */
  lemma ShortFileNotReported(bytes: seq<byte>)
    requires |bytes| < 72
    ensures ReportOf(bytes) == Err(FileTooSmall)
  {
  }

  /** The refcount table that was written is the one loaded, cut to 2^20 entries. */
  lemma WrittenTable(bytes: seq<byte>, f: Fields, k: nat, rt: seq<u64>)
    requires Begins(bytes, f, k) && 9 <= f.clusterBits <= 20 && f.rtOffset != 0
    requires WordsStand(bytes, f.rtOffset, rt) && |rt| == f.rtClusters * Pow2(f.clusterBits) / 8
    ensures TableIs(bytes, f.clusterBits, rt[..Min(|rt|, 0x10_0000)])
  {
    var hdr := Window(bytes, 0, 104);
    WindowBegins(bytes, f, k, 104);
    FieldsOfFile(hdr, f, k);
    LoadedIs(f);
    PrefixOfTable(bytes, f.rtOffset, rt, Min(|rt|, 0x10_0000));
  }

  lemma PrefixOfTable(bytes: seq<byte>, off: u64, rt: seq<u64>, n: nat)
    requires WordsStand(bytes, off, rt) && n <= |rt| && off != 0
    ensures TableAt(bytes, off, n) == rt[..n]
  {
    if n != 0 {
      FirstWords(bytes, off, rt, n, rt[..n]);
      TableOfWords(bytes, off, rt[..n]);
    }
  }

  lemma FirstWords(bytes: seq<byte>, off: nat, rt: seq<u64>, n: nat, part: seq<u64>)
    requires WordsStand(bytes, off, rt) && 0 < n <= |rt| && part == rt[..n]
    ensures |part| == n && off + |part| * 8 <= |bytes|
    ensures forall j :: 0 <= j < |part| ==> BeU64(bytes, off + j * 8) == part[j]
  {
    forall j | 0 <= j < n ensures BeU64(bytes, off + j * 8) == part[j] {
      StandingWord(bytes, off, rt, j);
    }
    StandingWord(bytes, off, rt, n - 1);
  }

  /** The L1 table that was written is the one walked. */
  lemma WalkedL1(bytes: seq<byte>, f: Fields, k: nat, l1: seq<u64>)
    requires Begins(bytes, f, k) && WordsStand(bytes, f.l1Offset, l1) && |l1| == f.l1Size <= 0x10_0000
    requires f.l1Offset != 0 || l1 == []
    ensures Walks(bytes, f.clusterBits, l1)
  {
    var hdr := Window(bytes, 0, 104);
    WindowBegins(bytes, f, k, 104);
    FieldsOfFile(hdr, f, k);
    if l1 != [] {
      PrefixOfTable(bytes, f.l1Offset, l1, |l1|);
      assert l1[..|l1|] == l1;
    }
  }

  // What the scan finds.

  /** The host offsets of the stored pieces, in guest order */
  function StoredHosts(pieces: seq<Piece>): seq<u64> {
    if pieces == [] then []
    else
      var last := pieces[|pieces| - 1];
      StoredHosts(pieces[..|pieces| - 1]) + if last.Stored? then [last.host] else []
  }

  lemma {:induction false} ListedPieces(view: View, pieces: seq<Piece>, k: nat)
    requires k <= |pieces|
    requires forall i :: 0 <= i < |pieces| ==>
      view(i) == if pieces[i].Stored? then Some(pieces[i].host) else None
    ensures Listed(view, k) == StoredHosts(pieces[..k])
    decreases k
  {
    if k != 0 {
      ListedPieces(view, pieces, k - 1);
      assert pieces[..k][..k - 1] == pieces[..k - 1];
    }
  }

  /** An image with the plan's tables, for the laws about readers */
  function ImageOfPlan(plan: Plan, bytes: seq<byte>): Image
    requires plan.Valid() && |bytes| < I64_LIMIT
  {
    Image(bytes, I64_LIMIT, plan.fields.clusterBits, plan.fields.size, plan.L1Words(), _ => None)
  }

  lemma PointerIsClean(p: Pointer)
    requires IsHostOffset(p.offset)
    ensures ReservedClear(PointerWord(p), 63)
  {
    Pow2Values();
    CleanBits(p.offset, p.copied, 7);
  }

  /** A host offset, with or without the top bit, has clear reserved bits. */
  lemma CleanBits(x: u64, copied: bool, n: nat)
    requires IsHostOffset(x) && n <= 7
    ensures (x + CopiedBit(copied)) % 512 == 0
    ensures Field(x + CopiedBit(copied), 56, 56 + n) == 0
  {
    var q := if copied then 128 else 0;
    Pow2Values();
    Pow2Small();
    DivModUnique(x + CopiedBit(copied), Pow2(56), q, x);
    assert 56 + n - 56 == n;
    TopMultiple(q, n);
  }

  lemma TopMultiple(q: nat, n: nat)
    requires q in {0, 128} && n <= 7
    ensures Mod(q, Pow2(n)) == 0
  {
    Pow2Small();
    Pow2Add(n, 7 - n);
    assert n + (7 - n) == 7;
    DivModUnique(q, Pow2(n), if q == 0 then 0 else Pow2(7 - n), 0);
  }

  lemma EntryIsClean(p: Piece, clusterBits: nat)
    requires 9 <= clusterBits <= 20 && ValidPiece(p, clusterBits)
    ensures NoDataCluster(EntryOf(p, clusterBits)) || ReservedClear(EntryOf(p, clusterBits), 62)
  {
    match p
    case Absent => CleanBits(0, false, 6);
    case Stored(h, copied) => CleanBits(h, copied, 6);
    case Zeroed(h) => OddNext(h);
    case Packed(o, n) =>
      PackedBound(o, n - 1, clusterBits);
      FlagSet(Compose(n - 1, Pow2(63 - clusterBits), o), EntryOf(p, clusterBits));
  }

  lemma FlagSet(low: nat, e: u64)
    requires low < 0x4000_0000_0000_0000 && e == 0x4000_0000_0000_0000 + low
    ensures Field(e, 62, 63) == 1
  {
    Pow2Values();
    DivModUnique(e, Pow2(62), 1, low);
    assert Pow2(1) == 2;
  }

  lemma PointersAreClean(plan: Plan)
    requires plan.Valid()
    ensures forall i :: 0 <= i < |plan.L1Words()| ==> ReservedClear(plan.L1Words()[i], 63)
  {
    forall i | 0 <= i < |plan.L1Words()| ensures ReservedClear(plan.L1Words()[i], 63) {
      PointerIsClean(plan.pointers[i]);
    }
  }

  lemma PlanIsClean(plan: Plan, bytes: seq<byte>)
    requires plan.Valid() && Written(plan, bytes) && |bytes| < I64_LIMIT
    ensures CleanPointers(ImageOfPlan(plan, bytes)) && CleanSlots(ImageOfPlan(plan, bytes))
  {
    var img := ImageOfPlan(plan, bytes);
    PointersAreClean(plan);
    forall i, j | 0 <= i < |img.l1| && 0 <= j < img.L2Entries() ensures SlotClean(img, i, j) {
      SlotIsClean(plan, bytes, i, j);
    }
  }

  lemma SlotIsClean(plan: Plan, bytes: seq<byte>, i: nat, j: nat)
    requires plan.Valid() && Written(plan, bytes) && |bytes| < I64_LIMIT
    requires i < |plan.pointers| && j < plan.Entries()
    ensures SlotClean(ImageOfPlan(plan, bytes), i, j)
  {
    var img, t, p := ImageOfPlan(plan, bytes), plan.pointers[i].offset, plan.PieceAt(Compose(i, plan.Entries(), j));
    PointerOffset(plan.pointers[i]);
    assert img.l1[i] % I64_LIMIT == t;
    if t != 0 {
      TableInFile(plan, bytes, i, j);
      ImageEntries(plan, bytes);
      EntryIsClean(p, plan.fields.clusterBits);
      CleanInTable(img, i, j, t, EntryOf(p, plan.fields.clusterBits));
    }
  }

  lemma ImageEntries(plan: Plan, bytes: seq<byte>)
    requires plan.Valid() && |bytes| < I64_LIMIT
    ensures ImageOfPlan(plan, bytes).L2Entries() == plan.Entries()
  {
  }

  lemma TableInFile(plan: Plan, bytes: seq<byte>, i: nat, j: nat)
    requires plan.Valid() && Written(plan, bytes)
    requires i < |plan.pointers| && j < plan.Entries() && plan.pointers[i].offset != 0
    ensures
      var t, p := plan.pointers[i].offset, plan.PieceAt(Compose(i, plan.Entries(), j));
      && t + plan.Entries() * 8 <= |bytes|
      && ValidPiece(p, plan.fields.clusterBits)
      && BeU64(bytes, t + j * 8) == EntryOf(p, plan.fields.clusterBits)
  {
    StandingWord(bytes, plan.pointers[i].offset, plan.TableWords(i), j);
    StandingTable(bytes, plan.pointers[i].offset, plan.TableWords(i));
  }

  lemma CleanInTable(img: Image, i: nat, j: nat, t: u64, e: u64)
    requires img.Valid() && i < |img.l1| && img.l1[i] % I64_LIMIT == t && BeU64(img.bytes, t + j * 8) == e
    requires t + img.L2Entries() * 8 <= |img.bytes| && (NoDataCluster(e) || ReservedClear(e, 62))
    ensures SlotClean(img, i, j)
  {
  }

  /** The scan finds exactly the stored clusters. */
  lemma WrittenHosts(plan: Plan, bytes: seq<byte>)
    requires plan.Valid() && Written(plan, bytes) && |bytes| < I64_LIMIT
    ensures ScanFinds(bytes, plan.L1Words(), plan.Entries(), StoredHosts(plan.pieces))
  {
    PlanIsClean(plan, bytes);
    HostsOfImage(ImageOfPlan(plan, bytes), bytes, plan.L1Words(), plan.Entries());
    MappedPieces(plan, bytes);
  }

  lemma HostsOfImage(img: Image, bytes: seq<byte>, l1: seq<u64>, n: nat)
    requires img.Valid() && CleanPointers(img) && CleanSlots(img)
    requires img.bytes == bytes && img.l1 == l1 && img.L2Entries() == n
    ensures ScanFinds(bytes, l1, n, Mapped(img))
  {
    ScanSeesWhatReaderMaps(img);
  }

  lemma MappedPieces(plan: Plan, bytes: seq<byte>)
    requires plan.Valid() && Written(plan, bytes) && |bytes| < I64_LIMIT
    ensures Mapped(ImageOfPlan(plan, bytes)) == StoredHosts(plan.pieces)
  {
    forall k | 0 <= k < |plan.pieces|
      ensures ReaderSlots(ImageOfPlan(plan, bytes))(k) ==
              if plan.pieces[k].Stored? then Some(plan.pieces[k].host) else None
    {
      PieceView(plan, bytes, k);
    }
    ListedAll(ReaderSlots(ImageOfPlan(plan, bytes)), plan.pieces, SlotCount(ImageOfPlan(plan, bytes)));
  }

  lemma ListedAll(view: View, pieces: seq<Piece>, n: nat)
    requires n == |pieces|
    requires forall i :: 0 <= i < |pieces| ==>
      view(i) == if pieces[i].Stored? then Some(pieces[i].host) else None
    ensures Listed(view, n) == StoredHosts(pieces)
  {
    ListedPieces(view, pieces, n);
    assert pieces[..n] == pieces;
  }

  lemma PieceView(plan: Plan, bytes: seq<byte>, k: nat)
    requires plan.Valid() && Written(plan, bytes) && |bytes| < I64_LIMIT && k < |plan.pieces|
    ensures ReaderSlots(ImageOfPlan(plan, bytes))(k) ==
            if plan.pieces[k].Stored? then Some(plan.pieces[k].host) else None
  {
    var img := ImageOfPlan(plan, bytes);
    DivModOfCompose(k, img.ClusterSize(), 0);
    PieceResolves(plan, bytes, img, Compose(k, img.ClusterSize(), 0));
  }

  /** The clusters among the first `cap` whose refcount was written as zero, or whose block was never
      allocated */
  function ZeroCounts(blocks: seq<seq<nat>>, n: nat, hosts: seq<u64>, size: nat, cap: nat): set<nat>
    requires 0 < n && 0 < size && forall i :: 0 <= i < |blocks| ==> blocks[i] == [] || |blocks[i]| == n
  {
    set k: nat | k < |hosts| && k < cap && CountOf(blocks, n, hosts[k] / size) == Some(0)
  }

  lemma OrphansAreZeroCounts(bytes: seq<byte>, rt: seq<u64>, blocks: seq<seq<nat>>, width: nat, size: nat, n: nat,
                             hosts: seq<u64>, cap: nat)
    requires IsWidth(width) && IsClusterSize(size) && n * width == 8 * size
    requires CountsWritten(bytes, rt, blocks, width, size)
    requires 0 < n && forall i :: 0 <= i < |blocks| ==> blocks[i] == [] || |blocks[i]| == n
    ensures Orphans(bytes, rt, hosts[..Min(|hosts|, cap)], width, size) == |ZeroCounts(blocks, n, hosts, size, cap)|
  {
    OrphansIsCardinality(bytes, rt, hosts[..Min(|hosts|, cap)], width, size);
    TestMeans(bytes, rt, blocks, width, size, n, hosts);
    SamePositions(OrphanTest(bytes, rt, width, size), blocks, n, hosts, size, cap);
  }

  lemma TestMeans(bytes: seq<byte>, rt: seq<u64>, blocks: seq<seq<nat>>, width: nat, size: nat, n: nat,
                  hosts: seq<u64>)
    requires IsWidth(width) && IsClusterSize(size) && n * width == 8 * size
    requires CountsWritten(bytes, rt, blocks, width, size)
    requires 0 < n && forall i :: 0 <= i < |blocks| ==> blocks[i] == [] || |blocks[i]| == n
    ensures forall k: nat :: k < |hosts| ==>
      (OrphanTest(bytes, rt, width, size)(hosts[k]) <==> CountOf(blocks, n, hosts[k] / size) == Some(0))
  {
    forall k: nat | k < |hosts|
      ensures OrphanTest(bytes, rt, width, size)(hosts[k]) <==> CountOf(blocks, n, hosts[k] / size) == Some(0)
    {
      TestOfHost(bytes, rt, blocks, width, size, n, hosts[k]);
    }
  }

  lemma TestOfHost(bytes: seq<byte>, rt: seq<u64>, blocks: seq<seq<nat>>, width: nat, size: nat, n: nat, host: u64)
    requires IsWidth(width) && IsClusterSize(size) && n * width == 8 * size
    requires CountsWritten(bytes, rt, blocks, width, size)
    requires 0 < n && forall i :: 0 <= i < |blocks| ==> blocks[i] == [] || |blocks[i]| == n
    ensures OrphanTest(bytes, rt, width, size)(host) <==> CountOf(blocks, n, host / size) == Some(0)
  {
    WrittenLookup(bytes, rt, blocks, width, size, n, Div(host, size));
  }

  lemma SamePositions(test: u64 -> bool, blocks: seq<seq<nat>>, n: nat, hosts: seq<u64>, size: nat, cap: nat)
    requires 0 < n && 0 < size && forall i :: 0 <= i < |blocks| ==> blocks[i] == [] || |blocks[i]| == n
    requires forall k: nat :: k < Min(|hosts|, cap) ==>
      (test(hosts[k]) <==> CountOf(blocks, n, hosts[k] / size) == Some(0))
    ensures Positions(test, hosts[..Min(|hosts|, cap)]) == ZeroCounts(blocks, n, hosts, size, cap)
  {
  }

  /** Write, then scan: the whole report is a function of what was written. */
  lemma WrittenReport(plan: Plan, bytes: seq<byte>, rt: seq<u64>, blocks: seq<seq<nat>>, width: nat, n: nat)
    requires plan.Valid() && Written(plan, bytes) && |bytes| < I64_LIMIT
    requires ReportRefusal(plan.fields) == None && OrderOf(plan.fields, 104) <= 6
    requires plan.fields.l1Size == |plan.pointers| && (plan.fields.l1Offset != 0 || plan.pointers == [])
    requires plan.fields.rtOffset != 0 && WordsStand(bytes, plan.fields.rtOffset, rt)
    requires |rt| == plan.fields.rtClusters * Pow2(plan.fields.clusterBits) / 8
    requires width == Pow2(OrderOf(plan.fields, 104)) && IsWidth(width) && 0 < n
    requires n * width == 8 * Pow2(plan.fields.clusterBits)
    requires CountsWritten(bytes, rt[..Min(|rt|, 0x10_0000)], blocks, width, Pow2(plan.fields.clusterBits))
    requires forall i :: 0 <= i < |blocks| ==> blocks[i] == [] || |blocks[i]| == n
    ensures
      var f, hosts := plan.fields, StoredHosts(plan.pieces);
      ReportOf(bytes) ==
        Ok(Report(OrderOf(f, 104), f.rtOffset, f.rtClusters, Min(|hosts|, 0x100_0001),
                  |ZeroCounts(blocks, n, hosts, Pow2(f.clusterBits), 0x100_0000)|))
  {
    var f, hosts, table := plan.fields, StoredHosts(plan.pieces), rt[..Min(|rt|, 0x10_0000)];
    TableReported(bytes, f, rt);
    WalkedL1(bytes, f, 104, plan.L1Words());
    WrittenHosts(plan, bytes);
    WrittenTable(bytes, f, 104, rt);
    CountsOfWritten(bytes, table, blocks, OrderOf(f, 104), f.clusterBits, n, hosts);
    EntriesOf(plan);
    ReportAssembled(bytes, f, OrderOf(f, 104), plan.L1Words(), plan.Entries(), hosts, table,
                    |ZeroCounts(blocks, n, hosts, Pow2(f.clusterBits), 0x100_0000)|);
  }

  lemma EntriesOf(plan: Plan)
    requires 9 <= plan.fields.clusterBits
    ensures IsTableLength(plan.Entries(), plan.fields.clusterBits)
  {
  }

  /** `n` entries fill an L2 table. */
  predicate IsTableLength(n: nat, clusterBits: nat)
    requires 3 <= clusterBits
  {
    n == Pow2(clusterBits - 3)
  }

  lemma TableReported(bytes: seq<byte>, f: Fields, rt: seq<u64>)
    requires Begins(bytes, f, 104) && ReportRefusal(f) == None && OrderOf(f, 104) <= 6
    requires WordsStand(bytes, f.rtOffset, rt) && |rt| == f.rtClusters * Pow2(f.clusterBits) / 8
    ensures ReportIs(bytes, f, OrderOf(f, 104))
  {
    StandingTable(bytes, f.rtOffset, rt);
    ReportOfWritten(bytes, f, 104);
  }

  /** Every field of the report but the counts */
  predicate ReportIs(bytes: seq<byte>, f: Fields, order: u32) {
    && ReportOf(bytes).Ok?
    && var r := ReportOf(bytes).value;
       r == Report(order, f.rtOffset, f.rtClusters, r.allocatedClusters, r.orphanClusters)
  }

  predicate TableIs(bytes: seq<byte>, clusterBits: nat, rt: seq<u64>)
    requires 9 <= clusterBits <= 20
  {
    RefcountTable(bytes, Window(bytes, 0, 104), clusterBits) == rt
  }

  predicate CountsAre(bytes: seq<byte>, rt: seq<u64>, hosts: seq<u64>, order: nat, clusterBits: nat, orphans: nat)
    requires order <= 6 && 9 <= clusterBits <= 20
  {
    CountsOf(bytes, rt, hosts, order, clusterBits) == (Min(|hosts|, 0x100_0001), orphans)
  }

  lemma ReportAssembled(bytes: seq<byte>, f: Fields, order: u32, l1: seq<u64>, n: nat, hosts: seq<u64>, rt: seq<u64>,
                        orphans: nat)
    requires 9 <= f.clusterBits <= 20 && order <= 6 && ReportIs(bytes, f, order)
    requires Walks(bytes, f.clusterBits, l1) && IsTableLength(n, f.clusterBits) && ScanFinds(bytes, l1, n, hosts)
    requires TableIs(bytes, f.clusterBits, rt) && CountsAre(bytes, rt, hosts, order, f.clusterBits, orphans)
    ensures ReportOf(bytes) == Ok(Report(order, f.rtOffset, f.rtClusters, Min(|hosts|, 0x100_0001), orphans))
  {
    ReportOfHosts(bytes, l1, f.clusterBits, n, hosts);
  }

  lemma CountsOfWritten(bytes: seq<byte>, rt: seq<u64>, blocks: seq<seq<nat>>, order: nat, clusterBits: nat, n: nat,
                        hosts: seq<u64>)
    requires order <= 6 && 9 <= clusterBits <= 20 && n * Pow2(order) == 8 * Pow2(clusterBits)
    requires CountsWritten(bytes, rt, blocks, Pow2(order), Pow2(clusterBits))
    requires 0 < n && forall i :: 0 <= i < |blocks| ==> blocks[i] == [] || |blocks[i]| == n
    ensures CountsAre(bytes, rt, hosts, order, clusterBits,
                      |ZeroCounts(blocks, n, hosts, Pow2(clusterBits), 0x100_0000)|)
  {
    WidthOfOrder(order);
    ClusterSizeOfBits(clusterBits);
    OrphansAreZeroCounts(bytes, rt, blocks, Pow2(order), Pow2(clusterBits), n, hosts, 0x100_0000);
  }
}
