/** The reader and the orphan scan walk the same tables with different masks, different loading and
    different caps.  Here is when they see the same data clusters. */
module Agreement {
  import opened Bits
  import opened Bytes
  import opened Io
  import opened Header
  import opened Mapping
  import opened Packing
  import opened Scan
  import R = Reader

  // One entry.

  /** The data cluster the reader takes from an L2 entry */
  function ReaderView(e: u64, clusterBits: nat): Option<u64>
    requires 9 <= clusterBits <= 20
  {
    match DecodeL2(e, clusterBits)
    case Normal(off) => Some(off)
    case _ => None
  }

  /** The data cluster the scan takes from an L2 entry */
  function ScanView(e: u64): Option<u64> {
    if Scanned(e) then Some(HostOffset(e)) else None
  }

  /** Bits 0 to 8 and 56 to `top - 1` of an entry are zero. */
  predicate ReservedClear(e: u64, top: nat)
    requires 56 <= top
  {
    e % 512 == 0 && Field(e, 56, top) == 0
  }

  /** Compressed entries and entries with the zero flag carry no data cluster. */
  predicate NoDataCluster(e: u64) {
    Field(e, 62, 63) == 1 || e % 2 == 1
  }

  lemma LowFields(e: u64)
    ensures Mod(e, Pow2(62)) == HostOffset(e) + Field(e, 56, 62) * 0x0100_0000_0000_0000 + e % 512
    ensures e % I64_LIMIT == HostOffset(e) + Field(e, 56, 63) * 0x0100_0000_0000_0000 + e % 512
  {
    Pow2Values();
    Pow2Sum(56, 6, 0x0100_0000_0000_0000, Pow2(6));
    Pow2Sum(56, 7, 0x0100_0000_0000_0000, Pow2(7));
    ModSplit(e, 0x0100_0000_0000_0000, Pow2(6));
    ModSplit(e, 0x0100_0000_0000_0000, Pow2(7));
  }

  /** Reader and scan agree on an L2 entry exactly when it holds no data cluster or its reserved bits
      are clear. */
  lemma EntriesAgree(e: u64, clusterBits: nat)
    requires 9 <= clusterBits <= 20
    ensures ReaderView(e, clusterBits) == ScanView(e) <==> NoDataCluster(e) || ReservedClear(e, 62)
  {
    LowFields(e);
    assert Pow2(1) == 2;
  }

  /** One stray reserved bit parts them: for entry 2 the reader serves the file's bytes from offset 2,
      while the scan sees an unallocated cluster. */
  lemma StrayBitDisagrees()
    ensures ReaderView(2, 9) == Some(2) && ScanView(2) == None
  {
    Pow2Values();
    DivModUnique(2, Pow2(62), 0, 2);
  }

  // Slots: entry `j` of the table under L1 entry `i`.

  /** Host offsets by guest cluster */
  type View = nat -> Option<u64>

  function DataCluster(r: Option<ClusterRef>): Option<u64> {
    match r
    case Some(Normal(off)) => Some(off)
    case _ => None
  }

  /** The data cluster the reader resolves guest cluster `k` to */
  function ReaderSlots(img: Image): View
    requires img.Valid()
  {
    (k: nat) => DataCluster(Resolve(img, Compose(k, img.ClusterSize(), 0)))
  }

  function ReaderSlot(img: Image, i: nat, j: nat): Option<u64>
    requires img.Valid()
  {
    ReaderSlots(img)(Compose(i, img.L2Entries(), j))
  }

  /** The L2 table the scan loads for L1 entry `i`: all of it or nothing */
  function ScanTable(img: Image, i: nat): seq<u64>
    requires img.Valid() && i < |img.l1|
  {
    if HostOffset(img.l1[i]) == 0 then [] else TableAt(img.bytes, HostOffset(img.l1[i]), img.L2Entries())
  }

  /** The data cluster the scan examines at slot (i, j) */
  function ScanSlot(img: Image, i: nat, j: nat): Option<u64>
    requires img.Valid()
  {
    if i < |img.l1| && j < |ScanTable(img, i)| then ScanView(ScanTable(img, i)[j]) else None
  }

  function ScanSlots(img: Image): View
    requires img.Valid()
  {
    (k: nat) => ScanSlot(img, Div(k, img.L2Entries()), Mod(k, img.L2Entries()))
  }

  /** L2 entry `j` of the table that L1 entry `i` points to */
  function L2Entry(img: Image, i: nat, j: nat): u64
    requires i < |img.l1|
  {
    BeU64(img.bytes, img.l1[i] % I64_LIMIT + j * 8)
  }

  /** What makes reader and scan agree on a slot: no table, an entry past the end of the file, an entry
      without a data cluster, or one with clear reserved bits in a table that is all there.  In a table
      that is cut off, an entry must map nothing. */
  predicate SlotClean(img: Image, i: nat, j: nat)
    requires img.Valid() && i < |img.l1|
  {
    var t := img.l1[i] % I64_LIMIT;
    var e := L2Entry(img, i, j);
    || t == 0
    || t + j * 8 + 8 > |img.bytes|
    || NoDataCluster(e)
    || if t + img.L2Entries() * 8 <= |img.bytes| then ReservedClear(e, 62) else Mod(e, Pow2(62)) == 0
  }

  /** What the reader resolves in slot (i, j) */
  lemma SlotResolves(img: Image, i: nat, j: nat)
    requires img.Valid() && i < |img.l1| && j < img.L2Entries()
    ensures Resolve(img, Compose(Compose(i, img.L2Entries(), j), img.ClusterSize(), 0)) ==
            if img.l1[i] % I64_LIMIT == 0 then Some(Unallocated)
            else if img.l1[i] % I64_LIMIT + j * 8 + 8 > |img.bytes| then None
            else Some(DecodeL2(L2Entry(img, i, j), img.clusterBits))
  {
    SplitOfJoin(img, Address(i, j, 0));
  }

  lemma ReaderSlotIs(img: Image, i: nat, j: nat)
    requires img.Valid() && i < |img.l1| && j < img.L2Entries()
    ensures ReaderSlot(img, i, j) ==
            if img.l1[i] % I64_LIMIT == 0 || img.l1[i] % I64_LIMIT + j * 8 + 8 > |img.bytes| then None
            else ReaderView(L2Entry(img, i, j), img.clusterBits)
  {
    SlotResolves(img, i, j);
  }

  /** Under a pointer with clear reserved bits the scan loads the reader's table, if it is all there. */
  lemma ScanTableIs(img: Image, i: nat)
    requires img.Valid() && i < |img.l1| && ReservedClear(img.l1[i], 63)
    ensures
      var t, n := img.l1[i] % I64_LIMIT, img.L2Entries();
      if t == 0 || t + n * 8 > |img.bytes| then ScanTable(img, i) == []
      else |ScanTable(img, i)| == n && forall j :: 0 <= j < n ==> ScanTable(img, i)[j] == L2Entry(img, i, j)
  {
    LowFields(img.l1[i]);
    var t, n := img.l1[i] % I64_LIMIT, img.L2Entries();
    assert HostOffset(img.l1[i]) == t;
    if t != 0 && t + n * 8 <= |img.bytes| {
      WholeTable(img.bytes, t, n);
    }
  }

  lemma WholeTable(bytes: seq<byte>, t: u64, n: nat)
    requires t != 0 && 0 < n && t + n * 8 <= |bytes|
    ensures |TableAt(bytes, t, n)| == n
    ensures forall j :: 0 <= j < n ==> TableAt(bytes, t, n)[j] == BeU64(bytes, t + j * 8)
  {
    forall j | 0 <= j < n ensures TableAt(bytes, t, n)[j] == BeU64(bytes, t + j * 8) {
      TableOfSlice(bytes, t, n, j);
    }
  }

  lemma ReaderViewNone(e: u64, clusterBits: nat)
    requires 9 <= clusterBits <= 20
    ensures ReaderView(e, clusterBits) == None <==> NoDataCluster(e) || Mod(e, Pow2(62)) == 0
  {
    assert Pow2(1) == 2;
  }

  /** Below a pointer with clear reserved bits, reader and scan take the same data cluster from a slot
      exactly when the slot is clean. */
  lemma SlotsAgree(img: Image, i: nat, j: nat)
    requires img.Valid() && i < |img.l1| && j < img.L2Entries() && ReservedClear(img.l1[i], 63)
    ensures ReaderSlot(img, i, j) == ScanSlot(img, i, j) <==> SlotClean(img, i, j)
  {
    ReaderSlotIs(img, i, j);
    ScanTableIs(img, i);
    EntriesAgree(L2Entry(img, i, j), img.clusterBits);
    ReaderViewNone(L2Entry(img, i, j), img.clusterBits);
    EntryInTable(j, img.L2Entries());
  }

  lemma EntryInTable(j: nat, n: nat)
    requires j < n
    ensures j * 8 + 8 <= n * 8
  {
  }

  /** A table cut off by the end of the file parts them: the reader serves the entries that are left,
      the scan drops the table. */
  lemma CutTableDisagrees(img: Image)
    requires img.Valid() && img.l1 == [512] && |img.bytes| == 520 && BeU64(img.bytes, 512) == 512
    ensures ReaderSlot(img, 0, 0) == Some(512) && ScanSlot(img, 0, 0) == None && !SlotClean(img, 0, 0)
  {
    LongTable(img.clusterBits);
    SmallPointer(512);
    assert L2Entry(img, 0, 0) == 512;
    ReaderSlotIs(img, 0, 0);
    NormalEntry(512, img.clusterBits);
    ScanTableIs(img, 0);
    SlotsAgree(img, 0, 0);
  }

  /** So does a table pointer with a stray low bit: the reader's first entry is then the scan's second. */
  lemma StrayPointerDisagrees(img: Image)
    requires img.Valid() && img.l1 == [520] && 512 + img.L2Entries() * 8 <= |img.bytes|
    requires BeU64(img.bytes, 512) == 0 && BeU64(img.bytes, 520) == 512
    ensures ReaderSlot(img, 0, 0) == Some(512) && ScanSlot(img, 0, 0) == None
  {
    LongTable(img.clusterBits);
    assert L2Entry(img, 0, 0) == 512;
    ReaderSlotIs(img, 0, 0);
    NormalEntry(512, img.clusterBits);
    assert HostOffset(img.l1[0]) == 512;
    WholeTable(img.bytes, 512, img.L2Entries());
    assert ScanTable(img, 0)[0] == 0;
  }

  lemma SmallPointer(e: u64)
    requires e < 0x0100_0000_0000_0000 && e % 512 == 0
    ensures ReservedClear(e, 63)
  {
    Pow2Values();
    DivModUnique(e, Pow2(56), 0, e);
    DivModUnique(0, Pow2(7), 0, 0);
  }

  lemma LongTable(clusterBits: nat)
    requires 9 <= clusterBits
    ensures Pow2(clusterBits - 3) >= 64
  {
    Pow2Small();
    Pow2Mono(6, clusterBits - 3);
  }

  lemma NormalEntry(e: u64, clusterBits: nat)
    requires 9 <= clusterBits <= 20 && e < 0x4000_0000_0000_0000 && e % 2 == 0 && e != 0
    ensures ReaderView(e, clusterBits) == Some(e)
  {
    Pow2Values();
    DivModUnique(e, Pow2(62), 0, e);
  }

  // Whole images.

  /** The host offsets of the first `n` guest clusters that have one, in guest order */
  function Listed(view: View, n: nat): seq<u64> {
    if n == 0 then []
    else Listed(view, n - 1) + if view(n - 1).Some? then [view(n - 1).value] else []
  }

  /** Two views list alike where they agree. */
  lemma {:induction false} ListedSame(v: View, w: View, n: nat)
    requires forall k :: 0 <= k < n ==> v(k) == w(k)
    ensures Listed(v, n) == Listed(w, n)
  {
    if n != 0 {
      ListedSame(v, w, n - 1);
    }
  }

  /** Listing further appends, and appends nothing exactly if there is nothing further on. */
  lemma {:induction false} ListedGrows(v: View, m: nat, n: nat)
    requires m <= n
    ensures Listed(v, m) <= Listed(v, n)
    ensures Listed(v, m) == Listed(v, n) <==> forall k :: m <= k < n ==> v(k) == None
    decreases n
  {
    if m < n {
      ListedGrows(v, m, n - 1);
    }
  }

  /** Listing over the slots of a table appends the table's clusters. */
  lemma {:induction false} ListedTable(v: View, base: nat, l2: seq<u64>, j: nat, next: nat)
    requires j <= |l2| && next == base + j
    requires forall k :: base <= k < next ==> v(k) == ScanView(l2[k - base])
    ensures Listed(v, next) == Listed(v, base) + HostsOfTable(l2[..j])
    decreases j
  {
    if j == 0 {
      assert l2[..0] == [];
    } else {
      ListedTable(v, base, l2, j - 1, next - 1);
      assert next - 1 - base == j - 1;
      ListedTableStep(v, base, l2, j - 1, next - 1, next);
    }
  }

  lemma ListedTableStep(v: View, base: nat, l2: seq<u64>, j: nat, k: nat, next: nat)
    requires j < |l2| && next == k + 1 && v(k) == ScanView(l2[j])
    requires Listed(v, k) == Listed(v, base) + HostsOfTable(l2[..j])
    ensures Listed(v, next) == Listed(v, base) + HostsOfTable(l2[..j + 1])
  {
    TableStep(Listed(v, base), l2, j);
    ListedStep(v, k, next);
  }

  lemma ListedStep(v: View, k: nat, next: nat)
    requires next == k + 1
    ensures Listed(v, next) == Listed(v, k) + if v(k).Some? then [v(k).value] else []
  {
  }

  lemma ScanSlotAt(img: Image, i: nat, j: nat)
    requires img.Valid() && j < img.L2Entries()
    ensures ScanSlots(img)(Compose(i, img.L2Entries(), j)) == ScanSlot(img, i, j)
  {
    DivModOfCompose(i, img.L2Entries(), j);
  }

  /** One L1 entry: the scan's slots under it list exactly the clusters it contributes. */
  lemma ListedEntry(img: Image, i: nat)
    requires img.Valid() && i < |img.l1|
    ensures
      var n := img.L2Entries();
      Listed(ScanSlots(img), Compose(i, n, n)) ==
        Listed(ScanSlots(img), Compose(i, n, 0)) + HostsOfTable(ScanTable(img, i))
  {
    var n := img.L2Entries();
    var base, end := Compose(i, n, 0), Compose(i, n, n);
    TableLength(img, i);
    forall k | base <= k < end
      ensures ScanSlots(img)(k) == if ScanTable(img, i) == [] then None else ScanView(ScanTable(img, i)[k - base])
    {
      ScanSlotFrom(img, i, k, k - base);
    }
    ListedSlots(ScanSlots(img), base, ScanTable(img, i), n, end);
  }

  lemma ScanSlotFrom(img: Image, i: nat, k: nat, j: nat)
    requires img.Valid() && i < |img.l1| && j < img.L2Entries() && k == Compose(i, img.L2Entries(), 0) + j
    ensures ScanSlots(img)(k) == if ScanTable(img, i) == [] then None else ScanView(ScanTable(img, i)[j])
  {
    ScanSlotAt(img, i, j);
    TableLength(img, i);
    assert k == Compose(i, img.L2Entries(), j);
  }

  lemma ListedSlots(v: View, base: nat, l2: seq<u64>, n: nat, end: nat)
    requires (l2 == [] || |l2| == n) && end == base + n
    requires forall k :: base <= k < end ==> v(k) == if l2 == [] then None else ScanView(l2[k - base])
    ensures Listed(v, end) == Listed(v, base) + HostsOfTable(l2)
  {
    if l2 == [] {
      ListedGrows(v, base, end);
      assert HostsOfTable(l2) == [];
    } else {
      ListedTable(v, base, l2, n, end);
      WholeSeq(l2);
    }
  }

  lemma TableLength(img: Image, i: nat)
    requires img.Valid() && i < |img.l1|
    ensures ScanTable(img, i) == [] || |ScanTable(img, i)| == img.L2Entries()
  {
  }

  lemma {:induction false} ScanListsFirst(img: Image, i: nat)
    requires img.Valid() && i <= |img.l1|
    ensures Hosts(img.bytes, img.l1[..i], img.L2Entries()) == Listed(ScanSlots(img), Compose(i, img.L2Entries(), 0))
    decreases i
  {
    if i != 0 {
      var k, n := i - 1, img.L2Entries();
      ScanListsFirst(img, k);
      HostsStep(img.bytes, img.l1, n, k);
      ListedEntry(img, k);
      NextTable(k, n);
    }
  }

  lemma NextTable(k: nat, n: nat)
    ensures Compose(k, n, n) == Compose(k + 1, n, 0)
  {
  }

  /** The walk of the L1 table finds exactly `hosts`, in this order. */
  predicate ScanFinds(bytes: seq<byte>, l1: seq<u64>, n: nat, hosts: seq<u64>) {
    Hosts(bytes, l1, n) == hosts
  }

  /** The number of slots the active tables have */
  function SlotCount(img: Image): nat
    requires img.Valid()
  {
    Compose(|img.l1|, img.L2Entries(), 0)
  }

  /** On any image, what the scan examines is its slots in guest order. */
  lemma ScanListsSlots(img: Image)
    requires img.Valid()
    ensures Hosts(img.bytes, img.l1, img.L2Entries()) == Listed(ScanSlots(img), SlotCount(img))
  {
    ScanListsFirst(img, |img.l1|);
    WholeSeq(img.l1);
  }

  ghost predicate CleanPointers(img: Image) {
    forall i :: 0 <= i < |img.l1| ==> ReservedClear(img.l1[i], 63)
  }

  ghost predicate CleanSlots(img: Image)
    requires img.Valid()
  {
    forall i, j :: 0 <= i < |img.l1| && 0 <= j < img.L2Entries() ==> SlotClean(img, i, j)
  }

  /** Over pointers with clear reserved bits, reader and scan take the same data cluster from every slot
      exactly when every slot is clean. */
  lemma SlotsAgreeEverywhere(img: Image)
    requires img.Valid() && CleanPointers(img)
    ensures CleanSlots(img) <==> forall k :: 0 <= k < SlotCount(img) ==> ReaderSlots(img)(k) == ScanSlots(img)(k)
  {
    var n := img.L2Entries();
    forall i, j | 0 <= i < |img.l1| && 0 <= j < n
      ensures Compose(i, n, j) < SlotCount(img)
      ensures SlotClean(img, i, j) <==>
              ReaderSlots(img)(Compose(i, n, j)) == ScanSlots(img)(Compose(i, n, j))
    {
      SlotsAgree(img, i, j);
      ScanSlotAt(img, i, j);
      SlotBelow(i, n, j, |img.l1|);
    }
    forall k: nat | k < SlotCount(img)
      ensures Div(k, n) < |img.l1| && Mod(k, n) < n && Compose(Div(k, n), n, Mod(k, n)) == k
    {
      DivThenMul(k, n);
      QuotientBelow(k, n, |img.l1|);
    }
    if CleanSlots(img) {
      forall k: nat | k < SlotCount(img) ensures ReaderSlots(img)(k) == ScanSlots(img)(k) {
        assert SlotClean(img, Div(k, n), Mod(k, n));
      }
    }
  }

  lemma SlotBelow(i: nat, n: nat, j: nat, m: nat)
    requires i < m && j < n
    ensures Compose(i, n, j) < Compose(m, n, 0)
  {
    MulBound(i, n, m);
  }

  /** The data clusters the tables map for the reader, in guest order */
  function Mapped(img: Image): seq<u64>
    requires img.Valid()
  {
    Listed(ReaderSlots(img), SlotCount(img))
  }

  /** Over clean tables the scan examines exactly the clusters the reader's tables map. */
  lemma ScanSeesWhatReaderMaps(img: Image)
    requires img.Valid() && CleanPointers(img) && CleanSlots(img)
    ensures ScanFinds(img.bytes, img.l1, img.L2Entries(), Mapped(img))
  {
    ScanListsSlots(img);
    SlotsAgreeEverywhere(img);
    ListedSame(ReaderSlots(img), ScanSlots(img), SlotCount(img));
  }

  /** The number of guest clusters of the disk, the last one possibly partial */
  function DiskClusters(img: Image): nat {
    Div(img.size + img.ClusterSize() - 1, img.ClusterSize())
  }

  /** The data clusters the reader can be made to read: those of the guest disk */
  function Served(img: Image): seq<u64>
    requires img.Valid()
  {
    Listed(ReaderSlots(img), DiskClusters(img))
  }

  /** A guest cluster belongs to the disk exactly when it starts before the disk's end. */
  lemma OnDisk(img: Image, k: nat)
    ensures k < DiskClusters(img) <==> Compose(k, img.ClusterSize(), 0) < img.size
  {
    var c := img.ClusterSize();
    var q, r := Div(img.size + c - 1, c), Mod(img.size + c - 1, c);
    assert img.size + c - 1 == q * c + r;
    if k < q {
      MulMono(k + 1, q, c);
      assert (k + 1) * c == k * c + c;
    } else {
      MulMono(q, k, c);
    }
  }

  /** Past the tables there is nothing to read. */
  lemma NothingPastTables(img: Image, k: nat)
    requires img.Valid() && SlotCount(img) <= k
    ensures ReaderSlots(img)(k) == None
  {
    var n := img.L2Entries();
    DivModOfCompose(k, img.ClusterSize(), 0);
    DivThenMul(k, n);
    if Div(k, n) < |img.l1| {
      MulBound(Div(k, n), n, |img.l1|);
    }
  }

  /** The tables map what the reader serves and nothing else exactly when no data cluster is mapped past
      the disk's end; what is served is always a prefix. */
  lemma ServedIsMapped(img: Image)
    requires img.Valid()
    ensures Served(img) <= Mapped(img)
    ensures Served(img) == Mapped(img) <==>
            forall k :: DiskClusters(img) <= k < SlotCount(img) ==> ReaderSlots(img)(k) == None
  {
    if DiskClusters(img) <= SlotCount(img) {
      ListedGrows(ReaderSlots(img), DiskClusters(img), SlotCount(img));
    } else {
      forall k | SlotCount(img) <= k < DiskClusters(img) ensures ReaderSlots(img)(k) == None {
        NothingPastTables(img, k);
      }
      ListedGrows(ReaderSlots(img), SlotCount(img), DiskClusters(img));
    }
  }

  /** The two entry points read the same geometry, and the same L1 table exactly when its position is
      nonzero or it is empty: at position 0 the reader takes the header's own bytes for table pointers,
      the scan takes no table. */
  lemma SameL1(bytes: seq<byte>, seekLimit: u64, inflate: Inflate, img: Image)
    requires R.OpenImage(bytes, seekLimit, inflate, 0) == Ok(img)
    ensures img.bytes == bytes && BeU32(Window(bytes, 0, 104), 20) == img.clusterBits
    ensures ActiveL1(bytes, Window(bytes, 0, 104)) == img.l1 <==>
            BeU64(Window(bytes, 0, 104), 40) != 0 || img.l1 == []
  {
    R.OpenedImage(bytes, seekLimit, inflate, 0, img);
    var hdr := Window(bytes, 0, 104);
    var offset, n := BeU64(hdr, 40), BeU32(hdr, 36);
    if offset != 0 || n == 0 {
      SameTable(bytes, seekLimit, offset, n);
    }
  }

  lemma SameTable(bytes: seq<byte>, seekLimit: u64, offset: u64, n: nat)
    requires R.L1TableAt(bytes, seekLimit, offset, n).Some? && (offset != 0 || n == 0)
    ensures R.L1TableAt(bytes, seekLimit, offset, n) == Some(TableAt(bytes, offset, n))
  {
    if n != 0 {
      assert Window(bytes, offset, n * 8) == bytes[offset..offset + n * 8];
    }
  }

  /** The report on a file counts `hosts`: how many there are, one past the cap at most, and how many of
      those up to the cap have a refcount known to be zero. */
  predicate ReportCounts(bytes: seq<byte>, clusterBits: u32, hosts: seq<u64>) {
    && ReportOf(bytes).Ok? && ReportOf(bytes).value.refcountOrder <= 6 && 9 <= clusterBits <= 20
    && var r := ReportOf(bytes).value;
       var rt := RefcountTable(bytes, Window(bytes, 0, 104), clusterBits);
       (r.allocatedClusters, r.orphanClusters) == CountsOf(bytes, rt, hosts, r.refcountOrder, clusterBits)
  }

  /** The scan gets as far as the walk. */
  predicate Reported(bytes: seq<byte>) {
    ReportOf(bytes).Ok? && ReportOf(bytes).value.refcountOrder <= 6
  }

  /** The geometry and the L1 table the scan takes from a file */
  predicate Walks(bytes: seq<byte>, clusterBits: u32, l1: seq<u64>) {
    BeU32(Window(bytes, 0, 104), 20) == clusterBits && ActiveL1(bytes, Window(bytes, 0, 104)) == l1
  }

  lemma ReportOfHosts(bytes: seq<byte>, l1: seq<u64>, clusterBits: u32, n: nat, hosts: seq<u64>)
    requires Reported(bytes) && 9 <= clusterBits <= 20 && Walks(bytes, clusterBits, l1)
    requires n == Pow2(clusterBits - 3) && ScanFinds(bytes, l1, n, hosts)
    ensures ReportCounts(bytes, clusterBits, hosts)
  {
    SameHosts(bytes, l1, n, Pow2(clusterBits - 3));
  }

  /** For an image the reader opens, the report counts whatever the scan's walk of the reader's L1 table
      finds; with an L1 position of 0 it counts nothing. */
  lemma ReportOfImage(bytes: seq<byte>, seekLimit: u64, inflate: Inflate, img: Image, hosts: seq<u64>)
    requires R.OpenImage(bytes, seekLimit, inflate, 0) == Ok(img) && img.Valid()
    requires Reported(bytes)
    requires if BeU64(Window(bytes, 0, 104), 40) == 0 then hosts == []
             else ScanFinds(img.bytes, img.l1, img.L2Entries(), hosts)
    ensures ReportCounts(bytes, img.clusterBits, hosts)
  {
    SameL1(bytes, seekLimit, inflate, img);
    var l1 := ActiveL1(bytes, Window(bytes, 0, 104));
    assert BeU64(Window(bytes, 0, 104), 40) == 0 ==> l1 == [];
    ReportOfHosts(bytes, l1, img.clusterBits, img.L2Entries(), hosts);
  }

  lemma SameHosts(bytes: seq<byte>, l1: seq<u64>, a: nat, b: nat)
    requires a == b
    ensures Hosts(bytes, l1, a) == Hosts(bytes, l1, b)
  {
  }

  /** End to end: for an image the reader opens and the scan reports on, with clean tables, the report
      counts the data clusters the reader's tables map and, among those up to the cap, the ones whose
      refcount is known to be zero; with an L1 position of 0, whatever the reader maps, it counts
      nothing. */
  lemma ReportCountsReaderClusters(bytes: seq<byte>, seekLimit: u64, inflate: Inflate, img: Image)
    requires R.OpenImage(bytes, seekLimit, inflate, 0) == Ok(img) && img.Valid()
    requires Reported(bytes)
    requires BeU64(Window(bytes, 0, 104), 40) != 0 ==> CleanPointers(img) && CleanSlots(img)
    ensures ReportCounts(bytes, img.clusterBits, if BeU64(Window(bytes, 0, 104), 40) == 0 then [] else Mapped(img))
  {
    if BeU64(Window(bytes, 0, 104), 40) == 0 {
      ReportOfImage(bytes, seekLimit, inflate, img, []);
    } else {
      ScanSeesWhatReaderMaps(img);
      ReportOfImage(bytes, seekLimit, inflate, img, Mapped(img));
    }
  }
}
