/** Small files, written out field by field, on which the findings about the program can be seen. */
module Files {
  import opened Bits
  import opened Bytes
  import opened Io
  import opened Layout
  import opened Header
  import opened Mapping
  import opened Packing
  import opened Refcount
  import opened Scan
  import opened Agreement
  import opened WrittenHeaders
  import opened WrittenCounts
  import C = Compressed
  import O = BitOrder
  import R = Reader

  /** A header without the features that make the reader refuse a file */
  predicate Plain(f: Fields) {
    && f.magic == MAGIC && 2 <= f.version <= 3 && 9 <= f.clusterBits <= 20 && f.l1Size <= MAX_L1_ENTRIES
    && f.backingOffset == 0 && f.encryption == 0 && f.features == 0
  }

  lemma HeadBegins(f: Fields, rest: seq<byte>)
    ensures Begins(Head(f) + rest, f, 104) && Begins(Head(f), f, 104)
    ensures Window(Head(f) + rest, 0, 104) == Head(f)
  {
    assert (Head(f) + rest)[..104] == Head(f) == Head(f)[..104];
    assert (Head(f) + rest)[0..104] == Head(f);
  }

  /** A file with a plain header and its L1 table inside opens. */
  lemma Opens(f: Fields, rest: seq<byte>, inflate: Inflate)
    requires Plain(f) && |Head(f) + rest| <= I64_LIMIT && f.l1Offset + f.l1Size * 8 <= |Head(f) + rest|
    ensures OpensAs(f, Head(f) + rest, inflate, R.OpenImage(Head(f) + rest, I64_LIMIT, inflate, 0))
  {
    HeadBegins(f, rest);
    NoFeatures();
    OpeningOfWritten(Head(f) + rest, f, 104, I64_LIMIT, inflate);
  }

  /** The file opens as the image its header describes. */
  ghost predicate OpensAs(f: Fields, bytes: seq<byte>, inflate: Inflate, result: Result<Image, Qcow2Error>) {
    && result.Ok?
    && IsL1(bytes, f, result.value.l1)
    && result.value == Image(bytes, I64_LIMIT, f.clusterBits, f.size, result.value.l1, inflate)
  }

  /** A file with a plain header and its refcount table inside, or none, is reported on. */
  lemma IsReported(f: Fields, rest: seq<byte>)
    requires Plain(f) && (f.version == 3 ==> f.refcountOrder <= 6)
    requires f.rtOffset == 0 || f.rtOffset + TableEntries(f.rtClusters, f.clusterBits) * 8 <= |Head(f) + rest|
    ensures ReportIs(Head(f) + rest, f, OrderOf(f, 104)) && Reported(Head(f) + rest)
  {
    HeadBegins(f, rest);
    LoadedIs(f);
    ReportOfWritten(Head(f) + rest, f, 104);
  }

  /** What a file says about its geometry and its L1 table */
  lemma GeometryOf(f: Fields, rest: seq<byte>)
    ensures
      var hdr := Window(Head(f) + rest, 0, 104);
      BeU32(hdr, 20) == f.clusterBits && BeU32(hdr, 36) == f.l1Size && BeU64(hdr, 40) == f.l1Offset
      && BeU64(hdr, 48) == f.rtOffset && BeU32(hdr, 56) == f.rtClusters
  {
    HeadBegins(f, rest);
    FieldsOfHead(f);
  }

  /** A header, one L1 entry right behind it, and the rest */
  function OneTable(f: Fields, l1Entry: u64, rest: seq<byte>): seq<byte> {
    Head(f) + (ToBE(l1Entry, 8) + rest)
  }

  /** A plain version-2 header for `OneTable` */
  function OneTableFields(): Fields {
    Fields(0x5146_49fb, 2, 0, 0, 9, 512, 0, 1, 104, 0, 0, 0, 0, 0, 0, 0, 4, 104)
  }

  predicate HasOneTable(f: Fields) {
    Plain(f) && f.l1Size == 1 && f.l1Offset == 104
  }

  function ImageOf(f: Fields, l1Entry: u64, rest: seq<byte>, inflate: Inflate): Image {
    Image(OneTable(f, l1Entry, rest), I64_LIMIT, f.clusterBits, f.size, [l1Entry], inflate)
  }

  lemma OneTableOpens(f: Fields, l1Entry: u64, rest: seq<byte>, inflate: Inflate)
    requires HasOneTable(f) && |rest| < 0x1_0000
    ensures ImageOf(f, l1Entry, rest, inflate).Valid()
    ensures R.OpenImage(OneTable(f, l1Entry, rest), I64_LIMIT, inflate, 0) == Ok(ImageOf(f, l1Entry, rest, inflate))
  {
    var tail := ToBE(l1Entry, 8) + rest;
    Opens(f, tail, inflate);
    FirstWord(Head(f), l1Entry, rest, OneTable(f, l1Entry, rest));
    OneEntryTable(R.OpenImage(OneTable(f, l1Entry, rest), I64_LIMIT, inflate, 0).value.l1, l1Entry,
                  OneTable(f, l1Entry, rest), f);
  }

  lemma OneEntryTable(l1: seq<u64>, v: u64, bytes: seq<byte>, f: Fields)
    requires IsL1(bytes, f, l1) && f.l1Size == 1 && f.l1Offset == 104 && BeU64(bytes, 104) == v
    ensures l1 == [v]
  {
    assert l1[0] == BeU64(bytes, 104 + 0 * 8);
  }

  lemma FirstWord(head: seq<byte>, v: u64, rest: seq<byte>, bytes: seq<byte>)
    requires |head| == 104 && bytes == head + (ToBE(v, 8) + rest)
    ensures WordsStand(bytes, 104, [v]) && BeU64(bytes, 104) == v
  {
    assert bytes == head + ToBE(v, 8) + rest;
    WordIn(head, v, rest, bytes, 104);
    OneWord(v);
    assert bytes[104..112] == ToBE(v, 8);
  }

  lemma OneWord(v: u64)
    ensures EncodeWords([v]) == ToBE(v, 8)
  {
    assert [v][1..] == [];
  }

  lemma WordIn(pre: seq<byte>, v: u64, post: seq<byte>, bytes: seq<byte>, off: nat)
    requires off == |pre| && bytes == pre + ToBE(v, 8) + post
    ensures off + 8 <= |bytes| && BeU64(bytes, off) == v
  {
    assert bytes[off..off + 8] == ToBE(v, 8);
    LongAt(bytes, off, v);
  }

  lemma {:induction false} ValueOfZeros(s: seq<byte>)
    requires forall i :: 0 <= i < |s| ==> s[i] == 0
    ensures BE(s) == 0
  {
    if s != [] {
      ValueOfZeros(s[..|s| - 1]);
    }
  }

  lemma ZeroWord(bytes: seq<byte>, off: nat)
    requires off + 8 <= |bytes| && forall i :: off <= i < off + 8 ==> bytes[i] == 0
    ensures BeU64(bytes, off) == 0
  {
    ValueOfZeros(bytes[off..off + 8]);
  }

  // Length of inflated clusters.

  /** 120 bytes: the L2 entry at 112 is a compressed descriptor that names byte 120. */
  function LostFile(): seq<byte> {
    OneTable(OneTableFields(), 112, ToBE(C.Encode(120, 1, 9), 8))
  }

  /** The file opens, and its guest byte 0 reads as zero although no stream is there. */
  lemma LostClusterReadsZero(inflate: Inflate)
    requires inflate([]) == Some([])
    ensures R.OpenImage(LostFile(), I64_LIMIT, inflate, 0).Ok?
    ensures
      var img := R.OpenImage(LostFile(), I64_LIMIT, inflate, 0).value;
      img.Valid() && CellAt(img, 0) == Byte(0) && C.StrictCellAt(img, 0) == Fault
  {
    Pow2Small();
    Pow2Mono(9, C.SplitBit(9));
    C.DecodeOfEncode(120, 1, 9);
    LostIn(OneTableFields(), C.Encode(120, 1, 9), inflate);
  }

  lemma LostIn(f: Fields, e: u64, inflate: Inflate)
    requires HasOneTable(f) && DecodeL2(e, f.clusterBits) == ClusterRef.Compressed(120, 512)
    requires inflate([]) == Some([])
    ensures R.OpenImage(OneTable(f, 112, ToBE(e, 8)), I64_LIMIT, inflate, 0).Ok?
    ensures
      var img := R.OpenImage(OneTable(f, 112, ToBE(e, 8)), I64_LIMIT, inflate, 0).value;
      img.Valid() && CellAt(img, 0) == Byte(0) && C.StrictCellAt(img, 0) == Fault
  {
    OneTableOpens(f, 112, ToBE(e, 8), inflate);
    LostEntry(Head(f), 112, e, ImageOf(f, 112, ToBE(e, 8), inflate));
  }

  lemma LostEntry(head: seq<byte>, p: u64, e: u64, img: Image)
    requires |head| == 104 && p == 112 && img.Valid() && img.l1 == [p]
    requires img.bytes == head + (ToBE(p, 8) + ToBE(e, 8)) && img.seekLimit == I64_LIMIT
    requires DecodeL2(e, img.clusterBits) == ClusterRef.Compressed(120, 512) && img.inflate([]) == Some([])
    ensures CellAt(img, 0) == Byte(0) && C.StrictCellAt(img, 0) == Fault
  {
    LostBytes(head, p, e, img.bytes);
    FirstEntry(img, p, e);
    C.DescriptorParts(e, img.clusterBits);
    C.PastEndReadsZero(img, 0, e);
  }

  lemma LostBytes(head: seq<byte>, p: u64, e: u64, bytes: seq<byte>)
    requires |head| == 104 && p == 112 && bytes == head + (ToBE(p, 8) + ToBE(e, 8))
    ensures |bytes| == 120 && BeU64(bytes, p) == e
  {
    assert bytes == head + ToBE(p, 8) + ToBE(e, 8) + [];
    WordIn(head + ToBE(p, 8), e, [], bytes, p);
  }

  lemma FirstEntry(img: Image, p: u64, e: u64)
    requires img.Valid() && img.l1 == [p] && 0 < p < I64_LIMIT && p + 8 <= |img.bytes| && BeU64(img.bytes, p) == e
    ensures C.EntryIs(img, 0, e)
  {
    C.FirstSlot(img);
    C.ReadableSlot(img, 0, p, p);
  }

  // Reserved bits and cut tables.

  /** 520 bytes: the table at 512 is cut off after its first entry, which names byte 512. */
  function CutFile(): seq<byte> {
    OneTable(OneTableFields(), 512, Zeros(400) + ToBE(512, 8))
  }

  /** The reader opens the file and maps a data cluster, the scan reports none. */
  lemma CutTableUncounted(inflate: Inflate)
    ensures R.OpenImage(CutFile(), I64_LIMIT, inflate, 0).Ok?
    ensures
      var img := R.OpenImage(CutFile(), I64_LIMIT, inflate, 0).value;
      img.Valid() && ReaderSlot(img, 0, 0) == Some(512) && ReportCounts(CutFile(), 9, [])
  {
    CutIn(OneTableFields(), 512, inflate);
  }

  lemma CutIn(f: Fields, p: u64, inflate: Inflate)
    requires HasOneTable(f) && f.version == 2 && f.rtOffset == 0 && p == 512
    ensures
      var bytes := OneTable(f, p, Zeros(400) + ToBE(p, 8));
      var result := R.OpenImage(bytes, I64_LIMIT, inflate, 0);
      && result.Ok? && result.value.Valid() && ReaderSlot(result.value, 0, 0) == Some(512)
      && ReportCounts(bytes, f.clusterBits, [])
  {
    var rest := Zeros(400) + ToBE(p, 8);
    OneTableOpens(f, p, rest, inflate);
    IsReported(f, ToBE(p, 8) + rest);
    GeometryOf(f, ToBE(p, 8) + rest);
    CutBytes(Head(f), p, OneTable(f, p, rest));
    CutTableDisagrees(ImageOf(f, p, rest, inflate));
    CutTableHosts(ImageOf(f, p, rest, inflate));
    ReportOfImage(OneTable(f, p, rest), I64_LIMIT, inflate, ImageOf(f, p, rest, inflate), []);
  }

  lemma CutBytes(head: seq<byte>, p: u64, bytes: seq<byte>)
    requires |head| == 104 && p == 512 && bytes == head + (ToBE(p, 8) + (Zeros(400) + ToBE(p, 8)))
    ensures |bytes| == 520 && BeU64(bytes, 512) == 512
  {
    assert bytes == head + ToBE(p, 8) + Zeros(400) + ToBE(p, 8) + [];
    WordIn(head + ToBE(p, 8) + Zeros(400), p, [], bytes, 512);
  }

  lemma CutTableHosts(img: Image)
    requires img.Valid() && img.l1 == [512] && |img.bytes| == 520
    ensures ScanFinds(img.bytes, img.l1, img.L2Entries(), [])
  {
    LongTable(img.clusterBits);
    SmallPointer(512);
    ScanTableIs(img, 0);
    HostsStep(img.bytes, img.l1, img.L2Entries(), 0);
    assert img.l1[..0] == [] && img.l1[..1] == img.l1;
    assert HostsOfEntry(img.bytes, img.l1[0], img.L2Entries()) == HostsOfTable(ScanTable(img, 0));
  }

  /** 1024 bytes: the table at 512 starts with an empty entry and one that names byte 512; its pointer
      has a stray bit. */
  function StrayFile(): seq<byte> {
    OneTable(OneTableFields(), 520, Zeros(408) + (ToBE(512, 8) + Zeros(496)))
  }

  lemma StrayPointerOpens(inflate: Inflate)
    ensures R.OpenImage(StrayFile(), I64_LIMIT, inflate, 0).Ok?
    ensures
      var img := R.OpenImage(StrayFile(), I64_LIMIT, inflate, 0).value;
      img.Valid() && ReaderSlot(img, 0, 0) == Some(512) && ScanSlot(img, 0, 0) == None
  {
    StrayIn(OneTableFields(), 520, 512, inflate);
  }

  lemma StrayIn(f: Fields, p: u64, v: u64, inflate: Inflate)
    requires HasOneTable(f) && f.clusterBits == 9 && p == 520 && v == 512
    ensures
      var bytes := OneTable(f, p, Zeros(408) + (ToBE(v, 8) + Zeros(496)));
      var result := R.OpenImage(bytes, I64_LIMIT, inflate, 0);
      && result.Ok? && result.value.Valid()
      && ReaderSlot(result.value, 0, 0) == Some(512) && ScanSlot(result.value, 0, 0) == None
  {
    var rest := Zeros(408) + (ToBE(v, 8) + Zeros(496));
    OneTableOpens(f, p, rest, inflate);
    StrayBytes(Head(f), p, v, OneTable(f, p, rest));
    StraySlots(ImageOf(f, p, rest, inflate));
  }

  lemma StraySlots(img: Image)
    requires img.Valid() && img.clusterBits == 9 && img.l1 == [520] && |img.bytes| == 1024
    requires BeU64(img.bytes, 512) == 0 && BeU64(img.bytes, 520) == 512
    ensures ReaderSlot(img, 0, 0) == Some(512) && ScanSlot(img, 0, 0) == None
  {
    Pow2Small();
    StrayPointerDisagrees(img);
  }

  lemma StrayBytes(head: seq<byte>, p: u64, v: u64, bytes: seq<byte>)
    requires |head| == 104 && v == 512
    requires bytes == head + (ToBE(p, 8) + (Zeros(408) + (ToBE(v, 8) + Zeros(496))))
    ensures |bytes| == 1024 && BeU64(bytes, 512) == 0 && BeU64(bytes, 520) == 512
  {
    assert bytes == head + ToBE(p, 8) + Zeros(408) + ToBE(v, 8) + Zeros(496);
    WordIn(head + ToBE(p, 8) + Zeros(408), v, Zeros(496), bytes, 520);
    ZeroWord(bytes, 512);
  }

  /** 104 bytes, nothing but a header whose L1 table lies at position 0, on top of the header */
  function HeaderAsTable(): seq<byte> {
    Head(HeaderAsTableFields()) + []
  }

  function HeaderAsTableFields(): Fields {
    Fields(0x5146_49fb, 2, 0, 0, 9, 0x1_0400, 0, 3, 0, 0, 0, 0, 0, 0, 0, 0, 4, 104)
  }

  /** The reader takes the header's third word for a table pointer and maps guest cluster 129 of 130 to
      byte 2304; the scan takes no table and counts nothing. */
  lemma HeaderAsTableDisagrees(inflate: Inflate)
    ensures R.OpenImage(HeaderAsTable(), I64_LIMIT, inflate, 0).Ok?
    ensures
      var img := R.OpenImage(HeaderAsTable(), I64_LIMIT, inflate, 0).value;
      && img.Valid() && DiskClusters(img) == 130 && ReaderSlots(img)(129) == Some(2304)
      && ReportCounts(HeaderAsTable(), 9, [])
  {
    HeaderAsTableIn(HeaderAsTableFields(), inflate);
  }

  lemma HeaderAsTableIn(f: Fields, inflate: Inflate)
    requires Plain(f) && f.version == 2 && f.clusterBits == 9 && f.backingSize == 0 && f.size == 0x1_0400
    requires f.l1Size == 3 && f.l1Offset == 0 && f.rtOffset == 0
    ensures
      var bytes := Head(f) + [];
      var result := R.OpenImage(bytes, I64_LIMIT, inflate, 0);
      && result.Ok? && result.value.Valid() && DiskClusters(result.value) == 130
      && ReaderSlots(result.value)(129) == Some(2304) && ReportCounts(bytes, 9, [])
  {
    var bytes := Head(f) + [];
    Opens(f, [], inflate);
    IsReported(f, []);
    GeometryOf(f, []);
    HeaderWords(f);
    var img := R.OpenImage(bytes, I64_LIMIT, inflate, 0).value;
    assert img.l1[2] == BeU64(bytes, 0 + 2 * 8);
    HeaderMaps(img);
    ReportOfImage(bytes, I64_LIMIT, inflate, img, []);
  }

  lemma HeaderMaps(img: Image)
    requires img.Valid() && img.clusterBits == 9 && img.size == 0x1_0400 && |img.bytes| == 104
    requires |img.l1| == 3 && img.l1[2] == 9 && BeU64(img.bytes, 17) == 2304
    ensures DiskClusters(img) == 130 && ReaderSlots(img)(129) == Some(2304)
  {
    Pow2Small();
    assert Compose(2, img.L2Entries(), 1) == 129;
    assert L2Entry(img, 2, 1) == 2304;
    ReaderSlotIs(img, 2, 1);
    NormalEntry(2304, 9);
  }

  /** The third word of a header, and the word that starts one byte into it */
  lemma HeaderWords(f: Fields)
    requires f.backingSize == 0 && f.clusterBits == 9 && f.size == 0x1_0400
    ensures
      var bytes := Head(f) + [];
      BeU64(bytes, 16) == 9 && BeU64(bytes, 17) == 2304
  {
    var h, bytes := Head(f), Head(f) + [];
    assert bytes == h;
    PiecesOfHead(f);
    SmallWords();
    TwoWords(h, h[16..20], h[20..24], h[24..32]);
  }

  lemma SmallWords()
    ensures ToBE(0, 4) == [0, 0, 0, 0] && ToBE(9, 4) == [0, 0, 0, 9]
    ensures ToBE(0x1_0400, 8) == [0, 0, 0, 0, 0, 1, 4, 0]
  {
  }

  lemma TwoWords(h: seq<byte>, a: seq<byte>, b: seq<byte>, c: seq<byte>)
    requires 32 <= |h| && h[16..20] == a && h[20..24] == b && h[24..32] == c
    requires a == [0, 0, 0, 0] && b == [0, 0, 0, 9] && c == [0, 0, 0, 0, 0, 1, 4, 0]
    ensures BeU64(h, 16) == 9 && BeU64(h, 17) == 2304
  {
    forall j | 16 <= j < 25 ensures h[j] == if j == 23 then 9 else 0 {
      if j < 20 {
        assert h[j] == a[j - 16];
      } else if j < 24 {
        assert h[j] == b[j - 20];
      } else {
        assert h[j] == c[0];
      }
    }
    NineAt(h, 16, 7);
    NineAt(h, 17, 6);
  }

  /** The word at `off` has a single nonzero byte, a 9 at its byte `k`, which is one of the last two. */
  lemma NineAt(h: seq<byte>, off: nat, k: nat)
    requires off + 8 <= |h| && 6 <= k <= 7 && h[off + k] == 9
    requires forall j :: off <= j < off + 8 && j != off + k ==> h[j] == 0
    ensures BeU64(h, off) == if k == 7 then 9 else 2304
  {
    var w := h[off..off + 8];
    forall i | 0 <= i < 6 ensures w[..6][i] == 0 {
      var j := off + i;
      assert w[..6][i] == w[i] == h[j];
    }
    assert w[6] == h[off + 6] && w[7] == h[off + 7];
    assert w == w[..6] + [w[6], w[7]];
    LeadingZeros(w[..6], [w[6], w[7]]);
    TwoBytes(w[6], w[7]);
  }

  lemma TwoBytes(x: byte, y: byte)
    ensures BE([x, y]) == x * 256 + y
  {
    assert [x, y][..1] == [x] && [x][..0] == [];
    assert BE([x]) == x;
  }

  lemma {:induction false} LeadingZeros(z: seq<byte>, s: seq<byte>)
    requires forall i :: 0 <= i < |z| ==> z[i] == 0
    ensures BE(z + s) == BE(s)
    decreases |s|
  {
    if s == [] {
      assert z + s == z;
      ValueOfZeros(z);
    } else {
      LeadingZeros(z, s[..|s| - 1]);
      assert (z + s)[..|z + s| - 1] == z + s[..|s| - 1];
    }
  }

  // Sub-byte refcounts.

  /** 2048 bytes, width 1: a refcount block at 512 that starts with 0x80, the refcount table at 1024, and
      an L2 table at 1536 whose one entry maps byte 3584, cluster 7 */
  function BitOrderFile(): seq<byte> {
    OneTable(BitOrderFields(), 1536, Areas(512, 3584))
  }

  function BitOrderFields(): Fields {
    Fields(0x5146_49fb, 3, 0, 0, 9, 512, 0, 1, 104, 1024, 1, 0, 0, 0, 0, 0, 0, 104)
  }

  function Areas(block: u64, host: u64): (s: seq<byte>)
    ensures |s| == 1936
  {
    (Zeros(400) + ([0x80] + Zeros(511))) + (ToBE(block, 8) + Zeros(504)) + (ToBE(host, 8) + Zeros(504))
  }

  /** The report counts one cluster and one orphan; by the standard's bit order it is in use. */
  lemma FalseOrphanReported()
    ensures ReportOf(BitOrderFile()).Ok?
    ensures
      var bytes, r := BitOrderFile(), ReportOf(BitOrderFile()).value;
      && r.refcountOrder == 0 && r.allocatedClusters == 1 && r.orphanClusters == 1
      && !O.StandardOrphan(bytes, RefcountTable(bytes, Window(bytes, 0, 104), 9), 3584, 1, 512)
  {
    FalseOrphanIn(BitOrderFields(), 1536, 512, 3584);
  }

  lemma FalseOrphanIn(f: Fields, l2: u64, block: u64, host: u64)
    requires HasOneTable(f) && f.version == 3 && f.clusterBits == 9 && f.refcountOrder == 0
    requires f.rtOffset == 1024 && f.rtClusters == 1 && l2 == 1536 && block == 512 && host == 3584
    ensures
      var bytes := OneTable(f, l2, Areas(block, host));
      && ReportOf(bytes).Ok?
      && var r := ReportOf(bytes).value;
         && r.refcountOrder == 0 && r.allocatedClusters == 1 && r.orphanClusters == 1
         && !O.StandardOrphan(bytes, RefcountTable(bytes, Window(bytes, 0, 104), 9), host, 1, 512)
  {
    var bytes, tail := OneTable(f, l2, Areas(block, host)), ToBE(l2, 8) + Areas(block, host);
    BitOrderReported(f, l2, block, host);
    GeometryOf(f, tail);
    AreasIn(Head(f), l2, block, host, bytes);
    BitOrderTable(bytes, block, RefcountTable(bytes, Window(bytes, 0, 104), 9));
    OneOrphan(bytes, RefcountTable(bytes, Window(bytes, 0, 104), 9), host);
  }

  lemma BitOrderTable(bytes: seq<byte>, block: u64, rt: seq<u64>)
    requires |bytes| == 2048 && BeU64(bytes, 1024) == block && rt == TableAt(bytes, 1024, TableEntries(1, 9))
    ensures rt != [] && rt[0] == block
  {
    Pow2Small();
    WholeTable(bytes, 1024, 64);
    assert rt[0] == BeU64(bytes, 1024 + 0 * 8);
  }

  lemma BitOrderReported(f: Fields, l2: u64, block: u64, host: u64)
    requires HasOneTable(f) && f.version == 3 && f.clusterBits == 9 && f.refcountOrder <= 6
    requires f.rtOffset == 1024 && f.rtClusters == 1 && l2 == 1536 && IsHost(host)
    ensures
      var bytes := OneTable(f, l2, Areas(block, host));
      ReportCounts(bytes, 9, [host]) && ReportOf(bytes).value.refcountOrder == f.refcountOrder
  {
    var bytes, tail := OneTable(f, l2, Areas(block, host)), ToBE(l2, 8) + Areas(block, host);
    Pow2Small();
    IsReported(f, tail);
    GeometryOf(f, tail);
    AreasIn(Head(f), l2, block, host, bytes);
    HeadBegins(f, tail);
    FirstWord(Head(f), l2, Areas(block, host), bytes);
    WalkedL1(bytes, f, 104, [l2]);
    OneHost(bytes, l2, host);
    ReportOfHosts(bytes, [l2], 9, 64, [host]);
  }

  lemma OneOrphan(bytes: seq<byte>, rt: seq<u64>, host: u64)
    requires 512 < |bytes| && bytes[512] == 0x80 && rt != [] && rt[0] == 512 && host == 3584
    ensures IsClusterSize(512) && IsWidth(1) && !O.StandardOrphan(bytes, rt, host, 1, 512)
    ensures CountsOf(bytes, rt, [host], 0, 9) == (1, 1)
  {
    Pow2Small();
    O.FalseOrphan(bytes, rt);
    CountsOfOne(bytes, rt, host, 0, 9, 1, 512);
  }

  lemma CountsOfOne(bytes: seq<byte>, rt: seq<u64>, host: u64, order: nat, clusterBits: nat, width: nat,
                    clusterSize: nat)
    requires order <= 6 && 9 <= clusterBits <= 20 && width == Pow2(order) && clusterSize == Pow2(clusterBits)
    requires IsWidth(width) && IsClusterSize(clusterSize) && IsOrphan(bytes, rt, host, width, clusterSize)
    ensures CountsOf(bytes, rt, [host], order, clusterBits) == (1, 1)
  {
    OneInAll(bytes, rt, host, width, clusterSize);
    WholeSeq([host]);
    assert Min(|[host]|, MAX_CLUSTERS_SCANNED) == |[host]| == 1;
  }

  lemma OneInAll(bytes: seq<byte>, rt: seq<u64>, host: u64, width: nat, clusterSize: nat)
    requires IsWidth(width) && IsClusterSize(clusterSize) && IsOrphan(bytes, rt, host, width, clusterSize)
    ensures Orphans(bytes, rt, [host], width, clusterSize) == 1
  {
    OrphansStep(bytes, rt, [], host, width, clusterSize);
    assert [] + [host] == [host];
    assert Orphans(bytes, rt, [], width, clusterSize) == 0;
  }

  lemma AreasIn(head: seq<byte>, l2: u64, block: u64, host: u64, bytes: seq<byte>)
    requires |head| == 104 && bytes == head + (ToBE(l2, 8) + Areas(block, host))
    ensures |bytes| == 2048 && bytes[512] == 0x80 && BeU64(bytes, 1024) == block && BeU64(bytes, 1536) == host
    ensures forall i :: 1032 <= i < 1536 ==> bytes[i] == 0
    ensures forall i :: 1544 <= i < 2048 ==> bytes[i] == 0
  {
    var mark, b, h := Zeros(400) + ([0x80] + Zeros(511)), ToBE(block, 8), ToBE(host, 8);
    var w := ToBE(l2, 8);
    AreasSplit(head, w, mark, b, Zeros(504), h, Zeros(504), bytes);
    WordIn(head + w + mark, block, Zeros(504) + (h + Zeros(504)), bytes, 1024);
    WordIn(head + w + mark + b + Zeros(504), host, Zeros(504), bytes, 1536);
    AreasGaps(head + w, mark, b, h, bytes);
  }

  lemma AreasSplit(head: seq<byte>, w: seq<byte>, mark: seq<byte>, b: seq<byte>, y: seq<byte>, h: seq<byte>,
                   z: seq<byte>, bytes: seq<byte>)
    requires bytes == head + (w + (mark + (b + y) + (h + z)))
    ensures bytes == head + w + mark + b + (y + (h + z))
    ensures bytes == head + w + mark + b + y + h + z
  {
  }

  lemma AreasGaps(pre: seq<byte>, mark: seq<byte>, b: seq<byte>, h: seq<byte>, bytes: seq<byte>)
    requires |pre| == 112 && mark == Zeros(400) + ([0x80] + Zeros(511)) && |b| == |h| == 8
    requires bytes == pre + mark + b + Zeros(504) + h + Zeros(504)
    ensures |bytes| == 2048 && bytes[512] == 0x80
    ensures forall i :: 1032 <= i < 1536 ==> bytes[i] == 0
    ensures forall i :: 1544 <= i < 2048 ==> bytes[i] == 0
  {
    assert mark[400] == 0x80;
  }

  /** A table with one nonzero entry, the first, contributes that entry's cluster. */
  lemma OneHost(bytes: seq<byte>, l2: u64, host: u64)
    requires |bytes| == 2048 && l2 == 1536 && IsHost(host) && BeU64(bytes, l2) == host
    requires forall i :: 1544 <= i < 2048 ==> bytes[i] == 0
    ensures ScanFinds(bytes, [l2], 64, [host])
  {
    var t := TableAt(bytes, l2, 64);
    OneEntry(bytes, l2, host, t);
    SeenByScan(host);
    OnlyFirst(t, host);
    HostsThrough(bytes, l2, 64, t);
  }

  lemma HostsThrough(bytes: seq<byte>, l2: u64, n: nat, t: seq<u64>)
    requires HostOffset(l2) == l2 && l2 != 0 && t == TableAt(bytes, l2, n)
    ensures Hosts(bytes, [l2], n) == HostsOfTable(t)
  {
    HostsOfOne(bytes, l2, n);
  }

  lemma HostsOfOne(bytes: seq<byte>, l2: u64, n: nat)
    ensures Hosts(bytes, [l2], n) == HostsOfEntry(bytes, l2, n)
  {
    HostsStep(bytes, [l2], n, 0);
    assert [l2][..0] == [] && [l2][..1] == [l2];
    NoHosts(bytes, n);
    assert [] + HostsOfEntry(bytes, l2, n) == HostsOfEntry(bytes, l2, n);
  }

  lemma NoHosts(bytes: seq<byte>, n: nat)
    ensures Hosts(bytes, [], n) == []
  {
  }

  lemma OneEntry(bytes: seq<byte>, l2: u64, host: u64, t: seq<u64>)
    requires |bytes| == 2048 && l2 == 1536 && BeU64(bytes, l2) == host && t == TableAt(bytes, l2, 64)
    requires forall i :: 1544 <= i < 2048 ==> bytes[i] == 0
    ensures |t| == 64 && t[0] == host && forall j :: 1 <= j < 64 ==> t[j] == 0
  {
    WholeTable(bytes, l2, 64);
    forall j | 1 <= j < 64 ensures t[j] == 0 {
      ZeroWord(bytes, l2 + j * 8);
    }
    assert t[0] == BeU64(bytes, l2 + 0 * 8);
  }

  predicate IsHost(host: u64) {
    0 < host < 0x0100_0000_0000_0000 && host % 512 == 0
  }

  lemma SeenByScan(host: u64)
    requires IsHost(host)
    ensures ScanView(host) == Some(host)
  {
    NormalEntry(host, 9);
    ReservedBelow(host);
    EntriesAgree(host, 9);
  }

  lemma ReservedBelow(e: u64)
    requires e < 0x0100_0000_0000_0000 && e % 512 == 0
    ensures ReservedClear(e, 62)
  {
    Pow2Values();
    DivModUnique(e, Pow2(56), 0, e);
    DivModUnique(0, Pow2(6), 0, 0);
  }

  lemma {:induction false} OnlyFirst(t: seq<u64>, host: u64)
    requires t != [] && t[0] == host && ScanView(host) == Some(host) && forall j :: 1 <= j < |t| ==> t[j] == 0
    ensures HostsOfTable(t) == [host]
    decreases |t|
  {
    var front := t[..|t| - 1];
    if |t| == 1 {
      assert front == [];
    } else {
      OnlyFirst(front, host);
      assert t[|t| - 1] == 0 && !Scanned(0);
    }
  }

  // The length of the refcount table.

  /** The same file with 64-bit refcounts and the data cluster at 32768, cluster 64: its refcount is
      looked up in entry 1 of the refcount table, which names no block. */
  function SecondEntryFile(): seq<byte> {
    OneTable(SecondEntryFields(), 1536, Areas(512, 32768))
  }

  function SecondEntryFields(): Fields {
    Fields(0x5146_49fb, 3, 0, 0, 9, 512, 0, 1, 104, 1024, 1, 0, 0, 0, 0, 0, 6, 104)
  }

  lemma SecondEntryReported()
    ensures ReportOf(SecondEntryFile()) == Ok(Report(6, 1024, 1, 1, 1))
  {
    SecondEntryIn(SecondEntryFields(), 1536, 512, 32768);
  }

  lemma SecondEntryIn(f: Fields, l2: u64, block: u64, host: u64)
    requires HasOneTable(f) && f.version == 3 && f.clusterBits == 9 && f.refcountOrder == 6
    requires f.rtOffset == 1024 && f.rtClusters == 1 && l2 == 1536 && block == 512 && host == 32768
    ensures ReportOf(OneTable(f, l2, Areas(block, host))) == Ok(Report(6, 1024, 1, 1, 1))
  {
    var bytes, tail := OneTable(f, l2, Areas(block, host)), ToBE(l2, 8) + Areas(block, host);
    var rt := RefcountTable(bytes, Window(bytes, 0, 104), 9);
    Pow2Small();
    BitOrderReported(f, l2, block, host);
    IsReported(f, tail);
    GeometryOf(f, tail);
    AreasIn(Head(f), l2, block, host, bytes);
    SecondEntryFree(bytes, rt, host);
    CountsOfOne(bytes, rt, host, 6, 9, 64, 512);
  }

  lemma SecondEntryFree(bytes: seq<byte>, rt: seq<u64>, host: u64)
    requires |bytes| == 2048 && rt == TableAt(bytes, 1024, TableEntries(1, 9)) && host == 32768
    requires forall i :: 1032 <= i < 1536 ==> bytes[i] == 0
    ensures IsWidth(64) && IsClusterSize(512) && IsOrphan(bytes, rt, host, 64, 512)
  {
    Pow2Small();
    SecondEntryZero(bytes, rt, 64);
    FreeEntry(bytes, rt, host, 64, 512);
  }

  lemma SecondEntryZero(bytes: seq<byte>, rt: seq<u64>, n: nat)
    requires |bytes| == 2048 && n == 64 && rt == TableAt(bytes, 1024, n)
    requires forall i :: 1032 <= i < 1536 ==> bytes[i] == 0
    ensures |rt| == n && rt[1] == 0
  {
    WholeTable(bytes, 1024, n);
    ZeroWord(bytes, 1032);
    assert rt[1] == BeU64(bytes, 1024 + 1 * 8);
  }

  /** Without a block, a cluster counts as an orphan. */
  lemma FreeEntry(bytes: seq<byte>, rt: seq<u64>, host: u64, width: nat, clusterSize: nat)
    requires IsWidth(width) && IsClusterSize(clusterSize)
    requires
      var i := Div(Div(host, clusterSize), PerBlock(width, clusterSize));
      i < |rt| && rt[i] == 0
    ensures IsOrphan(bytes, rt, host, width, clusterSize)
  {
    LookupCases(bytes, rt, Div(host, clusterSize), width, clusterSize);
  }

  // Undecodable images.

  /** A version-3 header with incompatible feature bit 3, and nothing else */
  function FeatureFields(): Fields {
    Fields(0x5146_49fb, 3, 0, 0, 9, 512, 0, 0, 104, 0, 0, 0, 0, 8, 0, 0, 4, 104)
  }

  /** It is refused, and the bit is named. */
  lemma FeatureRefused(inflate: Inflate)
    ensures R.OpenImage(Head(FeatureFields()), I64_LIMIT, inflate, 0) == Err(UnsupportedIncompatibleFeatures(8))
  {
    FeatureRefusedIn(FeatureFields(), inflate);
  }

  lemma FeatureRefusedIn(f: Fields, inflate: Inflate)
    requires f.(features := 0).version == 3 && Plain(f.(features := 0)) && f.features == 8
    ensures R.OpenImage(Head(f), I64_LIMIT, inflate, 0) == Err(UnsupportedIncompatibleFeatures(8))
  {
    HeadBegins(f, []);
    FeatureReason(f);
    OpeningOfWritten(Head(f), f, 104, I64_LIMIT, inflate);
  }

  lemma FeatureReason(f: Fields)
    requires f.version == 3 && Plain(f.(features := 0)) && f.features == 8
    ensures Refusal(f, 104) == Some(UnsupportedIncompatibleFeatures(8))
  {
    EightHasBit3();
  }

  lemma EightHasBit3()
    ensures Field(8, 2, 5) == 2
  {
    Pow2Small();
  }
}
