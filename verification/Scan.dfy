/** The orphan scan: every data cluster the active tables reach, and how many have refcount 0. */
module Scan {
  import opened Bits
  import opened Bytes
  import opened Io
  import opened Header
  import opened Packing
  import opened Refcount
  import M = Mapping

  const MAX_CLUSTERS_SCANNED: nat := 0x100_0000

  datatype Report = Report(
    refcountOrder: u32,
    refcountTableOffset: u64,
    refcountTableClusters: u32,
    allocatedClusters: nat,
    orphanClusters: nat)

  // Specification.

  /** The host offset the scan takes from a table entry: bits 9 to 55, in place */
  function HostOffset(e: u64): (off: u64) {
    e % 0x0100_0000_0000_0000 - e % 512
  }

  /** An entry that is scanned: not compressed, not a zero cluster, and pointing somewhere */
  predicate Scanned(e: u64) {
    Field(e, 62, 63) == 0 && e % 2 == 0 && HostOffset(e) != 0
  }

  function HostsOfTable(l2: seq<u64>): seq<u64> {
    if l2 == [] then []
    else
      var last := l2[|l2| - 1];
      HostsOfTable(l2[..|l2| - 1]) + if Scanned(last) then [HostOffset(last)] else []
  }

  /** A table of `n` entries; empty when it is absent or not wholly inside the file */
  function TableAt(bytes: seq<byte>, offset: u64, n: nat): seq<u64> {
    if n == 0 || offset == 0 || offset + n * 8 > |bytes| then []
    else Table(bytes[offset..offset + n * 8])
  }

  function HostsOfEntry(bytes: seq<byte>, e: u64, l2Entries: nat): seq<u64> {
    if HostOffset(e) == 0 then [] else HostsOfTable(TableAt(bytes, HostOffset(e), l2Entries))
  }

  /** The host offsets of all scanned clusters, in walk order */
  function Hosts(bytes: seq<byte>, l1: seq<u64>, l2Entries: nat): seq<u64> {
    if l1 == [] then []
    else Hosts(bytes, l1[..|l1| - 1], l2Entries) + HostsOfEntry(bytes, l1[|l1| - 1], l2Entries)
  }

  /** A refcount that is known and zero; an unresolvable one is no orphan. */
  predicate IsOrphan(bytes: seq<byte>, rt: seq<u64>, host: u64, width: nat, clusterSize: nat)
    requires IsWidth(width) && IsClusterSize(clusterSize)
  {
    Lookup(bytes, rt, Div(host, clusterSize), width, clusterSize) == Some(0)
  }

  function OrphanTest(bytes: seq<byte>, rt: seq<u64>, width: nat, clusterSize: nat): u64 -> bool
    requires IsWidth(width) && IsClusterSize(clusterSize)
  {
    (host: u64) => IsOrphan(bytes, rt, host, width, clusterSize)
  }

  function CountIf(test: u64 -> bool, s: seq<u64>): (n: nat)
    ensures n <= |s|
  {
    if s == [] then 0
    else CountIf(test, s[..|s| - 1]) + if test(s[|s| - 1]) then 1 else 0
  }

  function Orphans(bytes: seq<byte>, rt: seq<u64>, hosts: seq<u64>, width: nat, clusterSize: nat): (n: nat)
    requires IsWidth(width) && IsClusterSize(clusterSize)
    ensures n <= |hosts|
  {
    CountIf(OrphanTest(bytes, rt, width, clusterSize), hosts)
  }

  lemma {:induction false} TablePrefix(l2: seq<u64>, k: nat)
    requires k <= |l2|
    ensures HostsOfTable(l2[..k]) <= HostsOfTable(l2)
    decreases |l2|
  {
    if k < |l2| {
      TablePrefix(l2[..|l2| - 1], k);
      assert l2[..|l2| - 1][..k] == l2[..k];
    } else {
      assert l2[..k] == l2;
    }
  }

  lemma {:induction false} HostsPrefix(bytes: seq<byte>, l1: seq<u64>, l2Entries: nat, k: nat)
    requires k <= |l1|
    ensures Hosts(bytes, l1[..k], l2Entries) <= Hosts(bytes, l1, l2Entries)
    decreases |l1|
  {
    if k < |l1| {
      HostsPrefix(bytes, l1[..|l1| - 1], l2Entries, k);
      assert l1[..|l1| - 1][..k] == l1[..k];
    } else {
      assert l1[..k] == l1;
    }
  }

  // The scan as the program runs it.

  method ReadU64TableChecked(file: RegularFile, offset: u64, n: nat) returns (r: Option<seq<u64>>)
    requires file.Valid()
    modifies file
    ensures r.None? <==> n != 0 && offset != 0 && offset + n * 8 > |file.bytes|
    ensures r.Some? ==> r.value == TableAt(file.bytes, offset, n)
  {
    if n == 0 || offset == 0 {
      return Some([]);
    }
    var ok := file.Seek(offset);
    if !ok {
      return None;
    }
    var buf := file.ReadExact(n * 8);
    if buf.None? {
      return None;
    }
    return Some(Table(buf.value));
  }

  method ReadU64Table(file: RegularFile, offset: u64, n: nat) returns (t: seq<u64>)
    requires file.Valid()
    modifies file
    ensures t == TableAt(file.bytes, offset, n)
  {
    var r := ReadU64TableChecked(file, offset, n);
    t := if r.Some? then r.value else [];
  }

  /** `e & 0x00ff_ffff_ffff_fe00` */
  method MaskHostOffset(e: u64) returns (off: u64)
    ensures off == HostOffset(e)
  {
    Pow2Values();
    Pow2Small();
    AndField(e, 9, 56);
    off := And(e, 0x00ff_ffff_ffff_fe00);
  }

  method Skipped(l2Entry: u64) returns (skip: bool)
    ensures skip <==> Field(l2Entry, 62, 63) == 1 || l2Entry % 2 == 1
  {
    Pow2Values();
    AndBit(l2Entry, 62);
    AndLow(l2Entry, 1);
    assert Pow2(1) == 2;
    assert Shl(1, 62) == Pow2(62);
    skip := And(l2Entry, Shl(1, 62)) != 0 || And(l2Entry, 1) != 0;
  }

  lemma WholeSeq(s: seq<u64>)
    ensures s[..|s|] == s
  {
  }

  lemma PrefixTake(part: seq<u64>, whole: seq<u64>, n: nat)
    requires part <= whole && n <= |part|
    ensures whole[..n] == part[..n]
  {
  }

  lemma TableStep(seen: seq<u64>, l2: seq<u64>, j: nat)
    requires j < |l2|
    ensures
      var now, next := seen + HostsOfTable(l2[..j]), seen + HostsOfTable(l2[..j + 1]);
      next == if Scanned(l2[j]) then now + [HostOffset(l2[j])] else now
    ensures seen + HostsOfTable(l2[..j + 1]) <= seen + HostsOfTable(l2)
  {
    TableStepAlone(l2, j);
    TablePrefix(l2, j + 1);
    ExtendPrefix(seen, HostsOfTable(l2[..j + 1]), HostsOfTable(l2));
    if Scanned(l2[j]) {
      Append(seen, HostsOfTable(l2[..j]), HostOffset(l2[j]));
    }
  }

  lemma TableStepAlone(l2: seq<u64>, j: nat)
    requires j < |l2|
    ensures Scanned(l2[j]) ==> HostsOfTable(l2[..j + 1]) == HostsOfTable(l2[..j]) + [HostOffset(l2[j])]
    ensures !Scanned(l2[j]) ==> HostsOfTable(l2[..j + 1]) == HostsOfTable(l2[..j])
  {
    var front := l2[..j + 1];
    assert |front| - 1 == j && front[..j] == l2[..j] && front[j] == l2[j];
  }

  lemma ExtendPrefix(seen: seq<u64>, a: seq<u64>, b: seq<u64>)
    requires a <= b
    ensures seen + a <= seen + b
  {
  }

  lemma Append(seen: seq<u64>, a: seq<u64>, x: u64)
    ensures seen + (a + [x]) == seen + a + [x]
  {
  }

  lemma HostsStep(bytes: seq<byte>, l1: seq<u64>, l2Entries: nat, i: nat)
    requires i < |l1|
    ensures Hosts(bytes, l1[..i + 1], l2Entries) ==
            Hosts(bytes, l1[..i], l2Entries) + HostsOfEntry(bytes, l1[i], l2Entries)
    ensures HostOffset(l1[i]) == 0 ==> Hosts(bytes, l1[..i + 1], l2Entries) == Hosts(bytes, l1[..i], l2Entries)
  {
    assert l1[..i + 1][..i] == l1[..i];
  }

  lemma OrphansStep(bytes: seq<byte>, rt: seq<u64>, seen: seq<u64>, host: u64, width: nat, clusterSize: nat)
    requires IsWidth(width) && IsClusterSize(clusterSize)
    ensures Orphans(bytes, rt, seen + [host], width, clusterSize) ==
            Orphans(bytes, rt, seen, width, clusterSize)
            + if IsOrphan(bytes, rt, host, width, clusterSize) then 1 else 0
  {
    assert (seen + [host])[..|seen|] == seen;
  }

  method CheckOrphan(file: RegularFile, rt: seq<u64>, hostOffset: u64, width: u32, clusterSize: u64)
    returns (orphan: bool)
    requires file.Valid() && IsWidth(width) && IsClusterSize(clusterSize)
    modifies file
    ensures orphan == IsOrphan(file.bytes, rt, hostOffset, width, clusterSize)
  {
    var refcount := RefcountOf(file, rt, Div(hostOffset, clusterSize), width, clusterSize);
    orphan := refcount == Some(0);
  }

  /** The two counters after walking `hosts` with a cap: clusters reached, one past the cap at most, and
      orphans among those within it */
  predicate Counted(bytes: seq<byte>, rt: seq<u64>, hosts: seq<u64>, width: nat, clusterSize: nat, cap: nat,
                    reached: nat, orphans: nat)
    requires IsWidth(width) && IsClusterSize(clusterSize)
  {
    && reached == Min(|hosts|, cap + 1)
    && orphans == Orphans(bytes, rt, hosts[..Min(|hosts|, cap)], width, clusterSize)
  }

  lemma CountedWithin(bytes: seq<byte>, rt: seq<u64>, hosts: seq<u64>, width: nat, clusterSize: nat, cap: nat,
                      reached: nat, orphans: nat)
    requires IsWidth(width) && IsClusterSize(clusterSize) && |hosts| <= cap
    ensures Counted(bytes, rt, hosts, width, clusterSize, cap, reached, orphans) <==>
            reached == |hosts| && orphans == Orphans(bytes, rt, hosts, width, clusterSize)
  {
    WholeSeq(hosts);
  }

  /** Once past the cap, the counters are those of any longer walk. */
  lemma CountedBeyond(bytes: seq<byte>, rt: seq<u64>, part: seq<u64>, whole: seq<u64>, width: nat, clusterSize: nat,
                      cap: nat, reached: nat, orphans: nat)
    requires IsWidth(width) && IsClusterSize(clusterSize) && part <= whole && cap < |part|
    requires Counted(bytes, rt, part, width, clusterSize, cap, reached, orphans)
    ensures Counted(bytes, rt, whole, width, clusterSize, cap, reached, orphans)
  {
    PrefixTake(part, whole, cap);
  }

  /** One cluster more than the cap: it is reached and not looked at. */
  lemma CountedPast(bytes: seq<byte>, rt: seq<u64>, hosts: seq<u64>, host: u64, width: nat, clusterSize: nat)
    requires IsWidth(width) && IsClusterSize(clusterSize)
    ensures Counted(bytes, rt, hosts + [host], width, clusterSize, |hosts|, |hosts| + 1,
                    Orphans(bytes, rt, hosts, width, clusterSize))
  {
    assert (hosts + [host])[..|hosts|] == hosts;
  }

  /** The inner loop: the entries of one L2 table, after `seen` clusters of earlier tables.  `stop` is
      set at the first cluster past the cap. */
  method WalkTable(file: RegularFile, rt: seq<u64>, l2: seq<u64>, width: u32, clusterSize: u64, cap: nat,
                   ghost seen: seq<u64>, reached0: nat, orphans0: nat)
    returns (reached: nat, orphans: nat, stop: bool)
    requires file.Valid() && IsWidth(width) && IsClusterSize(clusterSize)
    requires |seen| <= cap && Counted(file.bytes, rt, seen, width, clusterSize, cap, reached0, orphans0)
    modifies file
    ensures stop <==> |seen + HostsOfTable(l2)| > cap
    ensures Counted(file.bytes, rt, seen + HostsOfTable(l2), width, clusterSize, cap, reached, orphans)
  {
    CountedWithin(file.bytes, rt, seen, width, clusterSize, cap, reached0, orphans0);
    reached, orphans, stop := reached0, orphans0, false;
    ghost var done := seen;
    for j := 0 to |l2|
      invariant done == seen + HostsOfTable(l2[..j])
      invariant reached == |done| <= cap
      invariant orphans == Orphans(file.bytes, rt, done, width, clusterSize)
    {
      TableStep(seen, l2, j);
      var skip := Skipped(l2[j]);
      if skip {
        continue;
      }
      var hostOffset := MaskHostOffset(l2[j]);
      if hostOffset == 0 {
        continue;
      }
      reached := reached + 1;
      if reached > cap {
        CountedPast(file.bytes, rt, done, hostOffset, width, clusterSize);
        CountedBeyond(file.bytes, rt, done + [hostOffset], seen + HostsOfTable(l2), width, clusterSize, cap, reached,
                      orphans);
        return reached, orphans, true;
      }
      OrphansStep(file.bytes, rt, done, hostOffset, width, clusterSize);
      done := done + [hostOffset];
      var orphan := CheckOrphan(file, rt, hostOffset, width, clusterSize);
      if orphan {
        orphans := orphans + 1;
      }
    }
    WholeSeq(l2);
    CountedWithin(file.bytes, rt, done, width, clusterSize, cap, reached, orphans);
  }

  /** The walk over the L1 table, ended early once a table says stop. */
  method Walk(file: RegularFile, rt: seq<u64>, l1: seq<u64>, l2Entries: nat, width: u32, clusterSize: u64, cap: nat)
    returns (reached: nat, orphans: nat)
    requires file.Valid() && IsWidth(width) && IsClusterSize(clusterSize)
    modifies file
    ensures Counted(file.bytes, rt, Hosts(file.bytes, l1, l2Entries), width, clusterSize, cap, reached, orphans)
  {
    reached, orphans := 0, 0;
    ghost var seen: seq<u64> := [];
    CountedWithin(file.bytes, rt, seen, width, clusterSize, cap, reached, orphans);
    for i := 0 to |l1|
      invariant seen == Hosts(file.bytes, l1[..i], l2Entries) && |seen| <= cap
      invariant Counted(file.bytes, rt, seen, width, clusterSize, cap, reached, orphans)
    {
      HostsStep(file.bytes, l1, l2Entries, i);
      var l2Offset := MaskHostOffset(l1[i]);
      if l2Offset == 0 {
        continue;
      }
      var l2 := ReadU64Table(file, l2Offset, l2Entries);
      var stop: bool;
      reached, orphans, stop := WalkTable(file, rt, l2, width, clusterSize, cap, seen, reached, orphans);
      seen := seen + HostsOfTable(l2);
      if stop {
        HostsPrefix(file.bytes, l1, l2Entries, i + 1);
        CountedBeyond(file.bytes, rt, seen, Hosts(file.bytes, l1, l2Entries), width, clusterSize, cap, reached,
                      orphans);
        return;
      }
    }
    WholeSeq(l1);
  }

  /** The whole report, as a function of the file's bytes. */
  function ReportOf(bytes: seq<byte>): Result<Report, Qcow2Error> {
    var hdr := Window(bytes, 0, 104);
    var version, clusterBits := BeU32(hdr, 4), BeU32(hdr, 20);
    if |hdr| < MIN_HEADER_SIZE then Err(FileTooSmall)
    else if BeU32(hdr, 0) != MAGIC then Err(BadMagic)
    else if !(2 <= version <= 3) then Err(UnsupportedVersion(version))
    else if !(9 <= clusterBits <= 20) then Err(ClusterBitsOutOfRange(clusterBits))
    else
      var order := RefcountOrder(hdr, version);
      var rtOffset, rtClusters := BeU64(hdr, 48), BeU32(hdr, 56);
      if order > 6 then Ok(Report(order, rtOffset, rtClusters, 0, 0))
      else
        var rtEntries := TableEntries(rtClusters, clusterBits);
        if rtEntries != 0 && rtOffset != 0 && rtOffset + rtEntries * 8 > |bytes| then Err(Io)
        else
          var counts := Counts(bytes, RefcountTable(bytes, hdr, clusterBits), ActiveL1(bytes, hdr), order, clusterBits);
          Ok(Report(order, rtOffset, rtClusters, counts.0, counts.1))
  }

  /** The width exponent: a version-3 field, 4 by default */
  function RefcountOrder(hdr: seq<byte>, version: u32): u32 {
    if version == 3 && |hdr| >= 100 then BeU32(hdr, 96) else 4
  }

  function TableEntries(clusters: u32, clusterBits: nat): (n: nat)
    requires 9 <= clusterBits <= 20
  {
    Min(clusters * Pow2(clusterBits - 3), M.MAX_L1_ENTRIES)
  }

  function RefcountTable(bytes: seq<byte>, hdr: seq<byte>, clusterBits: nat): seq<u64>
    requires 9 <= clusterBits <= 20
  {
    TableAt(bytes, BeU64(hdr, 48), TableEntries(BeU32(hdr, 56), clusterBits))
  }

  function ActiveL1(bytes: seq<byte>, hdr: seq<byte>): seq<u64> {
    TableAt(bytes, BeU64(hdr, 40), Min(BeU32(hdr, 36), M.MAX_L1_ENTRIES))
  }

  /** How many of the clusters at `hosts` are reached, one past the cap at most, and how many of those
      within the cap are orphans */
  function CountsOf(bytes: seq<byte>, rt: seq<u64>, hosts: seq<u64>, order: nat, clusterBits: nat): (nat, nat)
    requires order <= 6 && 9 <= clusterBits <= 20
  {
    WidthOfOrder(order);
    ClusterSizeOfBits(clusterBits);
    (Min(|hosts|, MAX_CLUSTERS_SCANNED + 1),
     Orphans(bytes, rt, hosts[..Min(|hosts|, MAX_CLUSTERS_SCANNED)], Pow2(order), Pow2(clusterBits)))
  }

  function Counts(bytes: seq<byte>, rt: seq<u64>, l1: seq<u64>, order: nat, clusterBits: nat): (nat, nat)
    requires order <= 6 && 9 <= clusterBits <= 20
  {
    CountsOf(bytes, rt, Hosts(bytes, l1, Pow2(clusterBits - 3)), order, clusterBits)
  }

  method RefcountReport(file: RegularFile) returns (r: Result<Report, Qcow2Error>)
    requires file.Valid() && file.cursor == 0
    modifies file
    ensures r == ReportOf(file.bytes)
  {
    var hdr := file.Read(104);
    if |hdr| < MIN_HEADER_SIZE {
      return Err(FileTooSmall);
    }
    if BeU32(hdr, 0) != MAGIC {
      return Err(BadMagic);
    }
    var version := BeU32(hdr, 4);
    if !(2 <= version <= 3) {
      return Err(UnsupportedVersion(version));
    }
    var clusterBits := BeU32(hdr, 20);
    if !(9 <= clusterBits <= 20) {
      return Err(ClusterBitsOutOfRange(clusterBits));
    }
    var l1Size := BeU32(hdr, 36);
    var l1TableOffset := BeU64(hdr, 40);
    var refcountTableOffset := BeU64(hdr, 48);
    var refcountTableClusters := BeU32(hdr, 56);
    var refcountOrder := RefcountOrder(hdr, version);
    if refcountOrder > 6 {
      return Ok(Report(refcountOrder, refcountTableOffset, refcountTableClusters, 0, 0));
    }
    var rtEntries := RefcountTableEntries(refcountTableClusters, clusterBits);
    var refcountTable := ReadU64TableChecked(file, refcountTableOffset, rtEntries);
    if refcountTable.None? {
      return Err(Io);
    }
    var l1Table := ReadU64Table(file, l1TableOffset, Min(l1Size, M.MAX_L1_ENTRIES));
    var reached, orphans := Count(file, refcountTable.value, l1Table, refcountOrder, clusterBits);
    return Ok(Report(refcountOrder, refcountTableOffset, refcountTableClusters, reached, orphans));
  }

  /** The walk with the widths and caps the header calls for */
  method Count(file: RegularFile, rt: seq<u64>, l1: seq<u64>, order: u32, clusterBits: u32)
    returns (reached: nat, orphans: nat)
    requires file.Valid() && order <= 6 && 9 <= clusterBits <= 20
    modifies file
    ensures (reached, orphans) == Counts(file.bytes, rt, l1, order, clusterBits)
  {
    WidthOfOrder(order);
    ClusterSizeOfBits(clusterBits);
    ShlOne(order);
    ShlOne(clusterBits);
    Eighth(1, clusterBits);
    var clusterSize: u64 := Shl(1, clusterBits);
    reached, orphans := Walk(file, rt, l1, clusterSize / 8, Shl(1, order), clusterSize, MAX_CLUSTERS_SCANNED);
  }

  /** `refcount_table_clusters * cluster_size / 8`, capped; the product fits a word. */
  method RefcountTableEntries(clusters: u32, clusterBits: u32) returns (n: nat)
    requires 9 <= clusterBits <= 20
    ensures n == TableEntries(clusters, clusterBits)
  {
    ClusterSizeOfBits(clusterBits);
    ShlOne(clusterBits);
    Eighth(clusters, clusterBits);
    var clusterSize: u64 := Shl(1, clusterBits);
    var total: u64 := clusters * clusterSize;
    n := Min(total / 8, M.MAX_L1_ENTRIES);
  }

  lemma Eighth(n: u32, clusterBits: nat)
    requires 9 <= clusterBits <= 20
    ensures 0 <= n * Pow2(clusterBits) < U64_LIMIT
    ensures n * Pow2(clusterBits) / 8 == n * Pow2(clusterBits - 3)
  {
    Pow2Add(clusterBits - 3, 3);
    Pow2Small();
    Pow2Mono(clusterBits, 20);
    EighthOf(n, Pow2(clusterBits - 3));
  }

  lemma EighthOf(n: u32, e: nat)
    requires 8 * e <= 0x10_0000
    ensures 0 <= n * (8 * e) < U64_LIMIT && n * (8 * e) / 8 == n * e
  {
    MulMono(n, U32_LIMIT, 8 * e);
    assert n * (8 * e) == 8 * (n * e);
  }

  function Positions(test: u64 -> bool, s: seq<u64>): set<nat> {
    set i: nat | i < |s| && test(s[i])
  }

  /** The running count is the number of positions that pass the test. */
  lemma {:induction false} CountIsCardinality(test: u64 -> bool, s: seq<u64>)
    ensures CountIf(test, s) == |Positions(test, s)|
    decreases |s|
  {
    if s == [] {
      assert Positions(test, s) == {};
    } else {
      var n := |s| - 1;
      CountIsCardinality(test, s[..n]);
      var front := Positions(test, s[..n]);
      assert n !in front;
      assert Positions(test, s) == if test(s[n]) then front + {n} else front;
    }
  }

  /** Orphans are exactly the scanned positions whose refcount resolves to zero. */
  lemma OrphansIsCardinality(bytes: seq<byte>, rt: seq<u64>, hosts: seq<u64>, width: nat, clusterSize: nat)
    requires IsWidth(width) && IsClusterSize(clusterSize)
    ensures
      Orphans(bytes, rt, hosts, width, clusterSize) ==
        |Positions(OrphanTest(bytes, rt, width, clusterSize), hosts)|
  {
    CountIsCardinality(OrphanTest(bytes, rt, width, clusterSize), hosts);
  }

  /** The report never shows more orphans than clusters, whatever the file. */
  lemma OrphansWithinAllocated(bytes: seq<byte>)
    requires ReportOf(bytes).Ok?
    ensures ReportOf(bytes).value.orphanClusters <= ReportOf(bytes).value.allocatedClusters
    ensures ReportOf(bytes).value.allocatedClusters <= MAX_CLUSTERS_SCANNED + 1
  {
  }
}
