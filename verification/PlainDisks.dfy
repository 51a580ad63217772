/** Every disk can be written: a file for each guest byte string, with all of its clusters stored. */
module PlainDisks {
  import opened Bits
  import opened Bytes
  import opened Io
  import opened Layout
  import opened Mapping
  import opened WrittenDisks
  import R = Reader

  function Ceil(x: nat, d: nat): nat
    requires 0 < d
  {
    Div(x + d - 1, d)
  }

  lemma CeilCovers(x: nat, d: nat, k: nat)
    requires 0 < d
    ensures Compose(k, d, 0) < x <==> k < Ceil(x, d)
  {
    var q := Ceil(x, d);
    assert x + d - 1 == q * d + Mod(x + d - 1, d);
    if k < q {
      MulMono(k + 1, q, d);
    } else {
      MulMono(q, k, d);
    }
  }

  /** The sizes of a plain file for a disk of `size` bytes */
  datatype Shape = Shape(clusterBits: nat, size: nat) {
    function Cluster(): (c: nat)
      ensures 0 < c
    {
      Pow2(clusterBits)
    }

    function Entries(): (n: nat)
      requires 9 <= clusterBits
      ensures 0 < n
    {
      Pow2(clusterBits - 3)
    }

    function Clusters(): nat {
      Ceil(size, Cluster())
    }

    function Tables(): nat
      requires 9 <= clusterBits
    {
      Ceil(Clusters(), Entries())
    }

    /** Where the L2 tables start: a whole number of clusters, behind the header and the L1 table */
    function TablesStart(): nat
      requires 9 <= clusterBits
    {
      Compose(104 + Tables() * 8, Cluster(), 0)
    }

    /** Where the data starts */
    function DataStart(): nat
      requires 9 <= clusterBits
    {
      TablesStart() + Compose(Tables(), Cluster(), 0)
    }

    predicate Fits() {
      && 9 <= clusterBits <= 20 && Tables() <= 0x10_0000
      && DataStart() + Compose(Clusters(), Cluster(), 0) < 0x0100_0000_0000_0000
    }
  }

  lemma ClusterIsAligned(clusterBits: nat, k: nat)
    requires 9 <= clusterBits
    ensures Compose(k, Pow2(clusterBits), 0) % 512 == 0
  {
    Pow2Small();
    Pow2Add(clusterBits - 9, 9);
    assert clusterBits - 9 + 9 == clusterBits;
    MultipleOf512(k, Pow2(clusterBits - 9), Pow2(clusterBits));
  }

  lemma MultipleOf512(k: nat, m: nat, c: nat)
    requires c == m * 512
    ensures Compose(k, c, 0) % 512 == 0
  {
    assert k * (m * 512) == k * m * 512;
    DivModUnique(k * m * 512, 512, k * m, 0);
  }

  function PlainPlan(sh: Shape): Plan
    requires sh.Fits()
  {
    ShapeBounds(sh);
    Plan(
      Fields(0x5146_49fb, 2, 0, 0, sh.clusterBits, sh.size, 0, sh.Tables(), 104, 0, 0, 0, 0, 0, 0, 0, 4, 104),
      seq(sh.Tables(), i requires 0 <= i < sh.Tables() => TablePointer(sh, i)),
      seq(Compose(sh.Tables(), sh.Entries(), 0), k requires 0 <= k < Compose(sh.Tables(), sh.Entries(), 0) =>
        DataPiece(sh, k)))
  }

  lemma ShapeBounds(sh: Shape)
    requires sh.Fits()
    ensures sh.size < 0x0100_0000_0000_0000
  {
    CeilCovers(sh.size, sh.Cluster(), sh.Clusters());
  }

  function TablePointer(sh: Shape, i: nat): Pointer
    requires sh.Fits() && i < sh.Tables()
  {
    MulMono(i, sh.Tables(), sh.Cluster());
    Pointer(sh.TablesStart() + Compose(i, sh.Cluster(), 0), false)
  }

  function DataPiece(sh: Shape, k: nat): Piece
    requires sh.Fits()
  {
    if k < sh.Clusters() then
      MulMono(k, sh.Clusters(), sh.Cluster());
      Stored(sh.DataStart() + Compose(k, sh.Cluster(), 0), false)
    else Absent
  }

  lemma PlainPlanIsValid(sh: Shape)
    requires sh.Fits()
    ensures PlainPlan(sh).Valid() && PlainPlan(sh).Openable()
  {
    var plan := PlainPlan(sh);
    forall i | 0 <= i < |plan.pointers|
      ensures IsHostOffset(plan.pointers[i].offset) && plan.pointers[i].offset != 0
    {
      PointerIsHost(sh, i);
    }
    forall k | 0 <= k < |plan.pieces| ensures ValidPiece(plan.pieces[k], sh.clusterBits) {
      PieceIsValid(sh, k);
    }
  }

  lemma PointerIsHost(sh: Shape, i: nat)
    requires sh.Fits() && i < sh.Tables()
    ensures IsHostOffset(TablePointer(sh, i).offset) && TablePointer(sh, i).offset != 0
  {
    StartsAreHosts(sh);
    MulMono(i, sh.Tables(), sh.Cluster());
    ClusterIsAligned(sh.clusterBits, i);
    HostSum(sh.TablesStart(), Compose(i, sh.Cluster(), 0));
  }

  lemma HostSum(a: nat, b: nat)
    requires a != 0 && a % 512 == 0 && b % 512 == 0 && a + b < 0x0100_0000_0000_0000
    ensures IsHostOffset(a + b) && a + b != 0
  {
  }

  lemma StartsAreHosts(sh: Shape)
    requires sh.Fits()
    ensures sh.TablesStart() % 512 == 0 && sh.TablesStart() != 0
    ensures sh.DataStart() % 512 == 0 && sh.DataStart() != 0
  {
    ClusterIsAligned(sh.clusterBits, 104 + sh.Tables() * 8);
    ClusterIsAligned(sh.clusterBits, sh.Tables());
    GapIsNat(sh);
    AlignedSum(sh.TablesStart(), Compose(sh.Tables(), sh.Cluster(), 0));
  }

  lemma AlignedSum(a: nat, b: nat)
    requires a % 512 == 0 && b % 512 == 0
    ensures (a + b) % 512 == 0
  {
  }

  lemma PieceIsValid(sh: Shape, k: nat)
    requires sh.Fits()
    ensures ValidPiece(DataPiece(sh, k), sh.clusterBits)
  {
    StartsAreHosts(sh);
    if k < sh.Clusters() {
      MulMono(k, sh.Clusters(), sh.Cluster());
      ClusterIsAligned(sh.clusterBits, k);
      HostSum(sh.DataStart(), Compose(k, sh.Cluster(), 0));
    }
  }

  /** The entries of all tables, one table after the other */
  function AllEntries(sh: Shape): (ws: seq<u64>)
    requires sh.Fits()
    ensures |ws| == Compose(sh.Tables(), sh.Entries(), 0)
  {
    seq(Compose(sh.Tables(), sh.Entries(), 0), k requires 0 <= k < Compose(sh.Tables(), sh.Entries(), 0) =>
      EntryAt(sh, k))
  }

  function EntryAt(sh: Shape, k: nat): u64
    requires sh.Fits()
  {
    PieceIsValid(sh, k);
    EntryOf(DataPiece(sh, k), sh.clusterBits)
  }

  /** Behind the header: the L1 table, a gap, the L2 tables, and the disk */
  function PlainFile(sh: Shape, g: seq<byte>): seq<byte>
    requires sh.Fits()
  {
    PlainPlanIsValid(sh);
    GapIsNat(sh);
    var plan := PlainPlan(sh);
    Assemble(Head(plan.fields), EncodeWords(plan.L1Words()), Zeros(sh.TablesStart() - 104 - sh.Tables() * 8),
             EncodeWords(AllEntries(sh)), g)
  }

  function Assemble(h: seq<byte>, a: seq<byte>, z: seq<byte>, b: seq<byte>, g: seq<byte>): seq<byte> {
    h + a + z + b + g
  }

  lemma GapIsNat(sh: Shape)
    requires sh.Fits()
    ensures 104 + sh.Tables() * 8 <= sh.TablesStart()
  {
    MulMono(1, sh.Cluster(), 104 + sh.Tables() * 8);
    assert sh.Cluster() * (104 + sh.Tables() * 8) == (104 + sh.Tables() * 8) * sh.Cluster();
  }

  lemma TablesFill(sh: Shape, i: nat)
    requires sh.Fits()
    ensures Compose(i, sh.Entries(), 0) * 8 == Compose(i, sh.Cluster(), 0)
  {
    Pow2Small();
    Pow2Add(sh.clusterBits - 3, 3);
    assert sh.clusterBits - 3 + 3 == sh.clusterBits;
    TimesEight(i, sh.Entries(), sh.Cluster());
  }

  lemma TimesEight(i: nat, n: nat, c: nat)
    requires c == n * 8
    ensures Compose(i, n, 0) * 8 == Compose(i, c, 0)
  {
    assert i * (n * 8) == i * n * 8;
  }

  lemma MiddleStands(a: seq<byte>, b: seq<byte>, c: seq<byte>)
    ensures Stands(a + b + c, |a|, b)
  {
  }

  /** The parts of a plain file stand where the plan says. */
  lemma PartsStand(sh: Shape, g: seq<byte>)
    requires sh.Fits()
    ensures
      var plan, bytes := PlainPlan(sh), PlainFile(sh, g);
      && plan.Valid()
      && |bytes| == sh.DataStart() + |g|
      && Begins(bytes, plan.fields, 104)
      && WordsStand(bytes, 104, plan.L1Words())
      && WordsStand(bytes, sh.TablesStart(), AllEntries(sh))
      && Stands(bytes, sh.DataStart(), g)
  {
    PlainPlanIsValid(sh);
    GapIsNat(sh);
    EntriesLength(sh);
    GapFills(sh);
    var plan := PlainPlan(sh);
    Assembled(Head(plan.fields), EncodeWords(plan.L1Words()), Zeros(sh.TablesStart() - 104 - sh.Tables() * 8),
              EncodeWords(AllEntries(sh)), g, sh.TablesStart(), sh.DataStart());
  }

  lemma GapFills(sh: Shape)
    requires sh.Fits() && PlainPlan(sh).Valid() && 104 + sh.Tables() * 8 <= sh.TablesStart()
    ensures 104 + |EncodeWords(PlainPlan(sh).L1Words())| + |Zeros(sh.TablesStart() - 104 - sh.Tables() * 8)|
            == sh.TablesStart()
  {
  }

  lemma EntriesLength(sh: Shape)
    requires sh.Fits()
    ensures |EncodeWords(AllEntries(sh))| == Compose(sh.Tables(), sh.Cluster(), 0)
  {
    TablesFill(sh, sh.Tables());
  }

  /** Where the parts of an assembled file stand */
  lemma Assembled(h: seq<byte>, a: seq<byte>, z: seq<byte>, b: seq<byte>, g: seq<byte>, p: nat, q: nat)
    requires |h| == 104 && p == 104 + |a| + |z| && q == p + |b|
    ensures
      var bytes := Assemble(h, a, z, b, g);
      && |bytes| == q + |g| && bytes[..104] == h[..104]
      && Stands(bytes, 104, a) && Stands(bytes, p, b) && Stands(bytes, q, g)
  {
    var bytes := Assemble(h, a, z, b, g);
    MiddleStands(h, a, z + b + g);
    assert bytes == h + a + (z + b + g);
    MiddleStands(h + a + z, b, g);
    MiddleStands(h + a + z + b, g, []);
    assert bytes == h + a + z + b + g + [];
  }

  /** A run of words inside a longer list stands inside it. */
  lemma WordsInside(bytes: seq<byte>, off: nat, ws: seq<u64>, i: nat, n: nat, p: nat, part: seq<u64>)
    requires WordsStand(bytes, off, ws) && i + n <= |ws| && p == off + i * 8 && part == ws[i..i + n]
    ensures WordsStand(bytes, p, part)
  {
    WordsSplit(ws, i);
    WordsSplit(ws[i..], n);
    assert ws[i..][..n] == ws[i..i + n];
    var a, b, c := EncodeWords(ws[..i]), EncodeWords(ws[i..i + n]), EncodeWords(ws[i..][n..]);
    assert EncodeWords(ws) == a + b + c;
    MiddlePart(bytes, off, a, b, c, p);
  }

  lemma MiddlePart(bytes: seq<byte>, off: nat, a: seq<byte>, b: seq<byte>, c: seq<byte>, p: nat)
    requires Stands(bytes, off, a + b + c) && p == off + |a|
    ensures Stands(bytes, p, b)
  {
    MiddleStands(a, b, c);
    PartStands(bytes, off, a + b + c, |a|, b, p);
  }

  lemma {:induction false} WordsSplit(ws: seq<u64>, i: nat)
    requires i <= |ws|
    ensures EncodeWords(ws) == EncodeWords(ws[..i]) + EncodeWords(ws[i..])
    decreases |ws|
  {
    if i == 0 {
      assert ws[..0] == [] && ws[0..] == ws;
    } else {
      WordsSplit(ws[1..], i - 1);
      assert ws[..i][0] == ws[0] && ws[..i][1..] == ws[1..][..i - 1] && ws[i..] == ws[1..][i - 1..];
    }
  }

  /** Each table of the plan is written. */
  lemma TableStands(sh: Shape, g: seq<byte>, i: nat)
    requires sh.Fits() && i < sh.Tables()
    ensures PlainPlan(sh).Valid()
    ensures WordsStand(PlainFile(sh, g), TablePointer(sh, i).offset, PlainPlan(sh).TableWords(i))
  {
    var plan, n, all := PlainPlan(sh), sh.Entries(), AllEntries(sh);
    PartsStand(sh, g);
    MulBound(i, n, sh.Tables());
    TablesFill(sh, i);
    EntriesOfTable(sh, i);
    WordsInside(PlainFile(sh, g), sh.TablesStart(), all, Compose(i, n, 0), n, TablePointer(sh, i).offset,
                plan.TableWords(i));
  }

  lemma EntriesOfTable(sh: Shape, i: nat)
    requires sh.Fits() && i < sh.Tables() && PlainPlan(sh).Valid()
    ensures
      var lo, n := Compose(i, sh.Entries(), 0), sh.Entries();
      lo + n <= |AllEntries(sh)| && AllEntries(sh)[lo..lo + n] == PlainPlan(sh).TableWords(i)
  {
    var lo, n, ws := Compose(i, sh.Entries(), 0), sh.Entries(), PlainPlan(sh).TableWords(i);
    MulBound(i, n, sh.Tables());
    forall j | 0 <= j < n ensures ws[j] == AllEntries(sh)[lo + j] {
      EntryOfSlot(sh, i, j, lo + j);
    }
    SliceIs(AllEntries(sh), lo, n, ws);
  }

  lemma SliceIs(ws: seq<u64>, lo: nat, n: nat, part: seq<u64>)
    requires lo + n <= |ws| && |part| == n && forall j :: 0 <= j < n ==> part[j] == ws[lo + j]
    ensures ws[lo..lo + n] == part
  {
  }

  lemma EntryOfSlot(sh: Shape, i: nat, j: nat, k: nat)
    requires sh.Fits() && i < sh.Tables() && j < sh.Entries() && PlainPlan(sh).Valid()
    requires k == Compose(i, sh.Entries(), j) < |AllEntries(sh)|
    ensures AllEntries(sh)[k] == PlainPlan(sh).TableWords(i)[j]
  {
    assert PlainPlan(sh).PieceAt(k) == DataPiece(sh, k);
  }

  /** Each cluster of the disk is written. */
  lemma ClusterStands(sh: Shape, g: seq<byte>, k: nat, bytes: seq<byte>)
    requires sh.Fits() && |g| == sh.size && k < sh.Clusters() && Stands(bytes, sh.DataStart(), g)
    ensures Compose(k, sh.Cluster(), 0) <= |g|
    ensures Stands(bytes, sh.DataStart() + Compose(k, sh.Cluster(), 0), ClusterOf(g, k, sh.Cluster()))
  {
    CeilCovers(sh.size, sh.Cluster(), k);
    ClusterInside(bytes, sh.DataStart(), g, k, sh.Cluster());
  }

  lemma DiskStands(sh: Shape, g: seq<byte>)
    requires sh.Fits()
    ensures Stands(PlainFile(sh, g), sh.DataStart(), g)
  {
    PartsStand(sh, g);
  }

  lemma ClusterInside(bytes: seq<byte>, q: nat, g: seq<byte>, k: nat, c: nat)
    requires Stands(bytes, q, g) && Compose(k, c, 0) <= |g|
    ensures Stands(bytes, q + Compose(k, c, 0), ClusterOf(g, k, c))
  {
    var lo := Compose(k, c, 0);
    PartStands(bytes, q, g, lo, ClusterOf(g, k, c), q + lo);
  }

  /** The slots of the plan cover the disk. */
  lemma PieceOfCluster(sh: Shape, k: nat)
    requires sh.Fits() && k < sh.Clusters()
    ensures PlainPlan(sh).PieceAt(k) == DataPiece(sh, k)
  {
    var n, m := sh.Entries(), sh.Tables();
    CeilCovers(sh.Clusters(), n, m);
  }

  lemma PlainIsWritten(sh: Shape, g: seq<byte>)
    requires sh.Fits()
    ensures PlainPlan(sh).Valid() && Written(PlainPlan(sh), PlainFile(sh, g))
  {
    PlainPlanIsValid(sh);
    PartsStand(sh, g);
    var plan, file := PlainPlan(sh), PlainFile(sh, g);
    forall i | 0 <= i < |plan.pointers|
      ensures WordsStand(file, plan.pointers[i].offset, plan.TableWords(i))
    {
      TableStands(sh, g, i);
    }
  }

  lemma PlainHolds(sh: Shape, g: seq<byte>, inflate: Inflate)
    requires sh.Fits() && |g| == sh.size
    ensures Holds(PlainPlan(sh), PlainFile(sh, g), inflate, g)
  {
    forall k: nat | Compose(k, sh.Cluster(), 0) < |g|
      ensures PieceHolds(PlainFile(sh, g), inflate, PlainPlan(sh).PieceAt(k), ClusterOf(g, k, sh.Cluster()))
    {
      PlainHoldsAt(sh, g, inflate, k);
    }
  }

  lemma PlainHoldsAt(sh: Shape, g: seq<byte>, inflate: Inflate, k: nat)
    requires sh.Fits() && |g| == sh.size && Compose(k, sh.Cluster(), 0) < |g|
    ensures PieceHolds(PlainFile(sh, g), inflate, PlainPlan(sh).PieceAt(k), ClusterOf(g, k, sh.Cluster()))
  {
    CeilCovers(sh.size, sh.Cluster(), k);
    PieceOfCluster(sh, k);
    DiskStands(sh, g);
    PlainPieceHolds(sh, g, inflate, k, PlainPlan(sh).PieceAt(k), PlainFile(sh, g));
  }

  lemma PlainPieceHolds(sh: Shape, g: seq<byte>, inflate: Inflate, k: nat, p: Piece, bytes: seq<byte>)
    requires sh.Fits() && |g| == sh.size && k < sh.Clusters() && p == DataPiece(sh, k)
    requires Stands(bytes, sh.DataStart(), g)
    ensures Compose(k, sh.Cluster(), 0) <= |g|
    ensures PieceHolds(bytes, inflate, p, ClusterOf(g, k, sh.Cluster()))
  {
    ClusterStands(sh, g, k, bytes);
    assert p.Stored? && p.host == sh.DataStart() + Compose(k, sh.Cluster(), 0);
    StoredHolds(bytes, inflate, p, ClusterOf(g, k, sh.Cluster()));
  }

  lemma StoredHolds(bytes: seq<byte>, inflate: Inflate, p: Piece, s: seq<byte>)
    requires p.Stored? && Stands(bytes, p.host, s)
    ensures PieceHolds(bytes, inflate, p, s)
  {
  }

  /** For every byte string there is a file that opens and serves it. */
  lemma EveryDiskIsServed(clusterBits: nat, g: seq<byte>, inflate: Inflate)
    requires Shape(clusterBits, |g|).Fits()
    ensures
      var file := PlainFile(Shape(clusterBits, |g|), g);
      var result := R.OpenImage(file, I64_LIMIT, inflate, 0);
      result.Ok? && WellFormed(result.value) && Guest(result.value) == g
  {
    var sh := Shape(clusterBits, |g|);
    var plan, file := PlainPlan(sh), PlainFile(sh, g);
    PartsStand(sh, g);
    PlainPlanIsValid(sh);
    ShapeBounds(sh);
    CeilCovers(sh.size, sh.Cluster(), sh.Clusters());
    PlainIsWritten(sh, g);
    PlainHolds(sh, g, inflate);
    WrittenDiskIsServed(plan, file, g, I64_LIMIT, inflate);
  }
}
