/** The internal snapshot table: variable-length records behind fixed 40-byte headers, padded to eight
    bytes, and read with tolerance for truncation. */
module Snapshots {
  import opened Bits
  import opened Bytes
  import opened Io
  import opened Header

  const MAX_SNAPSHOTS: nat := 0x1_0000
  const MAX_STR_LEN: nat := 0x1_0000
  const MAX_EXTRA_DATA: nat := 0x1_0000
  const SNAPSHOT_HEADER_FIXED: nat := 40

  datatype Snapshot = Snapshot(id: string, name: string, dateUnixSecs: u32, dateNsecs: u32, vmStateSize: u32)

  // Specification.

  /** What the fixed part of a record says */
  datatype Fixed = Fixed(idSize: u16, nameSize: u16, secs: u32, nsecs: u32, vmStateSize: u32, extraSize: nat) {
    /** Length of the record without its padding */
    function BodyLength(): nat {
      SNAPSHOT_HEADER_FIXED + extraSize + idSize + nameSize
    }
  }

  function FixedAt(bytes: seq<byte>, pos: nat): Fixed {
    Fixed(BeU16(bytes, pos + 12), BeU16(bytes, pos + 14), BeU32(bytes, pos + 16), BeU32(bytes, pos + 20),
          BeU32(bytes, pos + 32), Min(BeU32(bytes, pos + 36), MAX_EXTRA_DATA))
  }

  function Pad(n: nat): (p: nat)
    ensures p < 8 && (n + p) % 8 == 0
  {
    (8 - n % 8) % 8
  }

  /** Decoded text; no bytes are the empty string whatever the decoder does */
  function Text(s: seq<byte>, utf8: Utf8): string {
    if s == [] then "" else utf8(s)
  }

  /** A captured record: the bytes it covers, without padding, and what was read from them */
  datatype Entry = Entry(start: nat, length: nat, snapshot: Snapshot) {
    function End(): nat {
      start + length
    }
  }

  /** The record at `pos`, if the file holds all of it */
  function EntryAt(bytes: seq<byte>, pos: nat, utf8: Utf8): (e: Option<Entry>)
    ensures e.Some? ==>
      e.value.start == pos && SNAPSHOT_HEADER_FIXED <= e.value.length && e.value.End() <= |bytes|
  {
    var f := FixedAt(bytes, pos);
    if pos + f.BodyLength() > |bytes| then None
    else
      var idStart := pos + SNAPSHOT_HEADER_FIXED + f.extraSize;
      var nameStart := idStart + f.idSize;
      Some(Entry(pos, f.BodyLength(),
                 Snapshot(Text(Window(bytes, idStart, f.idSize), utf8),
                          Text(Window(bytes, nameStart, f.nameSize), utf8),
                          f.secs, f.nsecs, f.vmStateSize)))
  }

  /** Records by position, as a function */
  type Source = nat -> Option<Entry>

  function At(bytes: seq<byte>, utf8: Utf8): Source {
    (pos: nat) => EntryAt(bytes, pos, utf8)
  }

  /** Records start where they are looked for, hold a fixed header, and end within `len`. */
  ghost predicate Within(at: Source, len: nat) {
    forall pos: nat :: at(pos).Some? ==>
      at(pos).value.start == pos && SNAPSHOT_HEADER_FIXED <= at(pos).value.length && at(pos).value.End() <= len
  }

  lemma AtWithin(bytes: seq<byte>, utf8: Utf8)
    ensures Within(At(bytes, utf8), |bytes|)
  {
  }

  /** Where the next record of a file of `len` bytes is looked for: past the padding if it is there */
  function NextPosition(len: nat, e: Entry): (next: nat)
    ensures e.End() <= next < e.End() + 8
    ensures e.End() <= len ==> next <= len
  {
    var padded := e.End() + Pad(e.length);
    if padded <= len then padded else e.End()
  }

  /** At most `n` records from `pos` on, up to the first that is not all there */
  function Chain(at: Source, len: nat, pos: nat, n: nat): (es: seq<Entry>)
    ensures |es| <= n
    decreases n
  {
    if n == 0 || at(pos).None? then []
    else [at(pos).value] + Chain(at, len, NextPosition(len, at(pos).value), n - 1)
  }

  function Entries(bytes: seq<byte>, pos: nat, n: nat, utf8: Utf8): (es: seq<Entry>)
    ensures |es| <= n
  {
    Chain(At(bytes, utf8), |bytes|, pos, n)
  }

  /** The enumeration one record at a time */
  lemma EntriesStep(bytes: seq<byte>, pos: nat, n: nat, utf8: Utf8)
    requires 0 < n
    ensures
      var e := EntryAt(bytes, pos, utf8);
      Entries(bytes, pos, n, utf8) ==
        if e.None? then [] else [e.value] + Entries(bytes, NextPosition(|bytes|, e.value), n - 1, utf8)
  {
    assert At(bytes, utf8)(pos) == EntryAt(bytes, pos, utf8);
  }

  function SnapshotsIn(es: seq<Entry>): (s: seq<Snapshot>)
    ensures |s| == |es|
    ensures forall i :: 0 <= i < |es| ==> s[i] == es[i].snapshot
  {
    seq(|es|, i requires 0 <= i < |es| => es[i].snapshot)
  }

  lemma MoveOne(done: seq<Entry>, e: Entry, rest: seq<Entry>)
    ensures done + ([e] + rest) == done + [e] + rest
  {
  }

  lemma SnapshotsMore(es: seq<Entry>, e: Entry)
    ensures SnapshotsIn(es + [e]) == SnapshotsIn(es) + [e.snapshot]
  {
  }

  /** The number of snapshots to look for and where, from the header */
  function TableLocation(bytes: seq<byte>): Result<(nat, u64), Qcow2Error> {
    var hdr := Window(bytes, 0, 104);
    if |hdr| < MIN_HEADER_SIZE then Err(FileTooSmall)
    else if BeU32(hdr, 0) != MAGIC then Err(BadMagic)
    else Ok((Min(BeU32(hdr, 60), MAX_SNAPSHOTS), BeU64(hdr, 64)))
  }

  /** The whole enumeration, as a function of the file. */
  function SnapshotsOf(bytes: seq<byte>, seekLimit: u64, utf8: Utf8): Result<seq<Snapshot>, Qcow2Error> {
    match TableLocation(bytes)
    case Err(e) => Err(e)
    case Ok((count, offset)) =>
      if count == 0 || offset == 0 then Ok([])
      else if offset > seekLimit then Err(Io)
      else Ok(SnapshotsIn(Entries(bytes, offset, count, utf8)))
  }

  // The enumeration as the program runs it.

  /** Advance the cursor by `n`, but only within the file. */
  method Skip(file: RegularFile, n: nat) returns (ok: bool)
    requires file.Valid() && n < U32_LIMIT
    modifies file
    ensures ok <==> old(file.cursor) + n <= |file.bytes|
    ensures file.cursor == old(file.cursor) + if ok then n else 0
  {
    var target := file.cursor + n;
    if target > |file.bytes| {
      return false;
    }
    ok := file.Seek(target);
  }

  method ReadString(file: RegularFile, len: nat, utf8: Utf8) returns (s: Option<string>)
    requires file.Valid()
    modifies file
    ensures s.Some? <==> len == 0 || old(file.cursor) + len <= |file.bytes|
    ensures s.Some? ==> s.value == Text(Window(file.bytes, old(file.cursor), len), utf8)
    ensures s.Some? ==> file.cursor == old(file.cursor) + len
  {
    if len == 0 {
      return Some("");
    }
    var buf := file.ReadExact(len);
    if buf.None? {
      return None;
    }
    return Some(utf8(buf.value));
  }

  /** One round of the loop: read a record and step over its padding. */
  method ReadRecord(file: RegularFile, utf8: Utf8) returns (r: Option<Snapshot>)
    requires file.Valid()
    modifies file
    ensures
      var e := EntryAt(file.bytes, old(file.cursor), utf8);
      && (r.Some? <==> e.Some?)
      && (r.Some? ==> r.value == e.value.snapshot && file.cursor == NextPosition(|file.bytes|, e.value))
  {
    ghost var pos := file.cursor;
    var fixed := file.ReadExact(SNAPSHOT_HEADER_FIXED);
    if fixed.None? {
      return None;
    }
    FixedInPlace(file.bytes, pos);
    var f := FixedAt(fixed.value, 0);
    var texts := ReadTexts(file, f, utf8);
    if texts.None? {
      return None;
    }
    var consumed := SNAPSHOT_HEADER_FIXED + f.extraSize + f.idSize + f.nameSize;
    var pad := (8 - consumed % 8) % 8;
    if pad > 0 {
      var _ := Skip(file, pad);
    }
    return Some(Snapshot(texts.value.0, texts.value.1, f.secs, f.nsecs, f.vmStateSize));
  }

  /** The variable part: skip the extra data, read id and name. */
  method ReadTexts(file: RegularFile, f: Fixed, utf8: Utf8) returns (r: Option<(string, string)>)
    requires file.Valid() && file.cursor <= |file.bytes| && f.extraSize <= MAX_EXTRA_DATA
    modifies file
    ensures
      var idStart := old(file.cursor) + f.extraSize;
      var nameStart := idStart + f.idSize;
      && (r.Some? <==> nameStart + f.nameSize <= |file.bytes|)
      && (r.Some? ==>
            && r.value == (Text(Window(file.bytes, idStart, f.idSize), utf8),
                           Text(Window(file.bytes, nameStart, f.nameSize), utf8))
            && file.cursor == nameStart + f.nameSize)
  {
    var idStrSize := Min(f.idSize, MAX_STR_LEN);
    var nameSize := Min(f.nameSize, MAX_STR_LEN);
    if f.extraSize > 0 {
      var skipped := Skip(file, f.extraSize);
      if !skipped {
        return None;
      }
    }
    var id := ReadString(file, idStrSize, utf8);
    if id.None? {
      return None;
    }
    var name := ReadString(file, nameSize, utf8);
    if name.None? {
      return None;
    }
    return Some((id.value, name.value));
  }

  /** The fixed fields read the same from the 40-byte buffer and from the file. */
  lemma FixedInPlace(bytes: seq<byte>, pos: nat)
    requires pos + SNAPSHOT_HEADER_FIXED <= |bytes|
    ensures FixedAt(Window(bytes, pos, SNAPSHOT_HEADER_FIXED), 0) == FixedAt(bytes, pos)
  {
    var w := bytes[pos..pos + SNAPSHOT_HEADER_FIXED];
    SliceOfSlice(bytes, pos, pos + 40, 12, 14);
    SliceOfSlice(bytes, pos, pos + 40, 14, 16);
    SliceOfSlice(bytes, pos, pos + 40, 16, 20);
    SliceOfSlice(bytes, pos, pos + 40, 20, 24);
    SliceOfSlice(bytes, pos, pos + 40, 32, 36);
    SliceOfSlice(bytes, pos, pos + 40, 36, 40);
  }

  method ReadSnapshots(file: RegularFile, utf8: Utf8) returns (r: Result<seq<Snapshot>, Qcow2Error>)
    requires file.Valid() && file.cursor == 0
    modifies file
    ensures r == SnapshotsOf(file.bytes, file.seekLimit, utf8)
  {
    var hdr := file.Read(104);
    if |hdr| < MIN_HEADER_SIZE {
      return Err(FileTooSmall);
    }
    if BeU32(hdr, 0) != MAGIC {
      return Err(BadMagic);
    }
    var nbSnapshots := Min(BeU32(hdr, 60), MAX_SNAPSHOTS);
    var snapshotsOffset := BeU64(hdr, 64);
    if nbSnapshots == 0 || snapshotsOffset == 0 {
      return Ok([]);
    }
    var ok := file.Seek(snapshotsOffset);
    if !ok {
      return Err(Io);
    }
    var out := Enumerate(file, nbSnapshots, utf8);
    return Ok(out);
  }

  /** The loop: up to `count` records from the cursor on. */
  method Enumerate(file: RegularFile, count: nat, utf8: Utf8) returns (out: seq<Snapshot>)
    requires file.Valid()
    modifies file
    ensures out == SnapshotsIn(Entries(file.bytes, old(file.cursor), count, utf8))
  {
    out := [];
    ghost var all := Entries(file.bytes, file.cursor, count, utf8);
    ghost var done: seq<Entry> := [];
    for i := 0 to count
      invariant out == SnapshotsIn(done)
      invariant all == done + Entries(file.bytes, file.cursor, count - i, utf8)
    {
      ghost var e := EntryAt(file.bytes, file.cursor, utf8);
      EntriesStep(file.bytes, file.cursor, count - i, utf8);
      var record := ReadRecord(file, utf8);
      if record.None? {
        assert all == done;
        return;
      }
      SnapshotsMore(done, e.value);
      MoveOne(done, e.value, Entries(file.bytes, file.cursor, count - i - 1, utf8));
      done := done + [e.value];
      out := out + [record.value];
      assert count - i - 1 == count - (i + 1);
    }
    assert count - count == 0;
    assert all == done;
  }

  // Accounting on arbitrary files.

  /** A captured record lies in the file, is at least a fixed header long, and starts a multiple of
      eight after the first. */
  lemma {:induction false} EntryInFile(at: Source, len: nat, pos: nat, n: nat, i: nat)
    requires Within(at, len) && i < |Chain(at, len, pos, n)|
    ensures
      var e := Chain(at, len, pos, n)[i];
      InPlace(e, pos, len) && pos + SNAPSHOT_HEADER_FIXED * i <= e.start
    decreases n
  {
    assert at(pos).Some?;
    if i != 0 {
      var e := at(pos).value;
      var next := NextPosition(len, e);
      EntryInFile(at, len, next, n - 1, i - 1);
      assert next == e.End() + Pad(e.length);
      StaysAligned(pos, e.length + Pad(e.length), Chain(at, len, pos, n)[i].start);
    }
  }

  lemma StaysAligned(pos: nat, step: nat, start: nat)
    requires step % 8 == 0 && (start - (pos + step)) % 8 == 0
    ensures (start - pos) % 8 == 0
  {
  }

  lemma {:induction false} EntriesInOrder(at: Source, len: nat, pos: nat, n: nat, i: nat, j: nat)
    requires Within(at, len) && i < j < |Chain(at, len, pos, n)|
    ensures Chain(at, len, pos, n)[i].End() <= Chain(at, len, pos, n)[j].start
    decreases n
  {
    assert at(pos).Some?;
    var next := NextPosition(len, at(pos).value);
    if i == 0 {
      EntryInFile(at, len, next, n - 1, j - 1);
    } else {
      EntriesInOrder(at, len, next, n - 1, i - 1, j - 1);
    }
  }

  predicate InPlace(e: Entry, pos: nat, len: nat) {
    pos <= e.start && SNAPSHOT_HEADER_FIXED <= e.length && e.End() <= len && (e.start - pos) % 8 == 0
  }

  /** Entries that are in order and disjoint, inside `pos..len`, and aligned to the first */
  predicate Tidy(es: seq<Entry>, pos: nat, len: nat) {
    && (forall i :: 0 <= i < |es| ==> InPlace(es[i], pos, len))
    && (forall i, j :: 0 <= i < j < |es| ==> es[i].End() <= es[j].start)
    && (es != [] ==> pos + SNAPSHOT_HEADER_FIXED * |es| <= len)
  }

  /** The captured records of any file are in order and disjoint, inside it, and aligned. */
  lemma EntriesAreDisjoint(bytes: seq<byte>, pos: nat, n: nat, utf8: Utf8)
    ensures Tidy(Entries(bytes, pos, n, utf8), pos, |bytes|)
  {
    AtWithin(bytes, utf8);
    ChainIsDisjoint(At(bytes, utf8), |bytes|, pos, n);
  }

  lemma ChainIsDisjoint(at: Source, len: nat, pos: nat, n: nat)
    requires Within(at, len)
    ensures Tidy(Chain(at, len, pos, n), pos, len)
  {
    var es := Chain(at, len, pos, n);
    forall i | 0 <= i < |es| ensures InPlace(es[i], pos, len) {
      EntryInFile(at, len, pos, n, i);
    }
    forall i, j | 0 <= i < j < |es| ensures es[i].End() <= es[j].start {
      EntriesInOrder(at, len, pos, n, i, j);
    }
    if es != [] {
      EntryInFile(at, len, pos, n, |es| - 1);
    }
  }

  /** However many snapshots the header claims, forty bytes of file back each one reported. */
  lemma ReportedCostsFortyBytes(bytes: seq<byte>, seekLimit: u64, utf8: Utf8)
    requires SnapshotsOf(bytes, seekLimit, utf8).Ok?
    ensures
      var out := SnapshotsOf(bytes, seekLimit, utf8).value;
      && |out| <= MAX_SNAPSHOTS
      && (out != [] ==> SNAPSHOT_HEADER_FIXED * |out| <= |bytes| - BeU64(Window(bytes, 0, 104), 64))
  {
    var hdr := Window(bytes, 0, 104);
    var count, offset := Min(BeU32(hdr, 60), MAX_SNAPSHOTS), BeU64(hdr, 64);
    EntriesAreDisjoint(bytes, offset, count, utf8);
  }

  // Truncation.

  lemma FixedOfPrefix(bytes: seq<byte>, k: nat, pos: nat)
    requires pos + SNAPSHOT_HEADER_FIXED <= k <= |bytes|
    ensures FixedAt(bytes[..k], pos) == FixedAt(bytes, pos)
  {
    PrefixU16(bytes, k, pos + 12);
    PrefixU16(bytes, k, pos + 14);
    PrefixU32(bytes, k, pos + 16);
    PrefixU32(bytes, k, pos + 20);
    PrefixU32(bytes, k, pos + 32);
    PrefixU32(bytes, k, pos + 36);
  }

  lemma WindowOfPrefix(bytes: seq<byte>, k: nat, off: nat, n: nat)
    requires off + n <= k <= |bytes|
    ensures Window(bytes[..k], off, n) == Window(bytes, off, n)
  {
    assert bytes[..k][off..off + n] == bytes[off..off + n];
  }

  /** A record that is all there in a prefix of the file is the same record in the file; otherwise the
      prefix has none. */
  lemma EntryOfPrefix(bytes: seq<byte>, k: nat, pos: nat, utf8: Utf8)
    requires k <= |bytes|
    ensures EntryAt(bytes[..k], pos, utf8) ==
            if pos + SNAPSHOT_HEADER_FIXED <= k && pos + FixedAt(bytes, pos).BodyLength() <= k
            then EntryAt(bytes, pos, utf8) else None
  {
    if pos + SNAPSHOT_HEADER_FIXED <= k {
      FixedOfPrefix(bytes, k, pos);
      var f := FixedAt(bytes, pos);
      if pos + f.BodyLength() <= k {
        var a := pos + SNAPSHOT_HEADER_FIXED + f.extraSize;
        WindowOfPrefix(bytes, k, a, f.idSize);
        WindowOfPrefix(bytes, k, a + f.idSize, f.nameSize);
      }
    }
  }

  /** Cutting the file short only drops records from the end. */
  lemma EntriesOfPrefix(bytes: seq<byte>, k: nat, pos: nat, n: nat, utf8: Utf8)
    requires k <= |bytes|
    ensures Entries(bytes[..k], pos, n, utf8) <= Entries(bytes, pos, n, utf8)
  {
    var cut, whole := At(bytes[..k], utf8), At(bytes, utf8);
    forall p: nat ensures cut(p).Some? ==> cut(p) == whole(p) {
      EntryOfPrefix(bytes, k, p, utf8);
    }
    ChainOfPrefix(cut, whole, k, |bytes|, pos, n);
  }

  /** Where the cut falls in a record's padding, fewer than eight bytes are left, too few for another
      record, so it does not matter that the cursor is off its alignment. */
  lemma {:induction false} ChainOfPrefix(cut: Source, whole: Source, k: nat, len: nat, pos: nat, n: nat)
    requires Within(cut, k) && k <= len
    requires forall p: nat :: cut(p).Some? ==> cut(p) == whole(p)
    ensures Chain(cut, k, pos, n) <= Chain(whole, len, pos, n)
    decreases n
  {
    if n != 0 && cut(pos).Some? {
      var e := cut(pos).value;
      var next := NextPosition(k, e);
      if next == NextPosition(len, e) {
        ChainOfPrefix(cut, whole, k, len, next, n - 1);
      } else {
        assert cut(next).None?;
      }
    }
  }

  /** Truncation is prefix-monotone: a file cut anywhere past its header fields yields a prefix of the
      snapshots of the whole file, and the same error if that is what the whole file yields. */
  lemma TruncationKeepsPrefix(bytes: seq<byte>, k: nat, seekLimit: u64, utf8: Utf8)
    requires MIN_HEADER_SIZE <= k <= |bytes|
    ensures
      var whole, cut := SnapshotsOf(bytes, seekLimit, utf8), SnapshotsOf(bytes[..k], seekLimit, utf8);
      if whole.Ok? then cut.Ok? && cut.value <= whole.value else cut == whole
  {
    HeaderOfPrefix(bytes, k);
    var hdr := Window(bytes, 0, 104);
    EntriesOfPrefix(bytes, k, BeU64(hdr, 64), Min(BeU32(hdr, 60), MAX_SNAPSHOTS), utf8);
  }

  lemma HeaderOfPrefix(bytes: seq<byte>, k: nat)
    requires MIN_HEADER_SIZE <= k <= |bytes|
    ensures
      var hdr, cut := Window(bytes, 0, 104), Window(bytes[..k], 0, 104);
      && |cut| >= MIN_HEADER_SIZE && |hdr| >= MIN_HEADER_SIZE
      && BeU32(cut, 0) == BeU32(hdr, 0) && BeU32(cut, 60) == BeU32(hdr, 60) && BeU64(cut, 64) == BeU64(hdr, 64)
  {
    var hdr, cut := Window(bytes, 0, 104), Window(bytes[..k], 0, 104);
    assert cut == hdr[..|cut|];
    PrefixU32(hdr, |cut|, 0);
    PrefixU32(hdr, |cut|, 60);
    PrefixU64(hdr, |cut|, 64);
  }

  // Encoding a table.

  /** A snapshot record to be written */
  datatype Record = Record(l1Offset: u64, l1Size: u32, secs: u32, nsecs: u32, vmClock: u64, vmStateSize: u32,
                           extra: seq<byte>, id: seq<byte>, name: seq<byte>)
  {
    /** The lengths fit their fields. */
    predicate Encodable() {
      |extra| < U32_LIMIT && |id| < U16_LIMIT && |name| < U16_LIMIT
    }

    predicate Valid() {
      |extra| <= MAX_EXTRA_DATA && |id| < U16_LIMIT && |name| < U16_LIMIT
    }

    function Head(): (h: seq<byte>)
      ensures |h| == SNAPSHOT_HEADER_FIXED
    {
      (ToBE(l1Offset, 8) + ToBE(l1Size, 4)) + (ToBE(|id|, 2) + ToBE(|name|, 2)) + (ToBE(secs, 4) + ToBE(nsecs, 4))
      + ToBE(vmClock, 8) + (ToBE(vmStateSize, 4) + ToBE(|extra|, 4))
    }

    function BodyLength(): nat {
      SNAPSHOT_HEADER_FIXED + |extra| + |id| + |name|
    }

    /** Length of the record with its padding */
    function Length(): nat {
      BodyLength() + Pad(BodyLength())
    }

    /** The record with its texts, padded to eight bytes */
    function Encode(): (e: seq<byte>)
      ensures |e| == Length()
    {
      Head() + extra + id + name + seq(Pad(BodyLength()), _ => 0)
    }

    /** What reading the record back should report */
    function Decoded(utf8: Utf8): Snapshot {
      Snapshot(Text(id, utf8), Text(name, utf8), secs, nsecs, vmStateSize)
    }
  }

  function EncodeTable(rs: seq<Record>): seq<byte> {
    if rs == [] then [] else rs[0].Encode() + EncodeTable(rs[1..])
  }

  /** What reading all records back should report, in order */
  function DecodedAll(rs: seq<Record>, utf8: Utf8): seq<Snapshot> {
    if rs == [] then [] else [rs[0].Decoded(utf8)] + DecodedAll(rs[1..], utf8)
  }

  /** How many records of a table have their whole body in its first `avail` bytes */
  function Recovered(rs: seq<Record>, avail: nat): (n: nat)
    ensures n <= |rs|
  {
    if rs == [] || avail < rs[0].BodyLength() then 0
    else if avail < rs[0].Length() then 1
    else 1 + Recovered(rs[1..], avail - rs[0].Length())
  }

  /** The fixed fields of an encoded record read back. */
  lemma HeadFields(r: Record)
    requires r.Encodable()
    ensures FixedAt(r.Head(), 0) ==
            Fixed(|r.id|, |r.name|, r.secs, r.nsecs, r.vmStateSize, Min(|r.extra|, MAX_EXTRA_DATA))
  {
    HeadPieces(ToBE(r.l1Offset, 8) + ToBE(r.l1Size, 4), ToBE(|r.id|, 2), ToBE(|r.name|, 2), ToBE(r.secs, 4),
               ToBE(r.nsecs, 4), ToBE(r.vmClock, 8), ToBE(r.vmStateSize, 4), ToBE(|r.extra|, 4));
    var h := r.Head();
    HalfAt(h, 12, |r.id|);
    HalfAt(h, 14, |r.name|);
    WordAt(h, 16, r.secs);
    WordAt(h, 20, r.nsecs);
    WordAt(h, 32, r.vmStateSize);
    WordAt(h, 36, |r.extra|);
  }

  lemma HeadPieces(l1: seq<byte>, id: seq<byte>, name: seq<byte>, secs: seq<byte>, nsecs: seq<byte>, clock: seq<byte>,
                   vm: seq<byte>, extra: seq<byte>)
    requires |l1| == 12 && |id| == |name| == 2 && |secs| == |nsecs| == |vm| == |extra| == 4 && |clock| == 8
    ensures
      var h := l1 + (id + name) + (secs + nsecs) + clock + (vm + extra);
      && h[12..14] == id && h[14..16] == name && h[16..20] == secs && h[20..24] == nsecs
      && h[32..36] == vm && h[36..40] == extra
  {
  }

  /** The record at `pos` is read back as `r`, over its whole length. */
  predicate ReadsBack(bytes: seq<byte>, pos: nat, r: Record, utf8: Utf8) {
    && FixedAt(bytes, pos).BodyLength() == r.BodyLength()
    && EntryAt(bytes, pos, utf8) == Some(Entry(pos, r.BodyLength(), r.Decoded(utf8)))
  }

  /** An encoded record is read back as itself, whatever surrounds it. */
  lemma EntryOfRecord(pre: seq<byte>, r: Record, rest: seq<byte>, bytes: seq<byte>, utf8: Utf8)
    requires r.Valid() && bytes == pre + r.Encode() + rest
    ensures ReadsBack(bytes, |pre|, r, utf8)
  {
    PlacedRecord(pre, r, rest, bytes);
    RecordAt(bytes, |pre|, r, utf8);
  }

  /** The bytes at `pos` are those of record `r`. */
  predicate Placed(bytes: seq<byte>, pos: nat, r: Record)
    requires r.Encodable()
  {
    var idStart := pos + SNAPSHOT_HEADER_FIXED + |r.extra|;
    && pos + r.BodyLength() <= |bytes|
    && FixedAt(bytes, pos) ==
         Fixed(|r.id|, |r.name|, r.secs, r.nsecs, r.vmStateSize, Min(|r.extra|, MAX_EXTRA_DATA))
    && Window(bytes, idStart, |r.id|) == r.id
    && Window(bytes, idStart + |r.id|, |r.name|) == r.name
  }

  lemma PlacedRecord(pre: seq<byte>, r: Record, rest: seq<byte>, bytes: seq<byte>)
    requires r.Encodable() && bytes == pre + r.Encode() + rest
    ensures Placed(bytes, |pre|, r)
  {
    FixedOfRecord(pre, r, rest);
    RecordLayout(pre, r, rest);
  }

  lemma RecordAt(bytes: seq<byte>, pos: nat, r: Record, utf8: Utf8)
    requires r.Valid() && Placed(bytes, pos, r)
    ensures ReadsBack(bytes, pos, r, utf8)
  {
    var idStart := pos + SNAPSHOT_HEADER_FIXED + |r.extra|;
    var f := Fixed(|r.id|, |r.name|, r.secs, r.nsecs, r.vmStateSize, |r.extra|);
    EntryFromParts(bytes, pos, f, idStart, idStart + |r.id|, r.id, r.name, utf8);
  }

  lemma FixedOfRecord(pre: seq<byte>, r: Record, rest: seq<byte>)
    requires r.Encodable()
    ensures FixedAt(pre + r.Encode() + rest, |pre|) ==
            Fixed(|r.id|, |r.name|, r.secs, r.nsecs, r.vmStateSize, Min(|r.extra|, MAX_EXTRA_DATA))
  {
    HeadFields(r);
    RecordLayout(pre, r, rest);
    FixedInPlace(pre + r.Encode() + rest, |pre|);
  }

  lemma EntryFromParts(bytes: seq<byte>, pos: nat, f: Fixed, idStart: nat, nameStart: nat, id: seq<byte>,
                       name: seq<byte>, utf8: Utf8)
    requires FixedAt(bytes, pos) == f && pos + f.BodyLength() <= |bytes|
    requires idStart == pos + SNAPSHOT_HEADER_FIXED + f.extraSize && nameStart == idStart + f.idSize
    requires Window(bytes, idStart, f.idSize) == id && Window(bytes, nameStart, f.nameSize) == name
    ensures EntryAt(bytes, pos, utf8) ==
            Some(Entry(pos, f.BodyLength(), Snapshot(Text(id, utf8), Text(name, utf8), f.secs, f.nsecs, f.vmStateSize)))
  {
  }

  /** What is reported of a record with more extra data than the cap: the length is cut, so id and name
      are taken from inside the extra data, and the record seems to end early. */
  lemma OversizedExtra(pre: seq<byte>, r: Record, rest: seq<byte>, bytes: seq<byte>, utf8: Utf8)
    requires r.Encodable() && MAX_EXTRA_DATA < |r.extra| && bytes == pre + r.Encode() + rest
    ensures
      var body := (r.extra + r.id + r.name)[MAX_EXTRA_DATA..];
      var id, name := body[..|r.id|], body[|r.id|..|r.id| + |r.name|];
      EntryAt(bytes, |pre|, utf8) ==
        Some(Entry(|pre|, SNAPSHOT_HEADER_FIXED + MAX_EXTRA_DATA + |r.id| + |r.name|,
                   Snapshot(Text(id, utf8), Text(name, utf8), r.secs, r.nsecs, r.vmStateSize)))
  {
    var body, pad := r.extra + r.id + r.name, seq(Pad(r.BodyLength()), _ => 0);
    var cut, idStart := body[MAX_EXTRA_DATA..], |pre| + SNAPSHOT_HEADER_FIXED + MAX_EXTRA_DATA;
    var f := Fixed(|r.id|, |r.name|, r.secs, r.nsecs, r.vmStateSize, MAX_EXTRA_DATA);
    FixedOfRecord(pre, r, rest);
    BodyLayout(pre, r.Head(), r.extra, r.id, r.name, pad, rest);
    BodyWindows(pre + r.Head(), body, pad + rest, MAX_EXTRA_DATA, |r.id|, |r.name|);
    assert |pre + r.Head()| + MAX_EXTRA_DATA == idStart;
    EntryFromParts(bytes, |pre|, f, idStart, idStart + |r.id|, cut[..|r.id|], cut[|r.id|..|r.id| + |r.name|], utf8);
  }

  lemma BodyLayout(pre: seq<byte>, head: seq<byte>, extra: seq<byte>, id: seq<byte>, name: seq<byte>, pad: seq<byte>,
                   rest: seq<byte>)
    ensures pre + (head + extra + id + name + pad) + rest == (pre + head) + (extra + id + name) + (pad + rest)
  {
  }

  lemma BodyWindows(pre: seq<byte>, body: seq<byte>, post: seq<byte>, k: nat, n: nat, m: nat)
    requires k + n + m <= |body|
    ensures
      var bytes, cut := pre + body + post, body[k..];
      Window(bytes, |pre| + k, n) == cut[..n] && Window(bytes, |pre| + k + n, m) == cut[n..n + m]
  {
  }

  /** An encoded record is read back as itself exactly when its extra data is within the cap. */
  lemma ReadBackIffWithinCap(pre: seq<byte>, r: Record, rest: seq<byte>, bytes: seq<byte>, utf8: Utf8)
    requires r.Encodable() && bytes == pre + r.Encode() + rest
    ensures EntryAt(bytes, |pre|, utf8) == Some(Entry(|pre|, r.BodyLength(), r.Decoded(utf8)))
            <==> |r.extra| <= MAX_EXTRA_DATA
  {
    if |r.extra| <= MAX_EXTRA_DATA {
      EntryOfRecord(pre, r, rest, bytes, utf8);
    } else {
      OversizedExtra(pre, r, rest, bytes, utf8);
    }
  }

  lemma WindowInside(pre: seq<byte>, x: seq<byte>, post: seq<byte>)
    ensures Window(pre + x + post, |pre|, |x|) == x
  {
  }

  /** Where the parts of an encoded record lie */
  lemma RecordLayout(pre: seq<byte>, r: Record, rest: seq<byte>)
    ensures
      var bytes := pre + r.Encode() + rest;
      var idStart := |pre| + SNAPSHOT_HEADER_FIXED + |r.extra|;
      && Window(bytes, |pre|, SNAPSHOT_HEADER_FIXED) == r.Head()
      && Window(bytes, idStart, |r.id|) == r.id
      && Window(bytes, idStart + |r.id|, |r.name|) == r.name
  {
    var head, pad := r.Head(), seq(Pad(r.BodyLength()), _ => 0);
    Layout(pre, head, r.extra, r.id, r.name, pad, rest);
    WindowInside(pre, head, r.extra + r.id + r.name + pad + rest);
    WindowInside(pre + head + r.extra, r.id, r.name + pad + rest);
    WindowInside(pre + head + r.extra + r.id, r.name, pad + rest);
  }

  lemma Layout(pre: seq<byte>, head: seq<byte>, extra: seq<byte>, id: seq<byte>, name: seq<byte>, pad: seq<byte>,
               rest: seq<byte>)
    ensures
      var bytes := pre + (head + extra + id + name + pad) + rest;
      && bytes == pre + head + (extra + id + name + pad + rest)
      && bytes == (pre + head + extra) + id + (name + pad + rest)
      && bytes == (pre + head + extra + id) + name + (pad + rest)
  {
  }

  lemma FirstThenRest(e: Entry, es: seq<Entry>)
    ensures SnapshotsIn([e] + es) == [e.snapshot] + SnapshotsIn(es)
  {
  }

  /** What the enumeration from `pos` on reports */
  predicate Yields(at: Source, len: nat, pos: nat, n: nat, out: seq<Snapshot>) {
    SnapshotsIn(Chain(at, len, pos, n)) == out
  }

  /** The record at the head of a cut table, captured exactly if its body survives */
  lemma CutEntry(pre: seq<byte>, r: Record, rest: seq<byte>, cut: seq<byte>, avail: nat, utf8: Utf8)
    requires r.Valid() && |cut| == |pre| + avail && cut <= pre + r.Encode() + rest
    ensures At(cut, utf8)(|pre|) ==
            if avail < r.BodyLength() then None
            else Some(Entry(|pre|, r.BodyLength(), r.Decoded(utf8)))
  {
    EntryOfRecord(pre, r, rest, pre + r.Encode() + rest, utf8);
    EntryOfPrefix(pre + r.Encode() + rest, |cut|, |pre|, utf8);
    assert cut == (pre + r.Encode() + rest)[..|cut|];
  }

  /** After a captured record the enumeration goes on behind its padding; with the padding cut off there
      is no room for another. */
  lemma CutAfterBodyEnd(at: Source, len: nat, e: Entry, n: nat, others: seq<Snapshot>)
    requires Within(at, len) && at(e.start) == Some(e)
    requires
      if len < e.End() + Pad(e.length) then others == []
      else Yields(at, len, e.End() + Pad(e.length), n, others)
    ensures Yields(at, len, e.start, n + 1, [e.snapshot] + others)
  {
    var next := NextPosition(len, e);
    if len < e.End() + Pad(e.length) {
      assert at(next).None?;
    }
    FirstThenRest(e, Chain(at, len, next, n));
  }

  /** What should be reported from the first `avail` bytes of a table */
  function Surviving(rs: seq<Record>, avail: nat, utf8: Utf8): seq<Snapshot> {
    if rs == [] || avail < rs[0].BodyLength() then []
    else if avail < rs[0].Length() then [rs[0].Decoded(utf8)]
    else [rs[0].Decoded(utf8)] + Surviving(rs[1..], avail - rs[0].Length(), utf8)
  }

  /** An encoded table cut short yields exactly the records whose body lies before the cut: a missing
      padding costs nothing, a missing body byte costs the record. */
  lemma {:induction false} CutTable(pre: seq<byte>, rs: seq<Record>, tail: seq<byte>, cut: seq<byte>, avail: nat,
                                     utf8: Utf8)
    requires forall i :: 0 <= i < |rs| ==> rs[i].Valid()
    requires |cut| == |pre| + avail && cut <= pre + (EncodeTable(rs) + tail)
    ensures Yields(At(cut, utf8), |cut|, |pre|, |rs|, Surviving(rs, avail, utf8))
    decreases |rs|
  {
    if rs == [] {
      assert |rs| == 0 && Surviving(rs, avail, utf8) == [];
      NothingYields(At(cut, utf8), |cut|, |pre|);
    } else {
      SplitTable(pre, rs, tail);
      CutEntry(pre, rs[0], EncodeTable(rs[1..]) + tail, cut, avail, utf8);
      var next := |pre + rs[0].Encode()|;
      assert next == |pre| + rs[0].Length();
      if rs[0].Length() <= avail {
        CutTable(pre + rs[0].Encode(), rs[1..], tail, cut, avail - rs[0].Length(), utf8);
      }
      AtWithin(cut, utf8);
      CutFirst(At(cut, utf8), |cut|, |pre|, next, rs, avail, utf8);
    }
  }

  /** The step of the enumeration that handles the first record of a cut table */
  lemma CutFirst(at: Source, len: nat, pos: nat, next: nat, rs: seq<Record>, avail: nat, utf8: Utf8)
    requires rs != [] && Within(at, len) && len == pos + avail && next == pos + rs[0].Length()
    requires at(pos) == if avail < rs[0].BodyLength() then None
                        else Some(Entry(pos, rs[0].BodyLength(), rs[0].Decoded(utf8)))
    requires rs[0].Length() <= avail ==>
      Yields(at, len, next, |rs[1..]|, Surviving(rs[1..], avail - rs[0].Length(), utf8))
    ensures Yields(at, len, pos, |rs|, Surviving(rs, avail, utf8))
  {
    if at(pos).Some? {
      var e := at(pos).value;
      var others := if rs[0].Length() <= avail then Surviving(rs[1..], avail - rs[0].Length(), utf8) else [];
      CutStep(at, len, e, next, rs, avail, others);
      assert Surviving(rs, avail, utf8) == [e.snapshot] + others;
    }
  }

  lemma CutStep(at: Source, len: nat, e: Entry, next: nat, rs: seq<Record>, avail: nat,
                others: seq<Snapshot>)
    requires rs != [] && Within(at, len) && len == e.start + avail && next == e.start + rs[0].Length()
    requires at(e.start) == Some(e) && e.length == rs[0].BodyLength()
    requires if rs[0].Length() <= avail then Yields(at, len, next, |rs[1..]|, others) else others == []
    ensures Yields(at, len, e.start, |rs|, [e.snapshot] + others)
  {
    assert e.End() + Pad(e.length) == next && |rs[1..]| + 1 == |rs|;
    CutAfterBodyEnd(at, len, e, |rs[1..]|, others);
  }

  /** What survives is the decoded records up to the number recovered. */
  lemma {:induction false} SurvivingIsPrefix(rs: seq<Record>, avail: nat, utf8: Utf8)
    ensures Surviving(rs, avail, utf8) == DecodedAll(rs[..Recovered(rs, avail)], utf8)
    decreases |rs|
  {
    var n := Recovered(rs, avail);
    if n != 0 {
      assert rs[..n][1..] == rs[1..][..n - 1];
      if avail >= rs[0].Length() {
        SurvivingIsPrefix(rs[1..], avail - rs[0].Length(), utf8);
      }
    }
  }

  lemma NothingYields(at: Source, len: nat, pos: nat)
    ensures Yields(at, len, pos, 0, [])
  {
    assert SnapshotsIn([]) == [];
  }

  lemma SplitTable(pre: seq<byte>, rs: seq<Record>, tail: seq<byte>)
    requires rs != []
    ensures pre + (EncodeTable(rs) + tail) == pre + rs[0].Encode() + (EncodeTable(rs[1..]) + tail)
  {
    Reassociate(pre, rs[0].Encode(), EncodeTable(rs[1..]), tail);
  }

  lemma Reassociate(pre: seq<byte>, a: seq<byte>, b: seq<byte>, tail: seq<byte>)
    ensures pre + ((a + b) + tail) == pre + a + (b + tail)
  {
  }

  /** What a file with a snapshot table right behind `pre` says in its header */
  predicate PointsBehind(pre: seq<byte>, count: nat) {
    && MIN_HEADER_SIZE <= |pre| && BeU32(pre, 0) == MAGIC
    && BeU32(pre, 60) == count && BeU64(pre, 64) == |pre|
  }

  /** Exact recovery: a well-formed table, in a file cut anywhere behind the table's start, is enumerated
      as exactly the records whose bodies survive; records past the cap are never looked at. */
  lemma CutTableRecovers(pre: seq<byte>, count: nat, rs: seq<Record>, tail: seq<byte>, cut: seq<byte>, avail: nat,
                         seekLimit: u64, utf8: Utf8)
    requires PointsBehind(pre, count) && |rs| == Min(count, MAX_SNAPSHOTS) && |pre| <= seekLimit
    requires forall i :: 0 <= i < |rs| ==> rs[i].Valid()
    requires |cut| == |pre| + avail && cut <= pre + (EncodeTable(rs) + tail)
    ensures SnapshotsOf(cut, seekLimit, utf8) == Ok(DecodedAll(rs[..Recovered(rs, avail)], utf8))
  {
    CutTableReports(pre, count, rs, tail, cut, avail, seekLimit, utf8);
    SurvivingIsPrefix(rs, avail, utf8);
  }

  lemma CutTableReports(pre: seq<byte>, count: nat, rs: seq<Record>, tail: seq<byte>, cut: seq<byte>, avail: nat,
                        seekLimit: u64, utf8: Utf8)
    requires PointsBehind(pre, count) && |rs| == Min(count, MAX_SNAPSHOTS) && |pre| <= seekLimit
    requires forall i :: 0 <= i < |rs| ==> rs[i].Valid()
    requires |cut| == |pre| + avail && cut <= pre + (EncodeTable(rs) + tail)
    ensures SnapshotsOf(cut, seekLimit, utf8) == Ok(Surviving(rs, avail, utf8))
  {
    SharedPrefix(pre, EncodeTable(rs) + tail, cut);
    CutTable(pre, rs, tail, cut, avail, utf8);
    OutputBehind(cut, pre, count, seekLimit, utf8, Surviving(rs, avail, utf8));
  }

  lemma OutputBehind(bytes: seq<byte>, pre: seq<byte>, count: nat, seekLimit: u64, utf8: Utf8, out: seq<Snapshot>)
    requires PointsBehind(pre, count) && pre <= bytes && |pre| <= seekLimit
    requires Yields(At(bytes, utf8), |bytes|, |pre|, Min(count, MAX_SNAPSHOTS), out)
    ensures SnapshotsOf(bytes, seekLimit, utf8) == Ok(out)
  {
    LocatedBehind(bytes, pre, count);
  }

  lemma LocatedBehind(bytes: seq<byte>, pre: seq<byte>, count: nat)
    requires PointsBehind(pre, count) && pre <= bytes
    ensures TableLocation(bytes) == Ok((Min(count, MAX_SNAPSHOTS), |pre|))
  {
    HeaderFieldsOf(bytes, pre);
  }

  lemma SharedPrefix(pre: seq<byte>, post: seq<byte>, cut: seq<byte>)
    requires |pre| <= |cut| && cut <= pre + post
    ensures pre <= cut
  {
  }

  lemma HeaderFieldsOf(bytes: seq<byte>, pre: seq<byte>)
    requires MIN_HEADER_SIZE <= |pre| && pre <= bytes
    ensures
      var hdr := Window(bytes, 0, 104);
      && |hdr| >= MIN_HEADER_SIZE
      && BeU32(hdr, 0) == BeU32(pre, 0) && BeU32(hdr, 60) == BeU32(pre, 60) && BeU64(hdr, 64) == BeU64(pre, 64)
  {
    var hdr := Window(bytes, 0, 104);
    assert bytes[..|hdr|] == hdr && bytes[..|pre|] == pre;
    PrefixU32(bytes, |hdr|, 0);
    PrefixU32(bytes, |pre|, 0);
    PrefixU32(bytes, |hdr|, 60);
    PrefixU32(bytes, |pre|, 60);
    PrefixU64(bytes, |hdr|, 64);
    PrefixU64(bytes, |pre|, 64);
  }

  lemma {:induction false} WholeTableRecovered(rs: seq<Record>, avail: nat)
    requires |EncodeTable(rs)| <= avail
    ensures Recovered(rs, avail) == |rs|
  {
    if rs != [] {
      WholeTableRecovered(rs[1..], avail - rs[0].Length());
    }
  }

  /** Round trip: every table comes back complete and in order, up to the cap. */
  lemma TableRoundTrip(pre: seq<byte>, count: nat, rs: seq<Record>, tail: seq<byte>, seekLimit: u64, utf8: Utf8)
    requires PointsBehind(pre, count) && |rs| == Min(count, MAX_SNAPSHOTS) && |pre| <= seekLimit
    requires forall i :: 0 <= i < |rs| ==> rs[i].Valid()
    ensures SnapshotsOf(pre + (EncodeTable(rs) + tail), seekLimit, utf8) == Ok(DecodedAll(rs, utf8))
  {
    WholeTable(pre, count, rs, tail, pre + (EncodeTable(rs) + tail), seekLimit, utf8);
  }

  lemma WholeTable(pre: seq<byte>, count: nat, rs: seq<Record>, tail: seq<byte>, bytes: seq<byte>, seekLimit: u64,
                   utf8: Utf8)
    requires PointsBehind(pre, count) && |rs| == Min(count, MAX_SNAPSHOTS) && |pre| <= seekLimit
    requires forall i :: 0 <= i < |rs| ==> rs[i].Valid()
    requires bytes == pre + (EncodeTable(rs) + tail)
    ensures SnapshotsOf(bytes, seekLimit, utf8) == Ok(DecodedAll(rs, utf8))
  {
    var avail := |bytes| - |pre|;
    assert avail == |EncodeTable(rs)| + |tail|;
    DecodedWhole(rs, avail, utf8);
    CutTableRecovers(pre, count, rs, tail, bytes, avail, seekLimit, utf8);
  }

  lemma DecodedWhole(rs: seq<Record>, avail: nat, utf8: Utf8)
    requires |EncodeTable(rs)| <= avail
    ensures DecodedAll(rs[..Recovered(rs, avail)], utf8) == DecodedAll(rs, utf8)
  {
    WholeTableRecovered(rs, avail);
    assert rs[..|rs|] == rs;
  }
}
