/** Write, then enumerate: what is reported of a snapshot table that was written, field by field. */
module WrittenSnapshots {
  import opened Bits
  import opened Bytes
  import opened Io
  import opened Layout
  import opened Header
  import opened Snapshots

  /** The snapshot shows the record: the decoding of its id and of its name, no bytes being the empty
      string whatever the decoder does, and its times and sizes. */
  predicate Shows(s: Snapshot, r: Record, utf8: Utf8) {
    && s.id == (if r.id == [] then "" else utf8(r.id))
    && s.name == (if r.name == [] then "" else utf8(r.name))
    && s.dateUnixSecs == r.secs && s.dateNsecs == r.nsecs && s.vmStateSize == r.vmStateSize
  }

  /** The record fits its fields and the cap on extra data. */
  predicate Fits(r: Record) {
    |r.extra| <= 0x1_0000 && |r.id| < 0x1_0000 && |r.name| < 0x1_0000
  }

  lemma DecodedShows(r: Record, utf8: Utf8)
    ensures Shows(r.Decoded(utf8), r, utf8)
  {
  }

  lemma {:induction false} DecodedAt(rs: seq<Record>, utf8: Utf8, i: nat)
    requires i < |rs|
    ensures |DecodedAll(rs, utf8)| == |rs| && DecodedAll(rs, utf8)[i] == rs[i].Decoded(utf8)
    decreases |rs|
  {
    if |rs| > 1 {
      DecodedAt(rs[1..], utf8, if i == 0 then 0 else i - 1);
    }
  }

  /** Where record `i` of a table ends, without its padding */
  function EndOfRecord(rs: seq<Record>, i: nat): nat
    requires i < |rs|
  {
    |EncodeTable(rs[..i])| + rs[i].BodyLength()
  }

  /** A record is recovered exactly if it ends within the part of the table that is left. */
  lemma {:induction false} RecoveredIff(rs: seq<Record>, avail: nat, i: nat)
    requires i < |rs|
    ensures i < Recovered(rs, avail) <==> EndOfRecord(rs, i) <= avail
    decreases |rs|
  {
    if i == 0 {
      assert rs[..0] == [];
    } else {
      LaterRecord(rs, i);
      if rs[0].Length() <= avail {
        RecoveredIff(rs[1..], avail - rs[0].Length(), i - 1);
      }
    }
  }

  lemma LaterRecord(rs: seq<Record>, i: nat)
    requires 0 < i < |rs|
    ensures EndOfRecord(rs, i) == rs[0].Length() + EndOfRecord(rs[1..], i - 1)
  {
    assert rs[..i][0] == rs[0] && rs[..i][1..] == rs[1..][..i - 1];
  }

  /** What a header that was written says about the table */
  lemma HeaderPoints(pre: seq<byte>, f: Fields, k: nat)
    requires Begins(pre, f, k) && f.magic == 0x5146_49fb && f.snapshotsOffset == |pre|
    ensures PointsBehind(pre, f.snapshots)
  {
    FieldsOfFile(pre, f, k);
  }

  /** Write, cut, enumerate: of a table of which `avail` bytes are left, exactly the records that end
      there are reported, in order, each as it was written.  Only the first 65536 are looked at. */
  lemma CutTableIsReported(pre: seq<byte>, f: Fields, k: nat, rs: seq<Record>, tail: seq<byte>, cut: seq<byte>,
                           avail: nat, seekLimit: u64, utf8: Utf8)
    requires Begins(pre, f, k) && f.magic == 0x5146_49fb && f.snapshotsOffset == |pre| <= seekLimit
    requires |rs| == Min(f.snapshots, 0x1_0000) && forall i :: 0 <= i < |rs| ==> Fits(rs[i])
    requires |cut| == |pre| + avail && cut <= pre + (EncodeTable(rs) + tail)
    ensures SnapshotsOf(cut, seekLimit, utf8).Ok?
    ensures
      var out := SnapshotsOf(cut, seekLimit, utf8).value;
      && |out| <= |rs|
      && (forall i :: 0 <= i < |rs| ==> (i < |out| <==> EndOfRecord(rs, i) <= avail))
      && (forall i :: 0 <= i < |out| ==> Shows(out[i], rs[i], utf8))
  {
    HeaderPoints(pre, f, k);
    CutTableRecovers(pre, f.snapshots, rs, tail, cut, avail, seekLimit, utf8);
    OutputShows(rs, Recovered(rs, avail), utf8, DecodedAll(rs[..Recovered(rs, avail)], utf8));
    forall i | 0 <= i < |rs| ensures i < Recovered(rs, avail) <==> EndOfRecord(rs, i) <= avail {
      RecoveredIff(rs, avail, i);
    }
  }

  lemma OutputShows(rs: seq<Record>, n: nat, utf8: Utf8, out: seq<Snapshot>)
    requires n <= |rs| && out == DecodedAll(rs[..n], utf8)
    ensures |out| == n && forall i :: 0 <= i < n ==> Shows(out[i], rs[i], utf8)
  {
    if n != 0 {
      DecodedAt(rs[..n], utf8, 0);
    }
    forall i | 0 <= i < n ensures Shows(out[i], rs[i], utf8) {
      DecodedAt(rs[..n], utf8, i);
      DecodedShows(rs[i], utf8);
    }
  }

  /** Write, then enumerate: the whole table comes back. */
  lemma TableIsReported(pre: seq<byte>, f: Fields, k: nat, rs: seq<Record>, tail: seq<byte>, seekLimit: u64,
                        utf8: Utf8)
    requires Begins(pre, f, k) && f.magic == 0x5146_49fb && f.snapshotsOffset == |pre| <= seekLimit
    requires |rs| == Min(f.snapshots, 0x1_0000) && forall i :: 0 <= i < |rs| ==> Fits(rs[i])
    ensures
      var result := SnapshotsOf(pre + (EncodeTable(rs) + tail), seekLimit, utf8);
      && result.Ok? && |result.value| == |rs|
      && forall i :: 0 <= i < |rs| ==> Shows(result.value[i], rs[i], utf8)
  {
    HeaderPoints(pre, f, k);
    TableRoundTrip(pre, f.snapshots, rs, tail, seekLimit, utf8);
    assert rs[..|rs|] == rs;
    OutputShows(rs, |rs|, utf8, DecodedAll(rs, utf8));
  }

  /** Everything else an enumeration can come to: the errors, and the files without a table */
  lemma OtherwiseReported(bytes: seq<byte>, f: Fields, k: nat, seekLimit: u64, utf8: Utf8)
    requires Begins(bytes, f, k)
    ensures
      var result := SnapshotsOf(bytes, seekLimit, utf8);
      && (f.magic != 0x5146_49fb ==> result == Err(BadMagic))
      && (f.magic == 0x5146_49fb ==>
            && (f.snapshots == 0 || f.snapshotsOffset == 0 ==> result == Ok([]))
            && (f.snapshots != 0 && f.snapshotsOffset > seekLimit ==> result == Err(Io))
            && (f.snapshotsOffset <= seekLimit ==> result.Ok?))
  {
    WindowBegins(bytes, f, k, 104);
    FieldsOfFile(Window(bytes, 0, 104), f, k);
  }

  lemma ShortFileHasNone(bytes: seq<byte>, seekLimit: u64, utf8: Utf8)
    requires |bytes| < 72
    ensures SnapshotsOf(bytes, seekLimit, utf8) == Err(FileTooSmall)
  {
  }
}
