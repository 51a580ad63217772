/** What the program makes of a written header: which files open and which do not, and what is reported
    of a file that need not open. */
module WrittenHeaders {
  import opened Bits
  import opened Bytes
  import opened Io
  import opened Layout
  import opened Header
  import opened Mapping
  import R = Reader

  /** Why a header, of which the file holds the first `k` bytes, is refused: the first condition that
      fails, in the program's order */
  function Refusal(f: Fields, k: nat): Option<Qcow2Error> {
    FieldsSmall(f);
    if f.magic != 0x5146_49fb then Some(BadMagic)
    else if f.version != 2 && f.version != 3 then Some(UnsupportedVersion(f.version))
    else if f.backingOffset != 0 then Some(BackingFileNotSupported)
    else if f.clusterBits < 9 || 20 < f.clusterBits then Some(ClusterBitsOutOfRange(f.clusterBits))
    else if f.encryption != 0 then Some(EncryptedNotSupported)
    else if f.version == 3 && 80 <= k && Field(f.features, 2, 5) != 0 then
      Some(UnsupportedIncompatibleFeatures(4 * Field(f.features, 2, 5)))
    else None
  }

  lemma FieldsSmall(f: Fields)
    ensures Field(f.features, 2, 5) < 8
  {
    Pow2Small();
  }

  lemma FeatureMask(x: u64)
    ensures And(x, INCOMPAT_UNSUPPORTED) == 4 * Field(x, 2, 5)
  {
    AndField(x, 2, 5);
    Pow2Small();
  }

  /** The strict parser takes exactly the headers with no reason for refusal, and fails with the reason. */
  lemma StrictOnWritten(data: seq<byte>, f: Fields, k: nat)
    requires Begins(data, f, k)
    ensures
      match Refusal(f, k)
      case Some(e) => ParseHeader(data) == Err(e)
      case None => ParseHeader(data) == Ok(Qcow2Header(f.clusterBits, f.size, f.l1Size, f.l1Offset))
  {
    FieldsOfFile(data, f, k);
    MoreFieldsOfFile(data, f, k);
    FeatureMask(Features(data, f.version));
    NoFeatures();
  }

  lemma NoFeatures()
    ensures Field(0, 2, 5) == 0
  {
    Pow2Small();
  }

  /** The L1 table named by a header, word by word */
  predicate IsL1(bytes: seq<byte>, f: Fields, l1: seq<u64>) {
    |l1| == f.l1Size && forall i :: 0 <= i < |l1| ==> l1[i] == BeU64(bytes, f.l1Offset + i * 8)
  }

  /** Opening a file: refused for the header's reason, for an oversized L1 table, or because the table is
      unreachable or not all there; otherwise the image is what was written. */
  lemma OpeningOfWritten(bytes: seq<byte>, f: Fields, k: nat, seekLimit: u64, inflate: Inflate)
    requires Begins(bytes, f, k)
    ensures
      var result := R.OpenImage(bytes, seekLimit, inflate, 0);
      match Refusal(f, k)
      case Some(e) => result == Err(e)
      case None =>
        if f.l1Size > 0x10_0000 then result == Err(L1TableTooLarge(f.l1Size))
        else if f.l1Offset > seekLimit || (f.l1Size != 0 && f.l1Offset + f.l1Size * 8 > |bytes|) then
          result == Err(Io)
        else
          && result.Ok?
          && IsL1(bytes, f, result.value.l1)
          && result.value == Image(bytes, seekLimit, f.clusterBits, f.size, result.value.l1, inflate)
  {
    WindowBegins(bytes, f, k, 104);
    StrictOnWritten(Window(bytes, 0, 104), f, k);
    LoadingOfWritten(bytes, f, seekLimit);
  }

  lemma LoadingOfWritten(bytes: seq<byte>, f: Fields, seekLimit: u64)
    ensures
      var loaded := R.L1TableAt(bytes, seekLimit, f.l1Offset, f.l1Size);
      if f.l1Offset > seekLimit || (f.l1Size != 0 && f.l1Offset + f.l1Size * 8 > |bytes|) then loaded == None
      else loaded.Some? && IsL1(bytes, f, loaded.value)
  {
    if f.l1Offset <= seekLimit && 0 < f.l1Size && f.l1Offset + f.l1Size * 8 <= |bytes| {
      TableWords(bytes, f.l1Offset, f.l1Size);
    }
  }

  lemma TableWords(bytes: seq<byte>, off: nat, n: nat)
    requires 0 < n && off + n * 8 <= |bytes|
    ensures Window(bytes, off, n * 8) == bytes[off..off + n * 8]
    ensures
      var t := Table(bytes[off..off + n * 8]);
      |t| == n && forall i :: 0 <= i < n ==> t[i] == BeU64(bytes, off + i * 8)
  {
    forall i | 0 <= i < n ensures Table(bytes[off..off + n * 8])[i] == BeU64(bytes, off + i * 8) {
      TableOfSlice(bytes, off, n, i);
    }
  }

  /** A file opens exactly under these conditions on what was written. */
  lemma OpensIff(bytes: seq<byte>, f: Fields, k: nat, seekLimit: u64, inflate: Inflate)
    requires Begins(bytes, f, k) && |bytes| <= seekLimit
    ensures
      R.OpenImage(bytes, seekLimit, inflate, 0).Ok? <==>
        && f.magic == 0x5146_49fb && 2 <= f.version <= 3 && f.backingOffset == 0
        && 9 <= f.clusterBits <= 20 && f.encryption == 0
        && (f.version == 3 && 80 <= k ==> Field(f.features, 2, 5) == 0)
        && f.l1Size <= 0x10_0000 && f.l1Offset <= seekLimit
        && (f.l1Size != 0 ==> f.l1Offset + f.l1Size * 8 <= |bytes|)
  {
    OpeningOfWritten(bytes, f, k, seekLimit, inflate);
  }

  /** A file with less than a version-2 header is refused whatever it holds. */
  lemma ShortFileRefused(bytes: seq<byte>, seekLimit: u64, inflate: Inflate)
    requires |bytes| < 72
    ensures R.OpenImage(bytes, seekLimit, inflate, 0) == Err(FileTooSmall)
  {
  }

  /** An L1 table that was written is the one loaded. */
  lemma WrittenL1(bytes: seq<byte>, f: Fields, l1: seq<u64>, loaded: seq<u64>)
    requires WordsStand(bytes, f.l1Offset, l1) && |l1| == f.l1Size && IsL1(bytes, f, loaded)
    ensures loaded == l1
  {
    forall i | 0 <= i < |l1| ensures loaded[i] == l1[i] {
      StandingWord(bytes, f.l1Offset, l1, i);
    }
  }

  // Facts about a file that need not open.

  /** The backing-file name of a header, as it stands in the data: at most 4096 bytes, all of them there */
  ghost predicate NameIs(data: seq<byte>, f: Fields, utf8: Utf8, name: Option<string>) {
    if f.backingOffset == 0 || f.backingSize == 0 then name == None
    else
      var n := if f.backingSize < 4096 then f.backingSize else 4096;
      if f.backingOffset + n > |data| then name == None
      else forall s :: |s| == n && Stands(data, f.backingOffset, s) ==> name == Some(utf8(s))
  }

  lemma WrittenName(data: seq<byte>, f: Fields, utf8: Utf8, k: nat)
    requires Begins(data, f, k)
    ensures NameIs(data, f, utf8, BackingFileName(data, utf8))
  {
    FieldsOfFile(data, f, k);
    if f.backingOffset != 0 && f.backingSize != 0 {
      var n := if f.backingSize < 4096 then f.backingSize else 4096;
      assert n == Min(f.backingSize, MAX_BACKING_LEN);
      assert forall s :: |s| == n && Stands(data, f.backingOffset, s) ==>
        data[f.backingOffset..f.backingOffset + n] == s;
    }
  }

  /** Where the extension area of a header starts */
  function AreaStart(f: Fields, k: nat): nat {
    if f.version == 3 && k == 104 && 72 < f.headerLength then f.headerLength else 72
  }

  /** The facts reported of a written header, field by field.  In version 1 the word at 36 is the
      encryption method, and everything version 2 adds is absent. */
  lemma InfoOfWritten(data: seq<byte>, f: Fields, k: nat, utf8: Utf8)
    requires Begins(data, f, k)
    ensures
      var result := ParseInfo(data, utf8);
      if f.magic != 0x5146_49fb then result == Err(BadMagic)
      else if f.version == 1 then
        && result.Ok? && NameIs(data, f, utf8, result.value.backingFile)
        && result.value ==
             Qcow2Info(1, 0, f.size, 0, f.backingOffset != 0, f.l1Size, 0, 0, result.value.backingFile, None)
      else if f.version != 2 && f.version != 3 then result == Err(UnsupportedVersion(f.version))
      else
        && result.Ok? && NameIs(data, f, utf8, result.value.backingFile)
        && result.value ==
             Qcow2Info(f.version, f.clusterBits, f.size, f.l1Size, f.backingOffset != 0, f.encryption, f.snapshots,
                       if f.version == 3 && 80 <= k then f.features else 0, result.value.backingFile,
                       match FormatWalk(data, AreaStart(f, k), 64)
                       case None => None
                       case Some(s) => Some(utf8(s)))
  {
    FieldsOfFile(data, f, k);
    MoreFieldsOfFile(data, f, k);
    WrittenName(data, f, utf8, k);
  }

  lemma PrefixStands(data: seq<byte>, off: nat, s: seq<byte>, n: nat)
    requires Stands(data, off, s) && n <= |s|
    ensures Stands(data, off, s[..n])
  {
    assert data[off..off + n] == data[off..off + |s|][..n];
  }

  /** A written name comes back, cut to 4096 bytes. */
  lemma NameRoundTrip(data: seq<byte>, f: Fields, k: nat, name: seq<byte>, utf8: Utf8)
    requires Begins(data, f, k) && f.magic == 0x5146_49fb && 1 <= f.version <= 3
    requires f.backingOffset != 0 && 0 < |name| == f.backingSize && Stands(data, f.backingOffset, name)
    ensures ParseInfo(data, utf8).Ok?
    ensures ParseInfo(data, utf8).value.backingFile == Some(utf8(if |name| <= 4096 then name else name[..4096]))
  {
    InfoOfWritten(data, f, k, utf8);
    var n := if f.backingSize < 4096 then f.backingSize else 4096;
    PrefixStands(data, f.backingOffset, name, n);
    assert |name| <= 4096 ==> name[..n] == name;
  }
}
