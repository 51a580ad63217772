/** Header parsing: the strict reader's header and the lenient header facts. */
module Header {
  import opened Bits
  import opened Bytes
  import opened Io

  const MAGIC: u32 := 0x5146_49fb
  const MIN_HEADER_SIZE: nat := 72
  const MAX_BACKING_LEN: nat := 4096

  const INCOMPAT_EXTERNAL_DATA: u64 := 0x04
  const INCOMPAT_COMPRESSION_TYPE: u64 := 0x08
  const INCOMPAT_EXTENDED_L2: u64 := 0x10
  const INCOMPAT_UNSUPPORTED: u64 := INCOMPAT_EXTERNAL_DATA + INCOMPAT_COMPRESSION_TYPE + INCOMPAT_EXTENDED_L2

  const EXT_BACKING_FORMAT: u32 := 0xE279_2ACA
  const EXT_END: u32 := 0
  const MAX_EXTENSIONS: nat := 64

  /** Lossy UTF-8 decoding, left as a parameter */
  type Utf8 = seq<byte> -> string

  datatype Qcow2Header = Qcow2Header(clusterBits: u32, diskSize: u64, l1Size: u32, l1TableOffset: u64)

  datatype Qcow2Info = Qcow2Info(
    version: u32,
    clusterBits: u32,
    virtualDiskSize: u64,
    l1Size: u32,
    hasBackingFile: bool,
    encryptionMethod: u32,
    snapshotCount: u32,
    incompatibleFeatures: u64,
    backingFile: Option<string>,
    backingFormat: Option<string>)

  /** The strict header: everything the reader cannot decode is refused. */
  function ParseHeader(data: seq<byte>): Result<Qcow2Header, Qcow2Error> {
    if |data| < MIN_HEADER_SIZE then Err(FileTooSmall)
    else if BeU32(data, 0) != MAGIC then Err(BadMagic)
    else
      var version := BeU32(data, 4);
      if !(2 <= version <= 3) then Err(UnsupportedVersion(version))
      else if BeU64(data, 8) != 0 then Err(BackingFileNotSupported)
      else
        var clusterBits := BeU32(data, 20);
        if !(9 <= clusterBits <= 20) then Err(ClusterBitsOutOfRange(clusterBits))
        else if BeU32(data, 32) != 0 then Err(EncryptedNotSupported)
        else
          var unsupported := UnsupportedFeatures(Features(data, version));
          if unsupported != 0 then Err(UnsupportedIncompatibleFeatures(unsupported))
          else Ok(Qcow2Header(clusterBits, BeU64(data, 24), BeU32(data, 36), BeU64(data, 40)))
  }

  /** The v3 incompatible-feature bitmap, 0 where the header has none */
  function Features(data: seq<byte>, version: u32): u64 {
    if version == 3 && |data| >= 80 then BeU64(data, 72) else 0
  }

  function UnsupportedFeatures(incompat: u64): (bits: u64)
    ensures bits != 0 <==> Field(incompat, 2, 5) != 0
  {
    AndField(incompat, 2, 5);
    Pow2Small();
    And(incompat, INCOMPAT_UNSUPPORTED)
  }

  /** The lenient header facts: magic, length and version are required, the rest is reported. */
  function ParseInfo(data: seq<byte>, utf8: Utf8): Result<Qcow2Info, Qcow2Error> {
    if |data| < MIN_HEADER_SIZE then Err(FileTooSmall)
    else if BeU32(data, 0) != MAGIC then Err(BadMagic)
    else
      var version := BeU32(data, 4);
      if version == 1 then
        Ok(Qcow2Info(version, 0, BeU64(data, 24), 0, BeU64(data, 8) != 0, BeU32(data, 36), 0, 0,
                     BackingFileName(data, utf8), None))
      else if !(2 <= version <= 3) then Err(UnsupportedVersion(version))
      else
        Ok(Qcow2Info(version, BeU32(data, 20), BeU64(data, 24), BeU32(data, 36), BeU64(data, 8) != 0,
                     BeU32(data, 32), BeU32(data, 60), Features(data, version),
                     BackingFileName(data, utf8), FormatName(data, version, utf8)))
  }

  function BackingFileName(data: seq<byte>, utf8: Utf8): Option<string> {
    var offset := BeU64(data, 8);
    var size := BeU32(data, 16);
    if offset == 0 || size == 0 then None
    else
      var n := Min(size, MAX_BACKING_LEN);
      if offset + n <= |data| then Some(utf8(data[offset..offset + n])) else None
  }

  /** What an image must look like, as lenient facts, for the strict reader to take it. */
  predicate Decodable(info: Qcow2Info) {
    && info.version != 1
    && !info.hasBackingFile
    && 9 <= info.clusterBits <= 20
    && info.encryptionMethod == 0
    && Field(info.incompatibleFeatures, 2, 5) == 0
  }

  /** The strict parser accepts exactly the headers whose lenient facts are decodable, and the
      two then agree on every field they share. */
  lemma StrictIffDecodable(data: seq<byte>, utf8: Utf8)
    ensures ParseHeader(data).Ok? <==> ParseInfo(data, utf8).Ok? && Decodable(ParseInfo(data, utf8).value)
    ensures ParseHeader(data).Ok? ==>
      var h, info := ParseHeader(data).value, ParseInfo(data, utf8).value;
      && h.clusterBits == info.clusterBits
      && h.diskSize == info.virtualDiskSize
      && h.l1Size == info.l1Size
  {
  }

  /** Both entry points read a window of the file; when the strict one takes its 104-byte window,
      the lenient one takes its 8192-byte window and reports the same fields. */
  lemma StrictWindowAgreesWithInspect(file: seq<byte>, utf8: Utf8)
    ensures
      var strict := ParseHeader(Window(file, 0, 104));
      var lenient := ParseInfo(Window(file, 0, 8192), utf8);
      && (strict.Ok? <==> lenient.Ok? && Decodable(lenient.value))
      && (strict.Ok? ==>
            && strict.value.clusterBits == lenient.value.clusterBits
            && strict.value.diskSize == lenient.value.virtualDiskSize
            && strict.value.l1Size == lenient.value.l1Size)
  {
    var long := Window(file, 0, 8192);
    var n := |Window(file, 0, 104)|;
    assert Window(file, 0, 104) == long[..n];
    SameHeaderFields(long, n);
    StrictIffDecodable(long, utf8);
  }

  lemma SameHeaderFields(data: seq<byte>, n: nat)
    requires n <= |data| && (n == |data| || 104 <= n)
    ensures ParseHeader(data[..n]) == ParseHeader(data)
  {
    if n == |data| {
      assert data[..n] == data;
    } else {
      PrefixU32(data, n, 0);
      PrefixU32(data, n, 4);
      PrefixU64(data, n, 8);
      PrefixU32(data, n, 20);
      PrefixU64(data, n, 24);
      PrefixU32(data, n, 32);
      PrefixU32(data, n, 36);
      PrefixU64(data, n, 40);
      PrefixU64(data, n, 72);
    }
  }

  // The header-extension area.

  /** What one record of the extension area does to the walk */
  datatype ExtStep = Stop(payload: Option<seq<byte>>) | Advance(next: nat)

  function RoundUp8(n: nat): (m: nat)
    ensures n <= m < n + 8 && m % 8 == 0
  {
    (n + 7) / 8 * 8
  }

  function StepAt(data: seq<byte>, pos: nat): (s: ExtStep)
    ensures s.Advance? ==> pos + 8 <= s.next < |data| && s.next % 8 == pos % 8
  {
    var ty := BeU32(data, pos);
    var len := BeU32(data, pos + 4);
    var body := pos + 8;
    if ty == EXT_END then Stop(None)
    else if ty == EXT_BACKING_FORMAT then
      var n := Min(len, MAX_BACKING_LEN);
      if body + n <= |data| then Stop(Some(data[body..body + n])) else Stop(None)
    else if body + len > |data| || body + RoundUp8(len) >= |data| then Stop(None)
    else
      SameResidue(pos, RoundUp8(len));
      Advance(body + RoundUp8(len))
  }

  lemma SameResidue(pos: nat, padded: nat)
    requires padded % 8 == 0
    ensures (pos + 8 + padded) % 8 == pos % 8
  {
  }

  /** The walk over at most `fuel` records */
  function FormatWalk(data: seq<byte>, pos: nat, fuel: nat): Option<seq<byte>>
    decreases fuel
  {
    if fuel == 0 then None
    else
      match StepAt(data, pos)
      case Stop(payload) => payload
      case Advance(next) => FormatWalk(data, next, fuel - 1)
  }

  function ExtensionStart(data: seq<byte>, version: u32): (start: nat)
    ensures MIN_HEADER_SIZE <= start < U32_LIMIT
  {
    var len := BeU32(data, 100);
    if version == 3 && len > MIN_HEADER_SIZE then len else MIN_HEADER_SIZE
  }

  function FormatName(data: seq<byte>, version: u32, utf8: Utf8): Option<string> {
    match FormatWalk(data, ExtensionStart(data, version), MAX_EXTENSIONS)
    case None => None
    case Some(payload) => Some(utf8(payload))
  }

  function CheckedAdd(x: u64, y: u64): Option<u64> {
    if x + y < U64_LIMIT then Some(x + y) else None
  }

  /** The position after a record's data, padded up to 8 bytes; every sum is checked. */
  method NextRecord(dataStart: u64, extLen: u32) returns (next: Option<u64>)
    ensures next == CheckedAdd(dataStart, RoundUp8(extLen))
  {
    PaddingMask(extLen);
    var padded := CheckedAdd(extLen, 7);
    if padded.None? { return None; }
    next := CheckedAdd(dataStart, And(padded.value, Not(7)));
  }

  /** The backing-format scan as the program runs it: a loop over machine words with every sum
      checked.  No check ever fires on a slice of addressable length. */
  method BackingFormatName(data: seq<byte>, version: u32, utf8: Utf8) returns (name: Option<string>)
    requires |data| < I64_LIMIT
    ensures name == FormatName(data, version, utf8)
  {
    var headerLength := BeU32(data, 100);
    var pos: u64 := MIN_HEADER_SIZE;
    if version == 3 && headerLength > MIN_HEADER_SIZE {
      pos := headerLength;
    }
    var payload := ScanExtensions(data, pos, MAX_EXTENSIONS);
    name := if payload.None? then None else Some(utf8(payload.value));
  }

  method ScanExtensions(data: seq<byte>, start: u64, cap: nat) returns (payload: Option<seq<byte>>)
    requires |data| < I64_LIMIT && start < U32_LIMIT
    ensures payload == FormatWalk(data, start, cap)
  {
    var pos: u64 := start;
    for i := 0 to cap
      invariant pos < U32_LIMIT || pos < |data|
      invariant FormatWalk(data, pos, cap - i) == FormatWalk(data, start, cap)
    {
      var step := ScanRecord(data, pos);
      match step {
        case Stop(found) =>
          return found;
        case Advance(next) =>
          pos := next;
      }
    }
    return None;
  }

  /** One round of the loop: stop, or go on behind the record. */
  method ScanRecord(data: seq<byte>, pos: u64) returns (step: ExtStep)
    requires |data| < I64_LIMIT && (pos < U32_LIMIT || pos < |data|)
    ensures step == StepAt(data, pos)
  {
    var extType := BeU32(data, pos);
    var extLen := BeU32(data, pos + 4);
    if extType == EXT_END {
      return Stop(None);
    }
    var dataStart := CheckedAdd(pos, 8);
    if dataStart.None? { return Stop(None); }
    var dataEnd := CheckedAdd(dataStart.value, extLen);
    if dataEnd.None? { return Stop(None); }
    if extType == EXT_BACKING_FORMAT {
      var payload := FormatPayload(data, dataStart.value, extLen);
      return Stop(payload);
    }
    var next := NextRecord(dataStart.value, extLen);
    if next.None? { return Stop(None); }
    if dataEnd.value > |data| || next.value >= |data| {
      return Stop(None);
    }
    return Advance(next.value);
  }

  /** The payload of a backing-format record, cut to its cap, if it lies inside the data */
  method FormatPayload(data: seq<byte>, dataStart: u64, extLen: u32) returns (payload: Option<seq<byte>>)
    requires |data| < I64_LIMIT
    ensures
      var n := Min(extLen, MAX_BACKING_LEN);
      payload == if dataStart + n <= |data| then Some(data[dataStart..dataStart + n]) else None
  {
    var len := Min(extLen, MAX_BACKING_LEN);
    var sliceEnd := CheckedAdd(dataStart, len);
    if sliceEnd.None? || sliceEnd.value > |data| { return None; }
    return Some(data[dataStart..sliceEnd.value]);
  }

  /** `(n + 7) & !7` is `n` rounded up to a multiple of 8. */
  lemma PaddingMask(n: u32)
    ensures And(n + 7, Not(7)) == RoundUp8(n)
  {
    Pow2Small();
    AndClearLow(n + 7, 3);
  }

  /** The walk without the cap on the number of records */
  function FormatWalkAll(data: seq<byte>, pos: nat): Option<seq<byte>>
    decreases |data| - pos
  {
    match StepAt(data, pos)
    case Stop(payload) => payload
    case Advance(next) => FormatWalkAll(data, next)
  }

  /** How many records the uncapped walk looks at */
  function RecordsSeen(data: seq<byte>, pos: nat): (n: nat)
    ensures 1 <= n
    ensures pos <= |data| ==> 8 * (n - 1) <= |data| - pos
    ensures pos > |data| ==> n == 1
    decreases |data| - pos
  {
    match StepAt(data, pos)
    case Stop(_) => 1
    case Advance(next) => 1 + RecordsSeen(data, next)
  }

  /** The cap is invisible exactly while the area stops within it; past it the answer is None. */
  lemma {:induction false} CappedWalk(data: seq<byte>, pos: nat, fuel: nat)
    ensures FormatWalk(data, pos, fuel) ==
            if RecordsSeen(data, pos) <= fuel then FormatWalkAll(data, pos) else None
    decreases fuel
  {
    if fuel != 0 {
      match StepAt(data, pos)
      case Stop(_) =>
      case Advance(next) => CappedWalk(data, next, fuel - 1);
    }
  }

  // Encoding an extension area.

  datatype Extension = Extension(ty: u32, payload: seq<byte>) {
    predicate Valid() {
      ty != 0 && |payload| < U32_LIMIT
    }

    function Encode(): (e: seq<byte>)
      ensures |e| == 8 + RoundUp8(|payload|)
    {
      PaddedLength(|payload|);
      ToBE(ty, 4) + ToBE(|payload|, 4) + payload + seq((8 - |payload| % 8) % 8, _ => 0)
    }
  }

  lemma PaddedLength(n: nat)
    ensures n + (8 - n % 8) % 8 == RoundUp8(n)
  {
    if n % 8 == 0 {
      assert (n + 7) / 8 == n / 8;
    } else {
      assert (n + 7) / 8 == n / 8 + 1;
    }
  }

  function EncodeAll(exts: seq<Extension>): (s: seq<byte>)
    ensures |exts| * 8 <= |s|
  {
    if exts == [] then [] else exts[0].Encode() + EncodeAll(exts[1..])
  }

  /** The payload of the first backing-format record of a list */
  function FirstFormat(exts: seq<Extension>): Option<seq<byte>> {
    if exts == [] then None
    else if exts[0].ty == 0xE279_2ACA then Some(exts[0].payload)
    else FirstFormat(exts[1..])
  }

  function Clip(payload: Option<seq<byte>>): Option<seq<byte>> {
    match payload
    case None => None
    case Some(p) => Some(if |p| <= 4096 then p else p[..4096])
  }

  lemma RecordFields(pre: seq<byte>, e: Extension, rest: seq<byte>)
    requires e.Valid()
    ensures BeU32(pre + e.Encode() + rest, |pre|) == e.ty
    ensures BeU32(pre + e.Encode() + rest, |pre| + 4) == |e.payload|
  {
    var ty, len, pad := ToBE(e.ty, 4), ToBE(|e.payload|, 4), seq((8 - |e.payload| % 8) % 8, _ => 0);
    Pieces(pre, ty, len, e.payload, pad, rest);
    EncodedU32(pre, e.ty, len + (e.payload + pad + rest));
    assert |pre + ty| == |pre| + 4;
    EncodedU32(pre + ty, |e.payload|, e.payload + pad + rest);
  }

  lemma Pieces(pre: seq<byte>, a: seq<byte>, b: seq<byte>, c: seq<byte>, d: seq<byte>, rest: seq<byte>)
    ensures pre + (a + b + c + d) + rest == pre + a + (b + (c + d + rest))
    ensures pre + (a + b + c + d) + rest == (pre + a) + b + (c + d + rest)
  {
  }

  /** One encoded record is read back as itself. */
  lemma StepOverRecord(pre: seq<byte>, e: Extension, rest: seq<byte>)
    requires e.Valid()
    ensures
      var data := pre + e.Encode() + rest;
      StepAt(data, |pre|) ==
        if e.ty == EXT_BACKING_FORMAT then Stop(Clip(Some(e.payload)))
        else if rest == [] then Stop(None)
        else Advance(|pre| + |e.Encode()|)
  {
    var data := pre + e.Encode() + rest;
    RecordFields(pre, e, rest);
    if e.ty == EXT_BACKING_FORMAT {
      PayloadInPlace(pre, e, rest);
      StepAtFormat(data, |pre|, e.payload);
    } else {
      StepAtOther(data, |pre|, |e.payload|);
    }
  }

  lemma PayloadInPlace(pre: seq<byte>, e: Extension, rest: seq<byte>)
    ensures
      var data, body := pre + e.Encode() + rest, |pre| + 8;
      body + |e.payload| <= |data| && data[body..body + |e.payload|] == e.payload
  {
  }

  lemma StepAtFormat(data: seq<byte>, pos: nat, payload: seq<byte>)
    requires BeU32(data, pos) == EXT_BACKING_FORMAT && BeU32(data, pos + 4) == |payload|
    requires pos + 8 + |payload| <= |data| && data[pos + 8..pos + 8 + |payload|] == payload
    ensures StepAt(data, pos) == Stop(Clip(Some(payload)))
  {
    var n, c := |payload|, Min(|payload|, MAX_BACKING_LEN);
    assert data[pos + 8..pos + 8 + c] == data[pos + 8..pos + 8 + n][..c];
  }

  lemma StepAtOther(data: seq<byte>, pos: nat, len: nat)
    requires BeU32(data, pos) != EXT_BACKING_FORMAT && BeU32(data, pos) != EXT_END && BeU32(data, pos + 4) == len
    requires pos + 8 + RoundUp8(len) <= |data|
    ensures StepAt(data, pos) ==
            if pos + 8 + RoundUp8(len) == |data| then Stop(None) else Advance(pos + 8 + RoundUp8(len))
  {
  }

  /** Walking an encoded area finds the first backing-format record among the first `fuel`. */
  lemma {:induction false} ExtensionRoundTrip(pre: seq<byte>, exts: seq<Extension>, tail: seq<byte>, fuel: nat)
    requires forall i :: 0 <= i < |exts| ==> exts[i].Valid()
    requires BeU32(tail, 0) == 0
    ensures FormatWalk(pre + EncodeAll(exts) + tail, |pre|, fuel) == Clip(FirstFormat(Take(exts, fuel)))
    decreases |exts|
  {
    if exts == [] {
      NoRecords(pre, exts, tail, fuel);
    } else if fuel == 0 {
      NoFuel(pre + EncodeAll(exts) + tail, |pre|, exts, fuel);
    } else {
      ExtensionRoundTrip(pre + exts[0].Encode(), exts[1..], tail, fuel - 1);
      FirstRecord(pre, exts, tail, fuel);
    }
  }

  lemma FirstRecord(pre: seq<byte>, exts: seq<Extension>, tail: seq<byte>, fuel: nat)
    requires exts != [] && fuel != 0 && exts[0].Valid()
    requires
      var after, more := pre + exts[0].Encode(), exts[1..];
      FormatWalk(after + EncodeAll(more) + tail, |after|, fuel - 1) == Clip(FirstFormat(Take(more, fuel - 1)))
    ensures FormatWalk(pre + EncodeAll(exts) + tail, |pre|, fuel) == Clip(FirstFormat(Take(exts, fuel)))
  {
    var e, more := exts[0], exts[1..];
    TakeFirst(exts, fuel);
    Regroup(pre, e.Encode(), EncodeAll(more), tail);
    WalkOverRecord(pre, e, EncodeAll(more) + tail, fuel);
  }

  lemma NoRecords(pre: seq<byte>, exts: seq<Extension>, tail: seq<byte>, fuel: nat)
    requires exts == [] && BeU32(tail, 0) == 0
    ensures FormatWalk(pre + EncodeAll(exts) + tail, |pre|, fuel) == Clip(FirstFormat(Take(exts, fuel)))
  {
    assert pre + EncodeAll(exts) + tail == pre + tail;
    EndOfRecords(pre, tail, fuel);
    assert Take(exts, fuel) == [];
  }

  lemma NoFuel(data: seq<byte>, pos: nat, exts: seq<Extension>, fuel: nat)
    requires fuel == 0
    ensures FormatWalk(data, pos, fuel) == Clip(FirstFormat(Take(exts, fuel)))
  {
    assert Take(exts, fuel) == [];
    assert FormatWalk(data, pos, fuel) == None;
  }

  lemma WalkOverRecord(pre: seq<byte>, e: Extension, rest: seq<byte>, fuel: nat)
    requires e.Valid() && fuel != 0
    ensures
      var data := pre + e.Encode() + rest;
      FormatWalk(data, |pre|, fuel) ==
        if e.ty == EXT_BACKING_FORMAT then Clip(Some(e.payload))
        else FormatWalk(data, |pre + e.Encode()|, fuel - 1)
  {
    StepOverRecord(pre, e, rest);
  }

  lemma TakeFirst(exts: seq<Extension>, fuel: nat)
    requires exts != [] && fuel != 0
    ensures FirstFormat(Take(exts, fuel)) ==
            if exts[0].ty == EXT_BACKING_FORMAT then Some(exts[0].payload)
            else FirstFormat(Take(exts[1..], fuel - 1))
  {
    assert Take(exts, fuel)[1..] == Take(exts[1..], fuel - 1);
  }

  lemma Regroup(pre: seq<byte>, a: seq<byte>, b: seq<byte>, tail: seq<byte>)
    ensures pre + (a + b) + tail == pre + a + (b + tail)
    ensures pre + (a + b) + tail == (pre + a) + b + tail
  {
  }

  lemma EndOfRecords(pre: seq<byte>, tail: seq<byte>, fuel: nat)
    requires BeU32(tail, 0) == 0
    ensures FormatWalk(pre + tail, |pre|, fuel) == None
  {
    assert |tail| >= 4 ==> (pre + tail)[|pre|..|pre| + 4] == tail[0..4];
  }

  function Take<T>(s: seq<T>, n: nat): seq<T> {
    if |s| <= n then s else s[..n]
  }

  /** The extension area starts right behind `pre`: at the header length of version 3, at 72 otherwise. */
  predicate HeaderEndsBehind(pre: seq<byte>, version: u32) {
    if version == 3 then 104 <= |pre| && BeU32(pre, 100) == |pre| else |pre| == MIN_HEADER_SIZE
  }

  /** The round trip at the level of a whole header, of either version. */
  lemma FormatNameRoundTrip(pre: seq<byte>, version: u32, exts: seq<Extension>, tail: seq<byte>, utf8: Utf8)
    requires HeaderEndsBehind(pre, version)
    requires forall i :: 0 <= i < |exts| ==> exts[i].Valid()
    requires BeU32(tail, 0) == 0
    ensures
      var found := FirstFormat(Take(exts, 64));
      FormatName(pre + EncodeAll(exts) + tail, version, utf8) ==
        match found
        case None => None
        case Some(p) => Some(utf8(if |p| <= 4096 then p else p[..4096]))
  {
    StartsBehind(pre, version, EncodeAll(exts), tail);
    ExtensionRoundTrip(pre, exts, tail, MAX_EXTENSIONS);
  }

  lemma StartsBehind(pre: seq<byte>, version: u32, area: seq<byte>, tail: seq<byte>)
    requires HeaderEndsBehind(pre, version)
    ensures ExtensionStart(pre + area + tail, version) == |pre|
  {
    if version == 3 {
      var data := pre + area + tail;
      assert data[..|pre|] == pre;
      PrefixU32(data, |pre|, 100);
    }
  }

  /** A backing-format record whose payload, up to the cap, is not all there stops the walk with nothing. */
  lemma CutFormat(pre: seq<byte>, len: u32, part: seq<byte>, fuel: nat)
    requires |part| < Min(len, 4096)
    ensures FormatWalk(pre + ToBE(0xE279_2ACA, 4) + ToBE(len, 4) + part, |pre|, fuel) == None
  {
    var data := pre + ToBE(0xE279_2ACA, 4) + ToBE(len, 4) + part;
    assert data == pre + ToBE(0xE279_2ACA, 4) + (ToBE(len, 4) + part);
    EncodedU32(pre, 0xE279_2ACA, ToBE(len, 4) + part);
    EncodedU32(pre + ToBE(0xE279_2ACA, 4), len, part);
    assert |pre + ToBE(0xE279_2ACA, 4)| == |pre| + 4;
    assert StepAt(data, |pre|) == Stop(None);
  }
}
