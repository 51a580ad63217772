/** The byte sources the program reads from. */
module Io {
  import opened Bits
  import opened Bytes

  datatype Option<+T> = None | Some(value: T)

  datatype Result<+T, +E> = Ok(value: T) | Err(error: E)

  /** The program's error type; `Io` stands for every operating-system error. */
  datatype Qcow2Error =
    | Io
    | BadMagic
    | UnsupportedVersion(version: u32)
    | EncryptedNotSupported
    | BackingFileNotSupported
    | UnsupportedIncompatibleFeatures(bits: u64)
    | FileTooSmall
    | ClusterBitsOutOfRange(clusterBits: u32)
    | L1TableTooLarge(entries: u32)

  /** An arbitrary seekable source.  A read may deliver any nonzero number of the bytes it was
      asked for, and delivers none only for an empty buffer or at the end.  A source that is not
      `reliable` may fail any call. */
  class Backing {
    const bytes: seq<byte>
    const seekLimit: u64 // the largest absolute position a seek accepts
    const reliable: bool
    var cursor: nat

    ghost predicate Valid() {
      |bytes| <= seekLimit && |bytes| < I64_LIMIT
    }

    constructor (bytes: seq<byte>, seekLimit: u64, reliable: bool)
      requires |bytes| <= seekLimit && |bytes| < I64_LIMIT
      ensures Valid() && cursor == 0
      ensures this.bytes == bytes && this.seekLimit == seekLimit && this.reliable == reliable
    {
      this.bytes, this.seekLimit, this.reliable := bytes, seekLimit, reliable;
      cursor := 0;
    }

    method Seek(pos: u64) returns (ok: bool)
      requires Valid()
      modifies this
      ensures ok ==> pos <= seekLimit && cursor == pos
      ensures !ok ==> cursor == old(cursor)
      ensures reliable ==> (ok <==> pos <= seekLimit)
    {
      var fails: bool := *;
      if pos > seekLimit || (fails && !reliable) {
        return false;
      }
      cursor := pos;
      return true;
    }

    method Read(buf: array<byte>, lo: nat, hi: nat) returns (r: Option<nat>)
      requires Valid() && lo <= hi <= buf.Length
      modifies this, buf
      ensures r.Some? ==>
        && r.value <= hi - lo
        && cursor == old(cursor) + r.value
        && (r.value == 0 <==> lo == hi || old(cursor) >= |bytes|)
        && (r.value > 0 ==> cursor <= |bytes|)
        && (forall k :: lo <= k < lo + r.value ==> buf[k] == bytes[old(cursor) + k - lo])
        && (forall k :: 0 <= k < buf.Length && !(lo <= k < lo + r.value) ==> buf[k] == old(buf[k]))
      ensures r.None? ==> !reliable && cursor == old(cursor) && buf[..] == old(buf[..])
    {
      var fails: bool := *;
      if fails && !reliable {
        return None;
      }
      if lo == hi || cursor >= |bytes| {
        return Some(0);
      }
      var n: nat :| 1 <= n <= hi - lo && n <= |bytes| - cursor;
      forall k | lo <= k < lo + n {
        buf[k] := bytes[cursor + k - lo];
      }
      cursor := cursor + n;
      return Some(n);
    }

    /** `Read::read_exact`: read until the buffer is full, failing at the end of the source. */
    method ReadExact(buf: array<byte>) returns (ok: bool)
      requires Valid()
      modifies this, buf
      ensures ok ==>
        && (buf.Length == 0 || old(cursor) + buf.Length <= |bytes|)
        && cursor == old(cursor) + buf.Length
        && buf[..] == Window(bytes, old(cursor), buf.Length)
      ensures reliable ==> (ok <==> buf.Length == 0 || old(cursor) + buf.Length <= |bytes|)
    {
      var filled := ReadWindow(buf);
      if filled.None? || filled.value < buf.Length {
        return false;
      }
      return true;
    }

    /** Read until the buffer is full or the source ends; short reads are no obstacle. */
    method ReadWindow(buf: array<byte>) returns (r: Option<nat>)
      requires Valid()
      modifies this, buf
      ensures reliable ==> r.Some?
      ensures r.Some? ==>
        && r.value <= buf.Length
        && buf[..r.value] == Window(bytes, old(cursor), buf.Length)
        && cursor == old(cursor) + r.value
    {
      var filled := 0;
      while filled < buf.Length
        invariant 0 <= filled <= buf.Length
        invariant cursor == old(cursor) + filled
        invariant filled > 0 ==> cursor <= |bytes|
        invariant forall k :: 0 <= k < filled ==> buf[k] == bytes[old(cursor) + k]
      {
        var n := Read(buf, filled, buf.Length);
        match n {
          case None => return None;
          case Some(n) =>
            if n == 0 {
              break;
            }
            filled := filled + n;
        }
      }
      return Some(filled);
    }
  }

  /** An ordinary file opened by path: a read delivers everything up to the buffer's length or
      the end of the file, and only the end of the file or an unacceptable position fails. */
  class RegularFile {
    const bytes: seq<byte>
    const seekLimit: u64
    var cursor: nat

    ghost predicate Valid() {
      |bytes| <= seekLimit < I64_LIMIT
    }

    constructor (bytes: seq<byte>, seekLimit: u64)
      requires |bytes| <= seekLimit < I64_LIMIT
      ensures Valid() && cursor == 0 && this.bytes == bytes && this.seekLimit == seekLimit
    {
      this.bytes, this.seekLimit := bytes, seekLimit;
      cursor := 0;
    }

    method Seek(pos: u64) returns (ok: bool)
      requires Valid()
      modifies this
      ensures ok <==> pos <= seekLimit
      ensures cursor == if ok then pos else old(cursor)
    {
      ok := pos <= seekLimit;
      if ok {
        cursor := pos;
      }
    }

    method Read(n: nat) returns (s: seq<byte>)
      requires Valid()
      modifies this
      ensures s == Window(bytes, old(cursor), n) && cursor == old(cursor) + |s|
    {
      s := Window(bytes, cursor, n);
      cursor := cursor + |s|;
    }

    method ReadExact(n: nat) returns (s: Option<seq<byte>>)
      requires Valid()
      modifies this
      ensures s.Some? <==> n == 0 || old(cursor) + n <= |bytes|
      ensures s.Some? ==> |s.value| == n && s.value == Window(bytes, old(cursor), n)
      ensures s.Some? ==> cursor == old(cursor) + n
    {
      var got := Read(n);
      return if |got| == n then Some(got) else None;
    }
  }
}
