/** What one call on a reader may do: the transition relation over cursor positions that every
    `Read` and `Seek` call obeys, whatever the backing delivers per read. */
module Cursor {
  import opened Bits
  import opened Bytes
  import opened Io
  import opened Mapping

  type i64 = x: int | IsI64(x)

  predicate IsI64(x: int) {
    -0x8000_0000_0000_0000 <= x < 0x8000_0000_0000_0000
  }

  datatype SeekFrom = Start(n: u64) | Current(d: i64) | End(d: i64)

  datatype Op = Read(len: nat) | Seek(whence: SeekFrom)

  /** What a call came to; `Panicked` is an arithmetic overflow caught by a build that checks for it. */
  datatype Outcome = Data(bytes: seq<byte>) | Moved(to: u64) | Failed | Panicked

  /** The longest run a read at `p` may deliver: it stops at the buffer's end, at the disk's end
      and at the end of the cluster. */
  function ReadLimit(img: Image, p: nat, len: nat): nat
    requires img.Valid()
  {
    if p >= img.size then 0
    else Min(Min(len, img.size - p), img.ClusterSize() - Mod(p, img.ClusterSize()))
  }

  /** `n` bytes from `p` on fit the buffer, the disk and the cluster that holds `p`. */
  predicate FitsRead(img: Image, p: nat, len: nat, n: nat) {
    && n <= len && p + n <= img.size
    && (n != 0 ==> Div(p + n - 1, img.ClusterSize()) == Div(p, img.ClusterSize()))
  }

  /** The limit is the largest number of bytes that fit. */
  lemma ReadLimitIsLargest(img: Image, p: nat, len: nat, n: nat)
    requires img.Valid() && p < img.size
    ensures FitsRead(img, p, len, n) <==> n <= ReadLimit(img, p, len)
  {
    if n != 0 {
      StaysInCluster(p, img.ClusterSize(), n);
    }
  }

  lemma StaysInCluster(p: nat, c: nat, n: nat)
    requires 0 < c && 0 < n
    ensures Div(p + n - 1, c) == Div(p, c) <==> n <= c - Mod(p, c)
  {
    var q, r := Div(p, c), Mod(p, c);
    var x, q' := p + n - 1, Div(p + n - 1, c);
    assert p == q * c + r && x == q' * c + Mod(x, c);
    if r + n - 1 < c {
      DivModUnique(x, c, q, r + n - 1);
    }
  }

  /** The bytes held by the cells from `p` on */
  ghost predicate Delivers(cells: nat -> Cell, p: nat, bs: seq<byte>) {
    forall j :: p <= j < p + |bs| ==> cells(j) == Byte(bs[j - p])
  }

  lemma DeliversMore(cells: nat -> Cell, p: nat, a: seq<byte>, b: seq<byte>)
    requires Delivers(cells, p, a) && Delivers(cells, p + |a|, b)
    ensures Delivers(cells, p, a + b)
  {
  }

  /** A read delivers guest bytes from the cursor on and moves past them.  Only a data cluster may
      fall short of the limit, and it delivers nothing only where the file has ended.  A failed
      read leaves the cursor; on a reliable backing it means the cell at the cursor is a fault. */
  ghost predicate ReadStep(img: Image, reliable: bool, p: nat, len: nat, out: Outcome, q: nat)
    requires img.Valid()
  {
    match out
    case Data(bs) =>
      && q == p + |bs|
      && |bs| <= ReadLimit(img, p, len)
      && Delivers(Cells(img), p, bs)
      && (|bs| == 0 && ReadLimit(img, p, len) > 0 ==> Cells(img)(p) == HostEof)
      && (|bs| < ReadLimit(img, p, len) ==> Resolve(img, p).Some? && Resolve(img, p).value.Normal?)
    case Failed =>
      && q == p
      && ReadLimit(img, p, len) > 0
      && (reliable ==> Cells(img)(p) == Fault)
    case _ => false
  }

  /** `x as i64` and two's-complement addition: the value modulo 2^64 in the signed range */
  function Wrap(x: int): i64 {
    var m := x % U64_LIMIT;
    if m < I64_LIMIT then m else m - U64_LIMIT
  }

  /** The sum a seek forms from two signed words; `Start` only casts. */
  function SignedSum(size: u64, p: u64, whence: SeekFrom): int {
    match whence
    case Start(n) => Wrap(n)
    case Current(d) => Wrap(p) + d
    case End(d) => Wrap(size) + d
  }

  /** The sum does not fit a signed word: a build with overflow checks panics, one without wraps. */
  predicate Overflows(size: u64, p: u64, whence: SeekFrom) {
    !IsI64(SignedSum(size, p, whence))
  }

  /** What a seek does, in a build with overflow checks or one without */
  predicate SeekStep(checked: bool, size: u64, p: u64, whence: SeekFrom, out: Outcome, q: u64) {
    var target := Wrap(SignedSum(size, p, whence));
    if checked && Overflows(size, p, whence) then out == Panicked && q == p
    else if target < 0 then out == Failed && q == p
    else out == Moved(target) && q == target
  }

  /** The position a seek asks for, as a number */
  function Requested(size: u64, p: u64, whence: SeekFrom): int {
    match whence
    case Start(n) => n
    case Current(d) => p + d
    case End(d) => size + d
  }

  /** The position the request is relative to */
  function Base(size: u64, p: u64, whence: SeekFrom): u64 {
    match whence
    case Start(_) => 0
    case Current(_) => p
    case End(_) => size
  }

  /** A seek that goes where it was asked whenever that is a valid signed position, and refuses
      otherwise */
  predicate ExactSeek(size: u64, p: u64, whence: SeekFrom, out: Outcome, q: u64) {
    var r := Requested(size, p, whence);
    if 0 <= r < I64_LIMIT then out == Moved(r) && q == r else out == Failed && q == p
  }

  /** The sum overflows exactly when a relative request crosses 2^63 in either direction. */
  lemma OverflowCrossesSignBit(size: u64, p: u64, whence: SeekFrom)
    ensures
      var x, r := Base(size, p, whence), Requested(size, p, whence);
      Overflows(size, p, whence) <==>
        !whence.Start? && (x < I64_LIMIT <= r || r < I64_LIMIT <= x)
  {
  }

  /** Without overflow checks the seek is exact precisely for requests below 2^64: from there on the
      signed words lose a multiple of 2^64 and the cursor lands near the start of the disk. */
  lemma WrappingSeekIsExact(size: u64, p: u64, whence: SeekFrom, out: Outcome, q: u64)
    requires SeekStep(false, size, p, whence, out, q)
    ensures ExactSeek(size, p, whence, out, q) <==> Requested(size, p, whence) < U64_LIMIT
    ensures Requested(size, p, whence) >= U64_LIMIT ==>
      out == Moved(Requested(size, p, whence) - U64_LIMIT)
  {
    WrapSum(size, p, whence);
    WrapByRange(Requested(size, p, whence));
  }

  /** Any build: the seek is exact precisely for requests that are below 2^64 and, where overflow is
      checked, do not cross 2^63.  A crossing request panics in a checked build; one from 2^64 on never
      crosses, and lands 2^64 too low in both. */
  lemma SeekIsExact(checked: bool, size: u64, p: u64, whence: SeekFrom, out: Outcome, q: u64)
    requires SeekStep(checked, size, p, whence, out, q)
    ensures
      var x, r := Base(size, p, whence), Requested(size, p, whence);
      var crosses := !whence.Start? && (x < I64_LIMIT <= r || r < I64_LIMIT <= x);
      && (ExactSeek(size, p, whence, out, q) <==> r < U64_LIMIT && !(checked && crosses))
      && (out == Panicked <==> checked && crosses)
      && (out == Panicked ==> q == p && r < U64_LIMIT)
      && (r >= U64_LIMIT ==> !crosses && out == Moved(r - U64_LIMIT))
  {
    OverflowCrossesSignBit(size, p, whence);
    if !(checked && Overflows(size, p, whence)) {
      WrappingSeekIsExact(size, p, whence, out, q);
    }
  }

  /** An absolute seek is exact in every build. */
  lemma StartIsExact(checked: bool, size: u64, p: u64, n: u64, out: Outcome, q: u64)
    requires SeekStep(checked, size, p, Start(n), out, q)
    ensures if n < I64_LIMIT then out == Moved(n) && q == n else out == Failed && q == p
  {
    SeekIsExact(checked, size, p, Start(n), out, q);
  }

  lemma WrapByRange(r: int)
    requires 0 <= r + I64_LIMIT && r < U64_LIMIT + I64_LIMIT
    ensures Wrap(r) == if r < I64_LIMIT then r else r - U64_LIMIT
  {
    if r < 0 {
      assert r % U64_LIMIT == r + U64_LIMIT;
    } else if r < U64_LIMIT {
      assert r % U64_LIMIT == r;
    } else {
      assert r % U64_LIMIT == r - U64_LIMIT;
    }
  }

  lemma WrapSum(size: u64, p: u64, whence: SeekFrom)
    ensures Wrap(SignedSum(size, p, whence)) == Wrap(Requested(size, p, whence))
  {
    match whence
    case Start(n) => WrapAgain(n, 0);
    case Current(d) => WrapAgain(p, d);
    case End(d) => WrapAgain(size, d);
  }

  lemma WrapAgain(x: u64, d: i64)
    ensures Wrap(Wrap(x) + d) == Wrap(x + d)
  {
    if x >= I64_LIMIT {
      OneTurn(x + d);
    }
  }

  lemma OneTurn(y: int)
    ensures (y - U64_LIMIT) % U64_LIMIT == y % U64_LIMIT
  {
  }

  /** The wrap is real, in every build: one byte past the end of a disk of 2^64 - 1 bytes is byte 0. */
  lemma SeekPastHugeDiskWraps(checked: bool)
    ensures SeekStep(checked, U64_LIMIT - 1, 0, End(1), Moved(0), 0)
    ensures !ExactSeek(U64_LIMIT - 1, 0, End(1), Moved(0), 0)
  {
  }

  /** So is the panic: from position 1, asking for 2^63 is refused by one build and panics in the
      other. */
  lemma CheckedSeekPanics(size: u64)
    ensures SeekStep(true, size, 1, Current(I64_LIMIT - 1), Panicked, 1)
    ensures SeekStep(false, size, 1, Current(I64_LIMIT - 1), Failed, 1)
  {
  }
}
