/** Positioned reads over an open reader. */
module Vfs {
  import opened Bits
  import opened Io
  import opened Mapping
  import opened Reader
  import C = Cursor

  /** How many offsets from `off` on hold a byte, up to `want` */
  function FilledRun(cells: nat -> Cell, off: nat, want: nat): (k: nat)
    ensures k <= want
    decreases want
  {
    if want == 0 || !cells(off).Byte? then 0 else 1 + FilledRun(cells, off + 1, want - 1)
  }

  /** Where a run ends well: filled, or cut off by the end of the file inside a data cluster.  A run
      that meets a fault has no length. */
  function RunLength(cells: nat -> Cell, off: nat, want: nat): Option<nat> {
    var k := FilledRun(cells, off, want);
    if k == want || cells(off + k) == HostEof then Some(k) else None
  }

  /** What a positioned read on a disk of `size` bytes yields, as a function of its cells alone */
  function PositionedRead(cells: nat -> Cell, size: nat, offset: nat, len: nat): Option<nat> {
    if offset >= size then Some(0)
    else if offset >= I64_LIMIT then None
    else RunLength(cells, offset, Min(len, size - offset))
  }

  /** A correct answer to a positioned read of `len` bytes: a success delivers exactly the bytes the
      image determines, and a reliable backing fails only where the image determines failure. */
  ghost predicate Answers(cells: nat -> Cell, size: nat, reliable: bool, offset: nat, len: nat,
                          out: Option<seq<byte>>)
  {
    match out
    case Some(bs) => PositionedRead(cells, size, offset, len) == Some(|bs|) && C.Delivers(cells, offset, bs)
    case None => reliable ==> PositionedRead(cells, size, offset, len) == None
  }

  class Qcow2Source {
    const inner: Qcow2Reader
    const len: u64

    ghost predicate Valid() {
      inner.Valid() && len == inner.virtualDiskSize
    }

    constructor (reader: Qcow2Reader)
      requires reader.Valid()
      ensures Valid() && inner == reader
    {
      inner, len := reader, reader.virtualDiskSize;
    }

    /** A positioned read answers correctly for every schedule of short reads and wherever the
        cursor was before, and leaves the buffer alone past the disk's end. */
    method ReadAt(offset: u64, buf: array<byte>) returns (r: Option<nat>)
      requires Valid()
      modifies inner, inner.backing, buf
      ensures r.Some? ==> r.value <= buf.Length
      ensures Answers(Cells(inner.image), len, inner.backing.reliable, offset, buf.Length,
                      if r.None? then None else Some(buf[..r.value]))
      ensures offset < len ==> forall k :: len - offset <= k < buf.Length ==> buf[k] == old(buf[k])
    {
      var avail := if len > offset then len - offset else 0;
      if avail == 0 {
        AnswerPastEnd(Cells(inner.image), len, inner.backing.reliable, offset, buf.Length);
        assert buf[..0] == [];
        return Some(0);
      }
      var want := Min(buf.Length, avail);
      ghost var was := inner.pos;
      var at := inner.Seek(C.Start(offset));
      C.StartIsExact(inner.overflowChecks, len, was, offset, at, inner.pos);
      if !at.Moved? {
        return None;
      }
      r := Fill(offset, buf, want);
    }

    /** One round of the loop: read behind the `total` bytes that are there. */
    method ReadMore(ghost offset: u64, buf: array<byte>, total: nat, want: nat) returns (n: Option<nat>)
      requires Valid() && total < want <= buf.Length && offset + want <= len && inner.pos == offset + total
      requires C.Delivers(Cells(inner.image), offset, buf[..total])
      modifies inner, inner.backing, buf
      ensures n.Some? ==>
        && n.value <= want - total && inner.pos == offset + (total + n.value)
        && C.Delivers(Cells(inner.image), offset, buf[..total + n.value])
        && (n.value == 0 ==> Cells(inner.image)(offset + total) == HostEof)
      ensures n.None? && inner.backing.reliable ==> Cells(inner.image)(offset + total) == Fault
      ensures forall k :: 0 <= k < buf.Length && !(total <= k < want) ==> buf[k] == old(buf[k])
    {
      ghost var before := buf[..total];
      n := inner.Read(buf, total, want);
      assert buf[..total] == before;
      if n.Some? {
        C.DeliversMore(Cells(inner.image), offset, before, buf[total..total + n.value]);
        assert buf[..total + n.value] == before + buf[total..total + n.value];
      }
    }

    /** The loop: read on from `offset` until `want` bytes are in the buffer or a read comes back empty. */
    method Fill(ghost offset: u64, buf: array<byte>, want: nat) returns (r: Option<nat>)
      requires Valid() && inner.pos == offset < len && offset < I64_LIMIT
      requires want == Min(buf.Length, len - offset)
      modifies inner, inner.backing, buf
      ensures r.Some? ==> r.value <= buf.Length
      ensures Answers(Cells(inner.image), len, inner.backing.reliable, offset, buf.Length,
                      if r.None? then None else Some(buf[..r.value]))
      ensures forall k :: want <= k < buf.Length ==> buf[k] == old(buf[k])
    {
      var total := 0;
      while total < want
        invariant 0 <= total <= want
        invariant inner.pos == offset + total
        invariant C.Delivers(Cells(inner.image), offset, buf[..total])
        invariant forall k :: want <= k < buf.Length ==> buf[k] == old(buf[k])
      {
        ghost var before := buf[..total];
        assert |before| == total;
        var n := ReadMore(offset, buf, total, want);
        assert buf[..total] == before;
        if n.None? {
          AnswerFault(Cells(inner.image), len, inner.backing.reliable, offset, buf.Length, before);
          return None;
        }
        if n.value == 0 {
          AnswerCutOff(Cells(inner.image), len, inner.backing.reliable, offset, buf.Length, before);
          return Some(total);
        }
        total := total + n.value;
      }
      AnswerFull(Cells(inner.image), len, inner.backing.reliable, offset, buf.Length, buf[..total]);
      return Some(total);
    }
  }

  lemma AnswerPastEnd(cells: nat -> Cell, size: nat, reliable: bool, offset: nat, len: nat)
    requires offset >= size
    ensures Answers(cells, size, reliable, offset, len, Some([]))
  {
  }

  lemma AnswerFull(cells: nat -> Cell, size: nat, reliable: bool, offset: nat, len: nat, bs: seq<byte>)
    requires offset < size && offset < I64_LIMIT
    requires |bs| == Min(len, size - offset) && C.Delivers(cells, offset, bs)
    ensures Answers(cells, size, reliable, offset, len, Some(bs))
  {
    RunEndsAt(cells, offset, |bs|, |bs|);
  }

  lemma AnswerCutOff(cells: nat -> Cell, size: nat, reliable: bool, offset: nat, len: nat, bs: seq<byte>)
    requires offset < size && offset < I64_LIMIT
    requires |bs| < Min(len, size - offset) && C.Delivers(cells, offset, bs)
    requires cells(offset + |bs|) == HostEof
    ensures Answers(cells, size, reliable, offset, len, Some(bs))
  {
    RunEndsAt(cells, offset, Min(len, size - offset), |bs|);
  }

  lemma AnswerFault(cells: nat -> Cell, size: nat, reliable: bool, offset: nat, len: nat, bs: seq<byte>)
    requires offset < size && offset < I64_LIMIT
    requires |bs| < Min(len, size - offset) && C.Delivers(cells, offset, bs)
    requires reliable ==> cells(offset + |bs|) == Fault
    ensures Answers(cells, size, reliable, offset, len, None)
  {
    if reliable {
      RunEndsAt(cells, offset, Min(len, size - offset), |bs|);
    }
  }

  /** A run of bytes that cannot be extended is the filled run. */
  lemma {:induction false} RunEndsAt(cells: nat -> Cell, off: nat, want: nat, k: nat)
    requires k <= want
    requires forall j :: off <= j < off + k ==> cells(j).Byte?
    ensures k <= FilledRun(cells, off, want)
    ensures k == want || !cells(off + k).Byte? ==> FilledRun(cells, off, want) == k
    decreases k
  {
    if k != 0 {
      assert cells(off).Byte?;
      RunEndsAt(cells, off + 1, want - 1, k - 1);
    }
  }

  /** What a positioned read yields, read off the cells: `n` bytes, then the end of the request or a hole
      in the file; nothing at all past the disk's end. */
  lemma PositionedReadMeans(cells: nat -> Cell, size: nat, offset: nat, len: nat, n: nat)
    ensures PositionedRead(cells, size, offset, len) == Some(n) <==>
            if offset >= size then n == 0
            else
              && offset < 0x8000_0000_0000_0000
              && n <= len && offset + n <= size
              && (forall j :: offset <= j < offset + n ==> cells(j).Byte?)
              && (n == len || offset + n == size || cells(offset + n) == HostEof)
  {
    if offset < size {
      RunMeans(cells, offset, Min(len, size - offset), n);
    }
  }

  lemma RunMeans(cells: nat -> Cell, off: nat, want: nat, n: nat)
    ensures RunLength(cells, off, want) == Some(n) <==>
            && n <= want && (forall j :: off <= j < off + n ==> cells(j).Byte?)
            && (n == want || cells(off + n) == HostEof)
  {
    RunIsBytes(cells, off, want);
    if n <= want && forall j :: off <= j < off + n ==> cells(j).Byte? {
      RunEndsAt(cells, off, want, n);
    }
  }

  lemma {:induction false} RunIsBytes(cells: nat -> Cell, off: nat, want: nat)
    ensures forall j :: off <= j < off + FilledRun(cells, off, want) ==> cells(j).Byte?
    decreases want
  {
    if want != 0 && cells(off).Byte? {
      RunIsBytes(cells, off + 1, want - 1);
    }
  }

  /** On a well-formed image a positioned read always succeeds, in full up to the disk's end, and
      delivers that slice of the guest disk. */
  lemma WellFormedReadsFull(img: Image, offset: nat, len: nat, out: Option<seq<byte>>)
    requires WellFormed(img) && Answers(Cells(img), img.size, true, offset, len, out)
    ensures out == Some(if offset >= img.size then []
                        else Guest(img)[offset..offset + Min(len, img.size - offset)])
  {
    FullDiskReadsFull(Cells(img), Guest(img), offset, len, out);
  }

  lemma FullDiskReadsFull(cells: nat -> Cell, disk: seq<byte>, offset: nat, len: nat, out: Option<seq<byte>>)
    requires |disk| < I64_LIMIT && C.Delivers(cells, 0, disk)
    requires Answers(cells, |disk|, true, offset, len, out)
    ensures out == Some(if offset >= |disk| then []
                        else disk[offset..offset + Min(len, |disk| - offset)])
  {
    if offset < |disk| {
      var want := Min(len, |disk| - offset);
      RunEndsAt(cells, offset, want, want);
      forall i | 0 <= i < want ensures out.value[i] == disk[offset..offset + want][i] {
        assert cells(offset + i) == Byte(out.value[i]);
      }
      assert out.value == disk[offset..offset + want];
    } else {
      assert out.value == [];
    }
  }

  lemma {:induction false} FilledRunSplits(cells: nat -> Cell, off: nat, a: nat, b: nat)
    requires FilledRun(cells, off, a) == a
    ensures FilledRun(cells, off, a + b) == a + FilledRun(cells, off + a, b)
    decreases a
  {
    if a != 0 {
      FilledRunSplits(cells, off + 1, a - 1, b);
    }
  }

  /** Positioned reads compose: after a full read of `a` bytes, reading `b` more from where it ended
      succeeds exactly when one read of `a + b` does, and the lengths add up.  The one exception is a
      position inside the disk that no seek reaches: there the second read is refused. */
  lemma ReadsCompose(cells: nat -> Cell, size: nat, offset: nat, a: nat, b: nat)
    requires PositionedRead(cells, size, offset, a) == Some(a)
    ensures PositionedRead(cells, size, offset + a, b) ==
            if I64_LIMIT <= offset + a < size then None
            else if PositionedRead(cells, size, offset, a + b).None? then None
            else Some(PositionedRead(cells, size, offset, a + b).value - a)
    ensures offset + a < I64_LIMIT || size <= offset + a ==>
      PositionedRead(cells, size, offset, a + b) ==
        match PositionedRead(cells, size, offset + a, b)
        case None => None
        case Some(n) => Some(a + n)
  {
    if offset < size {
      assert a <= size - offset;
      if offset + a < I64_LIMIT || offset + a == size {
        LengthsAdd(cells, offset, a, Min(b, size - (offset + a)));
        assert Min(a + b, size - offset) == a + Min(b, size - (offset + a));
      }
    }
  }

  lemma LengthsAdd(cells: nat -> Cell, offset: nat, a: nat, want: nat)
    requires FilledRun(cells, offset, a) == a
    ensures RunLength(cells, offset, a + want) ==
            match RunLength(cells, offset + a, want)
            case None => None
            case Some(n) => Some(a + n)
    ensures RunLength(cells, offset + a, 0) == Some(0)
  {
    FilledRunSplits(cells, offset, a, want);
    var k := FilledRun(cells, offset + a, want);
    assert offset + (a + k) == offset + a + k;
  }
}
