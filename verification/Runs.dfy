/** Whole runs of a reader: any sequence of seeks and reads, over any backing. */
module Runs {
  import opened Bits
  import opened Io
  import opened Mapping
  import opened Cursor
  import R = Reader

  /** How the backing and the build behave: whether the backing never fails, and whether arithmetic
      overflow panics. */
  datatype Setup = Setup(reliable: bool, checked: bool)

  /** One call: the relation that `Qcow2Reader.Read` and `Qcow2Reader.Seek` ensure. */
  ghost predicate Step(img: Image, setup: Setup, p: u64, op: Op, out: Outcome, q: u64)
    requires img.Valid()
  {
    match op
    case Read(len) => ReadStep(img, setup.reliable, p, len, out, q)
    case Seek(whence) => SeekStep(setup.checked, img.size, p, whence, out, q)
  }

  /** A run: `ops[i]` takes the cursor from `ps[i]` to `ps[i + 1]` with outcome `outs[i]`. */
  ghost predicate IsRun(img: Image, setup: Setup, ps: seq<u64>, ops: seq<Op>, outs: seq<Outcome>)
    requires img.Valid()
  {
    && |ps| == |ops| + 1 && |outs| == |ops|
    && forall i :: 0 <= i < |ops| ==> Step(img, setup, ps[i], ops[i], outs[i], ps[i + 1])
  }

  /** Any sequence of calls on a reader is a run: from its cursor, to its cursor. */
  method Perform(reader: R.Qcow2Reader, ops: seq<Op>) returns (ghost ps: seq<u64>, outs: seq<Outcome>)
    requires reader.Valid()
    modifies reader, reader.backing
    ensures IsRun(reader.image, Setup(reader.backing.reliable, reader.overflowChecks), ps, ops, outs)
    ensures ps[0] == old(reader.pos) && ps[|ops|] == reader.pos
  {
    ps, outs := [reader.pos], [];
    for i := 0 to |ops|
      invariant IsRun(reader.image, Setup(reader.backing.reliable, reader.overflowChecks), ps, ops[..i], outs)
      invariant ps[0] == old(reader.pos) && ps[i] == reader.pos
    {
      var out;
      match ops[i] {
        case Seek(whence) =>
          out := reader.Seek(whence);
        case Read(len) =>
          var buf := new byte[len](_ => 0);
          var n := reader.Read(buf, 0, len);
          out := if n.Some? then Data(buf[..n.value]) else Failed;
      }
      ps, outs := ps + [reader.pos], outs + [out];
    }
    assert ops[..|ops|] == ops;
  }

  /** The simple thing a reader stands for: a cursor over one fixed byte string.  A read returns a
      prefix of what is ahead, and nothing only at the end or for an empty buffer.  A seek goes where
      it was asked or refuses, and a build with overflow checks panics on relative requests from 2^63
      on. */
  ghost predicate IdealStep(guest: seq<byte>, checked: bool, p: nat, op: Op, out: Outcome, q: nat)
    requires |guest| < I64_LIMIT && p < I64_LIMIT && q < U64_LIMIT
  {
    match op
    case Seek(whence) =>
      if checked && !whence.Start? && Requested(|guest|, p, whence) >= I64_LIMIT then out == Panicked && q == p
      else ExactSeek(|guest|, p, whence, out, q)
    case Read(len) =>
      && out.Data?
      && q == p + |out.bytes|
      && |out.bytes| <= len
      && (out.bytes == [] || (q <= |guest| && out.bytes == guest[p..q]))
      && (out.bytes == [] <==> p >= |guest| || len == 0)
  }

  /** On a well-formed image and a reliable backing, each call from a signed position is an ideal
      step and ends at a signed position. */
  lemma StepIsIdeal(img: Image, checked: bool, p: u64, op: Op, out: Outcome, q: u64)
    requires WellFormed(img) && p < I64_LIMIT && Step(img, Setup(true, checked), p, op, out, q)
    ensures q < I64_LIMIT && IdealStep(Guest(img), checked, p, op, out, q)
  {
    match op {
      case Seek(whence) =>
        SeekIsExact(checked, img.size, p, whence, out, q);
      case Read(len) =>
        if p < img.size {
          assert Cells(img)(p).Byte?;
          if out.Data? && out.bytes != [] {
            var bs := out.bytes;
            forall i | 0 <= i < |bs| ensures bs[i] == Guest(img)[p..q][i] {
              assert Cells(img)(p + i) == Byte(bs[i]);
            }
            assert bs == Guest(img)[p..q];
          }
        }
    }
  }

  /** Run simulation: every run over a well-formed image, from any signed position, is step for step
      a run of the ideal cursor over the guest disk. */
  lemma {:induction false} RunSimulation(img: Image, checked: bool, ps: seq<u64>, ops: seq<Op>, outs: seq<Outcome>)
    requires WellFormed(img) && IsRun(img, Setup(true, checked), ps, ops, outs) && ps[0] < I64_LIMIT
    ensures forall i :: 0 <= i < |ps| ==> ps[i] < I64_LIMIT
    ensures forall i :: 0 <= i < |ops| ==> IdealStep(Guest(img), checked, ps[i], ops[i], outs[i], ps[i + 1])
    decreases |ops|
  {
    if ops != [] {
      StepIsIdeal(img, checked, ps[0], ops[0], outs[0], ps[1]);
      assert IsRun(img, Setup(true, checked), ps[1..], ops[1..], outs[1..]) by {
        forall i | 0 <= i < |ops[1..]|
          ensures Step(img, Setup(true, checked), ps[1..][i], ops[1..][i], outs[1..][i], ps[1..][i + 1])
        {
          assert Step(img, Setup(true, checked), ps[i + 1], ops[i + 1], outs[i + 1], ps[i + 2]);
        }
      }
      RunSimulation(img, checked, ps[1..], ops[1..], outs[1..]);
      forall i | 0 <= i < |ps| ensures ps[i] < I64_LIMIT {
        if i > 0 {
          assert ps[1..][i - 1] == ps[i];
        }
      }
      forall i | 0 <= i < |ops| ensures IdealStep(Guest(img), checked, ps[i], ops[i], outs[i], ps[i + 1]) {
        if i > 0 {
          assert ps[1..][i - 1] == ps[i] && ps[1..][i] == ps[i + 1];
          assert ops[1..][i - 1] == ops[i] && outs[1..][i - 1] == outs[i];
        }
      }
    }
  }

  /** Everything the successful reads of a run returned, in order */
  function Collected(outs: seq<Outcome>): seq<byte> {
    if outs == [] then []
    else (if outs[0].Data? then outs[0].bytes else []) + Collected(outs[1..])
  }

  /** Reading on without seeking reassembles the guest: on any image and any backing, the collected
      bytes are the cells from the first position to the last, none skipped and none repeated. */
  lemma {:induction false} ReadsReassemble(img: Image, setup: Setup, ps: seq<u64>, ops: seq<Op>, outs: seq<Outcome>)
    requires img.Valid() && IsRun(img, setup, ps, ops, outs)
    requires forall i :: 0 <= i < |ops| ==> ops[i].Read?
    ensures ps[|ops|] == ps[0] + |Collected(outs)|
    ensures Delivers(Cells(img), ps[0], Collected(outs))
    decreases |ops|
  {
    if ops != [] {
      assert Step(img, setup, ps[0], ops[0], outs[0], ps[1]);
      assert IsRun(img, setup, ps[1..], ops[1..], outs[1..]) by {
        forall i | 0 <= i < |ops[1..]|
          ensures Step(img, setup, ps[1..][i], ops[1..][i], outs[1..][i], ps[1..][i + 1])
        {
          assert Step(img, setup, ps[i + 1], ops[i + 1], outs[i + 1], ps[i + 2]);
        }
      }
      ReadsReassemble(img, setup, ps[1..], ops[1..], outs[1..]);
    }
  }

  /** Reading until an empty read with room in the buffer yields the rest of the guest disk. */
  lemma ReadToEnd(img: Image, checked: bool, ps: seq<u64>, ops: seq<Op>, outs: seq<Outcome>)
    requires WellFormed(img) && IsRun(img, Setup(true, checked), ps, ops, outs) && ps[0] <= img.size
    requires forall i :: 0 <= i < |ops| ==> ops[i].Read?
    requires |ops| > 0 && ops[|ops| - 1].len > 0 && outs[|ops| - 1] == Data([])
    ensures Collected(outs) == Guest(img)[ps[0]..]
  {
    var n, got := |ops|, Collected(outs);
    ReadsReassemble(img, Setup(true, checked), ps, ops, outs);
    RunSimulation(img, checked, ps, ops, outs);
    assert IdealStep(Guest(img), checked, ps[n - 1], ops[n - 1], outs[n - 1], ps[n]);
    EndIsDiskEnd(img, Setup(true, checked), ps, ops, outs, n);
    assert |got| == img.size - ps[0];
    forall i | 0 <= i < |got| ensures got[i] == Guest(img)[ps[0]..][i] {
      assert Cells(img)(ps[0] + i) == Byte(got[i]);
    }
  }

  /** Reading never moves the cursor past the end of the disk. */
  lemma {:induction false} EndIsDiskEnd(img: Image, setup: Setup, ps: seq<u64>, ops: seq<Op>, outs: seq<Outcome>,
                                        k: nat)
    requires img.Valid() && IsRun(img, setup, ps, ops, outs) && k <= |ops|
    requires forall i :: 0 <= i < |ops| ==> ops[i].Read?
    ensures ps[0] <= img.size ==> ps[k] <= img.size
  {
    if k != 0 {
      EndIsDiskEnd(img, setup, ps, ops, outs, k - 1);
      assert Step(img, setup, ps[k - 1], ops[k - 1], outs[k - 1], ps[k]);
    }
  }

  /** Reads never contradict each other: whatever the two runs, their backings' schedules and their
      failures, a guest offset that both deliver is delivered as the same byte. */
  lemma RunsAgree(img: Image,
                  s1: Setup, ps1: seq<u64>, ops1: seq<Op>, outs1: seq<Outcome>, i: nat,
                  s2: Setup, ps2: seq<u64>, ops2: seq<Op>, outs2: seq<Outcome>, j: nat,
                  off: nat)
    requires img.Valid() && IsRun(img, s1, ps1, ops1, outs1) && IsRun(img, s2, ps2, ops2, outs2)
    requires i < |ops1| && ops1[i].Read? && outs1[i].Data? && ps1[i] <= off < ps1[i] + |outs1[i].bytes|
    requires j < |ops2| && ops2[j].Read? && outs2[j].Data? && ps2[j] <= off < ps2[j] + |outs2[j].bytes|
    ensures outs1[i].bytes[off - ps1[i]] == outs2[j].bytes[off - ps2[j]]
  {
    assert Step(img, s1, ps1[i], ops1[i], outs1[i], ps1[i + 1]);
    assert Step(img, s2, ps2[j], ops2[j], outs2[j], ps2[j + 1]);
    assert Cells(img)(off) == Byte(outs1[i].bytes[off - ps1[i]]);
  }

  /** Reading in chunks until an empty read: on a well-formed image and a reliable backing this ends,
      with the rest of the guest disk in hand. */
  method ReadRest(reader: R.Qcow2Reader, chunk: nat) returns (got: seq<byte>)
    requires reader.Valid() && reader.backing.reliable && WellFormed(reader.image) && 0 < chunk
    requires reader.pos <= reader.image.size
    modifies reader, reader.backing
    ensures got == Guest(reader.image)[old(reader.pos)..] && reader.pos == reader.image.size
  {
    got := [];
    ghost var guest := Guest(reader.image);
    while true
      invariant old(reader.pos) <= reader.pos <= |guest|
      invariant got == guest[old(reader.pos)..reader.pos]
      decreases |guest| - reader.pos
    {
      ghost var p := reader.pos;
      var buf := new byte[chunk](_ => 0);
      var n := reader.Read(buf, 0, chunk);
      ghost var out := if n.Some? then Data(buf[..n.value]) else Failed;
      StepIsIdeal(reader.image, reader.overflowChecks, p, Read(chunk), out, reader.pos);
      if n.None? || n.value == 0 {
        return;
      }
      SlicesJoin(guest, old(reader.pos), p, reader.pos);
      got := got + buf[..n.value];
    }
  }

  lemma SlicesJoin(s: seq<byte>, a: nat, b: nat, c: nat)
    requires a <= b <= c <= |s|
    ensures s[a..b] + s[b..c] == s[a..c]
  {
  }
}
