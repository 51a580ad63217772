/** Refcounts packed into blocks, as fields of one bit string.

    Read a byte string as its bits, the most significant bit of each byte first.  Then a refcount of
    any width from 1 to 64 bits is the field at a multiple of its width: the multi-byte widths are
    big-endian, and the sub-byte widths fill each byte from its high end. */
module Packing {
  import opened Bits
  import opened Bytes
  import opened Io

  function BitAt(bytes: seq<byte>, i: nat): (b: nat)
    requires i < 8 * |bytes|
  {
    Field(bytes[i / 8], 7 - i % 8, 8 - i % 8)
  }

  /** The bits `lo..hi` as a number, first bit most significant */
  function FieldValue(bytes: seq<byte>, lo: nat, hi: nat): nat
    requires lo <= hi <= 8 * |bytes|
    decreases hi - lo
  {
    if lo == hi then 0 else 2 * FieldValue(bytes, lo, hi - 1) + BitAt(bytes, hi - 1)
  }

  /** A field depends on its own bits only. */
  lemma {:induction false} SameBitsSameField(a: seq<byte>, b: seq<byte>, lo: nat, hi: nat)
    requires lo <= hi <= 8 * |a| && hi <= 8 * |b|
    requires forall i :: lo <= i < hi ==> BitAt(a, i) == BitAt(b, i)
    ensures FieldValue(a, lo, hi) == FieldValue(b, lo, hi)
    decreases hi - lo
  {
    if lo != hi {
      SameBitsSameField(a, b, lo, hi - 1);
    }
  }

  lemma {:induction false} FieldConcat(bytes: seq<byte>, lo: nat, mid: nat, hi: nat)
    requires lo <= mid <= hi <= 8 * |bytes|
    ensures FieldValue(bytes, lo, hi) == FieldValue(bytes, lo, mid) * Pow2(hi - mid) + FieldValue(bytes, mid, hi)
    decreases hi - mid
  {
    if mid != hi {
      FieldConcat(bytes, lo, mid, hi - 1);
      assert hi - mid - 1 == hi - 1 - mid;
      DoubleSum(FieldValue(bytes, lo, mid), Pow2(hi - 1 - mid), FieldValue(bytes, mid, hi - 1));
    }
  }

  lemma DoubleSum(f: nat, p: nat, g: nat)
    ensures 2 * (f * p + g) == f * (2 * p) + 2 * g
  {
  }

  /** A field inside one byte is that byte shifted down and masked. */
  lemma {:induction false} FieldInByte(bytes: seq<byte>, q: nat, i: nat, j: nat)
    requires q < |bytes| && i <= j <= 8
    ensures FieldValue(bytes, 8 * q + i, 8 * q + j) == Field(bytes[q], 8 - j, 8 - i)
    decreases j
  {
    if i == j {
      assert Pow2(0) == 1;
    } else {
      FieldInByte(bytes, q, i, j - 1);
      NextBit(bytes, q, i, j, 8 * q + i, 8 * q + j);
    }
  }

  lemma NextBit(bytes: seq<byte>, q: nat, i: nat, j: nat, lo: nat, hi: nat)
    requires q < |bytes| && i < j <= 8 && lo == 8 * q + i && hi == 8 * q + j
    requires FieldValue(bytes, lo, hi - 1) == Field(bytes[q], 9 - j, 8 - i)
    ensures FieldValue(bytes, lo, hi) == Field(bytes[q], 8 - j, 8 - i)
  {
    BitBelow(bytes[q], 8 - j, 8 - i);
    BitInByte(bytes, q, j - 1, hi - 1);
    assert 7 - (j - 1) == 8 - j && 8 - (j - 1) == 9 - j && 8 - j + 1 == 9 - j;
  }

  /** A field is its upper part doubled plus its lowest bit. */
  lemma BitBelow(b: byte, lo: nat, hi: nat)
    requires lo < hi
    ensures Field(b, lo, hi) == 2 * Field(b, lo + 1, hi) + Field(b, lo, lo + 1)
  {
    FieldSplit(b, lo, lo + 1, hi);
    assert lo + 1 - lo == 1 && Pow2(1) == 2;
  }

  lemma BitInByte(bytes: seq<byte>, q: nat, j: nat, bit: nat)
    requires q < |bytes| && j < 8 && bit == 8 * q + j
    ensures BitAt(bytes, bit) == Field(bytes[q], 7 - j, 8 - j)
  {
    assert bit / 8 == q && bit % 8 == j;
  }

  /** A field of whole bytes is their big-endian value. */
  lemma {:induction false} FieldOfBytes(bytes: seq<byte>, q: nat, n: nat)
    requires q + n <= |bytes|
    ensures FieldValue(bytes, 8 * q, 8 * (q + n)) == BE(bytes[q..q + n])
    decreases n
  {
    if n != 0 {
      var s := bytes[q..q + n];
      FieldOfBytes(bytes, q, n - 1);
      AppendByte(bytes, 8 * q, q + n - 1);
      assert s[..n - 1] == bytes[q..q + n - 1];
      assert BE(s) == BE(s[..n - 1]) * 256 + s[n - 1];
    }
  }

  lemma AppendByte(bytes: seq<byte>, lo: nat, q: nat)
    requires lo <= 8 * q && q < |bytes|
    ensures FieldValue(bytes, lo, 8 * (q + 1)) == FieldValue(bytes, lo, 8 * q) * 256 + bytes[q]
  {
    assert 8 * q + 8 == 8 * (q + 1) && 8 * (q + 1) - 8 * q == 8;
    FieldConcat(bytes, lo, 8 * q, 8 * q + 8);
    ByteField(bytes, q, 8 * q, 8 * q + 8);
    assert Pow2(8) == 256;
  }

  lemma ByteField(bytes: seq<byte>, q: nat, lo: nat, hi: nat)
    requires q < |bytes| && lo == 8 * q && hi == 8 * q + 8
    ensures FieldValue(bytes, lo, hi) == bytes[q]
  {
    FieldInByte(bytes, q, 0, 8);
    Pow2Small();
    DivModUnique(bytes[q], 256, 0, bytes[q]);
  }

  /** A width the format allows: 1, 2, 4, 8, 16, 32 or 64 bits */
  predicate IsWidth(width: nat) {
    width in {1, 2, 4, 8, 16, 32, 64}
  }

  lemma WidthOfOrder(order: nat)
    requires order <= 6
    ensures IsWidth(Pow2(order))
  {
    Pow2Small();
  }

  /** Overwrite the aligned field at `start`: whole big-endian bytes, or the field's bits inside its
      byte with the neighbours kept. */
  function Store(bytes: seq<byte>, start: nat, width: nat, v: nat): (r: seq<byte>)
    requires IsWidth(width) && start % width == 0 && start + width <= 8 * |bytes| && v < Pow2(width)
    ensures |r| == |bytes|
  {
    AlignedInByte(start, width);
    if width >= 8 then StoreWhole(bytes, start / 8, width / 8, v)
    else StorePacked(bytes, start / 8, start % 8, width, v)
  }

  function StoreWhole(bytes: seq<byte>, q: nat, n: nat, v: nat): (r: seq<byte>)
    requires q + n <= |bytes|
    ensures |r| == |bytes|
  {
    bytes[..q] + ToBE(v, n) + bytes[q + n..]
  }

  function StorePacked(bytes: seq<byte>, q: nat, within: nat, width: nat, v: nat): (r: seq<byte>)
    requires q < |bytes| && within + width <= 8 && v < Pow2(width)
    ensures |r| == |bytes|
  {
    bytes[q := WithField(bytes[q], 8 - within - width, width, v)]
  }

  /** A byte with the field of `width` bits above the lowest `shift` replaced */
  function WithField(b: byte, shift: nat, width: nat, v: nat): (r: byte)
    requires shift + width <= 8 && v < Pow2(width)
  {
    WithFieldBound(b, shift, width, v);
    Compose(Compose(Div(b, Pow2(shift + width)), Pow2(width), v), Pow2(shift), Mod(b, Pow2(shift)))
  }

  lemma WithFieldBound(b: byte, shift: nat, width: nat, v: nat)
    requires shift + width <= 8 && v < Pow2(width)
    ensures Compose(Compose(Div(b, Pow2(shift + width)), Pow2(width), v), Pow2(shift), Mod(b, Pow2(shift))) < 256
  {
    var top := Pow2(8 - shift - width);
    Pow2Small();
    Pow2Sum(shift + width, 8 - shift - width, Pow2(shift + width), top);
    Pow2Sum(shift, width, Pow2(shift), Pow2(width));
    assert shift + width + (8 - shift - width) == 8;
    QuotientBelow(b, Pow2(shift + width), top);
    PartsBelow(Div(b, Pow2(shift + width)), v, Mod(b, Pow2(shift)), top, Pow2(width), Pow2(shift));
  }

  lemma PartsBelow(high: nat, mid: nat, low: nat, top: nat, w: nat, p: nat)
    requires high < top && mid < w && low < p
    ensures Compose(Compose(high, w, mid), p, low) < p * w * top
  {
    MulBound(high, w, top);
    MulBound(Compose(high, w, mid), p, w * top);
    assert p * (w * top) == p * w * top;
  }

  lemma QuotientBelow(x: nat, d: nat, n: nat)
    requires 0 < d && x < d * n
    ensures Div(x, d) < n
  {
    var q := Div(x, d);
    if q >= n {
      MulMono(n, q, d);
    }
  }

  lemma WithFieldHolds(b: byte, shift: nat, width: nat, v: nat)
    requires shift + width <= 8 && v < Pow2(width)
    ensures Field(WithField(b, shift, width, v), shift, shift + width) == v
  {
    FieldOfDigits(Div(b, Pow2(shift + width)), v, Mod(b, Pow2(shift)), shift, width, shift + width);
  }

  /** Replacing a field leaves every bit outside it alone. */
  lemma WithFieldKeepsBits(b: byte, shift: nat, width: nat, v: nat, e: nat)
    requires shift + width <= 8 && v < Pow2(width) && e < 8 && !(shift <= e < shift + width)
    ensures Field(WithField(b, shift, width, v), e, e + 1) == Field(b, e, e + 1)
  {
    var r := WithField(b, shift, width, v);
    WithFieldParts(b, shift, width, v);
    if e < shift {
      BitOfLow(r, shift, e);
      BitOfLow(b, shift, e);
    } else {
      BitOfHigh(r, shift + width, e);
      BitOfHigh(b, shift + width, e);
    }
  }

  /** The parts below and above the replaced field are the old ones. */
  lemma WithFieldParts(b: byte, shift: nat, width: nat, v: nat)
    requires shift + width <= 8 && v < Pow2(width)
    ensures Mod(WithField(b, shift, width, v), Pow2(shift)) == Mod(b, Pow2(shift))
    ensures Div(WithField(b, shift, width, v), Pow2(shift + width)) == Div(b, Pow2(shift + width))
  {
    Pow2Add(shift, width);
    Recompose(Div(b, Pow2(shift + width)), v, Mod(b, Pow2(shift)), Pow2(shift), Pow2(width));
  }

  lemma Recompose(hi: nat, mid: nat, low: nat, p: nat, w: nat)
    requires low < p && mid < w
    ensures 0 < p * w
    ensures Mod(Compose(Compose(hi, w, mid), p, low), p) == low
    ensures Div(Compose(Compose(hi, w, mid), p, low), p * w) == hi
  {
    var upper := Compose(hi, w, mid);
    DivModOfCompose(upper, p, low);
    DivModOfCompose(hi, w, mid);
    ModSplit(Compose(upper, p, low), p, w);
  }

  lemma BitOfLow(x: nat, k: nat, e: nat)
    requires e < k
    ensures Field(x, e, e + 1) == Field(Mod(x, Pow2(k)), e, e + 1)
  {
    Pow2Add(e, 1);
    Pow2Add(e + 1, k - e - 1);
    assert e + 1 + (k - e - 1) == k && Pow2(1) == 2;
    LowDigit(x, Pow2(e), 2, Pow2(k - e - 1));
  }

  /** A digit of a number survives taking the number modulo anything above the digit. */
  lemma LowDigit(x: nat, p: nat, w: nat, q: nat)
    requires 0 < p && 0 < w && 0 < q
    ensures 0 < p * w * q
    ensures Mod(Div(x, p), w) == Mod(Div(Mod(x, p * w * q), p), w)
  {
    var mid, low := Mod(Div(x, p), w), Mod(x, p);
    ModSplit(x, p, w);
    ModSplit(x, p * w, q);
    var r := Mod(Div(x, p * w), q);
    DigitsTogether(r, mid, low, p, w);
    SumDigits(r, mid, low, p, w);
  }

  lemma DigitsTogether(r: nat, mid: nat, low: nat, p: nat, w: nat)
    ensures r * (p * w) + (mid * p + low) == Compose(Compose(r, w, mid), p, low)
  {
    assert r * (p * w) == r * w * p;
    assert (r * w + mid) * p == r * w * p + mid * p;
  }

  lemma BitOfHigh(x: nat, k: nat, e: nat)
    requires k <= e
    ensures Field(x, e, e + 1) == Field(Div(x, Pow2(k)), e - k, e - k + 1)
  {
    Pow2Add(k, e - k);
    ModSplit(x, Pow2(k), Pow2(e - k));
  }

  // Storing and reading back.

  /** Two different aligned fields have no bit in common. */
  lemma AlignedDisjoint(start: nat, other: nat, width: nat)
    requires 0 < width && start % width == 0 && other % width == 0
    ensures start == other || start + width <= other || other + width <= start
  {
    var a, b := start / width, other / width;
    assert start == a * width && other == b * width;
    if a < b {
      MulBound(a, width, b);
    } else if b < a {
      MulBound(b, width, a);
    }
  }

  /** A field narrower than a byte lies inside one byte; the others are whole bytes. */
  lemma AlignedInByte(start: nat, width: nat)
    requires IsWidth(width) && start % width == 0
    ensures width < 8 ==> start % 8 + width <= 8
    ensures width >= 8 ==> start % 8 == 0 && width % 8 == 0
  {
    if width < 8 {
      NarrowInByte(start, width, 8 / width);
    } else {
      WholeBytes(start, width / 8);
    }
  }

  lemma NarrowInByte(start: nat, width: nat, n: nat)
    requires 0 < width && width * n == 8 && start % width == 0
    ensures start % 8 + width <= 8
  {
    ModSplit(start, width, n);
    MulBound(start / width % n, width, n);
  }

  lemma WholeBytes(start: nat, n: nat)
    requires 0 < n && start % (8 * n) == 0
    ensures start % 8 == 0
  {
    ModSplit(start, 8, n);
  }

  lemma StoreKeepsBits(bytes: seq<byte>, start: nat, width: nat, v: nat, i: nat)
    requires IsWidth(width) && start % width == 0 && start + width <= 8 * |bytes| && v < Pow2(width)
    requires i < 8 * |bytes| && !(start <= i < start + width)
    ensures BitAt(Store(bytes, start, width, v), i) == BitAt(bytes, i)
  {
    AlignedInByte(start, width);
    if width >= 8 {
      WholeKeepsBits(bytes, start / 8, width / 8, v, i);
    } else {
      PackedKeepsBits(bytes, start / 8, start % 8, width, v, i);
    }
  }

  lemma WholeKeepsBits(bytes: seq<byte>, q: nat, n: nat, v: nat, i: nat)
    requires q + n <= |bytes| && i < 8 * |bytes| && !(8 * q <= i < 8 * (q + n))
    ensures BitAt(StoreWhole(bytes, q, n, v), i) == BitAt(bytes, i)
  {
    var k := i / 8;
    assert k < q || q + n <= k;
    assert StoreWhole(bytes, q, n, v)[k] == bytes[k];
  }

  lemma PackedKeepsBits(bytes: seq<byte>, q: nat, within: nat, width: nat, v: nat, i: nat)
    requires q < |bytes| && within + width <= 8 && v < Pow2(width)
    requires i < 8 * |bytes| && !(8 * q + within <= i < 8 * q + within + width)
    ensures BitAt(StorePacked(bytes, q, within, width, v), i) == BitAt(bytes, i)
  {
    if i / 8 == q {
      var e := 7 - i % 8;
      assert e + 1 == 8 - i % 8;
      WithFieldKeepsBits(bytes[q], 8 - within - width, width, v, e);
    }
  }

  lemma StoreSetsField(bytes: seq<byte>, start: nat, width: nat, v: nat)
    requires IsWidth(width) && start % width == 0 && start + width <= 8 * |bytes| && v < Pow2(width)
    ensures FieldValue(Store(bytes, start, width, v), start, start + width) == v
  {
    if width >= 8 {
      StoreSetsWhole(bytes, start, width, v);
    } else {
      StoreSetsPacked(bytes, start, width, v);
    }
  }

  lemma StoreSetsWhole(bytes: seq<byte>, start: nat, width: nat, v: nat)
    requires IsWidth(width) && start % width == 0 && start + width <= 8 * |bytes| && v < Pow2(width)
    requires width >= 8
    ensures FieldValue(Store(bytes, start, width, v), start, start + width) == v
  {
    AlignedInByte(start, width);
    var n := width / 8;
    assert 8 * n == width;
    WholeSetsField(bytes, start / 8, n, v, start, start + width);
  }

  lemma StoreSetsPacked(bytes: seq<byte>, start: nat, width: nat, v: nat)
    requires IsWidth(width) && start % width == 0 && start + width <= 8 * |bytes| && v < Pow2(width)
    requires width < 8
    ensures FieldValue(Store(bytes, start, width, v), start, start + width) == v
  {
    AlignedInByte(start, width);
    PackedSetsField(bytes, start / 8, start % 8, width, v, start, start + width);
  }

  lemma WholeSetsField(bytes: seq<byte>, q: nat, n: nat, v: nat, lo: nat, hi: nat)
    requires q + n <= |bytes| && v < Pow2(8 * n) && lo == 8 * q && hi == 8 * (q + n)
    ensures FieldValue(StoreWhole(bytes, q, n, v), lo, hi) == v
  {
    var r := StoreWhole(bytes, q, n, v);
    assert r[q..q + n] == ToBE(v, n);
    DecodeEncode(v, n);
    FieldOfBytes(r, q, n);
  }

  lemma PackedSetsField(bytes: seq<byte>, q: nat, within: nat, width: nat, v: nat, lo: nat, hi: nat)
    requires q < |bytes| && within + width <= 8 && v < Pow2(width)
    requires lo == 8 * q + within && hi == 8 * q + (within + width)
    ensures FieldValue(StorePacked(bytes, q, within, width, v), lo, hi) == v
  {
    FieldInByte(StorePacked(bytes, q, within, width, v), q, within, within + width);
    WithFieldHolds(bytes[q], 8 - within - width, width, v);
  }

  /** Store then read: the stored field has the new value and every other aligned field, including
      its neighbours in the same byte, keeps its old one. */
  lemma StoreThenRead(bytes: seq<byte>, start: nat, width: nat, v: nat, other: nat)
    requires IsWidth(width) && v < Pow2(width)
    requires start % width == 0 && start + width <= 8 * |bytes|
    requires other % width == 0 && other + width <= 8 * |bytes|
    ensures FieldValue(Store(bytes, start, width, v), other, other + width) ==
            if other == start then v else FieldValue(bytes, other, other + width)
  {
    if other == start {
      StoreSetsField(bytes, start, width, v);
    } else {
      StoreKeepsOther(bytes, start, width, v, other);
    }
  }

  lemma StoreKeepsOther(bytes: seq<byte>, start: nat, width: nat, v: nat, other: nat)
    requires IsWidth(width) && v < Pow2(width) && other != start
    requires start % width == 0 && start + width <= 8 * |bytes|
    requires other % width == 0 && other + width <= 8 * |bytes|
    ensures FieldValue(Store(bytes, start, width, v), other, other + width) == FieldValue(bytes, other, other + width)
  {
    AlignedDisjoint(start, other, width);
    StoreKeepsField(bytes, start, width, v, other, other + width);
  }

  lemma StoreKeepsField(bytes: seq<byte>, start: nat, width: nat, v: nat, lo: nat, hi: nat)
    requires IsWidth(width) && v < Pow2(width) && start % width == 0 && start + width <= 8 * |bytes|
    requires lo <= hi <= 8 * |bytes| && (start + width <= lo || hi <= start)
    ensures FieldValue(Store(bytes, start, width, v), lo, hi) == FieldValue(bytes, lo, hi)
  {
    var r := Store(bytes, start, width, v);
    forall i | lo <= i < hi ensures BitAt(r, i) == BitAt(bytes, i) {
      StoreKeepsBits(bytes, start, width, v, i);
    }
    SameBitsSameField(r, bytes, lo, hi);
  }
}
