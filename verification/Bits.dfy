/** Machine words as naturals, and the bitwise operators the program uses on them.

    `And` and `Or` are defined one bit at a time, so that every mask in the model is written
    as the program writes it.  `AndField` is the one fact that turns them into arithmetic:
    every mask of the program is a contiguous run of ones. */
module Bits {

  const U16_LIMIT: nat := 0x1_0000
  const U32_LIMIT: nat := 0x1_0000_0000
  const I64_LIMIT: nat := 0x8000_0000_0000_0000
  const U64_LIMIT: nat := 0x1_0000_0000_0000_0000

  type byte = x: nat | x < 256
  type u16 = x: nat | x < U16_LIMIT
  type u32 = x: nat | x < U32_LIMIT
  type u64 = x: nat | x < U64_LIMIT

  function Pow2(e: nat): (p: nat)
    ensures 0 < p
  {
    if e == 0 then 1 else 2 * Pow2(e - 1)
  }

  function Min(x: nat, y: nat): nat {
    if x < y then x else y
  }

  function Div(x: nat, d: nat): nat
    requires 0 < d
  {
    x / d
  }

  function Mod(x: nat, d: nat): (r: nat)
    requires 0 < d
    ensures r < d && r <= x
  {
    x % d
  }

  /** The number with quotient `q` and remainder `r` */
  function Compose(q: nat, d: nat, r: nat): nat {
    q * d + r
  }

  /** `x & y` */
  function And(x: nat, y: nat): (r: nat)
    ensures r <= x
    decreases x
  {
    if x == 0 || y == 0 then 0 else (x % 2) * (y % 2) + 2 * And(x / 2, y / 2)
  }

  /** `x | y` */
  function Or(x: nat, y: nat): nat
    decreases x + y
  {
    if x == 0 then y
    else if y == 0 then x
    else (if x % 2 == 1 || y % 2 == 1 then 1 else 0) + 2 * Or(x / 2, y / 2)
  }

  /** `x >> k` */
  function Shr(x: nat, k: nat): nat {
    Div(x, Pow2(k))
  }

  /** `x << k` on a 64-bit word */
  function Shl(x: u64, k: nat): u64 {
    x * Pow2(k) % U64_LIMIT
  }

  /** `!x` on a 64-bit word */
  function Not(x: u64): u64 {
    U64_LIMIT - 1 - x
  }

  /** `x.trailing_zeros()` of a nonzero word */
  function TrailingZeros(x: nat): nat
    requires x != 0
  {
    if x % 2 == 1 then 0 else 1 + TrailingZeros(x / 2)
  }

  /** Bits `lo..hi` of `x`, as a number */
  function Field(x: nat, lo: nat, hi: nat): nat
    requires lo <= hi
  {
    Mod(Div(x, Pow2(lo)), Pow2(hi - lo))
  }

  lemma QuotientUnique(d: nat, q: int, r: nat, q': int, r': nat)
    requires r < d && r' < d && q * d + r == q' * d + r'
    ensures q == q' && r == r'
  {
    assert (q - q') * d == r' - r;
    if q > q' {
      MulAtLeast(q - q', d);
    } else if q < q' {
      MulAtLeast(q' - q, d);
    }
  }

  lemma MulAtLeast(k: nat, d: nat)
    requires 1 <= k
    ensures d <= k * d
  {
    assert k * d == (k - 1) * d + d;
  }

  lemma DivModUnique(x: nat, d: nat, q: nat, r: nat)
    requires 0 < d && r < d && x == q * d + r
    ensures x / d == q && x % d == r
  {
    QuotientUnique(d, q, r, x / d, x % d);
  }

  lemma MulBound(k: nat, a: nat, b: nat)
    requires k < b
    ensures k * a + a <= a * b
  {
    var d := b - k - 1;
    assert a * b == a * d + a * k + a;
    assert 0 <= a * d;
    assert a * k == k * a;
  }

  lemma MulMono(a: nat, b: nat, d: nat)
    requires a <= b
    ensures a * d <= b * d
  {
    assert b * d == a * d + (b - a) * d;
  }

  lemma ModSplit(x: nat, a: nat, b: nat)
    requires 0 < a && 0 < b
    ensures 0 < a * b
    ensures x % (a * b) == (x / a % b) * a + x % a
    ensures x / (a * b) == x / a / b
  {
    var p, s := x / a, x % a;
    var q, r := p / b, p % b;
    SplitSum(p, q, r, a, b);
    MulBound(r, a, b);
    DivModUnique(x, a * b, q, r * a + s);
  }

  lemma SplitSum(p: nat, q: nat, r: nat, a: nat, b: nat)
    requires p == q * b + r
    ensures p * a == q * (a * b) + r * a
  {
    assert (q * b + r) * a == q * b * a + r * a;
    assert q * b * a == q * (a * b);
  }

  lemma {:induction false} Pow2Add(a: nat, b: nat)
    ensures Pow2(a + b) == Pow2(a) * Pow2(b)
  {
    if a == 0 {
    } else {
      Pow2Add(a - 1, b);
      assert 2 * (Pow2(a - 1) * Pow2(b)) == (2 * Pow2(a - 1)) * Pow2(b);
    }
  }

  lemma {:induction false} Pow2Mono(a: nat, b: nat)
    requires a <= b
    ensures Pow2(a) <= Pow2(b)
    ensures a < b ==> 2 * Pow2(a) <= Pow2(b)
  {
    if a < b {
      Pow2Mono(a, b - 1);
    }
  }

  lemma Pow2Small()
    ensures Pow2(0) == 1 && Pow2(1) == 2 && Pow2(2) == 4 && Pow2(3) == 8 && Pow2(4) == 16
    ensures Pow2(5) == 32 && Pow2(6) == 64 && Pow2(7) == 128 && Pow2(8) == 256 && Pow2(9) == 512
  {
    assert Pow2(3) == 8;
    assert Pow2(6) == 64;
  }

  lemma Pow2Values()
    ensures Pow2(16) == U16_LIMIT && Pow2(20) == 0x10_0000 && Pow2(32) == U32_LIMIT
    ensures Pow2(56) == 0x0100_0000_0000_0000 && Pow2(62) == 0x4000_0000_0000_0000
    ensures Pow2(63) == I64_LIMIT && Pow2(64) == U64_LIMIT
  {
    Pow2Small();
    Pow2Sum(8, 8, 256, 256);
    Pow2Sum(16, 4, 0x1_0000, 16);
    Pow2Sum(16, 16, 0x1_0000, 0x1_0000);
    Pow2Sum(32, 16, 0x1_0000_0000, 0x1_0000);
    Pow2Sum(48, 8, 0x1_0000_0000_0000, 256);
    Pow2Sum(56, 6, 0x0100_0000_0000_0000, 64);
    Pow2Sum(62, 1, 0x4000_0000_0000_0000, 2);
    Pow2Sum(62, 2, 0x4000_0000_0000_0000, 4);
  }

  lemma Pow2Sum(a: nat, b: nat, p: nat, q: nat)
    requires Pow2(a) == p && Pow2(b) == q
    ensures Pow2(a + b) == p * q
  {
    Pow2Add(a, b);
  }

  /** Masking with a run of ones in positions `lo..hi` keeps exactly that field, in place. */
  lemma {:induction false} AndField(x: nat, lo: nat, hi: nat)
    requires lo <= hi
    ensures Pow2(lo) <= Pow2(hi)
    ensures And(x, Pow2(hi) - Pow2(lo)) == x % Pow2(hi) - x % Pow2(lo)
    ensures And(x, Pow2(hi) - Pow2(lo)) == Field(x, lo, hi) * Pow2(lo)
    decreases hi
  {
    Pow2Mono(lo, hi);
    AndRun(x, lo, hi);
    Pow2Add(lo, hi - lo);
    ModSplit(x, Pow2(lo), Pow2(hi - lo));
  }

  /** One step of a remainder modulo a power of two. */
  lemma ModHalf(x: nat, e: nat)
    requires 0 < e
    ensures x % Pow2(e) == 2 * (x / 2 % Pow2(e - 1)) + x % 2
  {
    ModSplit(x, 2, Pow2(e - 1));
  }

  /** Masking with the low `k` ones is the remainder modulo `2^k`. */
  lemma {:induction false} AndLow(x: nat, k: nat)
    ensures And(x, Pow2(k) - 1) == x % Pow2(k)
  {
    if k == 0 {
      assert Pow2(0) == 1 && And(x, 0) == 0;
    } else {
      AndLow(x / 2, k - 1);
      AndOnes(x, Pow2(k - 1), Pow2(k - 1) - 1);
      OnesStep(k);
    }
  }

  lemma OnesStep(k: nat)
    requires 0 < k
    ensures Pow2(k) == 2 * Pow2(k - 1) && Pow2(k) - 1 == 2 * (Pow2(k - 1) - 1) + 1
  {
  }

  lemma AndOnes(x: nat, p: nat, m: nat)
    requires m + 1 == p && And(x / 2, m) == x / 2 % p
    ensures And(x, 2 * m + 1) == x % (2 * p)
  {
    ModSplit(x, 2, p);
    AndStep(x, m, 1);
  }

  lemma {:induction false} AndRun(x: nat, lo: nat, hi: nat)
    requires lo <= hi && Pow2(lo) <= Pow2(hi)
    ensures And(x, Pow2(hi) - Pow2(lo)) == x % Pow2(hi) - x % Pow2(lo)
    decreases hi
  {
    if lo == 0 {
      AndLow(x, hi);
    } else {
      AndRun(x / 2, lo - 1, hi - 1);
      ModHalf(x, hi);
      ModHalf(x, lo);
      AndStep(x, Pow2(hi - 1) - Pow2(lo - 1), 0);
    }
  }

  lemma AndStep(x: nat, m: nat, b: nat)
    requires b < 2
    ensures And(x, 2 * m + b) == x % 2 * b + 2 * And(x / 2, m)
  {
    assert (2 * m + b) / 2 == m && (2 * m + b) % 2 == b;
  }

  /** Masking with `!(2^k - 1)` rounds a 64-bit word down to a multiple of `2^k`. */
  lemma AndClearLow(x: u64, k: nat)
    requires k <= 64
    ensures Pow2(k) <= U64_LIMIT
    ensures And(x, U64_LIMIT - Pow2(k)) == x - Mod(x, Pow2(k))
  {
    Pow2Values();
    Pow2Mono(k, 64);
    AndRun(x, k, 64);
    DivModUnique(x, U64_LIMIT, 0, x);
  }

  /** Masking with one bit is nonzero exactly when the bit is set. */
  lemma AndBit(x: nat, k: nat)
    ensures And(x, Pow2(k)) != 0 <==> Field(x, k, k + 1) == 1
    ensures Field(x, k, k + 1) <= 1
  {
    AndField(x, k, k + 1);
    assert Pow2(1) == 2;
    assert Pow2(k + 1) - Pow2(k) == Pow2(k);
  }

  /** A value below `2^k` and a multiple of `2^k` have no bit in common. */
  lemma {:induction false} OrDisjoint(x: nat, y: nat, k: nat)
    requires y < Pow2(k)
    ensures Or(x * Pow2(k), y) == x * Pow2(k) + y
    decreases k
  {
    if k == 0 || x == 0 || y == 0 {
    } else {
      OrDisjoint(x, y / 2, k - 1);
      var h := x * Pow2(k - 1);
      assert x * Pow2(k) == 2 * h;
      ProductNotZero(x, Pow2(k - 1));
      OrStep(h, y);
    }
  }

  lemma ProductNotZero(a: nat, b: nat)
    requires a != 0 && b != 0
    ensures 0 < a * b
  {
    MulAtLeast(a, b);
  }

  lemma OrStep(h: nat, y: nat)
    requires h != 0 && y != 0
    ensures Or(2 * h, y) == y % 2 + 2 * Or(h, y / 2)
  {
    assert (2 * h) % 2 == 0 && (2 * h) / 2 == h;
  }

  lemma {:induction false} TrailingZerosPow2(k: nat)
    ensures TrailingZeros(Pow2(k)) == k
  {
    if k != 0 {
      TrailingZerosPow2(k - 1);
      assert (2 * Pow2(k - 1)) % 2 == 0 && (2 * Pow2(k - 1)) / 2 == Pow2(k - 1);
    }
  }

  lemma DivModOfCompose(q: nat, d: nat, r: nat)
    requires r < d
    ensures Div(Compose(q, d, r), d) == q && Mod(Compose(q, d, r), d) == r
  {
    DivModUnique(q * d + r, d, q, r);
  }

  /** The middle digit of a three-digit number */
  lemma SumDigits(hi: nat, mid: nat, low: nat, p: nat, w: nat)
    requires low < p && mid < w
    ensures Mod(Div(Compose(Compose(hi, w, mid), p, low), p), w) == mid
  {
    DivModOfCompose(hi, w, mid);
    DivModOfCompose(Compose(hi, w, mid), p, low);
  }

  lemma FieldOfDigits(hi: nat, mid: nat, low: nat, lo: nat, width: nat, top: nat)
    requires low < Pow2(lo) && mid < Pow2(width) && top == lo + width
    ensures Field(Compose(Compose(hi, Pow2(width), mid), Pow2(lo), low), lo, top) == mid
  {
    SumDigits(hi, mid, low, Pow2(lo), Pow2(width));
    assert top - lo == width;
  }

  /** A field splits into its high and its low part. */
  lemma FieldSplit(x: nat, lo: nat, mid: nat, hi: nat)
    requires lo <= mid <= hi
    ensures Field(x, lo, hi) == Field(x, mid, hi) * Pow2(mid - lo) + Field(x, lo, mid)
  {
    Pow2Add(mid - lo, hi - mid);
    Pow2Add(lo, mid - lo);
    assert mid - lo + (hi - mid) == hi - lo && lo + (mid - lo) == mid;
    DigitsSplit(x, Pow2(lo), Pow2(mid - lo), Pow2(hi - mid));
  }

  lemma DigitsSplit(x: nat, p: nat, a: nat, b: nat)
    requires 0 < p && 0 < a && 0 < b
    ensures 0 < p * a && 0 < a * b
    ensures Mod(Div(x, p), a * b) == Mod(Div(x, p * a), b) * a + Mod(Div(x, p), a)
  {
    ModSplit(x, p, a);
    ModSplit(x / p, a, b);
  }

  /** `1 << k` */
  lemma ShlOne(k: nat)
    requires k < 64
    ensures Shl(1, k) == Pow2(k)
  {
    Pow2Values();
    Pow2Mono(k, 64);
  }
}
