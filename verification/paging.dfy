/** The page-alignment macros of the stream header. The page size `P` is
    `getPageSize()`: the system page size on POSIX and the allocation
    granularity on Windows, a power of two on both; here it is `Pow2(k)`.
    The macros apply a bit mask to a 64-bit unsigned operand; the mask is
    modelled with `BitAnd` on naturals, and `~(P - 1)`, an `int` that the
    usual arithmetic conversions turn into a 64-bit unsigned value, becomes
    `2^64 - P`. */
module Paging {
  import opened Word

  function Pow2(k: nat): (r: nat)
    ensures r >= 1
  {
    if k == 0 then 1 else 2 * Pow2(k - 1)
  }

  /** log2 of the page size. */
  type PageShift = k: nat | k < 64

  /** Bitwise and of two naturals, one binary digit at a time. */
  function BitAnd(a: nat, b: nat): (r: nat)
    ensures r <= a && r <= b
    decreases a
  {
    if a == 0 || b == 0 then 0
    else 2 * BitAnd(a / 2, b / 2) + (if a % 2 == 1 && b % 2 == 1 then 1 else 0)
  }

  lemma {:induction false} Pow2Monotone(j: nat, k: nat)
    requires j <= k
    ensures Pow2(j) <= Pow2(k)
    decreases k
  {
    if j < k {
      Pow2Monotone(j, k - 1);
    }
  }

  lemma {:induction false} Pow2Split(a: nat, b: nat)
    ensures Pow2(a + b) == Pow2(a) * Pow2(b)
    decreases a
  {
    if a > 0 {
      Pow2Split(a - 1, b);
    }
  }

  lemma Pow2Word()
    ensures Pow2(64) == WordModulus
  {
    assert Pow2(8) == 256;
    Pow2Split(8, 8);
    Pow2Split(16, 16);
    Pow2Split(32, 32);
  }

  function PageSize(k: PageShift): (p: nat)
    ensures 1 <= p && 2 * p <= WordModulus
  {
    Pow2Monotone(k + 1, 64);
    Pow2Word();
    Pow2(k)
  }

  /** `getPageSize() - 1` */
  function LowMask(k: PageShift): (m: nat)
  {
    PageSize(k) - 1
  }

  /** `~(getPageSize() - 1)` as a 64-bit unsigned operand. */
  function HighMask(k: PageShift): (m: nat)
  {
    WordModulus - 1 - LowMask(k)
  }

  /** `ALIGN_TO_PAGE(x)` */
  function AlignToPage(x: usize, k: PageShift): (r: usize)
  {
    BitAnd(x, HighMask(k))
  }

  /** `OFFSET_INTO_PAGE(x)` */
  function OffsetIntoPage(x: usize, k: PageShift): (r: usize)
  {
    BitAnd(x, LowMask(k))
  }

  /** `UPPER_ALIGN_TO_PAGE(x)`: the sum `x + (P - 1)` is computed in
      `size_t` and so wraps modulo 2^64 before it is aligned. */
  function UpperAlignToPage(x: usize, k: PageShift): (r: usize)
  {
    AlignToPage(ToUsize(x + LowMask(k)), k)
  }

  // Arithmetic helpers.

  lemma MulBound(d: nat, t: int)
    ensures t >= 1 ==> d * t >= d
    ensures t <= 0 ==> d * t <= 0
    ensures t <= -1 ==> d * t + d <= 0
  {
  }

  lemma MulSub(d: int, a: int, b: int)
    ensures d * a - d * b == d * (a - b)
  {
  }

  /** Division with remainder has a unique result. */
  lemma ModUnique(x: nat, d: nat, q: nat, r: nat)
    requires d >= 1 && x == d * q + r && r < d
    ensures x % d == r && x / d == q
  {
    var q', r' := x / d, x % d;
    MulSub(d, q, q');
    MulBound(d, q - q');
  }

  lemma MultipleMod(q: nat, p: nat)
    requires p >= 1
    ensures (p * q) % p == 0
  {
    ModUnique(p * q, p, q, 0);
  }

  /** The remainder modulo `2m` is the remainder of the halved value
      modulo `m`, shifted back, plus the dropped low digit. */
  lemma ModHalf(x: nat, m: nat)
    requires m >= 1
    ensures x % (2 * m) == 2 * ((x / 2) % m) + x % 2
  {
    var h, b := x / 2, x % 2;
    var t, s := h / m, h % m;
    assert h == m * t + s;
    assert (2 * m) * t == 2 * (m * t);
    ModUnique(x, 2 * m, t, 2 * s + b);
  }

  /** `2^n - 2^k`, the mask that clears the `k` low digits of an `n`-digit
      value. */
  function TopMask(n: nat, k: nat): (m: nat)
    requires k <= n
  {
    Pow2Monotone(k, n);
    Pow2(n) - Pow2(k)
  }

  /** Masking with `P - 1` keeps the remainder modulo `P`. */
  lemma {:induction false} LowBits(x: nat, k: nat)
    ensures BitAnd(x, Pow2(k) - 1) == x % Pow2(k)
    decreases k
  {
    if k == 0 {
      assert Pow2(k) - 1 == 0;
      ModUnique(x, 1, x, 0);
    } else if x == 0 {
      ModUnique(0, Pow2(k), 0, 0);
    } else {
      var m := Pow2(k - 1);
      var mask := Pow2(k) - 1;
      assert mask / 2 == m - 1 && mask % 2 == 1;
      var low := BitAnd(x / 2, m - 1);
      assert BitAnd(x, mask) == 2 * low + x % 2;
      LowBits(x / 2, k - 1);
      assert low == (x / 2) % m;
      ModHalf(x, m);
      assert 2 * low + x % 2 == x % (2 * m);
    }
  }

  /** Masking an `n`-digit value with `2^n - 2^k` clears its `k` low
      digits. */
  lemma {:induction false} HighBits(x: nat, n: nat, k: nat)
    requires k <= n && x < Pow2(n)
    ensures BitAnd(x, TopMask(n, k)) == x - x % Pow2(k)
    decreases k
  {
    var p := Pow2(k);
    if k == 0 {
      assert TopMask(n, k) == Pow2(n) - 1;
      LowBits(x, n);
      ModUnique(x, Pow2(n), 0, x);
      ModUnique(x, 1, x, 0);
    } else if k == n {
      assert TopMask(n, k) == 0;
      ModUnique(x, p, 0, x);
    } else if x == 0 {
      ModUnique(0, p, 0, 0);
    } else {
      var m := Pow2(k - 1);
      assert p == 2 * m;
      Pow2Monotone(k + 1, n);
      var mask := TopMask(n, k);
      assert mask / 2 == TopMask(n - 1, k - 1) && mask % 2 == 0;
      var high := BitAnd(x / 2, mask / 2);
      assert BitAnd(x, mask) == 2 * high;
      HighBits(x / 2, n - 1, k - 1);
      assert high == x / 2 - (x / 2) % m;
      ModHalf(x, m);
      assert 2 * high == x - x % p;
    }
  }

  /** `ALIGN_TO_PAGE` rounds down to a multiple of the page size. */
  lemma AlignIsRoundDown(x: usize, k: PageShift)
    ensures AlignToPage(x, k) == x - x % PageSize(k)
  {
    Pow2Word();
    assert HighMask(k) == TopMask(64, k);
    HighBits(x, 64, k);
  }

  /** `OFFSET_INTO_PAGE` is the position inside the page. */
  lemma OffsetIsRemainder(x: usize, k: PageShift)
    ensures OffsetIntoPage(x, k) == x % PageSize(k)
  {
    LowBits(x, k);
  }

  /** Rounding down to a multiple of `p` yields a multiple of `p`. */
  lemma RoundDownIsMultiple(x: nat, p: nat)
    requires p >= 1
    ensures (x - x % p) % p == 0
  {
    assert x - x % p == p * (x / p);
    MultipleMod(x / p, p);
  }

  /** A multiple of `p` below a larger multiple of `p` is at least `p`
      below it. */
  lemma MultipleGap(x: nat, w: nat, p: nat)
    requires p >= 1 && x % p == 0 && w % p == 0 && x < w
    ensures x + p <= w
  {
    var q, v := x / p, w / p;
    assert x == p * q && w == p * v;
    MulSub(p, v, q);
    MulBound(p, v - q);
  }

  /** The aligned value never exceeds `x` and is a multiple of the page
      size. */
  lemma AlignBelow(x: usize, k: PageShift)
    ensures AlignToPage(x, k) <= x
    ensures AlignToPage(x, k) % PageSize(k) == 0
  {
    AlignIsRoundDown(x, k);
    RoundDownIsMultiple(x, PageSize(k));
  }

  /** Splitting `x` into its page and its offset loses nothing. */
  lemma AlignPlusOffset(x: usize, k: PageShift)
    ensures AlignToPage(x, k) + OffsetIntoPage(x, k) == x
    ensures OffsetIntoPage(x, k) < PageSize(k)
  {
    AlignIsRoundDown(x, k);
    OffsetIsRemainder(x, k);
  }

  /** Without overflow, `UPPER_ALIGN_TO_PAGE` is the least multiple of the
      page size at or above `x`. */
  lemma UpperAlignAbove(x: usize, k: PageShift)
    requires x + PageSize(k) - 1 < WordModulus
    ensures UpperAlignToPage(x, k) % PageSize(k) == 0
    ensures x <= UpperAlignToPage(x, k) < x + PageSize(k)
  {
    var y := x + LowMask(k);
    assert ToUsize(y) == y;
    AlignIsRoundDown(y, k);
    RoundDownIsMultiple(y, PageSize(k));
  }

  /** `n` rounded up to a whole number of pages, with no word limit: the
      extent of the pages that `n` bytes starting at a page boundary
      touch. */
  function RoundUp(n: nat, k: PageShift): (r: nat)
    ensures r % PageSize(k) == 0 && n <= r < n + PageSize(k)
  {
    var p := PageSize(k);
    if n % p == 0 then n
    else
      DivMod(n, p);
      MultipleMod(n / p + 1, p);
      assert p * (n / p + 1) == p * (n / p) + p;
      p * (n / p + 1)
  }

  /** Without overflow, `UPPER_ALIGN_TO_PAGE` rounds up to whole pages. */
  lemma UpperAlignIsRoundUp(x: usize, k: PageShift)
    requires x + PageSize(k) - 1 < WordModulus
    ensures UpperAlignToPage(x, k) == RoundUp(x, k)
  {
    var a, b := UpperAlignToPage(x, k), RoundUp(x, k);
    UpperAlignAbove(x, k);
    if a < b {
      MultipleGap(a, b, PageSize(k));
    } else if b < a {
      MultipleGap(b, a, PageSize(k));
    }
  }

  /** With overflow, the wrapped sum is below one page and
      `UPPER_ALIGN_TO_PAGE` yields 0. */
  lemma UpperAlignOverflow(x: usize, k: PageShift)
    requires x + PageSize(k) - 1 >= WordModulus
    ensures UpperAlignToPage(x, k) == 0
  {
    var y := ToUsize(x + LowMask(k));
    assert y < PageSize(k);
    AlignIsRoundDown(y, k);
    ModUnique(y, PageSize(k), 0, y);
  }

  /** The page size divides 2^64. */
  lemma PageDividesWord(k: PageShift)
    ensures WordModulus % PageSize(k) == 0
  {
    Pow2Word();
    Pow2Split(k, 64 - k);
    MultipleMod(Pow2(64 - k), Pow2(k));
  }

  lemma DivMod(x: nat, p: nat)
    requires p >= 1
    ensures x == p * (x / p) + x % p
  {
  }

  /** Aligning twice is aligning once. */
  lemma AlignIdempotent(x: usize, k: PageShift)
    ensures AlignToPage(AlignToPage(x, k), k) == AlignToPage(x, k)
  {
    AlignBelow(x, k);
    AlignIsRoundDown(AlignToPage(x, k), k);
  }

  /** An already aligned value is its own upper alignment: the sum
      `x + P - 1` cannot overflow, since 2^64 is itself a multiple of the
      page size. */
  lemma AlignedUpperIsIdentity(x: usize, k: PageShift)
    requires x % PageSize(k) == 0
    ensures UpperAlignToPage(x, k) == x
  {
    var p := PageSize(k);
    PageDividesWord(k);
    MultipleGap(x, WordModulus, p);
    var y := x + (p - 1);
    assert ToUsize(y) == y;
    var q := x / p;
    DivMod(x, p);
    assert y == p * q + (p - 1);
    ModUnique(y, p, q, p - 1);
    AlignIsRoundDown(y, k);
  }
}
