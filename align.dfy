/** Page geometry and the alignment helpers of kernel/src/mem.rs.
    Machine words are `usize` (64 bits); they are modelled as naturals below 2^64. */
module Align {

  /** Exclusive upper bound of a 64-bit `usize`. */
  const USIZE_LIMIT: nat := 0x1_0000_0000_0000_0000

  type usize = x: nat | x < USIZE_LIMIT

  /** log2 of the page size. */
  const PAGE_ORDER: nat := 12

  /** One page (frame) is 4 KiB. */
  const PAGE_SIZE: nat := 4096

  /** 2^k, the value of `1usize << k`. */
  function Pow2(k: nat): (r: nat)
    ensures r >= 1
  {
    if k == 0 then 1 else 2 * Pow2(k - 1)
  }

  lemma Pow2PageOrder()
    ensures Pow2(PAGE_ORDER) == PAGE_SIZE
  {
    assert Pow2(4) == 16;
    assert Pow2(8) == 256;
  }

  lemma {:induction false} Pow2Add(a: nat, b: nat)
    ensures Pow2(a + b) == Pow2(a) * Pow2(b)
  {
    if a > 0 {
      Pow2Add(a - 1, b);
    }
  }

  lemma Pow2Sixteen()
    ensures Pow2(16) == 0x1_0000
  {
    assert Pow2(8) == 0x100;
    Pow2Add(8, 8);
  }

  lemma Pow2ThirtyTwo()
    ensures Pow2(32) == 0x1_0000_0000
  {
    Pow2Sixteen();
    Pow2Add(16, 16);
  }

  /** `1usize << 64` would be the first value that no longer fits in a word. */
  lemma Pow2WordSize()
    ensures Pow2(64) == USIZE_LIMIT
  {
    Pow2ThirtyTwo();
    Pow2Add(32, 32);
  }

  lemma MulLeft(a: nat, b: nat, p: nat)
    requires a <= b
    ensures a * p <= b * p
  {
  }

  lemma MulCancelLt(a: nat, b: nat, p: nat)
    requires a * p < b * p
    ensures a < b
  {
    if b <= a {
      MulLeft(b, a, p);
    }
  }

  /** Euclidean division brackets `x` between two consecutive multiples of `p`. */
  lemma DivBounds(x: nat, p: nat)
    requires p > 0
    ensures (x / p) * p <= x < (x / p) * p + p
  {
    assert x == (x / p) * p + x % p;
  }

  /** The multiple of `p` just below `x`. */
  lemma RoundDown(x: nat, p: nat)
    requires p > 0
    ensures 0 <= (x / p) * p <= x < (x / p) * p + p && ((x / p) * p) % p == 0
  {
    MulLeft(0, x / p, p);
    DivBounds(x, p);
    MultipleDiv(x / p, p);
  }

  /** A multiple of `p` divides back exactly. */
  lemma MultipleDiv(q: nat, p: nat)
    requires p > 0
    ensures (q * p) / p == q && (q * p) % p == 0
  {
    var x := q * p;
    var d, m := x / p, x % p;
    assert x == d * p + m && 0 <= m < p;
    if d < q {
      MulLeft(d + 1, q, p);
    } else if d > q {
      MulLeft(q + 1, d, p);
    }
  }

  /** 2^order times 2^(64 - order) is the word range. */
  lemma Pow2Split(order: nat)
    requires order <= 64
    ensures Pow2(order) * Pow2(64 - order) == USIZE_LIMIT
  {
    Pow2Add(order, 64 - order);
    Pow2WordSize();
  }

  /** A multiple of `p` below `p * q` leaves room for `p` more. */
  lemma MultipleHeadroom(m: nat, p: nat, q: nat)
    requires p > 0 && m < p * q && m % p == 0
    ensures m + p <= p * q
  {
    MultipleDiv(q, p);
    MultiplesApart(m, q * p, p);
  }

  /** A multiple of 2^order fits below 2^64 with room for 2^order - 1 more. */
  lemma AlignedHasHeadroom(m: nat, order: nat)
    requires order < 64 && m < USIZE_LIMIT && m % Pow2(order) == 0
    ensures m + Pow2(order) - 1 < USIZE_LIMIT
  {
    Pow2Split(order);
    MultipleHeadroom(m, Pow2(order), Pow2(64 - order));
  }

  /** Bitwise AND of two naturals, taken bit by bit from the lowest. */
  function BitAnd(a: nat, b: nat): (r: nat)
    ensures r <= a
  {
    if a == 0 || b == 0 then 0
    else 2 * BitAnd(a / 2, b / 2) + (if a % 2 == 1 && b % 2 == 1 then 1 else 0)
  }

  /** Bitwise complement of a 64-bit word. */
  function BitNot(x: usize): usize
  {
    USIZE_LIMIT - 1 - x
  }

  /** Halving `x` and then dividing by 2^k divides `x` by 2^(k+1). */
  lemma HalfDiv(x: nat, k: nat)
    ensures (x / 2) / Pow2(k) == x / Pow2(k + 1)
  {
    var p := Pow2(k);
    var q, r := x / (2 * p), x % (2 * p);
    assert x == q * (2 * p) + r && r < 2 * p;
    assert x / 2 == q * p + r / 2 by {
      assert x == 2 * (q * p + r / 2) + r % 2;
    }
    assert r / 2 < p;
    ModUnique(x / 2, q, r / 2, p);
  }

  /** AND with n one-bits keeps a value below 2^n. */
  lemma {:induction false} AndLowOnes(v: nat, n: nat)
    requires v < Pow2(n)
    ensures BitAnd(v, Pow2(n) - 1) == v
  {
    if v != 0 {
      var b := Pow2(n) - 1;
      assert n > 0;
      assert b % 2 == 1 && b / 2 == Pow2(n - 1) - 1;
      AndLowOnes(v / 2, n - 1);
    }
  }

  /** 2^k grows with k. */
  lemma Pow2Le(k: nat, n: nat)
    requires k <= n
    ensures Pow2(k) <= Pow2(n)
  {
    Pow2Add(k, n - k);
    MulLeft(1, Pow2(n - k), Pow2(k));
  }

  /** The mask with bits k..n-1 set, for 0 < k < n, is even and halves to the mask with bits
      k-1..n-2 set. */
  lemma HighOnesHalf(n: nat, k: nat)
    requires 0 < k < n
    ensures Pow2(k) < Pow2(n) && Pow2(k - 1) < Pow2(n - 1)
    ensures (Pow2(n) - Pow2(k)) % 2 == 0 && (Pow2(n) - Pow2(k)) / 2 == Pow2(n - 1) - Pow2(k - 1)
  {
    Pow2Le(k, n - 1);
    Pow2Le(k - 1, n - 1);
    assert Pow2(k) == 2 * Pow2(k - 1) && Pow2(n) == 2 * Pow2(n - 1);
  }

  /** AND with the mask whose bits k..n-1 are set clears the low k bits of a value below 2^n. */
  lemma {:induction false} AndHighOnes(v: nat, n: nat, k: nat)
    requires k <= n && v < Pow2(n)
    ensures Pow2(k) <= Pow2(n)
    ensures BitAnd(v, Pow2(n) - Pow2(k)) == (v / Pow2(k)) * Pow2(k)
  {
    Pow2Le(k, n);
    if k == 0 {
      AndLowOnes(v, n);
    } else if v == 0 || k == n {
      AndNothingLeft(v, n, k);
    } else {
      HighOnesHalf(n, k);
      AndHighOnes(v / 2, n - 1, k - 1);
      AndHighStep(v, n, k);
    }
  }

  /** The base case of `AndHighOnes` where no set bit of `v` survives. */
  lemma AndNothingLeft(v: nat, n: nat, k: nat)
    requires k <= n && v < Pow2(n) && (v == 0 || k == n) && Pow2(k) <= Pow2(n)
    ensures BitAnd(v, Pow2(n) - Pow2(k)) == (v / Pow2(k)) * Pow2(k)
  {
    if v != 0 {
      assert Pow2(n) - Pow2(k) == 0;
      DivSmall(v, Pow2(k));
    }
  }

  /** A value below `p` divides to 0. */
  lemma DivSmall(x: nat, p: nat)
    requires x < p
    ensures x / p == 0
  {
    DivBounds(x, p);
    if x / p >= 1 {
      MulLeft(1, x / p, p);
    }
  }

  /** One step of `AndHighOnes`: from the halves back to `v`. */
  lemma AndHighStep(v: nat, n: nat, k: nat)
    requires 0 < k < n && Pow2(k) < Pow2(n) && Pow2(k - 1) <= Pow2(n - 1)
    requires (Pow2(n) - Pow2(k)) % 2 == 0 && (Pow2(n) - Pow2(k)) / 2 == Pow2(n - 1) - Pow2(k - 1)
    requires BitAnd(v / 2, Pow2(n - 1) - Pow2(k - 1)) == ((v / 2) / Pow2(k - 1)) * Pow2(k - 1)
    ensures BitAnd(v, Pow2(n) - Pow2(k)) == (v / Pow2(k)) * Pow2(k)
  {
    HalfDiv(v, k - 1);
    AndEven(v, Pow2(n) - Pow2(k));
    ShiftUp(BitAnd(v, Pow2(n) - Pow2(k)), BitAnd(v / 2, Pow2(n - 1) - Pow2(k - 1)), v / Pow2(k), Pow2(k - 1));
  }

  /** Twice a multiple `q * h` of the half granule is the multiple `q * (2 * h)` of the granule. */
  lemma ShiftUp(a: nat, c: nat, q: nat, h: nat)
    requires a == 2 * c && c == q * h
    ensures a == q * (2 * h)
  {
  }

  /** AND with a nonzero even mask shifts the AND of the halves back up. */
  lemma AndEven(a: nat, b: nat)
    requires b > 0 && b % 2 == 0
    ensures BitAnd(a, b) == 2 * BitAnd(a / 2, b / 2)
  {
  }

  /** `val & !((1 << order) - 1)` on a 64-bit word rounds `val` down to a multiple of 2^order. */
  lemma MaskRoundsDown(val: usize, order: nat)
    requires order < 64
    ensures Pow2(order) - 1 < USIZE_LIMIT
    ensures BitAnd(val, BitNot(Pow2(order) - 1)) == (val / Pow2(order)) * Pow2(order)
  {
    Pow2Split(order);
    assert Pow2(64 - order) >= 1;
    assert Pow2(order) <= USIZE_LIMIT;
    Pow2WordSize();
    AndHighOnes(val, 64, order);
  }

  /** `align_val_down(val, order)`: `val & !((1 << order) - 1)` clears the low `order` bits,
      i.e. rounds `val` down to a multiple of 2^order. It is written here as that rounding;
      `AlignMasks` shows it equals the mask. */
  function AlignValDown(val: usize, order: nat): (r: usize)
    requires order < 64
    ensures r % Pow2(order) == 0
    ensures r <= val < r + Pow2(order)
  {
    var p := Pow2(order);
    var r := (val / p) * p;
    assert 0 <= r <= val < r + p && r % p == 0 by {
      RoundDown(val, p);
    }
    r
  }

  /** `align_val(val, order)`: `(val + o) & !o` with `o = (1 << order) - 1`, i.e. the mask of
      `AlignValDown` applied to `val + o`. The source does not guard the addition; callers
      must keep it below 2^64. */
  function AlignVal(val: usize, order: nat): (r: usize)
    requires order < 64
    requires val + Pow2(order) - 1 < USIZE_LIMIT
    ensures r % Pow2(order) == 0
    ensures val <= r < val + Pow2(order)
  {
    AlignValDown(val + (Pow2(order) - 1), order)
  }

  /** Both alignment helpers are the source's bit masks: `align_val_down` is
      `val & !((1 << order) - 1)` and `align_val` is `(val + o) & !o` with `o = (1 << order) - 1`,
      on 64-bit words. */
  lemma AlignMasks(val: usize, order: nat)
    requires order < 64
    ensures Pow2(order) - 1 < USIZE_LIMIT
    ensures AlignValDown(val, order) == BitAnd(val, BitNot(Pow2(order) - 1))
    ensures val + Pow2(order) - 1 < USIZE_LIMIT ==>
              AlignVal(val, order) == BitAnd(val + (Pow2(order) - 1), BitNot(Pow2(order) - 1))
  {
    MaskRoundsDown(val, order);
    if val + Pow2(order) - 1 < USIZE_LIMIT {
      MaskRoundsDown(val + (Pow2(order) - 1), order);
    }
  }

  /** `page_down(val)`: the start of the page holding `val`. */
  function PageDown(val: usize): (r: usize)
    ensures r % PAGE_SIZE == 0 && r <= val < r + PAGE_SIZE
  {
    Pow2PageOrder();
    AlignValDown(val, PAGE_ORDER)
  }

  /** Adding whole multiples of `p` keeps a value's alignment. */
  lemma AddMultiple(b: nat, i: nat, p: nat)
    requires p > 0
    ensures (b + i * p) % p == b % p
  {
    var q, r := b / p, b % p;
    assert b == q * p + r;
    assert b + i * p == (q + i) * p + r;
    ModUnique(b + i * p, q + i, r, p);
  }

  /** The remainder is determined by any quotient-remainder split of `x`. */
  lemma ModUnique(x: nat, q: nat, r: nat, p: nat)
    requires p > 0 && x == q * p + r && r < p
    ensures x % p == r
  {
    var d := x / p;
    DivBounds(x, p);
    if d < q {
      MulLeft(d + 1, q, p);
    } else if q < d {
      MulLeft(q + 1, d, p);
    }
  }

  /** A multiple of `p` lies at least `p` above any smaller multiple. */
  lemma MultiplesApart(a: nat, b: nat, p: nat)
    requires p > 0 && a % p == 0 && b % p == 0 && a < b
    ensures a + p <= b
  {
    var i, j := a / p, b / p;
    assert a == i * p && b == j * p;
    MulCancelLt(i, j, p);
    MulLeft(i + 1, j, p);
  }

  /** `align_val` is the least multiple of 2^order that is at least `val`. */
  lemma AlignValLeast(val: usize, order: nat, m: nat)
    requires order < 64 && val + Pow2(order) - 1 < USIZE_LIMIT
    requires m % Pow2(order) == 0 && val <= m
    ensures AlignVal(val, order) <= m
  {
    var r := AlignVal(val, order);
    if m < r {
      MultiplesApart(m, r, Pow2(order));
    }
  }

  /** `align_val_down` is the greatest multiple of 2^order that is at most `val`. */
  lemma AlignValDownGreatest(val: usize, order: nat, m: nat)
    requires order < 64
    requires m % Pow2(order) == 0 && m <= val
    ensures m <= AlignValDown(val, order)
  {
    var r := AlignValDown(val, order);
    if r < m {
      MultiplesApart(r, m, Pow2(order));
    }
  }

  /** Aligning an aligned value again changes nothing (and cannot overflow). */
  lemma AlignValIdempotent(val: usize, order: nat)
    requires order < 64 && val + Pow2(order) - 1 < USIZE_LIMIT
    ensures AlignVal(val, order) + Pow2(order) - 1 < USIZE_LIMIT
    ensures AlignVal(AlignVal(val, order), order) == AlignVal(val, order)
  {
    var r := AlignVal(val, order);
    AlignedHasHeadroom(r, order);
    AlignValLeast(r, order, r);
  }

  lemma AlignValDownIdempotent(val: usize, order: nat)
    requires order < 64
    ensures AlignValDown(AlignValDown(val, order), order) == AlignValDown(val, order)
  {
    var r := AlignValDown(val, order);
    AlignValDownGreatest(r, order, r);
  }
}
