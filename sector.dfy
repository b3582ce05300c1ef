/**
 * Sector arithmetic of the image builder: the 512-byte sector, the
 * uint64_t counter arithmetic, and the ALIGN_UP macro.
 *
 * The C operators `&` and `~` are modelled on naturals and ints
 * (BitAnd, BitNot, IntNot, ToU64) so that the rest of the model can reason with
 * ordinary integer arithmetic; the lemmas below connect the masks the
 * source uses to remainders and multiples of the sector size.
 */
module Sector {

  /** SECTOR_SIZE: the alignment unit of the image (a power of two). */
  const SECTOR_SIZE: nat := 512

  const TWO_64: nat := 0x1_0000_0000_0000_0000

  /** The C type uint64_t. */
  type u64 = x: int | 0 <= x < TWO_64

  function Pow2(n: nat): (p: nat)
    ensures p >= 1
  {
    if n == 0 then 1 else 2 * Pow2(n - 1)
  }

  lemma {:induction false} Pow2Add(a: nat, b: nat)
    ensures Pow2(a + b) == Pow2(a) * Pow2(b)
  {
    if a > 0 {
      Pow2Add(a - 1, b);
    }
  }

  lemma {:induction false} Pow2Monotone(a: nat, b: nat)
    requires a <= b
    ensures Pow2(a) <= Pow2(b)
  {
    if a < b {
      Pow2Monotone(a, b - 1);
    }
  }

  lemma SectorAndWordSizes()
    ensures Pow2(9) == SECTOR_SIZE
    ensures Pow2(64) == TWO_64
  {
    Pow2Of32();
    Pow2Add(32, 32);
  }

  lemma Pow2Of8()
    ensures Pow2(8) == 256 && Pow2(9) == 512
  {
  }

  lemma Pow2Of16()
    ensures Pow2(9) == 512 && Pow2(16) == 0x1_0000
  {
    Pow2Of8();
    Pow2Add(8, 8);
  }

  lemma Pow2Of32()
    ensures Pow2(9) == 512 && Pow2(32) == 0x1_0000_0000
  {
    Pow2Of16();
    Pow2Add(16, 16);
  }

  /** `a + b` on uint64_t: the sum wraps around modulo 2^64. */
  function Add64(a: u64, b: nat): (r: u64)
    ensures a + b < TWO_64 ==> r == a + b
    ensures TWO_64 <= a + b < 2 * TWO_64 ==> r == a + b - TWO_64
  {
    (a + b) % TWO_64
  }

  /** Bitwise `x & y` on naturals, one binary digit at a time. */
  function BitAnd(x: nat, y: nat): (r: nat)
    ensures r <= x && r <= y
    decreases x
  {
    if x == 0 || y == 0 then 0
    else 2 * BitAnd(x / 2, y / 2) + (if x % 2 == 1 && y % 2 == 1 then 1 else 0)
  }

  /** Bitwise `~x` on an n-bit word, one binary digit at a time. */
  function BitNot(x: nat, n: nat): nat
  {
    if n == 0 then 0 else 2 * BitNot(x / 2, n - 1) + (1 - x % 2)
  }

  /** Complementing every binary digit of an n-bit value subtracts it from `2^n - 1`. */
  lemma {:induction false} BitNotIsComplement(x: nat, n: nat)
    requires x < Pow2(n)
    ensures BitNot(x, n) == Pow2(n) - 1 - x
  {
    if n > 0 {
      BitNotIsComplement(x / 2, n - 1);
    }
  }

  /** The largest value of a C int (32 bits, two's complement). */
  const INT_MAX: nat := 0x7fff_ffff

  /** `~x` on a C int: in two's complement it is `-x - 1`. */
  function IntNot(x: int): int
  {
    -x - 1
  }

  /** Conversion of an int to uint64_t: its value modulo 2^64, so a negative int is sign-extended. */
  function ToU64(i: int): (r: u64)
    ensures 0 <= i < TWO_64 ==> r == i
    ensures i < 0 && 0 <= i + TWO_64 ==> r == i + TWO_64
  {
    i % TWO_64
  }

  /**
   * For a non-negative int x, `~x` is the bitwise complement of x as a 32-bit
   * pattern, and converting it to uint64_t gives the 64-bit complement of x:
   * the sign bit fills the upper 32 bits.
   */
  lemma IntNotIsBitwise(x: nat)
    requires x <= INT_MAX
    ensures IntNot(x) < 0
    ensures IntNot(x) % Pow2(32) == BitNot(x, 32)
    ensures ToU64(IntNot(x)) == BitNot(x, 64)
  {
    SectorAndWordSizes();
    Pow2Of32();
    BitNotIsComplement(x, 32);
    BitNotIsComplement(x, 64);
    DivModUnique(IntNot(x), Pow2(32), -1, Pow2(32) - 1 - x);
  }

  /**
   * ALIGN_UP(value, align): `(value + align - 1) & ~(align - 1)` with value a
   * uint64_t and align a positive int. The sum is computed in uint64_t and may
   * wrap around. `~` acts on the int `align - 1`, giving a negative int, which
   * `&` with the uint64_t sum converts to uint64_t by sign extension.
   */
  function AlignUp(value: u64, align: nat): u64
    requires 1 <= align <= INT_MAX
  {
    BitAnd(Add64(value, align - 1), ToU64(IntNot(align - 1)))
  }

  /** Splitting a remainder by 2m into its last binary digit and the rest. */
  lemma ModHalf(x: nat, m: nat)
    requires m > 0
    ensures x % (2 * m) == 2 * ((x / 2) % m) + x % 2
    ensures x / (2 * m) == (x / 2) / m
  {
    var q, r := x / 2, x % 2;
    var a, b := q / m, q % m;
    assert x == 2 * m * a + (2 * b + r);
    DivModUnique(x, 2 * m, a, 2 * b + r);
  }

  lemma DivModUnique(x: int, d: int, a: int, b: int)
    requires d > 0 && 0 <= b < d && x == d * a + b
    ensures x / d == a && x % d == b
  {
    var a', b' := x / d, x % d;
    assert d * (a - a') == b' - b;
    MulSign(d, a - a');
  }

  lemma MulSign(d: int, k: int)
    requires d > 0
    ensures k >= 1 ==> d * k >= d
    ensures k <= -1 ==> d * k <= -d
  {
    assert d * k == d + d * (k - 1);
    assert d * k == -d + d * (k + 1);
  }

  /** Doubling a value rounded down to a multiple of m rounds 2x down to a multiple of 2m. */
  lemma DoubleRoundDown(x: nat, m: nat)
    requires m > 0
    ensures 2 * (x / 2 - (x / 2) % m) == x - x % (2 * m)
  {
    ModHalf(x, m);
  }

  /** Masking with `2^k - 1` keeps the remainder by `2^k`. */
  lemma {:induction false} LowMask(x: nat, k: nat)
    ensures BitAnd(x, Pow2(k) - 1) == x % Pow2(k)
  {
    if k == 0 {
      assert Pow2(k) == 1;
    } else if x == 0 {
    } else {
      var m := Pow2(k - 1);
      assert Pow2(k) == 2 * m;
      LowMask(x / 2, k - 1);
      LowMaskStep(x, m);
    }
  }

  /** The inductive step of LowMask, from the value with its last binary digit removed. */
  lemma LowMaskStep(x: nat, m: nat)
    requires 0 < x && 0 < m
    requires BitAnd(x / 2, m - 1) == (x / 2) % m
    ensures BitAnd(x, 2 * m - 1) == x % (2 * m)
  {
    assert (2 * m - 1) / 2 == m - 1 && (2 * m - 1) % 2 == 1;
    ModHalf(x, m);
  }

  /** Masking a value below `2^n` with `2^n - 2^k` rounds it down to a multiple of `2^k`. */
  lemma {:induction false} HighMask(x: nat, n: nat, k: nat)
    requires k <= n && x < Pow2(n)
    ensures Pow2(k) <= Pow2(n)
    ensures BitAnd(x, Pow2(n) - Pow2(k)) == x - x % Pow2(k)
    decreases x, 1
  {
    Pow2Monotone(k, n);
    if k == 0 {
      assert Pow2(k) == 1;
      FullMask(x, n);
    } else if k == n || x == 0 {
      EmptyMask(x, n, k);
    } else {
      HighMaskNext(x, n, k);
    }
  }

  /** The inductive case of HighMask: the value and the mask both lose their last binary digit. */
  lemma {:induction false} HighMaskNext(x: nat, n: nat, k: nat)
    requires 0 < k < n && 0 < x < Pow2(n)
    ensures Pow2(k) <= Pow2(n)
    ensures BitAnd(x, Pow2(n) - Pow2(k)) == x - x % Pow2(k)
    decreases x, 0
  {
    HighMask(x / 2, n - 1, k - 1);
    HighMaskStep(x, Pow2(n - 1), Pow2(k - 1), Pow2(n), Pow2(k));
  }

  lemma EmptyMask(x: nat, n: nat, k: nat)
    requires k <= n && x < Pow2(n) && Pow2(k) <= Pow2(n)
    requires k == n || x == 0
    ensures BitAnd(x, Pow2(n) - Pow2(k)) == x - x % Pow2(k)
  {
    SmallRemainder(x, Pow2(k));
  }

  lemma FullMask(x: nat, n: nat)
    requires x < Pow2(n)
    ensures BitAnd(x, Pow2(n) - 1) == x
  {
    LowMask(x, n);
    SmallRemainder(x, Pow2(n));
  }

  lemma SmallRemainder(x: nat, d: nat)
    requires x < d
    ensures x % d == x
  {
    DivModUnique(x, d, 0, x);
  }

  /** The inductive step of HighMask, from the value with its last binary digit removed. */
  lemma HighMaskStep(x: nat, p: nat, m: nat, p2: nat, m2: nat)
    requires p2 == 2 * p && m2 == 2 * m
    requires 0 < m <= p && 0 < x < p2
    requires BitAnd(x / 2, p - m) == x / 2 - (x / 2) % m
    ensures m2 <= p2 && BitAnd(x, p2 - m2) == x - x % m2
  {
    if p == m {
      DivModUnique(x, m2, 0, x);
    } else {
      EvenMask(x, p, m);
      DoubleRoundDown(x, m);
    }
  }

  /** A non-zero even mask contributes no low bit. */
  lemma EvenMask(x: nat, p: nat, m: nat)
    requires 0 < m < p && 0 < x
    ensures BitAnd(x, 2 * p - 2 * m) == 2 * BitAnd(x / 2, p - m)
  {
    var mask := 2 * p - 2 * m;
    assert mask / 2 == p - m;
    assert mask % 2 == 0;
  }

  /** `total & (SECTOR_SIZE - 1)` is the remainder of total by the sector size. */
  lemma MisalignIsRemainder(t: nat)
    ensures BitAnd(t, SECTOR_SIZE - 1) == t % SECTOR_SIZE
  {
    SectorAndWordSizes();
    LowMask(t, 9);
  }

  /** ALIGN_UP(v, SECTOR_SIZE) rounds the wrapped sum `v + 511` down to a sector multiple. */
  lemma AlignUpSector(v: u64)
    ensures AlignUp(v, SECTOR_SIZE) == Add64(v, SECTOR_SIZE - 1) - Add64(v, SECTOR_SIZE - 1) % SECTOR_SIZE
  {
    SectorAndWordSizes();
    HighMask(Add64(v, SECTOR_SIZE - 1), 64, 9);
  }

  /**
   * ALIGN_UP(v, SECTOR_SIZE) is always a sector multiple; without overflow it is
   * the least multiple not below v, and with overflow it wraps to 0.
   */
  lemma AlignUpBounds(v: u64)
    ensures AlignUp(v, SECTOR_SIZE) % SECTOR_SIZE == 0
    ensures v <= TWO_64 - SECTOR_SIZE ==>
      v <= AlignUp(v, SECTOR_SIZE) < v + SECTOR_SIZE
    ensures v > TWO_64 - SECTOR_SIZE ==> AlignUp(v, SECTOR_SIZE) == 0
  {
    AlignUpSector(v);
    RoundedSumBounds(v, Add64(v, SECTOR_SIZE - 1), AlignUp(v, SECTOR_SIZE));
  }

  /** The arithmetic behind AlignUpBounds, for r the wrapped sum w = v + 511 rounded down. */
  lemma RoundedSumBounds(v: u64, w: nat, r: int)
    requires v + (SECTOR_SIZE - 1) < TWO_64 ==> w == v + (SECTOR_SIZE - 1)
    requires v + (SECTOR_SIZE - 1) >= TWO_64 ==> w == v + (SECTOR_SIZE - 1) - TWO_64
    requires r == w - w % SECTOR_SIZE
    ensures r % SECTOR_SIZE == 0
    ensures v <= TWO_64 - SECTOR_SIZE ==> v <= r < v + SECTOR_SIZE
    ensures v > TWO_64 - SECTOR_SIZE ==> r == 0
  {
    DivModUnique(r, SECTOR_SIZE, w / SECTOR_SIZE, 0);
    if v > TWO_64 - SECTOR_SIZE {
      SmallRemainder(w, SECTOR_SIZE);
    }
  }

  /** ALIGN_UP leaves an already aligned value unchanged. */
  lemma AlignUpIdempotent(v: u64)
    ensures AlignUp(AlignUp(v, SECTOR_SIZE), SECTOR_SIZE) == AlignUp(v, SECTOR_SIZE)
    ensures v % SECTOR_SIZE == 0 ==> AlignUp(v, SECTOR_SIZE) == v
  {
    var r := AlignUp(v, SECTOR_SIZE);
    AlignUpBounds(v);
    AlignedUnchanged(r);
    AlignedUnchanged(v);
  }

  lemma AlignedUnchanged(v: u64)
    ensures v % SECTOR_SIZE == 0 ==> AlignUp(v, SECTOR_SIZE) == v
  {
    AlignUpSector(v);
    if v % SECTOR_SIZE == 0 {
      AlignedBelowTop(v);
      DivModUnique(v + (SECTOR_SIZE - 1), SECTOR_SIZE, v / SECTOR_SIZE, SECTOR_SIZE - 1);
    }
  }

  /** The largest sector multiple below 2^64 is 2^64 - SECTOR_SIZE. */
  lemma AlignedBelowTop(v: u64)
    requires v % SECTOR_SIZE == 0
    ensures v <= TWO_64 - SECTOR_SIZE && v == SECTOR_SIZE * (v / SECTOR_SIZE)
  {
    var q, top := v / SECTOR_SIZE, TWO_64 / SECTOR_SIZE;
    assert TWO_64 == SECTOR_SIZE * top;
    MulSign(SECTOR_SIZE, q - top);
  }
}
