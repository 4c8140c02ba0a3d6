/** Checked `size_t` arithmetic (lib/mem/size.h) for a 64-bit `size_t`. */
module Sizes {

  const SIZE_BITS: nat := 64
  const SIZE_MAX: nat := 0xFFFF_FFFF_FFFF_FFFF

  // `PTRDIFF_MAX`: `malloc` refuses any larger object.
  const MAX_OBJECT: nat := 0x7FFF_FFFF_FFFF_FFFF

  // `_Alignof(max_align_t)` on LP64.
  const MEMORY_ALIGN: nat := 16

  type SizeT = n: nat | n <= SIZE_MAX

  datatype Checked = Overflow | Value(value: SizeT)

  datatype Status =
    | OK | INVALID_ARGUMENT | NO_MEMORY | OVERFLOW | OUT_OF_RANGE | NOT_FOUND | EOF | IO | INVALID_DATA | UNSUPPORTED

  datatype Pointer = Null | Ptr(at: nat)

  function Pow2(k: nat): (p: nat)
    ensures p > 0
  {
    if k == 0 then 1 else 2 * Pow2(k - 1)
  }

  /** The C operator `&` on unsigned operands, bit by bit. */
  function BitAnd(a: nat, b: nat): nat
  {
    if a == 0 || b == 0 then 0
    else (if a % 2 == 1 && b % 2 == 1 then 1 else 0) + 2 * BitAnd(a / 2, b / 2)
  }

  /** Masking with `2^k - 1` is reduction modulo `2^k`. */
  lemma {:induction false} LowMaskIsModulo(v: nat, k: nat)
    ensures BitAnd(v, Pow2(k) - 1) == v % Pow2(k)
  {
    if k == 0 {
      assert v % 1 == 0;
    } else {
      var m := Pow2(k - 1);
      assert BitAnd(v / 2, m - 1) == (v / 2) % m by {
        LowMaskIsModulo(v / 2, k - 1);
      }
      LowMaskStep(v, m);
    }
  }

  lemma LowMaskStep(v: nat, m: nat)
    requires m > 0
    requires BitAnd(v / 2, m - 1) == (v / 2) % m
    ensures BitAnd(v, 2 * m - 1) == v % (2 * m)
  {
    HalvedModulo(v, m);
    BitAndOddMask(v, m);
  }

  lemma BitAndOddMask(v: nat, m: nat)
    requires m > 0
    ensures BitAnd(v, 2 * m - 1) == v % 2 + 2 * BitAnd(v / 2, m - 1)
  {
  }

  lemma {:induction false} Pow2Monotone(i: nat, j: nat)
    requires i <= j
    ensures Pow2(i) <= Pow2(j)
  {
    if i < j {
      Pow2Monotone(i, j - 1);
    }
  }

  /** The complement of `2^k - 1` in a word of `bits` bits. */
  function HighMask(k: nat, bits: nat): nat
    requires k <= bits
  {
    Pow2Monotone(k, bits);
    Pow2(bits) - Pow2(k)
  }

  /** Masking with the complement of `2^k - 1` rounds down to a multiple of `2^k`. */
  lemma {:induction false} HighMaskRoundsDown(v: nat, k: nat, bits: nat)
    requires k <= bits && v < Pow2(bits)
    ensures BitAnd(v, HighMask(k, bits)) == v - v % Pow2(k)
  {
    if k == 0 {
      HighMaskWhole(v, bits);
    } else {
      HighMaskRoundsDown(v / 2, k - 1, bits - 1);
      assert HighMask(k, bits) == 2 * HighMask(k - 1, bits - 1);
      HighMaskStep(v, Pow2(k - 1), HighMask(k - 1, bits - 1));
    }
  }

  lemma HighMaskWhole(v: nat, bits: nat)
    requires v < Pow2(bits)
    ensures BitAnd(v, HighMask(0, bits)) == v - v % Pow2(0)
  {
    LowMaskIsModulo(v, bits);
    SmallModulo(v, Pow2(bits));
  }

  lemma HighMaskStep(v: nat, m: nat, c: nat)
    requires m > 0
    requires BitAnd(v / 2, c) == v / 2 - (v / 2) % m
    ensures BitAnd(v, 2 * c) == v - v % (2 * m)
  {
    var r := (v / 2) % m;
    assert v % (2 * m) == v % 2 + 2 * r by {
      HalvedModulo(v, m);
    }
    BitAndEvenMask(v, c);
  }

  lemma BitAndEvenMask(v: nat, c: nat)
    ensures BitAnd(v, 2 * c) == 2 * BitAnd(v / 2, c)
  {
  }

  lemma SmallModulo(v: nat, m: nat)
    requires v < m
    ensures v % m == v
  {
  }

  lemma HalvedModulo(v: nat, m: nat)
    requires m > 0
    ensures v % (2 * m) == v % 2 + 2 * ((v / 2) % m)
  {
    var h := v / 2;
    var q := h / m;
    assert h == m * q + h % m;
    DoubleProduct(m, q);
    UniqueRemainder(v, 2 * m, q, v % 2 + 2 * (h % m));
  }

  lemma DoubleProduct(m: int, q: int)
    ensures (2 * m) * q == 2 * (m * q)
  {
  }

  lemma ProductBounds(m: int, d: int)
    requires m >= 0
    ensures d >= 1 ==> m * d >= m
    ensures d <= -1 ==> m * d <= 0 - m
  {
  }

  /** Quotient and remainder are determined by `v == m * q + r` with `0 <= r < m`. */
  lemma UniqueRemainder(v: int, m: nat, q: int, r: int)
    requires m > 0 && v == m * q + r && 0 <= r < m
    ensures v % m == r && v / m == q
  {
    var q', r' := v / m, v % m;
    assert v == m * q' + r';
    assert m * (q - q') == r' - r;
    ProductBounds(m, q - q');
  }

  lemma MaxIsPow2()
    ensures Pow2(SIZE_BITS) == SIZE_MAX + 1
  {
    assert Pow2(4) == 16;
    assert Pow2(8) == 16 * 16 by { Pow2Plus(4, 4); }
    assert Pow2(16) == 0x1_0000 by { Pow2Plus(8, 8); }
    assert Pow2(32) == 0x1_0000 * Pow2(16) by { Pow2Plus(16, 16); }
    assert Pow2(64) == Pow2(32) * Pow2(32) by { Pow2Plus(32, 32); }
  }

  lemma {:induction false} Pow2Plus(i: nat, j: nat)
    ensures Pow2(i + j) == Pow2(i) * Pow2(j)
  {
    if i > 0 {
      Pow2Plus(i - 1, j);
    }
  }

  function AddOverflow(lhs: SizeT, rhs: SizeT): (r: Checked)
    ensures r == (if lhs + rhs <= SIZE_MAX then Value(lhs + rhs) else Overflow)
  {
    if lhs > SIZE_MAX - rhs then Overflow else Value(lhs + rhs)
  }

  function MulOverflow(lhs: SizeT, rhs: SizeT): (r: Checked)
    ensures r == (if lhs * rhs <= SIZE_MAX then Value(lhs * rhs) else Overflow)
  {
    if rhs != 0 && lhs > SIZE_MAX / rhs then
      DivisionTest(lhs, rhs);
      Overflow
    else
      if rhs != 0 then DivisionTest(lhs, rhs); Value(lhs * rhs) else Value(lhs * rhs)
  }

  lemma DivisionTest(lhs: nat, rhs: nat)
    requires rhs > 0
    ensures lhs > SIZE_MAX / rhs <==> lhs * rhs > SIZE_MAX
  {
    var q := SIZE_MAX / rhs;
    assert SIZE_MAX == rhs * q + SIZE_MAX % rhs;
    if lhs > q {
      assert lhs * rhs >= (q + 1) * rhs == q * rhs + rhs;
    } else {
      assert lhs * rhs <= q * rhs;
    }
  }

  lemma AlignMask(v: SizeT)
    ensures BitAnd(v, SIZE_MAX - (MEMORY_ALIGN - 1)) == v - v % MEMORY_ALIGN
  {
    MaxIsPow2();
    HighMaskRoundsDown(v, 4, SIZE_BITS);
    assert Pow2(4) == MEMORY_ALIGN;
  }

  lemma RoundDown(v: nat)
    ensures (v - v % MEMORY_ALIGN) % MEMORY_ALIGN == 0 && v % MEMORY_ALIGN < MEMORY_ALIGN
  {
  }

  function MaskLowBits(v: SizeT): (r: SizeT)
    ensures r % MEMORY_ALIGN == 0 && r <= v < r + MEMORY_ALIGN
  {
    AlignMask(v);
    RoundDown(v);
    BitAnd(v, SIZE_MAX - (MEMORY_ALIGN - 1))
  }

  /** `k4c_align_up_overflow` at the alignment every caller uses. */
  function AlignUpOverflow(value: SizeT): (r: Checked)
    ensures r.Overflow? <==> value + MEMORY_ALIGN - 1 > SIZE_MAX
    ensures r.Value? ==> r.value % MEMORY_ALIGN == 0 && value <= r.value < value + MEMORY_ALIGN
  {
    match AddOverflow(value, MEMORY_ALIGN - 1)
    case Overflow => Overflow
    case Value(sum) => Value(MaskLowBits(sum))
  }

  // For statements that say what is aligned without saying how the program aligns.
  predicate Multiple(m: nat)
  {
    m % MEMORY_ALIGN == 0
  }

  /** A value from which no multiple is left in the word is one that aligning overflows on. */
  lemma AlignsToMultiple(value: SizeT)
    ensures AlignUpOverflow(value).Overflow? <==> !exists m: nat :: Multiple(m) && value <= m <= SIZE_MAX
    ensures AlignUpOverflow(value).Value? ==>
              forall m: nat {:trigger Multiple(m)} :: Multiple(m) && value <= m ==> AlignUpOverflow(value).value <= m
  {
    match AlignUpOverflow(value)
    case Overflow =>
      forall m: nat | Multiple(m) && value <= m ensures m > SIZE_MAX {
        MultiplesBetween(SIZE_MAX + 1 - MEMORY_ALIGN, m);
      }
    case Value(n) =>
      assert Multiple(n);
      forall m: nat | Multiple(m) && value <= m ensures n <= m {
        if m < n {
          MultiplesBetween(m, n);
        }
      }
  }

  lemma MultiplesApart(a: nat, b: nat)
    requires a % MEMORY_ALIGN == 0 && b % MEMORY_ALIGN == 0 && a <= b < a + MEMORY_ALIGN
    ensures a == b
  {
  }

  lemma AlignedBelowMax(value: SizeT)
    requires value % MEMORY_ALIGN == 0
    ensures value + MEMORY_ALIGN - 1 <= SIZE_MAX
  {
  }

  /** An aligned request passes through the alignment step unchanged. */
  lemma AlignedUnchanged(value: SizeT)
    requires value % MEMORY_ALIGN == 0
    ensures AlignUpOverflow(value) == Value(value)
  {
    AlignedBelowMax(value);
    var r := AlignUpOverflow(value);
    MultiplesApart(value, r.value);
  }

  /** Aligning keeps order: a larger request never becomes a smaller block. */
  lemma AlignMonotone(less: SizeT, more: SizeT)
    requires less <= more && AlignUpOverflow(more).Value?
    ensures AlignUpOverflow(less).Value? && AlignUpOverflow(less).value <= AlignUpOverflow(more).value
  {
    var a, b := AlignUpOverflow(less).value, AlignUpOverflow(more).value;
    if a > b {
      MultiplesBetween(b, a);
    }
  }

  lemma MultiplesBetween(b: nat, a: nat)
    requires a % MEMORY_ALIGN == 0 && b % MEMORY_ALIGN == 0 && b < a
    ensures b + MEMORY_ALIGN <= a
  {
  }
}
