/**
 * Address arithmetic and result types shared by both allocator tiers: the
 * 64-bit address space, power-of-two alignments, `align_up`, Rust's `Layout`
 * together with the invariant its constructor enforces, and the outcomes of
 * the `GlobalAlloc` entry points (a panic is an outcome, not a precondition).
 */
module Layouts {

  /** Largest value of a 64-bit `usize`. */
  const USIZE_MAX: nat := 0xFFFF_FFFF_FFFF_FFFF

  /** Largest value of a 64-bit `isize`; a `Layout`'s padded size never exceeds it. */
  const ISIZE_MAX: nat := 0x7FFF_FFFF_FFFF_FFFF

  function Max(a: nat, b: nat): (m: nat)
    ensures m >= a && m >= b && (m == a || m == b)
  {
    if a >= b then a else b
  }

  /** 1, 2, 4, 8, ... */
  predicate IsPowerOfTwo(n: nat)
  {
    n == 1 || (n >= 2 && n % 2 == 0 && IsPowerOfTwo(n / 2))
  }

  lemma MulAtLeast(d: int, m: int)
    requires d >= 1 && m > 0
    ensures d * m >= m
  {
  }

  /** Euclidean division has a unique quotient and remainder. */
  lemma DivModUnique(y: int, m: int, a: int, r: int)
    requires m > 0 && 0 <= r < m && y == a * m + r
    ensures y % m == r && y / m == a
  {
    var q, s := y / m, y % m;
    assert y == q * m + s;
    assert (q - a) * m == r - s;
    if q > a {
      MulAtLeast(q - a, m);
    } else if q < a {
      MulAtLeast(a - q, m);
    }
  }

  lemma MulMod(k: nat, m: nat)
    requires m > 0
    ensures (k * m) % m == 0
  {
    DivModUnique(k * m, m, k, 0);
  }

  /** The sum of two multiples of m is a multiple of m. */
  lemma AddAligned(a: nat, b: nat, m: nat)
    requires m > 0 && a % m == 0 && b % m == 0
    ensures (a + b) % m == 0
  {
    assert a == (a / m) * m && b == (b / m) * m;
    assert a + b == (a / m + b / m) * m;
    MulMod(a / m + b / m, m);
  }

  /** Divisibility is transitive. */
  lemma ModTransitive(x: nat, a: nat, b: nat)
    requires a > 0 && b > 0 && x % a == 0 && a % b == 0
    ensures x % b == 0
  {
    var p, q := x / a, a / b;
    assert x == p * a;
    assert a == q * b;
    assert x == (p * q) * b;
    MulMod(p * q, b);
  }

  /** Of two powers of two, the larger is a multiple of the smaller. */
  lemma {:induction false} PowerOfTwoDivides(a: nat, b: nat)
    requires IsPowerOfTwo(a) && IsPowerOfTwo(b) && b <= a
    ensures a % b == 0
  {
    if b != 1 {
      assert a != 1;
      PowerOfTwoDivides(a / 2, b / 2);
      var k := (a / 2) / (b / 2);
      assert a / 2 == k * (b / 2);
      assert a == k * b;
      MulMod(k, b);
    }
  }

  /** The larger of two powers of two is a power of two. */
  lemma MaxPowerOfTwo(a: nat, b: nat)
    requires IsPowerOfTwo(a) && IsPowerOfTwo(b)
    ensures IsPowerOfTwo(Max(a, b))
  {
  }

  /**
   * `align_up(addr, align)`: the least multiple of `align` that is not
   * below `addr`.  The kernel computes it with a bit mask, which agrees
   * with this rounding for the power-of-two alignments it is given.
   */
  function AlignUp(addr: nat, align: nat): (r: nat)
    requires align > 0
    ensures r % align == 0
    ensures addr <= r < addr + align
  {
    var rem := addr % align;
    if rem == 0 then addr
    else
      DivModUnique(addr + (align - rem), align, addr / align + 1, 0);
      addr + (align - rem)
  }

  /** An address that is already aligned is left where it is. */
  lemma AlignUpAligned(addr: nat, align: nat)
    requires align > 0 && addr % align == 0
    ensures AlignUp(addr, align) == addr
  {
  }

  /** Rust's `core::alloc::Layout`: a byte size and a power-of-two alignment. */
  datatype Layout = Layout(size: nat, align: nat)

  /**
   * The invariant `Layout::from_size_align` enforces: the alignment is a
   * power of two and the size, rounded up to it, does not exceed `isize::MAX`.
   */
  predicate ValidLayout(l: Layout)
  {
    IsPowerOfTwo(l.align) && l.size + l.align - 1 <= ISIZE_MAX
  }

  /** `Layout::from_size_align`, whose `Err` is `None` here. */
  function FromSizeAlign(size: nat, align: nat): (r: Option<Layout>)
    ensures r.Some? <==> ValidLayout(Layout(size, align))
    ensures r.Some? ==> r.value == Layout(size, align)
  {
    if IsPowerOfTwo(align) && size + align - 1 <= ISIZE_MAX then Some(Layout(size, align)) else None
  }

  datatype Option<T> = None | Some(value: T)

  /**
   * What `GlobalAlloc::alloc` leaves the caller with: a pointer, the null
   * pointer (out of memory), or a kernel panic with its message.
   */
  datatype AllocOutcome = Ptr(addr: nat) | Null | Panicked(message: string)

  /** What a call that returns nothing leaves: it completed, or it panicked. */
  datatype Status = Done | Failed(message: string)
}
