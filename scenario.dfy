/**
 * A worked run of the two tiers on a 4 KiB heap at an 8-aligned address
 * `a`: a 24-byte request lands in the 32-byte class and is carved from the
 * heap, a 5000-byte request fails, and freeing the first block and asking
 * again returns the very same address.
 */
module Scenario {
  import opened Layouts
  import FL = FreeList
  import opened SizeClasses

  const HEAP_SIZE: nat := 4096
  const SMALL: Layout := Layout(24, 8)
  const LARGE: Layout := Layout(5000, 8)

  /** A 24-byte, 8-aligned request needs a block of 24 bytes: the 32-byte class, index 2. */
  lemma SmallClass()
    ensures ValidLayout(SMALL) && GetListIndex(SMALL) == Some(2) && BLOCK_SIZES[2] == 32
  {
    assert IsPowerOfTwo(8) by { assert IsPowerOfTwo(2) && IsPowerOfTwo(4); }
    assert Position(24, 2) == Some(2);
    assert Position(24, 1) == Some(2);
  }

  /** A 5000-byte request is larger than every class. */
  lemma LargeHasNoClass()
    ensures ValidLayout(LARGE) && GetListIndex(LARGE).None?
  {
    assert IsPowerOfTwo(8) by { assert IsPowerOfTwo(2) && IsPowerOfTwo(4); }
  }

  /**
   * The fallback, holding the whole heap as one region, serves a 32-byte
   * block aligned to 32 from the region's first 32-aligned address and
   * keeps the bytes behind it as one region.
   */
  lemma CarveFirstBlock(a: nat)
    requires a % FL.NODE_ALIGN == 0 && a + HEAP_SIZE <= USIZE_MAX
    ensures var p := AlignUp(a, 32);
      a <= p < a + 32 && p % 32 == 0 &&
      FL.AllocStep([FL.Region(a, HEAP_SIZE)], BlockLayout(2)) ==
        (Ptr(p), [FL.Region(p + 32, a + HEAP_SIZE - (p + 32))])
  {
    var rs := [FL.Region(a, HEAP_SIZE)];
    var p := AlignUp(a, 32);
    BlockLayoutAdjusted(2);
    assert BLOCK_SIZES[2] == 32;
    var adj := FL.SizeAlign(BlockLayout(2)).value;
    assert adj == FL.Adjusted(32, 32);
    assert FL.IsUsableFreeRegion(rs[0], 32, 32) == FL.Fits(p);
    assert FL.FirstFit(rs, 32, 32) == Some(0);
    FL.AllocStepFound(rs, BlockLayout(2), adj, 0);
    var rest := FL.Region(p + 32, a + HEAP_SIZE - (p + 32));
    assert FL.Leftover(rs[0], p + 32) == [rest];
    assert FL.Unlink(rs, 0) == [];
    assert [rest] + [] == [rest];
  }

  /** A request larger than a free list's only region finds no usable region. */
  lemma LargeDoesNotFit(r: FL.Region)
    requires r.size < 5000
    ensures FL.AllocStep([r], LARGE) == (Null, [r])
  {
    LargeHasNoClass();
    FL.AllocStepSpec([r], LARGE);
    var adj := FL.SizeAlign(LARGE).value;
    assert !FL.IsUsableFreeRegion(r, adj.size, adj.align).Fits?;
  }

  /**
   * The run: `init` succeeds; the 24-byte request gets a block inside the
   * heap, from the 32-byte class; the 5000-byte request returns null and
   * changes nothing; freeing the first block succeeds; and asking for 24
   * bytes again returns the same block, taken off the class's stack.
   */
  lemma FourKiBHeap(a: nat)
    requires a % FL.NODE_ALIGN == 0 && a + HEAP_SIZE <= USIZE_MAX
    ensures var (s0, st0) := InitStep(Empty(), a, HEAP_SIZE);
      var (x, st1) := AllocStep(st0, SMALL);
      var (y, st2) := AllocStep(st1, LARGE);
      s0 == Done && GetListIndex(SMALL) == Some(2) &&
      x.Ptr? && a <= x.addr && x.addr + 32 <= a + HEAP_SIZE &&
      y == Null && st2 == st1 &&
      var (s3, st3) := DeallocStep(st2, x.addr, SMALL);
      s3 == Done && AllocStep(st3, SMALL) == (x, st2)
  {
    InitSpec(a, HEAP_SIZE);
    var st0 := InitStep(Empty(), a, HEAP_SIZE).1;
    assert st0.fallback == [FL.Region(a, HEAP_SIZE)];
    SmallClass();
    AllocFromFallback(st0, SMALL);
    CarveFirstBlock(a);
    var p := AlignUp(a, 32);
    var rest := FL.Region(p + 32, a + HEAP_SIZE - (p + 32));
    var st1 := st0.(fallback := [rest]);
    assert AllocStep(st0, SMALL) == (Ptr(p), st1);
    LargeHasNoClass();
    LargeDoesNotFit(rest);
    assert AllocStep(st1, LARGE) == (Null, st1);
    DeallocToStack(st1, p, SMALL);
    DeallocThenAlloc(st1, p, SMALL, SMALL);
  }
}
