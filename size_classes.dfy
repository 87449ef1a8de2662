/**
 * The fixed-size-block allocator as functions of its state: nine size
 * classes, one LIFO stack of free blocks per class, and the linked-list
 * allocator as the fallback for empty classes and for requests larger than
 * the largest class.  A stack is the chain of nodes behind `list_heads[i]`,
 * its head first.
 */
module SizeClasses {
  import opened Layouts
  import FreeList

  /** The block sizes, smallest first; a block holds at least one 8-byte node. */
  const BLOCK_SIZES: seq<nat> := [8, 16, 32, 64, 128, 256, 512, 1024, 2048]

  /** The largest block size; larger requests go to the fallback allocator. */
  const LARGEST_BLOCK: nat := 2048

  /** Size of the node a free block holds: one `Option<&mut ListNode>`. */
  const BLOCK_NODE_SIZE: nat := 8

  /** Alignment of that node. */
  const BLOCK_NODE_ALIGN: nat := 8

  /**
   * `BLOCK_SIZES` lists nine powers of two, strictly increasing, each twice
   * the one before, from 8 to 2048.
   */
  lemma BlockSizesShape()
    ensures |BLOCK_SIZES| == 9 && BLOCK_SIZES[0] == 8 && BLOCK_SIZES[8] == LARGEST_BLOCK
    ensures forall i :: 0 <= i < |BLOCK_SIZES| ==> IsPowerOfTwo(BLOCK_SIZES[i])
    ensures forall i :: 0 < i < |BLOCK_SIZES| ==> BLOCK_SIZES[i] == 2 * BLOCK_SIZES[i - 1]
    ensures forall i, j :: 0 <= i < j < |BLOCK_SIZES| ==> BLOCK_SIZES[i] < BLOCK_SIZES[j]
  {
    assert IsPowerOfTwo(2) && IsPowerOfTwo(4) && IsPowerOfTwo(8);
    assert IsPowerOfTwo(16) && IsPowerOfTwo(32) && IsPowerOfTwo(64);
    assert IsPowerOfTwo(128) && IsPowerOfTwo(256) && IsPowerOfTwo(512);
    assert IsPowerOfTwo(1024) && IsPowerOfTwo(2048);
  }

  /**
   * `Iterator::position` over `BLOCK_SIZES[from..]`: the index of the first
   * block size that is at least `required`.
   */
  function Position(required: nat, from: nat): (r: Option<nat>)
    requires from <= |BLOCK_SIZES|
    ensures r.Some? ==> from <= r.value < |BLOCK_SIZES| && BLOCK_SIZES[r.value] >= required
    ensures r.Some? ==> forall j :: from <= j < r.value ==> BLOCK_SIZES[j] < required
    ensures r.None? <==> forall j :: from <= j < |BLOCK_SIZES| ==> BLOCK_SIZES[j] < required
    decreases |BLOCK_SIZES| - from
  {
    if from == |BLOCK_SIZES| then None
    else if BLOCK_SIZES[from] >= required then Some(from)
    else Position(required, from + 1)
  }

  /** The block size a layout needs: the larger of its size and alignment. */
  function RequiredBlockSize(layout: Layout): (r: nat)
    ensures r >= layout.size && r >= layout.align
  {
    Max(layout.size, layout.align)
  }

  /**
   * `get_list_index`: the smallest class whose block size covers both the
   * size and the alignment of the layout; none when the layout needs more
   * than the largest block.
   */
  function GetListIndex(layout: Layout): (r: Option<nat>)
    ensures r.Some? ==> r.value < |BLOCK_SIZES| && BLOCK_SIZES[r.value] >= RequiredBlockSize(layout)
    ensures r.Some? ==> forall j :: 0 <= j < r.value ==> BLOCK_SIZES[j] < RequiredBlockSize(layout)
    ensures r.None? <==> RequiredBlockSize(layout) > LARGEST_BLOCK
  {
    Position(RequiredBlockSize(layout), 0)
  }

  /**
   * A block of the class `get_list_index` picks serves the layout: it is at
   * least as large as the layout, an address aligned to the block size is
   * aligned as the layout asks, and the block size is within a factor of two
   * of what the layout needs (the smallest class aside).
   */
  lemma ClassServesLayout(layout: Layout)
    requires ValidLayout(layout) && GetListIndex(layout).Some?
    ensures var bs := BLOCK_SIZES[GetListIndex(layout).value];
      bs >= layout.size && bs % layout.align == 0 &&
      (bs == BLOCK_SIZES[0] || bs < 2 * RequiredBlockSize(layout))
  {
    BlockSizesShape();
    var i := GetListIndex(layout).value;
    PowerOfTwoDivides(BLOCK_SIZES[i], layout.align);
    if i > 0 {
      assert BLOCK_SIZES[i - 1] < RequiredBlockSize(layout);
    }
  }

  /**
   * The allocator's state: the stack of free blocks of each class, head
   * first, and the free list of the fallback linked-list allocator.
   */
  datatype FixedState = FixedState(heads: seq<seq<nat>>, fallback: seq<FreeList.Region>)

  /** `list_heads` is an array with one entry per class. */
  predicate Shaped(st: FixedState)
  {
    |st.heads| == |BLOCK_SIZES|
  }

  /** `FixedSizeBlockAllocator::new`: every stack empty, the fallback list empty. */
  function Empty(): (st: FixedState)
    ensures Shaped(st)
    ensures forall i :: 0 <= i < |BLOCK_SIZES| ==> st.heads[i] == []
    ensures st.fallback == []
  {
    FixedState(seq(|BLOCK_SIZES|, _ => []), [])
  }

  /** `init`: hand the heap to the fallback allocator; the stacks fill lazily. */
  function InitStep(st: FixedState, heapStart: nat, heapSize: nat): (Status, FixedState)
  {
    var (s, fb) := FreeList.ReturnStep(st.fallback, heapStart, heapSize);
    (s, st.(fallback := fb))
  }

  /** `fallback_alloc`: run the linked-list allocator's `alloc` on its list. */
  function FallbackAlloc(st: FixedState, layout: Layout): (AllocOutcome, FixedState)
    requires ValidLayout(layout)
  {
    var (out, fb) := FreeList.AllocStep(st.fallback, layout);
    (out, st.(fallback := fb))
  }

  /** The message of `Result::unwrap` on a `LayoutError`. */
  const UNWRAP_LAYOUT_ERROR: string := "called `Result::unwrap()` on an `Err` value: LayoutError"

  /**
   * `alloc`: classify the layout; for a class, pop the head of its stack,
   * or when the stack is empty ask the fallback for a block of the class's
   * size aligned to that size; with no class, pass the layout on unchanged.
   */
  function AllocStep(st: FixedState, layout: Layout): (AllocOutcome, FixedState)
    requires Shaped(st) && ValidLayout(layout)
  {
    match GetListIndex(layout)
    case Some(i) =>
      var stack := st.heads[i];
      if |stack| > 0 then
        (Ptr(stack[0]), st.(heads := st.heads[i := stack[1..]]))
      else
        var blockSize := BLOCK_SIZES[i];
        (match FromSizeAlign(blockSize, blockSize)
         case None => (Panicked(UNWRAP_LAYOUT_ERROR), st)
         case Some(blockLayout) => FallbackAlloc(st, blockLayout))
    case None => FallbackAlloc(st, layout)
  }

  /** The messages of the two assertions in `dealloc`. */
  const NODE_SIZE_FAILED: string := "assertion failed: mem::size_of::<ListNode>() <= block_size"
  const NODE_ALIGN_FAILED: string := "assertion failed: mem::align_of::<ListNode>() <= block_size"

  /**
   * `dealloc`: for a class, take its stack, assert that a block holds a
   * node, and push `ptr` as the new head in front of the taken stack; with
   * no class, pass the block on to the fallback allocator.
   */
  function DeallocStep(st: FixedState, ptr: nat, layout: Layout): (Status, FixedState)
    requires Shaped(st) && ValidLayout(layout)
  {
    match GetListIndex(layout)
    case Some(i) =>
      var stack := st.heads[i];
      var blockSize := BLOCK_SIZES[i];
      var taken := st.(heads := st.heads[i := []]);
      if !(BLOCK_NODE_SIZE <= blockSize) then (Failed(NODE_SIZE_FAILED), taken)
      else if !(BLOCK_NODE_ALIGN <= blockSize) then (Failed(NODE_ALIGN_FAILED), taken)
      else (Done, st.(heads := st.heads[i := [ptr] + stack]))
    case None =>
      var (s, fb) := FreeList.DeallocStep(st.fallback, ptr, layout);
      (s, st.(fallback := fb))
  }

  /** After `new` and `init`, every stack is empty and the fallback holds the heap as one region. */
  lemma InitSpec(heapStart: nat, heapSize: nat)
    ensures var (s, st) := InitStep(Empty(), heapStart, heapSize);
      Shaped(st) && (forall i :: 0 <= i < |BLOCK_SIZES| ==> st.heads[i] == []) &&
      (s.Done? <==> heapStart % FreeList.NODE_ALIGN == 0 && heapSize >= FreeList.NODE_SIZE) &&
      (s.Done? ==> st.fallback == [FreeList.Region(heapStart, heapSize)]) &&
      (s.Failed? ==> st.fallback == [])
  {
    FreeList.ReturnStepSpec([], heapStart, heapSize);
  }

  /**
   * `alloc` for a class whose stack is not empty returns the head of that
   * stack and pops it; no other stack and not the fallback list changes.
   */
  lemma AllocFromStack(st: FixedState, layout: Layout)
    requires Shaped(st) && ValidLayout(layout)
    requires GetListIndex(layout).Some? && |st.heads[GetListIndex(layout).value]| > 0
    ensures var i := GetListIndex(layout).value;
      var (out, st') := AllocStep(st, layout);
      out == Ptr(st.heads[i][0]) && Shaped(st') &&
      st'.heads[i] == st.heads[i][1..] && st'.fallback == st.fallback &&
      forall j :: 0 <= j < |BLOCK_SIZES| && j != i ==> st'.heads[j] == st.heads[j]
  {
  }

  /** The layout of a block of class i: size and alignment both its block size. */
  function BlockLayout(i: nat): (l: Layout)
    requires i < |BLOCK_SIZES|
    ensures ValidLayout(l) && l.size == l.align == BLOCK_SIZES[i]
  {
    BlockSizesShape();
    Layout(BLOCK_SIZES[i], BLOCK_SIZES[i])
  }

  /**
   * A block's layout: size and alignment both the class's block size.  The
   * fallback adjusts it to that alignment and to a size of the block size,
   * or of one node of the fallback list for the 8-byte class.
   */
  lemma BlockLayoutAdjusted(i: nat)
    requires i < |BLOCK_SIZES|
    ensures var bs := BLOCK_SIZES[i];
      FromSizeAlign(bs, bs) == Some(BlockLayout(i)) &&
      FreeList.SizeAlign(BlockLayout(i)) ==
        Some(FreeList.Adjusted(Max(bs, FreeList.NODE_SIZE), bs))
  {
    BlockSizesShape();
    var bs := BLOCK_SIZES[i];
    var adj := FreeList.SizeAlign(BlockLayout(i)).value;
    assert adj.align == bs;
    if bs == 8 {
      assert adj.size == FreeList.NODE_SIZE;
    } else {
      assert adj.size % bs == 0 && bs <= adj.size < 2 * bs;
      SingleMultiple(adj.size, bs);
    }
  }

  /** The only multiple of m in [m, 2m) is m. */
  lemma SingleMultiple(x: nat, m: nat)
    requires m > 0 && x % m == 0 && m <= x < 2 * m
    ensures x == m
  {
    DivModUnique(x, m, 1, x - m);
  }

  /**
   * `alloc` for a class whose stack is empty passes the fallback the
   * layout (block size, block size), not the caller's layout, and leaves
   * the stacks as they were; the `unwrap` never panics.
   */
  lemma AllocFromFallback(st: FixedState, layout: Layout)
    requires Shaped(st) && ValidLayout(layout)
    requires GetListIndex(layout).Some? && st.heads[GetListIndex(layout).value] == []
    ensures AllocStep(st, layout) == FallbackAlloc(st, BlockLayout(GetListIndex(layout).value)) &&
      AllocStep(st, layout).1.heads == st.heads
  {
    BlockLayoutAdjusted(GetListIndex(layout).value);
  }

  /** With no class, `alloc` and `dealloc` give the caller's layout to the fallback unchanged. */
  lemma OversizedDelegated(st: FixedState, ptr: nat, layout: Layout)
    requires Shaped(st) && ValidLayout(layout) && RequiredBlockSize(layout) > LARGEST_BLOCK
    ensures var (out, st') := AllocStep(st, layout);
      (out, st'.fallback) == FreeList.AllocStep(st.fallback, layout) && st'.heads == st.heads
    ensures var (s, st') := DeallocStep(st, ptr, layout);
      (s, st'.fallback) == FreeList.DeallocStep(st.fallback, ptr, layout) && st'.heads == st.heads
  {
  }

  /**
   * `dealloc` for a class never panics: both assertions hold for every
   * block size; it pushes `ptr` on that class's stack and changes nothing
   * else, in particular it gives nothing back to the fallback.
   */
  lemma DeallocToStack(st: FixedState, ptr: nat, layout: Layout)
    requires Shaped(st) && ValidLayout(layout) && GetListIndex(layout).Some?
    ensures var i := GetListIndex(layout).value;
      var (s, st') := DeallocStep(st, ptr, layout);
      s == Done && Shaped(st') &&
      st'.heads[i] == [ptr] + st.heads[i] && st'.fallback == st.fallback &&
      forall j :: 0 <= j < |BLOCK_SIZES| && j != i ==> st'.heads[j] == st.heads[j]
  {
    BlockSizesShape();
  }

  /**
   * The stacks are last in, first out: freeing a block of a class and then
   * allocating with a layout of the same class returns that very block and
   * restores the state.  Repeatedly allocating and freeing a small object
   * therefore takes no memory from the fallback.
   */
  lemma DeallocThenAlloc(st: FixedState, ptr: nat, freed: Layout, wanted: Layout)
    requires Shaped(st) && ValidLayout(freed) && ValidLayout(wanted)
    requires GetListIndex(freed).Some? && GetListIndex(wanted) == GetListIndex(freed)
    ensures var (s, mid) := DeallocStep(st, ptr, freed);
      Shaped(mid) && AllocStep(mid, wanted) == (Ptr(ptr), st)
  {
    DeallocToStack(st, ptr, freed);
    var i := GetListIndex(freed).value;
    var mid := DeallocStep(st, ptr, freed).1;
    AllocFromStack(mid, wanted);
    assert mid.heads[i][1..] == st.heads[i];
    assert mid.heads[i := st.heads[i]] == st.heads;
  }

  /**
   * Conversely, allocating a block from a non-empty stack and freeing it
   * with the same layout puts it back on top and restores the state.
   */
  lemma AllocThenDealloc(st: FixedState, layout: Layout)
    requires Shaped(st) && ValidLayout(layout)
    requires GetListIndex(layout).Some? && |st.heads[GetListIndex(layout).value]| > 0
    ensures var (out, mid) := AllocStep(st, layout);
      out.Ptr? && Shaped(mid) && DeallocStep(mid, out.addr, layout) == (Done, st)
  {
    var i := GetListIndex(layout).value;
    AllocFromStack(st, layout);
    var (out, mid) := AllocStep(st, layout);
    DeallocToStack(mid, out.addr, layout);
    assert [st.heads[i][0]] + st.heads[i][1..] == st.heads[i];
    assert mid.heads[i := st.heads[i]] == st.heads;
  }
}
