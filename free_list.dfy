/**
 * The logic of the linked-list (first-fit, splitting) allocator over an
 * abstract free list: a sequence of regions in list order, the node that
 * follows the zero-size sentinel `head` first.  Each function here either is
 * one of the allocator's own pure helpers or states, as a function of the old
 * list, what one of its state-changing operations leaves behind; the class in
 * LinkedList is proved to do exactly that.
 */
module FreeList {
  import opened Layouts

  /** `size_of::<ListNode>()`: a `usize` and a niche-optimised `Option<&mut ListNode>`. */
  const NODE_SIZE: nat := 16

  /** `align_of::<ListNode>()`. */
  const NODE_ALIGN: nat := 8

  /**
   * A free region as its list node describes it: the node is written at
   * `start` (`ListNode::start_addr`) and records the region's `size`.
   */
  datatype Region = Region(start: nat, size: nat)
  {
    /** `ListNode::end_addr`: one past the region's last byte. */
    function End(): nat { start + size }
  }

  /**
   * What `return_free_region` asserts of every node it links (aligned for a
   * node, large enough to hold one), and that `end_addr` does not overflow.
   */
  predicate WellFormed(r: Region)
  {
    r.start % NODE_ALIGN == 0 && r.size >= NODE_SIZE && r.End() <= USIZE_MAX
  }

  predicate AllWellFormed(rs: seq<Region>)
  {
    forall i :: 0 <= i < |rs| ==> WellFormed(rs[i])
  }

  predicate Disjoint(a: Region, b: Region)
  {
    a.End() <= b.start || b.End() <= a.start
  }

  /** Within(a, b): region `a` lies inside region `b`. */
  predicate Within(a: Region, b: Region)
  {
    b.start <= a.start && a.End() <= b.End()
  }

  /** No byte is described by two nodes of the list. */
  predicate PairwiseDisjoint(rs: seq<Region>)
  {
    forall i, j :: 0 <= i < j < |rs| ==> Disjoint(rs[i], rs[j])
  }

  predicate DisjointFromAll(r: Region, rs: seq<Region>)
  {
    forall i :: 0 <= i < |rs| ==> Disjoint(r, rs[i])
  }

  /** Total bytes the free list describes. */
  function FreeBytes(rs: seq<Region>): nat
  {
    if rs == [] then 0 else rs[0].size + FreeBytes(rs[1..])
  }

  /** The list without its element at index k, the others in their old order. */
  function Unlink<T>(rs: seq<T>, k: nat): (r: seq<T>)
    requires k < |rs|
    ensures |r| == |rs| - 1
    ensures forall j :: 0 <= j < k ==> r[j] == rs[j]
    ensures forall j :: k <= j < |r| ==> r[j] == rs[j + 1]
  {
    rs[..k] + rs[k + 1..]
  }

  /** A multiple of a power-of-two alignment of at least a node's is node-aligned. */
  lemma NodeAligned(x: nat, align: nat)
    requires IsPowerOfTwo(align) && align >= NODE_ALIGN && x % align == 0
    ensures x % NODE_ALIGN == 0
  {
    PowerOfTwoDivides(align, NODE_ALIGN);
    ModTransitive(x, align, NODE_ALIGN);
  }

  /** A positive multiple of m is at least m. */
  lemma PositiveMultiple(x: nat, m: nat)
    requires m > 0 && x > 0 && x % m == 0
    ensures x >= m
  {
    assert x == (x / m) * m;
    MulAtLeast(x / m, m);
  }

  /** The facts `size_align` relies on about its padded, node-sized result. */
  lemma PaddedSize(size: nat, align: nat)
    requires IsPowerOfTwo(align) && align >= NODE_ALIGN
    ensures var r := Max(AlignUp(size, align), NODE_SIZE);
      size <= r && r % NODE_ALIGN == 0 &&
      (size > 0 ==> r % align == 0) &&
      (r == NODE_SIZE || r < size + align)
  {
    var padded := AlignUp(size, align);
    NodeAligned(padded, align);
    if size > 0 && padded < NODE_SIZE {
      PositiveMultiple(padded, align);
      assert IsPowerOfTwo(16) by {
        assert IsPowerOfTwo(2) && IsPowerOfTwo(4) && IsPowerOfTwo(8);
      }
      PowerOfTwoDivides(NODE_SIZE, align);
    }
  }

  /** The size and alignment `size_align` hands to the list search. */
  datatype Adjusted = Adjusted(size: nat, align: nat)

  /**
   * `size_align`: raise the alignment to at least a node's, pad the size to
   * a multiple of it, and enforce a minimum size of one node.  `None` is the
   * panic of `.expect("Adjusting alignment failed.")`, which fires when the
   * raised alignment makes the layout exceed `isize::MAX`.
   */
  function SizeAlign(layout: Layout): (r: Option<Adjusted>)
    requires ValidLayout(layout)
    ensures r.None? <==> layout.size + Max(layout.align, NODE_ALIGN) - 1 > ISIZE_MAX
    ensures r.Some? ==> r.value.align == Max(layout.align, NODE_ALIGN) && IsPowerOfTwo(r.value.align)
    ensures r.Some? ==> NODE_SIZE <= r.value.size <= ISIZE_MAX && layout.size <= r.value.size
    ensures r.Some? ==> r.value.size % NODE_ALIGN == 0
    ensures r.Some? && layout.size > 0 ==> r.value.size % r.value.align == 0
    ensures r.Some? ==> r.value.size == NODE_SIZE || r.value.size < layout.size + r.value.align
    ensures r.Some? && layout.size == 0 ==> r.value.size == NODE_SIZE
  {
    MaxPowerOfTwo(layout.align, NODE_ALIGN);
    match FromSizeAlign(layout.size, Max(layout.align, NODE_ALIGN))
    case None => None
    case Some(l) =>
      PaddedSize(l.size, l.align);
      Some(Adjusted(Max(AlignUp(l.size, l.align), NODE_SIZE), l.align))
  }

  /** Why `is_usable_free_region` turns a region down, or the start it picks. */
  datatype Fit = Fits(start: nat) | AddOverflow | TooSmall | Sliver

  /**
   * `is_usable_free_region`: place the allocation at the first `align`-aligned
   * address of the region; it fits when `start + size` neither overflows
   * (`checked_add`) nor passes the region's end, and the bytes left over are
   * either none or enough for a node of their own.
   */
  function IsUsableFreeRegion(region: Region, size: nat, align: nat): (r: Fit)
    requires IsPowerOfTwo(align)
    ensures r.Fits? ==>
      r.start == AlignUp(region.start, align) &&
      r.start % align == 0 && region.start <= r.start < region.start + align &&
      r.start + size <= region.End()
  {
    var allocStart := AlignUp(region.start, align);
    if allocStart + size > USIZE_MAX then AddOverflow
    else if allocStart + size > region.End() then TooSmall
    else
      var excess := region.End() - (allocStart + size);
      if excess > 0 && excess < NODE_SIZE then Sliver
      else Fits(allocStart)
  }

  /**
   * `is_usable_free_region` accepts a region exactly when the block placed at
   * the region's first aligned address ends without overflowing, within the
   * region, and either at its end or at least a node before it.
   */
  lemma UsableExactly(region: Region, size: nat, align: nat)
    requires IsPowerOfTwo(align)
    ensures IsUsableFreeRegion(region, size, align).Fits? <==>
      (var s := AlignUp(region.start, align);
       s + size <= USIZE_MAX && s + size <= region.End() &&
       (s + size == region.End() || s + size + NODE_SIZE <= region.End()))
  {
  }

  /**
   * The index `take_free_region` stops at: the first region in list order
   * that `is_usable_free_region` accepts, or none.
   */
  function FirstFit(rs: seq<Region>, size: nat, align: nat): (r: Option<nat>)
    requires IsPowerOfTwo(align)
    ensures r.Some? ==> r.value < |rs| && IsUsableFreeRegion(rs[r.value], size, align).Fits?
    ensures r.Some? ==> forall j {:trigger IsUsableFreeRegion(rs[j], size, align)} :: 0 <= j < r.value ==> !IsUsableFreeRegion(rs[j], size, align).Fits?
    ensures r.None? <==> forall j {:trigger IsUsableFreeRegion(rs[j], size, align)} :: 0 <= j < |rs| ==> !IsUsableFreeRegion(rs[j], size, align).Fits?
  {
    if rs == [] then None
    else if IsUsableFreeRegion(rs[0], size, align).Fits? then Some(0)
    else
      match FirstFit(rs[1..], size, align)
      case None => None
      case Some(k) => Some(k + 1)
  }

  /**
   * `return_free_region` as a function of the old list: assert that the
   * address is node-aligned and the size holds a node, then link the new
   * node in front of the old list.
   */
  function ReturnStep(rs: seq<Region>, address: nat, size: nat): (Status, seq<Region>)
  {
    if AlignUp(address, NODE_ALIGN) != address then (Failed("assertion `left == right` failed"), rs)
    else if size < NODE_SIZE then (Failed("assertion failed: size >= mem::size_of::<ListNode>()"), rs)
    else (Done, [Region(address, size)] + rs)
  }

  /**
   * `alloc` as a function of the old list: adjust the layout, then search
   * and split the list with the adjusted size and alignment.
   */
  function AllocStep(rs: seq<Region>, layout: Layout): (AllocOutcome, seq<Region>)
    requires ValidLayout(layout)
  {
    match SizeAlign(layout)
    case None => (Panicked("Adjusting alignment failed."), rs)
    case Some(adj) => AllocAdjusted(rs, adj.size, adj.align)
  }

  /**
   * The part of `alloc` after `size_align`: take the first usable region
   * out of the list (`take_free_region`) and link the tail behind the block
   * back in when there is one.  The alignment gap in front of the block is
   * not returned to the list.
   */
  function AllocAdjusted(rs: seq<Region>, size: nat, align: nat): (AllocOutcome, seq<Region>)
    requires IsPowerOfTwo(align)
  {
    match FirstFit(rs, size, align)
    case None => (Null, rs)
    case Some(i) =>
      var region := rs[i];
      var rest := Unlink(rs, i);
      var allocStart := IsUsableFreeRegion(region, size, align).start;
      var allocEnd := allocStart + size;
      if allocEnd > USIZE_MAX then (Panicked("Overflow"), rest)
      else
        var excess: nat := region.End() - allocEnd;
        if excess > 0 then
          match ReturnStep(rest, allocEnd, excess)
          case (Done, after) => (Ptr(allocStart), after)
          case (Failed(m), after) => (Panicked(m), after)
        else (Ptr(allocStart), rest)
  }

  /**
   * `dealloc` as a function of the old list: recompute the adjusted size
   * and return `[ptr, ptr + size)` to the front of the list, with no search
   * and no coalescing.
   */
  function DeallocStep(rs: seq<Region>, ptr: nat, layout: Layout): (Status, seq<Region>)
    requires ValidLayout(layout)
  {
    match SizeAlign(layout)
    case None => (Failed("Adjusting alignment failed."), rs)
    case Some(adj) => ReturnStep(rs, ptr, adj.size)
  }

  /**
   * `return_free_region` links a node exactly when both of its assertions
   * hold: the node becomes the first of the list and the old list follows it
   * unchanged.  When an assertion fails, nothing has been linked.
   */
  lemma ReturnStepSpec(rs: seq<Region>, address: nat, size: nat)
    ensures var (st, after) := ReturnStep(rs, address, size);
      (st.Done? <==> address % NODE_ALIGN == 0 && size >= NODE_SIZE) &&
      (st.Done? ==> |after| == |rs| + 1 && after[0] == Region(address, size) && after[1..] == rs) &&
      (st.Failed? ==> after == rs)
  {
    if address % NODE_ALIGN == 0 {
      AlignUpAligned(address, NODE_ALIGN);
    }
  }

  /** The tail `alloc` links back in: the bytes behind the block, if there are any. */
  function Leftover(region: Region, blockEnd: nat): (r: seq<Region>)
    requires blockEnd <= region.End()
    ensures |r| <= 1 && (r == [] <==> blockEnd == region.End())
  {
    if blockEnd < region.End() then [Region(blockEnd, region.End() - blockEnd)] else []
  }

  /**
   * The block `alloc` carves out of the first usable region, at index i:
   * it starts at the region's first aligned address, lies inside the
   * region, ends node-aligned inside the address space, and leaves either
   * nothing or room for a node behind it.
   */
  lemma FoundBlock(rs: seq<Region>, size: nat, align: nat, i: nat)
    requires IsPowerOfTwo(align) && align >= NODE_ALIGN && size % NODE_ALIGN == 0
    requires FirstFit(rs, size, align) == Some(i)
    ensures var p := AlignUp(rs[i].start, align);
      IsUsableFreeRegion(rs[i], size, align) == Fits(p) &&
      p % align == 0 && p % NODE_ALIGN == 0 && (p + size) % NODE_ALIGN == 0 &&
      Within(Region(p, size), rs[i]) && p + size <= USIZE_MAX &&
      (p + size == rs[i].End() || p + size + NODE_SIZE <= rs[i].End())
  {
    var p := AlignUp(rs[i].start, align);
    NodeAligned(p, align);
    AddAligned(p, size, NODE_ALIGN);
    assert IsUsableFreeRegion(rs[i], size, align) == Fits(p);
  }

  /**
   * The search-and-split part of `alloc` when a usable region is found at
   * index i: the list becomes the leftover tail followed by the other nodes
   * in their old order.  Neither the `expect("Overflow")` nor the
   * assertions of `return_free_region` fire on this path.
   */
  lemma AllocAdjustedFound(rs: seq<Region>, size: nat, align: nat, i: nat)
    requires IsPowerOfTwo(align) && align >= NODE_ALIGN && size % NODE_ALIGN == 0
    requires FirstFit(rs, size, align) == Some(i)
    ensures var p := AlignUp(rs[i].start, align);
      AllocAdjusted(rs, size, align) == (Ptr(p), Leftover(rs[i], p + size) + Unlink(rs, i))
  {
    FoundBlock(rs, size, align, i);
    var p := AlignUp(rs[i].start, align);
    var rest := Unlink(rs, i);
    var tailSize := rs[i].End() - (p + size);
    AlignUpAligned(p + size, NODE_ALIGN);
    if tailSize == 0 {
      assert Leftover(rs[i], p + size) + rest == rest;
    }
  }

  /** The case of `alloc` in which the layout is adjusted and region i is the first usable one. */
  lemma AllocStepFound(rs: seq<Region>, layout: Layout, adj: Adjusted, i: nat)
    requires ValidLayout(layout) && SizeAlign(layout) == Some(adj)
    requires FirstFit(rs, adj.size, adj.align) == Some(i)
    ensures var p := AlignUp(rs[i].start, adj.align);
      AllocStep(rs, layout) == (Ptr(p), Leftover(rs[i], p + adj.size) + Unlink(rs, i))
  {
    AllocAdjustedFound(rs, adj.size, adj.align, i);
  }

  /**
   * What `alloc` does, case by case: it panics only when adjusting the
   * layout fails (the `expect("Overflow")` and the assertions on the split
   * path never fire); it returns null, leaving the list as it was, when no
   * region is usable; otherwise it returns the first aligned address of the
   * first usable region, aligned as the caller asked, the adjusted block lies
   * inside that region, the region is unlinked, and a non-empty tail behind
   * the block is linked in front of the remaining nodes, which keep their order.
   */
  lemma AllocStepSpec(rs: seq<Region>, layout: Layout)
    requires ValidLayout(layout)
    ensures var (out, after) := AllocStep(rs, layout);
      match SizeAlign(layout)
      case None => out.Panicked? && after == rs
      case Some(adj) =>
        match FirstFit(rs, adj.size, adj.align)
        case None => out == Null && after == rs
        case Some(i) =>
          var p := AlignUp(rs[i].start, adj.align);
          out == Ptr(p) && p % layout.align == 0 && p % NODE_ALIGN == 0 &&
          Within(Region(p, adj.size), rs[i]) && p + adj.size <= USIZE_MAX &&
          (p + adj.size) % NODE_ALIGN == 0 &&
          (p + adj.size == rs[i].End() || p + adj.size + NODE_SIZE <= rs[i].End()) &&
          after == Leftover(rs[i], p + adj.size) + Unlink(rs, i)
  {
    AllocStepCases(rs, layout);
    AllocBlock(rs, layout);
  }

  /** The outcome and new list of `alloc` in each of its three cases. */
  lemma AllocStepCases(rs: seq<Region>, layout: Layout)
    requires ValidLayout(layout)
    ensures match SizeAlign(layout)
      case None => AllocStep(rs, layout).0.Panicked? && AllocStep(rs, layout).1 == rs
      case Some(adj) =>
        match FirstFit(rs, adj.size, adj.align)
        case None => AllocStep(rs, layout) == (Null, rs)
        case Some(i) =>
          var p := AlignUp(rs[i].start, adj.align);
          AllocStep(rs, layout) == (Ptr(p), Leftover(rs[i], p + adj.size) + Unlink(rs, i))
  {
    match SizeAlign(layout)
    case None =>
    case Some(adj) =>
      match FirstFit(rs, adj.size, adj.align)
      case None => AllocStepNothingFits(rs, layout, adj);
      case Some(i) => AllocStepFound(rs, layout, adj, i);
  }

  /** Where the block `alloc` carves out of the first usable region lies. */
  lemma AllocBlock(rs: seq<Region>, layout: Layout)
    requires ValidLayout(layout)
    ensures match SizeAlign(layout)
      case None => true
      case Some(adj) =>
        match FirstFit(rs, adj.size, adj.align)
        case None => true
        case Some(i) =>
          var p := AlignUp(rs[i].start, adj.align);
          p % layout.align == 0 && p % NODE_ALIGN == 0 &&
          Within(Region(p, adj.size), rs[i]) && p + adj.size <= USIZE_MAX &&
          (p + adj.size) % NODE_ALIGN == 0 &&
          (p + adj.size == rs[i].End() || p + adj.size + NODE_SIZE <= rs[i].End())
  {
    match SizeAlign(layout)
    case None =>
    case Some(adj) =>
      match FirstFit(rs, adj.size, adj.align)
      case None =>
      case Some(i) =>
        FoundBlock(rs, adj.size, adj.align, i);
        PowerOfTwoDivides(adj.align, layout.align);
        ModTransitive(AlignUp(rs[i].start, adj.align), adj.align, layout.align);
  }

  /** The case of `alloc` in which the layout is adjusted and no region is usable. */
  lemma AllocStepNothingFits(rs: seq<Region>, layout: Layout, adj: Adjusted)
    requires ValidLayout(layout) && SizeAlign(layout) == Some(adj)
    requires FirstFit(rs, adj.size, adj.align) == None
    ensures AllocStep(rs, layout) == (Null, rs)
  {
  }

  /** `alloc` panics exactly when adjusting the layout fails. */
  lemma AllocPanicsOnlyOnAdjust(rs: seq<Region>, layout: Layout)
    requires ValidLayout(layout)
    ensures AllocStep(rs, layout).0.Panicked? <==> SizeAlign(layout).None?
  {
    AllocStepSpec(rs, layout);
  }

  /**
   * `alloc` returns null exactly when the layout can be adjusted and no
   * region of the list is usable, and then the list is left as it was.
   */
  lemma AllocNullIffNothingFits(rs: seq<Region>, layout: Layout)
    requires ValidLayout(layout)
    ensures var (out, after) := AllocStep(rs, layout);
      (out == Null <==>
         SizeAlign(layout).Some? &&
         forall j :: 0 <= j < |rs| ==>
           !IsUsableFreeRegion(rs[j], SizeAlign(layout).value.size, SizeAlign(layout).value.align).Fits?) &&
      (out == Null ==> after == rs)
  {
    AllocStepSpec(rs, layout);
  }

  lemma UnlinkDisjoint(rs: seq<Region>, k: nat)
    requires k < |rs| && PairwiseDisjoint(rs)
    ensures PairwiseDisjoint(Unlink(rs, k))
    ensures DisjointFromAll(rs[k], Unlink(rs, k))
  {
    var u := Unlink(rs, k);
    forall a, b | 0 <= a < b < |u|
      ensures Disjoint(u[a], u[b])
    {
      var a', b' := if a < k then a else a + 1, if b < k then b else b + 1;
      assert u[a] == rs[a'] && u[b] == rs[b'] && a' < b';
    }
    forall a | 0 <= a < |u|
      ensures Disjoint(rs[k], u[a])
    {
      var a' := if a < k then a else a + 1;
      assert u[a] == rs[a'];
    }
  }

  /** Removing a node from the list removes exactly its bytes from the total. */
  lemma {:induction false} UnlinkFreeBytes(rs: seq<Region>, k: nat)
    requires k < |rs|
    ensures FreeBytes(rs) == FreeBytes(Unlink(rs, k)) + rs[k].size
  {
    if k > 0 {
      UnlinkFreeBytes(rs[1..], k - 1);
      assert Unlink(rs, k) == [rs[0]] + Unlink(rs[1..], k - 1);
    } else {
      assert Unlink(rs, k) == rs[1..];
    }
  }

  /** Linking a leftover inside region i in front of the other nodes keeps the list's byte count honest. */
  lemma SplitFreeBytes(rs: seq<Region>, i: nat, block: Region)
    requires i < |rs| && Within(block, rs[i])
    ensures FreeBytes(Leftover(rs[i], block.End()) + Unlink(rs, i)) ==
            FreeBytes(rs) - (block.start - rs[i].start) - block.size
  {
    var rest := Unlink(rs, i);
    var tail := Leftover(rs[i], block.End());
    UnlinkFreeBytes(rs, i);
    if tail == [] {
      assert tail + rest == rest;
    } else {
      assert (tail + rest)[1..] == rest;
    }
  }

  /**
   * Splitting region i around a node-aligned block that leaves no sliver
   * behind it: every node stays well formed, the nodes stay pairwise
   * disjoint, the block overlaps none of them, and memory that was not free
   * does not become free.
   */
  lemma SplitPreserves(rs: seq<Region>, i: nat, block: Region, outside: Region)
    requires i < |rs| && AllWellFormed(rs) && PairwiseDisjoint(rs)
    requires Within(block, rs[i]) && block.End() % NODE_ALIGN == 0
    requires block.End() == rs[i].End() || block.End() + NODE_SIZE <= rs[i].End()
    ensures var after := Leftover(rs[i], block.End()) + Unlink(rs, i);
      AllWellFormed(after) && PairwiseDisjoint(after) &&
      DisjointFromAll(block, after) &&
      (DisjointFromAll(outside, rs) ==> DisjointFromAll(outside, after))
  {
    UnlinkDisjoint(rs, i);
    SplitElements(rs, i, block, outside);
    SplitPairs(rs, i, block);
  }

  /** Each node of the split list, on its own, for SplitPreserves. */
  lemma SplitElements(rs: seq<Region>, i: nat, block: Region, outside: Region)
    requires i < |rs| && AllWellFormed(rs) && PairwiseDisjoint(rs)
    requires Within(block, rs[i]) && block.End() % NODE_ALIGN == 0
    requires block.End() == rs[i].End() || block.End() + NODE_SIZE <= rs[i].End()
    requires DisjointFromAll(rs[i], Unlink(rs, i))
    ensures var after := Leftover(rs[i], block.End()) + Unlink(rs, i);
      AllWellFormed(after) && DisjointFromAll(block, after) &&
      (DisjointFromAll(outside, rs) ==> DisjointFromAll(outside, after))
  {
    var rest := Unlink(rs, i);
    var tail := Leftover(rs[i], block.End());
    var after := tail + rest;
    forall a | 0 <= a < |after|
      ensures WellFormed(after[a]) && Disjoint(block, after[a])
      ensures DisjointFromAll(outside, rs) ==> Disjoint(outside, after[a])
    {
      if a < |tail| {
        assert after[a] == tail[0] && Within(tail[0], rs[i]);
      } else {
        var k := a - |tail|;
        assert after[a] == rest[k] == rs[if k < i then k else k + 1];
      }
    }
  }

  /** The pairs of nodes of the split list, for SplitPreserves. */
  lemma SplitPairs(rs: seq<Region>, i: nat, block: Region)
    requires i < |rs| && Within(block, rs[i])
    requires PairwiseDisjoint(Unlink(rs, i)) && DisjointFromAll(rs[i], Unlink(rs, i))
    ensures PairwiseDisjoint(Leftover(rs[i], block.End()) + Unlink(rs, i))
  {
    var rest := Unlink(rs, i);
    var tail := Leftover(rs[i], block.End());
    var after := tail + rest;
    forall a, b | 0 <= a < b < |after|
      ensures Disjoint(after[a], after[b])
    {
      if a < |tail| {
        assert after[a] == tail[0] && Within(tail[0], rs[i]) && after[b] == rest[b - 1];
      } else {
        assert after[a] == rest[a - |tail|] && after[b] == rest[b - |tail|];
      }
    }
  }

  /**
   * `alloc` keeps every node well formed and the nodes pairwise disjoint; the
   * adjusted block it returns overlaps no node of the new list; memory that
   * was not free before is not free afterwards; and the free bytes shrink by
   * exactly the block and the alignment gap in front of it, which is lost.
   */
  lemma AllocPreservesList(rs: seq<Region>, layout: Layout, outside: Region)
    requires ValidLayout(layout) && AllWellFormed(rs) && PairwiseDisjoint(rs)
    ensures var (out, after) := AllocStep(rs, layout);
      AllWellFormed(after) && PairwiseDisjoint(after) &&
      (DisjointFromAll(outside, rs) ==> DisjointFromAll(outside, after)) &&
      (out.Ptr? ==>
         var adj := SizeAlign(layout).value;
         var i := FirstFit(rs, adj.size, adj.align).value;
         DisjointFromAll(Region(out.addr, adj.size), after) &&
         FreeBytes(rs) == FreeBytes(after) + (out.addr - rs[i].start) + adj.size)
  {
    AllocStepOutcome(rs, layout);
    var (out, after) := AllocStep(rs, layout);
    match SizeAlign(layout)
    case None =>
    case Some(adj) =>
      OutcomePreserves(rs, adj.size, FirstFit(rs, adj.size, adj.align), out, after, outside);
  }

  /**
   * What the search-and-split part of `alloc` produces, as a relation:
   * with nothing `found`, null and the old list; with region i found, a
   * block of `size` bytes inside it that ends node-aligned and leaves no
   * sliver, and the leftover tail linked in front of the other nodes.
   */
  predicate SearchOutcome(rs: seq<Region>, size: nat, found: Option<nat>, out: AllocOutcome, after: seq<Region>)
  {
    match found
    case None => out == Null && after == rs
    case Some(i) =>
      i < |rs| && out.Ptr? && Within(Region(out.addr, size), rs[i]) &&
      (out.addr + size) % NODE_ALIGN == 0 &&
      (out.addr + size == rs[i].End() || out.addr + size + NODE_SIZE <= rs[i].End()) &&
      after == Leftover(rs[i], out.addr + size) + Unlink(rs, i)
  }

  /** AllocStepSpec, restated through SearchOutcome once the layout is adjusted. */
  lemma AllocStepOutcome(rs: seq<Region>, layout: Layout)
    requires ValidLayout(layout)
    ensures var (out, after) := AllocStep(rs, layout);
      match SizeAlign(layout)
      case None => out.Panicked? && after == rs
      case Some(adj) => SearchOutcome(rs, adj.size, FirstFit(rs, adj.size, adj.align), out, after)
  {
    AllocStepSpec(rs, layout);
  }

  /**
   * AllocPreservesList once the layout is adjusted to `size` and the search
   * has stopped at `found`, for any outcome `alloc` is specified to produce.
   */
  lemma OutcomePreserves(rs: seq<Region>, size: nat, found: Option<nat>, out: AllocOutcome, after: seq<Region>, outside: Region)
    requires AllWellFormed(rs) && PairwiseDisjoint(rs)
    requires SearchOutcome(rs, size, found, out, after)
    ensures AllWellFormed(after) && PairwiseDisjoint(after) &&
      (DisjointFromAll(outside, rs) ==> DisjointFromAll(outside, after)) &&
      (out.Ptr? ==>
         found.Some? && found.value < |rs| &&
         DisjointFromAll(Region(out.addr, size), after) &&
         FreeBytes(rs) == FreeBytes(after) + (out.addr - rs[found.value].start) + size)
  {
    match found
    case None =>
    case Some(i) =>
      assert after == Leftover(rs[i], out.addr + size) + Unlink(rs, i);
      TakeBlock(rs, i, out.addr, size, after, outside);
  }

  /**
   * Splitting region i around a node-aligned block `[p, p + size)` that
   * leaves no sliver behind it: every node stays well formed, the nodes
   * stay pairwise disjoint, the block overlaps none of them, memory that
   * was not free does not become free, and the free bytes shrink by the
   * block and the gap in front of it.
   */
  lemma TakeBlock(rs: seq<Region>, i: nat, p: nat, size: nat, after: seq<Region>, outside: Region)
    requires i < |rs| && AllWellFormed(rs) && PairwiseDisjoint(rs)
    requires Within(Region(p, size), rs[i]) && (p + size) % NODE_ALIGN == 0
    requires p + size == rs[i].End() || p + size + NODE_SIZE <= rs[i].End()
    requires after == Leftover(rs[i], p + size) + Unlink(rs, i)
    ensures AllWellFormed(after) && PairwiseDisjoint(after) &&
      (DisjointFromAll(outside, rs) ==> DisjointFromAll(outside, after)) &&
      DisjointFromAll(Region(p, size), after) &&
      FreeBytes(rs) == FreeBytes(after) + (p - rs[i].start) + size
  {
    var block := Region(p, size);
    assert block.End() == p + size;
    SplitPreserves(rs, i, block, outside);
    SplitFreeBytes(rs, i, block);
  }

  /**
   * `dealloc` recomputes the adjusted size and links `[ptr, ptr + size)` in
   * front of the list, with no search and no coalescing; it panics, linking
   * nothing, when `ptr` is not node-aligned or the layout cannot be adjusted.
   */
  lemma DeallocStepSpec(rs: seq<Region>, ptr: nat, layout: Layout)
    requires ValidLayout(layout)
    ensures var (st, after) := DeallocStep(rs, ptr, layout);
      (st.Done? <==> SizeAlign(layout).Some? && ptr % NODE_ALIGN == 0) &&
      (st.Done? ==> after == [Region(ptr, SizeAlign(layout).value.size)] + rs) &&
      (st.Failed? ==> after == rs)
  {
    if SizeAlign(layout).Some? {
      ReturnStepSpec(rs, ptr, SizeAlign(layout).value.size);
    }
  }

  /**
   * Freeing a block that lies in the address space keeps every node well
   * formed; freeing one that overlaps no free region keeps the nodes pairwise
   * disjoint.
   */
  lemma DeallocPreservesList(rs: seq<Region>, ptr: nat, layout: Layout)
    requires ValidLayout(layout) && AllWellFormed(rs) && PairwiseDisjoint(rs)
    requires SizeAlign(layout).Some? && ptr + SizeAlign(layout).value.size <= USIZE_MAX
    ensures var after := DeallocStep(rs, ptr, layout).1;
      AllWellFormed(after) &&
      (DisjointFromAll(Region(ptr, SizeAlign(layout).value.size), rs) ==> PairwiseDisjoint(after))
  {
    DeallocStepSpec(rs, ptr, layout);
  }

  /**
   * Freeing a block and then allocating with the same layout returns the
   * same block and restores the list, provided the block is aligned as the
   * adjusted layout asks (as every block `alloc` hands out is): the freed
   * region is the head of the list and fits exactly, with no tail to link.
   */
  lemma DeallocThenAlloc(rs: seq<Region>, ptr: nat, layout: Layout)
    requires ValidLayout(layout) && SizeAlign(layout).Some?
    requires ptr % SizeAlign(layout).value.align == 0
    requires ptr + SizeAlign(layout).value.size <= USIZE_MAX
    ensures var (st, after) := DeallocStep(rs, ptr, layout);
      st == Done && AllocStep(after, layout) == (Ptr(ptr), rs)
  {
    var adj := SizeAlign(layout).value;
    NodeAligned(ptr, adj.align);
    DeallocStepSpec(rs, ptr, layout);
    var after := [Region(ptr, adj.size)] + rs;
    AlignUpAligned(ptr, adj.align);
    assert IsUsableFreeRegion(after[0], adj.size, adj.align) == Fits(ptr);
    assert FirstFit(after, adj.size, adj.align) == Some(0);
    AllocStepFound(after, layout, adj, 0);
    assert Unlink(after, 0) == rs;
  }
}
