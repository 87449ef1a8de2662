/**
 * The linked-list allocator as the kernel keeps it: one object whose free
 * list, the chain of nodes behind the zero-size sentinel `head`, its methods
 * update in place.  The chain is modelled by the sequence of regions its
 * nodes describe, in list order; every method is proved to leave exactly the
 * list, and return exactly the result, that the matching FreeList function
 * computes from the old list.
 */
module LinkedList {
  import opened Layouts
  import opened FreeList

  class LinkedListAllocator {
    /** The nodes behind `head`, the one `head.next` points to first. */
    var regions: seq<Region>

    /** Every linked node satisfies what `return_free_region` asserted when linking it. */
    ghost predicate Valid()
      reads this
    {
      AllWellFormed(regions)
    }

    /** `LinkedListAllocator::new`: `head` is a zero-size node with no successor. */
    constructor ()
      ensures Valid() && regions == []
    {
      regions := [];
    }

    /**
     * `init`: register `[heapStart, heapStart + heapSize)` as one free
     * region.  The caller promises that the range is memory of the address
     * space; the alignment and minimum size are asserted, not assumed.
     */
    method Init(heapStart: nat, heapSize: nat) returns (st: Status)
      requires Valid() && heapStart + heapSize <= USIZE_MAX
      modifies this
      ensures Valid()
      ensures (st, regions) == ReturnStep(old(regions), heapStart, heapSize)
    {
      st := ReturnFreeRegion(heapStart, heapSize);
    }

    /**
     * `return_free_region`: assert that the address is aligned for a node
     * and the size holds one, then link a node for the region right behind
     * `head`, in front of the old list.
     */
    method ReturnFreeRegion(address: nat, size: nat) returns (st: Status)
      requires Valid() && address + size <= USIZE_MAX
      modifies this
      ensures Valid()
      ensures (st, regions) == ReturnStep(old(regions), address, size)
    {
      if AlignUp(address, NODE_ALIGN) != address {
        return Failed("assertion `left == right` failed");
      }
      if size < NODE_SIZE {
        return Failed("assertion failed: size >= mem::size_of::<ListNode>()");
      }
      regions := [Region(address, size)] + regions;
      st := Done;
    }

    /**
     * `take_free_region`: walk the list from `head` with a cursor, and unlink
     * and return the first region `is_usable_free_region` accepts, together
     * with the start it picked; the other nodes keep their order.
     */
    method TakeFreeRegion(size: nat, align: nat) returns (taken: Option<(Region, nat)>)
      requires Valid() && IsPowerOfTwo(align)
      modifies this
      ensures Valid()
      ensures var found := FirstFit(old(regions), size, align);
        taken.Some? == found.Some? &&
        (found.None? ==> regions == old(regions)) &&
        (found.Some? ==>
           var i := found.value;
           taken.value == (old(regions)[i], AlignUp(old(regions)[i].start, align)) &&
           regions == Unlink(old(regions), i))
    {
      var cursor := 0;
      while cursor < |regions|
        invariant cursor <= |regions| && regions == old(regions)
        invariant forall j :: 0 <= j < cursor ==> !IsUsableFreeRegion(regions[j], size, align).Fits?
      {
        match IsUsableFreeRegion(regions[cursor], size, align)
        case Fits(allocStart) =>
          var region := regions[cursor];
          regions := Unlink(regions, cursor);
          return Some((region, allocStart));
        case _ =>
          cursor := cursor + 1;
      }
      return None;
    }

    /**
     * `alloc`: adjust the layout, take the first usable region, and return
     * the bytes behind the block to the list when there are any.
     */
    method Alloc(layout: Layout) returns (out: AllocOutcome)
      requires Valid() && ValidLayout(layout)
      modifies this
      ensures Valid()
      ensures (out, regions) == AllocStep(old(regions), layout)
    {
      var adjusted := SizeAlign(layout);
      if adjusted.None? {
        return Panicked("Adjusting alignment failed.");
      }
      out := Carve(adjusted.value.size, adjusted.value.align);
    }

    /**
     * The body of `alloc` after `size_align`: take the first usable region
     * and return the bytes behind the block to the list when there are any.
     */
    method Carve(size: nat, align: nat) returns (out: AllocOutcome)
      requires Valid() && IsPowerOfTwo(align) && align >= NODE_ALIGN && size % NODE_ALIGN == 0
      modifies this
      ensures Valid()
      ensures (out, regions) == AllocAdjusted(old(regions), size, align)
    {
      ghost var before := regions;
      ghost var found := FirstFit(before, size, align);
      var taken := TakeFreeRegion(size, align);
      match taken
      case None =>
        out := Null;
      case Some((region, allocStart)) =>
        AllocAdjustedFound(before, size, align, found.value);
        if allocStart + size > USIZE_MAX {
          return Panicked("Overflow");
        }
        var allocEnd := allocStart + size;
        var excess := region.End() - allocEnd;
        if excess > 0 {
          var st := ReturnFreeRegion(allocEnd, excess);
          match st
          case Done => out := Ptr(allocStart);
          case Failed(m) => out := Panicked(m);
        } else {
          out := Ptr(allocStart);
        }
    }

    /**
     * `dealloc`: recompute the adjusted size and return `[ptr, ptr + size)`
     * to the front of the list.  The caller promises that the block it frees
     * lies in the address space.
     */
    method Dealloc(ptr: nat, layout: Layout) returns (st: Status)
      requires Valid() && ValidLayout(layout)
      requires SizeAlign(layout).Some? ==> ptr + SizeAlign(layout).value.size <= USIZE_MAX
      modifies this
      ensures Valid()
      ensures (st, regions) == DeallocStep(old(regions), ptr, layout)
    {
      var adjusted := SizeAlign(layout);
      if adjusted.None? {
        return Failed("Adjusting alignment failed.");
      }
      st := ReturnFreeRegion(ptr, adjusted.value.size);
    }
  }
}
