/**
 * The fixed-size-block allocator as the kernel keeps it: an array of nine
 * stack heads, one per size class, and a linked-list allocator as fallback.
 * Each stack, the chain of nodes behind `list_heads[i]`, is modelled by the
 * addresses of its blocks, head first.  Every method is proved to leave
 * exactly the state, and return exactly the result, that the matching
 * SizeClasses function computes from the old state; what those functions
 * keep safe is proved in HeapSafety.
 */
module FixedSizeBlock {
  import opened Layouts
  import opened SizeClasses
  import LinkedList
  import FreeList

  class FixedSizeBlockAllocator {
    /** `list_heads`: the free blocks of class i, the one `list_heads[i]` points to first. */
    const listHeads: array<seq<nat>>
    /** `fallback_allocator`, behind its spin lock. */
    const fallback: LinkedList.LinkedListAllocator

    /** One stack head per class, and the fallback's own invariant. */
    ghost predicate Valid()
      reads this, listHeads, fallback
    {
      listHeads.Length == |BLOCK_SIZES| && fallback.Valid()
    }

    /** The allocator's state as the SizeClasses functions see it. */
    ghost function State(): (st: FixedState)
      reads this, listHeads, fallback
      requires Valid()
      ensures Shaped(st)
    {
      FixedState(listHeads[..], fallback.regions)
    }

    /** `FixedSizeBlockAllocator::new`: every stack empty, an empty fallback. */
    constructor ()
      ensures Valid() && State() == Empty()
      ensures fresh(listHeads) && fresh(fallback)
    {
      listHeads := new seq<nat>[|BLOCK_SIZES|](_ => []);
      fallback := new LinkedList.LinkedListAllocator();
    }

    /**
     * `init`: hand `[heapStart, heapStart + heapSize)` to the fallback; the
     * stacks fill lazily, as blocks are freed.
     */
    method Init(heapStart: nat, heapSize: nat) returns (s: Status)
      requires Valid() && heapStart + heapSize <= USIZE_MAX
      modifies fallback
      ensures Valid()
      ensures (s, State()) == InitStep(old(State()), heapStart, heapSize)
    {
      s := fallback.Init(heapStart, heapSize);
    }

    /** `fallback_alloc`: let the fallback allocator serve the layout. */
    method FallbackAlloc(layout: Layout) returns (out: AllocOutcome)
      requires Valid() && ValidLayout(layout)
      modifies fallback
      ensures Valid()
      ensures (out, State()) == SizeClasses.FallbackAlloc(old(State()), layout)
    {
      out := fallback.Alloc(layout);
    }

    /**
     * `alloc`: for a class, take its stack and return its head, putting the
     * rest of the stack back; when the stack is empty, ask the fallback for a
     * block of the class's size and alignment.  With no class, the fallback
     * serves the layout itself.
     */
    method Alloc(layout: Layout) returns (out: AllocOutcome)
      requires Valid() && ValidLayout(layout)
      modifies listHeads, fallback
      ensures Valid()
      ensures (out, State()) == AllocStep(old(State()), layout)
    {
      ghost var before := State();
      match GetListIndex(layout)
      case Some(i) =>
        var head := listHeads[i];
        listHeads[i] := [];
        if |head| > 0 {
          listHeads[i] := head[1..];
          out := Ptr(head[0]);
          assert listHeads[..] == before.heads[i := head[1..]];
        } else {
          assert listHeads[..] == before.heads;
          var blockSize := BLOCK_SIZES[i];
          match FromSizeAlign(blockSize, blockSize)
          case None =>
            out := Panicked(UNWRAP_LAYOUT_ERROR);
          case Some(blockLayout) =>
            out := FallbackAlloc(blockLayout);
        }
      case None =>
        out := FallbackAlloc(layout);
    }

    /**
     * `dealloc`: for a class, take its stack, assert that a block holds a
     * node, and push `ptr` in front of the taken stack; with no class, the
     * fallback takes the block back.  The caller promises that a block the
     * fallback takes back lies in the address space.
     */
    method Dealloc(ptr: nat, layout: Layout) returns (s: Status)
      requires Valid() && ValidLayout(layout)
      requires GetListIndex(layout).None? && FreeList.SizeAlign(layout).Some? ==>
        ptr + FreeList.SizeAlign(layout).value.size <= USIZE_MAX
      modifies listHeads, fallback
      ensures Valid()
      ensures (s, State()) == DeallocStep(old(State()), ptr, layout)
    {
      ghost var before := State();
      match GetListIndex(layout)
      case Some(i) =>
        var next := listHeads[i];
        listHeads[i] := [];
        assert listHeads[..] == before.heads[i := []];
        var blockSize := BLOCK_SIZES[i];
        if !(BLOCK_NODE_SIZE <= blockSize) {
          return Failed(NODE_SIZE_FAILED);
        }
        if !(BLOCK_NODE_ALIGN <= blockSize) {
          return Failed(NODE_ALIGN_FAILED);
        }
        listHeads[i] := [ptr] + next;
        s := Done;
        assert listHeads[..] == before.heads[i := [ptr] + next];
      case None =>
        s := fallback.Dealloc(ptr, layout);
    }
  }
}
