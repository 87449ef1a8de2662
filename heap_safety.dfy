/**
 * Heap safety of the two tiers together.  The allocator accounts for
 * memory as the nodes of the fallback free list, the free blocks on the
 * class stacks, and the blocks handed out by `alloc` and not yet given back
 * to `dealloc`.  The accounting is a multiset of regions; the invariant says
 * its regions are pairwise disjoint and lie in the address space, so no
 * byte is accounted for twice.  It does not say every byte is accounted
 * for: the alignment gap in front of a carved block, and the upper 8 of
 * the 16 bytes the fallback reserves for an 8-byte-class block, leave the
 * accounting for good.  `alloc` and `dealloc` keep the invariant, so a
 * block `alloc` returns overlaps no other outstanding block and no free
 * memory.
 */
module HeapSafety {
  import opened Layouts
  import FL = FreeList
  import opened SizeClasses

  type Region = FL.Region

  /** A block returned by `alloc` and not yet freed, with the layout it was requested with. */
  datatype Block = Block(addr: nat, layout: Layout)

  /**
   * The size and alignment the allocator reserves for a layout: the class's
   * block size for both when the layout has a class, otherwise what the
   * fallback's `size_align` makes of the layout.
   */
  function Reserved(layout: Layout): (r: Option<FL.Adjusted>)
    requires ValidLayout(layout)
    ensures r.Some? ==> r.value.size > 0 && r.value.size >= layout.size && r.value.align > 0
    ensures r.Some? ==> r.value.align % layout.align == 0
  {
    match GetListIndex(layout)
    case Some(i) =>
      ClassServesLayout(layout);
      Some(FL.Adjusted(BLOCK_SIZES[i], BLOCK_SIZES[i]))
    case None =>
      var adj := FL.SizeAlign(layout);
      if adj.Some? then
        PowerOfTwoDivides(adj.value.align, layout.align);
        adj
      else None
  }

  /** What the allocator keeps about an outstanding block: a layout it reserves for, and the reserved alignment. */
  predicate BlockOk(b: Block)
  {
    ValidLayout(b.layout) && Reserved(b.layout).Some? &&
    b.addr % Reserved(b.layout).value.align == 0
  }

  predicate AllBlocksOk(live: seq<Block>)
  {
    forall k :: 0 <= k < |live| ==> BlockOk(live[k])
  }

  /** The bytes reserved for an outstanding block (none for a layout the allocator cannot serve). */
  function BlockRegion(b: Block): Region
  {
    var size := if ValidLayout(b.layout) && Reserved(b.layout).Some? then Reserved(b.layout).value.size else 0;
    FL.Region(b.addr, size)
  }

  /** The regions of the outstanding blocks. */
  function LiveBag(live: seq<Block>): multiset<Region>
  {
    if live == [] then multiset{}
    else LiveBag(live[..|live| - 1]) + multiset{BlockRegion(live[|live| - 1])}
  }

  /** The free blocks of one class, each its block size long. */
  function ClassBag(stack: seq<nat>, blockSize: nat): multiset<Region>
  {
    if stack == [] then multiset{}
    else multiset{FL.Region(stack[0], blockSize)} + ClassBag(stack[1..], blockSize)
  }

  /** The free blocks of the classes from `from` on. */
  function StackBag(heads: seq<seq<nat>>, sizes: seq<nat>, from: nat): multiset<Region>
    requires from <= |heads| <= |sizes|
    decreases |heads| - from
  {
    if from == |heads| then multiset{}
    else ClassBag(heads[from], sizes[from]) + StackBag(heads, sizes, from + 1)
  }

  /** The regions accounted for: free-list nodes, free class blocks and outstanding blocks. */
  function Accounted(st: FixedState, live: seq<Block>): multiset<Region>
    requires Shaped(st)
  {
    multiset(st.fallback) + StackBag(st.heads, BLOCK_SIZES, 0) + LiveBag(live)
  }

  /** No region occurs twice and no two regions share a byte. */
  predicate Separated(m: multiset<Region>)
  {
    (forall r :: r in m ==> m[r] == 1) &&
    (forall a, b :: a in m && b in m && a != b ==> FL.Disjoint(a, b))
  }

  /** Every region is non-empty and ends inside the address space. */
  predicate Bounded(m: multiset<Region>)
  {
    forall r :: r in m ==> 0 < r.size && r.End() <= USIZE_MAX
  }

  /** Every free block of class i is aligned to the class's block size. */
  predicate StacksAligned(heads: seq<seq<nat>>)
  {
    forall i, k :: 0 <= i < |heads| && i < |BLOCK_SIZES| && 0 <= k < |heads[i]| ==>
      heads[i][k] % BLOCK_SIZES[i] == 0
  }

  /** The heap-safety invariant of the allocator state and the outstanding blocks. */
  predicate Safe(st: FixedState, live: seq<Block>)
  {
    Shaped(st) && FL.AllWellFormed(st.fallback) && StacksAligned(st.heads) &&
    AllBlocksOk(live) && Separated(Accounted(st, live)) && Bounded(Accounted(st, live))
  }

  // ----- multiset bookkeeping -----

  /** A non-empty region is not disjoint from itself. */
  lemma NotSelfDisjoint(r: Region)
    requires r.size > 0
    ensures !FL.Disjoint(r, r)
  {
  }

  lemma {:induction false} LiveBagAppend(live: seq<Block>, b: Block)
    ensures LiveBag(live + [b]) == LiveBag(live) + multiset{BlockRegion(b)}
  {
    assert (live + [b])[..|live|] == live;
  }

  lemma {:induction false} LiveBagRemove(live: seq<Block>, k: nat)
    requires k < |live|
    ensures LiveBag(live) == LiveBag(FL.Unlink(live, k)) + multiset{BlockRegion(live[k])}
    decreases |live|
  {
    var n := |live| - 1;
    var init := live[..n];
    if k == n {
      assert FL.Unlink(live, k) == init;
    } else {
      LiveBagRemove(init, k);
      var r := FL.Unlink(live, k);
      assert r[..|r| - 1] == FL.Unlink(init, k);
      assert r[|r| - 1] == live[n];
    }
  }

  lemma {:induction false} StackBagFrame(heads: seq<seq<nat>>, sizes: seq<nat>, i: nat, s: seq<nat>, from: nat)
    requires i < from <= |heads| <= |sizes|
    ensures StackBag(heads[i := s], sizes, from) == StackBag(heads, sizes, from)
    decreases |heads| - from
  {
    if from < |heads| {
      StackBagFrame(heads, sizes, i, s, from + 1);
    }
  }

  /** Replacing stack i replaces its blocks in the bag and nothing else. */
  lemma {:induction false} StackBagUpdate(heads: seq<seq<nat>>, sizes: seq<nat>, i: nat, s: seq<nat>, from: nat)
    requires from <= i < |heads| <= |sizes|
    ensures StackBag(heads[i := s], sizes, from) + ClassBag(heads[i], sizes[i]) ==
            StackBag(heads, sizes, from) + ClassBag(s, sizes[i])
    decreases |heads| - from
  {
    var updated := heads[i := s];
    if from == i {
      StackBagUpdateHere(heads, sizes, from, s);
      assert updated == heads[from := s];
    } else {
      StackBagUpdate(heads, sizes, i, s, from + 1);
      StackBagUpdateStep(heads, sizes, i, s, from);
    }
  }

  lemma StackBagUpdateHere(heads: seq<seq<nat>>, sizes: seq<nat>, i: nat, s: seq<nat>)
    requires i < |heads| <= |sizes|
    ensures StackBag(heads[i := s], sizes, i) + ClassBag(heads[i], sizes[i]) ==
            StackBag(heads, sizes, i) + ClassBag(s, sizes[i])
  {
    var updated := heads[i := s];
    StackBagFrame(heads, sizes, i, s, i + 1);
    var rest := StackBag(heads, sizes, i + 1);
    var old_, new_ := ClassBag(heads[i], sizes[i]), ClassBag(s, sizes[i]);
    assert StackBag(updated, sizes, i) == new_ + rest;
    assert StackBag(heads, sizes, i) == old_ + rest;
    SwapOuter(new_, rest, old_);
  }

  lemma StackBagUpdateStep(heads: seq<seq<nat>>, sizes: seq<nat>, i: nat, s: seq<nat>, from: nat)
    requires from < i < |heads| <= |sizes|
    requires StackBag(heads[i := s], sizes, from + 1) + ClassBag(heads[i], sizes[i]) ==
             StackBag(heads, sizes, from + 1) + ClassBag(s, sizes[i])
    ensures StackBag(heads[i := s], sizes, from) + ClassBag(heads[i], sizes[i]) ==
            StackBag(heads, sizes, from) + ClassBag(s, sizes[i])
  {
    var updated := heads[i := s];
    var here := ClassBag(heads[from], sizes[from]);
    assert updated[from] == heads[from];
    assert StackBag(updated, sizes, from) == here + StackBag(updated, sizes, from + 1);
    assert StackBag(heads, sizes, from) == here + StackBag(heads, sizes, from + 1);
    Regroup(here, StackBag(updated, sizes, from + 1), ClassBag(heads[i], sizes[i]),
            StackBag(heads, sizes, from + 1), ClassBag(s, sizes[i]));
  }

  lemma SwapOuter(a: multiset<Region>, b: multiset<Region>, c: multiset<Region>)
    ensures (a + b) + c == (c + b) + a
  {
  }

  lemma Regroup(x: multiset<Region>, a: multiset<Region>, b: multiset<Region>,
                c: multiset<Region>, d: multiset<Region>)
    requires a + b == c + d
    ensures (x + a) + b == (x + c) + d
  {
    assert (x + a) + b == x + (a + b);
    assert (x + c) + d == x + (c + d);
  }

  /** Two equal entries of a sequence make its multiset count that region twice. */
  lemma TwoCopies(rs: seq<Region>, i: nat, j: nat)
    requires i < j < |rs| && rs[i] == rs[j]
    ensures multiset(rs)[rs[i]] >= 2
  {
    assert rs == rs[..j] + rs[j..];
    assert rs[i] in rs[..j];
    assert rs[j] in rs[j..];
    assert multiset(rs) == multiset(rs[..j]) + multiset(rs[j..]);
  }

  /** A pairwise-disjoint list of non-empty regions holds each region once. */
  lemma {:induction false} CountOnce(rs: seq<Region>)
    requires FL.PairwiseDisjoint(rs) && forall k :: 0 <= k < |rs| ==> rs[k].size > 0
    ensures forall r :: multiset(rs)[r] <= 1
  {
    if rs != [] {
      var tail := rs[1..];
      assert FL.PairwiseDisjoint(tail) by {
        forall a, b | 0 <= a < b < |tail|
          ensures FL.Disjoint(tail[a], tail[b])
        {
          assert tail[a] == rs[a + 1] && tail[b] == rs[b + 1];
        }
      }
      CountOnce(tail);
      assert rs == [rs[0]] + tail;
      assert multiset(rs) == multiset{rs[0]} + multiset(tail);
      if rs[0] in tail {
        var j :| 0 <= j < |tail| && tail[j] == rs[0];
        assert FL.Disjoint(rs[0], rs[j + 1]);
        NotSelfDisjoint(rs[0]);
      }
    }
  }

  /**
   * From a separated bag made of a free list and other regions: the list is
   * pairwise disjoint, the other regions are separated, and each of them is
   * disjoint from every node of the list.
   */
  lemma SplitSeparated(rs: seq<Region>, others: multiset<Region>)
    requires Separated(multiset(rs) + others)
    ensures FL.PairwiseDisjoint(rs) && Separated(others)
    ensures forall o :: o in others ==> FL.DisjointFromAll(o, rs)
  {
    var m := multiset(rs) + others;
    forall i, j | 0 <= i < j < |rs|
      ensures FL.Disjoint(rs[i], rs[j])
    {
      assert rs[i] in m && rs[j] in m;
      if rs[i] == rs[j] {
        TwoCopies(rs, i, j);
        assert false;
      }
    }
    forall o, j | o in others && 0 <= j < |rs|
      ensures FL.Disjoint(o, rs[j])
    {
      assert rs[j] in multiset(rs);
      assert o in m && rs[j] in m;
    }
    forall r | r in others
      ensures others[r] == 1
    {
      assert r in m;
    }
  }

  /**
   * The converse: a pairwise-disjoint well-formed list, separated other
   * regions disjoint from it, and one more non-empty block disjoint from
   * both, make a separated bag.
   */
  lemma JoinSeparated(rs: seq<Region>, others: multiset<Region>, blk: Region)
    requires FL.AllWellFormed(rs) && FL.PairwiseDisjoint(rs) && Separated(others)
    requires forall o :: o in others ==> FL.DisjointFromAll(o, rs) && FL.Disjoint(o, blk)
    requires FL.DisjointFromAll(blk, rs) && blk.size > 0
    ensures Separated(multiset(rs) + others + multiset{blk})
  {
    var m := multiset(rs) + others + multiset{blk};
    CountOnce(rs);
    NotSelfDisjoint(blk);
    forall r | r in m
      ensures m[r] == 1
    {
      if r in rs {
        var j :| 0 <= j < |rs| && rs[j] == r;
        NotSelfDisjoint(r);
        assert r != blk by { assert FL.Disjoint(blk, rs[j]); }
        assert r !in others;
      } else if r in others {
        assert r != blk by { assert FL.Disjoint(r, blk); }
      }
    }
    forall a, b | a in m && b in m && a != b
      ensures FL.Disjoint(a, b)
    {
      if a in rs && b in rs {
        var x :| 0 <= x < |rs| && rs[x] == a;
        var y :| 0 <= y < |rs| && rs[y] == b;
        if x < y { assert FL.Disjoint(rs[x], rs[y]); } else { assert FL.Disjoint(rs[y], rs[x]); }
      } else if a in rs && b in others {
        var x :| 0 <= x < |rs| && rs[x] == a;
        assert FL.Disjoint(b, rs[x]);
      } else if a in others && b in rs {
        var y :| 0 <= y < |rs| && rs[y] == b;
        assert FL.Disjoint(a, rs[y]);
      } else if a in rs {
        var x :| 0 <= x < |rs| && rs[x] == a;
        assert b == blk;
        assert FL.Disjoint(blk, rs[x]);
      } else if b in rs {
        var y :| 0 <= y < |rs| && rs[y] == b;
        assert a == blk;
        assert FL.Disjoint(blk, rs[y]);
      }
    }
  }

  /** A region inside another is disjoint from whatever the outer one is disjoint from. */
  lemma WithinDisjoint(inner: Region, outer: Region, other: Region)
    requires FL.Within(inner, outer) && FL.Disjoint(outer, other)
    ensures FL.Disjoint(inner, other) && FL.Disjoint(other, inner)
  {
  }

  lemma Cancel(a: multiset<Region>, b: multiset<Region>, x: multiset<Region>)
    requires a + x == b + x
    ensures a == b
  {
    assert forall r :: a[r] == (a + x)[r] - x[r];
    assert forall r :: b[r] == (b + x)[r] - x[r];
  }

  /** Every block of the stacks being empty, their bag is empty. */
  lemma {:induction false} StackBagEmpty(heads: seq<seq<nat>>, sizes: seq<nat>, from: nat)
    requires from <= |heads| <= |sizes|
    requires forall i :: 0 <= i < |heads| ==> heads[i] == []
    ensures StackBag(heads, sizes, from) == multiset{}
    decreases |heads| - from
  {
    if from < |heads| {
      StackBagEmpty(heads, sizes, from + 1);
    }
  }

  // ----- the fallback's grant -----

  /**
   * When the fallback's `alloc` hands out a block from a free list that,
   * together with other regions, forms a separated bag, then its new list,
   * the other regions and any non-empty front part of the block it
   * reserved form a separated bag again, in the address space.
   */
  lemma FallbackGrant(rs: seq<Region>, others: multiset<Region>, fl: Layout, blockSize: nat)
    requires ValidLayout(fl) && FL.AllWellFormed(rs)
    requires Separated(multiset(rs) + others) && Bounded(multiset(rs) + others)
    requires FL.SizeAlign(fl).Some? ==> 0 < blockSize <= FL.SizeAlign(fl).value.size
    ensures var (out, after) := FL.AllocStep(rs, fl);
      FL.AllWellFormed(after) &&
      (out.Ptr? ==>
         FL.SizeAlign(fl).Some? && out.addr % FL.SizeAlign(fl).value.align == 0 &&
         out.addr % fl.align == 0 &&
         Separated(multiset(after) + others + multiset{FL.Region(out.addr, blockSize)}) &&
         Bounded(multiset(after) + others + multiset{FL.Region(out.addr, blockSize)})) &&
      (!out.Ptr? ==> after == rs)
  {
    FL.AllocStepOutcome(rs, fl);
    FL.AllocStepCases(rs, fl);
    FL.AllocBlock(rs, fl);
    var (out, after) := FL.AllocStep(rs, fl);
    match FL.SizeAlign(fl)
    case None =>
    case Some(adj) =>
      GrantOutcome(rs, others, adj.size, FL.FirstFit(rs, adj.size, adj.align), out, after, blockSize);
  }

  /** FallbackGrant for any outcome the fallback's search is specified to produce. */
  lemma GrantOutcome(rs: seq<Region>, others: multiset<Region>, size: nat, found: Option<nat>,
                     out: AllocOutcome, after: seq<Region>, blockSize: nat)
    requires FL.AllWellFormed(rs) && 0 < blockSize <= size
    requires Separated(multiset(rs) + others) && Bounded(multiset(rs) + others)
    requires FL.SearchOutcome(rs, size, found, out, after)
    ensures FL.AllWellFormed(after) &&
      (out.Ptr? ==>
         Separated(multiset(after) + others + multiset{FL.Region(out.addr, blockSize)}) &&
         Bounded(multiset(after) + others + multiset{FL.Region(out.addr, blockSize)})) &&
      (!out.Ptr? ==> after == rs)
  {
    SplitSeparated(rs, others);
    FL.OutcomePreserves(rs, size, found, out, after, FL.Region(0, 0));
    if out.Ptr? {
      var i := found.value;
      var p := out.addr;
      var reserved := FL.Region(p, size);
      var blk := FL.Region(p, blockSize);
      assert FL.Within(blk, rs[i]);
      forall o | o in others
        ensures FL.DisjointFromAll(o, after) && FL.Disjoint(o, blk)
      {
        FL.OutcomePreserves(rs, size, found, out, after, o);
        WithinDisjoint(blk, rs[i], o);
      }
      forall j | 0 <= j < |after|
        ensures FL.Disjoint(blk, after[j])
      {
        WithinDisjoint(blk, reserved, after[j]);
      }
      JoinSeparated(after, others, blk);
      var m := multiset(after) + others + multiset{blk};
      forall r | r in m
        ensures 0 < r.size && r.End() <= USIZE_MAX
      {
        if r in after {
          var j :| 0 <= j < |after| && after[j] == r;
        } else if r in others {
          assert r in multiset(rs) + others;
        }
      }
    }
  }

  // ----- the theorems -----

  /** After `new` and `init` of a heap inside the address space, no block is outstanding and the invariant holds. */
  lemma InitSafe(heapStart: nat, heapSize: nat)
    requires heapStart + heapSize <= USIZE_MAX
    ensures Safe(InitStep(Empty(), heapStart, heapSize).1, [])
  {
    InitSpec(heapStart, heapSize);
    var st := InitStep(Empty(), heapStart, heapSize).1;
    assert FL.AllWellFormed(st.fallback);
    FreshSafe(st);
  }

  /** A state with empty stacks and at most one well-formed free region is safe with nothing outstanding. */
  lemma FreshSafe(st: FixedState)
    requires Shaped(st) && forall i :: 0 <= i < |BLOCK_SIZES| ==> st.heads[i] == []
    requires |st.fallback| <= 1 && FL.AllWellFormed(st.fallback)
    ensures Safe(st, [])
  {
    StackBagEmpty(st.heads, BLOCK_SIZES, 0);
    assert Accounted(st, []) == multiset(st.fallback);
    if |st.fallback| == 1 {
      assert FL.WellFormed(st.fallback[0]);
      assert multiset(st.fallback) == multiset{st.fallback[0]};
    }
  }

  /** Regrouping the accounted bag around the free list. */
  lemma AccountedAround(st: FixedState, live: seq<Block>)
    requires Shaped(st)
    ensures Accounted(st, live) == multiset(st.fallback) + (StackBag(st.heads, BLOCK_SIZES, 0) + LiveBag(live))
  {
  }

  /** Popping the head of stack i takes exactly its block out of the bag. */
  lemma PopBag(heads: seq<seq<nat>>, sizes: seq<nat>, i: nat)
    requires i < |heads| <= |sizes| && |heads[i]| > 0
    ensures StackBag(heads[i := heads[i][1..]], sizes, 0) + multiset{FL.Region(heads[i][0], sizes[i])} ==
            StackBag(heads, sizes, 0)
  {
    var bs := sizes[i];
    var tail := heads[i][1..];
    StackBagUpdate(heads, sizes, i, tail, 0);
    assert ClassBag(heads[i], bs) == multiset{FL.Region(heads[i][0], bs)} + ClassBag(tail, bs);
    Cancel(StackBag(heads[i := tail], sizes, 0) + multiset{FL.Region(heads[i][0], bs)}, StackBag(heads, sizes, 0), ClassBag(tail, bs));
  }

  /** Pushing p on stack i puts exactly its block into the bag. */
  lemma PushBag(heads: seq<seq<nat>>, sizes: seq<nat>, i: nat, p: nat)
    requires i < |heads| <= |sizes|
    ensures StackBag(heads[i := [p] + heads[i]], sizes, 0) == StackBag(heads, sizes, 0) + multiset{FL.Region(p, sizes[i])}
  {
    var bs := sizes[i];
    var pushed := [p] + heads[i];
    StackBagUpdate(heads, sizes, i, pushed, 0);
    assert pushed[1..] == heads[i];
    assert ClassBag(pushed, bs) == multiset{FL.Region(p, bs)} + ClassBag(heads[i], bs);
    Cancel(StackBag(heads[i := pushed], sizes, 0), StackBag(heads, sizes, 0) + multiset{FL.Region(p, bs)}, ClassBag(heads[i], bs));
  }

  /** Moving region bag r from the stacks to the outstanding blocks leaves the sum as it was. */
  lemma MoveOne(f: multiset<Region>, s: multiset<Region>, s': multiset<Region>,
                l: multiset<Region>, l': multiset<Region>, r: multiset<Region>)
    requires s' + r == s && l' == l + r
    ensures (f + s') + l' == (f + s) + l
  {
    assert (f + s') + (l + r) == f + (s' + r) + l;
  }

  /**
   * A step that only moves regions between the free list, the stacks and
   * the outstanding blocks, leaving the accounted bag as it was, keeps the
   * invariant once the list, the stacks and the blocks are each in order.
   */
  lemma SafeAfterMove(st: FixedState, live: seq<Block>, st': FixedState, live': seq<Block>)
    requires Safe(st, live) && Shaped(st')
    requires FL.AllWellFormed(st'.fallback) && StacksAligned(st'.heads) && AllBlocksOk(live')
    requires Accounted(st', live') == Accounted(st, live)
    ensures Safe(st', live')
  {
  }

  /** Popping the head of stack i and making it outstanding keeps the invariant. */
  lemma PopSafe(st: FixedState, live: seq<Block>, i: nat, b: Block)
    requires Safe(st, live) && i < |BLOCK_SIZES| && |st.heads[i]| > 0
    requires b.addr == st.heads[i][0] && BlockOk(b) && BlockRegion(b) == FL.Region(b.addr, BLOCK_SIZES[i])
    ensures Safe(st.(heads := st.heads[i := st.heads[i][1..]]), live + [b])
  {
    var st' := st.(heads := st.heads[i := st.heads[i][1..]]);
    PopAccounted(st, live, i, b);
    PopAligned(st.heads, i);
    AppendBlocksOk(live, b);
    SafeAfterMove(st, live, st', live + [b]);
  }

  lemma PopAccounted(st: FixedState, live: seq<Block>, i: nat, b: Block)
    requires Shaped(st) && i < |BLOCK_SIZES| && |st.heads[i]| > 0
    requires BlockRegion(b) == FL.Region(st.heads[i][0], BLOCK_SIZES[i])
    ensures Accounted(st.(heads := st.heads[i := st.heads[i][1..]]), live + [b]) == Accounted(st, live)
  {
    var st' := st.(heads := st.heads[i := st.heads[i][1..]]);
    PopBag(st.heads, BLOCK_SIZES, i);
    LiveBagAppend(live, b);
    MoveOne(multiset(st.fallback), StackBag(st.heads, BLOCK_SIZES, 0), StackBag(st'.heads, BLOCK_SIZES, 0),
            LiveBag(live), LiveBag(live + [b]), multiset{BlockRegion(b)});
  }

  lemma PopAligned(heads: seq<seq<nat>>, i: nat)
    requires StacksAligned(heads) && i < |heads| && |heads[i]| > 0
    ensures StacksAligned(heads[i := heads[i][1..]])
  {
    var heads' := heads[i := heads[i][1..]];
    forall j, k | 0 <= j < |heads'| && j < |BLOCK_SIZES| && 0 <= k < |heads'[j]|
      ensures heads'[j][k] % BLOCK_SIZES[j] == 0
    {
      if j == i { assert heads'[j][k] == heads[i][k + 1]; }
    }
  }

  lemma AppendBlocksOk(live: seq<Block>, b: Block)
    requires AllBlocksOk(live) && BlockOk(b)
    ensures AllBlocksOk(live + [b])
  {
  }

  /** The case of `alloc` that pops a free block of the layout's class. */
  lemma AllocFromStackSafe(st: FixedState, live: seq<Block>, layout: Layout)
    requires Safe(st, live) && ValidLayout(layout)
    requires GetListIndex(layout).Some? && |st.heads[GetListIndex(layout).value]| > 0
    ensures var (out, st') := AllocStep(st, layout);
      out.Ptr? && out.addr % layout.align == 0 && Safe(st', live + [Block(out.addr, layout)])
  {
    var i := GetListIndex(layout).value;
    var bs := BLOCK_SIZES[i];
    var p := st.heads[i][0];
    var st' := st.(heads := st.heads[i := st.heads[i][1..]]);
    assert AllocStep(st, layout) == (Ptr(p), st');
    var b := Block(p, layout);
    ClassServesLayout(layout);
    assert p % bs == 0;
    ModTransitive(p, bs, layout.align);
    assert BlockOk(b) && BlockRegion(b) == FL.Region(p, bs);
    PopSafe(st, live, i, b);
  }

  /** The invariant, from a bag known to be separated and bounded. */
  lemma SafeFromBag(st: FixedState, live: seq<Block>, m: multiset<Region>)
    requires Shaped(st) && FL.AllWellFormed(st.fallback) && StacksAligned(st.heads) && AllBlocksOk(live)
    requires Accounted(st, live) == m && Separated(m) && Bounded(m)
    ensures Safe(st, live)
  {
  }

  lemma GrantAccounted(st: FixedState, live: seq<Block>, after: seq<Region>, b: Block)
    requires Shaped(st)
    ensures Accounted(st.(fallback := after), live + [b]) ==
            multiset(after) + (StackBag(st.heads, BLOCK_SIZES, 0) + LiveBag(live)) + multiset{BlockRegion(b)}
  {
    LiveBagAppend(live, b);
  }

  /**
   * `fallback_alloc` with layout `fl` on behalf of a caller's layout whose
   * reserved size fits in what the fallback reserves for `fl`, aligned at
   * least as strictly: the block becomes outstanding with the invariant
   * intact; when the fallback returns null or panics, nothing changes.
   */
  lemma FallbackSafe(st: FixedState, live: seq<Block>, fl: Layout, layout: Layout)
    requires Safe(st, live) && ValidLayout(fl) && ValidLayout(layout) && Reserved(layout).Some?
    requires FL.SizeAlign(fl).Some? ==>
      Reserved(layout).value.size <= FL.SizeAlign(fl).value.size &&
      FL.SizeAlign(fl).value.align % Reserved(layout).value.align == 0
    ensures var (out, st') := FallbackAlloc(st, fl);
      (out.Ptr? ==> out.addr % fl.align == 0 && Safe(st', live + [Block(out.addr, layout)])) &&
      (!out.Ptr? ==> st' == st)
  {
    var reserved := Reserved(layout).value;
    var others := StackBag(st.heads, BLOCK_SIZES, 0) + LiveBag(live);
    AccountedAround(st, live);
    FallbackGrant(st.fallback, others, fl, reserved.size);
    var (out, after) := FL.AllocStep(st.fallback, fl);
    if out.Ptr? {
      var adj := FL.SizeAlign(fl).value;
      var b := Block(out.addr, layout);
      ModTransitive(out.addr, adj.align, reserved.align);
      assert BlockOk(b) && BlockRegion(b) == FL.Region(out.addr, reserved.size);
      GrantAccounted(st, live, after, b);
      AppendBlocksOk(live, b);
      SafeFromBag(st.(fallback := after), live + [b], multiset(after) + others + multiset{BlockRegion(b)});
    }
  }

  /** The case of `alloc` that asks the fallback for a block of the layout's class. */
  lemma AllocFromFallbackSafe(st: FixedState, live: seq<Block>, layout: Layout)
    requires Safe(st, live) && ValidLayout(layout)
    requires GetListIndex(layout).Some? && st.heads[GetListIndex(layout).value] == []
    ensures var (out, st') := AllocStep(st, layout);
      (out.Ptr? ==> out.addr % layout.align == 0 && Safe(st', live + [Block(out.addr, layout)])) &&
      (!out.Ptr? ==> st' == st)
  {
    var i := GetListIndex(layout).value;
    var bs := BLOCK_SIZES[i];
    AllocFromFallback(st, layout);
    BlockLayoutAdjusted(i);
    ClassServesLayout(layout);
    FallbackSafe(st, live, BlockLayout(i), layout);
    var out := AllocStep(st, layout).0;
    if out.Ptr? {
      ModTransitive(out.addr, bs, layout.align);
    }
  }

  /** The case of `alloc` for a layout larger than every class. */
  lemma AllocOversizedSafe(st: FixedState, live: seq<Block>, layout: Layout)
    requires Safe(st, live) && ValidLayout(layout) && GetListIndex(layout).None?
    ensures var (out, st') := AllocStep(st, layout);
      (out.Ptr? ==> out.addr % layout.align == 0 && Safe(st', live + [Block(out.addr, layout)])) &&
      (!out.Ptr? ==> st' == st)
  {
    if FL.SizeAlign(layout).Some? {
      FallbackSafe(st, live, layout, layout);
    } else {
      FL.AllocStepSpec(st.fallback, layout);
    }
  }

  /**
   * `alloc` keeps the heap safe: a block it returns is aligned as asked,
   * reserves at least the requested size, and joins the outstanding blocks
   * with the invariant intact, so it overlaps no other outstanding block
   * and no free memory; when it returns null or panics, nothing changes.
   */
  lemma AllocSafe(st: FixedState, live: seq<Block>, layout: Layout)
    requires Safe(st, live) && ValidLayout(layout)
    ensures var (out, st') := AllocStep(st, layout);
      (out.Ptr? ==>
         var b := Block(out.addr, layout);
         out.addr % layout.align == 0 && Safe(st', live + [b]) &&
         BlockRegion(b).size >= layout.size) &&
      (!out.Ptr? ==> st' == st)
  {
    match GetListIndex(layout)
    case Some(i) =>
      if |st.heads[i]| > 0 {
        AllocFromStackSafe(st, live, layout);
      } else {
        AllocFromFallbackSafe(st, live, layout);
      }
    case None =>
      AllocOversizedSafe(st, live, layout);
  }

  /**
   * The block `alloc` returns overlaps no free region, no free class block
   * and no other outstanding block.
   */
  lemma AllocDisjoint(st: FixedState, live: seq<Block>, layout: Layout)
    requires Safe(st, live) && ValidLayout(layout)
    ensures var (out, st') := AllocStep(st, layout);
      out.Ptr? ==>
        var blk := BlockRegion(Block(out.addr, layout));
        Shaped(st') && forall r :: r in Accounted(st', live) ==> FL.Disjoint(blk, r)
  {
    AllocSafe(st, live, layout);
    var (out, st') := AllocStep(st, layout);
    if out.Ptr? {
      var b := Block(out.addr, layout);
      var blk := BlockRegion(b);
      LiveBagAppend(live, b);
      var m := Accounted(st', live + [b]);
      assert m == Accounted(st', live) + multiset{blk};
      forall r | r in Accounted(st', live)
        ensures FL.Disjoint(blk, r)
      {
        assert r in m && blk in m;
        assert m[r] == 1;
      }
    }
  }

  /** Pushing outstanding block k on stack i and dropping it from the outstanding ones keeps the invariant. */
  lemma PushSafe(st: FixedState, live: seq<Block>, k: nat, i: nat)
    requires Safe(st, live) && k < |live| && i < |BLOCK_SIZES|
    requires BlockRegion(live[k]) == FL.Region(live[k].addr, BLOCK_SIZES[i])
    requires live[k].addr % BLOCK_SIZES[i] == 0
    ensures Safe(st.(heads := st.heads[i := [live[k].addr] + st.heads[i]]), FL.Unlink(live, k))
  {
    var st' := st.(heads := st.heads[i := [live[k].addr] + st.heads[i]]);
    PushAccounted(st, live, k, i);
    PushAligned(st.heads, i, live[k].addr);
    RemoveBlocksOk(live, k);
    SafeAfterMove(st, live, st', FL.Unlink(live, k));
  }

  lemma PushAccounted(st: FixedState, live: seq<Block>, k: nat, i: nat)
    requires Shaped(st) && k < |live| && i < |BLOCK_SIZES|
    requires BlockRegion(live[k]) == FL.Region(live[k].addr, BLOCK_SIZES[i])
    ensures Accounted(st.(heads := st.heads[i := [live[k].addr] + st.heads[i]]), FL.Unlink(live, k)) ==
            Accounted(st, live)
  {
    var b := live[k];
    var st' := st.(heads := st.heads[i := [b.addr] + st.heads[i]]);
    PushBag(st.heads, BLOCK_SIZES, i, b.addr);
    LiveBagRemove(live, k);
    MoveOne(multiset(st.fallback), StackBag(st'.heads, BLOCK_SIZES, 0), StackBag(st.heads, BLOCK_SIZES, 0),
            LiveBag(FL.Unlink(live, k)), LiveBag(live), multiset{BlockRegion(b)});
  }

  lemma PushAligned(heads: seq<seq<nat>>, i: nat, p: nat)
    requires StacksAligned(heads) && i < |heads| && i < |BLOCK_SIZES| && p % BLOCK_SIZES[i] == 0
    ensures StacksAligned(heads[i := [p] + heads[i]])
  {
    var heads' := heads[i := [p] + heads[i]];
    forall j, n | 0 <= j < |heads'| && j < |BLOCK_SIZES| && 0 <= n < |heads'[j]|
      ensures heads'[j][n] % BLOCK_SIZES[j] == 0
    {
      if j == i && n > 0 { assert heads'[j][n] == heads[i][n - 1]; }
    }
  }

  lemma RemoveBlocksOk(live: seq<Block>, k: nat)
    requires AllBlocksOk(live) && k < |live|
    ensures AllBlocksOk(FL.Unlink(live, k))
  {
  }

  /** The case of `dealloc` that pushes the block on its class's stack. */
  lemma DeallocToStackSafe(st: FixedState, live: seq<Block>, k: nat)
    requires Safe(st, live) && k < |live| && GetListIndex(live[k].layout).Some?
    ensures var (s, st') := DeallocStep(st, live[k].addr, live[k].layout);
      s == Done && Safe(st', FL.Unlink(live, k))
  {
    var b := live[k];
    var i := GetListIndex(b.layout).value;
    var bs := BLOCK_SIZES[i];
    var st' := st.(heads := st.heads[i := [b.addr] + st.heads[i]]);
    DeallocToStack(st, b.addr, b.layout);
    assert DeallocStep(st, b.addr, b.layout) == (Done, st');
    assert BlockOk(b) && BlockRegion(b) == FL.Region(b.addr, bs);
    PushSafe(st, live, k, i);
  }

  lemma Rotate(a: multiset<Region>, s: multiset<Region>, l: multiset<Region>, r: multiset<Region>)
    ensures (r + a) + s + l == a + s + (l + r)
  {
  }

  lemma ReturnAccounted(st: FixedState, live: seq<Block>, k: nat)
    requires Shaped(st) && k < |live|
    ensures Accounted(st.(fallback := [BlockRegion(live[k])] + st.fallback), FL.Unlink(live, k)) ==
            Accounted(st, live)
  {
    var freed := BlockRegion(live[k]);
    LiveBagRemove(live, k);
    assert multiset([freed] + st.fallback) == multiset{freed} + multiset(st.fallback);
    Rotate(multiset(st.fallback), StackBag(st.heads, BLOCK_SIZES, 0), LiveBag(FL.Unlink(live, k)), multiset{freed});
  }

  /** A region of a bounded bag that starts node-aligned and holds a node is a well-formed free-list node. */
  lemma BoundedNode(m: multiset<Region>, r: Region)
    requires Bounded(m) && r in m && r.start % FL.NODE_ALIGN == 0 && r.size >= FL.NODE_SIZE
    ensures FL.WellFormed(r)
  {
  }

  /** Giving outstanding block k back to the front of the fallback's list keeps the invariant. */
  lemma ReturnSafe(st: FixedState, live: seq<Block>, k: nat)
    requires Safe(st, live) && k < |live|
    requires BlockRegion(live[k]).start % FL.NODE_ALIGN == 0 && BlockRegion(live[k]).size >= FL.NODE_SIZE
    ensures Safe(st.(fallback := [BlockRegion(live[k])] + st.fallback), FL.Unlink(live, k))
  {
    var freed := BlockRegion(live[k]);
    var st' := st.(fallback := [freed] + st.fallback);
    ReturnAccounted(st, live, k);
    LiveBagRemove(live, k);
    assert freed in Accounted(st, live);
    BoundedNode(Accounted(st, live), freed);
    RemoveBlocksOk(live, k);
    SafeAfterMove(st, live, st', FL.Unlink(live, k));
  }

  /** The case of `dealloc` that gives the block back to the fallback. */
  lemma DeallocOversizedSafe(st: FixedState, live: seq<Block>, k: nat)
    requires Safe(st, live) && k < |live| && GetListIndex(live[k].layout).None?
    ensures var (s, st') := DeallocStep(st, live[k].addr, live[k].layout);
      s == Done && Safe(st', FL.Unlink(live, k))
  {
    var b := live[k];
    var adj := FL.SizeAlign(b.layout).value;
    var freed := FL.Region(b.addr, adj.size);
    assert BlockRegion(b) == freed;
    FL.NodeAligned(b.addr, adj.align);
    FL.DeallocStepSpec(st.fallback, b.addr, b.layout);
    assert DeallocStep(st, b.addr, b.layout) == (Done, st.(fallback := [freed] + st.fallback));
    ReturnSafe(st, live, k);
  }

  /**
   * `dealloc` of an outstanding block with the layout it was allocated
   * with never panics, and keeps the heap safe with that block no longer
   * outstanding: its bytes are free again, on its class's stack or in the
   * fallback's list.
   */
  lemma DeallocSafe(st: FixedState, live: seq<Block>, k: nat)
    requires Safe(st, live) && k < |live|
    ensures var (s, st') := DeallocStep(st, live[k].addr, live[k].layout);
      s == Done && Safe(st', FL.Unlink(live, k))
  {
    if GetListIndex(live[k].layout).Some? {
      DeallocToStackSafe(st, live, k);
    } else {
      DeallocOversizedSafe(st, live, k);
    }
  }
}
