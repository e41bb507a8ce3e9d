/** What the kernel heap guarantees over every run of allocations and releases. */
module HeapSafety {
  import opened Basics
  import opened HeapModel
  import opened HeapRuns

  datatype Op = Allocate(size: nat, align: nat) | Deallocate(index: nat)

  predicate Enabled(h: Heap, op: Op)
  {
    match op
    case Allocate(size, align) => 0 < align && AllocEnabled(h, Need(size, align))
    case Deallocate(i) => i < |h.live|
  }

  function Apply(h: Heap, op: Op): (r: Heap)
    requires Enabled(h, op)
  {
    match op
    case Allocate(size, align) => (match Alloc(h, size, align) case Some(r) => r case None => h)
    case Deallocate(i) => Release(h, i)
  }

  ghost predicate Possible(h: Heap, ops: seq<Op>)
    decreases |ops|
  {
    ops == [] || (Enabled(h, ops[0]) && Possible(Apply(h, ops[0]), ops[1..]))
  }

  ghost function Run(h: Heap, ops: seq<Op>): (r: Heap)
    requires Possible(h, ops)
    decreases |ops|
  {
    if ops == [] then h else Run(Apply(h, ops[0]), ops[1..])
  }

  /** The heap after `init`. */
  function Boot(base: nat, maxSize: nat, pages: nat): (h: Heap)
  {
    Grow(Heap(base, maxSize, 0, [], [], []), pages)
  }

  lemma BootInv(base: nat, maxSize: nat, pages: nat)
    requires 1 <= pages && pages * PAGE_SIZE <= maxSize
    ensures Inv(Boot(base, maxSize, pages))
  {
    var h := Heap(base, maxSize, 0, [], [], []);
    assert Inv(h);
    GrowKeeps(h, pages);
  }

  /** An allocation that is possible at all grows the heap at most once, and then
      succeeds. */
  lemma AllocSucceeds(h: Heap, size: nat, align: nat)
    requires Inv(h) && 0 < align && AllocEnabled(h, Need(size, align))
    ensures var r := Alloc(h, size, align);
            r.Some? && Inv(r.value) && |r.value.live| == |h.live| + 1 && r.value.live[1..] == h.live
    ensures var l := Alloc(h, size, align).value.live[0];
            l.offset == DataOffset(align) && l.Data() + size == l.block.End()
  {
    hide Inv, Prepared, FirstFit, DataOffset;
    var need := Need(size, align);
    PreparedKeeps(h, need);
    var p := Prepared(h, need);
    assert p.live == h.live by { PreparedLive(h, need); }
    var k := FirstFit(p.free, need);
    assert p.free[k].size >= need by { FirstFitFits(p.free, need); }
    TakeKeeps(p, k, need, DataOffset(align));
    assert Take(p, k, need, DataOffset(align)).live[1..] == p.live;
  }

  /** The fewest bytes of whole pages, and of at least four, that hold `need`. */
  ghost predicate LeastGrowth(g: nat, need: nat)
  {
    && g % PAGE_SIZE == 0 && g >= need && g >= 4 * PAGE_SIZE
    && forall m: nat :: Pages(m) && m >= need && m >= 4 * PAGE_SIZE ==> g <= m
  }

  predicate Pages(m: nat)
  {
    m % PAGE_SIZE == 0
  }

  ghost predicate SomeBlockFits(h: Heap, need: nat)
  {
    exists i :: 0 <= i < |h.free| && h.free[i].size >= need
  }

  lemma GrowthIsLeast(need: nat)
    ensures LeastGrowth(GrowPages(need) * PAGE_SIZE, need)
  {
    var n := GrowPages(need);
    assert n * PAGE_SIZE == PAGE_SIZE * n && PAGE_SIZE * n % PAGE_SIZE == 0;
    forall m: nat | Pages(m) && m >= need && m >= 4 * PAGE_SIZE ensures n * PAGE_SIZE <= m {
      var k := m / PAGE_SIZE;
      assert m == PAGE_SIZE * k;
    }
  }

  lemma LeastIsUnique(a: nat, b: nat, need: nat)
    requires LeastGrowth(a, need) && LeastGrowth(b, need)
    ensures a == b
  {
    assert Pages(a) && Pages(b);
  }

  /** An allocation commits nothing if some free block is large enough, and otherwise the
      fewest pages that are; it is refused exactly if these exceed the heap's range. */
  lemma AllocGrowsLeast(h: Heap, size: nat, align: nat, least: nat)
    requires Inv(h) && 0 < align && LeastGrowth(least, Need(size, align))
    ensures var need := Need(size, align);
            && (AllocEnabled(h, need) <==> SomeBlockFits(h, need) || h.committed + least <= h.maxSize)
            && (AllocEnabled(h, need) ==>
                  && Alloc(h, size, align).Some?
                  && Alloc(h, size, align).value.committed ==
                     h.committed + (if SomeBlockFits(h, need) then 0 else least))
  {
    hide Inv, LeastGrowth, DataOffset, Cut;
    var need := Need(size, align);
    GrowthIsLeast(need);
    LeastIsUnique(least, GrowPages(need) * PAGE_SIZE, need);
    hide GrowPages;
    assert NeedsGrowth(h, need) <==> !SomeBlockFits(h, need);
    if AllocEnabled(h, need) { AllocSucceeds(h, size, align); }
  }

  lemma PreparedLive(h: Heap, need: nat)
    ensures Prepared(h, need).live == h.live && Prepared(h, need).lost == h.lost
    ensures Prepared(h, need).base == h.base
  {
  }

  lemma FirstFitFits(bs: seq<Block>, need: nat)
    requires FirstFit(bs, need) < |bs|
    ensures bs[FirstFit(bs, need)].size >= need
  {
  }

  lemma StepKeeps(h: Heap, op: Op)
    requires Inv(h) && Enabled(h, op)
    ensures Inv(Apply(h, op))
  {
    match op {
      case Allocate(size, align) => AllocSucceeds(h, size, align);
      case Deallocate(i) => ReleaseKeeps(h, i);
    }
  }

  lemma {:induction false} RunKeeps(h: Heap, ops: seq<Op>)
    requires Inv(h) && Possible(h, ops)
    ensures Inv(Run(h, ops))
    decreases |ops|
  {
    hide Inv, Apply, Enabled;
    if ops != [] {
      StepKeeps(h, ops[0]);
      RunKeeps(Apply(h, ops[0]), ops[1..]);
    }
  }

  /** What the invariant means for the callers: the data areas of two live allocations
      never overlap, and neither overlaps a free block. */
  lemma LiveDataIsPrivate(h: Heap, i: nat, j: nat, x: nat)
    requires Inv(h) && i < |h.live| && h.live[i].Data() <= x < h.live[i].block.End()
    ensures j < |h.live| && j != i ==> !In(h.live[j].block, x)
    ensures !Covered(h.free, x) && h.base <= x < h.base + h.committed
  {
    hide Covered, Normal;
    assert Held(h)[i] == h.live[i].block && In(h.live[i].block, x);
    if j < |h.live| && j != i {
      assert Held(h)[j] == h.live[j].block;
      assert Disjoint(Held(h)[if i < j then i else j], Held(h)[if i < j then j else i]);
    }
  }

  // ----------------------------------------------------------------- lost bytes

  /** A step leaves the lost bytes alone or adds one remainder that cannot carry a list
      node; nothing ever brings a lost byte back. */
  lemma StepLoses(h: Heap, op: Op)
    requires Inv(h) && Enabled(h, op)
    ensures h.lost <= Apply(h, op).lost
    ensures Sum(h.lost) <= Sum(Apply(h, op).lost) < Sum(h.lost) + HEADER
    ensures op.Deallocate? ==> Apply(h, op).lost == h.lost
  {
    hide Inv, Prepared, FirstFit, DataOffset;
    match op {
      case Allocate(size, align) =>
        var need := Need(size, align);
        AllocSucceeds(h, size, align);
        PreparedLive(h, need);
        var p := Prepared(h, need);
        var k := FirstFit(p.free, need);
        SumConcat(h.lost, Remainder(p.free, k, need));
        assert Remainder(p.free, k, need) != [] ==> Remainder(p.free, k, need)[1..] == [];
      case Deallocate(i) =>
    }
  }

  lemma {:induction false} LostNeverReturns(h: Heap, ops: seq<Op>)
    requires Inv(h) && Possible(h, ops)
    ensures h.lost <= Run(h, ops).lost
    ensures Sum(Run(h, ops).lost) <= Sum(h.lost) + |ops| * (HEADER - 1)
    decreases |ops|
  {
    hide Inv, Apply, Enabled;
    if ops != [] {
      StepKeeps(h, ops[0]);
      StepLoses(h, ops[0]);
      LostNeverReturns(Apply(h, ops[0]), ops[1..]);
    }
  }

  /** When everything is released the heap is one block again exactly if no remainder
      was ever lost. */
  lemma WholeAgainIff(h: Heap)
    requires Inv(h) && h.live == [] && h.committed >= HEADER
    ensures h.free == [Block(h.base, h.committed)] <==> h.lost == []
  {
    var whole := [Block(h.base, h.committed)];
    assert whole[1..] == [] && Sum(whole) == h.committed;
    if h.lost == [] {
      OneBlock(h.free, h.base, h.committed);
    } else {
      assert Sum(h.lost) == h.lost[0].size + Sum(h.lost[1..]);
    }
  }

  /** A coalesced list inside a range has fewer bytes than the range unless it is the
      range. */
  lemma {:induction false} OneBlock(bs: seq<Block>, lo: nat, n: nat)
    requires Normal(bs) && Sum(bs) == n && n > 0
    requires forall x: nat :: Covered(bs, x) ==> lo <= x < lo + n
    ensures bs == [Block(lo, n)]
  {
    assert Covered(bs, bs[0].addr);
    if |bs| > 1 {
      SumBelow(bs[1..], lo + n);
      assert bs[1..][0] == bs[1];
      forall x: nat | Covered(bs[1..], x) ensures x < lo + n {
        assert Covered(bs, x);
      }
    } else {
      assert bs[1..] == [];
      HeadCovers(bs, bs[0].End() - 1);
    }
  }

  lemma {:induction false} SumBelow(bs: seq<Block>, hi: nat)
    requires Normal(bs) && bs != []
    ensures (forall x: nat :: Covered(bs, x) ==> x < hi) ==> bs[0].addr + Sum(bs) <= hi
    decreases |bs|
  {
    if forall x: nat :: Covered(bs, x) ==> x < hi {
      HeadCovers(bs, bs[0].End() - 1);
      if |bs| > 1 {
        forall x: nat | Covered(bs[1..], x) ensures x < hi {
          assert Covered(bs, x);
        }
        SumBelow(bs[1..], hi);
      } else {
        assert bs[1..] == [];
      }
    }
  }
}
