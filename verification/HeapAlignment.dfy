/** Two promises of the heap that hold only under a condition: that releasing an
    allocation undoes it, and that the pointer handed out is aligned. */
module HeapAlignment {
  import opened HeapModel
  import opened HeapRuns
  import opened HeapSafety

  // ------------------------------------------------------------------- undoing

  lemma {:induction false} GapAfterKth(bs: seq<Block>, k: nat)
    requires Normal(bs) && k < |bs|
    ensures !Covered(bs, bs[k].End())
    decreases k
  {
    if k == 0 {
      GapAfterHead(bs);
    } else {
      KthIsAbove(bs, k);
      GapAfterKth(bs[1..], k - 1);
    }
  }

  /** A free block that holds the first byte of a free range holds the range. */
  lemma {:induction false} BlockHoldsRange(bs: seq<Block>, k: nat, range: Block)
    requires Normal(bs) && k < |bs| && In(bs[k], range.addr)
    requires forall x: nat :: In(range, x) ==> Covered(bs, x)
    ensures bs[k].End() >= range.End()
  {
    GapAfterKth(bs, k);
    if bs[k].End() < range.End() {
      assert In(range, bs[k].End());
    }
  }

  /** A heap that grew has free bytes above its old end even after the release. */
  lemma {:induction false} GrowthShows(h: Heap, need: nat)
    requires Inv(h) && AllocEnabled(h, need) && NeedsGrowth(h, need) && HEADER <= need
    ensures var p := Prepared(h, need);
            var k := FirstFit(p.free, need);
            k < |p.free| &&
            Covered(Insert(Cut(p.free, k, need), Block(p.free[k].addr, need)), h.base + h.committed)
  {
    hide Insert, Cut, Normal, Covered;
    PreparedKeeps(h, need);
    var p := Prepared(h, need);
    var k := FirstFit(p.free, need);
    var region := Block(h.base + h.committed, GrowPages(need) * PAGE_SIZE);
    var x := region.addr;
    forall y: nat | In(region, y) ensures Covered(p.free, y) {
      InsertCovers(h.free, region, y);
    }
    assert In(region, x);
    CutCovers(p.free, k, need, x);
    InsertCovers(Cut(p.free, k, need), Block(p.free[k].addr, need), x);
    if In(p.free[k], x) {
      BlockHoldsRange(p.free, k, region);
    }
  }

  /** Releasing an allocation at once restores the free list exactly if the heap did not
      have to grow and the chosen block left over nothing, or enough for a node. */
  lemma UndoneIff(h: Heap, size: nat, align: nat)
    requires Inv(h) && 0 < align && AllocEnabled(h, Need(size, align))
    ensures Alloc(h, size, align).Some? && |Alloc(h, size, align).value.live| > 0
    ensures var need := Need(size, align);
            var k := FirstFit(h.free, need);
            Release(Alloc(h, size, align).value, 0).free == h.free <==>
            k < |h.free| && (h.free[k].size == need || h.free[k].size >= need + HEADER)
    ensures Release(Alloc(h, size, align).value, 0).live == h.live
  {
    hide Inv, DataOffset, Cut, Insert;
    AllocSucceeds(h, size, align);
    var need := Need(size, align);
    var p := Prepared(h, need);
    PreparedKeeps(h, need);
    PreparedLive(h, need);
    var k := FirstFit(p.free, need);
    var r := Alloc(h, size, align).value;
    assert r.live[0].block == Block(p.free[k].addr, need) && r.free == Cut(p.free, k, need);
    assert Release(r, 0).live == r.live[1..];
    InvFree(h);
    if NeedsGrowth(h, need) {
      GrowthShows(h, need);
      assert !Covered(h.free, h.base + h.committed);
    } else {
      GivingBackRestoresIff(h.free, k, need);
    }
  }

  /** A request that leaves one byte of the only free block: after the release that byte
      is still missing, and the list is not what it was. */
  lemma RemainderIsLost(base: nat)
    ensures var h := Boot(base, 4 * PAGE_SIZE, 4);
            var ops := [Allocate(16367, 1), Deallocate(0)];
            && Possible(h, ops) && Run(h, ops).live == []
            && Run(h, ops).lost == [Block(base + 16383, 1)] && Run(h, ops).free == [Block(base, 16383)] != h.free
  {
    var h := Boot(base, 4 * PAGE_SIZE, 4);
    var ops := [Allocate(16367, 1), Deallocate(0)];
    assert h.free == [Block(base, 16384)];
    assert DataOffset(1) == 16;
    var h1 := Apply(h, ops[0]);
    assert Without(h.free, 0) == [];
    assert h1.free == [] && h1.lost == [Block(base + 16383, 1)];
    assert ops[1..] == [Deallocate(0)] && ops[1..][1..] == [];
    var h2 := Apply(h1, ops[1]);
    assert h2.live == [] && h2.free == [Block(base, 16383)];
    assert Possible(h2, []) && Possible(h1, ops[1..]);
    assert Run(h, ops) == h2;
  }

  lemma InvFree(h: Heap)
    requires Inv(h)
    ensures Normal(h.free) && forall x: nat :: Covered(h.free, x) ==> x < h.base + h.committed
  {
  }

  // ----------------------------------------------------------------- alignment

  lemma AddMultiple(a: nat, b: nat, d: nat)
    requires 0 < d && b % d == 0
    ensures (a + b) % d == a % d
  {
    var q, t := a / d, b / d;
    assert a == q * d + a % d && b == t * d;
    assert (q + t) * d == q * d + t * d;
    ModIs(a + b, d, q + t, a % d);
  }

  /** The data pointer is aligned exactly if the block that first fit chose starts at an
      aligned address: only the offset is rounded, not the address. */
  lemma AlignedIff(h: Heap, size: nat, align: nat)
    requires Inv(h) && 0 < align && AllocEnabled(h, Need(size, align))
    ensures Alloc(h, size, align).Some? && |Alloc(h, size, align).value.live| > 0
    ensures var p := Prepared(h, Need(size, align));
            var k := FirstFit(p.free, Need(size, align));
            k < |p.free| &&
            (Alloc(h, size, align).value.live[0].Data() % align == 0 <==> p.free[k].addr % align == 0)
  {
    hide Inv, Cut, Prepared;
    AllocSucceeds(h, size, align);
    var need := Need(size, align);
    var p := Prepared(h, need);
    PreparedKeeps(h, need);
    var k := FirstFit(p.free, need);
    AddMultiple(p.free[k].addr, DataOffset(align), align);
  }

  /** One byte, then an eight-byte word: the second pointer is odd. */
  lemma AlignmentCanFail(base: nat)
    requires base % 8 == 0
    ensures var h := Boot(base, 4 * PAGE_SIZE, 4);
            var ops := [Allocate(1, 1), Allocate(8, 8)];
            Possible(h, ops) && |Run(h, ops).live| > 0 && Run(h, ops).live[0].Data() % 8 == 1
  {
    var h := Boot(base, 4 * PAGE_SIZE, 4);
    var ops := [Allocate(1, 1), Allocate(8, 8)];
    assert h.free == [Block(base, 16384)];
    assert DataOffset(1) == 16 && DataOffset(8) == 16;
    var h1 := Apply(h, ops[0]);
    assert Without(h.free, 0) == [];
    assert h1.free == [Block(base + 17, 16367)];
    assert ops[1..] == [Allocate(8, 8)] && ops[1..][1..] == [];
    var h2 := Apply(h1, ops[1]);
    assert h2.live[0].Data() == base + 33;
    assert Possible(h2, []) && Possible(h1, ops[1..]);
    assert Run(h, ops) == h2;
  }

  predicate By16(b: Block)
  {
    b.addr % 16 == 0 && b.size % 16 == 0
  }

  /** Requests in whole multiples of sixteen bytes, aligned to at most sixteen. */
  predicate Regular(op: Op)
  {
    op.Allocate? ==> op.size % 16 == 0 && op.align in {1, 2, 4, 8, 16}
  }

  predicate AllBy16(bs: seq<Block>)
  {
    forall i :: 0 <= i < |bs| ==> By16(bs[i])
  }

  ghost predicate Sixteen(h: Heap)
  {
    && h.base % 16 == 0 && h.committed % 16 == 0
    && AllBy16(h.free)
    && (forall i :: 0 <= i < |h.live| ==> By16(h.live[i].block) && h.live[i].offset == 16)
    && h.lost == []
  }

  lemma AllBy16Cons(b: Block, bs: seq<Block>)
    ensures AllBy16([b] + bs) <==> By16(b) && AllBy16(bs)
  {
    var all := [b] + bs;
    assert all[0] == b && forall i :: 0 <= i < |bs| ==> bs[i] == all[i + 1];
  }

  lemma {:induction false} InsertBy16(bs: seq<Block>, b: Block)
    requires AllBy16(bs) && By16(b)
    ensures AllBy16(Insert(bs, b))
    decreases |bs|
  {
    hide AllBy16;
    if bs == [] {
      AllBy16Cons(b, []);
      assert [b] + [] == [b];
    } else {
      var first, rest := bs[0], bs[1..];
      assert bs == [first] + rest;
      AllBy16Cons(first, rest);
      if b.addr <= first.addr {
        AllBy16Cons(b, bs);
        AllBy16Cons(Block(b.addr, b.size + first.size), rest);
      } else {
        InsertBy16(rest, b);
        var r := Insert(rest, b);
        assert r == [r[0]] + r[1..];
        AllBy16Cons(first, r);
        AllBy16Cons(r[0], r[1..]);
        AllBy16Cons(Block(first.addr, first.size + r[0].size), r[1..]);
      }
    }
  }

  lemma {:induction false} CutBy16(bs: seq<Block>, k: nat, need: nat)
    requires AllBy16(bs) && k < |bs| && need <= bs[k].size && need % 16 == 0
    ensures AllBy16(Cut(bs, k, need)) && Remainder(bs, k, need) == []
  {
    if bs[k].size - need >= HEADER {
      InsertBy16(Without(bs, k), Block(bs[k].addr + need, bs[k].size - need));
    }
  }

  lemma PreparedSixteen(h: Heap, need: nat)
    requires Sixteen(h)
    ensures Sixteen(Prepared(h, need))
  {
    if NeedsGrowth(h, need) {
      InsertBy16(h.free, Block(h.base + h.committed, GrowPages(need) * PAGE_SIZE));
    }
  }

  lemma SmallOffset(align: nat)
    requires align in {1, 2, 4, 8, 16}
    ensures DataOffset(align) == 16
  {
    assert 16 / 1 * 1 == 16 && 17 / 2 * 2 == 16 && 19 / 4 * 4 == 16 && 23 / 8 * 8 == 16 && 31 / 16 * 16 == 16;
  }

  lemma StepSixteen(h: Heap, op: Op)
    requires Inv(h) && Enabled(h, op) && Sixteen(h) && Regular(op)
    ensures Sixteen(Apply(h, op))
  {
    match op {
      case Allocate(size, align) =>
        hide Inv, Cut, Prepared, FirstFit;
        SmallOffset(align);
        AllocSucceeds(h, size, align);
        var need := Need(size, align);
        PreparedSixteen(h, need);
        var p := Prepared(h, need);
        var k := FirstFit(p.free, need);
        FirstFitFits(p.free, need);
        CutBy16(p.free, k, need);
      case Deallocate(i) =>
        hide Inv, Insert;
        InsertBy16(h.free, h.live[i].block);
    }
  }

  /** Runs of regular requests lose no byte and hand out aligned pointers only. */
  lemma {:induction false} RegularRuns(h: Heap, ops: seq<Op>)
    requires Inv(h) && Possible(h, ops) && Sixteen(h)
    requires forall i :: 0 <= i < |ops| ==> Regular(ops[i])
    ensures Sixteen(Run(h, ops)) && Inv(Run(h, ops))
    ensures forall i :: 0 <= i < |Run(h, ops).live| ==> Run(h, ops).live[i].Data() % 16 == 0
    decreases |ops|
  {
    hide Inv, Apply, Enabled;
    if ops != [] {
      StepKeeps(h, ops[0]);
      StepSixteen(h, ops[0]);
      RegularRuns(Apply(h, ops[0]), ops[1..]);
    }
  }

  /** From boot, with regular requests: once everything is released, the heap is one
      free block again, however much it grew. */
  lemma RegularRunsEndWhole(base: nat, maxSize: nat, pages: nat, ops: seq<Op>)
    requires base % 16 == 0 && 1 <= pages && pages * PAGE_SIZE <= maxSize
    requires Possible(Boot(base, maxSize, pages), ops)
    requires forall i :: 0 <= i < |ops| ==> Regular(ops[i])
    requires Run(Boot(base, maxSize, pages), ops).live == []
    ensures var h := Run(Boot(base, maxSize, pages), ops); h.free == [Block(h.base, h.committed)]
  {
    hide Inv, Apply, Enabled;
    var b := Boot(base, maxSize, pages);
    BootInv(base, maxSize, pages);
    assert Sixteen(b);
    RegularRuns(b, ops);
    CommittedGrows(b, ops);
    WholeAgainIff(Run(b, ops));
  }

  lemma StepCommits(h: Heap, op: Op)
    requires Inv(h) && Enabled(h, op)
    ensures Apply(h, op).committed >= h.committed
  {
    if op.Allocate? {
      hide Inv, Cut, DataOffset;
      AllocSucceeds(h, op.size, op.align);
    }
  }

  lemma {:induction false} CommittedGrows(h: Heap, ops: seq<Op>)
    requires Inv(h) && Possible(h, ops)
    ensures Run(h, ops).committed >= h.committed
    decreases |ops|
  {
    hide Inv, Apply, Enabled;
    if ops != [] {
      StepKeeps(h, ops[0]);
      StepCommits(h, ops[0]);
      CommittedGrows(Apply(h, ops[0]), ops[1..]);
    }
  }
}
