/** The kernel heap updating memory in place: free-list nodes inside the free blocks,
    headers and back-pointers inside the live ones. */
module KernelHeap {
  import opened Basics
  import opened ByteMemory
  import opened HeapModel
  import opened HeapRuns
  import opened HeapNodes
  import opened HeapSafety

  predicate PowerOfTwo(a: nat)
  {
    a == 1 || (a > 1 && a % 2 == 0 && PowerOfTwo(a / 2))
  }

  /** The back-pointer before the data is the header's own offset word, or clear of it. */
  predicate OffsetOk(offset: nat)
  {
    offset == HEADER || offset >= HEADER + 8
  }

  lemma PowerOffset(align: nat)
    requires PowerOfTwo(align)
    ensures OffsetOk(DataOffset(align))
  {
    if align <= 16 {
      SmallPowers(align);
      assert 16 / 1 * 1 == 16 && 17 / 2 * 2 == 16 && 19 / 4 * 4 == 16 && 23 / 8 * 8 == 16 && 31 / 16 * 16 == 16;
    } else {
      LargePowers(align);
      ModIs(HEADER + align - 1, align, 1, HEADER - 1);
    }
  }

  lemma SmallPowers(a: nat)
    requires PowerOfTwo(a) && a <= 16
    ensures a in {1, 2, 4, 8, 16}
  {
    assert PowerOfTwo(a / 2) || a == 1;
    assert PowerOfTwo(a / 2 / 2) || a <= 2;
  }

  lemma LargePowers(a: nat)
    requires PowerOfTwo(a) && a > 16
    ensures a >= 32
  {
    assert PowerOfTwo(a / 2) && a == 2 * (a / 2);
    if a / 2 <= 16 { SmallPowers(a / 2); }
  }

  /** The header words of a live block and its back-pointer. */
  ghost predicate Tagged(m: Bytes, l: Live)
  {
    && OffsetOk(l.offset)
    && Read(m, l.block.addr) == l.block.size
    && Read(m, l.block.addr + 8) == l.offset
    && Read(m, l.Data() - 8) == l.offset
  }

  ghost predicate AllTagged(m: Bytes, ls: seq<Live>)
  {
    forall i :: 0 <= i < |ls| ==> Tagged(m, ls[i])
  }

  /** Memory differs only inside `b` and the free blocks. */
  ghost predicate SameOutside(m: Bytes, m': Bytes, free: seq<Block>, b: Block)
  {
    forall x: nat :: !In(b, x) && !Covered(free, x) ==> m'(x) == m(x)
  }

  /** No byte of a live block differs. */
  ghost predicate LiveKept(m: Bytes, m': Bytes, ls: seq<Live>)
  {
    forall i, x: nat :: 0 <= i < |ls| && In(ls[i].block, x) ==> m'(x) == m(x)
  }

  lemma WordSame(m: Bytes, m': Bytes, b: Block, a: nat)
    requires forall x: nat :: In(b, x) ==> m'(x) == m(x)
    requires b.addr <= a && a + 8 <= b.End()
    ensures Read(m', a) == Read(m, a)
  {
    forall x | a <= x < a + 8 ensures m'(x) == m(x) {
      assert In(b, x);
    }
    ReadSame(m, m', a, 8);
  }

  lemma TagKept(m: Bytes, m': Bytes, l: Live)
    requires Tagged(m, l) && l.block.size >= l.offset
    requires forall x: nat :: In(l.block, x) ==> m'(x) == m(x)
    ensures Tagged(m', l)
  {
    hide Read;
    WordSame(m, m', l.block, l.block.addr);
    WordSame(m, m', l.block, l.block.addr + 8);
    WordSame(m, m', l.block, l.Data() - 8);
  }

  lemma TagsKept(m: Bytes, m': Bytes, ls: seq<Live>)
    requires AllTagged(m, ls) && LiveKept(m, m', ls)
    requires forall i :: 0 <= i < |ls| ==> ls[i].block.size >= ls[i].offset
    ensures AllTagged(m', ls)
  {
    hide Tagged;
    forall i | 0 <= i < |ls| ensures Tagged(m', ls[i]) {
      TagKept(m, m', ls[i]);
    }
  }

  lemma WordElsewhere(m: Bytes, a: nat, w: nat, x: nat)
    requires x < a || a + 8 <= x
    ensures Write(m, a, w)(x) == m(x)
  {
    WriteElsewhere(m, a, 8, w, x);
  }

  /** A word written inside `b` or inside a free block changes nothing outside. */
  lemma WriteInside(m0: Bytes, m: Bytes, a: nat, w: nat, free: seq<Block>, b: Block)
    requires SameOutside(m0, m, free, b)
    requires forall x: nat :: a <= x < a + 8 ==> In(b, x) || Covered(free, x)
    ensures SameOutside(m0, Write(m, a, w), free, b)
  {
    hide Write, Covered;
    forall x: nat | !In(b, x) && !Covered(free, x) ensures Write(m, a, w)(x) == m0(x) {
      WordElsewhere(m, a, w, x);
    }
  }

  lemma HeaderIsCovered(free: seq<Block>, k: nat)
    requires Normal(free) && k < |free|
    ensures forall x: nat :: free[k].addr <= x < free[k].addr + HEADER ==> Covered(free, x)
  {
    hide Covered, Normal;
    KthIsLarge(free, k);
    forall x: nat | free[k].addr <= x < free[k].addr + HEADER ensures Covered(free, x) {
      KthCovers(free, k, x);
    }
  }

  ghost predicate Fits(bs: seq<Block>)
  {
    forall i :: 0 <= i < |bs| ==> 0 < bs[i].addr && bs[i].End() < TWO64
  }

  lemma FreeFits(h: Heap)
    requires FreeOk(h) && 0 < h.base && h.base + h.committed < TWO64
    ensures Fits(h.free) && Spaced(h.free)
  {
    hide Covered, Normal;
    forall i | 0 <= i < |h.free| ensures h.base <= h.free[i].addr && h.free[i].End() <= h.base + h.committed {
      KthIsLarge(h.free, i);
      KthCovers(h.free, i, h.free[i].addr);
      KthCovers(h.free, i, h.free[i].End() - 1);
    }
    forall i, j | 0 <= i < j < |h.free| ensures h.free[i].addr + HEADER <= h.free[j].addr {
      NormalSpaced(h.free, i, j);
    }
  }

  lemma SplicedIsSpaced(free: seq<Block>, i: nat, b: Block)
    requires Normal(free) && Fits(free) && Position(free, i, b.addr) && Clear(b, free)
    requires HEADER <= b.size && 0 < b.addr && b.End() < TWO64
    ensures Spaced(Spliced(free, i, b))
  {
    hide Covered, Normal, Spliced;
    var r := Spliced(free, i, b);
    SplicedAt(free, i, b, 0);
    forall j | 0 <= j < |free| ensures if j < i then free[j].addr + HEADER <= b.addr else b.addr + HEADER <= free[j].addr {
      KthIsLarge(free, j);
      KthCovers(free, j, b.addr);
      KthCovers(free, j, free[j].addr);
      if i < j { NormalSpaced(free, i, j); }
      assert In(b, b.addr) && (In(b, free[j].addr) <==> b.addr <= free[j].addr < b.End());
    }
    forall j, k | 0 <= j < k < |r| ensures r[j].addr + HEADER <= r[k].addr {
      SplicedAt(free, i, b, j);
      SplicedAt(free, i, b, k);
      var j', k' := if j < i then j else j - 1, if k < i then k else k - 1;
      if j != i && k != i { NormalSpaced(free, j', k'); }
    }
    forall j | 0 <= j < |r| ensures 0 < r[j].addr && r[j].End() < TWO64 {
      SplicedAt(free, i, b, j);
    }
  }

  class KernelHeap {
    const base: nat
    const maxSize: nat
    var committed: nat
    var freeList: nat
    var mem: Bytes

    ghost var free: seq<Block>
    ghost var live: seq<Live>
    ghost var lost: seq<Block>

    ghost function View(): Heap
      reads this
    {
      Heap(base, maxSize, committed, free, live, lost)
    }

    ghost predicate Valid()
      reads this
    {
      && 0 < base && base + maxSize < TWO64
      && Inv(View())
      && Linked(mem, freeList, free)
      && AllTagged(mem, live)
    }

    constructor (base: nat, maxSize: nat)
      requires 0 < base && base + maxSize < TWO64
      ensures Valid() && View() == Heap(base, maxSize, 0, [], [], [])
    {
      this.base, this.maxSize, committed, freeList := base, maxSize, 0, 0;
      mem := x => 0;
      free, live, lost := [], [], [];
    }

    /** Block `i` takes in its successor if it ends where that one starts. */
    method Absorb(block: nat, next: nat, ghost bs: seq<Block>, ghost i: nat)
      requires i + 1 < |bs| && Linked(mem, freeList, bs) && Spaced(bs)
      requires block == bs[i].addr && next == bs[i + 1].addr
      modifies this`mem
      ensures var r := if bs[i].End() == bs[i + 1].addr then Merged(bs, i) else bs;
              Linked(mem, freeList, r) && Spaced(r)
      ensures forall x: nat :: x < block || block + HEADER <= x ==> mem(x) == old(mem(x))
    {
      hide Read, Write, Merged, Linked;
      LinkedAt(mem, freeList, bs, i);
      LinkedAt(mem, freeList, bs, i + 1);
      var blockEnd := block + Read(mem, block);
      if blockEnd == next {
        LinkedMerged(mem, freeList, bs, i);
        SpacedMerged(bs, i);
        var grown := Read(mem, block) + Read(mem, next);
        ghost var m := mem;
        WriteThenRead(m, block, grown, next + 8);
        mem := Write(mem, block, grown);
        mem := Write(mem, block + 8, Read(mem, next + 8));
        forall x: nat | x < block || block + HEADER <= x ensures mem(x) == m(x) {
          WordElsewhere(m, block, grown, x);
          WordElsewhere(Write(m, block, grown), block + 8, Read(m, next + 8), x);
        }
      }
    }

    /** The two pointers of the walk: the last node below `block`, and the one after it. */
    method FindPlace(block: nat) returns (prev: nat, next: nat, ghost i: nat)
      requires Linked(mem, freeList, free)
      ensures Position(free, i, block) && next == AddrAt(free, i)
      ensures if i == 0 then prev == 0 else prev == free[i - 1].addr && prev > 0
      ensures next == 0 <==> i == |free|
    {
      hide Read, Linked;
      prev, next, i := 0, freeList, 0;
      LinkedHead(mem, freeList, free);
      while next != 0 && next < block
        invariant i <= |free| && next == AddrAt(free, i)
        invariant if i == 0 then prev == 0 else prev == free[i - 1].addr && prev > 0
        invariant forall j :: 0 <= j < i ==> free[j].addr < block
        decreases |free| - i
      {
        LinkedAt(mem, freeList, free, i);
        prev := next;
        next := Read(mem, next + 8);
        i := i + 1;
      }
      if i < |free| {
        LinkedAt(mem, freeList, free, i);
      }
    }

    /** Walks to the place, writes the node, links it, merges it with its successor and
        its predecessor. */
    method InsertFreeBlock(block: nat, total: nat)
      requires Linked(mem, freeList, free) && Normal(free) && Fits(free)
      requires HEADER <= total && 0 < block && block + total < TWO64
      requires Clear(Block(block, total), free)
      modifies this`mem, this`freeList, this`free
      ensures free == Insert(old(free), Block(block, total)) && Linked(mem, freeList, free)
      ensures SameOutside(old(mem), mem, old(free), Block(block, total))
    {
      hide Read, Write, Merged, Spliced, Linked, Normal, Insert, Covered, Clear, SameOutside, Spaced;
      ghost var b, bs := Block(block, total), free;
      var prev, next;
      ghost var i: nat;
      prev, next, i := FindPlace(block);
      WriteFreeNode(block, total, prev, next, i);
      if next != 0 {
        SplicedAt(bs, i, b, i);
        SplicedAt(bs, i, b, i + 1);
        ghost var m := mem;
        Absorb(block, next, Spliced(bs, i, b), i);
        ChangedInside(old(mem), m, mem, block, bs, b);
      }
      assert Linked(mem, freeList, ForwardMerged(bs, i, b)) && Spaced(ForwardMerged(bs, i, b));
      if prev != 0 {
        ForwardAt(bs, i, b);
        HeaderIsCovered(bs, i - 1);
        ghost var m := mem;
        Absorb(prev, block, ForwardMerged(bs, i, b), i - 1);
        ChangedInside(old(mem), m, mem, prev, bs, b);
      }
      assert Linked(mem, freeList, BackwardMerged(bs, i, b));
      InsertAt(bs, i, b);
      free := Insert(bs, b);
    }

    method WriteFreeNode(block: nat, total: nat, prev: nat, next: nat, ghost i: nat)
      requires Linked(mem, freeList, free) && Normal(free) && Fits(free)
      requires HEADER <= total && 0 < block && block + total < TWO64
      requires Clear(Block(block, total), free)
      requires Position(free, i, block) && next == AddrAt(free, i)
      requires if i == 0 then prev == 0 else prev == free[i - 1].addr && prev > 0
      modifies this`mem, this`freeList
      ensures var s := Spliced(free, i, Block(block, total)); Linked(mem, freeList, s) && Spaced(s)
      ensures SameOutside(old(mem), mem, free, Block(block, total))
    {
      hide Read, Write, Spliced, Linked, Normal, Covered, Clear, SameOutside, Spaced;
      ghost var b := Block(block, total);
      SplicedIsSpaced(free, i, b);
      LinkedSpliced(mem, freeList, free, i, b);
      SameOutsideItself(mem, free, b);
      WriteInside(mem, mem, block, total, free, b);
      mem := Write(mem, block, total);
      WriteInside(old(mem), mem, block + 8, next, free, b);
      mem := Write(mem, block + 8, next);
      if prev == 0 {
        freeList := block;
      } else {
        HeaderIsCovered(free, i - 1);
        WriteInside(old(mem), mem, prev + 8, block, free, b);
        mem := Write(mem, prev + 8, block);
      }
    }

    /** Commits `pages` more pages behind the heap; exceeding the range is a panic. */
    method Grow(pages: nat)
      requires Valid() && 1 <= pages && committed + pages * PAGE_SIZE <= maxSize
      modifies this
      ensures Valid() && View() == HeapRuns.Grow(old(View()), pages)
      ensures LiveKept(old(mem), mem, live)
    {
      hide Inv, Linked, SameOutside, LiveKept, AllTagged, Fits, Spaced;
      var bytes := pages * PAGE_SIZE;
      var region := base + committed;
      ghost var h := View();
      RegionIsClear(h, Block(region, bytes));
      FreeFits(h);
      GrowKeeps(h, pages);
      committed := committed + bytes;
      InsertFreeBlock(region, bytes);
      KeptOutside(h, old(mem), mem, Block(region, bytes));
      TagsKept(old(mem), mem, live);
    }

    /** Splices block `k` out of the list. */
    method Unlink(previous: nat, next: nat, ghost k: nat)
      requires Linked(mem, freeList, free) && Normal(free) && Spaced(free) && k < |free|
      requires next == AddrAt(free, k + 1)
      requires if k == 0 then previous == 0 else previous == free[k - 1].addr && previous > 0
      modifies this`mem, this`freeList, this`free
      ensures free == Without(old(free), k) && Linked(mem, freeList, free)
      ensures forall x: nat :: !Covered(old(free), x) ==> mem(x) == old(mem(x))
    {
      hide Read, Write, Linked, Normal, Covered, Spaced, Without;
      LinkedWithout(mem, freeList, free, k);
      if previous == 0 {
        freeList := next;
      } else {
        HeaderIsCovered(free, k - 1);
        forall x: nat | !Covered(free, x) ensures Write(mem, previous + 8, next)(x) == mem(x) {
          WordElsewhere(mem, previous + 8, next, x);
        }
        mem := Write(mem, previous + 8, next);
      }
      free := Without(free, k);
    }

    /** The header of a block that leaves the list, and the back-pointer before its data. */
    method WriteHeader(block: nat, total: nat, offset: nat) returns (data: nat)
      requires OffsetOk(offset) && offset <= total && block + total < TWO64
      modifies this`mem
      ensures data == block + offset && Tagged(mem, Live(Block(block, total), offset))
      ensures forall x: nat :: !In(Block(block, total), x) ==> mem(x) == old(mem(x))
    {
      hide Read, Write;
      var m0 := mem;
      var m1 := Write(m0, block, total);
      var m2 := Write(m1, block + 8, offset);
      data := block + offset;
      var m3 := Write(m2, data - 8, offset);
      mem := m3;
      WriteThenRead(m0, block, total, block);
      WriteThenRead(m1, block + 8, offset, block);
      WriteThenRead(m2, data - 8, offset, block);
      WriteThenRead(m2, data - 8, offset, block + 8);
      forall x: nat | !In(Block(block, total), x) ensures mem(x) == m0(x) {
        WordElsewhere(m0, block, total, x);
        WordElsewhere(m1, block + 8, offset, x);
        WordElsewhere(m2, data - 8, offset, x);
      }
    }

    /** Puts the tail of a block that was cut back on the list, if it can carry a node. */
    method ReturnRest(block: nat, available: nat, total: nat, ghost bs: seq<Block>, ghost k: nat)
      requires Normal(bs) && Fits(bs) && k < |bs| && bs[k] == Block(block, available) && HEADER <= total <= available
      requires free == Without(bs, k) && Linked(mem, freeList, free)
      modifies this`mem, this`freeList, this`free
      ensures free == Cut(bs, k, total) && Linked(mem, freeList, free)
      ensures forall x: nat :: !Covered(bs, x) ==> mem(x) == old(mem(x))
    {
      hide Linked, Normal, Covered, Insert, Without, Fits;
      var remaining := available - total;
      if remaining >= HEADER {
        ghost var rest := Block(block + total, remaining);
        RestIsClear(bs, k, total);
        InsertFreeBlock(block + total, remaining);
        forall x: nat | !Covered(bs, x) ensures mem(x) == old(mem(x)) {
          WithoutCovers(bs, k, x);
          KthCovers(bs, k, x);
        }
      }
    }

    /** The block that first fit chose leaves the list. */
    method TakeBlock(previous: nat, current: nat, total: nat, offset: nat, ghost k: nat) returns (data: nat)
      requires Valid() && k < |free| && current == free[k].addr && HEADER <= offset <= total <= free[k].size
      requires if k == 0 then previous == 0 else previous == free[k - 1].addr && previous > 0
      requires OffsetOk(offset)
      modifies this
      ensures Valid() && View() == Take(old(View()), k, total, offset)
      ensures data == live[0].Data() && LiveKept(old(mem), mem, old(live))
    {
      hide Read, Linked, Normal, Covered, Inv, Without, Cut, Fits, Spaced, Tagged, LiveKept, AllTagged, Insert;
      ghost var h := View();
      ghost var taken := Live(Block(current, total), offset);
      InvParts(h);
      FreeFits(h);
      LinkedAt(mem, freeList, free, k);
      var available := Read(mem, current);
      var next := Read(mem, current + 8);
      TakeKeeps(h, k, total, offset);
      TakenFits(h, k, total);
      Unlink(previous, next, k);
      ReturnRest(current, available, total, h.free, k);
      assert forall x: nat :: !Covered(h.free, x) ==> mem(x) == old(mem(x));
      ghost var m := mem;
      data := WriteHeader(current, total, offset);
      PieceIsCleared(h.free, k, total, taken.block);
      CutNormal(h.free, k, total);
      LinkedKept(m, mem, freeList, free, taken.block);
      assert SameOutside(old(mem), mem, h.free, taken.block);
      TakenIsApart(h, k, taken.block);
      KeptOutside(h, old(mem), mem, taken.block);
      TagsKept(old(mem), mem, live);
      TagsExtended(mem, taken, live);
      lost := lost + Remainder(h.free, k, total);
      live := [taken] + live;
    }

    /** The walk of `allocate`: when the list is exhausted it grows the heap and starts
        over, which happens at most once. */
    method FindOrGrow(total: nat) returns (previous: nat, current: nat, ghost k: nat)
      requires Valid() && AllocEnabled(View(), total)
      modifies this
      ensures Valid() && View() == Prepared(old(View()), total)
      ensures k == FirstFit(free, total) < |free| && current == free[k].addr
      ensures if k == 0 then previous == 0 else previous == free[k - 1].addr && previous > 0
      ensures LiveKept(old(mem), mem, live)
    {
      hide Read, Linked, Inv, Fits, LiveKept, AllTagged, GrowPages, FirstFit, Insert;
      ghost var grown := false;
      previous, current, k := 0, freeList, 0;
      LinkedHead(mem, freeList, free);
      KeptItself(mem, live);
      while true
        invariant Valid() && LiveKept(old(mem), mem, live) && live == old(live)
        invariant View() == if grown then HeapRuns.Grow(old(View()), GrowPages(total)) else old(View())
        invariant grown ==> NeedsGrowth(old(View()), total)
        invariant k <= |free| && current == AddrAt(free, k)
        invariant if k == 0 then previous == 0 else previous == free[k - 1].addr && previous > 0
        invariant forall j :: 0 <= j < k ==> free[j].size < total
        decreases if grown then 0 else 1, |free| - k
      {
        if k < |free| {
          LinkedAt(mem, freeList, free, k);
        }
        if current == 0 {
          FirstFitIs(free, total, k);
          assert !grown by {
            if grown { GrowthFits(old(View()), total); }
          }
          ghost var m := mem;
          assert GrowPages(total) >= 1 by { GrowsByFour(total); }
          Grow(GrowPages(total));
          KeptTwice(old(mem), m, mem, live);
          grown := true;
          previous, current, k := 0, freeList, 0;
          LinkedHead(mem, freeList, free);
          continue;
        }
        var available := Read(mem, current);
        if available >= total {
          FirstFitIs(free, total, k);
          assert grown <==> NeedsGrowth(old(View()), total);
          return;
        }
        previous := current;
        current := Read(mem, current + 8);
        k := k + 1;
      }
    }

    method Allocate(size: nat, align: nat) returns (data: nat)
      requires Valid() && PowerOfTwo(align) && AllocEnabled(View(), Need(size, align))
      modifies this
      ensures Valid() && Some(View()) == Alloc(old(View()), size, align)
      ensures live != [] && data == live[0].Data() && live[0].block.End() == data + size
      ensures LiveKept(old(mem), mem, old(live))
    {
      hide Linked, Inv, LiveKept, AllTagged, PowerOfTwo, DataOffset, Prepared, FirstFit;
      PowerOffset(align);
      var offset := DataOffset(align);
      var total := offset + size;
      ghost var h := View();
      PreparedLive(h, total);
      var previous, current;
      ghost var k: nat;
      previous, current, k := FindOrGrow(total);
      FirstFitFits(free, total);
      ghost var m := mem;
      data := TakeBlock(previous, current, total, offset, k);
      KeptTwice(old(mem), m, mem, h.live);
    }

    /** Recovers the block from the word before the data. */
    method Deallocate(data: nat, ghost i: nat)
      requires Valid() && i < |live| && data == live[i].Data()
      modifies this
      ensures Valid() && View() == Release(old(View()), i)
      ensures LiveKept(old(mem), mem, live)
    {
      hide Read, Linked, Inv, Fits, AllTagged, Insert, Normal;
      ghost var h := View();
      ghost var b := live[i].block;
      InvParts(h);
      FreeFits(h);
      TagAt(mem, live, i);
      HeldBlock(h, i);
      ReleaseKeeps(h, i);
      var offset := Read(mem, data - 8);
      var block := data - offset;
      var total := Read(mem, block);
      InsertFreeBlock(block, total);
      live := live[..i] + live[i + 1..];
      KeptButOne(h, i, old(mem), mem);
      TagsDropped(old(mem), h.live, i);
      TagsKept(old(mem), mem, live);
    }

    /** A caller writes a byte of its own allocation. */
    method WriteByte(ghost i: nat, x: nat, v: nat)
      requires Valid() && i < |live| && live[i].Data() <= x < live[i].block.End()
      modifies this`mem
      ensures Valid() && mem(x) == v && forall y: nat :: y != x ==> mem(y) == old(mem(y))
    {
      hide Read, Inv, Normal, Covered;
      ghost var h := View();
      InvParts(h);
      mem := Put(mem, x, v);
      forall k: nat | k < |free| ensures NodeAt(mem, free, k) {
        assert NodeAt(old(mem), free, k);
        KthIsLarge(free, k);
        LiveDataIsPrivate(h, i, 0, x);
        KthCovers(free, k, x);
        PutThenRead(old(mem), x, v, free[k].addr);
        PutThenRead(old(mem), x, v, free[k].addr + 8);
      }
      forall j | 0 <= j < |live| ensures Tagged(mem, live[j]) {
        assert Tagged(old(mem), live[j]);
        LiveDataIsPrivate(h, i, j, x);
        PutThenRead(old(mem), x, v, live[j].block.addr);
        PutThenRead(old(mem), x, v, live[j].block.addr + 8);
        PutThenRead(old(mem), x, v, live[j].Data() - 8);
      }
    }
  }

  lemma FirstFitIs(bs: seq<Block>, need: nat, k: nat)
    requires k <= |bs| && (forall j :: 0 <= j < k ==> bs[j].size < need) && (k < |bs| ==> bs[k].size >= need)
    ensures FirstFit(bs, need) == k
  {
  }

  lemma GrowsByFour(need: nat)
    ensures GrowPages(need) >= 4
  {
  }

  lemma KeptItself(m: Bytes, ls: seq<Live>)
    ensures LiveKept(m, m, ls)
  {
  }

  lemma KeptTwice(m: Bytes, m1: Bytes, m2: Bytes, ls: seq<Live>)
    requires LiveKept(m, m1, ls) && LiveKept(m1, m2, ls)
    ensures LiveKept(m, m2, ls)
  {
    forall i, x: nat | 0 <= i < |ls| && In(ls[i].block, x) ensures m2(x) == m(x) {
      assert m1(x) == m(x);
    }
  }

  lemma TagAt(m: Bytes, ls: seq<Live>, i: nat)
    requires AllTagged(m, ls) && i < |ls|
    ensures Tagged(m, ls[i])
  {
  }

  lemma TagsDropped(m: Bytes, ls: seq<Live>, i: nat)
    requires AllTagged(m, ls) && i < |ls|
    ensures AllTagged(m, ls[..i] + ls[i + 1..])
  {
    hide Tagged;
  }

  lemma HeldBlock(h: Heap, i: nat)
    requires Inv(h) && i < |h.live|
    ensures Clear(h.live[i].block, h.free) && InRange(h, h.live[i].block)
  {
    assert Held(h)[i] == h.live[i].block;
  }

  /** Releasing one block leaves the bytes of all the others. */
  lemma KeptButOne(h: Heap, i: nat, m: Bytes, m': Bytes)
    requires Inv(h) && i < |h.live| && SameOutside(m, m', h.free, h.live[i].block)
    ensures LiveKept(m, m', h.live[..i] + h.live[i + 1..])
  {
    hide Covered, Normal, Sum;
    var ls := h.live[..i] + h.live[i + 1..];
    forall j, x: nat | 0 <= j < |ls| && In(ls[j].block, x) ensures m'(x) == m(x) {
      var k := if j < i then j else j + 1;
      assert Held(h)[k] == ls[j].block && Held(h)[i] == h.live[i].block;
      assert Clear(Held(h)[k], h.free);
      assert Disjoint(Held(h)[if i < k then i else k], Held(h)[if i < k then k else i]);
    }
  }

  lemma InvParts(h: Heap)
    requires Inv(h)
    ensures FreeOk(h) && Normal(h.free) && h.committed <= h.maxSize
    ensures forall i :: 0 <= i < |h.live| ==> h.live[i].block.size >= h.live[i].offset >= HEADER
  {
  }

  lemma TakenFits(h: Heap, k: nat, total: nat)
    requires Fits(h.free) && Normal(h.free) && k < |h.free| && total <= h.free[k].size
    ensures h.free[k].addr + total < TWO64
  {
  }

  lemma TakenIsApart(h: Heap, k: nat, piece: Block)
    requires Inv(h) && k < |h.free|
    requires h.free[k].addr <= piece.addr && piece.End() <= h.free[k].End() && piece.size > 0
    ensures forall i :: 0 <= i < |h.live| ==> Disjoint(h.live[i].block, piece)
  {
    hide Covered, Normal, Sum;
    PieceIsApart(h, k, piece);
    forall i | 0 <= i < |h.live| ensures Disjoint(h.live[i].block, piece) {
      assert Held(h)[i] == h.live[i].block;
    }
  }

  lemma TagsExtended(m: Bytes, l: Live, ls: seq<Live>)
    requires Tagged(m, l) && AllTagged(m, ls)
    ensures AllTagged(m, [l] + ls)
  {
    hide Tagged;
  }

  lemma RestIsClear(bs: seq<Block>, k: nat, total: nat)
    requires Normal(bs) && Fits(bs) && k < |bs| && total <= bs[k].size
    ensures Normal(Without(bs, k)) && Fits(Without(bs, k)) && bs[k].End() < TWO64
    ensures Clear(Block(bs[k].addr + total, bs[k].size - total), Without(bs, k))
  {
    hide Covered, Normal;
    WithoutNormal(bs, k);
    var rest := Block(bs[k].addr + total, bs[k].size - total);
    forall x: nat | In(rest, x) ensures !Covered(Without(bs, k), x) {
      WithoutCovers(bs, k, x);
    }
  }

  /** Writing inside a block that no free block covers keeps the list. */
  lemma LinkedKept(m: Bytes, m': Bytes, head: nat, bs: seq<Block>, b: Block)
    requires Linked(m, head, bs) && Normal(bs) && Clear(b, bs)
    requires forall x: nat :: !In(b, x) ==> m'(x) == m(x)
    ensures Linked(m', head, bs)
  {
    hide Read, Covered, Normal;
    forall i: nat | i < |bs| ensures NodeAt(m', bs, i) {
      assert NodeAt(m, bs, i);
      KthIsLarge(bs, i);
      forall x: nat | In(bs[i], x) ensures m'(x) == m(x) {
        KthCovers(bs, i, x);
      }
      WordSame(m, m', bs[i], bs[i].addr);
      WordSame(m, m', bs[i], bs[i].addr + 8);
    }
  }

  lemma RegionIsClear(h: Heap, region: Block)
    requires Inv(h) && region.addr == h.base + h.committed
    ensures Clear(region, h.free) && Normal(h.free) && FreeOk(h)
    ensures forall i :: 0 <= i < |h.live| ==> Disjoint(h.live[i].block, region)
    ensures forall i :: 0 <= i < |h.live| ==> h.live[i].block.size >= h.live[i].offset
    ensures h.committed <= h.maxSize
  {
    hide Covered, Normal;
    forall i | 0 <= i < |h.live| ensures Disjoint(h.live[i].block, region) {
      assert Held(h)[i] == h.live[i].block;
    }
  }

  /** Changes inside the free list, and inside a block apart from every live one, leave
      the live blocks alone. */
  lemma KeptOutside(h: Heap, m: Bytes, m': Bytes, b: Block)
    requires Inv(h) && SameOutside(m, m', h.free, b)
    requires forall i :: 0 <= i < |h.live| ==> Disjoint(h.live[i].block, b)
    ensures LiveKept(m, m', h.live)
  {
    hide Covered, Normal;
    forall i, x: nat | 0 <= i < |h.live| && In(h.live[i].block, x) ensures m'(x) == m(x) {
      assert Held(h)[i] == h.live[i].block;
      assert Clear(Held(h)[i], h.free);
    }
  }

  lemma SameOutsideItself(m: Bytes, free: seq<Block>, b: Block)
    ensures SameOutside(m, m, free, b)
  {
  }

  lemma LinkedHead(m: Bytes, head: nat, bs: seq<Block>)
    requires Linked(m, head, bs)
    ensures head == AddrAt(bs, 0)
  {
  }

  lemma ForwardAt(bs: seq<Block>, i: nat, b: Block)
    requires 1 <= i <= |bs|
    ensures |ForwardMerged(bs, i, b)| > i && ForwardMerged(bs, i, b)[i].addr == b.addr
    ensures ForwardMerged(bs, i, b)[i - 1] == bs[i - 1]
  {
  }

  lemma ChangedInside(m0: Bytes, m: Bytes, m': Bytes, a: nat, free: seq<Block>, b: Block)
    requires SameOutside(m0, m, free, b)
    requires forall x: nat :: x < a || a + HEADER <= x ==> m'(x) == m(x)
    requires forall x: nat :: a <= x < a + HEADER ==> In(b, x) || Covered(free, x)
    ensures SameOutside(m0, m', free, b)
  {
    hide Covered;
  }

  lemma LinkedAt(m: Bytes, head: nat, bs: seq<Block>, i: nat)
    requires Linked(m, head, bs) && i < |bs|
    ensures Read(m, bs[i].addr) == bs[i].size && Read(m, bs[i].addr + 8) == AddrAt(bs, i + 1) && bs[i].addr > 0
  {
    assert NodeAt(m, bs, i);
  }
}
