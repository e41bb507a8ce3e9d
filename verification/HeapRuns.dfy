/** Allocation and release over whole runs: disjointness, conservation of bytes,
    growth, alignment. */
module HeapRuns {
  import opened Basics
  import opened HeapModel

  /** A block that is out, and how far into it the data starts. */
  datatype Live = Live(block: Block, offset: nat) {
    function Data(): nat { block.addr + offset }
  }

  /** `live` are the blocks that are out, `lost` the remainders that nobody tracks. */
  datatype Heap = Heap(
    base: nat,
    maxSize: nat,
    committed: nat,
    free: seq<Block>,
    live: seq<Live>,
    lost: seq<Block>)

  /** The header rounded up to the alignment. For a power of two this is
      `(16 + align - 1) & !(align - 1)`. */
  function DataOffset(align: nat): (o: nat)
    requires 0 < align
    ensures HEADER <= o < HEADER + align && o % align == 0
  {
    Rounded(HEADER + align - 1, align);
    (HEADER + align - 1) / align * align
  }

  lemma Rounded(n: nat, d: nat)
    requires 0 < d
    ensures n / d * d <= n < n / d * d + d && (n / d * d) % d == 0
  {
    assert n == n / d * d + n % d;
    ModIs(n / d * d, d, n / d, 0);
  }

  /** Quotient and remainder are unique. */
  lemma ModIs(n: nat, d: nat, q: nat, r: nat)
    requires 0 < d && r < d && n == q * d + r
    ensures n % d == r
  {
    var q', r' := n / d, n % d;
    assert n == d * q' + r';
    Distribute(q, q', d);
    SmallMultiple(q - q', d, r' - r);
  }

  lemma Distribute(a: int, b: int, d: int)
    ensures (a - b) * d == a * d - b * d && b * d == d * b
  {
  }

  lemma AtLeastOnce(a: int, d: int)
    requires a >= 1 && d > 0
    ensures a * d >= d
  {
  }

  lemma SmallMultiple(k: int, d: int, e: int)
    requires 0 < d && k * d == e && -d < e < d
    ensures k == 0
  {
    if k >= 1 {
      AtLeastOnce(k, d);
    } else if k <= -1 {
      AtMostMinusOnce(k, d);
    }
  }

  lemma AtMostMinusOnce(a: int, d: int)
    requires a <= -1 && d > 0
    ensures a * d <= -d
  {
    AtLeastOnce(-a, d);
    assert (-a) * d == -(a * d);
  }

  function Need(size: nat, align: nat): (n: nat)
    requires 0 < align
    ensures n >= HEADER
  {
    DataOffset(align) + size
  }

  /** Pages that `allocate` asks for when nothing fits. */
  function GrowPages(need: nat): (n: nat)
    ensures n * PAGE_SIZE >= need && n >= 4
  {
    var n := (need + PAGE_SIZE - 1) / PAGE_SIZE;
    if n < 4 then 4 else n
  }

  function Grow(h: Heap, pages: nat): (r: Heap)
  {
    h.(committed := h.committed + pages * PAGE_SIZE,
       free := Insert(h.free, Block(h.base + h.committed, pages * PAGE_SIZE)))
  }

  predicate NeedsGrowth(h: Heap, need: nat)
  {
    FirstFit(h.free, need) == |h.free|
  }

  /** The heap in which the search succeeds. */
  function Prepared(h: Heap, need: nat): (r: Heap)
  {
    if NeedsGrowth(h, need) then Grow(h, GrowPages(need)) else h
  }

  /** Exceeding the heap's address range is a panic. */
  predicate AllocEnabled(h: Heap, need: nat)
  {
    NeedsGrowth(h, need) ==> h.committed + GrowPages(need) * PAGE_SIZE <= h.maxSize
  }

  function Remainder(bs: seq<Block>, k: nat, need: nat): (r: seq<Block>)
    requires k < |bs| && need <= bs[k].size
  {
    var rem := bs[k].size - need;
    if 0 < rem < HEADER then [Block(bs[k].addr + need, rem)] else []
  }

  function Take(h: Heap, k: nat, need: nat, offset: nat): (r: Heap)
    requires k < |h.free| && need <= h.free[k].size
  {
    h.(free := Cut(h.free, k, need),
       live := [Live(Block(h.free[k].addr, need), offset)] + h.live,
       lost := h.lost + Remainder(h.free, k, need))
  }

  function Alloc(h: Heap, size: nat, align: nat): (r: Option<Heap>)
    requires 0 < align
  {
    var need := Need(size, align);
    var p := Prepared(h, need);
    var k := FirstFit(p.free, need);
    if k < |p.free| then Some(Take(p, k, need, DataOffset(align))) else None
  }

  function Release(h: Heap, i: nat): (r: Heap)
    requires i < |h.live|
  {
    h.(free := Insert(h.free, h.live[i].block), live := h.live[..i] + h.live[i + 1..])
  }

  // ------------------------------------------------------------------- invariants

  function Sum(bs: seq<Block>): (n: nat)
  {
    if bs == [] then 0 else bs[0].size + Sum(bs[1..])
  }

  function Blocks(ls: seq<Live>): (bs: seq<Block>)
    ensures |bs| == |ls|
    ensures forall i :: 0 <= i < |ls| ==> bs[i] == ls[i].block
  {
    if ls == [] then [] else [ls[0].block] + Blocks(ls[1..])
  }

  predicate Disjoint(a: Block, b: Block)
  {
    a.End() <= b.addr || b.End() <= a.addr
  }

  predicate InRange(h: Heap, b: Block)
  {
    h.base <= b.addr && b.End() <= h.base + h.committed
  }

  ghost predicate PairwiseDisjoint(bs: seq<Block>)
  {
    forall i, j :: 0 <= i < j < |bs| ==> Disjoint(bs[i], bs[j])
  }

  ghost predicate FreeOk(h: Heap)
  {
    Normal(h.free) && forall x: nat :: Covered(h.free, x) ==> h.base <= x < h.base + h.committed
  }

  /** Blocks that are out or lost: in range, and clear of the free list. */
  ghost predicate HeldOk(h: Heap, bs: seq<Block>)
  {
    forall i :: 0 <= i < |bs| ==> InRange(h, bs[i]) && Clear(bs[i], h.free)
  }

  ghost predicate LiveOk(h: Heap)
  {
    && (forall i :: 0 <= i < |h.live| ==> h.live[i].block.size >= h.live[i].offset >= HEADER)
    && (forall i :: 0 <= i < |h.lost| ==> 0 < h.lost[i].size < HEADER)
  }

  ghost function Held(h: Heap): (bs: seq<Block>)
  {
    Blocks(h.live) + h.lost
  }

  ghost predicate Inv(h: Heap)
  {
    && FreeOk(h)
    && HeldOk(h, Held(h))
    && PairwiseDisjoint(Held(h))
    && LiveOk(h)
    && Accounted(h)
    && h.committed <= h.maxSize
  }

  /** Conservation: every committed byte is free, out, or lost. */
  ghost predicate Accounted(h: Heap)
  {
    Sum(h.free) + Sum(Blocks(h.live)) + Sum(h.lost) == h.committed
  }

  // ----------------------------------------------------------------------- sums

  lemma {:induction false} SumConcat(a: seq<Block>, b: seq<Block>)
    ensures Sum(a + b) == Sum(a) + Sum(b)
  {
    if a == [] {
      assert a + b == b;
    } else {
      SumConcat(a[1..], b);
      assert (a + b)[1..] == a[1..] + b;
    }
  }

  lemma {:induction false} InsertSum(bs: seq<Block>, b: Block)
    ensures Sum(Insert(bs, b)) == Sum(bs) + b.size
    decreases |bs|
  {
    if bs == [] {
      assert [b][1..] == [];
    } else if b.addr <= bs[0].addr {
      assert Insert(bs, b)[1..] == if b.End() == bs[0].addr then bs[1..] else bs;
    } else {
      var r := Insert(bs[1..], b);
      InsertSum(bs[1..], b);
      if (|bs| == 1 || b.addr <= bs[1].addr) && bs[0].End() == b.addr {
        assert Insert(bs, b)[1..] == r[1..];
      } else {
        assert Insert(bs, b)[1..] == r;
      }
    }
  }

  lemma {:induction false} WithoutSum(bs: seq<Block>, k: nat)
    requires k < |bs|
    ensures Sum(Without(bs, k)) == Sum(bs) - bs[k].size
  {
    SumConcat(bs[..k], bs[k + 1..]);
    assert bs == bs[..k] + bs[k..];
    SumConcat(bs[..k], bs[k..]);
    assert bs[k..][1..] == bs[k + 1..];
  }

  lemma {:induction false} CutSum(bs: seq<Block>, k: nat, need: nat)
    requires k < |bs| && need <= bs[k].size
    ensures Sum(Cut(bs, k, need)) + need + Sum(Remainder(bs, k, need)) == Sum(bs)
  {
    WithoutSum(bs, k);
    var rest := Block(bs[k].addr + need, bs[k].size - need);
    if rest.size >= HEADER {
      InsertSum(Without(bs, k), rest);
    } else {
      assert [rest][1..] == [];
      assert Sum([rest]) == rest.size;
    }
  }

  lemma {:induction false} BlocksWithout(ls: seq<Live>, i: nat)
    requires i < |ls|
    ensures Blocks(ls[..i] + ls[i + 1..]) == Without(Blocks(ls), i)
  {
    var r := ls[..i] + ls[i + 1..];
    assert forall j :: 0 <= j < |r| ==> Blocks(r)[j] == Without(Blocks(ls), i)[j];
  }

  // --------------------------------------------------------------------- growing

  lemma {:induction false} InsertHasRoom(bs: seq<Block>, b: Block) returns (k: nat)
    ensures k < |Insert(bs, b)| && Insert(bs, b)[k].size >= b.size
    decreases |bs|
  {
    if bs == [] || b.addr <= bs[0].addr {
      k := 0;
    } else {
      var j := InsertHasRoom(bs[1..], b);
      k := if (|bs| == 1 || b.addr <= bs[1].addr) && bs[0].End() == b.addr then j else j + 1;
    }
  }

  lemma {:induction false} ClearOfInserted(free: seq<Block>, b: Block, region: Block)
    requires Clear(b, free) && Disjoint(b, region)
    ensures Clear(b, Insert(free, region))
  {
    forall x: nat | In(b, x) ensures !Covered(Insert(free, region), x) {
      InsertCovers(free, region, x);
    }
  }

  lemma {:induction false} InsertStaysInRange(free: seq<Block>, b: Block, lo: nat, hi: nat)
    requires forall x: nat :: Covered(free, x) ==> lo <= x < hi
    requires lo <= b.addr && b.End() <= hi
    ensures forall x: nat :: Covered(Insert(free, b), x) ==> lo <= x < hi
  {
    forall x: nat | Covered(Insert(free, b), x) ensures lo <= x < hi {
      InsertCovers(free, b, x);
    }
  }

  lemma {:induction false} GrowKeeps(h: Heap, pages: nat)
    requires Inv(h) && 1 <= pages && h.committed + pages * PAGE_SIZE <= h.maxSize
    ensures Inv(Grow(h, pages))
  {
    hide Insert, Covered, Normal, Sum, Blocks;
    var region := Block(h.base + h.committed, pages * PAGE_SIZE);
    var r := Grow(h, pages);
    assert Clear(region, h.free);
    InsertNormal(h.free, region);
    InsertSum(h.free, region);
    InsertStaysInRange(h.free, region, h.base, h.base + r.committed);
    forall i | 0 <= i < |Held(r)| ensures InRange(r, Held(r)[i]) && Clear(Held(r)[i], r.free) {
      assert InRange(h, Held(h)[i]);
      ClearOfInserted(h.free, Held(h)[i], region);
    }
  }

  /** One growth is enough: the block just committed, merged or not, fits the request
      that asked for it. */
  lemma {:induction false} GrowthFits(h: Heap, need: nat)
    ensures !NeedsGrowth(Grow(h, GrowPages(need)), need)
  {
    var region := Block(h.base + h.committed, GrowPages(need) * PAGE_SIZE);
    var k := InsertHasRoom(h.free, region);
    assert Grow(h, GrowPages(need)).free[k].size >= need;
  }

  lemma {:induction false} PreparedKeeps(h: Heap, need: nat)
    requires Inv(h) && AllocEnabled(h, need)
    ensures Inv(Prepared(h, need)) && FirstFit(Prepared(h, need).free, need) < |Prepared(h, need).free|
  {
    if NeedsGrowth(h, need) {
      GrowKeeps(h, GrowPages(need));
      GrowthFits(h, need);
    }
  }

  // ---------------------------------------------------------------------- taking

  lemma {:induction false} KthIsLarge(bs: seq<Block>, k: nat)
    requires Normal(bs) && k < |bs|
    ensures bs[k].size >= HEADER
  {
    if k > 0 { KthIsAbove(bs, k); }
  }

  /** A non-empty part of a free block is in range and clear of everything held. */
  lemma {:induction false} PieceIsApart(h: Heap, k: nat, piece: Block)
    requires FreeOk(h) && HeldOk(h, Held(h)) && LiveOk(h) && k < |h.free|
    requires h.free[k].addr <= piece.addr && piece.End() <= h.free[k].End() && piece.size > 0
    ensures InRange(h, piece)
    ensures forall i :: 0 <= i < |Held(h)| ==> Disjoint(Held(h)[i], piece)
  {
    KthCovers(h.free, k, piece.addr);
    KthCovers(h.free, k, piece.End() - 1);
    forall i | 0 <= i < |Held(h)| ensures Disjoint(Held(h)[i], piece) {
      var c := Held(h)[i];
      assert c.size > 0;
      KthCovers(h.free, k, c.addr);
      assert Clear(c, h.free);
      assert In(c, c.addr) && (In(c, piece.addr) <==> c.addr <= piece.addr < c.End());
    }
  }

  /** What was cut off is not covered by what is left. */
  lemma {:induction false} PieceIsCleared(bs: seq<Block>, k: nat, need: nat, piece: Block)
    requires Normal(bs) && k < |bs| && need <= bs[k].size
    requires bs[k].addr <= piece.addr && piece.End() <= bs[k].End()
    requires piece.End() <= bs[k].addr + need || bs[k].size - need < HEADER
    ensures Clear(piece, Cut(bs, k, need))
  {
    forall x: nat | In(piece, x) ensures !Covered(Cut(bs, k, need), x) {
      CutCovers(bs, k, need, x);
    }
  }

  lemma {:induction false} TakeKeepsFree(h: Heap, k: nat, need: nat, offset: nat)
    requires FreeOk(h) && k < |h.free| && need <= h.free[k].size
    ensures FreeOk(Take(h, k, need, offset))
    ensures forall b: Block :: Clear(b, h.free) ==> Clear(b, Take(h, k, need, offset).free)
  {
    CutNormal(h.free, k, need);
    forall x: nat | Covered(Cut(h.free, k, need), x) ensures Covered(h.free, x) {
      CutCovers(h.free, k, need, x);
    }
  }

  lemma {:induction false} TakeKeepsSums(h: Heap, k: nat, need: nat, offset: nat)
    requires Accounted(h) && k < |h.free| && need <= h.free[k].size
    ensures Accounted(Take(h, k, need, offset))
  {
    CutSum(h.free, k, need);
    SumConcat(h.lost, Remainder(h.free, k, need));
    assert Blocks(Take(h, k, need, offset).live)[1..] == Blocks(h.live);
  }

  lemma {:induction false} TakeKeepsHeld(h: Heap, k: nat, need: nat, offset: nat)
    requires FreeOk(h) && HeldOk(h, Held(h)) && LiveOk(h) && PairwiseDisjoint(Held(h))
    requires k < |h.free| && HEADER <= need <= h.free[k].size
    ensures var r := Take(h, k, need, offset); HeldOk(r, Held(r)) && PairwiseDisjoint(Held(r))
  {
    hide Insert, Covered, Normal, Cut, Blocks, Clear, Held;
    var b := h.free[k];
    var rem := Remainder(h.free, k, need);
    TakeKeepsFree(h, k, need, offset);
    PieceIsApart(h, k, Block(b.addr, need));
    PieceIsCleared(h.free, k, need, Block(b.addr, need));
    if rem != [] {
      PieceIsApart(h, k, rem[0]);
      PieceIsCleared(h.free, k, need, rem[0]);
    }
    HeldAfterTake(h, k, need, offset);
  }

  lemma {:induction false} TakeKeeps(h: Heap, k: nat, need: nat, offset: nat)
    requires Inv(h) && k < |h.free| && HEADER <= offset <= need <= h.free[k].size
    ensures Inv(Take(h, k, need, offset))
  {
    hide FreeOk, HeldOk, Accounted, PairwiseDisjoint, Held, Cut;
    TakeKeepsFree(h, k, need, offset);
    TakeKeepsHeld(h, k, need, offset);
    TakeKeepsSums(h, k, need, offset);
  }

  lemma {:induction false} HeldAfterTake(h: Heap, k: nat, need: nat, offset: nat)
    requires k < |h.free| && need <= h.free[k].size
    ensures Held(Take(h, k, need, offset)) == [Block(h.free[k].addr, need)] + Held(h) + Remainder(h.free, k, need)
  {
    var r := Take(h, k, need, offset);
    assert Blocks(r.live) == [Block(h.free[k].addr, need)] + Blocks(h.live);
  }

  // ------------------------------------------------------------------- releasing

  lemma {:induction false} HeldAfterRelease(h: Heap, i: nat)
    requires i < |h.live|
    ensures Held(Release(h, i)) == Without(Held(h), i)
  {
    BlocksWithout(h.live, i);
  }

  lemma {:induction false} ReleaseKeepsHeld(h: Heap, i: nat)
    requires HeldOk(h, Held(h)) && PairwiseDisjoint(Held(h)) && i < |h.live|
    ensures var r := Release(h, i); HeldOk(r, Held(r)) && PairwiseDisjoint(Held(r))
  {
    hide Insert, Covered, Normal, Blocks, Clear;
    var r := Release(h, i);
    HeldAfterRelease(h, i);
    var b := h.live[i].block;
    assert Held(h)[i] == b;
    forall j | 0 <= j < |Held(r)| ensures InRange(r, Held(r)[j]) && Clear(Held(r)[j], r.free) {
      var c := Held(h)[if j < i then j else j + 1];
      assert Held(r)[j] == c;
      ClearOfInserted(h.free, c, b);
    }
  }

  lemma {:induction false} ReleaseKeeps(h: Heap, i: nat)
    requires Inv(h) && i < |h.live|
    ensures Inv(Release(h, i))
  {
    hide Insert, Covered, Normal, Sum;
    var b := h.live[i].block;
    assert Held(h)[i] == b;
    InsertNormal(h.free, b);
    InsertStaysInRange(h.free, b, h.base, h.base + h.committed);
    InsertSum(h.free, b);
    BlocksWithout(h.live, i);
    WithoutSum(Blocks(h.live), i);
    ReleaseKeepsHeld(h, i);
  }
}
