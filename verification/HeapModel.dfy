/** The kernel heap as a value: a sorted free list that is coalesced on every
    insertion, the blocks that are out, and the bytes that are lost because a
    remainder was too small to carry a list node. */
module HeapModel {

  const HEADER: nat := 16
  const PAGE_SIZE: nat := 4096

  datatype Block = Block(addr: nat, size: nat) {
    function End(): nat { addr + size }
  }

  predicate In(b: Block, x: nat)
  {
    b.addr <= x < b.End()
  }

  predicate Covered(bs: seq<Block>, x: nat)
  {
    bs != [] && (In(bs[0], x) || Covered(bs[1..], x))
  }

  /** Sorted, large enough to carry a node, and fully coalesced: no two blocks touch. */
  predicate Normal(bs: seq<Block>)
  {
    bs == [] || (bs[0].size >= HEADER && (|bs| > 1 ==> bs[0].End() < bs[1].addr) && Normal(bs[1..]))
  }

  /** `insert_free_block_sorted`: splice in before the first block that is not below
      it, merge with the successor, then with the predecessor. */
  function Insert(bs: seq<Block>, b: Block): (r: seq<Block>)
    ensures r != []
    ensures r[0].addr == if bs == [] || b.addr <= bs[0].addr then b.addr else bs[0].addr
    decreases |bs|
  {
    if bs == [] then [b]
    else if b.addr <= bs[0].addr then
      if b.End() == bs[0].addr then [Block(b.addr, b.size + bs[0].size)] + bs[1..] else [b] + bs
    else
      var r := Insert(bs[1..], b);
      if (|bs| == 1 || b.addr <= bs[1].addr) && bs[0].End() == b.addr
      then [Block(bs[0].addr, bs[0].size + r[0].size)] + r[1..]
      else [bs[0]] + r
  }

  lemma {:induction false} InsertCovers(bs: seq<Block>, b: Block, x: nat)
    ensures Covered(Insert(bs, b), x) <==> In(b, x) || Covered(bs, x)
    decreases |bs|
  {
    if bs != [] {
      if b.addr <= bs[0].addr {
        assert Insert(bs, b)[1..] == if b.End() == bs[0].addr then bs[1..] else bs;
      } else {
        var r := Insert(bs[1..], b);
        InsertCovers(bs[1..], b, x);
        if (|bs| == 1 || b.addr <= bs[1].addr) && bs[0].End() == b.addr {
          assert Insert(bs, b)[1..] == r[1..];
        } else {
          assert Insert(bs, b)[1..] == r;
        }
      }
    }
  }

  ghost predicate Clear(b: Block, bs: seq<Block>)
  {
    forall x: nat :: In(b, x) ==> !Covered(bs, x)
  }

  lemma {:induction false} InsertNormal(bs: seq<Block>, b: Block)
    requires Normal(bs) && b.size >= HEADER && Clear(b, bs)
    ensures Normal(Insert(bs, b))
    decreases |bs|
  {
    if bs != [] {
      assert In(b, b.addr) && In(bs[0], bs[0].addr) && Covered(bs, bs[0].addr);
      if b.addr <= bs[0].addr {
        assert b.End() <= bs[0].addr;
        assert Insert(bs, b)[1..] == if b.End() == bs[0].addr then bs[1..] else bs;
      } else {
        assert bs[0].End() <= b.addr;
        var r := Insert(bs[1..], b);
        InsertNormal(bs[1..], b);
        if (|bs| == 1 || b.addr <= bs[1].addr) && bs[0].End() == b.addr {
          assert Insert(bs, b)[1..] == r[1..];
        } else {
          assert Insert(bs, b)[1..] == r;
        }
      }
    }
  }

  lemma {:induction false} TailIsAbove(bs: seq<Block>, x: nat)
    requires Normal(bs) && bs != [] && Covered(bs[1..], x)
    ensures bs[0].End() < bs[1].addr <= x
    decreases |bs|
  {
    if !In(bs[1], x) {
      assert bs[1..][1..] == bs[2..];
      TailIsAbove(bs[1..], x);
    }
  }

  /** The coalesced form is unique: it is determined by the set of free bytes alone. */
  lemma {:induction false} NormalFormIsUnique(bs: seq<Block>, cs: seq<Block>)
    requires Normal(bs) && Normal(cs)
    requires forall x: nat :: Covered(bs, x) <==> Covered(cs, x)
    ensures bs == cs
    decreases |bs|
  {
    if bs == [] {
      FirstByte(cs);
    } else {
      FirstByte(bs);
      FirstByte(cs);
      SameHead(bs, cs);
      forall x: nat ensures Covered(bs[1..], x) <==> Covered(cs[1..], x) {
        if Covered(bs[1..], x) { TailIsAbove(bs, x); }
        if Covered(cs[1..], x) { TailIsAbove(cs, x); }
        assert Covered(bs, x) <==> Covered(cs, x);
      }
      NormalFormIsUnique(bs[1..], cs[1..]);
    }
  }

  lemma {:induction false} FirstByte(bs: seq<Block>)
    requires Normal(bs)
    ensures bs != [] ==> Covered(bs, bs[0].addr)
  {
  }

  lemma {:induction false} HeadCovers(bs: seq<Block>, x: nat)
    requires bs != []
    ensures In(bs[0], x) ==> Covered(bs, x)
  {
  }

  lemma {:induction false} LowestCovered(bs: seq<Block>, x: nat)
    requires Normal(bs) && Covered(bs, x)
    ensures bs[0].addr <= x
  {
    if !In(bs[0], x) { TailIsAbove(bs, x); }
  }

  lemma {:induction false} NotInTail(bs: seq<Block>, x: nat)
    requires Normal(bs) && bs != [] && x <= bs[0].End()
    ensures !Covered(bs[1..], x)
    decreases |bs|
  {
    if |bs| > 1 {
      assert bs[1..][1..] == bs[2..];
      NotInTail(bs[1..], x);
    }
  }

  /** The first byte after the first block is not free. */
  lemma {:induction false} GapAfterHead(bs: seq<Block>)
    requires Normal(bs) && bs != []
    ensures !Covered(bs, bs[0].End())
  {
    NotInTail(bs, bs[0].End());
  }

  lemma {:induction false} SameHead(bs: seq<Block>, cs: seq<Block>)
    requires Normal(bs) && Normal(cs) && bs != [] && cs != []
    requires forall x: nat :: Covered(bs, x) <==> Covered(cs, x)
    ensures bs[0] == cs[0]
  {
    assert Covered(bs, bs[0].addr) && Covered(cs, cs[0].addr);
    LowestCovered(bs, cs[0].addr);
    LowestCovered(cs, bs[0].addr);
    GapAfterHead(bs);
    GapAfterHead(cs);
    HeadCovers(bs, cs[0].End());
    HeadCovers(cs, bs[0].End());
  }

  // ------------------------------------------------------------------- first fit

  /** Index of the first block of at least `need` bytes, or the length of the list. */
  function FirstFit(bs: seq<Block>, need: nat): (k: nat)
    ensures k <= |bs|
    ensures k < |bs| ==> bs[k].size >= need
    ensures forall i :: 0 <= i < k ==> bs[i].size < need
  {
    if bs == [] || bs[0].size >= need then 0 else 1 + FirstFit(bs[1..], need)
  }

  function Without(bs: seq<Block>, k: nat): (r: seq<Block>)
    requires k < |bs|
  {
    bs[..k] + bs[k + 1..]
  }

  /** The list after `need` bytes were cut off block `k`: a remainder that can carry a
      node goes back, a smaller one is dropped. */
  function Cut(bs: seq<Block>, k: nat, need: nat): (r: seq<Block>)
    requires k < |bs| && need <= bs[k].size
  {
    if bs[k].size - need >= HEADER
    then Insert(Without(bs, k), Block(bs[k].addr + need, bs[k].size - need))
    else Without(bs, k)
  }

  /** In a coalesced list a byte of block `k` lies in no other block. */
  lemma {:induction false} WithoutCovers(bs: seq<Block>, k: nat, x: nat)
    requires Normal(bs) && k < |bs|
    ensures Covered(Without(bs, k), x) <==> Covered(bs, x) && !In(bs[k], x)
    decreases |bs|
  {
    if k == 0 {
      assert Without(bs, 0) == bs[1..];
      if Covered(bs[1..], x) { TailIsAbove(bs, x); }
    } else {
      assert Without(bs, k)[1..] == Without(bs[1..], k - 1);
      WithoutCovers(bs[1..], k - 1, x);
      KthIsAbove(bs, k);
    }
  }

  lemma {:induction false} KthIsAbove(bs: seq<Block>, k: nat)
    requires Normal(bs) && 1 <= k < |bs|
    ensures bs[0].End() < bs[k].addr && bs[k].size >= HEADER
    decreases k
  {
    if k > 1 {
      KthIsAbove(bs[1..], k - 1);
    }
  }

  lemma {:induction false} WithoutNormal(bs: seq<Block>, k: nat)
    requires Normal(bs) && k < |bs|
    ensures Normal(Without(bs, k))
    decreases |bs|
  {
    if k == 0 {
      assert Without(bs, 0) == bs[1..];
    } else {
      assert Without(bs, k)[1..] == Without(bs[1..], k - 1);
      WithoutNormal(bs[1..], k - 1);
      if k + 1 < |bs| { KthIsAbove(bs, k + 1); }
      assert |Without(bs, k)| > 1 ==> Without(bs, k)[1] == if k == 1 then bs[2] else bs[1];
    }
  }

  /** The bytes that are free after the cut. */
  lemma {:induction false} CutCovers(bs: seq<Block>, k: nat, need: nat, x: nat)
    requires Normal(bs) && k < |bs| && need <= bs[k].size
    ensures Covered(Cut(bs, k, need), x) <==>
              Covered(bs, x) && (!In(bs[k], x) || (bs[k].size - need >= HEADER && bs[k].addr + need <= x))
  {
    WithoutCovers(bs, k, x);
    KthCovers(bs, k, x);
    if bs[k].size - need >= HEADER {
      InsertCovers(Without(bs, k), Block(bs[k].addr + need, bs[k].size - need), x);
    }
  }

  lemma {:induction false} KthCovers(bs: seq<Block>, k: nat, x: nat)
    requires k < |bs|
    ensures In(bs[k], x) ==> Covered(bs, x)
    decreases k
  {
    if k > 0 {
      KthCovers(bs[1..], k - 1, x);
    }
  }

  lemma {:induction false} CutNormal(bs: seq<Block>, k: nat, need: nat)
    requires Normal(bs) && k < |bs| && need <= bs[k].size
    ensures Normal(Cut(bs, k, need))
  {
    WithoutNormal(bs, k);
    var rest := Block(bs[k].addr + need, bs[k].size - need);
    if rest.size >= HEADER {
      forall x: nat | In(rest, x) ensures !Covered(Without(bs, k), x) {
        WithoutCovers(bs, k, x);
      }
      InsertNormal(Without(bs, k), rest);
    }
  }

  /** Giving a block back restores the exact list it was cut from if and only if the
      cut left no bytes over, or enough to carry a node. */
  lemma {:induction false} GivingBackRestoresIff(bs: seq<Block>, k: nat, need: nat)
    requires Normal(bs) && k < |bs| && HEADER <= need <= bs[k].size
    ensures var rem := bs[k].size - need;
            Insert(Cut(bs, k, need), Block(bs[k].addr, need)) == bs <==> rem == 0 || rem >= HEADER
  {
    var b := Block(bs[k].addr, need);
    var r := Insert(Cut(bs, k, need), b);
    forall x: nat ensures Covered(r, x) <==> In(b, x) || Covered(Cut(bs, k, need), x) {
      InsertCovers(Cut(bs, k, need), b, x);
    }
    if bs[k].size - need == 0 || bs[k].size - need >= HEADER {
      forall x: nat ensures Covered(r, x) <==> Covered(bs, x) {
        CutCovers(bs, k, need, x);
        KthCovers(bs, k, x);
      }
      forall x: nat | In(b, x) ensures !Covered(Cut(bs, k, need), x) {
        CutCovers(bs, k, need, x);
      }
      CutNormal(bs, k, need);
      InsertNormal(Cut(bs, k, need), b);
      NormalFormIsUnique(r, bs);
    } else {
      var lost := bs[k].addr + need;
      CutCovers(bs, k, need, lost);
      KthCovers(bs, k, lost);
      assert In(bs[k], lost) && !Covered(r, lost) && Covered(bs, lost);
    }
  }
}
