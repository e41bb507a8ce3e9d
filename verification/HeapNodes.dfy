/** The free list as it lies in memory: every free block starts with its size and the
    address of the next free block. */
module HeapNodes {
  import opened ByteMemory
  import opened HeapModel

  /** The address of block `i`, null past the end. */
  function AddrAt(bs: seq<Block>, i: nat): nat
  {
    if i < |bs| then bs[i].addr else 0
  }

  ghost predicate Node(m: Bytes, b: Block, next: nat)
  {
    b.addr > 0 && Read(m, b.addr) == b.size && Read(m, b.addr + 8) == next
  }

  ghost predicate NodeAt(m: Bytes, bs: seq<Block>, i: nat)
    requires i < |bs|
  {
    Node(m, bs[i], AddrAt(bs, i + 1))
  }

  ghost predicate Linked(m: Bytes, head: nat, bs: seq<Block>)
  {
    && head == AddrAt(bs, 0)
    && forall i: nat :: i < |bs| ==> NodeAt(m, bs, i)
  }

  /** Nodes do not overlap, and their words fit. */
  ghost predicate Spaced(bs: seq<Block>)
  {
    && (forall i, j :: 0 <= i < j < |bs| ==> bs[i].addr + HEADER <= bs[j].addr)
    && (forall i :: 0 <= i < |bs| ==> 0 < bs[i].addr && bs[i].End() < TWO64)
  }

  lemma {:induction false} NormalSpaced(bs: seq<Block>, i: nat, j: nat)
    requires Normal(bs) && i < j < |bs|
    ensures bs[i].End() < bs[j].addr && bs[i].size >= HEADER
    decreases i
  {
    if i == 0 {
      KthIsAbove(bs, j);
    } else {
      NormalSpaced(bs[1..], i - 1, j - 1);
    }
  }

  // -------------------------------------------------------------------- node edits

  function WriteNode(m: Bytes, a: nat, size: nat, next: nat): Bytes
  {
    Write(Write(m, a, size), a + 8, next)
  }

  lemma WroteNode(m: Bytes, a: nat, size: nat, next: nat, b: nat)
    requires size < TWO64 && next < TWO64
    ensures Read(WriteNode(m, a, size, next), a) == size && Read(WriteNode(m, a, size, next), a + 8) == next
    ensures b + 8 <= a || a + HEADER <= b ==> Read(WriteNode(m, a, size, next), b) == Read(m, b)
  {
    hide Read, Write;
    var m1 := Write(m, a, size);
    WriteThenRead(m, a, size, b);
    WriteThenRead(m1, a + 8, next, a);
    WriteThenRead(m1, a + 8, next, b);
  }

  lemma NodeKept(m: Bytes, a: nat, size: nat, next: nat, b: Block, n: nat)
    requires size < TWO64 && next < TWO64
    requires b.addr + HEADER <= a || a + HEADER <= b.addr
    ensures Node(WriteNode(m, a, size, next), b, n) <==> Node(m, b, n)
  {
    hide Read, Write, WriteNode;
    WroteNode(m, a, size, next, b.addr);
    WroteNode(m, a, size, next, b.addr + 8);
  }

  lemma NodeRelinked(m: Bytes, b: Block, next: nat, n: nat)
    requires Node(m, b, n) && next < TWO64
    ensures Node(Write(m, b.addr + 8, next), b, next)
  {
    hide Read, Write;
    WriteThenRead(m, b.addr + 8, next, b.addr);
  }

  lemma NodeUntouched(m: Bytes, a: nat, w: nat, b: Block, n: nat)
    requires w < TWO64 && (b.addr + HEADER <= a || a + HEADER <= b.addr)
    ensures Node(Write(m, a + 8, w), b, n) <==> Node(m, b, n)
  {
    hide Read, Write;
    WriteThenRead(m, a + 8, w, b.addr);
    WriteThenRead(m, a + 8, w, b.addr + 8);
  }

  /** Points the predecessor of index `i`, or the head, to `target`. */
  function Relinked(m: Bytes, bs: seq<Block>, i: nat, target: nat): Bytes
    requires i <= |bs|
  {
    if i == 0 then m else Write(m, bs[i - 1].addr + 8, target)
  }

  function Spliced(bs: seq<Block>, i: nat, b: Block): seq<Block>
    requires i <= |bs|
  {
    bs[..i] + [b] + bs[i..]
  }

  lemma SplicedAt(bs: seq<Block>, i: nat, b: Block, j: nat)
    requires i <= |bs|
    ensures |Spliced(bs, i, b)| == |bs| + 1
    ensures j <= |bs| ==> Spliced(bs, i, b)[j] == if j < i then bs[j] else if j == i then b else bs[j - 1]
    ensures AddrAt(Spliced(bs, i, b), j) ==
            if j < i then AddrAt(bs, j) else if j == i then b.addr else AddrAt(bs, j - 1)
  {
  }

  lemma NodeIs(m: Bytes, b: Block, next: nat)
    requires b.addr > 0 && Read(m, b.addr) == b.size && Read(m, b.addr + 8) == next
    ensures Node(m, b, next)
  {
  }

  /** A node written at a free place and linked between `i - 1` and `i`. */
  lemma LinkedSpliced(m: Bytes, head: nat, bs: seq<Block>, i: nat, b: Block)
    requires i <= |bs| && Linked(m, head, bs) && Spaced(Spliced(bs, i, b))
    ensures Linked(Relinked(WriteNode(m, b.addr, b.size, AddrAt(bs, i)), bs, i, b.addr),
                   if i == 0 then b.addr else head, Spliced(bs, i, b))
  {
    var m2 := Relinked(WriteNode(m, b.addr, b.size, AddrAt(bs, i)), bs, i, b.addr);
    var r := Spliced(bs, i, b);
    SplicedAt(bs, i, b, 0);
    forall j: nat | j < |r| ensures NodeAt(m2, r, j) {
      hide Linked, Read, Write, WriteNode;
      if j == i {
        NewNodeSpliced(m, head, bs, i, b);
      } else {
        OldNodeSpliced(m, head, bs, i, b, j);
      }
    }
  }

  lemma NewNodeSpliced(m: Bytes, head: nat, bs: seq<Block>, i: nat, b: Block)
    requires i <= |bs| && Linked(m, head, bs) && Spaced(Spliced(bs, i, b))
    ensures i < |Spliced(bs, i, b)|
    ensures NodeAt(Relinked(WriteNode(m, b.addr, b.size, AddrAt(bs, i)), bs, i, b.addr), Spliced(bs, i, b), i)
  {
    hide Node, Read, Write, WriteNode, Linked, Spliced;
    var m1 := WriteNode(m, b.addr, b.size, AddrAt(bs, i));
    SplicedAt(bs, i, b, i);
    SplicedAt(bs, i, b, i + 1);
    WroteNode(m, b.addr, b.size, AddrAt(bs, i), b.addr);
    NodeIs(m1, b, AddrAt(bs, i));
    if i > 0 {
      SplicedAt(bs, i, b, i - 1);
      NodeUntouched(m1, bs[i - 1].addr, b.addr, b, AddrAt(bs, i));
    }
  }

  lemma OldNodeSpliced(m: Bytes, head: nat, bs: seq<Block>, i: nat, b: Block, j: nat)
    requires i <= |bs| && Linked(m, head, bs) && Spaced(Spliced(bs, i, b)) && j <= |bs| && j != i
    ensures j < |Spliced(bs, i, b)|
    ensures NodeAt(Relinked(WriteNode(m, b.addr, b.size, AddrAt(bs, i)), bs, i, b.addr), Spliced(bs, i, b), j)
  {
    hide Node, Read, Write, WriteNode, Spliced;
    var m1 := WriteNode(m, b.addr, b.size, AddrAt(bs, i));
    SplicedAt(bs, i, b, i);
    SplicedAt(bs, i, b, i + 1);
    SplicedAt(bs, i, b, j);
    SplicedAt(bs, i, b, j + 1);
    var k: nat := if j < i then j else j - 1;
    assert NodeAt(m, bs, k);
    NodeKept(m, b.addr, b.size, AddrAt(bs, i), bs[k], AddrAt(bs, k + 1));
    if i > 0 {
      SplicedAt(bs, i, b, i - 1);
      if k + 1 == i {
        NodeRelinked(m1, bs[k], b.addr, AddrAt(bs, k + 1));
      } else {
        NodeUntouched(m1, bs[i - 1].addr, b.addr, bs[k], AddrAt(bs, k + 1));
      }
    }
  }

  /** Block `i` swallows its successor. */
  function Merged(bs: seq<Block>, i: nat): seq<Block>
    requires i + 1 < |bs|
  {
    bs[..i] + [Block(bs[i].addr, bs[i].size + bs[i + 1].size)] + bs[i + 2..]
  }

  lemma MergedAt(bs: seq<Block>, i: nat, j: nat)
    requires i + 1 < |bs|
    ensures |Merged(bs, i)| == |bs| - 1
    ensures j + 1 < |bs| && j != i ==> Merged(bs, i)[j] == if j < i then bs[j] else bs[j + 1]
    ensures Merged(bs, i)[i] == Block(bs[i].addr, bs[i].size + bs[i + 1].size)
    ensures AddrAt(Merged(bs, i), j) == if j <= i then AddrAt(bs, j) else AddrAt(bs, j + 1)
  {
  }

  lemma SpacedMerged(bs: seq<Block>, i: nat)
    requires i + 1 < |bs| && Spaced(bs) && bs[i].End() == bs[i + 1].addr
    ensures Spaced(Merged(bs, i))
  {
    hide Merged;
    var r := Merged(bs, i);
    MergedAt(bs, i, 0);
    forall j, k | 0 <= j < k < |r| ensures r[j].addr + HEADER <= r[k].addr {
      MergedAt(bs, i, j);
      MergedAt(bs, i, k);
    }
    forall j | 0 <= j < |r| ensures 0 < r[j].addr && r[j].End() < TWO64 {
      MergedAt(bs, i, j);
    }
  }

  lemma LinkedMerged(m: Bytes, head: nat, bs: seq<Block>, i: nat)
    requires i + 1 < |bs| && Linked(m, head, bs) && Spaced(bs) && bs[i].End() == bs[i + 1].addr
    ensures Linked(WriteNode(m, bs[i].addr, bs[i].size + bs[i + 1].size, AddrAt(bs, i + 2)), head, Merged(bs, i))
  {
    hide Node, Read, Write, WriteNode, Merged;
    var b := Block(bs[i].addr, bs[i].size + bs[i + 1].size);
    var m1 := WriteNode(m, b.addr, b.size, AddrAt(bs, i + 2));
    var r := Merged(bs, i);
    MergedAt(bs, i, 0);
    forall j: nat | j < |r| ensures NodeAt(m1, r, j) {
      MergedAt(bs, i, j);
      MergedAt(bs, i, j + 1);
      if j == i {
        WroteNode(m, b.addr, b.size, AddrAt(bs, i + 2), b.addr);
        NodeIs(m1, b, AddrAt(bs, i + 2));
      } else {
        var k: nat := if j < i then j else j + 1;
        assert NodeAt(m, bs, k);
        NodeKept(m, b.addr, b.size, AddrAt(bs, i + 2), bs[k], AddrAt(bs, k + 1));
      }
    }
  }

  lemma WithoutAt(bs: seq<Block>, k: nat, j: nat)
    requires k < |bs|
    ensures |Without(bs, k)| == |bs| - 1
    ensures j + 1 < |bs| ==> Without(bs, k)[j] == if j < k then bs[j] else bs[j + 1]
    ensures AddrAt(Without(bs, k), j) == if j < k then AddrAt(bs, j) else AddrAt(bs, j + 1)
  {
  }

  /** A node bypassed. */
  lemma LinkedWithout(m: Bytes, head: nat, bs: seq<Block>, k: nat)
    requires k < |bs| && Linked(m, head, bs) && Spaced(bs)
    ensures Linked(Relinked(m, bs, k, AddrAt(bs, k + 1)), if k == 0 then AddrAt(bs, 1) else head, Without(bs, k))
  {
    hide Node, Read, Write, WriteNode, Without;
    var m1 := Relinked(m, bs, k, AddrAt(bs, k + 1));
    var r := Without(bs, k);
    WithoutAt(bs, k, 0);
    forall j: nat | j < |r| ensures NodeAt(m1, r, j) {
      WithoutAt(bs, k, j);
      WithoutAt(bs, k, j + 1);
      var i: nat := if j < k then j else j + 1;
      assert NodeAt(m, bs, i);
      if j + 1 == k {
        NodeRelinked(m, bs[j], AddrAt(bs, k + 1), AddrAt(bs, j + 1));
      } else if k > 0 {
        NodeUntouched(m, bs[k - 1].addr, AddrAt(bs, k + 1), bs[i], AddrAt(bs, i + 1));
      }
    }
  }

  // ----------------------------------------------------------------- where to insert

  /** All blocks before `i` are below `a`, and the block at `i` is not. */
  predicate Position(bs: seq<Block>, i: nat, a: nat)
  {
    i <= |bs| && (forall j :: 0 <= j < i ==> bs[j].addr < a) && (i < |bs| ==> a <= bs[i].addr)
  }

  function ForwardMerged(bs: seq<Block>, i: nat, b: Block): seq<Block>
    requires i <= |bs|
  {
    var s := Spliced(bs, i, b);
    if i < |bs| && b.End() == bs[i].addr then Merged(s, i) else s
  }

  function BackwardMerged(bs: seq<Block>, i: nat, b: Block): seq<Block>
    requires i <= |bs|
  {
    var s := ForwardMerged(bs, i, b);
    if i > 0 && bs[i - 1].End() == b.addr then Merged(s, i - 1) else s
  }

  /** One block put in front of a list shifts the three operations by one. */
  lemma Shifted(bs: seq<Block>, i: nat, b: Block)
    requires 1 <= i <= |bs|
    ensures Spliced(bs, i, b) == [bs[0]] + Spliced(bs[1..], i - 1, b)
    ensures ForwardMerged(bs, i, b) == [bs[0]] + ForwardMerged(bs[1..], i - 1, b)
  {
    var t := bs[1..];
    assert Spliced(bs, i, b) == [bs[0]] + Spliced(t, i - 1, b);
    if i < |bs| {
      assert bs[i] == t[i - 1];
      MergedShifted([bs[0]], Spliced(t, i - 1, b), i - 1);
    }
  }

  lemma MergedShifted(a: seq<Block>, bs: seq<Block>, i: nat)
    requires |a| == 1 && i + 1 < |bs|
    ensures Merged(a + bs, i + 1) == a + Merged(bs, i)
  {
    var l := a + bs;
    assert l[..i + 1] == a + bs[..i] && l[i + 3..] == bs[i + 2..] && l[i + 1] == bs[i] && l[i + 2] == bs[i + 1];
  }

  /** Splicing and merging twice is the insertion of the model. */
  lemma {:induction false} InsertAt(bs: seq<Block>, i: nat, b: Block)
    requires Position(bs, i, b.addr)
    ensures Insert(bs, b) == BackwardMerged(bs, i, b)
    decreases |bs|
  {
    hide Merged, Spliced;
    if i == 0 {
      InsertAtFront(bs, b);
    } else {
      var t := bs[1..];
      assert Position(t, i - 1, b.addr);
      InsertAt(t, i - 1, b);
      Shifted(bs, i, b);
      var f := ForwardMerged(t, i - 1, b);
      if i == 1 {
        assert f == Insert(t, b) && (|bs| == 1 || b.addr <= bs[1].addr);
        MergedAtFront([bs[0]], f);
      } else {
        assert bs[i - 1] == t[i - 2] && bs[1].addr < b.addr;
        SplicedAt(t, i - 1, b, 0);
        MergedAt(Spliced(t, i - 1, b), 0, 0);
        ForwardLength(t, i - 1, b);
        MergedShifted([bs[0]], f, i - 2);
      }
    }
  }

  lemma ForwardLength(bs: seq<Block>, i: nat, b: Block)
    requires i <= |bs|
    ensures |ForwardMerged(bs, i, b)| > i
  {
  }

  lemma MergedAtFront(a: seq<Block>, bs: seq<Block>)
    requires |a| == 1 && bs != []
    ensures Merged(a + bs, 0) == [Block(a[0].addr, a[0].size + bs[0].size)] + bs[1..]
  {
    assert (a + bs)[2..] == bs[1..];
  }

  lemma InsertAtFront(bs: seq<Block>, b: Block)
    requires Position(bs, 0, b.addr)
    ensures Insert(bs, b) == ForwardMerged(bs, 0, b)
  {
    assert Spliced(bs, 0, b) == [b] + bs;
    if bs != [] {
      MergedAtFront([b], bs);
    }
  }
}
