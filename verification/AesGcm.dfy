/** AES-256-GCM with no associated data. The block cipher under a fixed key is the
    parameter `aes`, the nonce that the source draws at random is the parameter `iv`. */
module AesGcm {
  import opened Basics
  import opened GaloisField
  import opened GfMultiply

  const IV_SIZE: nat := 12
  const OVERHEAD: nat := 28
  const TWO32: nat := 0x1_0000_0000
  const TWO64: nat := 0x1_0000_0000_0000_0000

  datatype Error = AuthenticationFailure | CiphertextTooShort
  datatype Result<T> = Ok(value: T) | Err(error: Error)

  function ZeroBlock(): Block
  {
    seq(16, i => ZeroByte())
  }

  // ------------------------------------------------------------ numbers as bit strings

  function Value(bs: seq<bool>): (n: nat)
  {
    if bs == [] then 0 else 2 * Value(bs[..|bs| - 1]) + if bs[|bs| - 1] then 1 else 0
  }

  /** The lowest `k` bits of `n`, most significant first. */
  function BitsOf(n: nat, k: nat): (bs: seq<bool>)
    ensures |bs| == k
    decreases k
  {
    if k == 0 then [] else BitsOf(n / 2, k - 1) + [n % 2 == 1]
  }

  lemma {:induction false} ValueOfBits(n: nat, k: nat)
    requires n < Pow2(k)
    ensures Value(BitsOf(n, k)) == n
    decreases k
  {
    if k > 0 {
      ValueOfBits(n / 2, k - 1);
      assert BitsOf(n, k)[..k - 1] == BitsOf(n / 2, k - 1);
    }
  }

  lemma {:induction false} ValueBounded(bs: seq<bool>)
    ensures Value(bs) < Pow2(|bs|)
  {
    if bs != [] { ValueBounded(bs[..|bs| - 1]); }
  }

  function Cut(bs: seq<bool>): (r: seq<Byte>)
    requires |bs| % 8 == 0
    ensures 8 * |r| == |bs|
  {
    if bs == [] then [] else [bs[..8]] + Cut(bs[8..])
  }

  lemma {:induction false} JoinCut(bs: seq<bool>)
    requires |bs| % 8 == 0
    ensures Join(Cut(bs)) == bs
    decreases |bs|
  {
    if bs != [] {
      JoinCut(bs[8..]);
      assert bs == bs[..8] + bs[8..];
    }
  }

  // -------------------------------------------------------------------------- counters

  function Counter(b: Block): (n: nat)
  {
    Value(Join(b[12..]))
  }

  /** `inc32`: the last four bytes, big-endian, wrapping. */
  function Inc32(b: Block): Block
  {
    b[..12] + Cut(BitsOf((Counter(b) + 1) % TWO32, 32))
  }

  function J0(iv: seq<Byte>): Block
    requires |iv| == IV_SIZE
  {
    iv + [ZeroByte(), ZeroByte(), ZeroByte(), BitsOf(1, 8)]
  }

  /** The counter block after `n` increments. */
  function Ctr(b: Block, n: nat): Block
  {
    if n == 0 then b else Inc32(Ctr(b, n - 1))
  }

  lemma Pow32()
    ensures Pow2(32) == TWO32 && Pow2(64) == TWO64
  {
    assert Pow2(8) == 256;
    assert Pow2(16) == 0x1_0000;
    assert Pow2(24) == 0x100_0000;
    assert Pow2(40) == 0x100_0000_0000 by { assert Pow2(32) == TWO32; }
    assert Pow2(56) == 0x100_0000_0000_0000 by { assert Pow2(48) == 0x1_0000_0000_0000; }
  }

  lemma Inc32Counts(b: Block)
    ensures Counter(Inc32(b)) == (Counter(b) + 1) % TWO32 && Inc32(b)[..12] == b[..12]
  {
    hide Value, Join;
    var n := (Counter(b) + 1) % TWO32;
    Pow32();
    ValueOfBits(n, 32);
    JoinCut(BitsOf(n, 32));
    assert Inc32(b)[12..] == Cut(BitsOf(n, 32));
  }

  lemma {:induction false} CtrCounts(b: Block, n: nat)
    requires Counter(b) < TWO32
    ensures Counter(Ctr(b, n)) == (Counter(b) + n) % TWO32 && Ctr(b, n)[..12] == b[..12]
  {
    hide Counter, Inc32;
    if n > 0 {
      CtrCounts(b, n - 1);
      Inc32Counts(Ctr(b, n - 1));
    }
  }

  lemma CounterFits(b: Block)
    ensures Counter(b) < TWO32
  {
    Pow32();
    ValueBounded(Join(b[12..]));
  }

  lemma CtrPeriodic(b: Block)
    ensures Ctr(b, TWO32) == b
  {
    hide Ctr;
    CounterFits(b);
    CtrCounts(b, TWO32);
    SameCounter(Ctr(b, TWO32), b);
  }

  /** The last four bytes are determined by their value. */
  lemma SameCounter(a: Block, b: Block)
    requires a[..12] == b[..12] && Counter(a) == Counter(b)
    ensures a == b
  {
    ValueInjective(Join(a[12..]), Join(b[12..]));
    forall i | 12 <= i < 16 ensures a[i] == b[i] {
      forall j | 0 <= j < 8 ensures a[i][j] == b[i][j] {
        JoinAt(a[12..], i - 12, j);
        JoinAt(b[12..], i - 12, j);
      }
    }
    assert a == a[..12] + a[12..] && b == b[..12] + b[12..];
  }

  lemma {:induction false} ValueInjective(a: seq<bool>, b: seq<bool>)
    requires |a| == |b| && Value(a) == Value(b)
    ensures a == b
    decreases |a|
  {
    if a != [] {
      var k := |a| - 1;
      ValueInjective(a[..k], b[..k]);
      assert a == a[..k] + [a[k]] && b == b[..k] + [b[k]];
    }
  }

  ghost predicate Distinct(b: Block, n: nat)
  {
    forall i, j :: 0 <= i < j <= n ==> Ctr(b, i) != Ctr(b, j)
  }

  /** The mask block of the tag is counter 0 of this row and the data blocks are
      counters 1 to `n`: all of them differ exactly if there are fewer than 2^32 data
      blocks. */
  lemma CountersDistinctIff(b: Block, n: nat)
    ensures Distinct(b, n) <==> n < TWO32
  {
    hide Counter, Ctr;
    if n >= TWO32 {
      CtrPeriodic(b);
      assert Ctr(b, 0) == b by { CtrStart(b); }
    } else {
      CounterFits(b);
      forall i, j | 0 <= i < j <= n ensures Ctr(b, i) != Ctr(b, j) {
        CtrCounts(b, i);
        CtrCounts(b, j);
      }
    }
  }

  lemma CtrStart(b: Block)
    ensures Ctr(b, 0) == b
  {
  }

  // ----------------------------------------------------------------------- GHASH input

  /** Whole blocks, the last one padded with zero bytes. */
  function Chunks(data: seq<Byte>): (bs: seq<Block>)
    decreases |data|
  {
    if data == [] then []
    else if |data| < 16 then [data + seq(16 - |data|, i => ZeroByte())]
    else [data[..16]] + Chunks(data[16..])
  }

  function Polys(bs: seq<Block>): (ps: seq<Poly>)
    ensures |ps| == |bs| && forall i :: 0 <= i < |bs| ==> ps[i] == Bits(bs[i])
  {
    if bs == [] then [] else [Bits(bs[0])] + Polys(bs[1..])
  }

  /** No associated data, then the length of the ciphertext in bits. */
  function LengthBlock(n: nat): Block
  {
    seq(8, i => ZeroByte()) + ToBe(BitsOf(8 * n % TWO64, 64))
  }

  function BlockOf(p: Poly): Block
  {
    seq(16, i requires 0 <= i < 16 => p[8 * i..8 * i + 8])
  }

  lemma BitsOfBlock(p: Poly)
    ensures Bits(BlockOf(p)) == p
  {
    hide Join;
    forall k | 0 <= k < 128 ensures Bits(BlockOf(p))[k] == p[k] {
      JoinAt(BlockOf(p), k / 8, k % 8);
    }
  }

  /** The tag as SP 800-38D defines it: the hash of the padded ciphertext and its
      length, masked with the cipher of J0. */
  function Tag(aes: Block -> Block, data: seq<Byte>, j0: Block): Block
  {
    TagOf(Bits(aes(ZeroBlock())), Polys(Chunks(data)), Bits(LengthBlock(|data|)), aes(j0))
  }

  function TagOf(h: Poly, xs: seq<Poly>, length: Poly, mask: Block): Block
  {
    BlockOf(Add(Ghash(h, xs + [length], Zero()), Bits(mask)))
  }

  /** The data under the key stream that starts at counter block `b`. */
  function Keyed(aes: Block -> Block, b: Block, data: seq<Byte>): (r: seq<Byte>)
    ensures |r| == |data|
  {
    seq<Byte>(|data|, i requires 0 <= i < |data| => KeyedByte(aes, b, data[i], i))
  }

  function KeyedByte(aes: Block -> Block, b: Block, x: Byte, i: nat): Byte
  {
    Xor(x, aes(Ctr(b, i / 16))[i % 16])
  }

  lemma KeyedByteIs(aes: Block -> Block, b: Block, x: Byte, n: nat, t: nat)
    requires t < 16
    ensures KeyedByte(aes, b, x, 16 * n + t) == Xor(x, aes(Ctr(b, n))[t])
  {
    assert (16 * n + t) / 16 == n && (16 * n + t) % 16 == t;
  }

  function Sealed(aes: Block -> Block, iv: seq<Byte>, plain: seq<Byte>): (r: seq<Byte>)
    requires |iv| == IV_SIZE
    ensures |r| == OVERHEAD + |plain|
  {
    var data := Keyed(aes, Inc32(J0(iv)), plain);
    Tag(aes, data, J0(iv)) + iv + data
  }

  function Opened(aes: Block -> Block, c: seq<Byte>): (r: Result<seq<Byte>>)
  {
    if |c| < OVERHEAD then Err(CiphertextTooShort)
    else
      var iv, data := c[16..28], c[28..];
      if c[..16] != Tag(aes, data, J0(iv)) then Err(AuthenticationFailure)
      else Ok(Keyed(aes, Inc32(J0(iv)), data))
  }

  lemma XorTwice(a: Byte, b: Byte)
    ensures Xor(Xor(a, b), b) == a
  {
  }

  lemma KeyedTwice(aes: Block -> Block, b: Block, data: seq<Byte>)
    ensures Keyed(aes, b, Keyed(aes, b, data)) == data
  {
    hide Xor, Ctr;
    forall i | 0 <= i < |data| ensures Keyed(aes, b, Keyed(aes, b, data))[i] == data[i] {
      XorTwice(data[i], aes(Ctr(b, i / 16))[i % 16]);
    }
  }

  /** Decryption inverts encryption. */
  lemma OpensWhatWasSealed(aes: Block -> Block, iv: seq<Byte>, plain: seq<Byte>)
    requires |iv| == IV_SIZE
    ensures Opened(aes, Sealed(aes, iv, plain)) == Ok(plain)
  {
    hide Tag, Keyed, Inc32, J0;
    var data := Keyed(aes, Inc32(J0(iv)), plain);
    var tag := Tag(aes, data, J0(iv));
    var c := Sealed(aes, iv, plain);
    assert c[..16] == tag && c[16..28] == iv && c[28..] == data;
    KeyedTwice(aes, Inc32(J0(iv)), plain);
  }

  lemma ReopenedSeals(aes: Block -> Block, c: seq<Byte>)
    requires |c| >= OVERHEAD && Opened(aes, c).Ok?
    ensures c == Sealed(aes, c[16..28], Opened(aes, c).value)
  {
    hide Tag, Keyed, Inc32, J0;
    var iv, data := c[16..28], c[28..];
    KeyedTwice(aes, Inc32(J0(iv)), data);
    assert c == c[..16] + c[16..28] + c[28..];
  }

  /** And nothing else is accepted: a message opens to `plain` exactly if it is the
      sealing of `plain` under the nonce it carries. */
  lemma OpensIffSealed(aes: Block -> Block, c: seq<Byte>, plain: seq<Byte>)
    ensures Opened(aes, c) == Ok(plain) <==> |c| >= 28 && c == Sealed(aes, c[16..28], plain)
    ensures Opened(aes, c) == Err(CiphertextTooShort) <==> |c| < 28
  {
    hide Tag, Keyed, Inc32, J0;
    if |c| >= 28 {
      hide Opened, Sealed;
      if c == Sealed(aes, c[16..28], plain) {
        OpensWhatWasSealed(aes, c[16..28], plain);
      }
      if Opened(aes, c) == Ok(plain) {
        ReopenedSeals(aes, c);
      }
    }
  }

  /** Two messages with the same nonce and the same bytes but different tags are never
      both accepted. */
  lemma OneTagOnly(aes: Block -> Block, c: seq<Byte>, d: seq<Byte>)
    requires OVERHEAD <= |c| == |d| && c[16..] == d[16..] && c[..16] != d[..16]
    requires Opened(aes, c).Ok?
    ensures Opened(aes, d) == Err(AuthenticationFailure)
  {
    hide Tag, Keyed, Inc32, J0;
    assert c[16..28] == c[16..][..12] && d[16..28] == d[16..][..12];
    assert c[28..] == c[16..][12..] && d[28..] == d[16..][12..];
  }

  lemma {:induction false} GhashConcat(h: Poly, xs: seq<Poly>, ys: seq<Poly>, y: Poly)
    ensures Ghash(h, xs + ys, y) == Ghash(h, ys, Ghash(h, xs, y))
    decreases |xs|
  {
    hide Mul, Add;
    if xs == [] {
      assert xs + ys == ys;
    } else {
      assert (xs + ys)[1..] == xs[1..] + ys;
      GhashConcat(h, xs[1..], ys, Mul(Add(y, xs[0]), h));
    }
  }

  function XorAll(a: seq<Byte>, b: seq<Byte>): (r: seq<Byte>)
    requires |a| == |b|
    ensures |r| == |a|
  {
    seq<Byte>(|a|, i requires 0 <= i < |a| => Xor(a[i], b[i]))
  }

  lemma {:induction false} ChunksLinear(a: seq<Byte>, b: seq<Byte>)
    requires |a| == |b|
    ensures |Chunks(a)| == |Chunks(b)|
    ensures Polys(Chunks(XorAll(a, b))) == AddAll(Polys(Chunks(a)), Polys(Chunks(b)))
    decreases |a|
  {
    hide Bits, Add, Xor;
    var c := XorAll(a, b);
    if 0 < |a| < 16 {
      var k := 16 - |a|;
      var z: seq<Byte> := seq(k, i => ZeroByte());
      XorZero();
      assert c + z == XorBlock(a + z, b + z);
      XorBits(a + z, b + z);
    } else if |a| >= 16 {
      assert c[..16] == XorBlock(a[..16], b[..16]) && c[16..] == XorAll(a[16..], b[16..]);
      XorBits(a[..16], b[..16]);
      ChunksLinear(a[16..], b[16..]);
    }
  }

  lemma XorZero()
    ensures Xor(ZeroByte(), ZeroByte()) == ZeroByte()
  {
  }

  /** Through the block loop and the zero padding: the hash of the XOR of two messages of
      one length is the XOR of their hashes. */
  lemma BytesHashLinear(h: Poly, a: seq<Byte>, b: seq<Byte>, y: Poly, z: Poly)
    requires |a| == |b|
    ensures Ghash(h, Polys(Chunks(XorAll(a, b))), Add(y, z)) ==
            Add(Ghash(h, Polys(Chunks(a)), y), Ghash(h, Polys(Chunks(b)), z))
  {
    hide Polys, Chunks, XorAll, Ghash, Add;
    ChunksLinear(a, b);
    GhashLinear(h, Polys(Chunks(a)), Polys(Chunks(b)), y, z);
  }

  // ---------------------------------------------------------------- the standard's words

  /** `bs` is `data` in blocks of sixteen bytes, the last one filled up with zeros. */
  ghost predicate PaddedBlocks(data: seq<Byte>, bs: seq<Block>)
  {
    && |bs| == (|data| + 15) / 16
    && forall k, j :: 0 <= k < |bs| && 0 <= j < 16 ==>
         bs[k][j] == if 16 * k + j < |data| then data[16 * k + j] else ZeroByte()
  }

  lemma {:induction false} ChunksArePadded(data: seq<Byte>)
    ensures PaddedBlocks(data, Chunks(data))
    decreases |data|
  {
    var bs := Chunks(data);
    if |data| >= 16 {
      var rest := Chunks(data[16..]);
      ChunksArePadded(data[16..]);
      forall k, j | 0 <= k < |bs| && 0 <= j < 16
        ensures bs[k][j] == if 16 * k + j < |data| then data[16 * k + j] else ZeroByte()
      {
        if k > 0 {
          assert bs[k] == rest[k - 1];
          assert 16 * k + j < |data| ==> data[16..][16 * (k - 1) + j] == data[16 * k + j];
        }
      }
    }
  }

  lemma PaddedIsUnique(data: seq<Byte>, a: seq<Block>, b: seq<Block>)
    requires PaddedBlocks(data, a) && PaddedBlocks(data, b)
    ensures a == b
  {
    forall k | 0 <= k < |a| ensures a[k] == b[k] {
      assert forall j :: 0 <= j < 16 ==> a[k][j] == b[k][j];
    }
  }

  /** Eight zero bytes, for no associated data, and the number of bits as a big-endian
      64-bit word. */
  ghost predicate HoldsLength(l: Block, n: nat)
  {
    && (forall i :: 0 <= i < 8 ==> l[i] == ZeroByte())
    && Value(Join(l[8..])) == 8 * n % TWO64
  }

  lemma LengthBlockHolds(n: nat)
    ensures HoldsLength(LengthBlock(n), n)
  {
    hide Value, Join, BitsOf, ToBe;
    var w := BitsOf(8 * n % TWO64, 64);
    Pow32();
    ValueOfBits(8 * n % TWO64, 64);
    ToBeJoins(w);
    assert LengthBlock(n)[8..] == ToBe(w);
  }

  lemma LengthIsUnique(a: Block, b: Block, n: nat)
    requires HoldsLength(a, n) && HoldsLength(b, n)
    ensures a == b
  {
    ValueInjective(Join(a[8..]), Join(b[8..]));
    forall i | 8 <= i < 16 ensures a[i] == b[i] {
      forall j | 0 <= j < 8 ensures a[i][j] == b[i][j] {
        JoinAt(a[8..], i - 8, j);
        JoinAt(b[8..], i - 8, j);
      }
    }
  }

  /** Section 7.1 of SP 800-38D: the tag is the polynomial whose coefficients are the
      padded ciphertext blocks and the length block, evaluated at the cipher of the zero
      block, and masked with the cipher of J0. */
  lemma TagIsStandard(aes: Block -> Block, data: seq<Byte>, j0: Block, bs: seq<Block>, l: Block)
    requires PaddedBlocks(data, bs) && HoldsLength(l, |data|)
    ensures Bits(Tag(aes, data, j0)) == Add(Eval(Bits(aes(ZeroBlock())), Polys(bs) + [Bits(l)]), Bits(aes(j0)))
  {
    hide Bits, Add, Mul, Eval, Ghash, LengthBlock, Chunks, PaddedBlocks, HoldsLength, BlockOf, Zero, Polys, ZeroBlock;
    ChunksArePadded(data);
    PaddedIsUnique(data, bs, Chunks(data));
    LengthBlockHolds(|data|);
    LengthIsUnique(l, LengthBlock(|data|), |data|);
    var h, xs := Bits(aes(ZeroBlock())), Polys(bs) + [Bits(l)];
    HashIsEval(h, xs);
    BitsOfBlock(Add(Ghash(h, xs, Zero()), Bits(aes(j0))));
  }

  lemma HashIsEval(h: Poly, xs: seq<Poly>)
    ensures Ghash(h, xs, Zero()) == Eval(h, xs)
  {
    hide Mul, Add, Eval, Ghash, Zero, Pow, From;
    GhashEvaluates(h, xs, Zero());
    var p := Pow(h, |xs|);
    ZeroTimes(p);
    AddLaws(Eval(h, xs), Zero(), Zero());
  }

  lemma ZeroTimes(p: Poly)
    ensures Mul(Zero(), p) == Zero()
  {
    hide From, Zero;
    FromZero(p, 0);
  }

  /** The first counter block: the nonce, then the number one. */
  lemma FirstCounter(iv: seq<Byte>)
    requires |iv| == IV_SIZE
    ensures J0(iv)[..12] == iv && Counter(J0(iv)) == 1
  {
    var tail := [ZeroByte(), ZeroByte(), ZeroByte(), BitsOf(1, 8)];
    assert J0(iv)[12..] == tail;
    assert Cut(BitsOf(1, 32)) == tail by { OneInFour(); }
    hide Value, Join, Cut, BitsOf, Counter;
    Pow32();
    ValueOfBits(1, 32);
    JoinCut(BitsOf(1, 32));
    CounterOf(J0(iv), tail);
  }

  lemma CounterOf(b: Block, tail: seq<Byte>)
    requires b[12..] == tail
    ensures Counter(b) == Value(Join(tail))
  {
  }

  lemma {:induction false} OneInFour()
    ensures Cut(BitsOf(1, 32)) == [ZeroByte(), ZeroByte(), ZeroByte(), BitsOf(1, 8)]
  {
    var w := BitsOf(1, 32);
    NoughtBits(31);
    NoughtBits(7);
    assert w == BitsOf(0, 31) + [true] && BitsOf(1, 8) == BitsOf(0, 7) + [true];
    hide BitsOf;
    assert w[..8] == ZeroByte() && w[8..16] == ZeroByte() && w[16..24] == ZeroByte() && w[24..] == BitsOf(1, 8);
    var a, b, c := w[8..], w[16..], w[24..];
    assert a[8..] == b && b[8..] == c && c[8..] == [] && a[..8] == w[8..16] && b[..8] == w[16..24] && c[..8] == c;
    assert Cut(c) == [c];
    assert Cut(b) == [b[..8]] + Cut(c);
    assert Cut(a) == [a[..8]] + Cut(b);
  }

  lemma {:induction false} NoughtBits(k: nat)
    ensures BitsOf(0, k) == seq(k, i => false)
  {
    if k > 0 { NoughtBits(k - 1); }
  }

  /** Section 7.1 again: byte `i` of the ciphertext is byte `i` of the plaintext under the
      cipher of the block with the nonce and the counter 2 + i / 16, in 32 bits; the tag is
      taken over the ciphertext, with counter one. */
  lemma SealedIsStandard(aes: Block -> Block, iv: seq<Byte>, plain: seq<Byte>, i: nat, b: Block, j0: Block)
    requires |iv| == IV_SIZE && b[..12] == iv && Counter(b) == (2 + i / 16) % TWO32
    requires j0[..12] == iv && Counter(j0) == 1
    ensures var c := Sealed(aes, iv, plain);
            && |c| == 28 + |plain| && c[16..28] == iv && c[..16] == Tag(aes, c[28..], j0)
            && (i < |plain| ==> c[28 + i] == Xor(plain[i], aes(b)[i % 16]))
  {
    hide Tag, Counter, Inc32, J0, Xor, Ctr;
    FirstCounter(iv);
    SameCounter(j0, J0(iv));
    Inc32Counts(j0);
    var first := Inc32(j0);
    CounterFits(first);
    CtrCounts(first, i / 16);
    SameCounter(Ctr(first, i / 16), b);
    var data := Keyed(aes, first, plain);
    var c := Sealed(aes, iv, plain);
    assert c[28..] == data && c[..16] == Tag(aes, data, j0) && c[16..28] == iv;
    assert i < |plain| ==> c[28 + i] == c[28..][i];
  }

  // --------------------------------------------------------------- the code, in place

  class GhashState {
    var y: Block
    const h: Block

    constructor (h: Block)
      ensures y == ZeroBlock() && this.h == h
    {
      y, this.h := ZeroBlock(), h;
    }

    /** Adds the block to the state byte by byte and multiplies by H. */
    method Update(block: Block)
      modifies this`y
      ensures Bits(y) == Mul(Add(Bits(old(y)), Bits(block)), Bits(h))
    {
      hide Mul, Bits, Add, Xor;
      for i := 0 to 16
        invariant forall k :: 0 <= k < 16 ==> y[k] == if k < i then Xor(old(y)[k], block[k]) else old(y)[k]
      {
        y := y[i := Xor(y[i], block[i])];
      }
      assert y == XorBlock(old(y), block);
      XorBits(old(y), block);
      y := Multiply(y, h);
    }

    method UpdateBytes(data: seq<Byte>)
      modifies this`y
      ensures Bits(y) == Ghash(Bits(h), Polys(Chunks(data)), Bits(old(y)))
    {
      hide Mul, Bits, Add;
      var k := 0;
      ghost var p := Bits(h);
      ghost var goal := Ghash(p, Polys(Chunks(data)), Bits(y));
      assert data[0..] == data;
      while k + 16 <= |data|
        invariant k <= |data| && Ghash(p, Polys(Chunks(data[k..])), Bits(y)) == goal
      {
        FirstChunk(data, k);
        Update(data[k..k + 16]);
        k := k + 16;
      }
      if k < |data| {
        assert Chunks(data[k..])[1..] == [];
        Update(data[k..] + seq(16 - (|data| - k), i => ZeroByte()));
      }
    }
  }

  lemma FirstChunk(data: seq<Byte>, k: nat)
    requires k + 16 <= |data|
    ensures var bs := Chunks(data[k..]); |bs| > 0 && bs[0] == data[k..k + 16] && bs[1..] == Chunks(data[k + 16..])
  {
    assert data[k..][..16] == data[k..k + 16] && data[k..][16..] == data[k + 16..];
  }

  method ComputeTag(aes: Block -> Block, data: seq<Byte>, j0: Block) returns (tag: Block)
    ensures tag == Tag(aes, data, j0)
  {
    hide Mul, Bits, Add, LengthBlock, Xor, Ghash, Chunks, Polys, TagOf, Zero, ZeroBlock;
    ZeroBits();
    var state := new GhashState(aes(ZeroBlock()));
    state.UpdateBytes(data);
    state.Update(LengthBlock(|data|));
    var s, mask := state.y, aes(j0);
    tag := ZeroBlock();
    for i := 0 to 16
      invariant forall k :: 0 <= k < i ==> tag[k] == Xor(s[k], mask[k])
    {
      tag := tag[i := Xor(s[i], mask[i])];
    }
    assert tag == XorBlock(s, mask);
    TagOfIs(Bits(aes(ZeroBlock())), Polys(Chunks(data)), Bits(LengthBlock(|data|)), mask, s);
  }

  lemma TagOfIs(h: Poly, xs: seq<Poly>, l: Poly, mask: Block, s: Block)
    requires Bits(s) == Mul(Add(Ghash(h, xs, Zero()), l), h)
    ensures XorBlock(s, mask) == TagOf(h, xs, l, mask)
  {
    hide Mul, Bits, Add, XorBlock, BlockOf, Ghash, Zero;
    GhashSnoc(h, xs, l, Zero());
    Masked(s, mask);
  }

  lemma Masked(s: Block, mask: Block)
    ensures XorBlock(s, mask) == BlockOf(Add(Bits(s), Bits(mask)))
  {
    hide Bits, Add, XorBlock, BlockOf;
    XorBits(s, mask);
    BitsOfBlock(Add(Bits(s), Bits(mask)));
    BitsInjective(XorBlock(s, mask), BlockOf(Add(Bits(s), Bits(mask))));
  }

  lemma GhashSnoc(h: Poly, xs: seq<Poly>, l: Poly, y: Poly)
    ensures Ghash(h, xs + [l], y) == Mul(Add(Ghash(h, xs, y), l), h)
  {
    hide Mul, Add, Ghash;
    GhashConcat(h, xs, [l], y);
    GhashOne(h, l, Ghash(h, xs, y));
  }

  lemma GhashOne(h: Poly, x: Poly, y: Poly)
    ensures Ghash(h, [x], y) == Mul(Add(y, x), h)
  {
    hide Mul, Add;
    assert [x][1..] == [];
  }

  lemma ZeroBits()
    ensures Bits(ZeroBlock()) == Zero()
  {
    hide Join;
    forall k | 0 <= k < 128 ensures Bits(ZeroBlock())[k] == Zero()[k] {
      JoinAt(ZeroBlock(), k / 8, k % 8);
    }
  }

  /** Encrypts or decrypts the array from `start` on, in place. */
  method ApplyKeystream(aes: Block -> Block, data: array<Byte>, start: nat, first: Block)
    requires start <= data.Length
    modifies data
    ensures data[..start] == old(data[..start])
    ensures data[start..] == Keyed(aes, first, old(data[start..]))
  {
    hide Xor, Inc32, KeyedByte;
    var b, pos := first, start;
    ghost var n := 0;
    while data.Length - pos >= 16
      invariant pos == start + 16 * n <= data.Length && b == Ctr(first, n)
      invariant forall k :: 0 <= k < start || pos <= k < data.Length ==> data[k] == old(data[k])
      invariant forall k :: start <= k < pos ==> data[k] == KeyedByte(aes, first, old(data[k]), k - start)
    {
      XorRun(data, pos, 16, aes(b));
      forall k | pos <= k < pos + 16 ensures data[k] == KeyedByte(aes, first, old(data[k]), k - start) {
        KeyedByteIs(aes, first, old(data[k]), n, k - pos);
      }
      b := Inc32(b);
      pos, n := pos + 16, n + 1;
    }
    if pos < data.Length {
      XorRun(data, pos, data.Length - pos, aes(b));
      forall k | pos <= k < data.Length ensures data[k] == KeyedByte(aes, first, old(data[k]), k - start) {
        KeyedByteIs(aes, first, old(data[k]), n, k - pos);
      }
    }
    assert forall k :: 0 <= k < data.Length - start ==>
      data[start..][k] == KeyedByte(aes, first, old(data[start..])[k], k);
  }

  method XorRun(data: array<Byte>, pos: nat, len: nat, key: Block)
    requires pos + len <= data.Length && len <= 16
    modifies data
    ensures forall k :: 0 <= k < data.Length ==>
              data[k] == if pos <= k < pos + len then Xor(old(data[k]), key[k - pos]) else old(data[k])
  {
    hide Xor;
    for i := 0 to len
      invariant forall k :: 0 <= k < data.Length ==>
                  data[k] == if pos <= k < pos + i then Xor(old(data[k]), key[k - pos]) else old(data[k])
    {
      data[pos + i] := Xor(data[pos + i], key[i]);
    }
  }

  function OrByte(a: Byte, b: Byte): Byte
  {
    seq(8, i requires 0 <= i < 8 => a[i] || b[i])
  }

  lemma NoDifference(d: Byte, a: Byte, b: Byte)
    ensures OrByte(d, Xor(a, b)) == ZeroByte() <==> d == ZeroByte() && a == b
  {
    var r := OrByte(d, Xor(a, b));
    if r == ZeroByte() {
      forall i | 0 <= i < 8 ensures !d[i] && a[i] == b[i] {
        assert !r[i];
      }
    }
  }

  /** No early exit: every byte is looked at. */
  method ConstantTimeEq(a: Block, b: Block) returns (same: bool)
    ensures same <==> a == b
  {
    hide OrByte, Xor, ZeroByte;
    var diff := ZeroByte();
    for i := 0 to 16
      invariant diff == ZeroByte() <==> a[..i] == b[..i]
    {
      NoDifference(diff, a[i], b[i]);
      assert a[..i + 1] == a[..i] + [a[i]] && b[..i + 1] == b[..i] + [b[i]];
      diff := OrByte(diff, Xor(a[i], b[i]));
    }
    same := diff == ZeroByte();
  }

  method Encrypt(aes: Block -> Block, iv: seq<Byte>, plain: seq<Byte>) returns (r: seq<Byte>)
    requires |iv| == IV_SIZE
    ensures r == Sealed(aes, iv, plain)
  {
    hide Tag, Keyed, Inc32, J0;
    var j0 := J0(iv);
    var output := new Byte[OVERHEAD + |plain|](i => ZeroByte());
    forall k | 0 <= k < IV_SIZE {
      output[16 + k] := iv[k];
    }
    forall k | 0 <= k < |plain| {
      output[OVERHEAD + k] := plain[k];
    }
    assert output[OVERHEAD..] == plain;
    ApplyKeystream(aes, output, OVERHEAD, Inc32(j0));
    var tag := ComputeTag(aes, output[OVERHEAD..], j0);
    assert output[..OVERHEAD][16..] == iv;
    r := tag + output[16..];
    assert output[16..] == output[16..OVERHEAD] + output[OVERHEAD..];
  }

  method Decrypt(aes: Block -> Block, c: seq<Byte>) returns (r: Result<seq<Byte>>)
    ensures r == Opened(aes, c)
  {
    hide Tag, Keyed, Inc32, J0;
    if |c| < OVERHEAD {
      return Err(CiphertextTooShort);
    }
    var received, iv, data := c[..16], c[16..28], c[28..];
    var j0 := J0(iv);
    var expected := ComputeTag(aes, data, j0);
    var same := ConstantTimeEq(received, expected);
    if !same {
      return Err(AuthenticationFailure);
    }
    var plain := new Byte[|data|](i requires 0 <= i < |data| => data[i]);
    assert plain[..] == data && plain[0..] == plain[..];
    ApplyKeystream(aes, plain, 0, Inc32(j0));
    assert plain[0..] == plain[..];
    r := Ok(plain[..]);
  }
}
