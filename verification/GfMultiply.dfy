/** The two-word shift-and-add multiplication of GHASH, on bytes and machine words as
    bit strings, most significant bit first. */
module GfMultiply {
  import opened GaloisField

  type Byte = s: seq<bool> | |s| == 8 witness seq(8, i => false)
  type Word = s: seq<bool> | |s| == 64 witness seq(64, i => false)
  type Block = s: seq<Byte> | |s| == 16 witness seq(16, i => ZeroByte())

  function ZeroByte(): Byte
  {
    seq(8, i => false)
  }

  function Xor(a: Byte, b: Byte): Byte
  {
    seq(8, i requires 0 <= i < 8 => a[i] != b[i])
  }

  // ----------------------------------------------------------------- machine words

  function Join(bs: seq<Byte>): (w: seq<bool>)
    ensures |w| == 8 * |bs|
  {
    if bs == [] then [] else bs[0] + Join(bs[1..])
  }

  /** `u64::from_be_bytes`. */
  function FromBe(bs: seq<Byte>): Word
    requires |bs| == 8
  {
    Join(bs)
  }

  /** `u64::to_be_bytes`. */
  function ToBe(w: Word): (bs: seq<Byte>)
    ensures |bs| == 8
  {
    seq(8, i requires 0 <= i < 8 => w[8 * i..8 * i + 8])
  }

  function XorWord(a: Word, b: Word): Word
  {
    seq(64, i requires 0 <= i < 64 => a[i] != b[i])
  }

  function Or(a: Word, b: Word): Word
  {
    seq(64, i requires 0 <= i < 64 => a[i] || b[i])
  }

  function ShiftRight(w: Word, k: nat): Word
    requires k < 64
  {
    seq(64, i requires 0 <= i < 64 => i >= k && w[i - k])
  }

  function ShiftLeft(w: Word, k: nat): Word
    requires k < 64
  {
    seq(64, i requires 0 <= i < 64 => i + k < 64 && w[i + k])
  }

  predicate LowBit(w: Word)
  {
    w[63]
  }

  function ZeroWord(): Word
  {
    seq(64, i => false)
  }

  /** 0xe100_0000_0000_0000. */
  function R(): Word
  {
    seq(64, i => i in {0, 1, 2, 7})
  }

  // ----------------------------------------------------------------- field elements

  /** A field element from its two words. */
  function Pair(hi: Word, lo: Word): Poly
  {
    hi + lo
  }

  /** The bits of a block: bit 0 is the top bit of its first byte. */
  function Bits(b: Block): Poly
  {
    Join(b)
  }

  lemma {:induction false} JoinConcat(a: seq<Byte>, b: seq<Byte>)
    ensures Join(a + b) == Join(a) + Join(b)
  {
    if a == [] {
      assert a + b == b;
    } else {
      assert (a + b)[1..] == a[1..] + b;
      JoinConcat(a[1..], b);
    }
  }

  lemma {:induction false} JoinAt(bs: seq<Byte>, i: nat, j: nat)
    requires i < |bs| && j < 8
    ensures Join(bs)[8 * i + j] == bs[i][j]
  {
    if i > 0 {
      JoinAt(bs[1..], i - 1, j);
      assert Join(bs)[8 * i + j] == Join(bs[1..])[8 * (i - 1) + j];
    }
  }

  lemma Splits(b: Block)
    ensures Bits(b) == Pair(FromBe(b[..8]), FromBe(b[8..]))
  {
    JoinConcat(b[..8], b[8..]);
    assert b == b[..8] + b[8..];
  }

  lemma {:induction false} ToBeJoins(w: Word)
    ensures Join(ToBe(w)) == w
  {
    forall k | 0 <= k < 64 ensures Join(ToBe(w))[k] == w[k] {
      JoinAt(ToBe(w), k / 8, k % 8);
    }
  }

  lemma Rejoins(hi: Word, lo: Word)
    ensures Bits(ToBe(hi) + ToBe(lo)) == Pair(hi, lo)
  {
    JoinConcat(ToBe(hi), ToBe(lo));
    ToBeJoins(hi);
    ToBeJoins(lo);
  }

  /** Equal bits, equal blocks. */
  lemma BitsInjective(a: Block, b: Block)
    requires Bits(a) == Bits(b)
    ensures a == b
  {
    forall i | 0 <= i < 16 ensures a[i] == b[i] {
      forall j | 0 <= j < 8 ensures a[i][j] == b[i][j] {
        JoinAt(a, i, j);
        JoinAt(b, i, j);
      }
    }
  }

  function XorBlock(a: Block, b: Block): Block
  {
    seq(16, i requires 0 <= i < 16 => Xor(a[i], b[i]))
  }

  lemma XorBits(a: Block, b: Block)
    ensures Bits(XorBlock(a, b)) == Add(Bits(a), Bits(b))
  {
    hide Join;
    forall k | 0 <= k < 128 ensures Bits(XorBlock(a, b))[k] == Add(Bits(a), Bits(b))[k] {
      JoinAt(XorBlock(a, b), k / 8, k % 8);
      JoinAt(a, k / 8, k % 8);
      JoinAt(b, k / 8, k % 8);
    }
  }

  lemma PairXor(ahi: Word, alo: Word, bhi: Word, blo: Word)
    ensures Pair(XorWord(ahi, bhi), XorWord(alo, blo)) == Add(Pair(ahi, alo), Pair(bhi, blo))
  {
  }

  // ---------------------------------------------------------------- the multiplication

  /** The next V: a shift right over both words, folding the bit that falls out. */
  function NextHi(hi: Word, lo: Word): Word
  {
    if LowBit(lo) then XorWord(ShiftRight(hi, 1), R()) else ShiftRight(hi, 1)
  }

  function NextLo(hi: Word, lo: Word): Word
  {
    Or(ShiftRight(lo, 1), ShiftLeft(hi, 63))
  }

  /** The step of V multiplies by x. */
  lemma NextTimesX(hi: Word, lo: Word)
    ensures Pair(NextHi(hi, lo), NextLo(hi, lo)) == TimesX(Pair(hi, lo))
  {
    var r := Pair(NextHi(hi, lo), NextLo(hi, lo));
    forall i | 0 <= i < 128 ensures r[i] == TimesX(Pair(hi, lo))[i] {
      if i >= 64 { assert r[i] == NextLo(hi, lo)[i - 64]; }
    }
  }

  /** The extraction of bit `i`, counted from the top, by a shift and a mask. */
  predicate BitOf(hi: Word, lo: Word, i: nat)
    requires i < 128
  {
    if i < 64 then LowBit(ShiftRight(hi, 63 - i)) else LowBit(ShiftRight(lo, 127 - i))
  }

  lemma BitOfPair(hi: Word, lo: Word, i: nat)
    requires i < 128
    ensures BitOf(hi, lo, i) == Pair(hi, lo)[i]
  {
  }

  /** `gf128_mul`. */
  method Multiply(x: Block, y: Block) returns (r: Block)
    ensures Bits(r) == Mul(Bits(x), Bits(y))
  {
    hide Pair, Add, TimesX, NextHi, NextLo, BitOf, XorWord, FromBe, Bits;
    var yHi, yLo := FromBe(y[..8]), FromBe(y[8..]);
    var vHi, vLo := FromBe(x[..8]), FromBe(x[8..]);
    var zHi, zLo := ZeroWord(), ZeroWord();
    Splits(x);
    Splits(y);
    ZeroPair();
    ghost var p, q := Bits(x), Bits(y);
    AddLaws(Mul(p, q), Zero(), Zero());
    for i := 0 to 128
      invariant Add(Pair(zHi, zLo), From(Pair(vHi, vLo), q, i)) == Mul(p, q)
    {
      ghost var z, v := Pair(zHi, zLo), Pair(vHi, vLo);
      BitOfPair(yHi, yLo, i);
      AddLaws(z, If(q[i], v), From(TimesX(v), q, i + 1));
      AddLaws(z, Zero(), Zero());
      PairXor(zHi, zLo, vHi, vLo);
      NextTimesX(vHi, vLo);
      if BitOf(yHi, yLo, i) {
        zHi, zLo := XorWord(zHi, vHi), XorWord(zLo, vLo);
      }
      vHi, vLo := NextHi(vHi, vLo), NextLo(vHi, vLo);
    }
    AddLaws(Pair(zHi, zLo), Zero(), Zero());
    Rejoins(zHi, zLo);
    r := ToBe(zHi) + ToBe(zLo);
  }

  lemma ZeroPair()
    ensures Pair(ZeroWord(), ZeroWord()) == Zero()
  {
  }
}
