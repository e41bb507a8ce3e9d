/** Byte-addressed memory with little-endian 64-bit words at any address, aligned or
    not. */
module ByteMemory {

  type Bytes = nat -> nat

  const TWO64: nat := 0x1_0000_0000_0000_0000

  function Pow256(n: nat): (r: nat)
    ensures 0 < r
  {
    if n == 0 then 1 else 256 * Pow256(n - 1)
  }

  function Put(m: Bytes, a: nat, b: nat): Bytes
  {
    (x: nat) => if x == a then b else m(x)
  }

  function ReadBytes(m: Bytes, a: nat, n: nat): (w: nat)
    decreases n
  {
    if n == 0 then 0 else m(a) + 256 * ReadBytes(m, a + 1, n - 1)
  }

  function WriteBytes(m: Bytes, a: nat, n: nat, w: nat): (r: Bytes)
    decreases n
  {
    if n == 0 then m else WriteBytes(Put(m, a, w % 256), a + 1, n - 1, w / 256)
  }

  lemma {:induction false} WriteElsewhere(m: Bytes, a: nat, n: nat, w: nat, x: nat)
    requires x < a || a + n <= x
    ensures WriteBytes(m, a, n, w)(x) == m(x)
    decreases n
  {
    if n != 0 {
      WriteElsewhere(Put(m, a, w % 256), a + 1, n - 1, w / 256, x);
    }
  }

  lemma {:induction false} ReadSame(m: Bytes, m': Bytes, a: nat, n: nat)
    requires forall x :: a <= x < a + n ==> m'(x) == m(x)
    ensures ReadBytes(m', a, n) == ReadBytes(m, a, n)
    decreases n
  {
    if n != 0 {
      ReadSame(m, m', a + 1, n - 1);
    }
  }

  lemma {:induction false} ReadBack(m: Bytes, a: nat, n: nat, w: nat)
    requires w < Pow256(n)
    ensures ReadBytes(WriteBytes(m, a, n, w), a, n) == w
    decreases n
  {
    if n != 0 {
      var m1 := Put(m, a, w % 256);
      ReadBack(m1, a + 1, n - 1, w / 256);
      WriteElsewhere(m1, a + 1, n - 1, w / 256, a);
    }
  }

  function Read(m: Bytes, a: nat): (w: nat)
  {
    ReadBytes(m, a, 8)
  }

  function Write(m: Bytes, a: nat, w: nat): Bytes
  {
    WriteBytes(m, a, 8, w)
  }

  /** A word reads back what was written, and words that do not overlap it keep their
      value. */
  lemma {:induction false} WriteThenRead(m: Bytes, a: nat, w: nat, b: nat)
    requires w < TWO64
    ensures Read(Write(m, a, w), a) == w
    ensures b + 8 <= a || a + 8 <= b ==> Read(Write(m, a, w), b) == Read(m, b)
  {
    assert Pow256(8) == TWO64 by {
      assert Pow256(4) == 0x1_0000_0000;
    }
    ReadBack(m, a, 8, w);
    if b + 8 <= a || a + 8 <= b {
      forall x | b <= x < b + 8 ensures Write(m, a, w)(x) == m(x) {
        WriteElsewhere(m, a, 8, w, x);
      }
      ReadSame(m, Write(m, a, w), b, 8);
    }
  }

  /** One byte changed: only words that contain it notice. */
  lemma {:induction false} PutThenRead(m: Bytes, a: nat, v: nat, b: nat)
    requires a < b || b + 8 <= a
    ensures Read(Put(m, a, v), b) == Read(m, b)
  {
    ReadSame(m, Put(m, a, v), b, 8);
  }
}
