/** Task identifiers and the way they travel through the single `u64` argument of
    a deferred system task. */
module TaskIds {
  import opened Basics

  /** A slot of the task table and the one-byte generation the slot had when the
      id was issued. */
  datatype TaskId = TaskId(slot: nat, gen: nat)

  const IDLE: TaskId := TaskId(0, 0)

  const GENERATIONS: nat := 256
  const TWO56: nat := 0x100_0000_0000_0000
  const TWO64: nat := 0x1_0000_0000_0000_0000

  /** Bitwise OR of two `bits`-wide words, from the least significant bit up. */
  function Or(bits: nat, a: nat, b: nat): (r: nat)
    requires a < Pow2(bits) && b < Pow2(bits)
    ensures r < Pow2(bits)
    ensures a == 0 ==> r == b
  {
    if bits == 0 then 0
    else (if a % 2 == 1 || b % 2 == 1 then 1 else 0) + 2 * Or(bits - 1, a / 2, b / 2)
  }

  /** `slot | (gen << 56)` on 64-bit words: the generation lands on the top byte of
      the slot index. */
  function Compress(id: TaskId): (r: nat)
    requires id.slot < TWO64 && id.gen < GENERATIONS
    ensures r < TWO64
  {
    assert Pow2(8) == 256;
    id.slot % TWO56 + TWO56 * Or(8, id.slot / TWO56, id.gen)
  }

  /** The top byte, and the word shifted left and right by eight. */
  function Expand(packed: nat): (id: TaskId)
    requires packed < TWO64
    ensures id.slot < TWO56 && id.gen < GENERATIONS
  {
    TaskId(packed % TWO56, packed / TWO56)
  }

  /** Packing loses nothing exactly for slot indices below 2^56. */
  lemma CompressRoundTrip(id: TaskId)
    requires id.slot < TWO64 && id.gen < GENERATIONS
    ensures Expand(Compress(id)) == id <==> id.slot < TWO56
    ensures id.slot < TWO56 ==> Compress(id) == 0x100_0000_0000_0000 * id.gen + id.slot
  {
    assert Pow2(8) == 256;
    var top := Or(8, id.slot / TWO56, id.gen);
    assert Compress(id) == id.slot % TWO56 + TWO56 * top;
    assert Compress(id) / TWO56 == top && Compress(id) % TWO56 == id.slot % TWO56;
  }
}
