/** Streaming BLAKE2b (RFC 7693) and the variable-length hash of Argon2 (section 3.3 of
    RFC 9106). The compression function and the initial chaining value are parameters. */
module Blake2b {
  import opened Basics

  const BLOCK: nat := 128
  const TWO32: nat := 0x1_0000_0000
  const TWO64: nat := 0x1_0000_0000_0000_0000

  type Byte = n: nat | n < 256
  type Chain = s: seq<nat> | |s| == 8 witness seq(8, i => 0)
  type Block = s: seq<Byte> | |s| == 128 witness seq(128, i => 0)

  /** `init` gives the chaining value for a digest length and a key length; `compress`
      takes the block, the two counter words and the last-block flag. */
  datatype Core = Core(init: (nat, nat) -> Chain, compress: (Chain, Block, nat, nat, bool) -> Chain)

  // --------------------------------------------------------------------- reference

  function Padded(m: seq<Byte>): Block
    requires |m| <= BLOCK
  {
    m + seq<Byte>(BLOCK - |m|, i => 0)
  }

  function Compressed(c: Core, h: Chain, b: Block, t: nat, last: bool): Chain
  {
    c.compress(h, b, t % TWO64, t / TWO64 % TWO64, last)
  }

  /** The chaining value after the rest `m` of a message of which `n` bytes went before:
      full blocks while more follows, and one last block, which may be full. */
  function Absorbed(c: Core, h: Chain, m: seq<Byte>, n: nat): Chain
    decreases |m|
  {
    if |m| <= BLOCK then Compressed(c, h, Padded(m), n + |m|, true)
    else Absorbed(c, Compressed(c, h, m[..BLOCK], n + BLOCK, false), m[BLOCK..], n + BLOCK)
  }

  function LittleEndian(w: nat, k: nat): (r: seq<Byte>)
    ensures |r| == k
    decreases k
  {
    if k == 0 then [] else [w % 256] + LittleEndian(w / 256, k - 1)
  }

  function Serialized(h: seq<nat>): (r: seq<Byte>)
    ensures |r| == 8 * |h|
  {
    if h == [] then [] else LittleEndian(h[0], 8) + Serialized(h[1..])
  }

  function Digest(c: Core, outLen: nat, keyLen: nat, m: seq<Byte>): (r: seq<Byte>)
    requires outLen <= 64
    ensures |r| == outLen
  {
    Serialized(Absorbed(c, c.init(outLen, keyLen), m, 0))[..outLen]
  }

  function Flatten(chunks: seq<seq<Byte>>): (m: seq<Byte>)
  {
    if chunks == [] then [] else chunks[0] + Flatten(chunks[1..])
  }

  // ----------------------------------------------------------------------- counter

  /** The carry of the two-word counter. */
  lemma CounterCarries(t: nat, n: nat)
    requires n < TWO64
    ensures var low := (t % TWO64 + n) % TWO64;
            low == (t + n) % TWO64 &&
            (t + n) / TWO64 == t / TWO64 + (if low < n then 1 else 0)
  {
    var q, r := t / TWO64, t % TWO64;
    assert t == q * TWO64 + r;
    if r + n < TWO64 {
      assert t + n == q * TWO64 + (r + n);
    } else {
      assert t + n == (q + 1) * TWO64 + (r + n - TWO64);
    }
  }

  lemma HighWord(q: nat, carry: nat)
    ensures (q % TWO64 + carry) % TWO64 == (q + carry) % TWO64
  {
  }

  lemma PaddedIs(m: seq<Byte>, b: Block)
    requires |m| <= BLOCK && b[..|m|] == m && forall k :: |m| <= k < BLOCK ==> b[k] == 0
    ensures b == Padded(m)
  {
    assert forall k :: 0 <= k < |m| ==> b[k] == b[..|m|][k];
  }

  lemma LastBlock(c: Core, h: Chain, m: seq<Byte>, n: nat)
    requires |m| <= BLOCK
    ensures var t := n + |m|;
            Absorbed(c, h, m, n) == c.compress(h, Padded(m), t % TWO64, t / TWO64 % TWO64, true)
  {
  }

  // ------------------------------------------------------------------------- state

  class State {
    const core: Core
    const outLen: nat
    const keyLen: nat
    var h: Chain
    var t0: nat
    var t1: nat
    var buf: Block
    var bufLen: nat

    ghost var fed: seq<Byte>     // everything absorbed so far
    ghost var done: nat          // how much of it went through the compression

    ghost function Pending(): seq<Byte>
      reads this
      requires bufLen <= BLOCK
    {
      buf[..bufLen]
    }

    /** Whatever follows, going on from here gives what the whole message gives. */
    ghost predicate GoesOn(rest: seq<Byte>, whole: seq<Byte>)
      reads this
      requires bufLen <= BLOCK
    {
      forall s: seq<Byte> ::
        Absorbed(core, h, Pending() + rest + s, done) == Absorbed(core, core.init(outLen, keyLen), whole + s, 0)
    }

    ghost predicate Valid()
      reads this
    {
      && outLen <= 64 && bufLen <= BLOCK
      && t0 == done % TWO64 && t1 == done / TWO64 % TWO64
      && GoesOn([], fed)
    }

    constructor (core: Core, outLen: nat, keyLen: nat)
      requires outLen <= 64
      ensures Valid() && fed == [] && this.core == core && this.outLen == outLen && this.keyLen == keyLen
    {
      this.core, this.outLen, this.keyLen := core, outLen, keyLen;
      h, t0, t1, buf, bufLen := core.init(outLen, keyLen), 0, 0, Padded([]), 0;
      fed, done := [], 0;
      new;
      assert forall s: seq<Byte> :: Pending() + [] + s == s == fed + s;
    }

    method IncrementCounter(n: nat)
      requires n < TWO64 && t0 == done % TWO64 && t1 == done / TWO64 % TWO64
      modifies this`t0, this`t1
      ensures t0 == (done + n) % TWO64 && t1 == (done + n) / TWO64 % TWO64
    {
      CounterCarries(done, n);
      t0 := (t0 + n) % TWO64;
      if t0 < n {
        HighWord(done / TWO64, 1);
        t1 := (t1 + 1) % TWO64;
      }
    }

    /** A full buffer goes through the compression only when more input is at hand. */
    method Flush(ghost rest: seq<Byte>, ghost whole: seq<Byte>)
      requires bufLen == BLOCK && rest != [] && GoesOn(rest, whole)
      requires t0 == done % TWO64 && t1 == done / TWO64 % TWO64
      modifies this`h, this`t0, this`t1, this`bufLen, this`done
      ensures bufLen == 0 && GoesOn(rest, whole)
      ensures t0 == done % TWO64 && t1 == done / TWO64 % TWO64
    {
      hide Padded;
      IncrementCounter(BLOCK);
      forall s: seq<Byte>
        ensures Absorbed(core, h, Pending() + rest + s, done) ==
                Absorbed(core, Compressed(core, h, buf, done + BLOCK, false), rest + s, done + BLOCK)
      {
        var m := Pending() + rest + s;
        assert m[..BLOCK] == buf && m[BLOCK..] == rest + s;
      }
      h := core.compress(h, buf, t0, t1, false);
      bufLen, done := 0, done + BLOCK;
      assert forall s: seq<Byte> :: Pending() + rest + s == rest + s;
    }

    method Fill(input: seq<Byte>, offset: nat, ghost whole: seq<Byte>) returns (copied: nat)
      requires bufLen < BLOCK && offset < |input| && GoesOn(input[offset..], whole)
      modifies this`buf, this`bufLen
      ensures 0 < copied && offset + copied <= |input| && bufLen == old(bufLen) + copied <= BLOCK
      ensures GoesOn(input[offset + copied..], whole)
    {
      hide Absorbed;
      var space := BLOCK - bufLen;
      copied := if |input| - offset < space then |input| - offset else space;
      ghost var before := Pending();
      buf := buf[..bufLen] + input[offset..offset + copied] + buf[bufLen + copied..];
      bufLen := bufLen + copied;
      assert Pending() == before + input[offset..offset + copied];
      forall s: seq<Byte> ensures Pending() + input[offset + copied..] + s == before + input[offset..] + s {
        assert input[offset..] == input[offset..offset + copied] + input[offset + copied..];
      }
    }

    method Update(input: seq<Byte>)
      requires Valid()
      modifies this
      ensures Valid() && fed == old(fed) + input
      ensures input != [] ==> bufLen > 0
    {
      hide Absorbed;
      var offset := 0;
      ghost var whole := fed + input;
      forall s: seq<Byte> ensures Pending() + input + s == Pending() + [] + (input + s) && whole + s == fed + (input + s) {
      }
      assert input[0..] == input;
      while offset < |input|
        invariant offset <= |input| && bufLen <= BLOCK && GoesOn(input[offset..], whole)
        invariant t0 == done % TWO64 && t1 == done / TWO64 % TWO64 && fed == old(fed)
        invariant offset > 0 ==> bufLen > 0
        decreases |input| - offset
      {
        if bufLen == BLOCK {
          Flush(input[offset..], whole);
        }
        var copied := Fill(input, offset, whole);
        offset := offset + copied;
      }
      assert input[offset..] == [];
      fed := whole;
    }

    method Finalize() returns (r: seq<Byte>)
      requires Valid()
      modifies this`h, this`t0, this`t1, this`buf
      ensures r == Digest(core, outLen, keyLen, fed)
    {
      hide Absorbed, Padded, Serialized, Compressed;
      ghost var last := Pending();
      assert Absorbed(core, h, last + [] + [], done) == Absorbed(core, core.init(outLen, keyLen), fed + [], 0);
      assert last + [] + [] == last && fed + [] == fed;
      IncrementCounter(bufLen);
      var i := bufLen;
      while i < BLOCK
        modifies this`buf
        invariant bufLen <= i <= BLOCK && buf[..bufLen] == last
        invariant forall k :: bufLen <= k < i ==> buf[k] == 0
      {
        buf := buf[i := 0];
        i := i + 1;
      }
      PaddedIs(last, buf);
      LastBlock(core, h, last, done);
      h := core.compress(h, buf, t0, t1, true);
      r := Serialized(h)[..outLen];
    }
  }

  /** However a message is cut into pieces, the digest is that of the whole. */
  method HashPieces(core: Core, outLen: nat, chunks: seq<seq<Byte>>) returns (r: seq<Byte>)
    requires outLen <= 64
    ensures r == Digest(core, outLen, 0, Flatten(chunks))
  {
    hide Digest, Absorbed;
    var state := new State(core, outLen, 0);
    var i := 0;
    assert chunks[0..] == chunks;
    while i < |chunks|
      invariant i <= |chunks| && fresh(state) && state.Valid()
      invariant state.core == core && state.outLen == outLen && state.keyLen == 0
      invariant state.fed + Flatten(chunks[i..]) == Flatten(chunks)
    {
      ghost var before := state.fed;
      state.Update(chunks[i]);
      assert state.fed + Flatten(chunks[i + 1..]) == before + (chunks[i] + Flatten(chunks[i + 1..]));
      assert chunks[i..][1..] == chunks[i + 1..];
      i := i + 1;
    }
    assert state.fed == Flatten(chunks);
    r := state.Finalize();
  }

  /** A key is a first block of its own, padded with zeros. */
  method Keyed(core: Core, outLen: nat, key: seq<Byte>, m: seq<Byte>) returns (r: seq<Byte>)
    requires outLen <= 64 && 1 <= |key| <= 64
    ensures r == Digest(core, outLen, |key|, Padded(key) + m)
  {
    hide Digest, Absorbed, Padded;
    var state := new State(core, outLen, |key|);
    state.Update(Padded(key));
    state.Update(m);
    assert state.fed == Padded(key) + m;
    r := state.Finalize();
  }

  // ---------------------------------------------------- the standard, block by block

  function Blocks(n: nat): (d: nat)
    ensures d >= 1 && BLOCK * (d - 1) <= n <= BLOCK * d && (n > 0 ==> BLOCK * (d - 1) < n)
  {
    if n == 0 then 1 else (n + BLOCK - 1) / BLOCK
  }

  /** The chaining value after the first `i` blocks, none of them the last. */
  function ChainAt(c: Core, h: Chain, m: seq<Byte>, i: nat): Chain
    requires BLOCK * i <= |m|
  {
    if i == 0 then h
    else Compressed(c, ChainAt(c, h, m, i - 1), m[BLOCK * (i - 1)..BLOCK * i], BLOCK * i, false)
  }

  lemma {:induction false} AbsorbedFrom(c: Core, h: Chain, m: seq<Byte>, i: nat)
    requires i < Blocks(|m|)
    ensures Absorbed(c, h, m, 0) == Absorbed(c, ChainAt(c, h, m, i), m[BLOCK * i..], BLOCK * i)
  {
    if i == 0 {
      assert m[0..] == m;
    } else {
      AbsorbedFrom(c, h, m, i - 1);
      var rest := m[BLOCK * (i - 1)..];
      assert rest[..BLOCK] == m[BLOCK * (i - 1)..BLOCK * i] && rest[BLOCK..] == m[BLOCK * i..];
    }
  }

  /** The chaining values of a message: every block but the last is compressed with the
      number of bytes up to its end as the counter, and without the flag. */
  ghost predicate ChainsThrough(c: Core, m: seq<Byte>, hs: seq<Chain>)
  {
    && |hs| == Blocks(|m|)
    && forall i :: 0 <= i < |hs| - 1 ==>
         var t := 128 * (i + 1);
         hs[i + 1] == c.compress(hs[i], m[128 * i..t], t % TWO64, t / TWO64 % TWO64, false)
  }

  /** What is left for the last of `d` blocks, filled up with zeros. */
  ghost predicate FillsLast(m: seq<Byte>, d: nat, b: Block)
  {
    && 1 <= d && 0 <= |m| - 128 * (d - 1) <= 128
    && forall j :: 0 <= j < 128 ==> b[j] == if 128 * (d - 1) + j < |m| then m[128 * (d - 1) + j] else 0
  }

  lemma {:induction false} ChainIs(c: Core, m: seq<Byte>, hs: seq<Chain>, i: nat)
    requires ChainsThrough(c, m, hs) && i < |hs|
    ensures ChainAt(c, hs[0], m, i) == hs[i]
  {
    if i > 0 {
      ChainIs(c, m, hs, i - 1);
      assert hs[i - 1 + 1] == hs[i];
    }
  }

  /** Section 3.3 of RFC 7693: the last of max(1, ceil(n / 128)) blocks, filled up with
      zeros, goes with the counter `n`, and it alone with the flag. */
  lemma AbsorbedIsStandard(c: Core, m: seq<Byte>, hs: seq<Chain>, b: Block)
    requires ChainsThrough(c, m, hs) && FillsLast(m, |hs|, b)
    ensures Absorbed(c, hs[0], m, 0) ==
            c.compress(hs[|hs| - 1], b, |m| % TWO64, |m| / TWO64 % TWO64, true)
  {
    hide Absorbed, ChainAt, FillsLast;
    var d := |hs|;
    ChainIs(c, m, hs, d - 1);
    hide ChainsThrough;
    AbsorbedFrom(c, hs[0], m, d - 1);
    LastIs(c, hs[d - 1], m, d, b);
  }

  lemma LastIs(c: Core, h: Chain, m: seq<Byte>, d: nat, b: Block)
    requires FillsLast(m, d, b)
    ensures Absorbed(c, h, m[128 * (d - 1)..], 128 * (d - 1)) ==
            c.compress(h, b, |m| % TWO64, |m| / TWO64 % TWO64, true)
  {
    hide Absorbed, Padded;
    var n := 128 * (d - 1);
    var rest := m[n..];
    assert b[..|rest|] == rest;
    PaddedIs(rest, b);
    LastBlock(c, h, rest, n);
  }

  function Pow256(j: nat): (p: nat)
    ensures p >= 1
  {
    if j == 0 then 1 else 256 * Pow256(j - 1)
  }

  /** Byte `j` of a word, the least significant one first. */
  lemma {:induction false} LittleEndianByte(w: nat, k: nat, j: nat)
    requires j < k
    ensures LittleEndian(w, k)[j] == w / Pow256(j) % 256
    decreases k
  {
    if j > 0 {
      LittleEndianByte(w / 256, k - 1, j - 1);
      DivTwice(w, 256, Pow256(j - 1));
    }
  }

  lemma {:induction false} SerializedAt(h: seq<nat>, i: nat, j: nat)
    requires i < |h| && j < 8
    ensures Serialized(h)[8 * i + j] == h[i] / Pow256(j) % 256
  {
    hide LittleEndian, Pow256;
    if i == 0 {
      LittleEndianByte(h[0], 8, j);
    } else {
      SerializedAt(h[1..], i - 1, j);
      assert Serialized(h)[8 * i + j] == Serialized(h[1..])[8 * (i - 1) + j];
    }
  }

  /** Byte `k` of the digest, word by word and least significant byte first. */
  lemma DigestIsStandard(c: Core, outLen: nat, keyLen: nat, m: seq<Byte>, hs: seq<Chain>, b: Block, k: nat)
    requires k < outLen <= 64 && ChainsThrough(c, m, hs) && FillsLast(m, |hs|, b) && hs[0] == c.init(outLen, keyLen)
    ensures var h := c.compress(hs[|hs| - 1], b, |m| % TWO64, |m| / TWO64 % TWO64, true);
            Digest(c, outLen, keyLen, m)[k] == h[k / 8] / Pow256(k % 8) % 256
  {
    hide ChainsThrough, FillsLast, Absorbed, Serialized, Pow256;
    AbsorbedIsStandard(c, m, hs, b);
    assert k == 8 * (k / 8) + k % 8;
    SerializedAt(Absorbed(c, c.init(outLen, keyLen), m, 0), k / 8, k % 8);
  }

  // ------------------------------------------------------------- variable length

  function Prefixed(tau: nat, x: seq<Byte>): seq<Byte>
  {
    LittleEndian(tau % TWO32, 4) + x
  }

  /** The 64-byte values V1, V2, ... */
  function V(c: Core, x: seq<Byte>, tau: nat, i: nat): (r: seq<Byte>)
    ensures |r| == 64
  {
    if i == 0 then Digest(c, 64, 0, Prefixed(tau, x)) else Digest(c, 64, 0, V(c, x, tau, i - 1))
  }

  /** The first halves of the first `i` of them. */
  function Halves(c: Core, x: seq<Byte>, tau: nat, i: nat): (r: seq<Byte>)
    ensures |r| == 32 * i
  {
    if i == 0 then [] else Halves(c, x, tau, i - 1) + V(c, x, tau, i - 1)[..32]
  }

  /** How many halves a long output has. */
  function Rounds(tau: nat): (r: nat)
    requires tau > 64
    ensures r >= 1 && 33 <= tau - 32 * r <= 64
  {
    (tau + 31) / 32 - 2
  }

  function Variable(c: Core, x: seq<Byte>, tau: nat): (r: seq<Byte>)
    ensures |r| == tau <==> tau >= 1
    ensures tau == 0 ==> |r| == 1
  {
    if tau <= 64 then Digest(c, if tau == 0 then 1 else tau, 0, Prefixed(tau, x))
    else
      var r := Rounds(tau);
      Halves(c, x, tau, r) + Digest(c, tau - 32 * r, 0, V(c, x, tau, r - 1))
  }

  /** The input preceded by the length of the output as a 32-bit little-endian word. */
  ghost predicate Announces(pre: seq<Byte>, tau: nat, x: seq<Byte>)
  {
    && |pre| == 4 + |x| && pre[4..] == x
    && forall j :: 0 <= j < 4 ==> pre[j] == tau % TWO32 / Pow256(j) % 256
  }

  lemma PrefixedAnnounces(tau: nat, x: seq<Byte>, pre: seq<Byte>)
    ensures Announces(pre, tau, x) <==> pre == Prefixed(tau, x)
  {
    hide Pow256, LittleEndian;
    var p := Prefixed(tau, x);
    forall j | 0 <= j < 4 ensures p[j] == tau % TWO32 / Pow256(j) % 256 {
      LittleEndianByte(tau % TWO32, 4, j);
    }
    assert p[4..] == x;
    if Announces(pre, tau, x) {
      assert pre == pre[..4] + pre[4..] && p == p[..4] + p[4..];
      assert pre[..4] == p[..4];
    }
  }

  /** `vs` are 64-byte digests, the first of `pre` and each other one of its predecessor. */
  ghost predicate DigestChain(c: Core, pre: seq<Byte>, vs: seq<seq<Byte>>)
  {
    && vs != [] && vs[0] == Digest(c, 64, 0, pre)
    && forall i :: 0 <= i < |vs| - 1 ==> vs[i + 1] == Digest(c, 64, 0, vs[i])
  }

  lemma {:induction false} ChainOfV(c: Core, x: seq<Byte>, tau: nat, vs: seq<seq<Byte>>, i: nat)
    requires DigestChain(c, Prefixed(tau, x), vs) && i < |vs|
    ensures V(c, x, tau, i) == vs[i]
  {
    hide Digest;
    if i > 0 {
      ChainOfV(c, x, tau, vs, i - 1);
      assert vs[i - 1 + 1] == vs[i];
    }
  }

  lemma {:induction false} HalfAt(c: Core, x: seq<Byte>, tau: nat, n: nat, i: nat)
    requires i < n
    ensures Halves(c, x, tau, n)[32 * i..32 * i + 32] == V(c, x, tau, i)[..32]
  {
    hide V;
    var before := Halves(c, x, tau, n - 1);
    if i < n - 1 {
      HalfAt(c, x, tau, n - 1, i);
      assert Halves(c, x, tau, n)[32 * i..32 * i + 32] == before[32 * i..32 * i + 32];
    }
  }

  /** Section 3.3 of RFC 9106: a short output is one digest of that length. A long one is
      the first 32 bytes of each of `r` chained 64-byte digests, and then one digest of
      what is missing, 33 to 64 bytes, of the last of them. */
  lemma VariableIsStandard(c: Core, x: seq<Byte>, tau: nat, pre: seq<Byte>, vs: seq<seq<Byte>>)
    requires Announces(pre, tau, x)
    ensures tau <= 64 ==> Variable(c, x, tau) == Digest(c, if tau == 0 then 1 else tau, 0, pre)
    ensures tau > 64 && DigestChain(c, pre, vs) && 33 <= tau - 32 * |vs| <= 64 ==>
              && |Variable(c, x, tau)| == tau
              && (forall i :: 0 <= i < |vs| ==> |vs[i]| == 64 && Variable(c, x, tau)[32 * i..32 * i + 32] == vs[i][..32])
              && Variable(c, x, tau)[32 * |vs|..] == Digest(c, tau - 32 * |vs|, 0, vs[|vs| - 1])
  {
    hide Digest, Prefixed, Announces, V, Halves;
    PrefixedAnnounces(tau, x, pre);
    if tau > 64 && DigestChain(c, pre, vs) && 33 <= tau - 32 * |vs| <= 64 {
      var r := |vs|;
      assert Rounds(tau) == r;
      var out, halves := Variable(c, x, tau), Halves(c, x, tau, r);
      ChainOfV(c, x, tau, vs, r - 1);
      assert out == halves + Digest(c, tau - 32 * r, 0, V(c, x, tau, r - 1));
      forall i | 0 <= i < r ensures |vs[i]| == 64 && out[32 * i..32 * i + 32] == vs[i][..32] {
        ChainOfV(c, x, tau, vs, i);
        HalfAt(c, x, tau, r, i);
        assert out[32 * i..32 * i + 32] == halves[32 * i..32 * i + 32];
      }
    }
  }

  method HashTwo(core: Core, outLen: nat, a: seq<Byte>, b: seq<Byte>) returns (r: seq<Byte>)
    requires outLen <= 64
    ensures r == Digest(core, outLen, 0, a + b)
  {
    hide Digest, Absorbed;
    var state := new State(core, outLen, 0);
    state.Update(a);
    state.Update(b);
    assert state.fed == a + b;
    r := state.Finalize();
  }

  /** `h_prime`. */
  method HPrime(core: Core, x: seq<Byte>, tau: nat) returns (out: seq<Byte>)
    ensures out == Variable(core, x, tau)
  {
    hide Digest;
    var tauBytes := LittleEndian(tau % TWO32, 4);
    if tau <= 64 {
      out := HashTwo(core, if tau == 0 then 1 else tau, tauBytes, x);
      return;
    }
    var r := Rounds(tau);
    var a := HashTwo(core, 64, tauBytes, x);
    assert V(core, x, tau, 0) == a;
    out := a[..32];
    var i := 1;
    while i < r
      invariant 1 <= i <= r && a == V(core, x, tau, i - 1) && out == Halves(core, x, tau, i)
    {
      a := HashTwo(core, 64, a, []);
      assert V(core, x, tau, i - 1) + [] == V(core, x, tau, i - 1);
      assert a == V(core, x, tau, i);
      out := out + a[..32];
      i := i + 1;
    }
    var last := HashTwo(core, tau - 32 * r, a, []);
    assert a + [] == a;
    out := out + last;
  }
}
