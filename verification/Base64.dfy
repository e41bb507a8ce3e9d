/** Base64 text. */
module Base64 {
  import opened Basics

  type Byte = n: nat | n < 256
  type Sextet = n: nat | n < 64

  // ------------------------------------------------------------------- characters

  function Digit(v: Sextet): char
  {
    if v < 26 then 'A' + v as char
    else if v < 52 then 'a' + (v - 26) as char
    else if v < 62 then '0' + (v - 52) as char
    else if v == 62 then '+' else '/'
  }

  function DigitValue(c: char): Option<Sextet>
  {
    if 'A' <= c <= 'Z' then Some((c - 'A') as int)
    else if 'a' <= c <= 'z' then Some((c - 'a') as int + 26)
    else if '0' <= c <= '9' then Some((c - '0') as int + 52)
    else if c == '+' then Some(62)
    else if c == '/' then Some(63)
    else None
  }

  /** The alphabet is a bijection. */
  lemma DigitIff(c: char, v: Sextet)
    ensures DigitValue(c) == Some(v) <==> c == Digit(v)
  {
  }

  /** Table 1 of RFC 4648, sixteen letters to a row. */
  function Letter(v: Sextet): char
  {
    if v < 16 then "ABCDEFGHIJKLMNOP"[v]
    else if v < 32 then "QRSTUVWXYZabcdef"[v - 16]
    else if v < 48 then "ghijklmnopqrstuv"[v - 32]
    else "wxyz0123456789+/"[v - 48]
  }

  lemma DigitIsStandard(v: Sextet)
    ensures Digit(v) == Letter(v)
  {
  }

  predicate InAlphabet(t: string)
  {
    forall i :: 0 <= i < |t| ==> DigitValue(t[i]).Some?
  }

  function Text(vs: seq<Sextet>): (t: string)
    ensures |t| == |vs|
  {
    seq(|vs|, i requires 0 <= i < |vs| => Digit(vs[i]))
  }

  function Values(t: string): (vs: seq<Sextet>)
    requires InAlphabet(t)
    ensures |vs| == |t|
  {
    seq<Sextet>(|t|, i requires 0 <= i < |t| => DigitValue(t[i]).value)
  }

  lemma TextIff(t: string, vs: seq<Sextet>)
    ensures InAlphabet(t) && Values(t) == vs <==> t == Text(vs)
  {
    hide Digit, DigitValue;
    if |t| == |vs| {
      forall i | 0 <= i < |t| ensures DigitValue(t[i]) == Some(vs[i]) <==> t[i] == Digit(vs[i]) {
        DigitIff(t[i], vs[i]);
      }
      if InAlphabet(t) && Values(t) == vs {
        forall i | 0 <= i < |t| ensures t[i] == Text(vs)[i] {
          assert Values(t)[i] == vs[i];
        }
      }
      if t == Text(vs) {
        forall i | 0 <= i < |t| ensures DigitValue(t[i]) == Some(vs[i]) {
          assert Text(vs)[i] == t[i];
        }
      }
    }
  }

  // -------------------------------------------------------------------- one group

  /** Three bytes as four sextets, and back. */
  function Split(a: nat, b: nat, c: nat): (vs: seq<Sextet>)
    requires a < 256 && b < 256 && c < 256
    ensures |vs| == 4
  {
    [a / 4, a % 4 * 16 + b / 16, b % 16 * 4 + c / 64, c % 64]
  }

  function Merge(p: nat, q: nat, r: nat, s: nat): (bs: seq<Byte>)
    requires p < 64 && q < 64 && r < 64 && s < 64
    ensures |bs| == 3
  {
    [p * 4 + q / 16, q % 16 * 16 + r / 4, r % 4 * 64 + s]
  }

  lemma MergeSplit(a: nat, b: nat, c: nat)
    requires a < 256 && b < 256 && c < 256
    ensures var v := Split(a, b, c); Merge(v[0], v[1], v[2], v[3]) == [a, b, c]
  {
  }

  lemma Quotient(n: nat, d: nat, q: nat, r: nat)
    requires d in {4, 16, 64, 256, 4096, 65536, 262144} && n == q * d + r && r < d
    ensures n / d == q && n % d == r
  {
  }

  lemma SplitMerge(p: nat, q: nat, r: nat, s: nat)
    requires p < 64 && q < 64 && r < 64 && s < 64
    ensures var b := Merge(p, q, r, s); Split(b[0], b[1], b[2]) == [p, q, r, s]
  {
    var b := Merge(p, q, r, s);
    Quotient(b[0], 4, p, q / 16);
    Quotient(b[1], 16, q % 16, r / 4);
    Quotient(b[2], 64, r % 4, s);
    assert q == q / 16 * 16 + q % 16 && r == r / 4 * 4 + r % 4;
  }

  /** The shifts and masks of the source, on three bytes packed into one number. */
  lemma PackedSplit(a: nat, b: nat, c: nat)
    requires a < 256 && b < 256 && c < 256
    ensures var n := a * 65536 + b * 256 + c;
            Split(a, b, c) == [n / 262144 % 64, n / 4096 % 64, n / 64 % 64, n % 64]
  {
    var n := a * 65536 + b * 256 + c;
    Quotient(n, 262144, a / 4, a % 4 * 65536 + b * 256 + c);
    Quotient(n, 4096, 16 * a + b / 16, b % 16 * 256 + c);
    Quotient(n, 64, 1024 * a + 4 * b + c / 64, c % 64);
    Quotient(16 * a + b / 16, 64, a / 4, a % 4 * 16 + b / 16);
    Quotient(1024 * a + 4 * b + c / 64, 64, 16 * a + b / 16, b % 16 * 4 + c / 64);
  }

  lemma PackedMerge(p: nat, q: nat, r: nat, s: nat)
    requires p < 64 && q < 64 && r < 64 && s < 64
    ensures var n := p * 262144 + q * 4096 + r * 64 + s;
            Merge(p, q, r, s) == [n / 65536 % 256, n / 256 % 256, n % 256]
  {
    var n := p * 262144 + q * 4096 + r * 64 + s;
    var a, b, c := n / 65536 % 256, n / 256 % 256, n % 256;
    assert a == p * 4 + q / 16 by { FirstByte(p, q, r, s); }
    assert b == q % 16 * 16 + r / 4 && c == r % 4 * 64 + s by { SecondByte(p, q, r, s); }
  }

  lemma FirstByte(p: nat, q: nat, r: nat, s: nat)
    requires p < 64 && q < 64 && r < 64 && s < 64
    ensures (p * 262144 + q * 4096 + r * 64 + s) / 65536 % 256 == p * 4 + q / 16
  {
    assert q == q / 16 * 16 + q % 16;
    Quotient(p * 262144 + q * 4096 + r * 64 + s, 65536, p * 4 + q / 16, q % 16 * 4096 + r * 64 + s);
    BelowByte(p * 4 + q / 16);
  }

  lemma BelowByte(x: nat)
    requires x < 256
    ensures x % 256 == x
  {
  }

  lemma SecondByte(p: nat, q: nat, r: nat, s: nat)
    requires p < 64 && q < 64 && r < 64 && s < 64
    ensures var n := p * 262144 + q * 4096 + r * 64 + s;
            n / 256 % 256 == q % 16 * 16 + r / 4 && n % 256 == r % 4 * 64 + s
  {
    assert q == q / 16 * 16 + q % 16 && r == r / 4 * 4 + r % 4;
    Quotient(p * 262144 + q * 4096 + r * 64 + s, 256, p * 1024 + q * 16 + r / 4, r % 4 * 64 + s);
    Quotient(p * 1024 + q * 16 + r / 4, 256, p * 4 + q / 16, q % 16 * 16 + r / 4);
  }

  // ------------------------------------------------------------------- byte strings

  function ToSextets(bs: seq<Byte>): (vs: seq<Sextet>)
    decreases |bs|
  {
    if bs == [] then []
    else if |bs| == 1 then Split(bs[0], 0, 0)[..2]
    else if |bs| == 2 then Split(bs[0], bs[1], 0)[..3]
    else Split(bs[0], bs[1], bs[2]) + ToSextets(bs[3..])
  }

  /** A single sextet left over is no byte. */
  function FromSextets(vs: seq<Sextet>): (r: Option<seq<Byte>>)
    decreases |vs|
  {
    if vs == [] then Some([])
    else if |vs| == 1 then None
    else if |vs| == 2 then Some(Merge(vs[0], vs[1], 0, 0)[..1])
    else if |vs| == 3 then Some(Merge(vs[0], vs[1], vs[2], 0)[..2])
    else
      match FromSextets(vs[4..])
      case None => None
      case Some(bs) => Some(Merge(vs[0], vs[1], vs[2], vs[3]) + bs)
  }

  lemma {:induction false} FromSextetsIff(vs: seq<Sextet>)
    ensures FromSextets(vs).Some? <==> |vs| % 4 != 1
    decreases |vs|
  {
    hide Merge;
    if |vs| >= 4 { FromSextetsIff(vs[4..]); }
  }

  lemma ShortBytes(a: nat, b: nat)
    requires a < 256 && b < 256
    ensures var v := Split(a, 0, 0); Merge(v[0], v[1], 0, 0)[..1] == [a]
    ensures var v := Split(a, b, 0); Merge(v[0], v[1], v[2], 0)[..2] == [a, b]
  {
    MergeSplit(a, 0, 0);
    MergeSplit(a, b, 0);
  }

  lemma {:induction false} BytesReturn(bs: seq<Byte>)
    ensures FromSextets(ToSextets(bs)) == Some(bs)
    decreases |bs|
  {
    hide Split, Merge;
    if |bs| == 1 {
      ShortBytes(bs[0], 0);
      assert bs == [bs[0]];
    } else if |bs| == 2 {
      ShortBytes(bs[0], bs[1]);
      assert bs == [bs[0], bs[1]];
    } else if |bs| >= 3 {
      MergeSplit(bs[0], bs[1], bs[2]);
      BytesReturn(bs[3..]);
      var vs := ToSextets(bs);
      assert vs[..4] == Split(bs[0], bs[1], bs[2]) && vs[4..] == ToSextets(bs[3..]);
      assert bs == [bs[0], bs[1], bs[2]] + bs[3..];
    }
  }

  /** The bits that a short last group does not use. */
  predicate UnusedBitsZero(vs: seq<Sextet>)
  {
    && (|vs| % 4 == 2 ==> vs[|vs| - 1] % 16 == 0)
    && (|vs| % 4 == 3 ==> vs[|vs| - 1] % 4 == 0)
  }

  /** Sextets survive the way to bytes and back exactly if those bits are zero. */
  lemma {:induction false} SextetsReturnIff(vs: seq<Sextet>)
    requires |vs| % 4 != 1
    ensures FromSextets(vs).Some?
    ensures ToSextets(FromSextets(vs).value) == vs <==> UnusedBitsZero(vs)
    decreases |vs|
  {
    hide Split, Merge, ToSextets, UnusedBitsZero;
    FromSextetsIff(vs);
    if |vs| == 0 {
      Returns0();
    } else if |vs| == 2 {
      Returns2(vs);
    } else if |vs| == 3 {
      Returns3(vs);
    } else {
      SextetsReturnIff(vs[4..]);
      WholeGroup(vs);
      SameUnused(vs);
    }
  }

  lemma SameUnused(vs: seq<Sextet>)
    requires |vs| >= 4
    ensures UnusedBitsZero(vs) <==> UnusedBitsZero(vs[4..])
  {
    assert |vs| % 4 == |vs[4..]| % 4;
  }

  lemma Returns0()
    ensures ToSextets([]) == [] && UnusedBitsZero([])
  {
  }

  lemma Returns2(vs: seq<Sextet>)
    requires |vs| == 2
    ensures FromSextets(vs).Some? && (ToSextets(FromSextets(vs).value) == vs <==> UnusedBitsZero(vs))
  {
    hide Split, Merge;
    ShortGroup1(vs[0], vs[1]);
    assert vs == [vs[0], vs[1]];
  }

  lemma Returns3(vs: seq<Sextet>)
    requires |vs| == 3
    ensures FromSextets(vs).Some? && (ToSextets(FromSextets(vs).value) == vs <==> UnusedBitsZero(vs))
  {
    hide Split, Merge;
    ShortGroup2(vs[0], vs[1], vs[2]);
    assert vs == [vs[0], vs[1], vs[2]];
  }

  lemma GroupFirst(b: seq<Byte>, rest: seq<Byte>)
    requires |b| == 3
    ensures ToSextets(b + rest) == Split(b[0], b[1], b[2]) + ToSextets(rest)
  {
    hide Split;
    assert (b + rest)[3..] == rest;
  }

  lemma WholeGroup(vs: seq<Sextet>)
    requires |vs| >= 4 && FromSextets(vs[4..]).Some?
    ensures ToSextets(FromSextets(vs).value) == vs <==> ToSextets(FromSextets(vs[4..]).value) == vs[4..]
  {
    hide Split, Merge, ToSextets;
    var b, rest := Merge(vs[0], vs[1], vs[2], vs[3]), FromSextets(vs[4..]).value;
    SplitMerge(vs[0], vs[1], vs[2], vs[3]);
    GroupFirst(b, rest);
    SamePrefix([vs[0], vs[1], vs[2], vs[3]], ToSextets(rest), vs);
  }

  lemma SamePrefix(g: seq<Sextet>, a: seq<Sextet>, vs: seq<Sextet>)
    requires |vs| >= |g| && vs[..|g|] == g
    ensures g + a == vs <==> a == vs[|g|..]
  {
    assert vs == g + vs[|g|..];
    assert (g + a)[|g|..] == a;
  }

  lemma ShortGroup1(p: nat, q: nat)
    requires p < 64 && q < 64
    ensures var a := Merge(p, q, 0, 0)[0]; Split(a, 0, 0)[..2] == [p, q] <==> q % 16 == 0
  {
    var a := Merge(p, q, 0, 0)[0];
    Quotient(a, 4, p, q / 16);
    assert Split(a, 0, 0)[..2] == [p, q / 16 * 16];
  }

  lemma ShortGroup2(p: nat, q: nat, r: nat)
    requires p < 64 && q < 64 && r < 64
    ensures var b := Merge(p, q, r, 0); Split(b[0], b[1], 0)[..3] == [p, q, r] <==> r % 4 == 0
  {
    var b := Merge(p, q, r, 0);
    Quotient(b[0], 4, p, q / 16);
    Quotient(b[1], 16, q % 16, r / 4);
    assert q == q / 16 * 16 + q % 16;
    assert Split(b[0], b[1], 0)[..3] == [p, q, r / 4 * 4];
  }

  // ------------------------------------------------------------------------ padding

  function Pads(k: nat): (t: string)
    ensures |t| == k
  {
    seq(k, i => '=')
  }

  function Trimmed(t: string): (r: string)
    ensures |r| <= |t|
  {
    if t != "" && t[|t| - 1] == '=' then Trimmed(t[..|t| - 1]) else t
  }

  /** Any number of padding characters is the same as none. */
  lemma {:induction false} TrimmedPads(t: string, k: nat)
    ensures Trimmed(t + Pads(k)) == Trimmed(t)
    decreases k
  {
    if k == 0 {
      assert t + Pads(0) == t;
    } else {
      var u := t + Pads(k);
      assert u[|u| - 1] == '=' && u[..|u| - 1] == t + Pads(k - 1);
      TrimmedPads(t, k - 1);
    }
  }

  /** Trimming takes off exactly the padding characters at the end. */
  lemma {:induction false} TrimmedIs(t: string)
    ensures t == Trimmed(t) + Pads(|t| - |Trimmed(t)|)
    ensures Trimmed(t) != "" ==> Trimmed(t)[|Trimmed(t)| - 1] != '='
  {
    if t != "" && t[|t| - 1] == '=' {
      var u := t[..|t| - 1];
      TrimmedIs(u);
      assert t == u + ['='] && Pads(|t| - |Trimmed(t)|) == Pads(|u| - |Trimmed(u)|) + ['='];
    }
  }

  // --------------------------------------------------------------- encode and decode

  function Encoded(bs: seq<Byte>): (t: string)
  {
    Text(ToSextets(bs))
  }

  function EncodedPadded(bs: seq<Byte>): (t: string)
  {
    Encoded(bs) + Pads((4 - |Encoded(bs)| % 4) % 4)
  }

  function Decoded(t: string): (r: Option<seq<Byte>>)
  {
    var u := Trimmed(t);
    if InAlphabet(u) then FromSextets(Values(u)) else None
  }

  /** What is accepted: letters of the alphabet, not one more than a multiple of four,
      then any number of padding characters. */
  lemma AcceptedIff(t: string)
    ensures Decoded(t).Some? <==> InAlphabet(Trimmed(t)) && |Trimmed(t)| % 4 != 1
  {
    if InAlphabet(Trimmed(t)) {
      FromSextetsIff(Values(Trimmed(t)));
    }
  }

  lemma EncodedHasNoPad(bs: seq<Byte>)
    ensures InAlphabet(Encoded(bs)) && Trimmed(Encoded(bs)) == Encoded(bs)
  {
    hide Text, ToSextets, Values;
    var t := Encoded(bs);
    TextIff(t, ToSextets(bs));
    if t != "" { assert DigitValue(t[|t| - 1]).Some?; }
  }

  /** The decoder inverts the padded and the unpadded encoder. */
  lemma DecodesBoth(bs: seq<Byte>)
    ensures Decoded(Encoded(bs)) == Some(bs) && Decoded(EncodedPadded(bs)) == Some(bs)
  {
    hide Text, ToSextets, Values, Trimmed, InAlphabet;
    var t := Encoded(bs);
    TextIff(t, ToSextets(bs));
    BytesReturn(bs);
    EncodedHasNoPad(bs);
    TrimmedPads(t, (4 - |t| % 4) % 4);
  }

  /** Encoding what was decoded gives the text without its padding exactly if the unused
      bits are zero. */
  lemma ReencodesIff(t: string)
    requires Decoded(t).Some?
    ensures InAlphabet(Trimmed(t))
    ensures Encoded(Decoded(t).value) == Trimmed(t) <==> UnusedBitsZero(Values(Trimmed(t)))
  {
    hide Text, ToSextets, Trimmed, Values, UnusedBitsZero;
    var u := Trimmed(t);
    var vs := Values(u);
    FromSextetsIff(vs);
    SextetsReturnIff(vs);
    TextIff(u, ToSextets(Decoded(t).value));
    TextIff(u, vs);
  }

  // ----------------------------------------------------------- the standard's words

  /** Byte `i` of the input, zero behind its end. */
  function ByteAt(bs: seq<Byte>, i: nat): Byte
  {
    if i < |bs| then bs[i] else 0
  }

  /** Three bytes from `i` on as one number of 24 bits. */
  function GroupAt(bs: seq<Byte>, i: nat): (n: nat)
  {
    ByteAt(bs, i) * 65536 + ByteAt(bs, i + 1) * 256 + ByteAt(bs, i + 2)
  }

  function Sixth(n: nat, j: nat): (v: nat)
    requires j < 4
    ensures v < 64
  {
    if j == 0 then n / 262144 % 64 else if j == 1 then n / 4096 % 64 else if j == 2 then n / 64 % 64 else n % 64
  }

  lemma SplitAt(bs: seq<Byte>, j: nat)
    requires j < 4
    ensures Split(ByteAt(bs, 0), ByteAt(bs, 1), ByteAt(bs, 2))[j] == Sixth(GroupAt(bs, 0), j)
  {
    PackedSplit(ByteAt(bs, 0), ByteAt(bs, 1), ByteAt(bs, 2));
  }

  lemma {:induction false} SextetAt(bs: seq<Byte>, g: nat, j: nat)
    requires j < 4 && 4 * g + j < |ToSextets(bs)|
    ensures ToSextets(bs)[4 * g + j] == Sixth(GroupAt(bs, 3 * g), j)
    decreases |bs|
  {
    hide Split, Sixth;
    if g == 0 {
      SplitAt(bs, j);
    } else {
      var rest := bs[3..];
      SextetAt(rest, g - 1, j);
      assert ToSextets(bs)[4 * g + j] == ToSextets(rest)[4 * (g - 1) + j];
      assert forall i: nat :: ByteAt(rest, i) == ByteAt(bs, i + 3);
    }
  }

  lemma {:induction false} SextetCount(bs: seq<Byte>)
    ensures |ToSextets(bs)| == (4 * |bs| + 2) / 3
    decreases |bs|
  {
    hide Split;
    if |bs| >= 3 { SextetCount(bs[3..]); }
  }

  /** Section 4 of RFC 4648: each group of 24 bits, filled up with zeros, gives four
      letters of the table, most significant bits first; letters without a bit of the input
      are left out, and in the padded form replaced by padding to a multiple of four. */
  lemma EncodedIsStandard(bs: seq<Byte>, g: nat, j: nat)
    requires j < 4
    ensures var t, u := Encoded(bs), EncodedPadded(bs);
            && |t| == (4 * |bs| + 2) / 3 && |u| == (|bs| + 2) / 3 * 4
            && (4 * g + j < |t| ==>
                  t[4 * g + j] == Letter(Sixth(GroupAt(bs, 3 * g), j)))
            && (4 * g + j < |u| ==> u[4 * g + j] == if 4 * g + j < |t| then t[4 * g + j] else '=')
  {
    hide ToSextets, Sixth, Digit, GroupAt, Letter;
    SextetCount(bs);
    if 4 * g + j < |Encoded(bs)| {
      SextetAt(bs, g, j);
      DigitIsStandard(Sixth(GroupAt(bs, 3 * g), j));
    }
  }

  function SextetOf(vs: seq<Sextet>, i: nat): Sextet
  {
    if i < |vs| then vs[i] else 0
  }

  /** Four sextets from `i` on as one number of 24 bits. */
  function QuartetAt(vs: seq<Sextet>, i: nat): (n: nat)
  {
    SextetOf(vs, i) * 262144 + SextetOf(vs, i + 1) * 4096 + SextetOf(vs, i + 2) * 64 + SextetOf(vs, i + 3)
  }

  function Third(n: nat, j: nat): (v: nat)
    requires j < 3
    ensures v < 256
  {
    if j == 0 then n / 65536 % 256 else if j == 1 then n / 256 % 256 else n % 256
  }

  lemma MergeAt(vs: seq<Sextet>, j: nat)
    requires j < 3
    ensures Merge(SextetOf(vs, 0), SextetOf(vs, 1), SextetOf(vs, 2), SextetOf(vs, 3))[j] == Third(QuartetAt(vs, 0), j)
  {
    PackedMerge(SextetOf(vs, 0), SextetOf(vs, 1), SextetOf(vs, 2), SextetOf(vs, 3));
  }

  lemma {:induction false} BytesOfSextets(vs: seq<Sextet>, g: nat, j: nat)
    requires j < 3 && FromSextets(vs).Some?
    ensures |FromSextets(vs).value| == 3 * |vs| / 4
    ensures 3 * g + j < |FromSextets(vs).value| ==> FromSextets(vs).value[3 * g + j] == Third(QuartetAt(vs, 4 * g), j)
    decreases |vs|
  {
    hide Merge, Third;
    if |vs| >= 4 {
      var rest := vs[4..];
      BytesOfSextets(rest, if g == 0 then 0 else g - 1, j);
      if g > 0 && 3 * g + j < |FromSextets(vs).value| {
        assert FromSextets(vs).value[3 * g + j] == FromSextets(rest).value[3 * (g - 1) + j];
        assert forall i: nat :: SextetOf(rest, i) == SextetOf(vs, i + 4);
      }
    }
    if g == 0 { MergeAt(vs, j); }
  }

  /** And the way back: without its padding a text of `n` letters gives 3n/4 bytes, cut out
      of the groups of 24 bits; bits beyond the last whole byte are ignored. */
  lemma DecodedIsStandard(t: string, g: nat, j: nat)
    requires j < 3 && Decoded(t).Some?
    ensures var u, bs := Trimmed(t), Decoded(t).value;
            && InAlphabet(u) && |bs| == 3 * |u| / 4
            && (3 * g + j < |bs| ==> bs[3 * g + j] == Third(QuartetAt(Values(u), 4 * g), j))
  {
    hide Third, QuartetAt, Values, Trimmed, DigitValue;
    BytesOfSextets(Values(Trimmed(t)), g, j);
  }

  // ---------------------------------------------------------------------- the loops

  lemma TextConcat(a: seq<Sextet>, b: seq<Sextet>)
    ensures Text(a + b) == Text(a) + Text(b)
  {
    hide Digit;
  }

  /** Three bytes packed into one number, and the four sextets cut out of it. */
  function Pack(a: nat, b: nat, c: nat): (vs: seq<Sextet>)
    requires a < 256 && b < 256 && c < 256
    ensures vs == Split(a, b, c)
  {
    PackedSplit(a, b, c);
    var n := a * 65536 + b * 256 + c;
    [n / 262144 % 64, n / 4096 % 64, n / 64 % 64, n % 64]
  }

  /** Four sextets packed into one number, and the three bytes cut out of it. */
  function Unpack(p: nat, q: nat, r: nat, s: nat): (bs: seq<Byte>)
    requires p < 64 && q < 64 && r < 64 && s < 64
    ensures bs == Merge(p, q, r, s)
  {
    PackedMerge(p, q, r, s);
    var n := p * 262144 + q * 4096 + r * 64 + s;
    [n / 65536 % 256, n / 256 % 256, n % 256]
  }

  /** `base64_encode_unpadded`. */
  method Encode(input: seq<Byte>) returns (t: string)
    ensures t == Encoded(input)
  {
    hide Split, Pack, Text;
    t := "";
    var i := 0;
    assert input[0..] == input;
    while i + 3 <= |input|
      invariant 0 <= i <= |input| && t + Text(ToSextets(input[i..])) == Encoded(input)
    {
      var g := Pack(input[i], input[i + 1], input[i + 2]);
      assert input[i..][3..] == input[i + 3..];
      TextConcat(g, ToSextets(input[i + 3..]));
      t := t + Text(g);
      i := i + 3;
    }
    if |input| - i == 1 {
      t := t + Text(Pack(input[i], 0, 0)[..2]);
    } else if |input| - i == 2 {
      t := t + Text(Pack(input[i], input[i + 1], 0)[..3]);
    } else {
      assert input[i..] == [] && Text([]) == "";
    }
  }

  /** `base64_encode`. */
  method EncodePadded(input: seq<Byte>) returns (t: string)
    ensures t == EncodedPadded(input) && |t| % 4 == 0
  {
    hide Encoded;
    t := Encode(input);
    var remainder := |t| % 4;
    if remainder != 0 {
      for k := 0 to 4 - remainder
        invariant t == Encoded(input) + Pads(k)
      {
        t := t + ['='];
      }
    }
  }

  /** The decoding of a text without padding. */
  function Plain(u: string): (r: Option<seq<Byte>>)
  {
    if InAlphabet(u) then FromSextets(Values(u)) else None
  }

  function After(bs: seq<Byte>, r: Option<seq<Byte>>): Option<seq<Byte>>
  {
    match r case None => None case Some(more) => Some(bs + more)
  }

  function GroupBytes(u: string): Option<seq<Byte>>
    requires |u| == 4
  {
    if InAlphabet(u) then
      var vs := Values(u);
      Some(Merge(vs[0], vs[1], vs[2], vs[3]))
    else None
  }

  lemma PlainStep(u: string)
    requires |u| >= 4
    ensures Plain(u) == match GroupBytes(u[..4]) case None => None case Some(bs) => After(bs, Plain(u[4..]))
  {
    hide DigitValue, Merge;
    assert InAlphabet(u) <==> InAlphabet(u[..4]) && InAlphabet(u[4..]) by {
      assert u == u[..4] + u[4..];
    }
    if InAlphabet(u) {
      assert Values(u)[4..] == Values(u[4..]) && Values(u)[..4] == Values(u[..4]);
    }
  }

  method DecodeGroup(u: string) returns (r: Option<seq<Byte>>)
    requires |u| == 4
    ensures r == GroupBytes(u)
  {
    hide DigitValue, Merge, Unpack;
    var a, b, c, d := DigitValue(u[0]), DigitValue(u[1]), DigitValue(u[2]), DigitValue(u[3]);
    if a == None || b == None || c == None || d == None {
      return None;
    }
    r := Some(Unpack(a.value, b.value, c.value, d.value));
  }

  method DecodeTail(u: string) returns (r: Option<seq<Byte>>)
    requires |u| < 4
    ensures r == Plain(u)
  {
    hide DigitValue, Merge, Unpack;
    if |u| == 2 {
      var a, b := DigitValue(u[0]), DigitValue(u[1]);
      if a == None || b == None {
        return None;
      }
      assert Values(u) == [a.value, b.value];
      r := Some(Unpack(a.value, b.value, 0, 0)[..1]);
    } else if |u| == 3 {
      var a, b, c := DigitValue(u[0]), DigitValue(u[1]), DigitValue(u[2]);
      if a == None || b == None || c == None {
        return None;
      }
      assert Values(u) == [a.value, b.value, c.value];
      r := Some(Unpack(a.value, b.value, c.value, 0)[..2]);
    } else if |u| == 1 {
      r := None;
    } else {
      r := Some([]);
    }
  }

  /** `base64_decode`. */
  method Decode(t: string) returns (r: Option<seq<Byte>>)
    ensures r == Decoded(t)
  {
    hide Plain, GroupBytes, Trimmed;
    var u := Trimmed(t);
    assert Decoded(t) == Plain(u) by { DecodedIsPlain(t); }
    var bytes: seq<Byte> := [];
    var i := 0;
    assert u[0..] == u;
    FirstNothing(Plain(u));
    while i + 4 <= |u|
      invariant 0 <= i <= |u| && Plain(u) == After(bytes, Plain(u[i..]))
    {
      PlainStep(u[i..]);
      assert u[i..][..4] == u[i..i + 4] && u[i..][4..] == u[i + 4..];
      var g := DecodeGroup(u[i..i + 4]);
      if g == None {
        return None;
      }
      AfterTwice(bytes, g.value, Plain(u[i + 4..]));
      bytes := bytes + g.value;
      i := i + 4;
    }
    var tail := DecodeTail(u[i..]);
    if tail == None {
      return None;
    }
    r := Some(bytes + tail.value);
  }

  lemma DecodedIsPlain(t: string)
    ensures Decoded(t) == Plain(Trimmed(t))
  {
  }

  lemma FirstNothing(r: Option<seq<Byte>>)
    ensures After([], r) == r
  {
    if r.Some? { assert [] + r.value == r.value; }
  }

  lemma AfterTwice(a: seq<Byte>, b: seq<Byte>, r: Option<seq<Byte>>)
    ensures After(a, After(b, r)) == After(a + b, r)
  {
    if r.Some? { assert a + (b + r.value) == (a + b) + r.value; }
  }
}
