/** Unsigned 32-bit numbers as decimal text. */
module Decimal {
  import opened Basics

  const TWO32: nat := 0x1_0000_0000

  function DigitChar(d: nat): char
    requires d < 10
  {
    '0' + d as char
  }

  predicate IsDigit(c: char)
  {
    '0' <= c <= '9'
  }

  predicate AllDigits(s: string)
  {
    forall i :: 0 <= i < |s| ==> IsDigit(s[i])
  }

  /** The number that a row of digits denotes. */
  function Number(s: string): (n: nat)
    requires AllDigits(s)
  {
    if s == "" then 0 else 10 * Number(s[..|s| - 1]) + (s[|s| - 1] - '0') as nat
  }

  /** The shortest row of digits that denotes `v`. */
  function Shown(v: nat): (s: string)
    ensures s != ""
  {
    if v < 10 then [DigitChar(v)] else Shown(v / 10) + [DigitChar(v % 10)]
  }

  lemma {:induction false} ShownDenotes(v: nat)
    ensures AllDigits(Shown(v)) && Number(Shown(v)) == v
  {
    if v < 10 {
      assert Shown(v)[..0] == "";
    } else {
      ShownDenotes(v / 10);
      assert Shown(v)[..|Shown(v)| - 1] == Shown(v / 10);
    }
  }

  /** Accepted: at least one character, digits only, and a value below 2^32. */
  function Parsed(s: string): (r: Option<nat>)
  {
    if s != "" && AllDigits(s) && Number(s) < TWO32 then Some(Number(s)) else None
  }

  /** The values are those of 32 bits, and leading zeros do not matter. */
  lemma ParsedIff(s: string)
    ensures Parsed(s).Some? <==>
            s != "" && (forall i :: 0 <= i < |s| ==> '0' <= s[i] <= '9') && Number(s) <= 4294967295
    ensures Parsed(s).Some? ==> Parsed(['0'] + s) == Parsed(s)
  {
    if Parsed(s).Some? { NumberOfZero(s); }
  }

  lemma {:induction false} NumberOfZero(s: string)
    requires AllDigits(s)
    ensures AllDigits(['0'] + s) && Number(['0'] + s) == Number(s)
  {
    var z := ['0'] + s;
    if s == "" {
      assert z[..0] == "";
    } else {
      NumberOfZero(s[..|s| - 1]);
      assert z[..|z| - 1] == ['0'] + s[..|s| - 1];
    }
  }

  lemma ParsesWhatIsShown(v: nat)
    requires v < TWO32
    ensures Parsed(Shown(v)) == Some(v)
  {
    ShownDenotes(v);
  }

  /** Of all texts with the same value, `Shown` gives the one without leading zeros. */
  lemma {:induction false} ShownIff(s: string)
    requires s != "" && AllDigits(s)
    ensures Shown(Number(s)) == s <==> |s| == 1 || s[0] != '0'
    decreases |s|
  {
    if |s| == 1 {
      assert s[..0] == "" && s == [s[0]];
    } else {
      var t, c := s[..|s| - 1], s[|s| - 1];
      assert s == t + [c] && s[0] == t[0];
      ShownIff(t);
      LeadingZero(t);
      assert Number(s) / 10 == Number(t) && Number(s) % 10 == (c - '0') as nat;
      assert DigitChar(Number(s) % 10) == c;
    }
  }

  lemma {:induction false} LeadingZero(t: string)
    requires t != "" && AllDigits(t)
    ensures t[0] != '0' ==> Number(t) > 0
    ensures |t| == 1 && t[0] == '0' ==> Number(t) == 0
  {
    if |t| == 1 {
      assert t[..0] == "";
    } else {
      LeadingZero(t[..|t| - 1]);
    }
  }

  /** Digit `j` from the end counts the powers of ten. */
  lemma {:induction false} NumberDigit(s: string, j: nat)
    requires AllDigits(s) && j < |s|
    ensures Number(s) / Pow10(j) % 10 == (s[|s| - 1 - j] - '0') as nat
    decreases j
  {
    if j > 0 {
      var t := s[..|s| - 1];
      NumberDigit(t, j - 1);
      DivTwice(Number(s), 10, Pow10(j - 1));
      assert Number(s) / 10 == Number(t);
    }
  }

  lemma {:induction false} PrefixIsSmaller(s: string, i: nat)
    requires AllDigits(s) && i <= |s|
    ensures Number(s[..i]) <= Number(s)
    decreases |s| - i
  {
    if i == |s| {
      assert s[..i] == s;
    } else {
      PrefixIsSmaller(s, i + 1);
      assert s[..i + 1][..i] == s[..i];
    }
  }

  /** `parse_u32`: checked multiplication and addition, digit by digit. */
  method ParseU32(s: string) returns (r: Option<nat>)
    ensures r == Parsed(s)
  {
    if s == "" {
      return None;
    }
    var result := 0;
    var i := 0;
    while i < |s|
      invariant i <= |s| && AllDigits(s[..i]) && result == Number(s[..i]) < TWO32
    {
      var c := s[i];
      if c < '0' || c > '9' {
        assert !IsDigit(s[i]);
        return None;
      }
      assert s[..i + 1][..i] == s[..i];
      assert Number(s[..i + 1]) == 10 * result + (c - '0') as nat;
      if 10 * result >= TWO32 || 10 * result + (c - '0') as nat >= TWO32 {
        if AllDigits(s) { PrefixIsSmaller(s, i + 1); }
        return None;
      }
      result := 10 * result + (c - '0') as nat;
      i := i + 1;
    }
    assert s[..i] == s;
    r := Some(result);
  }

  function Pow10(k: nat): (n: nat)
    ensures n > 0
  {
    if k == 0 then 1 else 10 * Pow10(k - 1)
  }

  /** `u32_to_alloc_string`: ten digits are enough, filled in from the end. */
  method ToText(number: nat) returns (s: string)
    requires number < TWO32
    ensures s == Shown(number)
  {
    if number == 0 {
      assert Shown(0) == [DigitChar(0)];
      return "0";
    }
    var v: nat := number;
    var buf := new char[10](i => '0');
    var i := 10;
    assert Pow10(10) == 10_000_000_000 by { assert Pow10(5) == 100_000; }
    while v > 0
      invariant 0 <= i <= 10 && v < Pow10(i)
      invariant v > 0 ==> Shown(v) + buf[i..] == Shown(number)
      invariant v == 0 ==> buf[i..] == Shown(number)
      decreases v
    {
      ghost var rest := buf[i..];
      i := i - 1;
      buf[i] := DigitChar(v % 10);
      assert buf[i..] == [DigitChar(v % 10)] + rest;
      assert v >= 10 ==> Shown(v) + rest == Shown(v / 10) + buf[i..];
      v := v / 10;
    }
    s := buf[i..];
  }
}
