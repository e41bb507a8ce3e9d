/** Byte strings as hexadecimal text with a prefix. */
module Hex {
  import opened Basics
  import opened Base64

  function Nibble(n: nat): char
    requires n < 16
  {
    if n < 10 then '0' + n as char else 'A' + (n - 10) as char
  }

  function NibbleValue(c: char): (r: Option<nat>)
    ensures r.Some? ==> r.value < 16
  {
    if '0' <= c <= '9' then Some((c - '0') as nat)
    else if 'a' <= c <= 'f' then Some((c - 'a') as nat + 10)
    else if 'A' <= c <= 'F' then Some((c - 'A') as nat + 10)
    else None
  }

  lemma NibbleBack(n: nat)
    requires n < 16
    ensures NibbleValue(Nibble(n)) == Some(n)
  {
  }

  function Digits(bs: seq<Byte>): (s: string)
    ensures |s| == 2 * |bs|
  {
    if bs == [] then "" else [Nibble(bs[0] / 16), Nibble(bs[0] % 16)] + Digits(bs[1..])
  }

  function Shown(bs: seq<Byte>): string
  {
    "0x" + Digits(bs)
  }

  /** Pairs of digits. */
  function Pairs(s: string): (r: Option<seq<Byte>>)
    requires |s| % 2 == 0
  {
    if s == "" then Some([])
    else
      var high, low, rest := NibbleValue(s[0]), NibbleValue(s[1]), Pairs(s[2..]);
      if high == None || low == None || rest == None then None
      else Some([high.value * 16 + low.value] + rest.value)
  }

  function Unprefixed(s: string): string
  {
    if |s| >= 2 && s[0] == '0' && (s[1] == 'x' || s[1] == 'X') then s[2..] else s
  }

  /** An odd digit count gets a leading zero; no digits at all are refused. */
  function Parsed(s: string): (r: Option<seq<Byte>>)
  {
    var d := Unprefixed(s);
    if d == "" then None
    else if |d| % 2 == 0 then Pairs(d)
    else Pairs(['0'] + d)
  }

  lemma {:induction false} PairsOfDigits(bs: seq<Byte>)
    ensures Pairs(Digits(bs)) == Some(bs)
  {
    if bs != [] {
      var s := Digits(bs);
      assert s[2..] == Digits(bs[1..]);
      PairsOfDigits(bs[1..]);
      NibbleBack(bs[0] / 16);
      NibbleBack(bs[0] % 16);
      assert bs == [bs[0]] + bs[1..];
    }
  }

  /** The parser inverts the printer exactly on the byte strings that are not empty. */
  lemma ParsesIff(bs: seq<Byte>)
    ensures Parsed(Shown(bs)) == Some(bs) <==> bs != []
    ensures bs == [] ==> Parsed(Shown(bs)) == None
  {
    PairsOfDigits(bs);
    assert Unprefixed(Shown(bs)) == Digits(bs);
  }

  /** Two upper-case digits for each byte, the high one first. */
  lemma {:induction false} ShownDigit(bs: seq<Byte>, i: nat)
    requires i < |bs|
    ensures |Shown(bs)| == 2 + 2 * |bs| && Shown(bs)[..2] == "0x"
    ensures Shown(bs)[2 + 2 * i] == "0123456789ABCDEF"[bs[i] / 16]
    ensures Shown(bs)[3 + 2 * i] == "0123456789ABCDEF"[bs[i] % 16]
  {
    if i == 0 {
      NibbleTable(bs[0] / 16);
      NibbleTable(bs[0] % 16);
    } else {
      ShownDigit(bs[1..], i - 1);
      assert Digits(bs)[2 * i..] == Digits(bs[1..])[2 * (i - 1)..];
      assert Shown(bs)[2 + 2 * i] == Digits(bs)[2 * i..][0] && Shown(bs)[3 + 2 * i] == Digits(bs)[2 * i..][1];
      var rest := bs[1..];
      assert Shown(rest)[2 * i] == Digits(rest)[2 * (i - 1)..][0] && Shown(rest)[1 + 2 * i] == Digits(rest)[2 * (i - 1)..][1];
    }
  }

  lemma NibbleTable(n: nat)
    requires n < 16
    ensures Nibble(n) == "0123456789ABCDEF"[n]
  {
  }

  function UpperChar(c: char): char
  {
    if 'a' <= c <= 'z' then 'A' + (c - 'a') else c
  }

  function Upper(s: string): (t: string)
    ensures |t| == |s| && forall i :: 0 <= i < |s| ==> t[i] == UpperChar(s[i])
  {
    seq(|s|, i requires 0 <= i < |s| => UpperChar(s[i]))
  }

  lemma {:induction false} PairsOfUpper(s: string)
    requires |s| % 2 == 0
    ensures Pairs(Upper(s)) == Pairs(s)
    decreases |s|
  {
    if s != "" {
      NibbleOfUpper(s[0]);
      NibbleOfUpper(s[1]);
      assert Upper(s)[2..] == Upper(s[2..]);
      PairsOfUpper(s[2..]);
    }
  }

  lemma NibbleOfUpper(c: char)
    ensures NibbleValue(UpperChar(c)) == NibbleValue(c)
  {
  }

  /** The case of the letters, that of the prefix included, does not matter. */
  lemma ParsesUpper(s: string)
    ensures Parsed(Upper(s)) == Parsed(s)
  {
    hide NibbleValue, Pairs;
    var d := Unprefixed(s);
    assert Unprefixed(Upper(s)) == Upper(d);
    if |d| % 2 == 0 {
      PairsOfUpper(d);
    } else {
      assert ['0'] + Upper(d) == Upper(['0'] + d);
      PairsOfUpper(['0'] + d);
    }
  }

  predicate IsHexDigit(c: char)
  {
    '0' <= c <= '9' || 'a' <= c <= 'f' || 'A' <= c <= 'F'
  }

  predicate HexDigits(d: string)
  {
    d != "" && forall i :: 0 <= i < |d| ==> IsHexDigit(d[i])
  }

  lemma {:induction false} PairsIff(s: string)
    requires |s| % 2 == 0
    ensures Pairs(s).Some? <==> forall i :: 0 <= i < |s| ==> IsHexDigit(s[i])
    decreases |s|
  {
    if s != "" {
      PairsIff(s[2..]);
      assert forall i :: 2 <= i < |s| ==> s[i] == s[2..][i - 2];
    }
  }

  /** Accepted: digits, at least one, with or without a prefix. */
  lemma AcceptedIff(s: string)
    ensures Parsed(s).Some? <==>
            HexDigits(s) || (|s| > 2 && (s[..2] == "0x" || s[..2] == "0X") && HexDigits(s[2..]))
  {
    hide Pairs;
    var d := Unprefixed(s);
    if d != "" {
      if |d| % 2 == 0 {
        PairsIff(d);
      } else {
        var e := ['0'] + d;
        PairsIff(e);
        assert forall i :: 0 <= i < |d| ==> d[i] == e[i + 1];
      }
    }
    if |s| >= 2 && s[1] in "xX" { assert !IsHexDigit(s[1]); }
  }

  /** An odd number of digits is read with a leading zero. */
  lemma ParsesOdd(s: string)
    requires |Unprefixed(s)| % 2 == 1
    ensures Parsed(s) == Parsed("0x0" + Unprefixed(s))
  {
    hide Pairs;
    assert ("0x0" + Unprefixed(s))[2..] == ['0'] + Unprefixed(s);
  }

  /** `bytes_to_hex`. */
  method ToHex(bs: seq<Byte>) returns (s: string)
    ensures s == Shown(bs)
  {
    s := "0x";
    assert bs[0..] == bs;
    for i := 0 to |bs|
      invariant s + Digits(bs[i..]) == Shown(bs)
    {
      assert bs[i..][1..] == bs[i + 1..];
      s := s + [Nibble(bs[i] / 16)];
      s := s + [Nibble(bs[i] % 16)];
    }
  }

  /** `hex_to_bytes`. */
  method FromHex(s: string) returns (r: Option<seq<Byte>>)
    ensures r == Parsed(s)
  {
    hide NibbleValue, Unprefixed, Pairs;
    var d := Unprefixed(s);
    if d == "" {
      return None;
    }
    var bytes: seq<Byte> := [];
    var i := 0;
    ghost var whole := if |d| % 2 == 0 then Pairs(d) else Pairs(['0'] + d);
    assert d[0..] == d;
    if |d| % 2 != 0 {
      var low := NibbleValue(d[0]);
      OddStart(d);
      if low == None {
        return None;
      }
      bytes := [low.value];
      i := 1;
    } else {
      PrependNothing(Pairs(d));
    }
    while i < |d|
      invariant i <= |d| && (|d| - i) % 2 == 0 && whole == Prepended(bytes, Pairs(d[i..]))
    {
      var high, low := NibbleValue(d[i]), NibbleValue(d[i + 1]);
      PairsStep(d[i..]);
      assert d[i..][2..] == d[i + 2..];
      if high == None || low == None {
        return None;
      }
      PrependTwice(bytes, [high.value * 16 + low.value], Pairs(d[i + 2..]));
      bytes := bytes + [high.value * 16 + low.value];
      i := i + 2;
    }
    assert d[i..] == "" && bytes + [] == bytes;
    NoPairs();
    r := Some(bytes);
  }

  function Prepended(a: seq<Byte>, r: Option<seq<Byte>>): Option<seq<Byte>>
  {
    match r case None => None case Some(b) => Some(a + b)
  }

  lemma OddStart(d: string)
    requires |d| % 2 == 1
    ensures Pairs(['0'] + d) ==
            match NibbleValue(d[0]) case None => None case Some(v) => Prepended([v], Pairs(d[1..]))
  {
    hide NibbleValue, Pairs;
    PairsStep(['0'] + d);
    ZeroNibble();
    assert (['0'] + d)[2..] == d[1..];
  }

  lemma ZeroNibble()
    ensures NibbleValue('0') == Some(0)
  {
  }

  lemma NoPairs()
    ensures Pairs("") == Some([])
  {
  }

  lemma PairsStep(s: string)
    requires |s| >= 2 && |s| % 2 == 0
    ensures Pairs(s) ==
            if NibbleValue(s[0]) == None || NibbleValue(s[1]) == None then None
            else Prepended([NibbleValue(s[0]).value * 16 + NibbleValue(s[1]).value], Pairs(s[2..]))
  {
    hide NibbleValue;
  }

  lemma PrependNothing(r: Option<seq<Byte>>)
    ensures Prepended([], r) == r
  {
    if r.Some? { assert [] + r.value == r.value; }
  }

  lemma PrependTwice(a: seq<Byte>, b: seq<Byte>, r: Option<seq<Byte>>)
    ensures Prepended(a, Prepended(b, r)) == Prepended(a + b, r)
  {
    if r.Some? { assert a + (b + r.value) == (a + b) + r.value; }
  }
}
