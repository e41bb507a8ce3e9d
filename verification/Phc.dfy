/** Password hashes as PHC strings. The core hash `argon2id_raw` is the parameter
    `core`: any function from password, salt and costs to 32 bytes. */
module Phc {
  import opened Basics
  import opened Base64
  import opened Decimal

  type Hash = s: seq<Byte> | |s| == 32 witness seq(32, i => 0)

  datatype Error =
    | PasswordEmpty | SaltTooShort | TimeCostZero | ParallelismZero | MemoryCostTooLow
    | InvalidPhcString | PasswordMismatch

  datatype Result<+T> = Ok(value: T) | Err(error: Error)

  datatype Fields = Fields(salt: seq<Byte>, hash: seq<Byte>, m: nat, t: nat, p: nat)

  // --------------------------------------------------------------------- splitting

  /** `str::split` on one character. */
  function Split(s: string, c: char): (r: seq<string>)
    ensures r != []
  {
    if s == "" then [""]
    else
      var r := Split(s[1..], c);
      if s[0] == c then [""] + r else [[s[0]] + r[0]] + r[1..]
  }

  function Join(parts: seq<string>, c: char): (s: string)
    requires parts != []
  {
    if |parts| == 1 then parts[0] else parts[0] + [c] + Join(parts[1..], c)
  }

  lemma {:induction false} SplitWhole(s: string, c: char)
    requires c !in s
    ensures Split(s, c) == [s]
  {
    if s != "" {
      SplitWhole(s[1..], c);
      assert s == [s[0]] + s[1..];
    }
  }

  lemma {:induction false} SplitFirst(a: string, c: char, b: string)
    requires c !in a
    ensures Split(a + [c] + b, c) == [a] + Split(b, c)
  {
    var s := a + [c] + b;
    if a == "" {
      assert s[1..] == b;
    } else {
      assert s[1..] == a[1..] + [c] + b;
      SplitFirst(a[1..], c, b);
      assert a == [a[0]] + a[1..];
      assert ([a[1..]] + Split(b, c))[1..] == Split(b, c);
    }
  }

  /** Nothing is lost: the parts joined again are the text. */
  lemma {:induction false} JoinSplit(s: string, c: char)
    ensures Join(Split(s, c), c) == s
  {
    if s != "" {
      JoinSplit(s[1..], c);
      var r := Split(s[1..], c);
      var q := Split(s, c);
      if s[0] == c {
        assert q[1..] == r && s == [c] + s[1..];
      } else {
        assert q[1..] == r[1..];
        assert s == [s[0]] + s[1..];
      }
    }
  }

  // ------------------------------------------------------------------ the PHC format

  function Stripped(s: string, prefix: string): (r: Option<string>)
  {
    if prefix <= s then Some(s[|prefix|..]) else None
  }

  function Param(s: string, prefix: string): (r: Option<nat>)
  {
    match Stripped(s, prefix) case None => None case Some(v) => Parsed(v)
  }

  function DecodedPhc(phc: string): (r: Result<Fields>)
  {
    var parts := Split(phc, '$');
    if |parts| != 6 || parts[0] != "" || parts[1] != "argon2id" then Err(InvalidPhcString)
    else if parts[2] != "v=19" then Err(InvalidPhcString)
    else
      var params := Split(parts[3], ',');
      if |params| != 3 then Err(InvalidPhcString)
      else
        var m, t, p := Param(params[0], "m="), Param(params[1], "t="), Param(params[2], "p=");
        var salt, hash := Decoded(parts[4]), Decoded(parts[5]);
        if m == None || t == None || p == None || salt == None || hash == None then Err(InvalidPhcString)
        else Ok(Fields(salt.value, hash.value, m.value, t.value, p.value))
  }

  function Costs(m: string, t: string, p: string): string
  {
    "m=" + m + ",t=" + t + ",p=" + p
  }

  function Assembled(m: string, t: string, p: string, salt: string, hash: string): string
  {
    "$argon2id$v=19$" + Costs(m, t, p) + "$" + salt + "$" + hash
  }

  function EncodedPhc(salt: seq<Byte>, hash: Hash, m: nat, t: nat, p: nat): string
  {
    Assembled(Shown(m), Shown(t), Shown(p), EncodedPadded(salt), EncodedPadded(hash))
  }

  predicate Free(s: string)
  {
    '$' !in s && ',' !in s
  }

  lemma ParsedIsFree(s: string)
    requires Parsed(s).Some?
    ensures Free(s)
  {
  }

  lemma {:induction false} TrimmedHas(t: string, c: char)
    requires c != '='
    ensures c in t <==> c in Trimmed(t)
  {
    if t != "" && t[|t| - 1] == '=' {
      TrimmedHas(t[..|t| - 1], c);
      assert t == t[..|t| - 1] + ['='];
    }
  }

  lemma DecodedIsFree(s: string)
    requires Decoded(s).Some?
    ensures '$' !in s
  {
    AcceptedIff(s);
    TrimmedHas(s, '$');
  }

  lemma SplitCosts(m: string, t: string, p: string)
    requires Free(m) && Free(t) && Free(p)
    ensures Split(Costs(m, t, p), ',') == ["m=" + m, "t=" + t, "p=" + p]
    ensures '$' !in Costs(m, t, p)
  {
    hide Split;
    var c := Costs(m, t, p);
    assert c == ("m=" + m) + [','] + (("t=" + t) + [','] + ("p=" + p));
    SplitFirst("m=" + m, ',', ("t=" + t) + [','] + ("p=" + p));
    SplitFirst("t=" + t, ',', "p=" + p);
    SplitWhole("p=" + p, ',');
  }

  lemma SplitAssembled(c: string, salt: string, hash: string)
    requires '$' !in c && '$' !in salt && '$' !in hash
    ensures Split("$argon2id$v=19$" + c + "$" + salt + "$" + hash, '$') == ["", "argon2id", "v=19", c, salt, hash]
  {
    hide Split;
    var e := salt + ['$'] + hash;
    var d := c + ['$'] + e;
    var b := "v=19" + ['$'] + d;
    var a := "argon2id" + ['$'] + b;
    assert "$argon2id$v=19$" + c + "$" + salt + "$" + hash == "" + ['$'] + a;
    SplitFirst("", '$', a);
    SplitFirst("argon2id", '$', b);
    SplitFirst("v=19", '$', d);
    SplitFirst(c, '$', e);
    SplitFirst(salt, '$', hash);
    SplitWhole(hash, '$');
  }

  lemma ParamIs(prefix: string, s: string)
    ensures Param(prefix + s, prefix) == Parsed(s)
  {
    assert (prefix + s)[|prefix|..] == s;
  }

  /** A string of the right shape decodes to the values of its fields. */
  lemma DecodesAssembled(m: string, t: string, p: string, salt: string, hash: string)
    requires Parsed(m).Some? && Parsed(t).Some? && Parsed(p).Some? && Decoded(salt).Some? && Decoded(hash).Some?
    ensures DecodedPhc(Assembled(m, t, p, salt, hash)) ==
            Ok(Fields(Decoded(salt).value, Decoded(hash).value, Parsed(m).value, Parsed(t).value, Parsed(p).value))
  {
    hide Split, Parsed, Decoded, Param, Costs;
    ParsedIsFree(m);
    ParsedIsFree(t);
    ParsedIsFree(p);
    DecodedIsFree(salt);
    DecodedIsFree(hash);
    SplitCosts(m, t, p);
    SplitAssembled(Costs(m, t, p), salt, hash);
    ParamIs("m=", m);
    ParamIs("t=", t);
    ParamIs("p=", p);
  }

  /** `decode_phc` inverts `encode_phc`. */
  lemma PhcRoundTrip(salt: seq<Byte>, hash: Hash, m: nat, t: nat, p: nat)
    requires m < TWO32 && t < TWO32 && p < TWO32
    ensures DecodedPhc(EncodedPhc(salt, hash, m, t, p)) == Ok(Fields(salt, hash, m, t, p))
    ensures EncodedPhc(salt, hash, m, t, p) == "$argon2id$v=19$m=" + Shown(m) + ",t=" + Shown(t) + ",p=" + Shown(p)
              + "$" + EncodedPadded(salt) + "$" + EncodedPadded(hash)
  {
    FlatText(Shown(m), Shown(t), Shown(p), EncodedPadded(salt), EncodedPadded(hash));
    hide DecodedPhc, Assembled, EncodedPadded, Decoded, Shown, Parsed;
    ParsesWhatIsShown(m);
    ParsesWhatIsShown(t);
    ParsesWhatIsShown(p);
    DecodesBoth(salt);
    DecodesBoth(hash);
    DecodesAssembled(Shown(m), Shown(t), Shown(p), EncodedPadded(salt), EncodedPadded(hash));
  }

  /** And every accepted string has that shape. */
  lemma AcceptedShape(phc: string) returns (m: string, t: string, p: string, salt: string, hash: string)
    requires DecodedPhc(phc).Ok?
    ensures phc == "$argon2id$v=19$m=" + m + ",t=" + t + ",p=" + p + "$" + salt + "$" + hash
    ensures Parsed(m).Some? && Parsed(t).Some? && Parsed(p).Some? && Decoded(salt).Some? && Decoded(hash).Some?
  {
    hide Split, Parsed, Decoded, Join;
    var parts := Split(phc, '$');
    var params := Split(parts[3], ',');
    m, t, p := params[0][2..], params[1][2..], params[2][2..];
    salt, hash := parts[4], parts[5];
    assert params[0] == "m=" + m && params[1] == "t=" + t && params[2] == "p=" + p;
    JoinSplit(parts[3], ',');
    Join3(params[0], params[1], params[2], ',');
    assert params == [params[0], params[1], params[2]];
    assert parts[3] == Costs(m, t, p);
    JoinSplit(phc, '$');
    Join6(parts);
    assert phc == "$argon2id$v=19$" + parts[3] + "$" + salt + "$" + hash;
    FlatText(m, t, p, salt, hash);
  }

  lemma FlatText(m: string, t: string, p: string, salt: string, hash: string)
    ensures Assembled(m, t, p, salt, hash) == "$argon2id$v=19$m=" + m + ",t=" + t + ",p=" + p + "$" + salt + "$" + hash
  {
  }

  lemma Join3(a: string, b: string, d: string, c: char)
    ensures Join([a, b, d], c) == a + [c] + b + [c] + d
  {
    assert [a, b, d][1..] == [b, d] && [b, d][1..] == [d];
    assert Join([b, d], c) == b + [c] + d;
  }

  lemma Join6(parts: seq<string>)
    requires |parts| == 6 && parts[0] == "" && parts[1] == "argon2id" && parts[2] == "v=19"
    ensures Join(parts, '$') == "$argon2id$v=19$" + parts[3] + "$" + parts[4] + "$" + parts[5]
  {
    var x, y, z := parts[3], parts[4], parts[5];
    assert parts[3..] == [x, y, z];
    Join3(x, y, z, '$');
    hide Join;
    JoinStep(parts);
    JoinStep(parts[1..]);
    JoinStep(parts[2..]);
    assert parts[1..][1..] == parts[2..] && parts[2..][1..] == parts[3..];
  }

  lemma JoinStep(parts: seq<string>)
    requires |parts| > 1
    ensures Join(parts, '$') == parts[0] + ['$'] + Join(parts[1..], '$')
  {
  }

  // ------------------------------------------------------------- hashing, verifying

  /** The checks in the order of the source; the product with eight wraps. */
  function Validated(password: seq<Byte>, salt: seq<Byte>, m: nat, t: nat, p: nat): (r: Option<Error>)
  {
    if password == [] then Some(PasswordEmpty)
    else if |salt| < 8 then Some(SaltTooShort)
    else if t == 0 then Some(TimeCostZero)
    else if p == 0 then Some(ParallelismZero)
    else if m < 8 * p % TWO32 then Some(MemoryCostTooLow)
    else None
  }

  /** The memory check is the intended one exactly if the product does not wrap, or the
      memory cost is too low even for the wrapped product. */
  lemma MemoryCheckIff(m: nat, p: nat)
    requires m < TWO32 && p < TWO32
    ensures (m < 8 * p % TWO32 <==> m < 8 * p) <==> p < 0x2000_0000 || m < 8 * p % TWO32
  {
  }

  /** With 2^29 lanes any memory cost passes. */
  lemma MemoryCheckCanFail(password: seq<Byte>, salt: seq<Byte>)
    requires password != [] && |salt| >= 8
    ensures Validated(password, salt, 0, 1, 0x2000_0000) == None
  {
  }

  type CoreHash = (seq<Byte>, seq<Byte>, nat, nat, nat) -> Hash

  function HashPassword(core: CoreHash, password: seq<Byte>, salt: seq<Byte>, m: nat, t: nat, p: nat): (r: Result<string>)
  {
    match Validated(password, salt, m, t, p)
    case Some(e) => Err(e)
    case None => Ok(EncodedPhc(salt, core(password, salt, m, t, p), m, t, p))
  }

  /** A password is hashed exactly if the five conditions hold, the last one with the
      product taken in 32 bits; otherwise the first that fails is reported. The record
      holds the salt, the costs and the core hash. */
  lemma HashesIff(core: CoreHash, password: seq<Byte>, salt: seq<Byte>, m: nat, t: nat, p: nat)
    requires m < TWO32 && t < TWO32 && p < TWO32
    ensures var r := HashPassword(core, password, salt, m, t, p);
            && (r.Ok? <==> password != [] && |salt| >= 8 && t >= 1 && p >= 1 && m >= 8 * p % 0x1_0000_0000)
            && (r == Err(PasswordEmpty) <==> password == [])
            && (r == Err(SaltTooShort) <==> password != [] && |salt| < 8)
            && (r == Err(TimeCostZero) <==> password != [] && |salt| >= 8 && t == 0)
            && (r == Err(ParallelismZero) <==> password != [] && |salt| >= 8 && t >= 1 && p == 0)
            && (r.Ok? ==> DecodedPhc(r.value) == Ok(Fields(salt, core(password, salt, m, t, p), m, t, p)))
  {
    hide DecodedPhc, EncodedPhc;
    PhcRoundTrip(salt, core(password, salt, m, t, p), m, t, p);
  }

  function VerifyPassword(core: CoreHash, password: seq<Byte>, phc: string): (r: Result<()>)
  {
    match DecodedPhc(phc)
    case Err(e) => Err(e)
    case Ok(f) =>
      if core(password, f.salt, f.m, f.t, f.p) == f.hash then Ok(()) else Err(PasswordMismatch)
  }

  /** A stored hash accepts a password exactly if the core hash of that password, under
      the stored salt and costs, is the one that was stored. */
  lemma VerifiesIff(core: CoreHash, password: seq<Byte>, attempt: seq<Byte>, salt: seq<Byte>, m: nat, t: nat, p: nat)
    requires m < TWO32 && t < TWO32 && p < TWO32 && Validated(password, salt, m, t, p) == None
    ensures HashPassword(core, password, salt, m, t, p).Ok?
    ensures var phc := HashPassword(core, password, salt, m, t, p).value;
            VerifyPassword(core, attempt, phc) ==
            if core(attempt, salt, m, t, p) == core(password, salt, m, t, p) then Ok(()) else Err(PasswordMismatch)
  {
    hide DecodedPhc, EncodedPhc;
    PhcRoundTrip(salt, core(password, salt, m, t, p), m, t, p);
  }
}
