/** The field of GHASH: polynomials over GF(2) modulo x^128 + x^7 + x^2 + x + 1, as
    bit strings whose bit `i` is the coefficient of x^i (sections 6.3 and 6.4 of
    NIST SP 800-38D). */
module GaloisField {

  const N: nat := 128

  type Poly = s: seq<bool> | |s| == 128 witness seq(128, i => false)

  function Zero(): Poly
  {
    seq(128, i => false)
  }

  /** The monomial x^k. */
  function Monomial(k: nat): Poly
  {
    seq(128, i => i == k)
  }

  function Add(a: Poly, b: Poly): Poly
  {
    seq(128, i requires 0 <= i < 128 => a[i] != b[i])
  }

  /** Multiplication by x: every coefficient moves up one power, and x^128 is
      x^7 + x^2 + x + 1. */
  function TimesX(v: Poly): Poly
  {
    seq(128, i requires 0 <= i < 128 => (i > 0 && v[i - 1]) != (v[127] && i in {0, 1, 2, 7}))
  }

  function If(c: bool, v: Poly): Poly
  {
    if c then v else Zero()
  }

  /** The sum of y_k * x^(k - i) * v over the powers k from `i` on. */
  function From(v: Poly, y: Poly, i: nat): Poly
    requires i <= N
    decreases N - i
  {
    if i == N then Zero() else Add(If(y[i], v), From(TimesX(v), y, i + 1))
  }

  function Mul(x: Poly, y: Poly): Poly
  {
    From(x, y, 0)
  }

  // -------------------------------------------------------------------- addition

  lemma AddLaws(a: Poly, b: Poly, c: Poly)
    ensures Add(a, b) == Add(b, a) && Add(Add(a, b), c) == Add(a, Add(b, c))
    ensures Add(a, Zero()) == a && Add(Zero(), a) == a && Add(a, a) == Zero()
  {
    assert forall i :: 0 <= i < 128 ==> Add(Add(a, b), c)[i] == Add(a, Add(b, c))[i];
  }

  /** Four terms regrouped. */
  lemma AddSwap(a: Poly, b: Poly, c: Poly, d: Poly)
    ensures Add(Add(a, b), Add(c, d)) == Add(Add(a, c), Add(b, d))
  {
    assert forall i :: 0 <= i < 128 ==> Add(Add(a, b), Add(c, d))[i] == Add(Add(a, c), Add(b, d))[i];
  }

  lemma TimesXLinear(a: Poly, b: Poly)
    ensures TimesX(Add(a, b)) == Add(TimesX(a), TimesX(b)) && TimesX(Zero()) == Zero()
  {
    assert forall i :: 0 <= i < 128 ==> TimesX(Add(a, b))[i] == Add(TimesX(a), TimesX(b))[i];
  }

  lemma IfLinear(c: bool, a: Poly, b: Poly)
    ensures If(c, Add(a, b)) == Add(If(c, a), If(c, b)) && TimesX(If(c, a)) == If(c, TimesX(a))
  {
    AddLaws(Zero(), Zero(), Zero());
    TimesXLinear(a, b);
  }

  // ------------------------------------------------------------------- the product

  lemma {:induction false} FromLinear(a: Poly, b: Poly, y: Poly, i: nat)
    requires i <= N
    ensures From(Add(a, b), y, i) == Add(From(a, y, i), From(b, y, i))
    decreases N - i
  {
    hide Add, TimesX, If;
    if i == N {
      AddLaws(Zero(), Zero(), Zero());
    } else {
      IfLinear(y[i], a, b);
      TimesXLinear(a, b);
      FromLinear(TimesX(a), TimesX(b), y, i + 1);
      AddSwap(If(y[i], a), If(y[i], b), From(TimesX(a), y, i + 1), From(TimesX(b), y, i + 1));
    }
  }

  lemma {:induction false} FromZero(y: Poly, i: nat)
    requires i <= N
    ensures From(Zero(), y, i) == Zero()
    decreases N - i
  {
    hide Add, TimesX;
    if i < N {
      TimesXLinear(Zero(), Zero());
      FromZero(y, i + 1);
      AddLaws(Zero(), Zero(), Zero());
    }
  }

  lemma {:induction false} TimesXThrough(v: Poly, y: Poly, i: nat)
    requires i <= N
    ensures TimesX(From(v, y, i)) == From(TimesX(v), y, i)
    decreases N - i
  {
    hide Add, TimesX, If;
    if i == N {
      TimesXLinear(Zero(), Zero());
    } else {
      TimesXLinear(If(y[i], v), From(TimesX(v), y, i + 1));
      IfLinear(y[i], v, v);
      TimesXThrough(TimesX(v), y, i + 1);
    }
  }

  /** Multiplying by `y` and multiplying by `z` commute. */
  lemma {:induction false} FromCommutes(v: Poly, y: Poly, i: nat, z: Poly)
    requires i <= N
    ensures From(From(v, y, i), z, 0) == From(From(v, z, 0), y, i)
    decreases N - i
  {
    hide Add, TimesX, If;
    if i == N {
      FromZero(z, 0);
    } else {
      var w := From(v, z, 0);
      FromLinear(If(y[i], v), From(TimesX(v), y, i + 1), z, 0);
      FromIf(y[i], v, z);
      FromCommutes(TimesX(v), y, i + 1, z);
      TimesXThrough(v, z, 0);
    }
  }

  lemma FromIf(c: bool, v: Poly, z: Poly)
    ensures From(If(c, v), z, 0) == If(c, From(v, z, 0))
  {
    if !c { FromZero(z, 0); }
  }

  function DropLow(y: Poly, i: nat): Poly
  {
    seq(128, k requires 0 <= k < 128 => k >= i && y[k])
  }

  lemma {:induction false} FromMonomial(y: Poly, i: nat)
    requires i < N
    ensures From(Monomial(i), y, i) == DropLow(y, i)
    decreases N - i
  {
    hide From;
    if i == N - 1 {
      FromLast(Monomial(i), y);
    } else {
      FromStep(Monomial(i), y, i);
      assert TimesX(Monomial(i)) == Monomial(i + 1);
      FromMonomial(y, i + 1);
      assert Add(If(y[i], Monomial(i)), DropLow(y, i + 1)) == DropLow(y, i);
    }
  }

  lemma FromStep(v: Poly, y: Poly, i: nat)
    requires i < N
    ensures From(v, y, i) == Add(If(y[i], v), From(TimesX(v), y, i + 1))
  {
  }

  lemma FromLast(v: Poly, y: Poly)
    ensures From(v, y, N - 1) == If(y[N - 1], v)
  {
    hide Add, TimesX;
    AddLaws(If(y[N - 1], v), Zero(), Zero());
  }

  lemma MulUnit(y: Poly)
    ensures Mul(Monomial(0), y) == y
  {
    FromMonomial(y, 0);
    assert DropLow(y, 0) == y;
  }

  lemma MulCommutes(x: Poly, y: Poly)
    ensures Mul(x, y) == Mul(y, x)
  {
    hide From, Monomial;
    MulUnit(x);
    MulUnit(y);
    FromCommutes(Monomial(0), x, 0, y);
  }

  lemma MulAssociates(x: Poly, y: Poly, z: Poly)
    ensures Mul(Mul(x, y), z) == Mul(x, Mul(y, z))
  {
    hide From;
    FromCommutes(y, x, 0, z);
    MulCommutes(x, y);
    MulCommutes(x, Mul(y, z));
  }

  lemma MulDistributes(a: Poly, b: Poly, y: Poly)
    ensures Mul(Add(a, b), y) == Add(Mul(a, y), Mul(b, y))
    ensures Mul(y, Add(a, b)) == Add(Mul(y, a), Mul(y, b))
  {
    hide From, Add;
    FromLinear(a, b, y, 0);
    MulCommutes(Add(a, b), y);
    MulCommutes(a, y);
    MulCommutes(b, y);
  }

  /** The product is the one of the quotient ring: commutative, associative, bilinear,
      with unit x^0, and x acts as the shift with reduction. */
  lemma RingLaws(a: Poly, b: Poly, c: Poly)
    ensures Mul(a, b) == Mul(b, a)
    ensures Mul(Mul(a, b), c) == Mul(a, Mul(b, c))
    ensures Mul(a, Add(b, c)) == Add(Mul(a, b), Mul(a, c))
    ensures Mul(a, Monomial(0)) == a
    ensures Mul(a, Monomial(1)) == TimesX(a)
  {
    hide From, Add, TimesX;
    MulCommutes(a, b);
    MulAssociates(a, b, c);
    MulDistributes(b, c, a);
    MulUnit(a);
    MulCommutes(a, Monomial(0));
    MulCommutes(a, Monomial(1));
    TimesXThrough(Monomial(0), a, 0);
    assert TimesX(Monomial(0)) == Monomial(1) by { FirstShift(); }
  }

  lemma FirstShift()
    ensures TimesX(Monomial(0)) == Monomial(1)
  {
  }

  /** x^128 is x^7 + x^2 + x + 1. */
  lemma Reduction()
    ensures Mul(Monomial(127), Monomial(1)) ==
            Add(Add(Monomial(7), Monomial(2)), Add(Monomial(1), Monomial(0)))
  {
    hide Mul;
    RingLaws(Monomial(127), Monomial(0), Monomial(0));
    assert TimesX(Monomial(127)) == Add(Add(Monomial(7), Monomial(2)), Add(Monomial(1), Monomial(0)));
  }

  // ------------------------------------------------------------------------ GHASH

  function Pow(h: Poly, n: nat): Poly
  {
    if n == 0 then Monomial(0) else Mul(h, Pow(h, n - 1))
  }

  /** The hash as it is computed, block by block, from the state `y`. */
  function Ghash(h: Poly, xs: seq<Poly>, y: Poly): Poly
    decreases |xs|
  {
    if xs == [] then y else Ghash(h, xs[1..], Mul(Add(y, xs[0]), h))
  }

  /** The polynomial with coefficients `xs` at `h`: X1 * H^m + ... + Xm * H. */
  function Eval(h: Poly, xs: seq<Poly>): Poly
  {
    if xs == [] then Zero() else Add(Mul(xs[0], Pow(h, |xs|)), Eval(h, xs[1..]))
  }

  /** GHASH evaluates that polynomial. */
  lemma {:induction false} GhashEvaluates(h: Poly, xs: seq<Poly>, y: Poly)
    ensures Ghash(h, xs, y) == Add(Mul(y, Pow(h, |xs|)), Eval(h, xs))
    decreases |xs|
  {
    hide Mul, Add, Monomial;
    if xs == [] {
      RingLaws(y, y, y);
      AddLaws(y, y, y);
    } else {
      var z := Mul(Add(y, xs[0]), h);
      var p := Pow(h, |xs| - 1);
      GhashEvaluates(h, xs[1..], z);
      MulAssociates(Add(y, xs[0]), h, p);
      MulDistributes(y, xs[0], Pow(h, |xs|));
      AddLaws(Mul(y, Pow(h, |xs|)), Mul(xs[0], Pow(h, |xs|)), Eval(h, xs[1..]));
    }
  }

  function AddAll(xs: seq<Poly>, ys: seq<Poly>): (r: seq<Poly>)
    requires |xs| == |ys|
    ensures |r| == |xs|
  {
    if xs == [] then [] else [Add(xs[0], ys[0])] + AddAll(xs[1..], ys[1..])
  }

  lemma {:induction false} EvalLinear(h: Poly, xs: seq<Poly>, ys: seq<Poly>)
    requires |xs| == |ys|
    ensures Eval(h, AddAll(xs, ys)) == Add(Eval(h, xs), Eval(h, ys))
  {
    hide Mul, Add, Pow, Zero;
    if xs == [] {
      AddLaws(Zero(), Zero(), Zero());
    } else {
      var p := Pow(h, |xs|);
      EvalLinear(h, xs[1..], ys[1..]);
      assert AddAll(xs, ys)[1..] == AddAll(xs[1..], ys[1..]);
      MulDistributes(xs[0], ys[0], p);
      AddSwap(Mul(xs[0], p), Mul(ys[0], p), Eval(h, xs[1..]), Eval(h, ys[1..]));
    }
  }

  /** XOR-linearity: the hash of a block-wise sum is the sum of the hashes. */
  lemma GhashLinear(h: Poly, xs: seq<Poly>, ys: seq<Poly>, y: Poly, z: Poly)
    requires |xs| == |ys|
    ensures Ghash(h, AddAll(xs, ys), Add(y, z)) == Add(Ghash(h, xs, y), Ghash(h, ys, z))
  {
    hide Mul, Add, Pow, Eval, Ghash, AddAll;
    var p := Pow(h, |xs|);
    GhashEvaluates(h, xs, y);
    GhashEvaluates(h, ys, z);
    GhashEvaluates(h, AddAll(xs, ys), Add(y, z));
    EvalLinear(h, xs, ys);
    MulDistributes(y, z, p);
    AddSwap(Mul(y, p), Mul(z, p), Eval(h, xs), Eval(h, ys));
  }
}
