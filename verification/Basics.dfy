/** What several parts of the model share. */
module Basics {

  datatype Option<+T> = None | Some(value: T)

  function Pow2(k: nat): (n: nat)
    ensures n > 0
  {
    if k == 0 then 1 else 2 * Pow2(k - 1)
  }

  /** Dividing twice is dividing by the product. */
  lemma DivTwice(w: nat, d: nat, p: nat)
    requires d >= 1 && p >= 1
    ensures d * p >= 1 && w / d / p == w / (d * p)
  {
    var a, r := w / d, w % d;
    var q, s := a / p, a % p;
    assert w == d * a + r && a == p * q + s;
    Regrouped(d, p, q, s);
    OneMore(d, s, p);
    Quotient(d * p, q, d * s + r);
  }

  lemma Regrouped(d: nat, p: nat, q: nat, s: nat)
    ensures d * (p * q + s) == d * p * q + d * s
  {
  }

  lemma Quotient(p: nat, q: nat, s: nat)
    requires s < p
    ensures (p * q + s) / p == q
  {
    var n := p * q + s;
    var k := n / p;
    assert n == p * k + n % p;
    if k < q { OneMore(p, k, q); }
    if k > q { OneMore(p, q, k); }
  }

  lemma OneMore(p: nat, a: nat, b: nat)
    requires a < b
    ensures p * a + p <= p * b
  {
    var d := b - a - 1;
    assert p * b == p * a + p * d + p;
  }
}
