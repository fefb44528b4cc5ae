/** Small facts about products and quotients, each proved away from its uses. */
module Arith {

  lemma MulMono(a: int, b: int, c: int)
    requires a <= b && 0 <= c
    ensures a * c <= b * c
  {
  }

  lemma MulDistrib(a: int, b: int, c: int)
    ensures (a + b) * c == a * c + b * c
  {
  }

  lemma MulAssoc(a: int, b: int, c: int)
    ensures a * b * c == a * (b * c)
  {
  }

  /** Uniqueness of quotient and remainder. */
  lemma DivUnique(v: nat, d: nat, q: nat, r: nat)
    requires d > 0 && r < d && v == q * d + r
    ensures v / d == q && v % d == r
  {
    var q' := v / d;
    assert v == q' * d + v % d;
    if q < q' {
      MulMono(q + 1, q', d);
      MulDistrib(q, 1, d);
      assert false;
    } else if q' < q {
      MulMono(q' + 1, q, d);
      MulDistrib(q', 1, d);
      assert false;
    }
  }

  /** A quotient is bracketed by its product with the divisor. */
  lemma DivBounds(v: nat, d: nat)
    requires d > 0
    ensures v / d * d <= v < v / d * d + d
    ensures v == v / d * d + v % d
  {
  }

  lemma DivDiv(v: nat, a: nat, b: nat)
    requires a > 0 && b > 0
    ensures a * b > 0 && v / a / b == v / (a * b)
  {
    var q := v / a;
    var s, t := q / b, q % b;
    DivBounds(v, a);
    DivBounds(q, b);
    MulDistrib(s * b, t, a);
    MulAssoc(s, b, a);
    MulMono(t + 1, b, a);
    MulDistrib(t, 1, a);
    assert a * b == b * a;
    MulPos(a, b);
    assert v == s * (a * b) + (t * a + v % a);
    DivUnique(v, a * b, s, t * a + v % a);
  }

  lemma MulPos(a: int, b: int)
    requires a > 0 && b > 0
    ensures a * b > 0
  {
  }

  /** Splitting off the low base-`b` digit commutes with reduction modulo `b * p`. */
  lemma ModSplit(v: nat, b: nat, p: nat)
    requires b > 0 && p > 0
    ensures b * p > 0 && v % b + b * (v / b % p) == v % (b * p)
  {
    var w := v / b;
    DivBounds(v, b);
    DivBounds(w, p);
    var q, r := w / p, w % p;
    MulDistrib(q * p, r, b);
    MulAssoc(q, p, b);
    MulMono(r + 1, p, b);
    MulDistrib(r, 1, b);
    MulPos(b, p);
    assert p * b == b * p && b * r == r * b;
    assert v == q * (b * p) + (v % b + b * r);
    DivUnique(v, b * p, q, v % b + b * r);
  }

  lemma DivLe(v: nat, d: nat)
    requires d > 0
    ensures 0 <= v / d <= v
  {
    DivBounds(v, d);
    MulMono(1, d, v / d);
  }
}
