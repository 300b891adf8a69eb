/** Facts about division that the models of 32-bit and byte arithmetic share. */
module Arithmetic {
  lemma MulGap(a: nat, b: nat, d: nat)
    requires a < b
    ensures a * d + d <= b * d
  {
    var e := b - a - 1;
    assert b * d == (a + 1 + e) * d == a * d + d + e * d;
  }

  /** Quotient and remainder are unique. */
  lemma DivModUnique(x: nat, d: nat, q: nat, r: nat)
    requires d > 0 && x == q * d + r && r < d
    ensures x / d == q && x % d == r
  {
    var p, s := x / d, x % d;
    assert x == p * d + s && s < d;
    if p < q {
      MulGap(p, q, d);
    } else if p > q {
      MulGap(q, p, d);
    }
  }

  lemma Regroup(p: nat, v: nat, b: nat, w: nat)
    ensures (p * v + b) * w == p * (w * v) + b * w
  {
    assert (p * v + b) * w == (p * v) * w + b * w;
    assert (p * v) * w == p * (v * w);
    assert v * w == w * v;
  }

  lemma ScaledRemainder(b: nat, r: nat, w: nat, v: nat)
    requires b < v && r < w
    ensures b * w + r < w * v
  {
    MulGap(b, v, w);
    assert v * w == w * v;
  }

  lemma DivModIs(x: nat, d: nat)
    requires d > 0
    ensures x == x / d * d + x % d && x % d < d
  {
  }

  /** Dividing twice, and the remainder in two digits. */
  lemma Nested(x: nat, w: nat, v: nat)
    requires w > 0 && v > 0
    ensures w * v > 0
    ensures x / w / v == x / (w * v) && x % (w * v) == x / w % v * w + x % w
  {
    var q, r := x / w, x % w;
    var p, b := q / v, q % v;
    DivModIs(x, w);
    DivModIs(q, v);
    NestedParts(x, w, v, p, b, r);
  }

  lemma NestedParts(x: nat, w: nat, v: nat, p: nat, b: nat, r: nat)
    requires w > 0 && v > 0 && b < v && r < w && x == (p * v + b) * w + r
    ensures w * v > 0
    ensures x / (w * v) == p && x % (w * v) == b * w + r
  {
    Regroup(p, v, b, w);
    ScaledRemainder(b, r, w, v);
    DivModUnique(x, w * v, p, b * w + r);
  }
}
