/** Division by a product. */
module Arithmetic {

  lemma Grows(x: nat, y: nat, m: nat)
    requires x <= y
    ensures x * m <= y * m
  {}

  lemma QuotientIs(v: nat, m: nat, q: nat, r: nat)
    requires m > 0 && v == q * m + r && r < m
    ensures v / m == q
  {
    var a := v / m;
    assert v == a * m + v % m && v % m < m;
    if a > q { Grows(q + 1, a, m); }
    if a < q { Grows(a + 1, q, m); }
  }

  lemma Scaled(k: nat, r: nat, s: nat, m: nat)
    requires r < m && s < k
    ensures k * r + s < k * m
  {
    Grows(r + 1, m, k);
  }

  /** Dividing twice is dividing by the product. */
  lemma DividesTwice(v: nat, k: nat, m: nat)
    requires k > 0 && m > 0
    ensures k * m > 0 && v / k / m == v / (k * m)
  {
    var q, r := v / k / m, v / k % m;
    assert v / k == q * m + r;
    var t := k * r + v % k;
    Scaled(k, r, v % k, m);
    Regrouped(v, k, m, q, r, v % k);
    QuotientIs(v, k * m, q, t);
  }

  lemma Regrouped(v: nat, k: nat, m: nat, q: nat, r: nat, s: nat)
    requires k > 0 && v == k * (q * m + r) + s
    ensures v == q * (k * m) + (k * r + s)
  {
    assert k * (q * m) == q * (k * m);
  }
}
