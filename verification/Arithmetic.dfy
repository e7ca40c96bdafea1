/** Division facts shared by the modules that work with bytes and words. */
module Arithmetic {

  /** Quotient and remainder are unique. */
  lemma DivisionUnique(d: nat, q: int, r: nat)
    requires r < d
    ensures (d * q + r) / d == q && (d * q + r) % d == r
  {
    var x := d * q + r;
    var e := q - x / d;
    assert d * e == x % d - r;
    if e != 0 {
      MultipleApart(d, e);
    }
  }

  lemma MultipleApart(d: nat, e: int)
    requires e != 0
    ensures d * e >= d || d * e + d <= 0
  {
    if e >= 1 {
      ProductNonNegative(d, e - 1);
      assert d * e == d + d * (e - 1);
    } else {
      ProductNonNegative(d, -1 - e);
      assert d * e + d == -(d * (-1 - e));
    }
  }

  lemma ProductNonNegative(a: nat, b: nat)
    ensures a * b >= 0
  {
  }

  /** Reducing modulo a multiple first changes nothing. */
  lemma ModNested(x: int, d: nat, e: nat)
    requires d > 0 && e > 0
    ensures x % (d * e) % d == x % d
  {
    var q, r := x / (d * e), x % (d * e);
    assert x == d * e * q + r && r == d * (r / d) + r % d;
    assert d * (e * q) == d * e * q;
    assert x == d * (e * q + r / d) + r % d;
    DivisionUnique(d, e * q + r / d, r % d);
  }
}
