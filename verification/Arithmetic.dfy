/** Facts about division and concatenation that the other modules share. */
module Arithmetic {
  lemma AtLeast(d: nat, e: nat)
    requires d >= 1
    ensures d * e >= e
  {
    assert d * e == e + (d - 1) * e;
  }

  lemma MulMonotone(b: nat, x: nat, y: nat)
    requires x <= y
    ensures b * x <= b * y
  {
  }

  lemma DivModIs(x: nat, q: nat, r: nat, e: nat)
    requires e > 0 && r < e && x == q * e + r
    ensures x / e == q && x % e == r
  {
    var q', r' := x / e, x % e;
    assert q' * e + r' == q * e + r;
    if q' > q {
      AtLeast(q' - q, e);
    } else if q > q' {
      AtLeast(q - q', e);
    }
  }

  lemma Regroup<T>(a: seq<T>, b: seq<T>, c: seq<T>)
    ensures a + (b + c) == a + b + c
  {
  }
}
