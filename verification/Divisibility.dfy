/** Divisibility of integers. */
module Divisibility {
  import opened Arithmetic
  import opened Limbs

  predicate Divides(d: int, x: int)
  {
    d > 0 && x % d == 0
  }

  lemma Factor(d: int, x: int, k: int)
    requires d > 0 && x == d * k
    ensures Divides(d, x)
  {
    DivUnique(x, d, k, 0);
  }

  lemma Combination(d: int, x: int, y: int, k: int)
    requires Divides(d, x) && Divides(d, y)
    ensures Divides(d, x + k * y)
  {
    var i, j := x / d, y / d;
    assert x == d * i && y == d * j;
    assert d * (i + k * j) == d * i + k * (d * j);
    Factor(d, x + k * y, i + k * j);
  }

  /** An odd divisor of an even number divides its half. */
  lemma HalfDivides(d: int, h: int)
    requires Divides(d, 2 * h) && d % 2 == 1
    ensures Divides(d, h)
  {
    var k, c := 2 * h / d, d / 2;
    assert d == 2 * c + 1 && 2 * h == d * k;
    assert d * k == 2 * (c * k) + k;
    var j := h - c * k;
    assert k == 2 * j;
    assert d * (2 * j) == 2 * (d * j);
    Factor(d, h, j);
  }

  lemma OddDivisor(d: int, x: int)
    requires Divides(d, x) && x % 2 == 1
    ensures d % 2 == 1
  {
    var k, c := x / d, d / 2;
    assert x == d * k == 2 * (c * k) + d % 2 * k;
  }

  lemma DividesSelf(n: int)
    requires n > 0
    ensures Divides(n, n)
  {
    Factor(n, n, 1);
  }

  lemma Quotient(d: int, x: int)
    requires Divides(d, x)
    ensures x == d * (x / d)
  {
  }

  lemma DividesOne(g: int)
    requires Divides(g, 1)
    ensures g == 1
  {
    if g > 1 {
      DivUnique(1, g, 0, 1);
    }
  }
}
