/** Facts about products, quotients and remainders that the solver needs spelled out. */
module Arithmetic {

  lemma MulMono(x: int, y: int, p: int)
    requires x <= y && 0 <= p
    ensures x * p <= y * p
  {
    assert (y - x) * p >= 0;
  }

  lemma MulLess(x: int, y: int, p: int)
    requires x * p < y * p && 0 < p
    ensures x < y
  {
    if y <= x { MulMono(y, x, p); }
  }

  lemma DivModUnique(a: int, b: int, q: int, r: int)
    requires b > 0 && 0 <= r < b && a == q * b + r
    ensures a / b == q && a % b == r
  {
    var q', r' := a / b, a % b;
    assert a == q' * b + r';
    assert (q' - q) * b == r - r';
    if q' > q { MulMono(1, q' - q, b); }
    if q' < q { MulMono(q' - q, -1, b); }
  }

  lemma Split(a: int, b: int) returns (q: int, r: int)
    requires 0 <= a && 0 < b
    ensures q == a / b && r == a % b && a == q * b + r && 0 <= r < b && 0 <= q
  {
    q, r := a / b, a % b;
    MulLess(-1, q, b);
  }

  lemma DivModShift(a: nat, i: nat, size: nat)
    requires size > 0
    ensures (a * size + i) / size == a + i / size && (a * size + i) % size == i % size
  {
    var q, r := Split(i, size);
    assert (a + q) * size == a * size + q * size;
    DivModUnique(a * size + i, size, a + q, r);
  }

  lemma DivBound(i: nat, n: nat, size: nat)
    requires size > 0 && i < n * size
    ensures i / size < n
  {
    var q, r := Split(i, size);
    MulLess(q, n, size);
  }
}
