/** Facts about integer division the solver needs spelled out. */
module Arithmetic {

  lemma MulMonotone(a: int, b: int, c: int)
    requires a <= b && c >= 0
    ensures a * c <= b * c
  {
  }

  /** The quotient is the largest integer whose multiple does not exceed the dividend. */
  lemma FloorIsLargest(q: int, n: int, d: int)
    requires d > 0
    ensures q <= n / d <==> q * d <= n
  {
    var floor := n / d;
    assert floor * d <= n < floor * d + d;
    if q <= floor {
      MulMonotone(q, floor, d);
    } else {
      MulMonotone(floor + 1, q, d);
    }
  }

  lemma DivUnique(q: int, n: int, d: int)
    requires d > 0 && q * d <= n < q * d + d
    ensures n / d == q
  {
    FloorIsLargest(q, n, d);
    FloorIsLargest(q + 1, n, d);
  }
}
