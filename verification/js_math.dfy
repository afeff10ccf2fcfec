/** JavaScript's `Math.ceil(a / b)` on whole numbers, for a positive divisor. */
module JsMath {

  /** The least whole number at or above a / b: it satisfies (r - 1) * b < a <= r * b. */
  function CeilDiv(a: int, b: int): (r: int)
    requires b > 0
    ensures (r - 1) * b < a <= r * b
  {
    var q := (-a) / b;
    assert -a == b * q + (-a) % b;
    -q
  }

  /** Only one whole number lies in that range, so CeilDiv is the ceiling. */
  lemma CeilDivUnique(a: int, b: int, r: int)
    requires b > 0 && (r - 1) * b < a <= r * b
    ensures r == CeilDiv(a, b)
  {
    var c := CeilDiv(a, b);
    if r < c {
      assert r * b <= (c - 1) * b by { MulMonotone(r, c - 1, b); }
    } else if r > c {
      assert c * b <= (r - 1) * b by { MulMonotone(c, r - 1, b); }
    }
  }

  lemma MulMonotone(x: int, y: int, b: int)
    requires x <= y && b > 0
    ensures x * b <= y * b
  {
    assert y * b - x * b == (y - x) * b;
  }
}
