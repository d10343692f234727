/** Floor division, by its defining property: x <= a / d exactly when x * d <= a. */
module Arith {

  lemma MulMono(a: int, b: int, d: int)
    requires a <= b && d >= 0
    ensures a * d <= b * d
  {
    assert (b - a) * d >= 0;
  }

  lemma FloorIff(a: int, d: int, x: int)
    requires d > 0
    ensures x <= a / d <==> x * d <= a
  {
    assert a == a / d * d + a % d;
    if x <= a / d {
      MulMono(x, a / d, d);
    } else {
      MulMono(a / d + 1, x, d);
      assert (a / d + 1) * d == a / d * d + d;
    }
  }

  lemma DivMono(a: int, b: int, d: int)
    requires d > 0 && a <= b
    ensures a / d <= b / d
  {
    FloorIff(a, d, a / d);
    FloorIff(b, d, a / d);
  }

  lemma DivShift(a: int, k: int, d: int)
    requires d > 0
    ensures (a + k * d) / d == a / d + k
  {
    var x := a / d + k;
    FloorIff(a, d, a / d);
    FloorIff(a, d, a / d + 1);
    assert x * d == a / d * d + k * d;
    assert (x + 1) * d == (a / d + 1) * d + k * d;
    FloorIff(a + k * d, d, x);
    FloorIff(a + k * d, d, x + 1);
  }

  /** Nested floor division is one division by the product. */
  lemma DivDiv(a: int, b: int, c: int)
    requires b > 0 && c > 0
    ensures b * c > 0 && a / b / c == a / (b * c)
  {
    MulMono(1, b, c);
    var x, y := a / b / c, a / (b * c);
    DivDivAt(a, b, c, x);
    DivDivAt(a, b, c, y);
  }

  lemma DivDivAt(a: int, b: int, c: int, x: int)
    requires b > 0 && c > 0 && b * c > 0
    ensures x <= a / b / c <==> x <= a / (b * c)
  {
    FloorIff(a / b, c, x);
    FloorIff(a, b, x * c);
    FloorIff(a, b * c, x);
    assert x * c * b == x * (b * c);
  }

  /** Scaling numerator and denominator by a positive factor does not change the quotient. */
  lemma DivScale(a: int, d: int, k: int)
    requires d > 0 && k > 0
    ensures d * k > 0 && (a * k) / (d * k) == a / d
  {
    MulMono(1, d, k);
    DivScaleAt(a, d, k, a / d);
    DivScaleAt(a, d, k, (a * k) / (d * k));
  }

  lemma DivScaleAt(a: int, d: int, k: int, x: int)
    requires d > 0 && k > 0 && d * k > 0
    ensures x <= (a * k) / (d * k) <==> x <= a / d
  {
    FloorIff(a * k, d * k, x);
    FloorIff(a, d, x);
    assert x * (d * k) == x * d * k;
    if x * d <= a {
      MulMono(x * d, a, k);
    } else {
      MulMono(a + 1, x * d, k);
      assert (a + 1) * k == a * k + k;
    }
  }

  /** Equal ratios give equal quotients. */
  lemma SameRatio(a: int, n: int, d: int, n': int, d': int)
    requires d > 0 && d' > 0 && n * d' == n' * d
    ensures a * n / d == a * n' / d'
  {
    DivScale(a * n, d, d');
    DivScale(a * n', d', d);
    assert a * n * d' == a * (n * d') == a * (n' * d) == a * n' * d;
    assert d * d' == d' * d;
  }

  /** The ceiling of a / d. */
  function CeilDiv(a: int, d: int): int
    requires d > 0
  {
    (a + d - 1) / d
  }

  /** Adding b to the numerator raises the quotient by at most the ceiling of b / d. */
  lemma DivAdds(a: int, b: int, d: int)
    requires d > 0 && b >= 0
    ensures a / d <= (a + b) / d <= a / d + CeilDiv(b, d)
  {
    DivMono(a, a + b, d);
    var k := CeilDiv(b, d);
    FloorIff(b + d - 1, d, k + 1);
    assert (k + 1) * d == k * d + d;
    assert b <= k * d;
    DivMono(a + b, a + k * d, d);
    DivShift(a, k, d);
  }
}
