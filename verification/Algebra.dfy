/** Facts of non-linear integer arithmetic, each small enough for the solver to find. */
module Algebra {
  lemma MulDistributes(a: int, b: int, c: int)
    ensures (a + b) * c == a * c + b * c
  {
  }

  lemma MulRotate(c: int, q: int, p: int)
    ensures c * q * p == (p * c) * q
  {
  }

  lemma MulLess(r: nat, c: nat, p: nat)
    requires r < c && p > 0
    ensures r * p < p * c
  {
    assert (r + 1) * p <= c * p;
  }

  lemma MulMonotone(a: nat, b: nat, c: nat)
    requires a <= b
    ensures a * c <= b * c
  {
  }

  lemma MulMultiple(r: nat, p: nat)
    requires p > 0
    ensures (r * p) % p == 0 && (r * p) / p == r
  {
    DivModUnique(r * p, p, r, 0);
  }

  lemma MulAssociates(a: int, b: int, c: int)
    ensures a * (b * c) == (a * b) * c
  {
  }

  lemma MulDistributes'(c: int, a: int, b: int)
    ensures c * (a + b) == c * a + c * b
  {
  }

  lemma MulCross(x: int, a: int, b: int)
    ensures x * (a * b) == a * (x * b)
  {
  }

  lemma MulEqual(a: int, b: int, c: int)
    requires b == c
    ensures a * b == a * c
  {
  }

  lemma MulDifference(c: int, a: int, b: int, d: int)
    requires a - b == d
    ensures c * a == c * b + c * d
  {
    MulEqual(c, a, b + d);
    MulDistributes'(c, b, d);
  }

  lemma MulCommutes(a: int, b: int)
    ensures a * b == b * a
  {
  }

  lemma DivMod(x: int, d: int)
    requires d > 0
    ensures x == d * (x / d) + x % d && 0 <= x % d < d
  {
  }

  lemma Shrink(x: nat, d: nat, q: int, r: nat)
    requires d > 0 && x == d * q + r && r < d
    ensures 0 <= q <= x
  {
    if q > 0 { Grow(d, q); } else if q < 0 { Grow(d, -q); assert d * q == -(d * (-q)); MulAtLeast(d, -q); }
  }

  lemma Grow(d: nat, q: nat)
    requires d > 0
    ensures d * q >= q
  {
  }

  lemma DivShrinks(x: nat, d: nat)
    requires d > 0
    ensures 0 <= x / d <= x
  {
    DivMod(x, d);
    Shrink(x, d, x / d, x % d);
  }

  lemma DivDiv(x: int, a: nat, b: nat)
    requires a > 0 && b > 0
    ensures a * b > 0 && x / (a * b) == (x / a) / b
  {
    var q, r := x / a, x % a;
    var q', r' := q / b, q % b;
    DivMod(x, a);
    DivMod(q, b);
    DivDivParts(x, a, b, q, r, q', r');
    DivModUnique(x, a * b, q', a * r' + r);
  }

  lemma DivDivParts(x: int, a: nat, b: nat, q: int, r: nat, q': int, r': nat)
    requires x == a * q + r && r < a && q == b * q' + r' && r' < b
    ensures x == (a * b) * q' + (a * r' + r) && 0 <= a * r' + r < a * b
  {
    MulEqual(a, q, b * q' + r');
    MulDistributes'(a, b * q', r');
    MulAssociates(a, b, q');
    MulMonotone(r' + 1, b, a);
    MulDistributes(r', 1, a);
    MulCommutes(a, r');
    MulCommutes(a, b);
  }

  lemma DivOffset(x: nat, k: nat, c: nat)
    requires c > 0
    ensures (x + k * c) / c == x / c + k && (x + k * c) % c == x % c
  {
    DivMod(x, c);
    MulDistributes'(c, x / c, k);
    MulCommutes(k, c);
    DivModUnique(x + k * c, c, x / c + k, x % c);
  }

  lemma MulRegroup(p: int, c: int, high: int)
    ensures (p * (2 * c)) * high == (2 * (c * high)) * p
  {
    MulAssociates(2 * c, high, p);
    MulAssociates(2, c, high);
    MulCommutes(p, 2 * c);
    MulAssociates(2 * c, p, high);
    MulCommutes(p, high);
  }

  lemma EvenOffset(a: nat, b: nat)
    ensures (a + 2 * b) % 2 == a % 2
  {
  }

  lemma DivModUnique(x: int, d: int, q: int, r: int)
    requires d > 0 && 0 <= r < d && x == d * q + r
    ensures x / d == q && x % d == r
  {
    QuotientUnique(d, q, r, x / d, x % d);
  }

  lemma QuotientUnique(d: int, q: int, r: int, q': int, r': int)
    requires 0 <= r < d && 0 <= r' < d && d * q + r == d * q' + r'
    ensures q == q' && r == r'
  {
    assert d * (q - q') == r' - r;
    if q > q' {
      MulAtLeast(d, q - q');
    } else if q < q' {
      assert d * (q' - q) == r - r';
      MulAtLeast(d, q' - q);
    }
  }

  lemma MulAtLeast(d: int, n: int)
    requires d >= 0 && n >= 1
    ensures d * n >= d
  {
  }

  lemma MulNonNegative(a: nat, b: nat)
    ensures a * b >= 0
  {
  }

  lemma HalfDivides(x: nat, p: nat)
    requires p > 0 && x % (2 * p) == 0
    ensures x % p == 0
  {
    DivMod(x, 2 * p);
    var k := x / (2 * p);
    MulRotate(2, p, k);
    MulAssociates(p, 2, k);
    DivModUnique(x, p, 2 * k, 0);
  }

  lemma NoWrapBelow(m: int, u: int)
    requires 0 <= u < m
    ensures u % m == u
  {
    DivModUnique(u, m, 0, u);
  }

  lemma ZeroProduct(x: int, y: int)
    requires x == 0 || y == 0
    ensures x * y == 0
  {
  }

  lemma MulZero(x: int)
    ensures x * 0 == 0
  {
  }

  lemma WrappedSum(m: int, a: int, b: int)
    requires 0 <= a < m && 0 <= b < m
    ensures (a + b) % m == if a + b < m then a + b else a + b - m
  {
    DivModUnique(a + b, m, if a + b < m then 0 else 1, if a + b < m then a + b else a + b - m);
  }
}
