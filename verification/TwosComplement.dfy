/** Two's complement at the level of numbers: an unsigned value below an even modulus `m`, read as
    a signed one. The word-level code of both widths is tied to these functions. */
module TwosComplement {
  import opened Algebra

  /** The signed reading of an unsigned value. */
  function ToSigned(m: int, u: int): (x: int) {
    if u < m - u then u else u - m
  }

  /** Wrap-around to the signed range. */
  function Wrap(m: int, x: int): (y: int)
    requires m > 0
  {
    ToSigned(m, x % m)
  }

  predicate Fits(m: int, x: int) {
    -m <= 2 * x < m
  }

  predicate IsModulus(m: int) {
    m % 2 == 0 && m >= 4
  }

  lemma WrapRange(m: int, x: int)
    requires IsModulus(m)
    ensures Fits(m, Wrap(m, x))
  {
  }

  lemma {:induction false} WrapExact(m: int, x: int)
    requires IsModulus(m)
    ensures Wrap(m, x) == x <==> Fits(m, x)
  {
    WrapRange(m, x);
    if Fits(m, x) {
      DivModUnique(x, m, if x >= 0 then 0 else -1, if x >= 0 then x else x + m);
    }
  }

  // Wrapping moves a value by a multiple of the modulus.
  lemma WrapOffset(m: int, x: int) returns (k: int)
    requires IsModulus(m)
    ensures Wrap(m, x) == x + k * m
  {
    DivMod(x, m);
    MulCommutes(m, x / m);
    k := -(x / m);
    MulNegates(x / m, m);
    if !(x % m < m - x % m) {
      k := k - 1;
      MulDistributes(-(x / m), -1, m);
    }
  }

  lemma MulNegates(a: int, b: int)
    ensures (-a) * b == -(a * b)
  {
  }

  lemma SignedOffset(m: int, u: nat) returns (e: int)
    ensures u == ToSigned(m, u) + e * m
    ensures e == 0 || e == 1
  {
    e := if u < m - u then 0 else 1;
  }

  lemma ModOffset(m: int, x: int, k: int, y: int)
    requires m > 0 && x == y + k * m
    ensures x % m == y % m
  {
    DivMod(y, m);
    MulCommutes(k, m);
    MulDistributes'(m, y / m, k);
    DivModUnique(x, m, y / m + k, y % m);
  }

  // Sum, difference and product of the unsigned readings, taken modulo m, are those of the
  // signed readings wrapped around.
  lemma AddAgrees(m: int, u: nat, v: nat)
    requires m > 0
    ensures ToSigned(m, (u + v) % m) == Wrap(m, ToSigned(m, u) + ToSigned(m, v))
  {
    var e := SignedOffset(m, u);
    var f := SignedOffset(m, v);
    MulDistributes(e, f, m);
    ModOffset(m, u + v, e + f, ToSigned(m, u) + ToSigned(m, v));
  }

  lemma SubAgrees(m: int, u: nat, v: nat)
    requires m > 0
    ensures ToSigned(m, (u - v) % m) == Wrap(m, ToSigned(m, u) - ToSigned(m, v))
  {
    var e := SignedOffset(m, u);
    var f := SignedOffset(m, v);
    MulDistributes(e, -f, m);
    MulNegates(f, m);
    ModOffset(m, u - v, e - f, ToSigned(m, u) - ToSigned(m, v));
  }

  lemma MulAgrees(m: int, u: nat, v: nat)
    requires m > 0
    ensures ToSigned(m, (u * v) % m) == Wrap(m, ToSigned(m, u) * ToSigned(m, v))
  {
    var e := SignedOffset(m, u);
    var f := SignedOffset(m, v);
    var x, y := ToSigned(m, u), ToSigned(m, v);
    OffsetProduct(m, u, v, x, y, e, f);
    ModOffset(m, u * v, x * f + e * y + e * m * f, x * y);
  }

  lemma OffsetProduct(m: int, u: int, v: int, x: int, y: int, e: int, f: int)
    requires u == x + e * m && v == y + f * m
    ensures u * v == x * y + (x * f + e * y + e * m * f) * m
  {
    MulDistributes(x, e * m, v);
    MulEqual(v, u, x + e * m);
    MulCommutes(u, v);
    MulCommutes(x + e * m, v);
    MulEqual(x, v, y + f * m);
    MulDistributes'(x, y, f * m);
    MulEqual(e * m, v, y + f * m);
    MulDistributes'(e * m, y, f * m);
    MulAssociates(x, f, m);
    MulAssociates(e * m, f, m);
    MulSwapLast(e, m, y);
    MulDistributes(x * f, e * y, m);
    MulDistributes(x * f + e * y, e * m * f, m);
  }

  lemma MulSwapLast(a: int, b: int, c: int)
    ensures a * b * c == a * c * b
  {
    MulAssociates(a, b, c);
    MulCommutes(b, c);
    MulAssociates(a, c, b);
  }

  // ---------- Truncating division ----------

  function Abs(x: int): (a: nat) {
    if x < 0 then -x else x
  }

  /** The quotient rounded toward zero, and the remainder that takes the dividend's sign. */
  function TruncDiv(a: int, b: int): (q: int)
    requires b != 0
  {
    if (a < 0) != (b < 0) then -(Abs(a) / Abs(b)) else Abs(a) / Abs(b)
  }

  function TruncMod(a: int, b: int): (r: int)
    requires b != 0
  {
    if a < 0 then -(Abs(a) % Abs(b)) else Abs(a) % Abs(b)
  }

  // What C promises of / and %: a == q * b + r, |r| < |b|, r has the sign of a, q truncates.
  lemma TruncDivMeaning(a: int, b: int)
    requires b != 0
    ensures a == TruncDiv(a, b) * b + TruncMod(a, b)
    ensures Abs(TruncMod(a, b)) < Abs(b)
    ensures TruncMod(a, b) != 0 ==> (TruncMod(a, b) < 0) == (a < 0)
  {
    DivMod(Abs(a), Abs(b));
    var q := Abs(a) / Abs(b);
    MulCommutes(Abs(b), q);
    MulNegates(q, b);
    MulNegates(b, q);
    MulCommutes(b, q);
    MulCommutes(-b, q);
    MulNegates(q, -b);
  }

  // The magnitude of a signed value, computed on its unsigned reading.
  lemma MagnitudeOf(m: int, u: int)
    requires IsModulus(m) && 0 <= u < m
    ensures ToSigned(m, u) < 0 ==> (-u) % m == Abs(ToSigned(m, u))
    ensures ToSigned(m, u) >= 0 ==> u == Abs(ToSigned(m, u))
    ensures 2 * Abs(ToSigned(m, u)) <= m
    ensures ToSigned(m, u) == 0 <==> u == 0
  {
    if ToSigned(m, u) < 0 {
      DivModUnique(-u, m, -1, m - u);
    }
  }

  // ---------- Overflow detection by dividing back ----------

  lemma ModBelow(x: nat, m: int)
    requires m > 0
    ensures x % m <= x && (x < m ==> x % m == x)
  {
    DivMod(x, m);
    if x >= m {
    } else {
      DivModUnique(x, m, 0, x);
    }
  }

  // Unsigned: the truncated product divides back exactly when nothing was truncated.
  lemma DivideBack(m: int, u: nat, v: nat)
    requires 0 < u < m && 0 < v < m
    ensures ((u * v) % m) / v == u <==> u * v < m
  {
    MulNonNegative(u, v);
    var p: nat := u * v;
    ModBelow(p, m);
    MulMultiple(u, v);
    if p >= m {
      var r := p % m;
      DivMod(r, v);
      MulCommutes(u, v);
      if r / v == u {
        assert false;
      }
    }
  }

  // Signed: the wrapped product divides back exactly when nothing was wrapped, or in the one case
  // where the division wraps as well.
  lemma SignedDivideBack(m: int, x: int, y: int)
    requires IsModulus(m) && Fits(m, x) && Fits(m, y) && x != 0 && y != 0
    ensures Wrap(m, TruncDiv(Wrap(m, x * y), y)) == x <==> Fits(m, x * y) || (2 * x == -m && y == -1)
  {
    var r := Wrap(m, x * y);
    WrapExact(m, x * y);
    WrapRange(m, x * y);
    if Fits(m, x * y) {
      ExactTrunc(x, y);
      WrapExact(m, x);
    } else if y == -1 {
      NegatedMinimum(m, x);
    } else {
      TruncDivMeaning(r, y);
      QuotientFits(m, r, y);
      WrapExact(m, TruncDiv(r, y));
      var k := WrapOffset(m, x * y);
      NoMultipleBetween(m, k, r - x * y, y);
    }
  }

  lemma ExactTrunc(x: int, y: int)
    requires y != 0
    ensures TruncDiv(x * y, y) == x
  {
    TruncDivMeaning(x * y, y);
    var q, r := TruncDiv(x * y, y), TruncMod(x * y, y);
    MulDistributes(x, -q, y);
    MulNegates(q, y);
    if x != q {
      AbsProduct(x - q, y);
      assert false;
    }
  }

  lemma AbsProduct(a: int, b: int)
    requires a != 0
    ensures Abs(a * b) >= Abs(b)
  {
    MulAtLeast(Abs(b), Abs(a));
    MulNegates(a, b);
    MulNegates(b, a);
    MulCommutes(a, b);
    MulCommutes(Abs(a), Abs(b));
    MulNegates(b, -a);
    MulCommutes(-a, -b);
  }

  lemma NegatedMinimum(m: int, x: int)
    requires IsModulus(m) && Fits(m, x) && !Fits(m, x * -1)
    ensures 2 * x == -m
    ensures Wrap(m, TruncDiv(Wrap(m, x * -1), -1)) == x
  {
    DivModUnique(-x, m, 0, -x);
    assert Wrap(m, -x) == x;
    assert TruncDiv(x, -1) == -x;
  }

  lemma QuotientFits(m: int, r: int, y: int)
    requires IsModulus(m) && Fits(m, r) && y != 0 && y != -1
    ensures Fits(m, TruncDiv(r, y))
  {
    DivShrinks(Abs(r), Abs(y));
    if 2 * Abs(r) == m && Abs(y) >= 2 {
      DivMod(Abs(r), Abs(y));
      MulMonotone(2, Abs(y), Abs(r) / Abs(y));
    }
  }

  // A multiple of m that is smaller than |y|, hence at most m / 2, is zero.
  lemma NoMultipleBetween(m: int, k: int, d: int, y: int)
    requires IsModulus(m) && d == k * m && Fits(m, y) && d != 0
    ensures Abs(d) >= Abs(y)
  {
    AbsProduct(k, m);
  }

  // A sum or difference of two signed values that leaves the range comes back with the other sign.
  lemma OverflowFlipsSign(m: int, x: int)
    requires IsModulus(m) && -m <= x < m
    ensures Fits(m, x) ==> Wrap(m, x) == x
    ensures !Fits(m, x) ==> (Wrap(m, x) < 0 <==> x >= 0)
  {
    WrapExact(m, x);
    DivModUnique(x, m, if x >= 0 then 0 else -1, if x >= 0 then x else x + m);
  }

  lemma WrapNegated(m: int, u: nat)
    requires m > 0
    ensures Wrap(m, -ToSigned(m, u)) == Wrap(m, -(u as int))
  {
    var e := SignedOffset(m, u);
    ModOffset(m, -ToSigned(m, u), e, -(u as int));
  }

  // The pair the signed check misses: the product is out of range, yet dividing it back agrees.
  lemma MinimumEscapes(m: int, x: int)
    requires IsModulus(m) && 2 * x == -m
    ensures !Fits(m, x * -1) && Wrap(m, TruncDiv(Wrap(m, x * -1), -1)) == x
  {
    SignedDivideBack(m, x, -1);
  }
}
