/** The number-level step of binary long division, shared by the 128- and 256-bit loops. */
module LongDivision {
  import opened Algebra
  import opened Bits

  /** With the top bits of the dividend (`dividend` / 2^i) processed, `q` and `r` divide them. */
  ghost predicate Divides(dividend: nat, divisor: nat, i: nat, q: nat, r: nat) {
    dividend / Pow2(i) == q * divisor + r && r < divisor
  }

  function NextBit(dividend: nat, i: nat): (b: nat) {
    (dividend / Pow2(i)) % 2
  }

  // Bringing down one bit: the doubled remainder, less the divisor if that fits.
  lemma BringDown(dividend: nat, divisor: nat, i: nat, q: nat, r: nat)
    requires Divides(dividend, divisor, i + 1, q, r)
    ensures var shifted := 2 * r + NextBit(dividend, i);
            if shifted >= divisor then Divides(dividend, divisor, i, 2 * q + 1, shifted - divisor)
            else Divides(dividend, divisor, i, 2 * q, shifted)
  {
    Halving(dividend, i);
    DoubleProduct(q, divisor);
  }

  lemma Halving(x: nat, i: nat)
    ensures x / Pow2(i) == 2 * (x / Pow2(i + 1)) + NextBit(x, i)
  {
    assert Pow2(i + 1) == 2 * Pow2(i);
    MulCommutes(Pow2(i), 2);
    DivDiv(x, Pow2(i), 2);
    DivShrinks(x, Pow2(i));
  }

  lemma DoubleProduct(q: int, d: int)
    ensures (2 * q) * d == 2 * (q * d) && (2 * q + 1) * d == 2 * (q * d) + d
  {
    MulAssociates(2, q, d);
    MulDistributes(2 * q, 1, d);
  }

  // The partial remainder never exceeds the processed bits, so doubling it loses no bit.
  lemma NoBitLost(dividend: nat, divisor: nat, i: nat, q: nat, r: nat, width: nat)
    requires Divides(dividend, divisor, i + 1, q, r) && dividend < Pow2(width) && i < width
    ensures r <= dividend / Pow2(i + 1)
    ensures 2 * r + NextBit(dividend, i) < Pow2(width)
  {
    MulNonNegative(q, divisor);
    Halving(dividend, i);
    DivShrinks(dividend, Pow2(i));
  }

  // With every bit processed, quotient and remainder are those of the whole division.
  lemma DivisionEnds(dividend: nat, divisor: nat, q: nat, r: nat, quotient: nat)
    requires Divides(dividend, divisor, 0, q, r) && quotient == q * Pow2(0)
    ensures quotient == dividend / divisor && r == dividend % divisor
  {
    MulCommutes(q, divisor);
    DivModUnique(dividend, 1, dividend, 0);
    DivModUnique(dividend, divisor, q, r);
  }

  lemma ShiftQuotient(q: nat, i: nat)
    ensures q * Pow2(i + 1) == (2 * q) * Pow2(i)
    ensures q * Pow2(i + 1) + Pow2(i) == (2 * q + 1) * Pow2(i)
  {
    MulCross(q, 2, Pow2(i));
    MulAssociates(2, q, Pow2(i));
    MulDistributes(2 * q, 1, Pow2(i));
  }
}
