/** 128-bit integers as a low and a high word: the expressions of bigint.h, shown to be exact
    arithmetic modulo 2^128, and binary long division. */
module Wide128 {
  import opened Algebra
  import opened Bits
  import opened Words
  import opened HalfProducts
  import opened LongDivision
  import opened TwosComplement
  import opened Outcomes

  const M128 := B * B

  type Int64 = x: int | -0x8000_0000_0000_0000 <= x < 0x8000_0000_0000_0000

  datatype U128 = U128(low: Word, high: Word)

  datatype I128 = I128(low: Word, high: Int64)

  function Nat(x: U128): (n: nat) { x.low + B * x.high }

  function Int(x: I128): (n: int) { x.low + B * x.high }

  // (uint64_t)x and (int64_t)x
  function ToUnsigned64(x: Int64): (w: Word) { if x < 0 then x + B else x }

  function ToSigned64(w: Word): (x: Int64) { if w < 0x8000_0000_0000_0000 then w else w - B }

  function FromI128(x: I128): U128 { U128(x.low, ToUnsigned64(x.high)) }

  function FromU128(x: U128): I128 { I128(x.low, ToSigned64(x.high)) }

  // The casts keep the bits: they convert between the unsigned and the signed reading.
  lemma CastsKeepBits(u: U128, x: I128)
    ensures Int(FromU128(u)) == ToSigned(M128, Nat(u)) && Nat(u) < M128
    ensures ToSigned(M128, Nat(FromI128(x))) == Int(x) && Fits(M128, Int(x))
    ensures FromI128(FromU128(u)) == u && FromU128(FromI128(x)) == x
  {
  }

  lemma NatsDiffer(u: U128, v: U128)
    ensures Nat(u) == Nat(v) <==> u == v
  {
  }

  function Add(left: U128, right: U128): U128 {
    var low := Add64(left.low, right.low);
    U128(low, Add64(Add64(left.high, right.high), if low < left.low then 1 else 0))
  }

  function Sub(left: U128, right: U128): U128 {
    U128(Sub64(left.low, right.low), Sub64(Sub64(left.high, right.high), if left.low < right.low then 1 else 0))
  }

  function Neg(value: U128): U128 {
    var low := Add64(Not64(value.low), 1);
    U128(low, Add64(Not64(value.high), if low == 0 then 1 else 0))
  }

  function Mul(left: U128, right: U128): U128 {
    U128(Mul64(left.low, right.low),
         Add64(Add64(HighLimb(left.low, right.low), Mul64(left.low, right.high)), Mul64(left.high, right.low)))
  }

  predicate Less(left: U128, right: U128) {
    left.high < right.high || (left.high == right.high && left.low < right.low)
  }

  lemma LowWords128(u: U128, k: int, exact: int)
    requires Nat(u) + M128 * k == exact
    ensures Nat(u) == exact % M128
  {
    DivModUnique(exact, M128, k, Nat(u));
  }

  // Two limbs with a carry or borrow between them.
  lemma TwoLimbs(u: U128, low: int, high: int, c: int, c': int)
    requires low == u.low + B * c && high + c == u.high + B * c'
    ensures Nat(u) == (low + B * high) % M128
  {
    LowWords128(u, c', low + B * high);
  }

  lemma AddExact(left: U128, right: U128)
    ensures Nat(Add(left, right)) == (Nat(left) + Nat(right)) % M128
  {
    var sum := Add(left, right);
    var c := if sum.low < left.low then 1 else 0;
    var c' := (left.high + right.high + c) / B;
    Add64Twice(left.high, right.high, c);
    TwoLimbs(sum, left.low + right.low, left.high + right.high, c, c');
  }

  lemma Add64Twice(x: Word, y: Word, c: Word)
    ensures x + y + c == Add64(Add64(x, y), c) + B * ((x + y + c) / B)
  {
  }

  lemma SubExact(left: U128, right: U128)
    ensures Nat(Sub(left, right)) == (Nat(left) - Nat(right)) % M128
  {
    hide Sub64;
    var difference := Sub(left, right);
    var b := if left.low < right.low then 1 else 0;
    Sub64Borrows(left.low, right.low);
    Sub64Twice(left.high, right.high, b);
    TwoLimbs(difference, left.low - right.low, left.high - right.high, -b, (left.high - right.high - b) / B);
  }

  lemma Sub64Borrows(x: Word, y: Word)
    ensures x - y == Sub64(x, y) + B * -(if x < y then 1 else 0)
  {
  }

  lemma Sub64Twice(x: Word, y: Word, b: Word)
    ensures x - y - b == Sub64(Sub64(x, y), b) + B * ((x - y - b) / B)
  {
  }

  lemma NegExact(value: U128)
    ensures Nat(Neg(value)) == (-(Nat(value) as int)) % M128
  {
    var negated := Neg(value);
    var c := if negated.low == 0 then 0 else -1;
    TwoLimbs(negated, -(value.low as int), -(value.high as int), c, (-(value.high as int) + c) / B);
  }

  lemma MulExact(left: U128, right: U128)
    ensures Nat(Mul(left, right)) == (Nat(left) * Nat(right)) % M128
  {
    hide HighLimb, Add64;
    ProductLimbs(left.low, right.low);
    var high := HighLimb(left.low, right.low);
    var x, y, z := left.low * right.high, left.high * right.low, left.high * right.high;
    var product := Mul(left, right);
    SumOfProducts(high, x, y, product.high);
    var k := (high + x + y - product.high) / B;
    Expand128(left.low, left.high, right.low, right.high);
    Assemble(left.low * right.low, product.low, high, x, y, z, product.high, k);
    LowWords128(product, z + k, Nat(left) * Nat(right));
  }

  lemma Assemble(p: int, low: int, high: int, x: int, y: int, z: int, sum: int, k: int)
    requires p == low + B * high && high + x + y == sum + B * k
    ensures low + B * sum + B * B * (z + k) == p + B * (x + y) + B * B * z
  {
  }

  lemma SumOfProducts(h: Word, x: nat, y: nat, sum: Word)
    requires sum == Add64(Add64(h, x % B), y % B)
    ensures h + x + y == sum + B * ((h + x + y - sum) / B)
  {
    var first := Add64(h, x % B);
    var q := (h + x % B) / B + (first + y % B) / B + x / B + y / B;
    assert h + x + y - sum == B * q;
    DivModUnique(h + x + y - sum, B, q, 0);
  }

  lemma Expand128(a: int, b: int, c: int, d: int)
    ensures (a + B * b) * (c + B * d) == a * c + B * (a * d + b * c) + B * B * (b * d)
  {
    MulDistributes(a, B * b, c + B * d);
    MulDistributes'(a, c, B * d);
    MulDistributes'(B * b, c, B * d);
    MulAssociates(B, b, c);
    MulCross(a, B, d);
    MulAssociates(B, b, B * d);
    MulCross(b, B, d);
  }

  lemma LessMeans(left: U128, right: U128)
    ensures Less(left, right) <==> Nat(left) < Nat(right)
  {
  }

  // ---------- Division ----------

  method DivMod128(dividend: U128, divisor: U128) returns (result: Outcome<(U128, U128)>)
    ensures Nat(divisor) == 0 ==> result == Panic("P0078")
    ensures Nat(divisor) != 0 ==>
              && result.Value?
              && Nat(result.value.0) == Nat(dividend) / Nat(divisor)
              && Nat(result.value.1) == Nat(dividend) % Nat(divisor)
  {
    if divisor.high == 0 && divisor.low == 0 {
      return Panic("P0078");
    }
    if dividend.high == 0 && divisor.high == 0 {
      DivShrinks(dividend.low, divisor.low);
      return Value((U128(dividend.low / divisor.low, 0), U128(dividend.low % divisor.low, 0)));
    }
    var quotient, remainder := LongDivide(dividend, divisor);
    return Value((quotient, remainder));
  }

  /** The remainder shifted left by one with a dividend bit brought in at the bottom. */
  function ShiftInBit(r: U128, bit: Word): U128 {
    U128(Or64(Shl64(r.low, 1), bit), Or64(Shl64(r.high, 1), Shr64(r.low, 63)))
  }

  lemma ShiftInBitDoubles(r: U128, bit: Word)
    requires bit <= 1 && 2 * Nat(r) + bit < M128
    ensures Nat(ShiftInBit(r, bit)) == 2 * Nat(r) + bit
  {
    hide Shr64;
    ShiftLimb(r.low, bit);
    ShiftLimb(r.high, Shr64(r.low, 63));
  }

  /** Bits 0 to n - 1 of the quotient are still clear. */
  ghost predicate ClearBelow(q: U128, n: nat) {
    if n >= 64 then q.low == 0 && (n < 128 ==> q.high % Pow2(n - 64) == 0) && (n == 128 ==> q.high == 0)
    else q.low % Pow2(n) == 0
  }

  lemma ClearDown(q: U128, n: nat)
    requires ClearBelow(q, n + 1) && n < 128
    ensures ClearBelow(q, n)
  {
    if n >= 64 {
      if n < 127 { HalfDivides(q.high, Pow2(n - 64)); }
    } else if n < 63 {
      HalfDivides(q.low, Pow2(n));
    }
  }

  function SetBit(q: U128, n: nat): U128
    requires n < 128
  {
    if n >= 64 then q.(high := Or64(q.high, Shl64(1, n - 64))) else q.(low := Or64(q.low, Shl64(1, n)))
  }

  lemma SetBitAdds(q: U128, n: nat)
    requires ClearBelow(q, n + 1) && n < 128
    ensures ClearBelow(SetBit(q, n), n) && Nat(SetBit(q, n)) == Nat(q) + Pow2(n)
  {
    hide Or64, Shl64, Pow2;
    if n >= 64 {
      SetWordBit(q.high, n - 64);
      HighBit(n);
    } else {
      SetWordBit(q.low, n);
    }
  }

  lemma HighBit(n: nat)
    requires 64 <= n
    ensures Pow2(n) == B * Pow2(n - 64)
  {
    Pow2Values();
    Pow2Add(64, n - 64);
  }

  method LongDivide(dividend: U128, divisor: U128) returns (quotient: U128, remainder: U128)
    requires Nat(divisor) != 0
    ensures Nat(quotient) == Nat(dividend) / Nat(divisor)
    ensures Nat(remainder) == Nat(dividend) % Nat(divisor)
  {
    hide Pow2, ClearBelow, Divides, ShiftInBit, NextBit, SetBit, Shr64;
    quotient, remainder := U128(0, 0), U128(0, 0);
    ghost var n, d := Nat(dividend), Nat(divisor);
    ghost var q: nat := 0;
    StartDivision(dividend, d);
    var i := 127;
    while i >= 0
      invariant -1 <= i <= 127
      invariant Divides(n, d, i + 1, q, Nat(remainder))
      invariant Nat(quotient) == q * Pow2(i + 1) && ClearBelow(quotient, i + 1)
    {
      var next := And64(if i >= 64 then Shr64(dividend.high, i - 64) else Shr64(dividend.low, i), 1);
      BitBroughtDown(dividend, i, next);
      NoBitLost(n, d, i, q, Nat(remainder), 128);
      BringDown(n, d, i, q, Nat(remainder));
      ShiftInBitDoubles(remainder, next);
      remainder := ShiftInBit(remainder, next);
      ShiftQuotient(q, i);
      if remainder.high > divisor.high || (remainder.high == divisor.high && remainder.low >= divisor.low) {
        SubtractDivisor(remainder, divisor);
        var borrow: Word := if remainder.low < divisor.low then 1 else 0;
        remainder := U128(Sub64(remainder.low, divisor.low), Sub64(remainder.high, Add64(divisor.high, borrow)));
        SetBitAdds(quotient, i);
        quotient := SetBit(quotient, i);
        q := 2 * q + 1;
      } else {
        LessMeans(remainder, divisor);
        ClearDown(quotient, i);
        q := 2 * q;
      }
      i := i - 1;
    }
    DivisionEnds(n, d, q, Nat(remainder), Nat(quotient));
  }

  lemma StartDivision(dividend: U128, d: nat)
    requires d > 0
    ensures Nat(dividend) < Pow2(128) == M128
    ensures Divides(Nat(dividend), d, 128, 0, Nat(U128(0, 0)))
    ensures ClearBelow(U128(0, 0), 128)
  {
    Pow2Values();
    Pow2Add(64, 64);
    DivModUnique(Nat(dividend), Pow2(128), 0, Nat(dividend));
  }

  lemma BitBroughtDown(dividend: U128, i: nat, next: Word)
    requires i < 128 && next == And64(if i >= 64 then Shr64(dividend.high, i - 64) else Shr64(dividend.low, i), 1)
    ensures next == NextBit(Nat(dividend), i) <= 1
  {
    assert Pow2(1) == 2;
    var ws := [dividend.low, dividend.high];
    TwoWords(dividend.low, dividend.high);
    AndMask(Shr64(ws[i / 64], i % 64), 1);
    BitOfWord(ws, i / 64, i % 64);
  }

  lemma TwoWords(low: Word, high: Word)
    ensures Val([low, high]) == low + B * high
  {
    assert [low, high][..2] == [low, high];
    ValSnoc([low, high], 1);
    ValSnoc([low, high], 0);
    assert PowB(1) == B;
  }

  lemma SubtractDivisor(r: U128, d: U128)
    requires r.high > d.high || (r.high == d.high && r.low >= d.low)
    ensures var borrow: Word := if r.low < d.low then 1 else 0;
            Nat(U128(Sub64(r.low, d.low), Sub64(r.high, Add64(d.high, borrow)))) == Nat(r) - Nat(d)
  {
  }
}
