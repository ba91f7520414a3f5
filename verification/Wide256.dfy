/** 256-bit integers as four little-endian words: the limb loops of bigint.h, each shown to be
    exact arithmetic modulo 2^256. i256 and u256 share the representation and, for addition,
    subtraction and multiplication, the code. */
module Wide256 {
  import opened Algebra
  import opened Bits
  import opened Words
  import opened HalfProducts
  import opened LongDivision
  import opened Outcomes

  const M256 := B * B * B * B

  type Words4 = ws: seq<Word> | |ws| == 4 witness [0, 0, 0, 0]

  const ZERO: Words4 := [0, 0, 0, 0]

  lemma ValBelow(ws: Words4)
    ensures Val(ws) < M256 == PowB(4)
  {
    ValBound(ws);
    assert PowB(1) == B && PowB(2) == B * B && PowB(3) == B * B * B;
  }

  // The low four words of a sum, difference or product determine it modulo 2^256.
  lemma LowWords(ws: Words4, k: int, exact: int)
    requires Val(ws) + M256 * k == exact
    ensures Val(ws) == exact % M256
  {
    ValBelow(ws);
    DivModUnique(exact, M256, k, Val(ws));
  }

  method Add(left: Words4, right: Words4) returns (result: Words4)
    ensures Val(result) == (Val(left) + Val(right)) % M256
  {
    result := ZERO;
    var carry: Word := 0;
    for i := 0 to 4
      invariant carry <= 1
      invariant Val(result[..i]) + PowB(i) * carry == Val(left[..i]) + Val(right[..i])
    {
      var limbSum := Add64(Add64(left[i], right[i]), carry);
      var carryOut: Word := if limbSum < left[i] || (carry != 0 && limbSum == left[i]) then 1 else 0;
      LimbSum(left[i], right[i], carry, limbSum, carryOut);
      CarryStep(PowB(i), Val(result[..i]), Val(left[..i]) + Val(right[..i]), carry, left[i] as int + right[i], limbSum,
                carryOut);
      ValSnoc(left, i);
      ValSnoc(right, i);
      MulDistributes(left[i], right[i], PowB(i));
      assert result[i := limbSum][..i] == result[..i];
      result := result[i := limbSum];
      ValSnoc(result, i);
      carry := carryOut;
    }
    Whole(left); Whole(right); Whole(result);
    LowWords(result, carry, Val(left) + Val(right));
  }

  lemma ZeroWords()
    ensures Val(ZERO) == 0
  {
    Val4(ZERO);
  }

  lemma Whole(ws: Words4)
    ensures ws[..4] == ws && ws[..0] == []
    ensures PowB(4) == M256
  {
    ValBelow(ws);
  }

  lemma LimbSum(l: Word, r: Word, c: Word, s: Word, c': Word)
    requires c <= 1 && s == Add64(Add64(l, r), c)
    requires c' == if s < l || (c != 0 && s == l) then 1 else 0
    ensures l + r + c == s + B * c'
  {
  }

  // Moving the carry one limb up; a borrow is a negative carry.
  lemma CarryStep(p: nat, low: int, exact: int, c: int, x: int, s: int, c': int)
    requires low + p * c == exact && x + c == s + B * c'
    ensures (low + s * p) + (B * p) * c' == exact + x * p
  {
    assert s * p == x * p + c * p - (B * c') * p by {
      MulDifference(p, s, x, c - B * c');
      MulDistributes'(p, c, -B * c');
    }
    MulRotate(B, c', p);
    MulCommutes(p, B);
    MulCommutes(p, c);
  }

  method Sub(left: Words4, right: Words4) returns (result: Words4)
    ensures Val(result) == (Val(left) - Val(right)) % M256
  {
    hide Sub64, Val, PowB;
    result := ZERO;
    var borrow: Word := 0;
    NothingSubtracted(result, left, right);
    for i := 0 to 4
      invariant borrow <= 1
      invariant Val(result[..i]) + PowB(i) * -(borrow as int) == Val(left[..i]) - Val(right[..i])
    {
      var difference := Sub64(Sub64(left[i], right[i]), borrow);
      var borrowOut: Word := if left[i] < right[i] || Sub64(left[i], right[i]) < borrow then 1 else 0;
      LimbDifference(left[i], right[i], borrow, difference, borrowOut);
      SubStep(result, left, right, i, borrow, difference, borrowOut);
      result := result[i := difference];
      borrow := borrowOut;
    }
    Whole(left); Whole(right); Whole(result);
    LowWords(result, -(borrow as int), Val(left) - Val(right));
  }

  lemma NothingSubtracted(result: Words4, left: Words4, right: Words4)
    ensures Val(result[..0]) == Val(left[..0]) == Val(right[..0]) == 0
    ensures PowB(0) * 0 == 0
  {
  }

  lemma SubStep(result: Words4, left: Words4, right: Words4, i: nat, b: Word, d: Word, b': Word)
    requires i < 4 && left[i] - right[i] - b == d - B * b'
    requires Val(result[..i]) + PowB(i) * -(b as int) == Val(left[..i]) - Val(right[..i])
    ensures Val(result[i := d][..i + 1]) + PowB(i + 1) * -(b' as int) == Val(left[..i + 1]) - Val(right[..i + 1])
  {
    hide Val;
    SubAlgebra(PowB(i), Val(result[..i]), Val(left[..i]), Val(right[..i]), left[i], right[i], b, d, b');
    ValSnoc(left, i);
    ValSnoc(right, i);
    assert result[i := d][..i] == result[..i];
    ValSnoc(result[i := d], i);
  }

  lemma SubAlgebra(p: nat, x: int, l: int, r: int, a: int, s: int, b: int, d: int, b': int)
    requires x + p * -b == l - r && a - s - b == d - B * b'
    ensures (x + d * p) + (B * p) * -b' == (l + a * p) - (r + s * p)
  {
    CarryStep(p, x, l - r, -b, a - s, d, -b');
    MulDistributes(a, -s, p);
  }

  lemma LimbDifference(l: Word, r: Word, b: Word, d: Word, b': Word)
    requires b <= 1 && d == Sub64(Sub64(l, r), b)
    requires b' == if l < r || Sub64(l, r) < b then 1 else 0
    ensures l - r - b == d - B * b'
  {
  }

  lemma NegStep(p: nat, low: int, v: int, c: int, x: Word, s: int, c': int)
    requires low + p * c == p - v && Not64(x) + c == s + B * c'
    ensures (low + s * p) + (B * p) * c' == B * p - (v + x * p)
  {
    CarryStep(p, low, p - v, c, B - 1 - x, s, c');
    MulDistributes(B - 1, -(x as int), p);
    MulDistributes(B, -1, p);
  }

  method Neg(value: Words4) returns (result: Words4)
    ensures Val(result) == (-(Val(value) as int)) % M256
  {
    result := ZERO;
    var carry: Word := 1;
    for i := 0 to 4
      invariant carry <= 1
      invariant Val(result[..i]) + PowB(i) * carry == PowB(i) - Val(value[..i])
    {
      var limbSum := Add64(Not64(value[i]), carry);
      var carryOut: Word := if limbSum < Not64(value[i]) then 1 else 0;
      NegStep(PowB(i), Val(result[..i]), Val(value[..i]), carry, value[i], limbSum, carryOut);
      ValSnoc(value, i);
      assert result[i := limbSum][..i] == result[..i];
      result := result[i := limbSum];
      ValSnoc(result, i);
      carry := carryOut;
    }
    Whole(value); Whole(result);
    LowWords(result, carry as int - 1, -(Val(value) as int));
  }

  /** Schoolbook multiplication of which only the lower 256 bits are kept. */
  method Mul(left: Words4, right: Words4) returns (result: Words4)
    ensures Val(result) == (Val(left) * Val(right)) % M256
  {
    hide HighLimb, Add64, Mul64, PowB;
    result := ZERO;
    ghost var lost: nat := 0;
    ZeroWords();
    Whole(right);
    MulZero(Val(left));
    for i := 0 to 4
      invariant Val(result) + M256 * lost == Val(left) * Val(right[..i])
    {
      ghost var before := Val(result);
      var carry: Word := 0;
      for j := 0 to 4 - i
        invariant Val(result) + PowB(i + j) * carry == before + PowB(i) * (right[i] * Val(left[..j]))
      {
        var lowLimb := Mul64(left[j], right[i]);
        var highPart := HighLimb(left[j], right[i]);
        var previousLimb := result[i + j];
        var limb := Add64(Add64(previousLimb, lowLimb), carry);
        var carryOut := Add64(highPart, if limb < Add64(previousLimb, lowLimb) then 1 else 0);
        if Add64(previousLimb, lowLimb) < previousLimb {
          carryOut := Add64(carryOut, 1);
        }
        CarryFits(left[j], right[i], previousLimb, carry, limb, carryOut);
        ProductStep(result, i, j, left, right[i], before, carry, limb, carryOut);
        result := result[i + j := limb];
        carry := carryOut;
      }
      RowDone(left, right, i, before, lost, Val(result), carry);
      MulNonNegative(right[i], Val(left[4 - i..]));
      lost := lost + carry + right[i] * Val(left[4 - i..]);
    }
    Whole(right);
    LowWords(result, lost, Val(left) * Val(right));
  }

  function NextCarry(previous: Word, low: Word, high: Word, limb: Word): Word {
    var carry := Add64(high, if limb < Add64(previous, low) then 1 else 0);
    if Add64(previous, low) < previous then Add64(carry, 1) else carry
  }

  // The running carry stays below 2^64: limb, carry and product together are at most 2^128 - 1.
  lemma CarryFits(x: Word, y: Word, previous: Word, carry: Word, limb: Word, carryOut: Word)
    requires limb == Add64(Add64(previous, Mul64(x, y)), carry)
    requires carryOut == NextCarry(previous, Mul64(x, y), HighLimb(x, y), limb)
    ensures previous + x * y + carry == limb + B * carryOut
  {
    hide HighLimb, Mul64;
    ProductLimbs(x, y);
    ProductBound(x, y);
    CarriesAdd(previous, Mul64(x, y), HighLimb(x, y), carry, limb, carryOut);
  }

  lemma ProductBound(x: Word, y: Word)
    ensures 0 <= x * y <= (B - 1) * (B - 1)
  {
    MulMonotone(x, B - 1, y);
    MulNonNegative(x, y);
  }

  lemma CarriesAdd(previous: Word, low: Word, high: Word, carry: Word, limb: Word, carryOut: Word)
    requires low + B * high <= (B - 1) * (B - 1)
    requires limb == Add64(Add64(previous, low), carry)
    requires carryOut == NextCarry(previous, low, high, limb)
    ensures previous + low + B * high + carry == limb + B * carryOut
  {
    var sum := Add64(previous, low);
    var c1, c2 := if sum < previous then 1 else 0, if limb < sum then 1 else 0;
    assert previous + low == sum + B * c1;
    assert sum + carry == limb + B * c2;
    assert high + c1 + c2 < B;
  }

  lemma ProductStep(result: Words4, i: nat, j: nat, left: Words4, y: Word, before: int, carry: Word, limb: Word,
                    carryOut: Word)
    requires i < 4 && j < 4 - i
    requires Val(result) + PowB(i + j) * carry == before + PowB(i) * (y * Val(left[..j]))
    requires result[i + j] + left[j] * y + carry == limb + B * carryOut
    ensures Val(result[i + j := limb]) + PowB(i + j + 1) * carryOut == before + PowB(i) * (y * Val(left[..j + 1]))
  {
    ValUpdate(result, i + j, limb);
    ValSnoc(left, j);
    PowBAdd(i, j);
    StepAlgebra(PowB(i), PowB(j), y, left[j], Val(left[..j]), limb - result[i + j], carry, carryOut);
  }

  lemma StepAlgebra(p: nat, q: nat, y: int, x: int, v: int, d: int, carry: int, carryOut: int)
    requires x * y + carry == d + B * carryOut
    ensures p * q * d + (B * (p * q)) * carryOut == p * q * carry * 1 + p * (y * (v + x * q)) - p * (y * v)
  {
    var pq := p * q;
    MulDistributes'(pq, d, B * carryOut);
    MulDistributes'(pq, x * y, carry);
    MulEqual(pq, x * y + carry, d + B * carryOut);
    MulCross(B, pq, carryOut);
    MulAssociates(B, pq, carryOut);
    MulDistributes'(y, v, x * q);
    MulDistributes'(p, y * v, y * (x * q));
    MulAssociates(p, q, x * y);
    MulCross(y, x, q);
    MulAssociates(x, y, q);
    MulCommutes(q, x * y);
  }

  lemma RowDone(left: Words4, right: Words4, i: nat, before: nat, lost: nat, after: nat, carry: Word)
    requires i < 4
    requires before + M256 * lost == Val(left) * Val(right[..i])
    requires after + PowB(i + (4 - i)) * carry == before + PowB(i) * (right[i] * Val(left[..4 - i]))
    ensures after + M256 * (lost + carry + right[i] * Val(left[4 - i..])) == Val(left) * Val(right[..i + 1])
  {
    var y, low, high := right[i], Val(left[..4 - i]), Val(left[4 - i..]);
    Whole(left);
    assert left == left[..4 - i] + left[4 - i..];
    ValConcat(left[..4 - i], left[4 - i..]);
    PowBAdd(i, 4 - i);
    ValSnoc(right, i);
    RowAlgebra(PowB(i), PowB(4 - i), y, low, high, Val(left), Val(right[..i]));
  }

  lemma RowAlgebra(p: nat, q: nat, y: nat, low: nat, high: nat, left: nat, right: nat)
    requires p * q == M256 && left == low + q * high
    ensures left * (right + y * p) == left * right + p * (y * low) + M256 * (y * high)
  {
    MulDistributes'(left, right, y * p);
    MulDistributes(low, q * high, y * p);
    MulEqual(y * p, left, low + q * high);
    MulCommutes(left, y * p);
    MulCommutes(low + q * high, y * p);
    MulCross(low, y, p);
    MulCross(y, low, p);
    MulCommutes(low * p, y);
    MulCross(y, p, low);
    MulCommutes(low, p);
    MulCross(q * high, y, p);
    MulCommutes(q * high, p);
    MulAssociates(p, q, high);
    MulCross(y, M256, high);
  }

  // ---------- Comparison ----------

  /** The limb-by-limb comparison of the division loop, from the top limb down. */
  method AtLeast(left: Words4, right: Words4) returns (result: bool)
    ensures result <==> Val(left) >= Val(right)
  {
    var limb := 3;
    while limb >= 0
      invariant -1 <= limb <= 3
      invariant forall k :: limb < k < 4 ==> left[k] == right[k]
    {
      if left[limb] > right[limb] {
        HighLimbDecides(right, left, limb);
        return true;
      }
      if left[limb] < right[limb] {
        HighLimbDecides(left, right, limb);
        return false;
      }
      limb := limb - 1;
    }
    assert left == right;
    return true;
  }

  lemma HighLimbDecides(less: Words4, more: Words4, i: nat)
    requires i < 4 && less[i] < more[i] && forall k :: i < k < 4 ==> less[k] == more[k]
    ensures Val(less) < Val(more)
  {
    ValAround(less, i);
    ValAround(more, i);
    assert less[i + 1..] == more[i + 1..];
    MulMonotone(Val(less[i..]) + 1, Val(more[i..]), PowB(i));
    MulDistributes(Val(less[i..]), 1, PowB(i));
    MulCommutes(PowB(i), Val(less[i..]));
    MulCommutes(PowB(i), Val(more[i..]));
  }

  // ---------- Division ----------

  /** The remainder shifted left by one with a dividend bit brought in at the bottom. */
  function ShiftInBit(r: Words4, bit: Word): Words4 {
    [Or64(Shl64(r[0], 1), bit),
     Or64(Shl64(r[1], 1), Shr64(r[0], 63)),
     Or64(Shl64(r[2], 1), Shr64(r[1], 63)),
     Or64(Shl64(r[3], 1), Shr64(r[2], 63))]
  }

  lemma ShiftInBitDoubles(r: Words4, bit: Word)
    requires bit <= 1 && 2 * Val(r) + bit < M256
    ensures Val(ShiftInBit(r, bit)) == 2 * Val(r) + bit
  {
    ShiftLimb(r[0], bit);
    ShiftLimb(r[1], Shr64(r[0], 63));
    ShiftLimb(r[2], Shr64(r[1], 63));
    ShiftLimb(r[3], Shr64(r[2], 63));
    var s := ShiftInBit(r, bit);
    Val4(r);
    Val4(s);
    ValBelow(s);
    DoubledLimbs(r[0], r[1], r[2], r[3], s[0], s[1], s[2], s[3], bit, Shr64(r[0], 63), Shr64(r[1], 63), Shr64(r[2], 63),
                 Shr64(r[3], 63));
  }

  lemma DoubledLimbs(r0: int, r1: int, r2: int, r3: int, s0: int, s1: int, s2: int, s3: int,
                     b: int, c0: int, c1: int, c2: int, c3: int)
    requires s0 + B * c0 == 2 * r0 + b && s1 + B * c1 == 2 * r1 + c0
    requires s2 + B * c2 == 2 * r2 + c1 && s3 + B * c3 == 2 * r3 + c2
    requires 0 <= 2 * (r0 + B * r1 + B * B * r2 + B * B * B * r3) + b < M256
    requires 0 <= s0 + B * s1 + B * B * s2 + B * B * B * s3 < M256
    ensures s0 + B * s1 + B * B * s2 + B * B * B * s3 == 2 * (r0 + B * r1 + B * B * r2 + B * B * B * r3) + b
  {
  }

  /** Bits 0 to n - 1 of the quotient are still clear. */
  ghost predicate ClearBelow(q: Words4, n: nat) {
    forall w :: 0 <= w < 4 ==> WordClear(q[w], w, n)
  }

  predicate WordClear(x: Word, w: nat, n: nat) {
    if 64 * (w + 1) <= n then x == 0 else 64 * w < n ==> x % Pow2(n - 64 * w) == 0
  }

  lemma WordClearDown(x: Word, w: nat, n: nat)
    requires WordClear(x, w, n + 1)
    ensures WordClear(x, w, n)
  {
    hide Pow2;
    if 64 * w < n < 64 * (w + 1) - 1 {
      assert Pow2(n + 1 - 64 * w) == 2 * Pow2(n - 64 * w) by { PowerDoubles(n - 64 * w); }
      HalfDivides(x, Pow2(n - 64 * w));
    }
  }

  lemma PowerDoubles(k: nat)
    ensures Pow2(k + 1) == 2 * Pow2(k)
  {
  }

  lemma ClearDown(q: Words4, n: nat)
    requires ClearBelow(q, n + 1)
    ensures ClearBelow(q, n)
  {
    hide WordClear;
    forall w | 0 <= w < 4 ensures WordClear(q[w], w, n) {
      WordClearDown(q[w], w, n);
    }
  }

  lemma SetBit(q: Words4, n: nat, word: nat, bit: nat)
    requires ClearBelow(q, n + 1) && n < 256 && word == n / 64 && bit == n % 64
    ensures var q' := q[word := Or64(q[word], Shl64(1, bit))];
            ClearBelow(q', n) && Val(q') == Val(q) + Pow2(n)
  {
    hide Or64, Shl64;
    SetWordBit(q[word], bit);
    ValUpdate(q, word, Or64(q[word], Shl64(1, bit)));
    PowBIsPow2(word);
    Pow2Add(64 * word, bit);
    ClearDown(q, n);
  }

  method DivMod256(dividend: Words4, divisor: Words4) returns (result: Outcome<(Words4, Words4)>)
    ensures Val(divisor) == 0 ==> result == Panic("P0078")
    ensures Val(divisor) != 0 ==>
              && result.Value?
              && Val(result.value.0) == Val(dividend) / Val(divisor)
              && Val(result.value.1) == Val(dividend) % Val(divisor)
  {
    Val4(dividend);
    Val4(divisor);
    if divisor[0] == 0 && divisor[1] == 0 && divisor[2] == 0 && divisor[3] == 0 {
      return Panic("P0078");
    }
    if dividend[1] == 0 && dividend[2] == 0 && dividend[3] == 0 && divisor[1] == 0 && divisor[2] == 0
        && divisor[3] == 0 {
      DivShrinks(dividend[0], divisor[0]);
      var quotient: Words4 := [dividend[0] / divisor[0], 0, 0, 0];
      var remainder: Words4 := [dividend[0] % divisor[0], 0, 0, 0];
      Val4(quotient);
      Val4(remainder);
      return Value((quotient, remainder));
    }
    var quotient, remainder := LongDivide(dividend, divisor);
    return Value((quotient, remainder));
  }

  /** Binary long division, one bit of the dividend at a time. */
  method LongDivide(dividend: Words4, divisor: Words4) returns (quotient: Words4, remainder: Words4)
    requires Val(divisor) != 0
    ensures Val(quotient) == Val(dividend) / Val(divisor)
    ensures Val(remainder) == Val(dividend) % Val(divisor)
  {
    hide Val, Pow2, ClearBelow, Divides, ShiftInBit, NextBit;
    quotient, remainder := ZERO, ZERO;
    ghost var n, d := Val(dividend), Val(divisor);
    ghost var q: nat := 0;
    StartDivision(dividend, d);
    var i := 255;
    while i >= 0
      invariant -1 <= i <= 255
      invariant Divides(n, d, i + 1, q, Val(remainder))
      invariant Val(quotient) == q * Pow2(i + 1) && ClearBelow(quotient, i + 1)
    {
      var word, bit := i / 64, i % 64;
      var next := And64(Shr64(dividend[word], bit), 1);
      BitBroughtDown(dividend, i, next);
      NoBitLost(n, d, i, q, Val(remainder), 256);
      BringDown(n, d, i, q, Val(remainder));
      ShiftInBitDoubles(remainder, next);
      remainder := ShiftInBit(remainder, next);
      ShiftQuotient(q, i);
      var fits := AtLeast(remainder, divisor);
      if fits {
        ghost var shifted := Val(remainder);
        remainder := Sub(remainder, divisor);
        ModNoop(shifted - d, remainder);
        SetBit(quotient, i, word, bit);
        quotient := quotient[word := Or64(quotient[word], Shl64(1, bit))];
        q := 2 * q + 1;
      } else {
        ClearDown(quotient, i);
        q := 2 * q;
      }
      i := i - 1;
    }
    DivisionEnds(n, d, q, Val(remainder), Val(quotient));
  }

  lemma StartDivision(dividend: Words4, d: nat)
    requires d > 0
    ensures Val(dividend) < Pow2(256) == M256
    ensures Divides(Val(dividend), d, 256, 0, Val(ZERO))
    ensures Val(ZERO) == 0 && ClearBelow(ZERO, 256)
  {
    ZeroWords();
    ValBelow(dividend);
    PowBIsPow2(4);
    DivModUnique(Val(dividend), Pow2(256), 0, Val(dividend));
  }

  lemma BitBroughtDown(dividend: Words4, i: nat, next: Word)
    requires i < 256 && next == And64(Shr64(dividend[i / 64], i % 64), 1)
    ensures next == NextBit(Val(dividend), i) <= 1
  {
    assert Pow2(1) == 2;
    AndMask(Shr64(dividend[i / 64], i % 64), 1);
    BitOfWord(dividend, i / 64, i % 64);
  }

  lemma ModNoop(difference: int, ws: Words4)
    requires Val(ws) == difference % M256 && 0 <= difference < M256
    ensures Val(ws) == difference
  {
  }
}
