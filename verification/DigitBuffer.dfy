/** Decimal numbers of any length as little-endian digit buffers. */
module DigitBuffer {
  import opened Algebra
  import opened Numerals

  predicate IsDigits(digits: seq<nat>) {
    forall i :: 0 <= i < |digits| ==> digits[i] < 10
  }

  function Value(digits: seq<nat>): (n: nat) {
    if digits == [] then 0 else digits[0] + 10 * Value(digits[1..])
  }

  /** No leading zeros, except that zero is one digit. */
  predicate IsCanonical(digits: seq<nat>) {
    digits != [] && IsDigits(digits) && (|digits| > 1 ==> digits[|digits| - 1] != 0)
  }

  /** The digits of a carry, appended above the others. */
  function CarryDigits(carry: nat): (r: seq<nat>)
    ensures IsDigits(r) && (carry < 10 ==> |r| <= 1) && (carry < 100 ==> |r| <= 2)
    ensures r != [] ==> r[|r| - 1] != 0
  {
    if carry == 0 then [] else [carry % 10] + CarryDigits(carry / 10)
  }

  /** The digits of base * digits + carry, least significant first. */
  function Scaled(digits: seq<nat>, base: nat, carry: nat): (r: seq<nat>) {
    if digits == [] then CarryDigits(carry)
    else
      var product := digits[0] * base + carry;
      [product % 10] + Scaled(digits[1..], base, product / 10)
  }

  lemma {:induction false} CarryValue(carry: nat)
    ensures Value(CarryDigits(carry)) == carry
  {
    if carry > 0 {
      CarryValue(carry / 10);
    }
  }

  lemma {:induction false} ScaledValue(digits: seq<nat>, base: nat, carry: nat)
    ensures Value(Scaled(digits, base, carry)) == Value(digits) * base + carry
  {
    if digits == [] {
      CarryValue(carry);
    } else {
      var product := digits[0] * base + carry;
      ScaledValue(digits[1..], base, product / 10);
      MulDistributes(digits[0], 10 * Value(digits[1..]), base);
      MulAssociates(10, Value(digits[1..]), base);
    }
  }

  lemma SingleScaled(digits: seq<nat>, base: nat, carry: nat)
    requires |digits| == 1
    ensures var product := digits[0] * base + carry;
            Scaled(digits, base, carry) == [product % 10] + CarryDigits(product / 10)
  {
    assert digits[1..] == [];
  }

  lemma ScaledStep(digits: seq<nat>, j: nat, base: nat, carry: nat)
    requires j < |digits|
    ensures var product := digits[j] * base + carry;
            Scaled(digits[j..], base, carry) == [product % 10] + Scaled(digits[j + 1..], base, product / 10)
  {
    assert digits[j..][1..] == digits[j + 1..];
  }

  predicate EndsNonZero(digits: seq<nat>) {
    digits != [] && IsDigits(digits) && digits[|digits| - 1] != 0
  }

  lemma SingleEndsNonZero(product: nat)
    requires product > 0
    ensures EndsNonZero([product % 10] + CarryDigits(product / 10))
  {
    var rest := CarryDigits(product / 10);
    if product < 10 {
      assert [product % 10] + rest == [product];
    } else {
      CarryEndsNonZero(product / 10);
      OnTop(product % 10, rest);
    }
  }

  lemma CarryEndsNonZero(carry: nat)
    requires carry > 0
    ensures EndsNonZero(CarryDigits(carry))
  {
  }

  lemma OnTop(d: nat, rest: seq<nat>)
    requires d < 10 && EndsNonZero(rest)
    ensures EndsNonZero([d] + rest)
  {
  }

  lemma {:induction false} ScaledEndsNonZero(digits: seq<nat>, base: nat, carry: nat)
    requires EndsNonZero(digits) && base > 0
    ensures EndsNonZero(Scaled(digits, base, carry))
  {
    hide CarryDigits, Scaled;
    var product := digits[0] * base + carry;
    if |digits| == 1 {
      MulMonotone(1, digits[0], base);
      SingleScaled(digits, base, carry);
      SingleEndsNonZero(product);
    } else {
      assert digits[0..] == digits;
      ScaledStep(digits, 0, base, carry);
      ScaledEndsNonZero(digits[1..], base, product / 10);
      OnTop(product % 10, Scaled(digits[1..], base, product / 10));
    }
  }

  lemma ScaledCanonical(digits: seq<nat>, base: nat, carry: nat)
    requires IsCanonical(digits) && base > 0
    ensures IsCanonical(Scaled(digits, base, carry))
  {
    if EndsNonZero(digits) {
      ScaledEndsNonZero(digits, base, carry);
    } else {
      SingleScaled(digits, base, carry);
      if carry > 0 { SingleEndsNonZero(carry); }
    }
  }

  // A carry of at most 15 stays so, and adds at most two digits.
  lemma {:induction false} ScaledLength(digits: seq<nat>, base: nat, carry: nat)
    requires IsDigits(digits) && base <= 16 && carry <= 15
    ensures |digits| <= |Scaled(digits, base, carry)| <= |digits| + 2
  {
    if digits != [] {
      MulMonotone(digits[0], 9, base);
      ScaledLength(digits[1..], base, (digits[0] * base + carry) / 10);
    }
  }

  // ---------- Text ----------

  function Text(digits: seq<nat>): (text: string)
    requires IsDigits(digits)
  {
    seq(|digits|, j requires 0 <= j < |digits| => Digit(digits[|digits| - 1 - j]))
  }

  lemma {:induction false} CanonicalIsDec(digits: seq<nat>)
    requires IsCanonical(digits)
    ensures Text(digits) == Dec(Value(digits))
    ensures digits[|digits| - 1] != 0 ==> Value(digits) > 0
    decreases |digits|
  {
    if |digits| > 1 {
      CanonicalIsDec(digits[1..]);
      assert Text(digits) == Text(digits[1..]) + [Digit(digits[0])];
    } else {
      assert Value(digits) == digits[0];
    }
  }

  lemma DigitAt(digits: seq<nat>, j: nat)
    requires IsDigits(digits) && j < |digits|
    ensures digits[j] <= 9
  {
  }

  /** Multiplies the number in digits[..count] by `base` and adds `carry`, in place. */
  method MultiplyAdd(digits: array<nat>, count: nat, base: nat, carry: nat) returns (newCount: nat)
    requires count + 2 <= digits.Length && IsDigits(digits[..count]) && base <= 16 && carry <= 15
    modifies digits
    ensures newCount <= count + 2 && digits[..newCount] == Scaled(old(digits[..count]), base, carry)
  {
    hide Scaled, CarryDigits, IsDigits;
    ghost var was := digits[..count];
    var rest, j: nat := carry, 0;
    assert was[0..] == was;
    while j < count
      invariant 0 <= j <= count && 0 <= rest <= 15
      invariant digits[..j] + Scaled(was[j..], base, rest) == Scaled(was, base, carry)
      invariant digits[j..count] == was[j..]
    {
      ghost var done, left := digits[..j], digits[j..count];
      assert digits[j] == left[0] == was[j];
      ScaledStep(was, j, base, rest);
      DigitAt(was, j);
      MulMonotone(digits[j], 9, base);
      var product: nat := digits[j] * base + rest;
      digits[j] := product % 10;
      assert digits[..j + 1] == done + [product % 10];
      assert digits[j + 1..count] == left[1..] == was[j + 1..];
      rest := product / 10;
      j := j + 1;
    }
    NothingLeft(was, base, rest);
    newCount := AppendCarry(digits, count, rest);
  }

  lemma NothingLeft(digits: seq<nat>, base: nat, carry: nat)
    ensures Scaled(digits[|digits|..], base, carry) == CarryDigits(carry)
  {
  }

  method AppendCarry(digits: array<nat>, count: nat, carry: nat) returns (newCount: nat)
    requires count + 2 <= digits.Length && carry <= 15
    modifies digits
    ensures newCount <= count + 2 && digits[..newCount] == old(digits[..count]) + CarryDigits(carry)
  {
    newCount := count;
    var rest := carry;
    while rest > 0
      invariant newCount + |CarryDigits(rest)| <= count + 2
      invariant digits[..newCount] + CarryDigits(rest) == old(digits[..count]) + CarryDigits(carry)
    {
      ghost var done := digits[..newCount];
      digits[newCount] := rest % 10;
      assert digits[..newCount + 1] == done + [rest % 10];
      newCount := newCount + 1;
      rest := rest / 10;
    }
  }

  /** Writes the digits out, most significant first. */
  method WriteText(digits: array<nat>, count: nat) returns (text: string)
    requires count <= digits.Length && IsDigits(digits[..count])
    ensures text == Text(digits[..count])
  {
    text := "";
    var j := 0;
    while j < count
      invariant 0 <= j <= count && |text| == j
      invariant forall i :: 0 <= i < j ==> text[i] == Digit(digits[count - 1 - i])
    {
      text := text + [Digit(digits[count - 1 - j])];
      j := j + 1;
    }
  }
}
