/** Integer literals: their value modulo 2^64, the overflow flags, and their decimal spelling. */
module IntegerLiterals {
  import opened Algebra
  import opened Words
  import opened TwosComplement
  import opened Numerals
  import opened DigitBuffer

  // ---------- What a literal means ----------

  const DIGITS := "0123456789abcdef"
  const CAPITALS := "0123456789ABCDEF"

  /** `c` is the digit d of some base up to 16. */
  predicate IsDigitFor(c: char, d: nat) {
    d < 16 && (DIGITS[d] == c || CAPITALS[d] == c)
  }

  /** The place of `c` among the digits. */
  function DigitIndex(c: char): (d: nat)
    ensures d < 16 ==> IsDigitFor(c, d)
    ensures d < 16 || d == 16
  {
    IndexOf(c, 0)
  }

  function IndexOf(c: char, d: nat): (r: nat)
    requires d <= 16
    ensures r <= 16 && (r < 16 ==> IsDigitFor(c, r))
    decreases 16 - d
  {
    if d == 16 || IsDigitFor(c, d) then d else IndexOf(c, d + 1)
  }

  function Power(base: nat, n: nat): nat {
    if n == 0 then 1 else base * Power(base, n - 1)
  }

  function WithoutSeparators(text: string): (plain: string)
    ensures '_' !in plain
  {
    if text == [] then []
    else if text[0] == '_' then WithoutSeparators(text[1..])
    else [text[0]] + WithoutSeparators(text[1..])
  }

  /** Each digit times the power of the base that its place stands for. */
  function PlaceSum(digits: string, base: nat): nat {
    if digits == [] then 0
    else DigitIndex(digits[0]) * Power(base, |digits| - 1) + PlaceSum(digits[1..], base)
  }

  predicate HasPrefix(literal: string, small: char, capital: char) {
    |literal| >= 2 && literal[0] == '0' && literal[1] in {small, capital}
  }

  /** The number written: hexadecimal after 0x, octal after 0o, binary after 0b, decimal otherwise. */
  function Written(literal: string): nat {
    if HasPrefix(literal, 'b', 'B') then PlaceSum(WithoutSeparators(literal[2..]), 2)
    else if HasPrefix(literal, 'o', 'O') then PlaceSum(WithoutSeparators(literal[2..]), 8)
    else if HasPrefix(literal, 'x', 'X') then PlaceSum(WithoutSeparators(literal[2..]), 16)
    else PlaceSum(WithoutSeparators(literal), 10)
  }

  predicate IsPrefixed(literal: string) {
    HasPrefix(literal, 'b', 'B') || HasPrefix(literal, 'o', 'O') || HasPrefix(literal, 'x', 'X')
  }

  predicate AllDigits(digits: string, base: nat) {
    forall i :: 0 <= i < |digits| ==> digits[i] == '_' || DigitIndex(digits[i]) < base
  }

  /** What the lexer delivers: every digit is one of the base. */
  predicate IsLiteral(literal: string) {
    if HasPrefix(literal, 'b', 'B') then AllDigits(literal[2..], 2)
    else if HasPrefix(literal, 'o', 'O') then AllDigits(literal[2..], 8)
    else if HasPrefix(literal, 'x', 'X') then AllDigits(literal[2..], 16)
    else AllDigits(literal, 10)
  }

  // ---------- How the parser reads it ----------

  function RadixDigit(c: char): (d: nat)
    ensures d <= 15
  {
    if '0' <= c <= '9' then c as nat - '0' as nat
    else if 'a' <= c <= 'f' then c as nat - 'a' as nat + 10
    else if 'A' <= c <= 'F' then c as nat - 'A' as nat + 10
    else 0
  }

  lemma RadixDigitIsIndex(c: char)
    requires DigitIndex(c) < 16
    ensures RadixDigit(c) == DigitIndex(c)
    ensures DigitIndex(c) < 10 ==> '0' <= c <= '9'
  {
    hide IndexOf;
    DigitCharacter(DigitIndex(c));
  }

  lemma DigitCharacter(d: nat)
    requires d < 16
    ensures DIGITS[d] as int == if d < 10 then '0' as int + d else 'a' as int + d - 10
    ensures CAPITALS[d] as int == if d < 10 then '0' as int + d else 'A' as int + d - 10
  {
  }

  /** The digits read so far, '_' allowed anywhere. */
  function RadixValue(text: string, base: nat): (n: nat) {
    if text == [] then 0
    else
      var front, last := RadixValue(text[..|text| - 1], base), text[|text| - 1];
      if last == '_' then front else front * base + RadixDigit(last)
  }

  lemma {:induction false} PlaceSumAppend(digits: string, c: char, base: nat)
    ensures PlaceSum(digits + [c], base) == PlaceSum(digits, base) * base + DigitIndex(c)
    decreases |digits|
  {
    if digits == [] {
      assert ([c])[1..] == [] && Power(base, 0) == 1;
    } else {
      var d, p := DigitIndex(digits[0]), Power(base, |digits| - 1);
      assert (digits + [c])[1..] == digits[1..] + [c];
      PlaceSumAppend(digits[1..], c, base);
      MulDistributes(d * p, PlaceSum(digits[1..], base), base);
      MulAssociates(d, p, base);
      MulCommutes(p, base);
    }
  }

  lemma {:induction false} PlainAppend(text: string, c: char)
    ensures WithoutSeparators(text + [c])
         == if c == '_' then WithoutSeparators(text) else WithoutSeparators(text) + [c]
    decreases |text|
  {
    if text != [] {
      assert (text + [c])[1..] == text[1..] + [c];
      PlainAppend(text[1..], c);
    }
  }

  lemma RadixAppend(front: string, last: char, base: nat)
    ensures RadixValue(front + [last], base)
         == if last == '_' then RadixValue(front, base) else RadixValue(front, base) * base + RadixDigit(last)
  {
    assert (front + [last])[..|front|] == front;
  }

  lemma PlaceSumNothing(base: nat)
    ensures RadixValue([], base) == 0 && PlaceSum([], base) == 0 && WithoutSeparators([]) == []
  {
  }

  // Reading from the left gives each digit the weight of its place.
  lemma {:induction false} RadixValueIsPlaceSum(text: string, base: nat)
    requires AllDigits(text, base) && base <= 16
    ensures RadixValue(text, base) == PlaceSum(WithoutSeparators(text), base)
    decreases |text|
  {
    hide DigitIndex, RadixDigit, RadixValue, PlaceSum, WithoutSeparators;
    PlaceSumNothing(base);
    if text != [] {
      var front, last := text[..|text| - 1], text[|text| - 1];
      RadixValueIsPlaceSum(front, base);
      assert text == front + [last];
      RadixAppend(front, last, base);
      PlainAppend(front, last);
      if last != '_' {
        RadixDigitIsIndex(last);
        PlaceSumAppend(WithoutSeparators(front), last, base);
      }
    }
  }

  // ---------- Decimal spelling ----------

  /** The digits in decimal; the buffer of two places a digit and two more is long enough. */
  method RadixDigitsToDecimal(digits: string, base: nat) returns (text: string)
    requires 0 < base <= 16
    ensures text == Dec(RadixValue(digits, base))
  {
    hide RadixValue, Scaled, Value;
    var decimal := new nat[2 * |digits| + 2];
    decimal[0] := 0;
    var count, i := 1, 0;
    OneDigit(decimal[..1], digits, base);
    while i < |digits|
      invariant 0 <= i <= |digits| && 1 <= count <= 2 * i + 1
      invariant IsCanonical(decimal[..count]) && Value(decimal[..count]) == RadixValue(digits[..i], base)
    {
      NextDigit(digits, i, base);
      if digits[i] != '_' {
        ghost var before, carry := decimal[..count], RadixDigit(digits[i]);
        ScaledValue(before, base, carry);
        ScaledCanonical(before, base, carry);
        ScaledLength(before, base, carry);
        count := MultiplyAdd(decimal, count, base, RadixDigit(digits[i]));
      }
      i := i + 1;
    }
    assert digits[..i] == digits;
    CanonicalIsDec(decimal[..count]);
    text := WriteText(decimal, count);
  }

  lemma OneDigit(one: seq<nat>, digits: string, base: nat)
    requires one == [0]
    ensures IsCanonical(one) && Value(one) == RadixValue(digits[..0], base)
  {
    assert one[1..] == [];
  }

  lemma NextDigit(digits: string, i: nat, base: nat)
    requires i < |digits|
    ensures var front := RadixValue(digits[..i], base);
            RadixValue(digits[..i + 1], base) == if digits[i] == '_' then front
                else front * base + RadixDigit(digits[i])
  {
    assert digits[..i + 1][..i] == digits[..i];
  }

  // ---------- Value and flags ----------

  // value is the signed 64-bit pattern; text is the decimal spelling kept for wide types.
  datatype Literal = Literal(value: int, text: string, isAboveI64Maximum: bool, isAboveU64Maximum: bool)

  method ParseIntegerLiteral(literal: string) returns (r: Literal)
    requires IsLiteral(literal)
    ensures r.isAboveU64Maximum <==> Written(literal) >= B
    ensures r.isAboveI64Maximum <==> Written(literal) >= B / 2
    ensures r.value == ToSigned(B, Written(literal) % B)
    ensures r.text == if IsPrefixed(literal) then Dec(Written(literal)) else literal
  {
    hide RadixValue, Dec, PlaceSum, WithoutSeparators, AllDigits, ToSigned;
    var base: nat, digits := 10, literal;
    if |literal| >= 2 && literal[0] == '0' {
      if literal[1] == 'x' || literal[1] == 'X' {
        base, digits := 16, literal[2..];
      } else if literal[1] == 'o' || literal[1] == 'O' {
        base, digits := 8, literal[2..];
      } else if literal[1] == 'b' || literal[1] == 'B' {
        base, digits := 2, literal[2..];
      }
    }
    var unsignedValue, isAbove := AccumulateDigits(digits, base);
    RadixValueIsPlaceSum(digits, base);
    var text := literal;
    if base != 10 {
      text := RadixDigitsToDecimal(digits, base);
    }
    if !isAbove {
      NoWrapBelow(B, Written(literal));
    }
    return Literal(ToSigned(B, unsignedValue), text, isAbove || unsignedValue > B / 2 - 1, isAbove);
  }

  /** The digits in uint64_t, and whether the number passes it. */
  method AccumulateDigits(digits: string, base: nat) returns (unsignedValue: Word, isAbove: bool)
    requires base in {2, 8, 10, 16} && AllDigits(digits, base)
    ensures isAbove <==> RadixValue(digits, base) >= B
    ensures unsignedValue == RadixValue(digits, base) % B
  {
    hide RadixValue, DigitIndex, RadixDigit;
    unsignedValue, isAbove := 0, false;
    var i := 0;
    NoDigits(digits, base);
    while i < |digits|
      invariant 0 <= i <= |digits|
      invariant isAbove <==> RadixValue(digits[..i], base) >= B
      invariant unsignedValue == RadixValue(digits[..i], base) % B
    {
      NextDigit(digits, i, base);
      if digits[i] != '_' {
        RadixDigitIsIndex(digits[i]);
        if base != 16 {
          DecimalDigit(digits[i]);
        }
        var digit := digits[i] as int - '0' as int;
        if base == 16 {
          digit := RadixDigit(digits[i]);
        }
        OneMoreDigit(RadixValue(digits[..i], base), base, digit);
        if GuardFails(unsignedValue, base, digit) {
          isAbove := true;
        }
        unsignedValue := Add64(Mul64(unsignedValue, base), digit);
      }
      i := i + 1;
    }
    assert digits[..i] == digits;
  }

  lemma DecimalDigit(c: char)
    requires '0' <= c <= '9'
    ensures RadixDigit(c) == c as int - '0' as int
  {
  }

  lemma NoDigits(digits: string, base: nat)
    ensures RadixValue(digits[..0], base) == 0
  {
  }

  predicate GuardFails(value: Word, base: nat, digit: nat)
    requires base in {2, 8, 10, 16} && digit < base
  {
    if base == 10 then value > (B - 1 - digit) / 10 else value > (B - 1) / base
  }

  // One more digit overflows exactly when the guard says so, and wraps as 64-bit arithmetic does.
  lemma OneMoreDigit(front: nat, base: nat, digit: nat)
    requires base in {2, 8, 10, 16} && digit < base
    ensures var next := front * base + digit;
            && next % B == Add64(Mul64(front % B, base), digit)
            && (next >= B <==> front >= B || GuardFails(front % B, base, digit))
  {
    StepWraps(front, base, digit);
    if front >= B {
      MulMonotone(1, base, front);
      MulCommutes(base, front);
    } else {
      NoWrapBelow(B, front);
      GuardIsExact(front, base, digit);
    }
  }

  lemma StepWraps(front: nat, base: nat, digit: nat)
    requires base < B && digit < B
    ensures (front * base + digit) % B == Add64(Mul64(front % B, base), digit)
  {
    var q, u := front / B, front % B;
    DivMod(front, B);
    DivMod(u * base, B);
    MulDistributes(B * q, u, base);
    MulAssociates(B, q, base);
    MulCommutes(B, q * base);
    MulCommutes(B, (u * base) / B);
    MulDistributes(q * base, (u * base) / B, B);
    ModOffset(B, front * base + digit, q * base + (u * base) / B, (u * base) % B + digit);
  }

  lemma GuardIsExact(front: Word, base: nat, digit: nat)
    requires base in {2, 8, 10, 16} && digit < base
    ensures front * base + digit >= B <==> GuardFails(front, base, digit)
  {
    if base == 2 {
      assert front * base == front * 2;
    } else if base == 8 {
      assert front * base == front * 8;
    } else if base == 10 {
      assert front * base == front * 10;
    } else {
      assert front * base == front * 16;
    }
  }

  // ---------- Every number can be written in every base ----------

  /** The numeral of n. */
  function Numeral(n: nat, base: nat): (digits: string)
    requires 2 <= base <= 16
    ensures digits != []
    decreases n
  {
    if n < base then [DIGITS[n]]
    else
      DivLess(n, base);
      Numeral(n / base, base) + [DIGITS[n % base]]
  }

  lemma DivLess(n: nat, base: nat)
    requires n >= base >= 2
    ensures n / base < n
  {
    DivMod(n, base);
    if n / base >= n {
      MulMonotone(n, n / base, base);
      MulMonotone(2, base, n);
      MulCommutes(n, base);
      MulCommutes(base, n / base);
    }
  }

  lemma IndexOfDigit(d: nat)
    requires d < 16
    ensures DigitIndex(DIGITS[d]) == d && DIGITS[d] != '_'
  {
    FirstIndex(d, 0);
  }

  lemma {:induction false} FirstIndex(d: nat, from: nat)
    requires from <= d < 16
    ensures IndexOf(DIGITS[d], from) == d
    decreases d - from
  {
    if from < d {
      FirstIndex(d, from + 1);
    }
  }

  lemma {:induction false} NumeralReadsBack(n: nat, base: nat)
    requires 2 <= base <= 16
    ensures WithoutSeparators(Numeral(n, base)) == Numeral(n, base) && PlaceSum(Numeral(n, base), base) == n
    ensures AllDigits(Numeral(n, base), base)
    decreases n
  {
    hide DigitIndex, PlaceSum, WithoutSeparators;
    PlaceSumNothing(base);
    if n < base {
      IndexOfDigit(n);
      PlainAppend([], DIGITS[n]);
      PlaceSumAppend([], DIGITS[n], base);
      assert [] + [DIGITS[n]] == [DIGITS[n]];
    } else {
      IndexOfDigit(n % base);
      DivLess(n, base);
      NumeralReadsBack(n / base, base);
      PlainAppend(Numeral(n / base, base), DIGITS[n % base]);
      PlaceSumAppend(Numeral(n / base, base), DIGITS[n % base], base);
      DivMod(n, base);
      MulCommutes(base, n / base);
    }
  }

  /** Each prefix reads back the numeral of its base. */
  method RoundTrip(n: nat) returns (binary: Literal, octal: Literal, hexadecimal: Literal, decimal: Literal)
    ensures binary.value == octal.value == hexadecimal.value == decimal.value == ToSigned(B, n % B)
    ensures binary.isAboveU64Maximum == octal.isAboveU64Maximum == hexadecimal.isAboveU64Maximum == (n >= B)
    ensures decimal.isAboveU64Maximum == (n >= B)
    ensures binary.text == octal.text == hexadecimal.text == Dec(n) && decimal.text == Numeral(n, 10)
  {
    hide PlaceSum, WithoutSeparators, AllDigits, Numeral, Dec, ToSigned;
    NumeralReadsBack(n, 2);
    NumeralReadsBack(n, 8);
    NumeralReadsBack(n, 10);
    NumeralReadsBack(n, 16);
    NoPrefix(n);
    var b, o, x := "0b" + Numeral(n, 2), "0o" + Numeral(n, 8), "0x" + Numeral(n, 16);
    assert b[2..] == Numeral(n, 2) && o[2..] == Numeral(n, 8) && x[2..] == Numeral(n, 16);
    binary := ParseIntegerLiteral(b);
    octal := ParseIntegerLiteral(o);
    hexadecimal := ParseIntegerLiteral(x);
    decimal := ParseIntegerLiteral(Numeral(n, 10));
  }

  lemma NoPrefix(n: nat)
    ensures !IsPrefixed(Numeral(n, 10))
  {
    hide PlaceSum, WithoutSeparators, Numeral;
    NumeralReadsBack(n, 10);
    var digits := Numeral(n, 10);
    if |digits| >= 2 {
      DecimalOnly(digits[1]);
    }
  }

  lemma DecimalOnly(c: char)
    requires c == '_' || DigitIndex(c) < 10
    ensures c !in {'b', 'B', 'o', 'O', 'x', 'X'}
  {
    if c != '_' {
      RadixDigitIsIndex(c);
    }
  }
}
