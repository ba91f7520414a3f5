/** Range validation of integer overrides, on decimal text. */
module Defines {
  import opened Options
  import opened Algebra
  import opened Bits
  import opened Words
  import opened Numerals
  import opened DigitBuffer

  const MAX_INTEGER_BITS := 256
  const MAX_INTEGER_DIGITS := 80

  // ---------- Powers of two ----------

  /** Writes 2^exponent in decimal; the 80-byte buffers are long enough. */
  method PowerOfTwoDecimal(exponent: nat) returns (text: string)
    requires exponent <= MAX_INTEGER_BITS
    ensures text == Dec(Pow2(exponent)) && |text| < MAX_INTEGER_DIGITS
  {
    hide Pow2, Scaled, Value, Dec;
    var digits := new nat[MAX_INTEGER_DIGITS];
    digits[0] := 1;
    var count, step := 1, 0;
    One(digits[..1]);
    while step < exponent
      invariant step <= exponent && count <= 78
      invariant IsCanonical(digits[..count]) && Value(digits[..count]) == Pow2(step)
    {
      ghost var before := digits[..count];
      ScaledValue(before, 2, 0);
      ScaledCanonical(before, 2, 0);
      Doubled(step);
      count := MultiplyAdd(digits, count, 2, 0);
      step := step + 1;
      PowerHas78Digits(digits[..count], step);
    }
    CanonicalIsDec(digits[..count]);
    text := WriteText(digits, count);
  }

  lemma One(digits: seq<nat>)
    requires digits == [1]
    ensures IsCanonical(digits) && Value(digits) == Pow2(0)
  {
  }

  lemma {:induction false} CanonicalIsLarge(digits: seq<nat>)
    requires EndsNonZero(digits)
    ensures Pow10(|digits| - 1) <= Value(digits)
    decreases |digits|
  {
    if |digits| > 1 {
      CanonicalIsLarge(digits[1..]);
    }
  }

  lemma PowerBound(n: nat)
    requires n <= MAX_INTEGER_BITS
    ensures 0 < Pow2(n) < Pow10(78)
  {
    hide Pow2, Pow10;
    Pow2Monotone(n, 256);
    Pow2Values();
    Pow2Add(64, 64);
    Pow2Add(128, 128);
    MulAssociates(B * B, B, B);
    DigitsSuffice();
  }

  lemma PowerHas78Digits(digits: seq<nat>, n: nat)
    requires IsCanonical(digits) && Value(digits) == Pow2(n) && n <= MAX_INTEGER_BITS
    ensures |digits| <= 78
  {
    if |digits| > 78 {
      CanonicalIsLarge(digits);
      PowerBound(n);
      Pow10Monotone(78, |digits| - 1);
      assert false;
    }
  }

  // ---------- Comparison ----------

  /** The sign of C's strcmp. */
  function StringCompare(left: string, right: string): (r: int) {
    if left == "" then (if right == "" then 0 else -1)
    else if right == "" then 1
    else if left[0] != right[0] then (if left[0] < right[0] then -1 else 1)
    else StringCompare(left[1..], right[1..])
  }

  function CompareMagnitude(left: string, right: string): (r: int) {
    if |left| != |right| then (if |left| < |right| then -1 else 1) else StringCompare(left, right)
  }

  predicate IsDigitText(text: string) {
    forall i :: 0 <= i < |text| ==> IsDigit(text[i])
  }

  predicate HasNoLeadingZero(text: string) {
    text != "" && IsDigitText(text) && (|text| > 1 ==> text[0] != '0')
  }

  function Sign(x: int): int {
    if x < 0 then -1 else if x > 0 then 1 else 0
  }

  // The last characters decide only when the rest agree.
  lemma {:induction false} CompareLast(left: string, right: string)
    requires |left| == |right| > 0
    ensures var n := |left| - 1; var front := StringCompare(left[..n], right[..n]);
            StringCompare(left, right) == if front != 0 then front else Sign(left[n] as int - right[n] as int)
    decreases |left|
  {
    if |left| > 1 {
      CompareLast(left[1..], right[1..]);
      var n := |left| - 1;
      assert left[1..][..n - 1] == left[..n][1..] && right[1..][..n - 1] == right[..n][1..];
    } else {
      assert left[1..] == "" && right[1..] == "";
    }
  }

  // Of equally long digit texts, the lexicographically smaller one is the smaller number.
  lemma {:induction false} CompareEqualLength(left: string, right: string)
    requires |left| == |right| && IsDigitText(left) && IsDigitText(right)
    ensures StringCompare(left, right) == Sign(DecValue(left) as int - DecValue(right))
    decreases |left|
  {
    if left != "" {
      var n := |left| - 1;
      CompareLast(left, right);
      CompareEqualLength(left[..n], right[..n]);
    }
  }

  lemma {:induction false} LengthBounds(text: string)
    requires IsDigitText(text)
    ensures DecValue(text) < Pow10(|text|)
    ensures text != "" && text[0] != '0' ==> Pow10(|text| - 1) <= DecValue(text)
    decreases |text|
  {
    if text != "" {
      LengthBounds(text[..|text| - 1]);
      if |text| == 1 {
        assert text[..0] == "";
      }
    }
  }

  /** Comparing length first and then text compares the numbers. */
  lemma CompareIsNumeric(left: string, right: string)
    requires HasNoLeadingZero(left) && HasNoLeadingZero(right)
    ensures CompareMagnitude(left, right) == Sign(DecValue(left) as int - DecValue(right))
  {
    if |left| == |right| {
      CompareEqualLength(left, right);
    } else {
      LengthBounds(left);
      LengthBounds(right);
      if |left| < |right| {
        Pow10Monotone(|left|, |right| - 1);
      } else {
        Pow10Monotone(|right|, |left| - 1);
      }
    }
  }

  // ---------- Validation ----------

  function AfterSign(text: string): string {
    if text != "" && (text[0] == '-' || text[0] == '+') then text[1..] else text
  }

  predicate IsNegative(text: string) {
    text != "" && text[0] == '-'
  }

  /** An optional sign and one or more digits. */
  predicate IsInteger(text: string) {
    AfterSign(text) != "" && IsDigitText(AfterSign(text))
  }

  function IntegerValue(text: string): int
    requires IsInteger(text)
  {
    if IsNegative(text) then -(DecValue(AfterSign(text)) as int) else DecValue(AfterSign(text))
  }

  predicate InRange(x: int, isSigned: bool, bits: nat)
    requires bits > 0
  {
    if isSigned then -(Pow2(bits - 1) as int) <= x < Pow2(bits - 1) else 0 <= x < Pow2(bits)
  }

  lemma {:induction false} DropZero(text: string)
    requires IsDigitText(text) && |text| > 1 && text[0] == '0'
    ensures DecValue(text[1..]) == DecValue(text)
    decreases |text|
  {
    var n := |text| - 1;
    assert text[1..][..n - 1] == text[..n][1..];
    if n > 1 {
      DropZero(text[..n]);
    } else {
      assert text[1..][..0] == "" && text[..1][..0] == "";
      assert DecValue(text[..1]) == 0;
    }
  }

  method SkipZeros(text: string) returns (r: string)
    requires text != "" && IsDigitText(text)
    ensures HasNoLeadingZero(r) && DecValue(r) == DecValue(text)
  {
    hide DecValue;
    var i := 0;
    assert text[0..] == text;
    while text[i] == '0' && i + 1 < |text|
      invariant 0 <= i < |text| && DecValue(text[i..]) == DecValue(text)
      decreases |text| - i
    {
      DropZero(text[i..]);
      assert text[i..][1..] == text[i + 1..];
      i := i + 1;
    }
    r := text[i..];
  }

  lemma ZeroOrNot(text: string)
    requires HasNoLeadingZero(text)
    ensures text[0] == '0' <==> DecValue(text) == 0
  {
  }

  lemma TooLong(text: string, n: nat)
    requires HasNoLeadingZero(text) && |text| >= MAX_INTEGER_DIGITS && n <= MAX_INTEGER_BITS
    ensures DecValue(text) > Pow2(n)
  {
    LengthBounds(text);
    Pow10Monotone(78, |text| - 1);
    PowerBound(n);
  }

  lemma {:induction false} DecIsCanonicalText(n: nat)
    ensures HasNoLeadingZero(Dec(n)) && (n > 0 ==> Dec(n)[0] != '0') && DecValue(Dec(n)) == n
  {
    DecRoundTrip(n);
    if n >= 10 {
      DecIsCanonicalText(n / 10);
    }
  }

  lemma {:induction false} DecOfText(text: string)
    requires HasNoLeadingZero(text)
    ensures Dec(DecValue(text)) == text
    decreases |text|
  {
    var n := |text| - 1;
    if n > 0 {
      DecOfText(text[..n]);
      ZeroOrNot(text[..n]);
    } else {
      assert text[..0] == "" && text == [text[0]];
    }
  }

  // A power of two is not a multiple of five, so its last digit is not zero.
  lemma {:induction false} PowerNotMultipleOfFive(n: nat)
    ensures Pow2(n) % 5 != 0
  {
    if n > 0 {
      PowerNotMultipleOfFive(n - 1);
    }
  }

  function Lowered(text: string): string
    requires text != "" && '0' < text[|text| - 1] <= '9'
  {
    text[..|text| - 1] + [(text[|text| - 1] as int - 1) as char]
  }

  lemma LastDigitLowered(p: nat)
    requires p >= 10 && p % 10 != 0
    ensures var limit := Dec(p);
            && limit != "" && '0' < limit[|limit| - 1] <= '9'
            && HasNoLeadingZero(Lowered(limit)) && DecValue(Lowered(limit)) == p - 1
  {
    var limit := Dec(p);
    assert limit == Dec(p / 10) + [Digit(p % 10)];
    assert limit[..|limit| - 1] == Dec(p / 10);
    DecIsCanonicalText(p / 10);
    var lowered := Lowered(limit);
    assert lowered == Dec(p / 10) + [Digit(p % 10 - 1)];
    assert lowered[..|lowered| - 1] == Dec(p / 10);
  }

  lemma LessOne(n: nat)
    requires n >= 4
    ensures var limit := Dec(Pow2(n));
            && limit != "" && '0' < limit[|limit| - 1] <= '9'
            && HasNoLeadingZero(Lowered(limit)) && DecValue(Lowered(limit)) == Pow2(n) - 1
  {
    hide Pow2, Dec, DecValue, Lowered, HasNoLeadingZero;
    Sixteen();
    Pow2Monotone(4, n);
    PowerIsEven(n);
    PowerNotMultipleOfFive(n);
    LastDigitLowered(Pow2(n));
  }

  lemma Sixteen()
    ensures Pow2(4) == 16
  {
  }

  lemma PowerIsEven(n: nat)
    requires n > 0
    ensures Pow2(n) % 2 == 0
  {
  }

  /** Accepts exactly the integers of the type, and returns their canonical text. */
  method NormalizeInteger(text: string, isSigned: bool, bits: nat) returns (r: Option<string>)
    requires 8 <= bits <= MAX_INTEGER_BITS
    ensures r.Some? <==> IsInteger(text) && InRange(IntegerValue(text), isSigned, bits)
    ensures r.Some? ==> r.value == SignedDec(IntegerValue(text))
  {
    hide Pow2, Dec, CompareMagnitude, DecValue;
    var isNegative, cursor := false, text;
    if text != "" && (text[0] == '-' || text[0] == '+') {
      isNegative := text[0] == '-';
      cursor := text[1..];
    }
    if cursor == "" {
      return None;
    }
    var digit := 0;
    while digit < |cursor|
      invariant 0 <= digit <= |cursor| && IsDigitText(cursor[..digit])
    {
      assert cursor[..digit + 1] == cursor[..digit] + [cursor[digit]];
      if !IsDigit(cursor[digit]) {
        return None;
      }
      digit := digit + 1;
    }
    assert cursor[..digit] == cursor;
    var magnitude := SkipZeros(cursor);
    ghost var n := DecValue(cursor);
    if |magnitude| >= MAX_INTEGER_DIGITS {
      TooLong(magnitude, bits);
      TooLong(magnitude, bits - 1);
      return None;
    }
    var isZero := magnitude[0] == '0';
    LengthBounds(magnitude);
    ZeroOrNot(magnitude);
    if isNegative && !isZero && !isSigned {
      return None;
    }
    var exponent := if isSigned then bits - 1 else bits;
    var limit := PowerOfTwoDecimal(exponent);
    DecIsCanonicalText(Pow2(exponent));
    if !(isNegative && !isZero) {
      LessOne(exponent);
      limit := Lowered(limit);
    }
    CompareIsNumeric(magnitude, limit);
    if CompareMagnitude(magnitude, limit) > 0 {
      return None;
    }
    DecOfText(magnitude);
    return Some(if isNegative && !isZero then "-" + magnitude else magnitude);
  }
}
