/** Decimal rendering and reading of the four wide integer types. */
module WideText {
  import opened Algebra
  import opened Words
  import opened Numerals
  import opened Wide128
  import opened Checked128
  import W = Wide256
  import C = Checked256
  import opened TwosComplement
  import opened Outcomes

  type Words4 = W.Words4

  // ---------- 128 bits ----------

  method ToString128(value: U128) returns (text: string)
    ensures text == Dec(Nat(value))
  {
    hide Dec, Rendering, Pow10, Digit;
    if value.high == 0 {
      return Dec(value.low);  // snprintf("%" PRIu64)
    }
    var buffer := new char[40];
    var position := 39;
    buffer[position] := '\0';
    var remaining := value;
    RenderStart(Nat(value));
    assert buffer[position..39] == [];
    while remaining.high != 0 || remaining.low != 0
      invariant 0 <= position <= 39
      invariant Rendering(Nat(value), Nat(remaining), buffer[position..39])
      decreases Nat(remaining)
    {
      ghost var done := buffer[position..39];
      RenderDigit(Nat(value), Nat(remaining), done);
      RoomLeft(Nat(value), |done|);
      var divided := DivMod128(remaining, U128(10, 0));
      position := position - 1;
      buffer[position] := Digit(divided.value.1.low);
      assert buffer[position..39] == [Digit(Nat(remaining) % 10)] + done;
      remaining := divided.value.0;
    }
    RenderEnd(Nat(value), buffer[position..39]);
    // The '0' that C writes for an empty buffer is not needed: the value is not zero.
    return buffer[position..39];
  }

  method ToStringSigned128(value: I128) returns (text: string)
    ensures text == SignedDec(Int(value))
  {
    MagnitudeIsAbs(value);
    text := ToString128(Magnitude(value));
    if value.high < 0 {
      text := "-" + text;
    }
  }

  lemma SmallNat(n: Word)
    ensures Nat(U128(n, 0)) == n
  {
  }

  method FromDecimal128(text: string) returns (result: Outcome<U128>)
    ensures result.Value? <==> IsNumeral(text)
    ensures result.Panic? ==> result.code == "P0102"
    ensures result.Value? ==> Nat(result.value) == DecValue(text) % M128
  {
    hide Mul, Add, Nat;
    var bits := U128(0, 0);
    var i := 0;
    assert text[..0] == [];
    SmallNat(0);
    SmallNat(10);
    while i < |text|
      invariant 0 <= i <= |text|
      invariant IsNumeral(text[..i]) && Nat(bits) == DecValue(text[..i]) % M128
    {
      assert text[..i + 1][..i] == text[..i] && text[..i + 1][i] == text[i];
      if text[i] == '_' {
        i := i + 1;
        continue;
      }
      if !IsDigit(text[i]) {
        return Panic("P0102");
      }
      SmallNat(DigitValue(text[i]));
      MulExact(bits, U128(10, 0));
      AddExact(Mul(bits, U128(10, 0)), U128(DigitValue(text[i]), 0));
      DigitModulo(M128, DecValue(text[..i]), DigitValue(text[i]));
      bits := Add(Mul(bits, U128(10, 0)), U128(DigitValue(text[i]), 0));
      i := i + 1;
    }
    assert text[..i] == text;
    return Value(bits);
  }

  method FromDecimalSigned128(text: string) returns (result: Outcome<I128>)
    ensures result.Value? <==> IsNumeral(SignPart(text))
    ensures result.Panic? ==> result.code == "P0102"
    ensures result.Value? ==> Int(result.value) == Wrap(M128, SignedDecValue(text))
  {
    var isNegative := text != [] && text[0] == '-';
    var bits := FromDecimal128(if isNegative then text[1..] else text);
    if bits.Panic? {
      return Panic(bits.code);
    }
    var magnitude := FromU128(bits.value);
    CastsKeepBits(bits.value, magnitude);
    if isNegative {
      SignedNegExact(magnitude);
      NegatedNumeral(M128, DecValue(text[1..]), Nat(bits.value));
      return Value(SignedNeg(magnitude));
    }
    return Value(magnitude);
  }

  // What is written is read back, for every value of the type.
  method RoundTrip128(value: U128) returns (result: Outcome<U128>)
    ensures result == Value(value)
  {
    var text := ToString128(value);
    DecRoundTrip(Nat(value));
    NoWrapBelow(M128, Nat(value));
    result := FromDecimal128(text);
    NatsDiffer(result.value, value);
  }

  method RoundTripSigned128(value: I128) returns (result: Outcome<I128>)
    ensures result == Value(value)
  {
    var text := ToStringSigned128(value);
    SignedDecRoundTrip(Int(value));
    WrapExact(M128, Int(value));
    result := FromDecimalSigned128(text);
    if result.value != value {
      IntsDiffer(result.value, value);
    }
  }

  // ---------- 256 bits ----------

  const TEN: Words4 := [10, 0, 0, 0]

  lemma TenIsTen()
    ensures Val(TEN) == 10
  {
    Val4(TEN);
  }

  lemma LowWordIs(ws: Words4)
    requires Val(ws) < B
    ensures ws[0] == Val(ws)
  {
    Val4(ws);
  }

  method ToString256(value: Words4) returns (text: string)
    ensures text == Dec(Val(value))
  {
    hide Dec, Rendering, Pow10, Val, C.IsZero, C.Int256, C.IsNegative;
    Val4(value);
    if value[1] == 0 && value[2] == 0 && value[3] == 0 {
      return Dec(value[0]);  // snprintf("%" PRIu64)
    }
    var buffer := new char[80];
    var position := 79;
    buffer[position] := '\0';
    var remaining := value;
    RenderStart(Val(value));
    assert buffer[position..79] == [];
    C.SignAndZero(remaining);
    W.ValBelow(value);
    TenIsTen();
    while !C.IsZero(remaining)
      invariant 0 <= position <= 79
      invariant Rendering(Val(value), Val(remaining), buffer[position..79])
      invariant C.IsZero(remaining) <==> Val(remaining) == 0
      decreases Val(remaining)
    {
      ghost var done := buffer[position..79];
      RenderDigit(Val(value), Val(remaining), done);
      RoomLeft(Val(value), |done|);
      var divided := W.DivMod256(remaining, TEN);
      LowWordIs(divided.value.1);
      position := position - 1;
      buffer[position] := Digit(divided.value.1[0]);
      assert buffer[position..79] == [Digit(Val(remaining) % 10)] + done;
      remaining := divided.value.0;
      C.SignAndZero(remaining);
    }
    RenderEnd(Val(value), buffer[position..79]);
    return buffer[position..79];
  }

  method ToStringSigned256(value: Words4) returns (text: string)
    ensures text == SignedDec(C.Int256(value))
  {
    C.SignAndZero(value);
    var magnitude := C.Magnitude(value);
    text := ToString256(magnitude);
    if C.IsNegative(value) {
      text := "-" + text;
    }
  }

  method FromDecimal256(text: string) returns (result: Outcome<Words4>)
    ensures result.Value? <==> IsNumeral(text)
    ensures result.Panic? ==> result.code == "P0102"
    ensures result.Value? ==> Val(result.value) == DecValue(text) % W.M256
  {
    var bits: Words4 := W.ZERO;
    W.ZeroWords();
    TenIsTen();
    var i := 0;
    assert text[..0] == [];
    while i < |text|
      invariant 0 <= i <= |text|
      invariant IsNumeral(text[..i]) && Val(bits) == DecValue(text[..i]) % W.M256
    {
      assert text[..i + 1][..i] == text[..i] && text[..i + 1][i] == text[i];
      if text[i] == '_' {
        i := i + 1;
        continue;
      }
      if !IsDigit(text[i]) {
        return Panic("P0102");
      }
      DigitModulo(W.M256, DecValue(text[..i]), DigitValue(text[i]));
      bits := W.Mul(bits, TEN);
      var digit: Words4 := [DigitValue(text[i]), 0, 0, 0];
      Val4(digit);
      bits := W.Add(bits, digit);
      i := i + 1;
    }
    assert text[..i] == text;
    return Value(bits);
  }

  method FromDecimalSigned256(text: string) returns (result: Outcome<Words4>)
    ensures result.Value? <==> IsNumeral(SignPart(text))
    ensures result.Panic? ==> result.code == "P0102"
    ensures result.Value? ==> C.Int256(result.value) == Wrap(W.M256, SignedDecValue(text))
  {
    var isNegative := text != [] && text[0] == '-';
    result := FromDecimal256(if isNegative then text[1..] else text);
    if result.Value? && isNegative {
      NegatedNumeral(W.M256, DecValue(text[1..]), Val(result.value));
      var negated := W.Neg(result.value);
      result := Value(negated);
    }
  }

  method RoundTrip256(value: Words4) returns (result: Outcome<Words4>)
    ensures result == Value(value)
  {
    var text := ToString256(value);
    DecRoundTrip(Val(value));
    W.ValBelow(value);
    NoWrapBelow(W.M256, Val(value));
    result := FromDecimal256(text);
    C.LessMeans(result.value, value);
  }

  method RoundTripSigned256(value: Words4) returns (result: Outcome<Words4>)
    ensures result == Value(value)
  {
    var text := ToStringSigned256(value);
    SignedDecRoundTrip(C.Int256(value));
    C.SignAndZero(value);
    WrapExact(W.M256, C.Int256(value));
    result := FromDecimalSigned256(text);
    C.LessMeans(result.value, value);
  }
}
