/** Comparison, signed division and the overflow-checked operations of i256 and u256. */
module Checked256 {
  import opened Algebra
  import opened Words
  import opened Wide256
  import opened TwosComplement
  import opened Outcomes

  /** The signed value of four words. */
  function Int256(ws: Words4): (x: int) {
    ToSigned(M256, Val(ws))
  }

  // (int64_t)w[3] < 0
  predicate IsNegative(ws: Words4) {
    ws[3] >= 0x8000_0000_0000_0000
  }

  predicate IsZero(ws: Words4) {
    ws[0] == 0 && ws[1] == 0 && ws[2] == 0 && ws[3] == 0
  }

  lemma SignAndZero(ws: Words4)
    ensures Val(ws) < M256
    ensures IsNegative(ws) <==> Int256(ws) < 0
    ensures IsZero(ws) <==> Val(ws) == 0
    ensures IsZero(ws) <==> Int256(ws) == 0
    ensures Fits(M256, Int256(ws))
  {
    Val4(ws);
    ValBelow(ws);
  }

  predicate LessUnsigned(left: Words4, right: Words4) {
    if left[3] != right[3] then left[3] < right[3]
    else if left[2] != right[2] then left[2] < right[2]
    else if left[1] != right[1] then left[1] < right[1]
    else left[0] < right[0]
  }

  predicate LessSigned(left: Words4, right: Words4) {
    if left[3] != right[3] then ToSigned(B, left[3]) < ToSigned(B, right[3])
    else if left[2] != right[2] then left[2] < right[2]
    else if left[1] != right[1] then left[1] < right[1]
    else left[0] < right[0]
  }

  lemma LessMeans(left: Words4, right: Words4)
    ensures LessUnsigned(left, right) <==> Val(left) < Val(right)
    ensures left == right <==> Val(left) == Val(right)
    ensures left == right <==> Int256(left) == Int256(right)
  {
    Val4(left);
    Val4(right);
    ValBelow(left);
    ValBelow(right);
  }

  lemma LessSignedMeans(left: Words4, right: Words4)
    ensures LessSigned(left, right) <==> Int256(left) < Int256(right)
  {
    SignAndZero(left);
    SignAndZero(right);
    LessMeans(left, right);
  }

  // ---------- Signed division ----------

  method Magnitude(value: Words4) returns (magnitude: Words4)
    ensures Val(magnitude) == Abs(Int256(value))
  {
    SignAndZero(value);
    MagnitudeOf(M256, Val(value));
    if IsNegative(value) {
      magnitude := Neg(value);
    } else {
      magnitude := value;
    }
  }

  /** Truncating division; only MIN / -1 wraps. */
  method SignedDiv(left: Words4, right: Words4) returns (result: Outcome<Words4>)
    ensures Int256(right) == 0 ==> result == Panic("P0078")
    ensures Int256(right) != 0 ==>
              result.Value? && Int256(result.value) == Wrap(M256, TruncDiv(Int256(left), Int256(right)))
  {
    SignAndZero(left);
    SignAndZero(right);
    var negate := IsNegative(left) != IsNegative(right);
    var magnitudeLeft := Magnitude(left);
    var magnitudeRight := Magnitude(right);
    var divided := DivMod256(magnitudeLeft, magnitudeRight);
    if divided.Panic? {
      return Panic(divided.code);
    }
    var quotient := divided.value.0;
    DivShrinks(Val(magnitudeLeft), Val(magnitudeRight));
    ValBelow(quotient);
    NoWrapBelow(M256, Val(quotient));
    if negate {
      quotient := Neg(quotient);
    }
    return Value(quotient);
  }

  /** The remainder, which takes the sign of the dividend. */
  method SignedMod(left: Words4, right: Words4) returns (result: Outcome<Words4>)
    ensures Int256(right) == 0 ==> result == Panic("P0078")
    ensures Int256(right) != 0 ==> result.Value? && Int256(result.value) == TruncMod(Int256(left), Int256(right))
  {
    SignAndZero(left);
    SignAndZero(right);
    var magnitudeLeft := Magnitude(left);
    var magnitudeRight := Magnitude(right);
    var divided := DivMod256(magnitudeLeft, magnitudeRight);
    if divided.Panic? {
      return Panic(divided.code);
    }
    var remainder := divided.value.1;
    MagnitudeOf(M256, Val(right));
    DivMod(Val(magnitudeLeft), Val(magnitudeRight));
    NoWrapBelow(M256, Val(remainder));
    WrapExact(M256, TruncMod(Int256(left), Int256(right)));
    if IsNegative(left) {
      remainder := Neg(remainder);
    }
    return Value(remainder);
  }

  // ---------- Checked operations: they panic exactly when the true result is out of range ----------

  method UnsignedAddChecked(left: Words4, right: Words4) returns (result: Outcome<Words4>)
    ensures Val(left) + Val(right) >= M256 ==> result == Panic("P0030")
    ensures Val(left) + Val(right) < M256 ==> result.Value? && Val(result.value) == Val(left) + Val(right)
  {
    hide Val, LessUnsigned;
    var sum := Add(left, right);
    LessMeans(sum, left);
    ValBelow(left);
    ValBelow(right);
    WrappedSum(M256, Val(left), Val(right));
    if LessUnsigned(sum, left) {
      return Panic("P0030");
    }
    return Value(sum);
  }

  method UnsignedSubChecked(left: Words4, right: Words4) returns (result: Outcome<Words4>)
    ensures Val(left) < Val(right) ==> result == Panic("P0031")
    ensures Val(left) >= Val(right) ==> result.Value? && Val(result.value) == Val(left) - Val(right)
  {
    LessMeans(left, right);
    ValBelow(left);
    if LessUnsigned(left, right) {
      return Panic("P0031");
    }
    var difference := Sub(left, right);
    NoWrapBelow(M256, Val(left) - Val(right));
    return Value(difference);
  }

  method UnsignedMulChecked(left: Words4, right: Words4) returns (result: Outcome<Words4>)
    ensures Val(left) * Val(right) >= M256 ==> result == Panic("P0032")
    ensures Val(left) * Val(right) < M256 ==> result.Value? && Val(result.value) == Val(left) * Val(right)
  {
    var product := Mul(left, right);
    SignAndZero(left);
    SignAndZero(right);
    MulNonNegative(Val(left), Val(right));
    ModBelow(Val(left) * Val(right), M256);
    if !IsZero(left) && !IsZero(right) {
      var check := DivMod256(product, right);
      LessMeans(check.value.0, left);
      DivideBack(M256, Val(left), Val(right));
      if check.value.0 != left {
        return Panic("P0032");
      }
    } else {
      ZeroProduct(Val(left), Val(right));
    }
    return Value(product);
  }

  method SignedAddChecked(left: Words4, right: Words4) returns (result: Outcome<Words4>)
    ensures !Fits(M256, Int256(left) + Int256(right)) ==> result == Panic("P0027")
    ensures Fits(M256, Int256(left) + Int256(right)) ==>
              result.Value? && Int256(result.value) == Int256(left) + Int256(right)
  {
    var sum := Add(left, right);
    AddAgrees(M256, Val(left), Val(right));
    SignAndZero(left);
    SignAndZero(right);
    SignAndZero(sum);
    OverflowFlipsSign(M256, Int256(left) + Int256(right));
    if (!IsNegative(left) && !IsNegative(right) && IsNegative(sum))
        || (IsNegative(left) && IsNegative(right) && !IsNegative(sum)) {
      return Panic("P0027");
    }
    return Value(sum);
  }

  method SignedSubChecked(left: Words4, right: Words4) returns (result: Outcome<Words4>)
    ensures !Fits(M256, Int256(left) - Int256(right)) ==> result == Panic("P0028")
    ensures Fits(M256, Int256(left) - Int256(right)) ==>
              result.Value? && Int256(result.value) == Int256(left) - Int256(right)
  {
    var difference := Sub(left, right);
    SubAgrees(M256, Val(left), Val(right));
    SignAndZero(left);
    SignAndZero(right);
    SignAndZero(difference);
    OverflowFlipsSign(M256, Int256(left) - Int256(right));
    if (!IsNegative(left) && IsNegative(right) && IsNegative(difference))
        || (IsNegative(left) && !IsNegative(right) && !IsNegative(difference)) {
      return Panic("P0028");
    }
    return Value(difference);
  }

  // i256 multiplication is the u256 loop on the same words.
  method SignedMul(left: Words4, right: Words4) returns (result: Words4)
    ensures Int256(result) == Wrap(M256, Int256(left) * Int256(right))
  {
    MulAgrees(M256, Val(left), Val(right));
    result := Mul(left, right);
  }

  /** Exact on every pair but one: MIN * -1 is out of range and still returned, as MIN. */
  method SignedMulChecked(left: Words4, right: Words4) returns (result: Outcome<Words4>)
    ensures result.Value? <==>
            Fits(M256, Int256(left) * Int256(right)) || (2 * Int256(left) == -M256 && Int256(right) == -1)
    ensures result.Panic? ==> result.code == "P0029"
    ensures result.Value? ==> Int256(result.value) == Wrap(M256, Int256(left) * Int256(right))
  {
    hide TruncDiv, Wrap, Int256, Fits, Val, LessUnsigned, LessSigned;
    var product := SignedMul(left, right);
    SignAndZero(left);
    SignAndZero(right);
    if !IsZero(left) && !IsZero(right) {
      var check := SignedDiv(product, right);
      LessMeans(check.value, left);
      SignedDivideBack(M256, Int256(left), Int256(right));
      if check.value != left {
        return Panic("P0029");
      }
    } else {
      ZeroProduct(Int256(left), Int256(right));
    }
    return Value(product);
  }

  /** Negating the minimum overflows; every other value negates exactly. */
  method NegChecked(value: Words4) returns (result: Outcome<Words4>)
    ensures 2 * Int256(value) == -M256 ==> result == Panic("P0014")
    ensures 2 * Int256(value) != -M256 ==> result.Value? && Int256(result.value) == -Int256(value)
  {
    var negated := Neg(value);
    SubAgrees(M256, 0, Val(value));
    SignAndZero(value);
    SignAndZero(negated);
    OverflowFlipsSign(M256, -Int256(value));
    if IsNegative(value) && IsNegative(negated) {
      return Panic("P0014");
    }
    return Value(negated);
  }

  method AbsChecked(value: Words4) returns (result: Outcome<Words4>)
    ensures 2 * Int256(value) == -M256 ==> result == Panic("P0014")
    ensures 2 * Int256(value) != -M256 ==> result.Value? && Int256(result.value) == Abs(Int256(value))
  {
    SignAndZero(value);
    if IsNegative(value) {
      result := NegChecked(value);
    } else {
      result := Value(value);
    }
  }
}
