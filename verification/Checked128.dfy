/** Signed division and the overflow-checked operations of i128 and u128. The i128 code computes
    on the same words as u128, through casts that keep the bits. */
module Checked128 {
  import opened Algebra
  import opened Wide128
  import opened TwosComplement
  import opened Outcomes

  function SignedAdd(left: I128, right: I128): I128 { FromU128(Add(FromI128(left), FromI128(right))) }

  function SignedSub(left: I128, right: I128): I128 { FromU128(Sub(FromI128(left), FromI128(right))) }

  function SignedNeg(value: I128): I128 { FromU128(Neg(FromI128(value))) }

  function SignedMul(left: I128, right: I128): I128 { FromU128(Mul(FromI128(left), FromI128(right))) }

  predicate SignedLess(left: I128, right: I128) {
    left.high < right.high || (left.high == right.high && left.low < right.low)
  }

  // i128 arithmetic is integer arithmetic wrapped to the signed range.
  lemma SignedExact(left: I128, right: I128)
    ensures Int(SignedAdd(left, right)) == Wrap(M128, Int(left) + Int(right))
    ensures Int(SignedSub(left, right)) == Wrap(M128, Int(left) - Int(right))
    ensures Int(SignedMul(left, right)) == Wrap(M128, Int(left) * Int(right))
    ensures SignedLess(left, right) <==> Int(left) < Int(right)
  {
    hide Add, Sub, Mul, FromI128, FromU128, Wrap, ToSigned;
    var l, r := FromI128(left), FromI128(right);
    CastsKeepBits(l, left);
    CastsKeepBits(r, right);
    AddExact(l, r);
    SubExact(l, r);
    MulExact(l, r);
    CastsKeepBits(Add(l, r), left);
    CastsKeepBits(Sub(l, r), left);
    CastsKeepBits(Mul(l, r), left);
    AddAgrees(M128, Nat(l), Nat(r));
    SubAgrees(M128, Nat(l), Nat(r));
    MulAgrees(M128, Nat(l), Nat(r));
  }

  lemma SignedNegExact(value: I128)
    ensures Int(SignedNeg(value)) == Wrap(M128, -Int(value))
  {
    hide Neg, FromI128, FromU128, Wrap;
    var u := FromI128(value);
    NegExact(u);
    CastsKeepBits(Neg(u), value);
    CastsKeepBits(u, value);
    ZeroIsItself();
    SubAgrees(M128, 0, Nat(u));
  }

  lemma ZeroIsItself()
    ensures ToSigned(M128, 0) == 0
  {
  }

  // ---------- Signed division ----------

  function Magnitude(value: I128): U128 {
    if value.high < 0 then FromI128(SignedNeg(value)) else FromI128(value)
  }

  lemma MagnitudeIsAbs(value: I128)
    ensures Nat(Magnitude(value)) == Abs(Int(value))
    ensures value.high < 0 <==> Int(value) < 0
  {
    hide Neg;
    var u := FromI128(value);
    CastsKeepBits(u, value);
    CastsKeepBits(Neg(u), value);
    NegExact(u);
    MagnitudeOf(M128, Nat(u));
  }

  /** Truncating division; only MIN / -1 wraps. */
  method SignedDiv(left: I128, right: I128) returns (result: Outcome<I128>)
    ensures Int(right) == 0 ==> result == Panic("P0078")
    ensures Int(right) != 0 ==> result.Value? && Int(result.value) == Wrap(M128, TruncDiv(Int(left), Int(right)))
  {
    hide Neg, FromI128, FromU128, Magnitude;
    MagnitudeIsAbs(left);
    MagnitudeIsAbs(right);
    var divided := DivMod128(Magnitude(left), Magnitude(right));
    if divided.Panic? {
      return Panic(divided.code);
    }
    var quotient := divided.value.0;
    CastsKeepBits(quotient, left);
    NoWrapBelow(M128, Nat(quotient));
    var magnitude := FromU128(quotient);
    if (left.high < 0) != (right.high < 0) {
      SignedNegExact(magnitude);
      WrapNegated(M128, Nat(quotient));
      return Value(SignedNeg(magnitude));
    }
    return Value(magnitude);
  }

  /** The remainder, which takes the sign of the dividend. */
  method SignedMod(left: I128, right: I128) returns (result: Outcome<I128>)
    ensures Int(right) == 0 ==> result == Panic("P0078")
    ensures Int(right) != 0 ==> result.Value? && Int(result.value) == TruncMod(Int(left), Int(right))
  {
    hide Neg, FromI128, FromU128, Magnitude;
    MagnitudeIsAbs(left);
    MagnitudeIsAbs(right);
    var divided := DivMod128(Magnitude(left), Magnitude(right));
    if divided.Panic? {
      return Panic(divided.code);
    }
    var remainder := FromU128(divided.value.1);
    CastsKeepBits(divided.value.1, right);
    RemainderFits(Int(left), Int(right));
    if left.high < 0 {
      SignedNegExact(remainder);
      WrapExact(M128, -Int(remainder));
      return Value(SignedNeg(remainder));
    }
    return Value(remainder);
  }

  lemma RemainderFits(a: int, b: int)
    requires b != 0 && Fits(M128, b)
    ensures ToSigned(M128, Abs(a) % Abs(b)) == Abs(a) % Abs(b)
    ensures Fits(M128, -(Abs(a) % Abs(b)))
  {
    DivMod(Abs(a), Abs(b));
  }

  // ---------- Checked operations: they panic exactly when the true result is out of range ----------

  function UnsignedAddChecked(left: U128, right: U128): (result: Outcome<U128>) {
    var sum := Add(left, right);
    if Less(sum, left) then Panic("P0024") else Value(sum)
  }

  function UnsignedSubChecked(left: U128, right: U128): (result: Outcome<U128>) {
    if Less(left, right) then Panic("P0025") else Value(Sub(left, right))
  }

  lemma UnsignedAddExact(left: U128, right: U128)
    ensures Nat(left) + Nat(right) >= M128 ==> UnsignedAddChecked(left, right) == Panic("P0024")
    ensures Nat(left) + Nat(right) < M128 ==>
              UnsignedAddChecked(left, right).Value?
                  && Nat(UnsignedAddChecked(left, right).value) == Nat(left) + Nat(right)
  {
    hide Add, Less, Nat;
    AddExact(left, right);
    LessMeans(Add(left, right), left);
    NatBelow(left);
    NatBelow(right);
    WrappedSum(M128, Nat(left), Nat(right));
  }

  lemma NatBelow(value: U128)
    ensures 0 <= Nat(value) < M128
  {
  }

  lemma UnsignedSubExact(left: U128, right: U128)
    ensures Nat(left) < Nat(right) ==> UnsignedSubChecked(left, right) == Panic("P0025")
    ensures Nat(left) >= Nat(right) ==>
              UnsignedSubChecked(left, right).Value?
                  && Nat(UnsignedSubChecked(left, right).value) == Nat(left) - Nat(right)
  {
    hide Sub, Less, Nat;
    SubExact(left, right);
    LessMeans(left, right);
    NatBelow(left);
    NatBelow(right);
    if Nat(left) >= Nat(right) {
      NoWrapBelow(M128, Nat(left) - Nat(right));
    }
  }

  method UnsignedMulChecked(left: U128, right: U128) returns (result: Outcome<U128>)
    ensures Nat(left) * Nat(right) >= M128 ==> result == Panic("P0026")
    ensures Nat(left) * Nat(right) < M128 ==> result.Value? && Nat(result.value) == Nat(left) * Nat(right)
  {
    hide Mul;
    var product := Mul(left, right);
    MulExact(left, right);
    MulNonNegative(Nat(left), Nat(right));
    ModBelow(Nat(left) * Nat(right), M128);
    if Nat(left) != 0 && Nat(right) != 0 {
      var check := DivMod128(product, right);
      NatsDiffer(check.value.0, left);
      DivideBack(M128, Nat(left), Nat(right));
      if check.value.0 != left {
        return Panic("P0026");
      }
    } else {
      ZeroProduct(Nat(left), Nat(right));
    }
    return Value(product);
  }

  function SignedAddChecked(left: I128, right: I128): (result: Outcome<I128>) {
    var sum := SignedAdd(left, right);
    if (left.high >= 0 && right.high >= 0 && sum.high < 0) || (left.high < 0 && right.high < 0 && sum.high >= 0)
    then Panic("P0021") else Value(sum)
  }

  function SignedSubChecked(left: I128, right: I128): (result: Outcome<I128>) {
    var difference := SignedSub(left, right);
    if (left.high >= 0 && right.high < 0 && difference.high < 0)
        || (left.high < 0 && right.high >= 0 && difference.high >= 0)
    then Panic("P0022") else Value(difference)
  }

  function SignedNegChecked(value: I128): (result: Outcome<I128>) {
    var negated := SignedNeg(value);
    if value.high < 0 && negated.high < 0 then Panic("P0014") else Value(negated)
  }

  lemma SignedAddCheckedExact(left: I128, right: I128)
    ensures !Fits(M128, Int(left) + Int(right)) ==> SignedAddChecked(left, right) == Panic("P0021")
    ensures Fits(M128, Int(left) + Int(right)) ==>
              SignedAddChecked(left, right).Value? && Int(SignedAddChecked(left, right).value) == Int(left) + Int(right)
  {
    hide SignedAdd, SignedSub, SignedMul, Wrap;
    SignedExact(left, right);
    OverflowFlipsSign(M128, Int(left) + Int(right));
  }

  lemma SignedSubCheckedExact(left: I128, right: I128)
    ensures !Fits(M128, Int(left) - Int(right)) ==> SignedSubChecked(left, right) == Panic("P0022")
    ensures Fits(M128, Int(left) - Int(right)) ==>
              SignedSubChecked(left, right).Value? && Int(SignedSubChecked(left, right).value) == Int(left) - Int(right)
  {
    hide SignedAdd, SignedSub, SignedMul, Wrap;
    SignedExact(left, right);
    OverflowFlipsSign(M128, Int(left) - Int(right));
  }

  lemma SignedNegCheckedExact(value: I128)
    ensures 2 * Int(value) == -M128 ==> SignedNegChecked(value) == Panic("P0014")
    ensures 2 * Int(value) != -M128 ==>
              SignedNegChecked(value).Value? && Int(SignedNegChecked(value).value) == -Int(value)
  {
    hide SignedNeg, Wrap;
    SignedNegExact(value);
    OverflowFlipsSign(M128, -Int(value));
  }

  /** Exact on every pair but one: MIN * -1 is out of range and still returned, as MIN. */
  method SignedMulChecked(left: I128, right: I128) returns (result: Outcome<I128>)
    ensures result.Value? <==> Fits(M128, Int(left) * Int(right)) || (2 * Int(left) == -M128 && Int(right) == -1)
    ensures result.Panic? ==> result.code == "P0023"
    ensures result.Value? ==> Int(result.value) == Wrap(M128, Int(left) * Int(right))
  {
    hide SignedMul, SignedAdd, SignedSub, SignedLess, TruncDiv, Wrap, Fits;
    var product := SignedMul(left, right);
    SignedExact(left, right);
    if !(left.high == 0 && left.low == 0) && !(right.high == 0 && right.low == 0) {
      var check := SignedDiv(product, right);
      CastsKeepBits(FromI128(left), left);
      CastsKeepBits(FromI128(right), right);
      SignedDivideBack(M128, Int(left), Int(right));
      if check.value != left {
        IntsDiffer(check.value, left);
        return Panic("P0023");
      }
    } else {
      ZeroProduct(Int(left), Int(right));
      ZeroFits();
    }
    return Value(product);
  }

  lemma IntsDiffer(x: I128, y: I128)
    requires x != y
    ensures Int(x) != Int(y)
  {
  }

  lemma ZeroFits()
    ensures Fits(M128, 0)
  {
  }
}
