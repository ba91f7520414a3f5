/** The range helpers of i128 on its words: they compute what the helpers do on numbers. */
module WideRanges {
  import opened Algebra
  import opened TwosComplement
  import opened Outcomes
  import opened Wide128
  import opened Checked128
  import opened Ranges

  datatype Range128 = Range128(start: I128, stop: I128, step: I128)

  const ZERO := I128(0, 0)
  const ONE := I128(1, 0)
  const LARGEST_I64 := I128(INT64_MAX, 0)

  function Numbers(r: Range128): Range {
    Range(Int(r.start), Int(r.stop), Int(r.step))
  }

  /** The next value of a stepped loop; a sum whose sign is wrong is past the stop. */
  function Advance128(value: I128, step: I128, stop: I128): I128 {
    var result := SignedAdd(value, step);
    if (value.high >= 0 && step.high >= 0 && result.high < 0) || (value.high < 0 && step.high < 0 && result.high >= 0)
    then stop else result
  }

  lemma Advance128Exact(value: I128, step: I128, stop: I128)
    ensures Int(Advance128(value, step, stop)) == Advance(Signed(M128), Int(value), Int(step), Int(stop))
  {
    hide SignedAdd;
    SignedExact(value, step);
    MagnitudeIsAbs(value);
    MagnitudeIsAbs(step);
    MagnitudeIsAbs(SignedAdd(value, step));
  }

  lemma LessExact(left: I128, right: I128)
    ensures SignedLess(left, right) <==> Int(left) < Int(right)
  {
    SignedExact(left, right);
  }

  method Contains128(r: Range128, value: I128) returns (result: Outcome<bool>)
    ensures result == ContainsWide(Signed(M128), Numbers(r), Int(value))
  {
    hide SignedLess, SignedSub;
    var isInside;
    SmallInts();
    LessExact(ZERO, r.step);
    LessExact(value, r.start);
    LessExact(r.start, value);
    LessExact(value, r.stop);
    LessExact(r.stop, value);
    SignedExact(value, r.start);
    if SignedLess(ZERO, r.step) {
      isInside := !SignedLess(value, r.start) && SignedLess(value, r.stop);
    } else {
      isInside := !SignedLess(r.start, value) && SignedLess(r.stop, value);
    }
    if !isInside {
      return Value(false);
    }
    var remainder := SignedMod(SignedSub(value, r.start), r.step);
    if remainder.Panic? {
      return Panic(remainder.code);
    }
    if remainder.value != ZERO {
      IntsDiffer(remainder.value, ZERO);
    }
    return Value(remainder.value == ZERO);
  }

  lemma SmallInts()
    ensures Int(ZERO) == 0 && Int(ONE) == 1 && Int(LARGEST_I64) == INT64_MAX
  {
  }

  /** The number of the last visited value, of a range that visits some. */
  method LastVisit(r: Range128) returns (result: Outcome<I128>)
    requires Int(r.step) > 0 ==> Int(r.start) < Int(r.stop)
    requires Int(r.step) < 0 ==> Int(r.start) > Int(r.stop)
    requires Int(r.step) != 0
    ensures result.Value? <==> Fits(M128, Int(r.stop) - Int(r.start))
    ensures result.Panic? ==> result.code == "P0022"
    ensures result.Value? ==>
              Int(result.value) ==
                TruncDiv(Int(r.stop) - Int(r.start) + (if Int(r.step) > 0 then -1 else 1), Int(r.step))
  {
    hide SignedSubChecked, SignedAdd, TruncDiv, Wrap, Int;
    SmallInts();
    SignedSubCheckedExact(r.stop, r.start);
    MagnitudeIsAbs(r.step);
    var span := SignedSubChecked(r.stop, r.start);
    if span.Panic? {
      return span;
    }
    if r.step.high >= 0 {
      SignedSubCheckedExact(span.value, ONE);
      result := SignedDiv(SignedSubChecked(span.value, ONE).value, r.step);
      QuotientKept(Int(r.stop) - Int(r.start) - 1, Int(r.step));
    } else {
      SignedExact(span.value, ONE);
      SumFits(Int(span.value));
      result := SignedDiv(SignedAdd(span.value, ONE), r.step);
      QuotientKept(Int(r.stop) - Int(r.start) + 1, Int(r.step));
    }
  }

  method Len128(r: Range128) returns (result: Outcome<int>)
    ensures result == LenWide(Signed(M128), Numbers(r), "P0022")
  {
    hide SignedLess, TruncDiv, Int;
    SmallInts();
    if r.step == ZERO {
      return Panic("P0090");
    }
    IntsDiffer(r.step, ZERO);
    LessExact(ZERO, r.step);
    LessExact(r.start, r.stop);
    LessExact(r.stop, r.start);
    if SignedLess(ZERO, r.step) && !SignedLess(r.start, r.stop) {
      return Value(0);
    }
    if !SignedLess(ZERO, r.step) && !SignedLess(r.stop, r.start) {
      return Value(0);
    }
    var quotient := LastVisit(r);
    if quotient.Panic? {
      return Panic(quotient.code);
    }
    LessExact(quotient.value, LARGEST_I64);
    if !SignedLess(quotient.value, LARGEST_I64) {
      return Panic("P0155");
    }
    return Value(Int(quotient.value) + 1);
  }

  lemma SumFits(span: int)
    requires Fits(M128, span) && span < 0
    ensures Wrap(M128, span + 1) == span + 1
  {
  }

  lemma QuotientKept(a: int, b: int)
    requires -M128 < 2 * a < M128 && b != 0
    ensures Wrap(M128, TruncDiv(a, b)) == TruncDiv(a, b)
  {
    hide Wrap;
    DivShrinks(Abs(a), Abs(b));
    WrapExact(M128, TruncDiv(a, b));
  }
}
