/** range() values: the stepped loop, membership and length, for i64, u64 and the wide types.
    Values stand for the words; the word operations were shown exact modulo the type's modulus. */
module Ranges {
  import opened Algebra
  import opened TwosComplement
  import opened Outcomes

  const INT64_MAX := 0x7FFF_FFFF_FFFF_FFFF
  const M64 := 0x1_0000_0000_0000_0000

  datatype IntType = Signed(m: int) | Unsigned(m: int)

  datatype Range = Range(start: int, stop: int, step: int)

  predicate InType(t: IntType, x: int) {
    match t
    case Signed(m) => Fits(m, x)
    case Unsigned(m) => 0 <= x < m
  }

  predicate RangeOf(t: IntType, r: Range) {
    IsModulus(t.m) && InType(t, r.start) && InType(t, r.stop) && InType(t, r.step)
  }

  predicate Continues(r: Range, value: int) {
    if r.step > 0 then value < r.stop else value > r.stop
  }

  /** A value the loop visits: a whole number of steps from the start, and short of the stop. */
  ghost predicate Member(r: Range, value: int) {
    Continues(r, value) && exists k: nat :: value == r.start + k * r.step
  }

  /** The next value; a sum that overflows is past the stop, so the loop ends there. */
  function Advance(t: IntType, value: int, step: int, stop: int): (next: int)
    requires t.m > 0
  {
    match t
    case Unsigned(m) =>
      var result := (value + step) % m;
      if result < value then stop else result
    case Signed(m) =>
      var result := Wrap(m, value + step);
      if (value >= 0 && step >= 0 && result < 0) || (value < 0 && step < 0 && result >= 0) then stop else result
  }

  lemma AdvanceMeans(t: IntType, value: int, step: int, stop: int)
    requires IsModulus(t.m) && InType(t, value) && InType(t, step)
    ensures InType(t, value + step) ==> Advance(t, value, step, stop) == value + step
    ensures !InType(t, value + step) ==> Advance(t, value, step, stop) == stop
  {
    if t.Signed? {
      OverflowFlipsSign(t.m, value + step);
    } else {
      var sum := value + step;
      DivModUnique(sum, t.m, if sum < t.m then 0 else 1, if sum < t.m then sum else sum - t.m);
    }
  }

  // ---------- Counting ----------

  /** The number of visited values in closed form. */
  function Count(r: Range): (n: nat)
    requires r.step != 0
  {
    if r.step > 0 then
      if r.start >= r.stop then 0
      else
        DivShrinks(r.stop - r.start - 1, r.step);
        (r.stop - r.start - 1) / r.step + 1
    else
      if r.start <= r.stop then 0
      else
        DivShrinks(r.start - r.stop - 1, -r.step);
        (r.start - r.stop - 1) / -r.step + 1
  }

  // Step k is short of the stop exactly when k is below the count.
  lemma ShortOfStop(r: Range, k: nat)
    requires r.step != 0
    ensures Continues(r, r.start + k * r.step) <==> k < Count(r)
  {
    MulNegates(r.step, k);
    MulCommutes(k, r.step);
    MulCommutes(k, -r.step);
    if r.step > 0 {
      StepsWithin(r.stop - r.start, r.step, k);
    } else {
      StepsWithin(r.start - r.stop, -r.step, k);
    }
  }

  lemma StepsWithin(distance: int, stride: int, k: nat)
    requires stride > 0
    ensures k * stride < distance <==> distance > 0 && k < (distance - 1) / stride + 1
  {
    MulNonNegative(k, stride);
    if distance > 0 {
      var q := (distance - 1) / stride;
      DivMod(distance - 1, stride);
      DivShrinks(distance - 1, stride);
      MulCommutes(stride, q);
      if k <= q {
        MulMonotone(k, q, stride);
      } else {
        MulMonotone(q + 1, k, stride);
        MulDistributes(q, 1, stride);
      }
    }
  }

  /** A counted loop over a stored range. */
  method Visit(t: IntType, r: Range) returns (visited: seq<int>)
    requires RangeOf(t, r) && r.step != 0
    ensures |visited| == Count(r)
    ensures forall k :: 0 <= k < |visited| ==> visited[k] == r.start + k * r.step
  {
    visited := [];
    var value := r.start;
    ShortOfStop(r, 0);
    while Continues(r, value)
      invariant InType(t, value) && |visited| <= Count(r)
      invariant forall k :: 0 <= k < |visited| ==> visited[k] == r.start + k * r.step
      invariant |visited| < Count(r) ==> value == r.start + |visited| * r.step
      invariant Continues(r, value) <==> |visited| < Count(r)
      decreases Count(r) - |visited|
    {
      AdvanceMeans(t, value, r.step, r.stop);
      ShortOfStop(r, |visited| + 1);
      MulDistributes(|visited|, 1, r.step);
      visited := visited + [value];
      value := Advance(t, value, r.step, r.stop);
    }
  }

  // The values of a loop are the members of its range.
  lemma VisitedAreMembers(r: Range, visited: seq<int>, value: int)
    requires r.step != 0 && |visited| == Count(r)
    requires forall k :: 0 <= k < |visited| ==> visited[k] == r.start + k * r.step
    ensures value in visited <==> Member(r, value)
  {
    if value in visited {
      var k :| 0 <= k < |visited| && visited[k] == value;
      ShortOfStop(r, k);
    }
    if Member(r, value) {
      var k: nat :| value == r.start + k * r.step;
      ShortOfStop(r, k);
      assert visited[k] == value;
    }
  }

  // Membership as a divisibility test on the distance from the start.
  lemma MemberMeans(r: Range, value: int)
    requires r.step != 0
    ensures r.step > 0 ==> (Member(r, value) <==> r.start <= value < r.stop && (value - r.start) % r.step == 0)
    ensures r.step < 0 ==> (Member(r, value) <==> r.stop < value <= r.start && (r.start - value) % -r.step == 0)
  {
    var stride := Abs(r.step);
    var distance := if r.step > 0 then value - r.start else r.start - value;
    if Member(r, value) {
      var k: nat :| value == r.start + k * r.step;
      MulNegates(r.step, k);
      MulCommutes(k, r.step);
      MulCommutes(k, -r.step);
      MulNonNegative(k, stride);
      MulMultiple(k, stride);
    }
    if distance >= 0 && distance % stride == 0 && Continues(r, value) {
      DivMod(distance, stride);
      DivShrinks(distance, stride);
      var k: nat := distance / stride;
      MulNegates(r.step, k);
      MulCommutes(k, r.step);
      MulCommutes(k, -r.step);
      assert value == r.start + k * r.step;
    }
  }

  // ---------- Membership ----------

  /** i64: the distance is taken in uint64_t, where it cannot overflow. */
  function Contains64(r: Range, value: int): bool
    requires r.step != 0 && RangeOf(Signed(M64), r)
  {
    if r.step > 0 then
      value >= r.start && value < r.stop && ((value % M64 - r.start % M64) % M64) % (r.step % M64) == 0
    else
      value <= r.start && value > r.stop && ((r.start % M64 - value % M64) % M64) % ((0 - r.step % M64) % M64) == 0
  }

  lemma Distance64(a: int, b: int)
    requires 0 <= a - b < M64
    ensures (a % M64 - b % M64) % M64 == a - b
  {
  }

  lemma Stride64(step: int)
    requires Fits(M64, step)
    ensures step > 0 ==> step % M64 == step
    ensures step < 0 ==> (0 - step % M64) % M64 == -step
  {
  }

  lemma Contains64Exact(r: Range, value: int)
    requires r.step != 0 && RangeOf(Signed(M64), r) && InType(Signed(M64), value)
    ensures Contains64(r, value) <==> Member(r, value)
  {
    hide Member;
    MemberMeans(r, value);
    if r.step > 0 && value >= r.start {
      ForwardDistance64(r, value);
    }
    if r.step < 0 && r.start >= value {
      BackwardDistance64(r, value);
    }
  }

  lemma ForwardDistance64(r: Range, value: int)
    requires r.step > 0 && RangeOf(Signed(M64), r) && InType(Signed(M64), value) && value >= r.start
    ensures (value % M64 - r.start % M64) % M64 == value - r.start && r.step % M64 == r.step
  {
    Stride64(r.step);
    Distance64(value, r.start);
  }

  lemma BackwardDistance64(r: Range, value: int)
    requires r.step < 0 && RangeOf(Signed(M64), r) && InType(Signed(M64), value) && r.start >= value
    ensures (r.start % M64 - value % M64) % M64 == r.start - value && (0 - r.step % M64) % M64 == -r.step
  {
    Stride64(r.step);
    Distance64(r.start, value);
  }

  /** The panic code of a remainder by zero; the helpers of u64 have one of their own. */
  function ZeroStepCode(t: IntType): string {
    if t == Unsigned(M64) then "P0090" else "P0078"
  }

  /** Wide types and u64: the difference wraps, and the remainder is the type's own. */
  function ContainsWide(t: IntType, r: Range, value: int): Outcome<bool>
    requires t.m > 0
  {
    var isInside := if r.step > 0 then value >= r.start && value < r.stop else value <= r.start && value > r.stop;
    if !isInside then Value(false)
    else if r.step == 0 then Panic(ZeroStepCode(t))
    else
      var difference := if t.Signed? then Wrap(t.m, value - r.start) else (value - r.start) % t.m;
      Value(TruncMod(difference, r.step) == 0)
  }

  lemma TruncModZero(d: int, s: int)
    requires s != 0
    ensures TruncMod(d, s) == 0 <==> Abs(d) % Abs(s) == 0
  {
  }

  // Exact whenever the distance is representable, which it always is for an unsigned type.
  lemma ContainsWideExact(t: IntType, r: Range, value: int)
    requires RangeOf(t, r) && InType(t, value) && r.step != 0
    requires t.Signed? ==> Fits(t.m, value - r.start)
    ensures ContainsWide(t, r, value) == Value(true) <==> Member(r, value)
    ensures ContainsWide(t, r, value).Value?
  {
    MemberMeans(r, value);
    if t.Signed? {
      WrapExact(t.m, value - r.start);
    } else if value >= r.start {
      DivModUnique(value - r.start, t.m, 0, value - r.start);
    }
    TruncModZero(value - r.start, r.step);
  }

  // A signed test whose distance wraps looks at the distance less the modulus.
  lemma ContainsWrapped(m: int, r: Range, value: int)
    requires RangeOf(Signed(m), r) && Fits(m, value) && r.step != 0 && !Fits(m, value - r.start)
    requires Continues(r, value) && (r.step > 0 ==> value >= r.start) && (r.step < 0 ==> value <= r.start)
    ensures ContainsWide(Signed(m), r, value) == Value((m - Abs(value - r.start)) % Abs(r.step) == 0)
  {
    var d := value - r.start;
    DivModUnique(d, m, if d >= 0 then 0 else -1, if d >= 0 then d else d + m);
    TruncModZero(Wrap(m, d), r.step);
  }

  /** Between the ends of the range, the first included. */
  predicate Inside(r: Range, value: int) {
    if r.step > 0 then r.start <= value < r.stop else r.stop < value <= r.start
  }

  // For each range and value the signed test is right exactly when the distance from the start is
  // representable, or the value is outside, or the distance and its complement agree on the step.
  lemma SignedContainsExactly(m: int, r: Range, value: int)
    requires IsModulus(m) && RangeOf(Signed(m), r) && Fits(m, value) && r.step != 0
    ensures (ContainsWide(Signed(m), r, value) == Value(true) <==> Member(r, value)) <==>
            || Fits(m, value - r.start) || !Inside(r, value)
            || (Abs(value - r.start) % Abs(r.step) == 0 <==> (m - Abs(value - r.start)) % Abs(r.step) == 0)
  {
    if Fits(m, value - r.start) {
      ContainsWideExact(Signed(m), r, value);
    } else {
      MemberMeans(r, value);
      if Inside(r, value) {
        ContainsWrapped(m, r, value);
      }
    }
  }

  // For a given step the signed test is right on every start, stop and value exactly when the step
  // divides the modulus, that is, when its magnitude is a power of two.
  lemma SignedContainsRight(m: int, step: int)
    requires IsModulus(m) && Fits(m, step) && step != 0
    ensures m % Abs(step) == 0 <==>
            forall start, stop, value :: RangeOf(Signed(m), Range(start, stop, step)) && Fits(m, value) ==>
              (ContainsWide(Signed(m), Range(start, stop, step), value) == Value(true) <==>
                  Member(Range(start, stop, step), value))
  {
    if m % Abs(step) == 0 {
      forall start, stop, value | RangeOf(Signed(m), Range(start, stop, step)) && Fits(m, value)
        ensures ContainsWide(Signed(m), Range(start, stop, step), value) == Value(true) <==>
                Member(Range(start, stop, step), value)
      {
        PowerOfTwoStep(m, Range(start, stop, step), value);
      }
    } else {
      WrongContains(m, step);
    }
  }

  lemma PowerOfTwoStep(m: int, r: Range, value: int)
    requires IsModulus(m) && RangeOf(Signed(m), r) && Fits(m, value) && r.step != 0 && m % Abs(r.step) == 0
    ensures ContainsWide(Signed(m), r, value) == Value(true) <==> Member(r, value)
  {
    SignedContainsExactly(m, r, value);
    Complement(m, Abs(value - r.start), Abs(r.step));
  }

  lemma Complement(m: int, d: int, s: int)
    requires s > 0
    ensures m % s == 0 ==> ((m - d) % s == 0 <==> d % s == 0)
    ensures d % s == 0 && (m - d) % s == 0 ==> m % s == 0
  {
    DivMod(m, s);
    DivMod(d, s);
    DivMod(m - d, s);
    if m % s == 0 && d % s == 0 {
      MulDistributes'(s, m / s, -(d / s));
      MulNegates(d / s, s);
      MulCommutes(s, -(d / s));
      MulCommutes(s, d / s);
      DivModUnique(m - d, s, m / s - d / s, 0);
    }
    if d % s == 0 && (m - d) % s == 0 {
      MulDistributes'(s, (m - d) / s, d / s);
      DivModUnique(m, s, (m - d) / s + d / s, 0);
    }
    if m % s == 0 && (m - d) % s == 0 {
      MulDistributes'(s, m / s, -((m - d) / s));
      MulNegates((m - d) / s, s);
      MulCommutes(s, -((m - d) / s));
      MulCommutes(s, (m - d) / s);
      DivModUnique(d, s, m / s - (m - d) / s, 0);
    }
  }

  /** A range over the whole type, in the direction of the step. */
  function WholeRange(m: int, step: int): Range {
    if step > 0 then Range(-(m / 2), m / 2 - 1, step) else Range(m / 2 - 1, -(m / 2), step)
  }

  // Otherwise some visited value more than half the type away from the start is missed.
  lemma WrongContains(m: int, step: int)
    requires IsModulus(m) && Fits(m, step) && step != 0 && m % Abs(step) != 0
    ensures exists value :: Fits(m, value) && Member(WholeRange(m, step), value)
                         && ContainsWide(Signed(m), WholeRange(m, step), value) != Value(true)
    ensures RangeOf(Signed(m), WholeRange(m, step))
  {
    var s, half := Abs(step), m / 2;
    var r := WholeRange(m, step);
    assert m == 2 * half;
    HalfNotMultiple(half, s);
    // The first multiple of the step that is at least half the modulus.
    var k := half / s + 1;
    DivMod(half, s);
    DivShrinks(half, s);
    MulDistributes'(s, half / s, 1);
    var d := s * k;
    MulCommutes(s, k);
    MulMultiple(k, s);
    assert half < d < m - 1 || d >= m - 1;
    var value := if step > 0 then r.start + d else r.start - d;
    StepBelowHalf(m, half, s, d);
    MemberMeans(r, value);
    ContainsWrapped(m, r, value);
    Complement(m, d, s);
  }

  lemma HalfNotMultiple(half: int, s: int)
    requires s > 0 && (2 * half) % s != 0 && half >= 2
    ensures half % s != 0 && s != half && s != 1
  {
    if half % s == 0 {
      DivMod(half, s);
      MulCross(2, s, half / s);
      DivModUnique(2 * half, s, 2 * (half / s), 0);
    }
    if s == half {
      DivModUnique(half, half, 1, 0);
    }
  }

  lemma StepBelowHalf(m: int, half: int, s: int, d: int)
    requires m == 2 * half && 1 < s < half && half < d <= half + s - 1
    ensures d < m - 1
  {
  }

  // ---------- Length ----------

  function Len64(r: Range): Outcome<int>
    requires RangeOf(Signed(M64), r)
  {
    if r.step == 0 then Panic("P0090")
    else if r.step > 0 && r.start >= r.stop then Value(0)
    else if r.step < 0 && r.start <= r.stop then Value(0)
    else
      var distance := if r.step > 0 then (r.stop % M64 - r.start % M64) % M64 else (r.start % M64 - r.stop % M64) % M64;
      var stride := if r.step > 0 then r.step % M64 else (0 - r.step % M64) % M64;
      var count := (distance - 1) / stride + 1;
      if count > INT64_MAX then Panic("P0155") else Value(count)
  }

  lemma Len64Exact(r: Range)
    requires RangeOf(Signed(M64), r)
    ensures r.step == 0 ==> Len64(r) == Panic("P0090")
    ensures r.step != 0 ==> Len64(r) == if Count(r) <= INT64_MAX then Value(Count(r)) else Panic("P0155")
  {
    Stride64(r.step);
    if r.step > 0 && r.start < r.stop {
      Distance64(r.stop, r.start);
    }
    if r.step < 0 && r.start > r.stop {
      Distance64(r.start, r.stop);
    }
  }

  /** `overflow` is the panic code of the type's checked subtraction. */
  function LenWide(t: IntType, r: Range, overflow: string): Outcome<int> {
    if r.step == 0 then Panic("P0090")
    else if r.step > 0 && r.start >= r.stop then Value(0)
    else if r.step < 0 && r.start <= r.stop then Value(0)
    else if !InType(t, r.stop - r.start) && t.Signed? then Panic(overflow)
    else
      var quotient := if r.step > 0 then TruncDiv(r.stop - r.start - 1, r.step)
          else TruncDiv(r.stop - r.start + 1, r.step);
      if quotient >= INT64_MAX then Panic("P0155") else Value(quotient + 1)
  }

  // A length that is returned is the number of visits; it is returned when the span is
  // representable and the count fits an i64, and otherwise the code says which of the two fails.
  lemma LenWideExact(t: IntType, r: Range, overflow: string)
    requires RangeOf(t, r)
    ensures r.step == 0 ==> LenWide(t, r, overflow) == Panic("P0090")
    ensures r.step != 0 ==>
              LenWide(t, r, overflow) ==
                if Count(r) == 0 then Value(0)
                else if t.Signed? && !Fits(t.m, r.stop - r.start) then Panic(overflow)
                else if Count(r) > INT64_MAX then Panic("P0155")
                else Value(Count(r))
  {
  }
}
