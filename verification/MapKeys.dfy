/** Map keys, their equality and the bytes they are hashed by. */
module MapKeys {
  import opened Algebra
  import opened Bits

  // ---------- Doubles ----------

  // The 64 bits of an IEEE 754 binary64 number: sign, 11 bits of exponent, 52 of fraction.
  type Double = x: int | 0 <= x < 0x1_0000_0000_0000_0000

  const SIGN := 0x8000_0000_0000_0000
  const FRACTION := 0x10_0000_0000_0000
  const INFINITY := 0x7FF0_0000_0000_0000
  const CANONICAL_NAN: Double := 0x7FF8_0000_0000_0000

  function Magnitude(x: Double): nat {
    x % SIGN
  }

  predicate IsNaN(x: Double) {
    Magnitude(x) > INFINITY
  }

  /** The three fields of a binary64 number, most significant first. */
  function SignBit(x: Double): nat { x / SIGN }

  function ExponentBits(x: Double): nat { x / 0x10_0000_0000_0000 % 2048 }

  function FractionBits(x: Double): nat { x % 0x10_0000_0000_0000 }

  // A NaN has an exponent of all ones and a fraction that is not zero.
  lemma NaNIff(x: Double)
    ensures IsNaN(x) <==> ExponentBits(x) == 0x7FF && FractionBits(x) != 0
    ensures Magnitude(x) == ExponentBits(x) * 0x10_0000_0000_0000 + FractionBits(x)
    ensures x == SignBit(x) * SIGN + Magnitude(x) && SignBit(x) <= 1
  {
    MagnitudeParts(x / SIGN, x % SIGN / 0x10_0000_0000_0000, x % 0x10_0000_0000_0000);
  }

  lemma MagnitudeParts(s: nat, e: nat, f: nat)
    requires e < 2048 && f < 0x10_0000_0000_0000
    ensures var x := (s * 2048 + e) * 0x10_0000_0000_0000 + f;
            && x / 0x10_0000_0000_0000 == s * 2048 + e && (s * 2048 + e) % 2048 == e && x % 0x10_0000_0000_0000 == f
            && x % SIGN == e * 0x10_0000_0000_0000 + f && x / SIGN == s
  {
  }

  /** The number a magnitude stands for, in units of the least positive one; infinity is above all. */
  function Units(magnitude: nat): nat {
    var exponent, fraction := magnitude / FRACTION, magnitude % FRACTION;
    if exponent == 0 then fraction else (FRACTION + fraction) * Pow2(exponent - 1)
  }

  function NumberOf(x: Double): int {
    var units: int := Units(Magnitude(x));
    if x < SIGN then units else -units
  }

  /** C's == on doubles: no NaN equals anything, and the numbers are compared. */
  predicate NumbersEqual(left: Double, right: Double) {
    !IsNaN(left) && !IsNaN(right) && NumberOf(left) == NumberOf(right)
  }

  lemma UnitsGrow(a: nat, b: nat)
    requires a < b
    ensures Units(a) < Units(b)
  {
    hide Pow2;
    var e, e' := a / FRACTION, b / FRACTION;
    var f, f' := a % FRACTION, b % FRACTION;
    if e == e' {
      if e > 0 {
        MulMonotoneStrict(FRACTION + f, FRACTION + f', Pow2(e - 1));
      }
    } else if e == 0 {
      MulMonotone(1, Pow2(e' - 1), FRACTION + f');
      MulCommutes(FRACTION + f', Pow2(e' - 1));
    } else {
      UnitsBelowNextExponent(e, f, e', f');
    }
  }

  lemma MulMonotoneStrict(a: nat, b: nat, k: nat)
    requires a < b && k > 0
    ensures a * k < b * k
  {
    MulMonotone(a + 1, b, k);
    MulDistributes(a, 1, k);
  }

  lemma UnitsBelowNextExponent(e: nat, f: nat, e': nat, f': nat)
    requires 0 < e < e' && f < FRACTION
    ensures (FRACTION + f) * Pow2(e - 1) < (FRACTION + f') * Pow2(e' - 1)
  {
    hide Pow2;
    Doubled(e - 1);
    Pow2Monotone(e, e' - 1);
    MulMonotoneStrict(FRACTION + f, 2 * FRACTION, Pow2(e - 1));
    MulMonotone(FRACTION, FRACTION + f', Pow2(e' - 1));
    MulMonotone(Pow2(e), Pow2(e' - 1), FRACTION);
    MulCommutes(FRACTION, Pow2(e));
    MulCommutes(FRACTION, Pow2(e' - 1));
  }

  // Different bits are different numbers, except for the two zeros.
  lemma EqualNumbers(left: Double, right: Double)
    requires !IsNaN(left) && !IsNaN(right)
    ensures NumberOf(left) == NumberOf(right) <==> left == right || (Magnitude(left) == 0 && Magnitude(right) == 0)
    ensures NumberOf(left) == 0 <==> Magnitude(left) == 0
  {
    hide Units;
    NoUnits();
    var a, b := Magnitude(left), Magnitude(right);
    if a < b { UnitsGrow(a, b); }
    if b < a { UnitsGrow(b, a); }
    if a > 0 { UnitsGrow(0, a); }
    if b > 0 { UnitsGrow(0, b); }
  }

  lemma NoUnits()
    ensures Units(0) == 0
  {
  }

  // ---------- Keys ----------

  // An f32 key is widened to f64 first.
  datatype Key = Raw(bytes: seq<nat>) | Text(characters: seq<nat>) | Float(number: Double)

  /** What is fed to the hash function: a byte string, or the eight bytes of one double. */
  datatype HashInput = Bytes(bytes: seq<nat>) | DoubleBits(bits: Double)

  type Hash = HashInput -> nat

  function HashedBytes(key: Key): HashInput {
    match key
    case Raw(bytes) => Bytes(bytes)
    case Text(characters) => Bytes(characters)
    case Float(value) =>
      if NumbersEqual(value, 0) then DoubleBits(0)
      else if !NumbersEqual(value, value) then DoubleBits(CANONICAL_NAN)
      else DoubleBits(value)
  }

  predicate FloatsEqual(left: Double, right: Double) {
    if NumbersEqual(left, 0) && NumbersEqual(right, 0) then true
    else if !NumbersEqual(left, left) && !NumbersEqual(right, right) then true
    else NumbersEqual(left, right)
  }

  predicate KeysEqual(left: Key, right: Key) {
    match (left, right)
    case (Raw(a), Raw(b)) => a == b
    case (Text(a), Text(b)) => |a| == |b| && a == b
    case (Float(a), Float(b)) => FloatsEqual(a, b)
    case _ => false
  }

  /** The canonical representative of a key's equivalence class: one zero, one NaN. */
  function Canon(key: Key): Key {
    match key
    case Float(value) => if Magnitude(value) == 0 then Float(0) else if IsNaN(value) then Float(CANONICAL_NAN) else key
    case _ => key
  }

  // Key equality is the kernel of Canon, hence an equivalence relation.
  lemma EqualIffSameCanon(left: Key, right: Key)
    ensures KeysEqual(left, right) <==> Canon(left) == Canon(right)
  {
    if left.Float? && right.Float? {
      FloatsEqualIff(left.number, right.number);
    }
  }

  // Doubles are equal keys when their bits agree, or both are zero, or both NaN.
  lemma FloatsEqualIff(a: Double, b: Double)
    ensures FloatsEqual(a, b) <==>
            if IsNaN(a) || IsNaN(b) then IsNaN(a) && IsNaN(b) else a == b || (Magnitude(a) == 0 && Magnitude(b) == 0)
  {
    hide NumberOf, Magnitude;
    assert !IsNaN(0) && Magnitude(0) == 0 by { ZeroIsNumber(); }
    if !IsNaN(a) { EqualNumbers(a, 0); }
    if !IsNaN(b) { EqualNumbers(b, 0); }
    if !IsNaN(a) && !IsNaN(b) { EqualNumbers(a, b); }
  }

  lemma ZeroIsNumber()
    ensures !IsNaN(0) && Magnitude(0) == 0
  {
  }

  lemma FloatHashed(value: Double)
    ensures HashedBytes(Float(value)) == DoubleBits(Canon(Float(value)).number)
  {
    ZeroIsNumber();
    if !IsNaN(value) { EqualNumbers(value, 0); }
  }

  // Keys of one kind are equal exactly when the hash function is fed the same bytes.
  lemma EqualKeysHashEqually(left: Key, right: Key)
    ensures KeysEqual(left, right) ==> HashedBytes(left) == HashedBytes(right)
    ensures left.Raw? == right.Raw? && left.Text? == right.Text? && HashedBytes(left) == HashedBytes(right) ==>
              KeysEqual(left, right)
  {
    EqualIffSameCanon(left, right);
    hide FloatsEqual, NumbersEqual, IsNaN, Magnitude;
    if left.Float? && right.Float? {
      SameCanonHashed(left.number, right.number);
    }
  }

  lemma SameCanonHashed(a: Double, b: Double)
    ensures Canon(Float(a)) == Canon(Float(b)) <==> HashedBytes(Float(a)) == HashedBytes(Float(b))
  {
    hide HashedBytes, IsNaN, Magnitude;
    FloatHashed(a);
    FloatHashed(b);
  }
}
