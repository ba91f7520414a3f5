/** Decimal numerals, and the digit-by-digit rendering and reading steps. */
module Numerals {
  import opened Algebra
  import opened Words
  import opened TwosComplement

  function Digit(d: nat): (c: char)
    requires d < 10
  {
    '0' + d as char
  }

  predicate IsDigit(c: char) { '0' <= c <= '9' }

  function DigitValue(c: char): (d: nat)
    requires IsDigit(c)
  {
    c as nat - '0' as nat
  }

  /** The decimal numeral of a natural number, without leading zeros. */
  function Dec(n: nat): (text: string) {
    if n < 10 then [Digit(n)] else Dec(n / 10) + [Digit(n % 10)]
  }

  function SignedDec(x: int): (text: string) {
    if x < 0 then "-" + Dec(-x) else Dec(x)
  }

  /** Digits, with '_' allowed anywhere as a separator. */
  predicate IsNumeral(text: string) {
    forall i :: 0 <= i < |text| ==> IsDigit(text[i]) || text[i] == '_'
  }

  function DecValue(text: string): (n: nat)
    requires IsNumeral(text)
  {
    if text == [] then 0
    else
      var front, last := DecValue(text[..|text| - 1]), text[|text| - 1];
      if last == '_' then front else 10 * front + DigitValue(last)
  }

  function SignPart(text: string): (rest: string) {
    if text != [] && text[0] == '-' then text[1..] else text
  }

  function SignedDecValue(text: string): (x: int)
    requires IsNumeral(SignPart(text))
  {
    if text != [] && text[0] == '-' then -(DecValue(text[1..]) as int) else DecValue(text)
  }

  lemma {:induction false} DecRoundTrip(n: nat)
    ensures IsNumeral(Dec(n)) && Dec(n) != [] && IsDigit(Dec(n)[0])
    ensures DecValue(Dec(n)) == n
  {
    if n >= 10 {
      DecRoundTrip(n / 10);
      assert Dec(n)[..|Dec(n)| - 1] == Dec(n / 10);
    } else {
      assert Dec(n)[..0] == [];
    }
  }

  lemma SignedDecRoundTrip(x: int)
    ensures IsNumeral(SignPart(SignedDec(x))) && SignedDecValue(SignedDec(x)) == x
  {
    DecRoundTrip(if x < 0 then -x else x);
    if x < 0 {
      assert SignedDec(x)[1..] == Dec(-x);
    }
  }

  function Pow10(k: nat): (p: nat)
    ensures p > 0
  {
    if k == 0 then 1 else 10 * Pow10(k - 1)
  }

  lemma {:induction false} Pow10Monotone(a: nat, b: nat)
    requires a <= b
    ensures Pow10(a) <= Pow10(b)
  {
    if a < b {
      Pow10Monotone(a, b - 1);
    }
  }

  // Every 128-bit value has at most 39 digits, every 256-bit value at most 78.
  lemma DigitsSuffice()
    ensures B * B < Pow10(39) && B * B * B * B < Pow10(78)
  {
    assert Pow10(13) == 10_000_000_000_000;
    Pow10Add(13, 13);
    Pow10Add(26, 13);
    Pow10Add(39, 39);
  }

  lemma {:induction false} Pow10Add(a: nat, b: nat)
    ensures Pow10(a + b) == Pow10(a) * Pow10(b)
  {
    if a > 0 {
      Pow10Add(a - 1, b);
      MulAssociates(10, Pow10(a - 1), Pow10(b));
    }
  }

  /** After some digits of `value` have been split off: `rest` is still to be rendered. */
  ghost predicate Rendering(value: nat, rest: nat, done: string) {
    && Dec(value) == (if rest == 0 then done else Dec(rest) + done)
    && rest * Pow10(|done|) <= value
    && (rest == 0 ==> done != [])
  }

  lemma RenderDigit(value: nat, rest: nat, done: string)
    requires Rendering(value, rest, done) && rest > 0
    ensures Rendering(value, rest / 10, [Digit(rest % 10)] + done)
    ensures Pow10(|done|) <= value
  {
    RenderText(rest, done);
    RenderBound(rest, rest / 10, Pow10(|done|));
  }

  lemma RenderText(rest: nat, done: string)
    requires rest > 0
    ensures Dec(rest) + done
         == (if rest / 10 == 0 then [] else Dec(rest / 10)) + ([Digit(rest % 10)] + done)
  {
    assert Dec(rest) == (if rest / 10 == 0 then [] else Dec(rest / 10)) + [Digit(rest % 10)];
  }

  lemma RenderBound(rest: nat, next: nat, p: nat)
    requires 10 * next <= rest && rest > 0
    ensures next * (10 * p) <= rest * p && p <= rest * p
  {
    MulMonotone(1, rest, p);
    MulMonotone(10 * next, rest, p);
    MulCommutes(10, next);
    MulAssociates(next, 10, p);
  }

  lemma RenderStart(n: nat)
    requires n > 0
    ensures Rendering(n, n, [])
  {
    assert Dec(n) + [] == Dec(n);
  }

  lemma RenderEnd(value: nat, done: string)
    requires Rendering(value, 0, done)
    ensures done == Dec(value)
  {
  }

  lemma RoomLeft(value: nat, digits: nat)
    requires Pow10(digits) <= value
    ensures value < B * B ==> digits < 39
    ensures value < B * B * B * B ==> digits < 78
  {
    DigitsSuffice();
    if digits >= 39 { Pow10Monotone(39, digits); }
    if digits >= 78 { Pow10Monotone(78, digits); }
  }


  lemma DigitModulo(m: int, n: nat, d: nat)
    requires m > 0
    ensures ((((n % m) * 10) % m) + d) % m == (10 * n + d) % m
  {
    DivMod(n, m);
    var q, r := n / m, n % m;
    DivMod(r * 10, m);
    MulCommutes(m, (r * 10) / m);
    ModOffset(m, r * 10 + d, (r * 10) / m, (r * 10) % m + d);
    MulCommutes(m, q);
    MulAssociates(10, q, m);
    ModOffset(m, 10 * n + d, 10 * q, r * 10 + d);
  }

  lemma NegatedNumeral(m: int, n: nat, u: nat)
    requires m > 0 && u == n % m
    ensures Wrap(m, -ToSigned(m, u)) == Wrap(m, -(n as int))
    ensures Wrap(m, -(u as int)) == Wrap(m, -(n as int))
  {
    WrapNegated(m, u);
    DivMod(n, m);
    MulCommutes(m, n / m);
    ModOffset(m, -(u as int), n / m, -(n as int));
  }
}
