/** 64-bit words, the C operators on uint64_t, and little-endian word sequences as numbers. */
module Words {
  import opened Algebra
  import opened Bits

  const B := 0x1_0000_0000_0000_0000
  const H := 0x1_0000_0000  // 2^32
  const LOW32_MASK := 0xFFFF_FFFF

  type Word = x: nat | x < B witness 0

  function Add64(x: Word, y: Word): (z: Word) { (x + y) % B }

  function Sub64(x: Word, y: Word): (z: Word) { (x - y) % B }

  function Mul64(x: Word, y: Word): (z: Word) { (x * y) % B }

  function Not64(x: Word): (z: Word) { B - 1 - x }

  function Shl64(x: Word, k: nat): (z: Word)
    requires k < 64
  {
    (x * Pow2(k)) % B
  }

  function Shr64(x: Word, k: nat): (z: Word)
    requires k < 64
  {
    DivShrinks(x, Pow2(k));
    x / Pow2(k)
  }

  function And64(x: Word, y: Word): (z: Word) {
    AndBound(x, y);
    BitAnd(x, y)
  }

  function Or64(x: Word, y: Word): (z: Word) {
    Pow2Values();
    OrBound(x, y, 64);
    BitOr(x, y)
  }

  lemma {:induction false} AndBound(x: nat, y: nat)
    ensures BitAnd(x, y) <= x
  {
    if x > 0 && y > 0 {
      AndBound(x / 2, y / 2);
    }
  }

  lemma {:induction false} OrBound(x: nat, y: nat, k: nat)
    requires x < Pow2(k) && y < Pow2(k)
    ensures BitOr(x, y) < Pow2(k)
    decreases k
  {
    if x > 0 && y > 0 {
      OrBound(x / 2, y / 2, k - 1);
    }
  }

  // The value a word shift leaves and the bits it pushes out.
  lemma ShiftSplit(x: Word, k: nat)
    requires k < 64
    ensures Shl64(x, k) + B * (x / Pow2(64 - k)) == x * Pow2(k)
    ensures x / Pow2(64 - k) < Pow2(k)
    ensures Shl64(x, k) % Pow2(k) == 0
  {
    Pow2Values();
    Pow2Add(k, 64 - k);
    var p, c := Pow2(k), Pow2(64 - k);
    var q, r := x / c, x % c;
    DivMod(x, c);
    ScaledSplit(x, p, c, q, r);
    DivModUnique(x * p, B, q, r * p);
    MulMultiple(r, p);
  }

  lemma ScaledSplit(x: Word, p: nat, c: nat, q: int, r: nat)
    requires p > 0 && c > 0 && p * c == B && x == c * q + r && r < c
    ensures x * p == B * q + r * p && 0 <= r * p < B && 0 <= q < p
  {
    MulDistributes(c * q, r, p);
    MulRotate(c, q, p);
    MulLess(r, c, p);
    Shrink(x, c, q, r);
    if q >= p {
      MulMonotone(p, q, c);
      MulCommutes(c, q);
      MulCommutes(c, p);
    }
  }

  // Shifting left by k and or-ing in k bits from below adds them.
  lemma OrLowBits(x: Word, low: Word, k: nat)
    requires k < 64 && low < Pow2(k)
    ensures Or64(Shl64(x, k), low) == Shl64(x, k) + low
  {
    ShiftSplit(x, k);
    OrDisjoint(Shl64(x, k), low, k);
  }

  lemma ShiftLimb(x: Word, low: Word)
    requires low <= 1
    ensures Or64(Shl64(x, 1), low) + B * Shr64(x, 63) == 2 * x + low && Shr64(x, 63) <= 1
  {
    assert Pow2(1) == 2;
    ShiftSplit(x, 1);
    OrLowBits(x, low, 1);
  }

  // Or-ing bit `bit` into a word whose bits up to there are clear.
  lemma SetWordBit(x: Word, bit: nat)
    requires bit < 64 && if bit == 63 then x == 0 else x % Pow2(bit + 1) == 0
    ensures Or64(x, Shl64(1, bit)) == x + Pow2(bit)
    ensures (x + Pow2(bit)) % Pow2(bit) == 0
  {
    Pow2Values();
    Pow2Monotone(bit + 1, 64);
    DivModUnique(Pow2(bit), B, 0, Pow2(bit));
    if bit < 63 {
      OrDisjoint(x, Pow2(bit), bit + 1);
      HalfDivides(x, Pow2(bit));
    }
    DivOffset(x, 1, Pow2(bit));
  }

  lemma Or64Commutes(x: Word, y: Word)
    ensures Or64(x, y) == Or64(y, x)
  {
    BitOrCommutes(x, y);
  }

  // ---------- Word sequences ----------

  function PowB(n: nat): (p: nat)
    ensures p > 0
  {
    if n == 0 then 1 else B * PowB(n - 1)
  }

  /** The number a little-endian word sequence stands for. */
  function Val(ws: seq<Word>): (v: nat) {
    if ws == [] then 0 else Val(ws[..|ws| - 1]) + ws[|ws| - 1] * PowB(|ws| - 1)
  }

  lemma {:induction false} ValBound(ws: seq<Word>)
    ensures Val(ws) < PowB(|ws|)
  {
    if ws != [] {
      var n := |ws| - 1;
      ValBound(ws[..n]);
      var top: nat := ws[n] as int + 1;
      MulMonotone(top, B, PowB(n));
      MulDistributes(ws[n], 1, PowB(n));
    }
  }

  // One more word at the top.
  lemma ValSnoc(ws: seq<Word>, i: nat)
    requires i < |ws|
    ensures Val(ws[..i + 1]) == Val(ws[..i]) + ws[i] * PowB(i)
  {
    assert ws[..i + 1][..i] == ws[..i];
  }

  lemma {:induction false} PowBAdd(a: nat, b: nat)
    ensures PowB(a + b) == PowB(a) * PowB(b)
  {
    if a > 0 {
      PowBAdd(a - 1, b);
      MulAssociates(B, PowB(a - 1), PowB(b));
    }
  }

  lemma {:induction false} PowBIsPow2(n: nat)
    ensures PowB(n) == Pow2(64 * n)
  {
    if n > 0 {
      PowBIsPow2(n - 1);
      Pow2Values();
      Pow2Add(64, 64 * (n - 1));
    }
  }

  lemma {:induction false} ValConcat(a: seq<Word>, b: seq<Word>)
    ensures Val(a + b) == Val(a) + PowB(|a|) * Val(b)
  {
    if b == [] {
      assert a + b == a;
    } else {
      var m := |b| - 1;
      ValConcat(a, b[..m]);
      assert (a + b)[..|a + b| - 1] == a + b[..m];
      PowBAdd(|a|, m);
      MulCross(b[m], PowB(|a|), PowB(m));
      MulDistributes'(PowB(|a|), Val(b[..m]), b[m] * PowB(m));
    }
  }

  // The word at index i, with what is below it and what is above.
  lemma ValAround(ws: seq<Word>, i: nat)
    requires i < |ws|
    ensures Val(ws) == Val(ws[..i]) + PowB(i) * Val(ws[i..])
    ensures Val(ws[i..]) == ws[i] + B * Val(ws[i + 1..])
    ensures Val(ws[..i]) < PowB(i)
  {
    assert ws == ws[..i] + ws[i..] && ws[i..] == [ws[i]] + ws[i + 1..];
    ValConcat(ws[..i], ws[i..]);
    ValCons(ws[i], ws[i + 1..]);
    ValBound(ws[..i]);
  }

  lemma ValCons(x: Word, high: seq<Word>)
    ensures Val([x] + high) == x + B * Val(high)
  {
    ValConcat([x], high);
    assert [x][..0] == [] && PowB(1) == B * PowB(0);
  }

  lemma ValUpdate(ws: seq<Word>, i: nat, x: Word)
    requires i < |ws|
    ensures Val(ws[i := x]) == Val(ws) + PowB(i) * (x - ws[i])
  {
    var ws' := ws[i := x];
    ValAround(ws, i);
    ValAround(ws', i);
    assert ws'[..i] == ws[..i] && ws'[i + 1..] == ws[i + 1..];
    MulDifference(PowB(i), Val(ws'[i..]), Val(ws[i..]), x - ws[i]);
  }

  // The top bit of the top word says whether the number is in the upper half.
  lemma TopBit(ws: seq<Word>)
    requires ws != []
    ensures Shr64(ws[|ws| - 1], 63) != 0 <==> Val(ws) >= PowB(|ws|) - Val(ws)
  {
    var n := |ws| - 1;
    var top, p := ws[n], PowB(n);
    ValBound(ws[..n]);
    Pow2Values();
    var half := 0x8000_0000_0000_0000;
    if top >= half {
      MulMonotone(half, top, p);
    } else {
      MulMonotone(top as int + 1, half, p);
      MulDistributes(top, 1, p);
    }
    MulAssociates(2, half, p);
  }

  lemma Val4(ws: seq<Word>)
    requires |ws| == 4
    ensures Val(ws) == ws[0] + B * ws[1] + B * B * ws[2] + B * B * B * ws[3]
  {
    assert ws[..4] == ws;
    ValSnoc(ws, 3);
    ValSnoc(ws, 2);
    ValSnoc(ws, 1);
    ValSnoc(ws, 0);
    assert PowB(1) == B && PowB(2) == B * B && PowB(3) == B * B * B;
  }

  // Bit i of a number is a bit of one of its words.
  lemma BitOfWord(ws: seq<Word>, word: nat, bit: nat)
    requires word < |ws| && bit < 64
    ensures (Val(ws) / Pow2(64 * word + bit)) % 2 == (ws[word] / Pow2(bit)) % 2
  {
    ValAround(ws, word);
    PowBIsPow2(word);
    Pow2Add(64 * word, bit);
    DivModUnique(Val(ws), PowB(word), Val(ws[word..]), Val(ws[..word]));
    DivDiv(Val(ws), PowB(word), Pow2(bit));
    BitBelow64(ws[word], Val(ws[word + 1..]), bit);
  }

  lemma BitBelow64(x: Word, high: nat, bit: nat)
    requires bit < 64
    ensures ((x + B * high) / Pow2(bit)) % 2 == (x / Pow2(bit)) % 2
  {
    Pow2Values();
    Pow2Add(bit, 64 - bit);
    var p, c := Pow2(bit), Pow2(63 - bit);
    EvenMultiple(x, high, p, c);
  }

  lemma EvenMultiple(x: nat, high: nat, p: nat, c: nat)
    requires p > 0 && p * (2 * c) == B
    ensures ((x + B * high) / p) % 2 == (x / p) % 2
  {
    MulRegroup(p, c, high);
    var k: nat := c * high;
    DivOffset(x, 2 * k, p);
    DivShrinks(x, p);
    EvenOffset(x / p, k);
  }

}
