/** In-place shifts of a little-endian word array of any length. */
module WideShift {
  import opened Algebra
  import opened Bits
  import opened Words
  import opened TwosComplement

  // ---------- Left ----------

  /** Word `i` of `ws` shifted left by `wordShift` words and `bitShift` bits. */
  function LeftWord(ws: seq<Word>, wordShift: nat, bitShift: nat, i: nat): Word
    requires i < |ws| && bitShift < 64
  {
    var source := i - wordShift;
    var word: Word := if source >= 0 then Shl64(ws[source], bitShift) else 0;
    if bitShift != 0 && source - 1 >= 0 then Or64(word, Shr64(ws[source - 1], 64 - bitShift)) else word
  }

  /** What the low words of `ws` below index `m` push into word `m` of the result. */
  function Pushed(ws: seq<Word>, wordShift: nat, bitShift: nat, m: nat): (bits: nat)
    requires m <= |ws| && bitShift < 64
  {
    if m - wordShift - 1 >= 0 then
      DivShrinks(ws[m - wordShift - 1], Pow2(64 - bitShift));
      ws[m - wordShift - 1] / Pow2(64 - bitShift)
    else 0
  }

  lemma LeftWordExact(ws: seq<Word>, wordShift: nat, bitShift: nat, m: nat)
    requires m < |ws| && bitShift < 64
    ensures LeftWord(ws, wordShift, bitShift, m) + B * Pushed(ws, wordShift, bitShift, m + 1)
         == Pushed(ws, wordShift, bitShift, m) + (if m >= wordShift then ws[m - wordShift] * Pow2(bitShift) else 0)
  {
    Pow2Values();
    if m >= wordShift {
      ShiftSplit(ws[m - wordShift], bitShift);
    }
    if m >= wordShift + 1 {
      var below := ws[m - wordShift - 1];
      ShiftSplit(below, bitShift);
      if bitShift != 0 {
        OrLowBits(ws[m - wordShift], Shr64(below, 64 - bitShift), bitShift);
      } else {
        DivModUnique(below, B, 0, below);
      }
    }
  }

  // The low m words of the result, with what they push out, are the shifted low words of the input.
  lemma {:induction false} LeftPrefix(ws: seq<Word>, wordShift: nat, bitShift: nat, result: seq<Word>, m: nat)
    requires |result| == |ws| && m <= |ws| && bitShift < 64
    requires forall i :: 0 <= i < |ws| ==> result[i] == LeftWord(ws, wordShift, bitShift, i)
    ensures Val(result[..m]) + PowB(m) * Pushed(ws, wordShift, bitShift, m)
         == Pow2(64 * wordShift + bitShift) * Val(ws[..if m >= wordShift then m - wordShift else 0])
  {
    if m == 0 {
      MulZero(Pow2(64 * wordShift + bitShift));
    } else {
      var n := m - 1;
      LeftPrefix(ws, wordShift, bitShift, result, n);
      LeftWordExact(ws, wordShift, bitShift, n);
      ValSnoc(result, n);
      if n >= wordShift {
        ValSnoc(ws, n - wordShift);
        ShiftedPlace(wordShift, bitShift, n, ws[n - wordShift]);
        MulDistributes'(Pow2(64 * wordShift + bitShift), Val(ws[..n - wordShift]),
            ws[n - wordShift] * PowB(n - wordShift));
      }
      PushUp(PowB(n), result[n], Pushed(ws, wordShift, bitShift, m), Pushed(ws, wordShift, bitShift, n),
             if n >= wordShift then ws[n - wordShift] * Pow2(bitShift) else 0);
    }
  }

  lemma PushUp(p: nat, word: int, pushed': int, pushed: int, shifted: int)
    requires word + B * pushed' == pushed + shifted
    ensures word * p + (B * p) * pushed' == p * pushed + p * shifted
  {
    MulCommutes(word, p);
    MulRotate(p, pushed', B);
    MulCommutes(p * pushed', B);
    MulAssociates(B, p, pushed');
    MulCross(B, p, pushed');
    MulDistributes'(p, word, B * pushed');
    MulDistributes'(p, pushed, shifted);
    MulEqual(p, word + B * pushed', pushed + shifted);
  }

  lemma ShiftedPlace(wordShift: nat, bitShift: nat, n: nat, x: nat)
    requires n >= wordShift
    ensures Pow2(64 * wordShift + bitShift) * (x * PowB(n - wordShift)) == PowB(n) * (x * Pow2(bitShift))
  {
    Pow2Add(64 * wordShift, bitShift);
    PowBIsPow2(wordShift);
    PowBAdd(wordShift, n - wordShift);
    PlaceAlgebra(PowB(wordShift), Pow2(bitShift), PowB(n - wordShift), x);
  }

  lemma PlaceAlgebra(a: int, b: int, c: int, x: int)
    ensures (a * b) * (x * c) == (a * c) * (x * b)
  {
    MulCross(x, a * b, c);
    MulCross(x, a * c, b);
    MulSwapLast(a, b, c);
  }

  method ShiftLeftWords(words: array<Word>, amount: nat)
    requires amount < 64 * words.Length
    modifies words
    ensures Val(words[..]) == (Val(old(words[..])) * Pow2(amount)) % PowB(words.Length)
  {
    ghost var before := words[..];
    var count := words.Length;
    var wordShift, bitShift := amount / 64, amount % 64;
    var i := count - 1;
    while i >= 0
      invariant -1 <= i < count
      invariant forall j :: 0 <= j <= i ==> words[j] == before[j]
      invariant forall j :: i < j < count ==> words[j] == LeftWord(before, wordShift, bitShift, j)
    {
      var source := i - wordShift;
      var word: Word := if source >= 0 then Shl64(words[source], bitShift) else 0;
      if bitShift != 0 && source - 1 >= 0 {
        word := Or64(word, Shr64(words[source - 1], 64 - bitShift));
      }
      words[i] := word;
      i := i - 1;
    }
    LeftValue(before, wordShift, bitShift, words[..]);
  }

  lemma LeftValue(ws: seq<Word>, wordShift: nat, bitShift: nat, result: seq<Word>)
    requires |result| == |ws| && wordShift < |ws| && bitShift < 64
    requires forall i :: 0 <= i < |ws| ==> result[i] == LeftWord(ws, wordShift, bitShift, i)
    ensures Val(result) == (Val(ws) * Pow2(64 * wordShift + bitShift)) % PowB(|ws|)
  {
    var n := |ws|;
    LeftPrefix(ws, wordShift, bitShift, result, n);
    assert result[..n] == result && ws == ws[..n - wordShift] + ws[n - wordShift..];
    ValConcat(ws[..n - wordShift], ws[n - wordShift..]);
    ValBound(result);
    var p, low, high := Pow2(64 * wordShift + bitShift), Val(ws[..n - wordShift]), Val(ws[n - wordShift..]);
    ShiftedPlace(wordShift, bitShift, n, high);
    MulCommutes(high, PowB(n - wordShift));
    MulDistributes'(p, low, high * PowB(n - wordShift));
    MulCommutes(Val(ws), p);
    MulDistributes'(PowB(n), Pushed(ws, wordShift, bitShift, n), high * Pow2(bitShift));
    DivModUnique(Val(ws) * p, PowB(n), Pushed(ws, wordShift, bitShift, n) + high * Pow2(bitShift), Val(result));
  }

  // ---------- Right ----------

  const ONES: Word := B - 1

  /** Word `i` of the input continued upwards by the fill word. */
  function Extended(ws: seq<Word>, fill: Word, i: nat): Word {
    if i < |ws| then ws[i] else fill
  }

  /** Word `i` of `ws` shifted right by `wordShift` words and `bitShift` bits. */
  function RightWord(ws: seq<Word>, fill: Word, wordShift: nat, bitShift: nat, i: nat): Word
    requires i < |ws| && bitShift < 64
  {
    var source := i + wordShift;
    var word := if source < |ws| then Shr64(ws[source], bitShift) else fill;
    if bitShift != 0 then Or64(word, Shl64(Extended(ws, fill, source + 1), 64 - bitShift)) else word
  }

  lemma FunnelShift(x: Word, y: Word, k: nat)
    requires 0 < k < 64
    ensures Or64(Shr64(x, k), Shl64(y, 64 - k)) * Pow2(k) + x % Pow2(k) == x + B * (y % Pow2(k))
  {
    hide Or64, Shl64, Shr64, Pow2;
    Pow2Values();
    Pow2Add(k, 64 - k);
    var p, c := Pow2(k), Pow2(64 - k);
    ShiftSplit(y, 64 - k);
    ShiftSplit(x, 64 - k);
    DivMod(x, p);
    DivMod(y, p);
    Shr64Is(x, k);
    OrLowBits(y, Shr64(x, k), 64 - k);
    Or64Commutes(Shr64(x, k), Shl64(y, 64 - k));
    FunnelAlgebra(p, c, y / p, y % p, y, Shl64(y, 64 - k), x / p);
    MulEqual(p, Or64(Shr64(x, k), Shl64(y, 64 - k)), Shl64(y, 64 - k) + x / p);
    MulCommutes(p, Or64(Shr64(x, k), Shl64(y, 64 - k)));
    MulCommutes(p, Shl64(y, 64 - k) + x / p);
  }

  lemma Shr64Is(x: Word, k: nat)
    requires k < 64
    ensures Shr64(x, k) == x / Pow2(k)
  {
  }

  lemma FunnelAlgebra(p: int, c: int, q: int, r: int, y: int, shifted: int, low: int)
    requires p * c == B && y == p * q + r && shifted + B * q == y * c
    ensures (shifted + low) * p == B * r + p * low
  {
    MulDistributes(p * q, r, c);
    MulEqual(c, y, p * q + r);
    MulCommutes(c, y);
    MulCommutes(c, p * q + r);
    MulSwapLast(p, q, c);
    MulEqual(q, p * c, B);
    MulCommutes(q, p * c);
    MulCommutes(q, B);
    assert shifted == r * c;
    MulDistributes(shifted, low, p);
    MulSwapLast(r, c, p);
    MulAssociates(r, p, c);
    MulCommutes(r, B);
    MulCommutes(low, p);
  }

  lemma RightWordExact(ws: seq<Word>, fill: Word, wordShift: nat, bitShift: nat, i: nat)
    requires i < |ws| && bitShift < 64 && (fill == 0 || fill == ONES)
    ensures var x, y := Extended(ws, fill, i + wordShift), Extended(ws, fill, i + wordShift + 1);
            RightWord(ws, fill, wordShift, bitShift, i) * Pow2(bitShift) + x % Pow2(bitShift)
                == x + B * (y % Pow2(bitShift))
  {
    var x, y := Extended(ws, fill, i + wordShift), Extended(ws, fill, i + wordShift + 1);
    if bitShift == 0 {
      DivModUnique(x, 1, x, 0);
      DivModUnique(y, 1, y, 0);
    } else {
      FunnelShift(x, y, bitShift);
      if i + wordShift >= |ws| {
        FillIsItself(fill, bitShift);
      }
    }
  }

  // Above the top word the C code or-s the unshifted fill; for the two fills there are that is the same.
  lemma FillIsItself(fill: Word, k: nat)
    requires (fill == 0 || fill == ONES) && 0 < k < 64
    ensures Or64(fill, Shl64(fill, 64 - k)) == Or64(Shr64(fill, k), Shl64(fill, 64 - k))
  {
    FunnelShift(fill, fill, k);
    Pow2Values();
    Pow2Add(k, 64 - k);
    if fill == 0 {
      MulZero(Pow2(64 - k));
      DivModUnique(0, Pow2(k), 0, 0);
    } else {
      var p := Pow2(k);
      OrOnes(Shl64(fill, 64 - k), 64);
      MulCommutes(p, Pow2(64 - k) - 1);
      MulDistributes'(p, Pow2(64 - k), -1);
      DivModUnique(ONES, p, Pow2(64 - k) - 1, p - 1);
      AllOnes(p, Or64(Shr64(fill, k), Shl64(fill, 64 - k)));
    }
  }

  lemma AllOnes(p: int, z: int)
    requires p > 0 && z * p + (p - 1) == ONES + B * (p - 1)
    ensures z == ONES
  {
    MulDistributes(ONES, 1, p);
    MulCommutes(B, p - 1);
    MulDistributes(p, -1, B);
    MulCommutes(p, B);
    MulDistributes(z, -(ONES as int), p);
    MulNegates(ONES, p);
    MulCommutes(z - ONES, p);
    if z != ONES {
      AbsProduct(z - ONES, p);
    }
  }

  lemma {:induction false} OrOnes(y: nat, k: nat)
    requires y < Pow2(k)
    ensures BitOr(Pow2(k) - 1, y) == Pow2(k) - 1
    decreases k
  {
    if k > 0 {
      var p := Pow2(k - 1);
      assert (2 * p - 1) / 2 == p - 1 && (2 * p - 1) % 2 == 1;
      OrOnes(y / 2, k - 1);
    }
  }

  /** The words that remain after the word shift. */
  function Window(ws: seq<Word>, fill: Word, wordShift: nat): (w: seq<Word>)
    ensures |w| == |ws|
  {
    seq<Word>(|ws|, i requires 0 <= i < |ws| => Extended(ws, fill, i + wordShift))
  }

  lemma {:induction false} RightPrefix(ws: seq<Word>, fill: Word, wordShift: nat, bitShift: nat, result: seq<Word>,
                                       m: nat)
    requires |result| == |ws| && m <= |ws| && bitShift < 64 && (fill == 0 || fill == ONES)
    requires forall i :: 0 <= i < |ws| ==> result[i] == RightWord(ws, fill, wordShift, bitShift, i)
    ensures Val(result[..m]) * Pow2(bitShift) + Extended(ws, fill, wordShift) % Pow2(bitShift)
         == Val(Window(ws, fill, wordShift)[..m]) + PowB(m) * (Extended(ws, fill, m + wordShift) % Pow2(bitShift))
  {
    if m == 0 {
      MulZero(Pow2(bitShift));
      MulCommutes(0, Pow2(bitShift));
    } else {
      var n, w := m - 1, Window(ws, fill, wordShift);
      RightPrefix(ws, fill, wordShift, bitShift, result, n);
      RightWordExact(ws, fill, wordShift, bitShift, n);
      ValSnoc(result, n);
      ValSnoc(w, n);
      PullDown(PowB(n), Pow2(bitShift), Val(result[..n]), result[n], w[n], w[n] % Pow2(bitShift),
               Extended(ws, fill, m + wordShift) % Pow2(bitShift));
    }
  }

  lemma PullDown(p: int, c: int, low: int, word: int, x: int, xr: int, yr: int)
    requires word * c + xr == x + B * yr
    ensures (low + word * p) * c + p * xr == low * c + x * p + (B * p) * yr
  {
    MulDistributes(low, word * p, c);
    MulSwapLast(word, p, c);
    MulCommutes(word * c, p);
    MulDistributes'(p, word * c, xr);
    MulDistributes'(p, x, B * yr);
    MulEqual(p, word * c + xr, x + B * yr);
    MulCommutes(p, x);
    MulAssociates(p, B, yr);
    MulCommutes(p, B);
  }

  method ShiftRightWords(words: array<Word>, amount: nat, arithmetic: bool)
    requires amount < 64 * words.Length
    modifies words
    ensures !arithmetic ==> Val(words[..]) == Val(old(words[..])) / Pow2(amount)
    ensures arithmetic ==>
              ToSigned(PowB(words.Length), Val(words[..]))
                  == ToSigned(PowB(words.Length), Val(old(words[..]))) / Pow2(amount)
  {
    hide Val, PowB, Pow2, Or64, Shl64;
    ghost var before := words[..];
    var count := words.Length;
    var fill: Word := if arithmetic && Shr64(words[count - 1], 63) != 0 then ONES else 0;
    var wordShift, bitShift := amount / 64, amount % 64;
    var i := 0;
    while i < count
      invariant 0 <= i <= count
      invariant forall j :: i <= j < count ==> words[j] == before[j]
      invariant forall j :: 0 <= j < i ==> words[j] == RightWord(before, fill, wordShift, bitShift, j)
    {
      var source := i + wordShift;
      var word := if source < count then Shr64(words[source], bitShift) else fill;
      if bitShift != 0 {
        word := Or64(word, Shl64(if source + 1 < count then words[source + 1] else fill, 64 - bitShift));
      }
      words[i] := word;
      i := i + 1;
    }
    RightValue(before, fill, wordShift, bitShift, words[..]);
    TopBit(before);
    SignKept(PowB(count), Val(before), fill, Pow2(amount), Val(words[..]));
  }

  // The result read with the sign is the floor of the input read with the sign.
  lemma RightValue(ws: seq<Word>, fill: Word, wordShift: nat, bitShift: nat, result: seq<Word>)
    requires |result| == |ws| && wordShift < |ws| && bitShift < 64 && (fill == 0 || fill == ONES)
    requires forall i :: 0 <= i < |ws| ==> result[i] == RightWord(ws, fill, wordShift, bitShift, i)
    ensures var f := if fill == 0 then 0 else PowB(|ws|);
            Val(result) - f == (Val(ws) - f) / Pow2(64 * wordShift + bitShift)
    ensures Val(result) < PowB(|ws|) && Val(ws) < PowB(|ws|)
  {
    var n, p := |ws|, Pow2(bitShift);
    var w, r := Val(Window(ws, fill, wordShift)), Extended(ws, fill, wordShift) % p;
    var sign := if fill == 0 then 0 else 1;
    var f := sign * PowB(n);
    RightWhole(ws, fill, wordShift, bitShift, result);
    WindowValue(ws, fill, wordShift);
    SignedQuotient(PowB(n), p, Val(result), w, sign, r);
    PowBIsPow2(wordShift);
    Pow2Add(64 * wordShift, bitShift);
    DivDiv(Val(ws) - f, PowB(wordShift), p);
    ValBound(result);
    ValBound(ws);
  }

  lemma RightWhole(ws: seq<Word>, fill: Word, wordShift: nat, bitShift: nat, result: seq<Word>)
    requires |result| == |ws| && bitShift < 64 && (fill == 0 || fill == ONES)
    requires forall i :: 0 <= i < |ws| ==> result[i] == RightWord(ws, fill, wordShift, bitShift, i)
    ensures Val(result) * Pow2(bitShift) + Extended(ws, fill, wordShift) % Pow2(bitShift)
         == Val(Window(ws, fill, wordShift)) + PowB(|ws|) * ((if fill == 0 then 0 else 1) * (Pow2(bitShift) - 1))
  {
    var n, w := |ws|, Window(ws, fill, wordShift);
    RightPrefix(ws, fill, wordShift, bitShift, result, n);
    assert result[..n] == result && w[..n] == w;
    FillRemainder(fill, bitShift);
    MulEqual(PowB(n), fill % Pow2(bitShift), (if fill == 0 then 0 else 1) * (Pow2(bitShift) - 1));
  }

  lemma SignedQuotient(b: int, p: int, result: int, w: int, sign: int, r: int)
    requires result * p + r == w + b * (sign * (p - 1)) && 0 <= r < p
    ensures (w - sign * b) / p == result - sign * b
  {
    SignedProduct(b, p, result, w, sign, r);
    DivModUnique(w - sign * b, p, result - sign * b, r);
  }

  lemma SignedProduct(b: int, p: int, result: int, w: int, sign: int, r: int)
    requires result * p + r == w + b * (sign * (p - 1))
    ensures w - sign * b == p * (result - sign * b) + r
  {
    MulDistributes'(p, result, -(sign * b));
    MulCommutes(result, p);
    MulNegates(sign * b, p);
    MulCommutes(p, -(sign * b));
    MulCross(sign, b, p - 1);
    MulDistributes'(b, p, -1);
    MulCommutes(b, p);
    MulDistributes'(sign, b * p, -b);
    MulAssociates(sign, b, p);
    MulNegates(b, sign);
    MulCommutes(sign, -b);
    MulCommutes(sign, b);
  }

  lemma FillRemainder(fill: Word, k: nat)
    requires (fill == 0 || fill == ONES) && k < 64
    ensures fill % Pow2(k) == (if fill == 0 then 0 else 1) * (Pow2(k) - 1)
  {
    Pow2Values();
    Pow2Add(k, 64 - k);
    if fill == 0 {
      MulZero(Pow2(k));
      DivModUnique(0, Pow2(k), 0, 0);
    } else {
      MulDistributes'(Pow2(k), Pow2(64 - k), -1);
      DivModUnique(ONES, Pow2(k), Pow2(64 - k) - 1, Pow2(k) - 1);
    }
  }

  // Dropping the low words, with the fill moved in at the top, divides by 2^(64 * wordShift).
  lemma WindowValue(ws: seq<Word>, fill: Word, wordShift: nat)
    requires wordShift < |ws| && (fill == 0 || fill == ONES)
    ensures var f := (if fill == 0 then 0 else 1) * PowB(|ws|);
            Val(Window(ws, fill, wordShift)) - f == (Val(ws) - f) / PowB(wordShift)
  {
    hide Val, PowB, Window;
    var n, sign := |ws|, if fill == 0 then 0 else 1;
    WindowSum(ws, fill, wordShift);
    PowBAdd(wordShift, n - wordShift);
    FloorOfWindow(PowB(wordShift), PowB(n - wordShift), PowB(n), sign, Val(ws[wordShift..]),
        sign * (PowB(wordShift) - 1),
                  Val(ws[..wordShift]), Val(ws), Val(Window(ws, fill, wordShift)));
  }

  lemma FloorOfWindow(a: int, b: int, ab: int, sign: int, high: int, fills: int, low: int, v: int, w: int)
    requires a > 0 && ab == a * b && fills == sign * (a - 1) && 0 <= low < a
    requires v == low + a * high && w == high + b * fills
    ensures w - sign * ab == (v - sign * ab) / a
  {
    WindowAlgebra(a, b, ab, sign, high, fills);
    MulEqual(a, w - sign * ab, high + b * fills - sign * ab);
    DivModUnique(v - sign * ab, a, w - sign * ab, low);
  }

  lemma WindowSum(ws: seq<Word>, fill: Word, wordShift: nat)
    requires wordShift < |ws| && (fill == 0 || fill == ONES)
    ensures Val(Window(ws, fill, wordShift))
         == Val(ws[wordShift..]) + PowB(|ws| - wordShift) * ((if fill == 0 then 0 else 1) * (PowB(wordShift) - 1))
    ensures Val(ws) == Val(ws[..wordShift]) + PowB(wordShift) * Val(ws[wordShift..])
    ensures Val(ws[..wordShift]) < PowB(wordShift)
  {
    WindowParts(ws, fill, wordShift);
    ValConcat(ws[wordShift..], seq<Word>(wordShift, _ => fill));
    FillValue(fill, wordShift);
    MulEqual(PowB(|ws| - wordShift), Val(seq<Word>(wordShift, _ => fill)),
             (if fill == 0 then 0 else 1) * (PowB(wordShift) - 1));
    assert ws == ws[..wordShift] + ws[wordShift..];
    ValConcat(ws[..wordShift], ws[wordShift..]);
    ValBound(ws[..wordShift]);
  }

  lemma WindowParts(ws: seq<Word>, fill: Word, wordShift: nat)
    requires wordShift < |ws|
    ensures Window(ws, fill, wordShift) == ws[wordShift..] + seq<Word>(wordShift, _ => fill)
  {
    var w, parts := Window(ws, fill, wordShift), ws[wordShift..] + seq<Word>(wordShift, _ => fill);
    assert |w| == |parts|;
    forall i | 0 <= i < |w|
      ensures w[i] == parts[i]
    {
    }
  }

  lemma WindowAlgebra(a: int, b: int, ab: int, sign: int, high: int, fills: int)
    requires ab == a * b && fills == sign * (a - 1)
    ensures a * high - sign * ab == a * (high + b * fills - sign * ab)
  {
    MulEqual(b, fills, sign * (a - 1));
    MulCross(b, sign, a - 1);
    MulDistributes'(b, a, -1);
    MulCommutes(a, b);
    MulDistributes'(sign, ab, -b);
    assert b * fills == sign * ab + sign * -b;
    MulDistributes'(a, high, sign * -b);
    MulCross(a, sign, -b);
    MulNegates(b, a);
    MulCommutes(a, -b);
    MulNegates(ab, sign);
    MulCommutes(sign, ab);
    MulCommutes(sign, -ab);
  }

  lemma {:induction false} FillValue(fill: Word, k: nat)
    requires fill == 0 || fill == ONES
    ensures Val(seq<Word>(k, _ => fill)) == (if fill == 0 then 0 else 1) * (PowB(k) - 1)
  {
    if k > 0 {
      FillValue(fill, k - 1);
      assert seq<Word>(k, _ => fill)[..k - 1] == seq<Word>(k - 1, _ => fill);
      MulDistributes(B, -1, PowB(k - 1));
      MulZero(PowB(k - 1));
      MulCommutes(0, PowB(k - 1));
    }
  }

  lemma SignKept(b: int, before: nat, fill: Word, d: nat, after: nat)
    requires b > 0 && d > 0 && before < b && after < b
    requires var f := if fill == 0 then 0 else b; after - f == (before - f) / d
    requires fill != 0 ==> before >= b - before
    ensures fill == 0 && before < b - before ==> ToSigned(b, after) == ToSigned(b, before) / d
    ensures fill != 0 ==> ToSigned(b, after) == ToSigned(b, before) / d
    ensures fill == 0 ==> after == before / d
  {
    var f := if fill == 0 then 0 else b;
    FloorShrinks(before - f, d);
  }

  lemma FloorShrinks(x: int, d: nat)
    requires d > 0
    ensures x >= 0 ==> 0 <= x / d <= x
    ensures x < 0 ==> x <= x / d < 0
  {
    if x >= 0 {
      DivShrinks(x, d);
    } else {
      DivMod(x, d);
      var q := x / d;
      if q >= 0 {
        MulNonNegative(d, q);
      } else {
        MulAtLeast(-q, d);
        MulNegates(q, d);
        MulCommutes(q, d);
        if q < x {
          DivMod(-x, d);
          FloorAbove(x, d, q, x % d);
        }
      }
    }
  }

  lemma FloorAbove(x: int, d: int, q: int, r: int)
    requires d > 0 && x < 0 && x == d * q + r && 0 <= r < d
    ensures q >= x
  {
    if q < x {
      MulMonotone(1, d, -q - 1);
      MulNegates(q, d);
      MulCommutes(q, d);
      MulCommutes(-q - 1, d);
      MulDistributes'(d, -q, -1);
      MulCommutes(d, -q);
    }
  }
}
