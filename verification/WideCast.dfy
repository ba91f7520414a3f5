/** The range-checked cast between the wide integer types. */
module WideCast {
  import opened Algebra
  import opened Bits
  import opened Words
  import opened LongDivision
  import opened Wide256
  import opened TwosComplement
  import opened Outcomes

  /** The value of a word sequence read as an unsigned or a signed integer. */
  function Reading(ws: seq<Word>, signed: bool): (x: int) {
    if signed then ToSigned(PowB(|ws|), Val(ws)) else Val(ws)
  }

  predicate InRange(x: int, bits: nat, signed: bool)
    requires bits > 0
  {
    if signed then -(Pow2(bits - 1) as int) <= x < Pow2(bits - 1) else 0 <= x < Pow2(bits)
  }

  /** Keeps the value, or panics when the destination cannot hold it. */
  method CastWords(source: seq<Word>, sourceSigned: bool, destinationBits: nat, destinationSigned: bool)
    returns (result: Outcome<Words4>)
    requires 1 <= |source| <= 4 && 1 <= destinationBits <= 256
    ensures result.Value? <==> InRange(Reading(source, sourceSigned), destinationBits, destinationSigned)
    ensures result.Panic? ==> result.code == "P0138"
    ensures result.Value? && destinationBits % 64 == 0 ==>
              Reading(result.value[..destinationBits / 64], destinationSigned) == Reading(source, sourceSigned)
  {
    var n := |source|;
    var isNegative := sourceSigned && Shr64(source[n - 1], 63) != 0;
    var fill: Word := if isNegative then B - 1 else 0;
    var words: Words4 := [source[0], if 1 < n then source[1] else fill, if 2 < n then source[2] else fill,
        if 3 < n then source[3] else fill];
    SignExtension(source, sourceSigned, isNegative, words);
    var firstCheckedBit := if destinationSigned then destinationBits - 1 else destinationBits;
    var isInRange := !isNegative || destinationSigned;
    var bit := firstCheckedBit;
    while bit < 256 && isInRange
      invariant firstCheckedBit <= bit <= 256
      invariant isInRange ==>
                  (!isNegative || destinationSigned) && BitsAre(Val(words), firstCheckedBit, bit, isNegative)
      invariant !isInRange ==>
                  (isNegative && !destinationSigned) || !BitsAre(Val(words), firstCheckedBit, 256, isNegative)
    {
      var isSet := And64(Shr64(words[bit / 64], bit % 64), 1) != 0;
      BitIsSet(words, bit);
      if isSet != isNegative {
        isInRange := false;
        assert BitAt(Val(words), bit) != isNegative;
      }
      bit := bit + 1;
    }
    RangeFromBits(Val(words), firstCheckedBit, isNegative);
    if !isInRange {
      return Panic("P0138");
    }
    if destinationBits % 64 == 0 {
      LowPart(words, destinationBits / 64, destinationSigned, isNegative);
    }
    return Value(words);
  }

  predicate BitAt(v: nat, bit: nat) {
    NextBit(v, bit) == 1
  }

  ghost predicate BitsAre(v: nat, first: nat, end: nat, value: bool) {
    forall b :: first <= b < end ==> BitAt(v, b) == value
  }

  lemma BitIsSet(words: Words4, bit: nat)
    requires bit < 256
    ensures And64(Shr64(words[bit / 64], bit % 64), 1) != 0 <==> BitAt(Val(words), bit)
  {
    assert Pow2(1) == 2;
    AndMask(Shr64(words[bit / 64], bit % 64), 1);
    BitOfWord(words, bit / 64, bit % 64);
  }

  // The bits from `first` up are all clear, or all set, exactly when the number is small, or within
  // 2^first of 2^256.
  lemma RangeFromBits(v: nat, first: nat, value: bool)
    requires v < M256 && first <= 256
    ensures BitsAre(v, first, 256, value) <==> if value then v >= M256 - Pow2(first) else v < Pow2(first)
  {
    M256IsPow2();
    TopBits(v, first, value);
    Pow2Add(first, 256 - first);
    DivMod(v, Pow2(first));
    DivShrinks(v, Pow2(first));
    Quotients(v, Pow2(first), Pow2(256 - first), v / Pow2(first), v % Pow2(first));
  }

  lemma M256IsPow2()
    ensures Pow2(256) == M256
  {
    PowBIsPow2(4);
    assert PowB(1) == B && PowB(2) == B * B && PowB(3) == B * B * B;
  }

  lemma {:induction false} TopBits(v: nat, first: nat, value: bool)
    requires v < Pow2(256) && first <= 256
    ensures BitsAre(v, first, 256, value) <==> v / Pow2(first) == if value then Pow2(256 - first) - 1 else 0
    decreases 256 - first
  {
    if first == 256 {
      DivModUnique(v, Pow2(256), 0, v);
    } else {
      TopBits(v, first + 1, value);
      Halving(v, first);
      assert Pow2(256 - first) == 2 * Pow2(256 - (first + 1));
      assert BitsAre(v, first, 256, value) <==> BitAt(v, first) == value && BitsAre(v, first + 1, 256, value);
    }
  }

  lemma Quotients(v: nat, p: nat, c: nat, q: nat, r: nat)
    requires p > 0 && v == p * q + r && r < p && p * c == M256 && v < M256
    ensures q == 0 <==> v < p
    ensures q == c - 1 <==> v >= M256 - p
  {
    MulZero(p);
    if q >= 1 { MulMonotone(1, q, p); MulCommutes(p, q); }
    MulDistributes'(p, c, -1);
    if q >= c { MulMonotone(c, q, p); MulCommutes(p, q); MulCommutes(p, c); }
    if q < c - 1 { MulMonotone(q + 2, c, p); MulDistributes(q, 2, p); MulCommutes(p, q); MulCommutes(p, c); }
  }

  // Filling the upper words with the sign adds 2^256 to a negative value and nothing to another.
  lemma SignExtension(source: seq<Word>, signed: bool, isNegative: bool, words: Words4)
    requires 1 <= |source| <= 4 && (isNegative <==> signed && Shr64(source[|source| - 1], 63) != 0)
    requires forall i :: 0 <= i < 4 ==> words[i] == if i < |source| then source[i] else if isNegative then B - 1 else 0
    ensures Val(words) == Reading(source, signed) + (if isNegative then M256 else 0) < M256
    ensures isNegative <==> Reading(source, signed) < 0
  {
    var n := |source|;
    ValBelow(words);
    ValAround'(words, n);
    assert words[..n] == source;
    FilledTop(words[n..], isNegative);
    PowBAdd(n, 4 - n);
    MulDistributes'(PowB(n), PowB(4 - n), -1);
    MulZero(PowB(n));
    TopBit(source);
    ValBound(source);
  }

  lemma ValAround'(ws: seq<Word>, n: nat)
    requires n <= |ws|
    ensures Val(ws) == Val(ws[..n]) + PowB(n) * Val(ws[n..])
  {
    assert ws == ws[..n] + ws[n..];
    ValConcat(ws[..n], ws[n..]);
  }

  lemma {:induction false} FilledTop(ws: seq<Word>, ones: bool)
    requires forall i :: 0 <= i < |ws| ==> ws[i] == if ones then B - 1 else 0
    ensures Val(ws) == if ones then PowB(|ws|) - 1 else 0
  {
    if ws != [] {
      var n := |ws| - 1;
      FilledTop(ws[..n], ones);
      MulDistributes(B, -1, PowB(n));
      MulZero(PowB(n));
      MulCommutes(PowB(n), 0);
    }
  }

  // A value in range is read back from the low words.
  lemma LowPart(words: Words4, k: nat, signed: bool, isNegative: bool)
    requires 1 <= k <= 4 && (isNegative ==> signed)
    requires var first := if signed then 64 * k - 1 else 64 * k;
             if isNegative then Val(words) >= M256 - Pow2(first) else Val(words) < Pow2(first)
    ensures Reading(words[..k], signed) == Val(words) - (if isNegative then M256 else 0)
  {
    hide Pow2, PowB, Val;
    ValAround'(words, k);
    ValBound(words[..k]);
    ValBelow(words);
    PowBIsPow2(k);
    PowBAdd(k, 4 - k);
    Doubled(64 * k - 1);
    ValBound(words[k..]);
    var low, high, p, c := Val(words[..k]), Val(words[k..]), PowB(k), PowB(4 - k);
    if isNegative {
      if high < c - 1 {
        MulMonotone(high + 2, c, p);
        MulDistributes(high, 2, p);
        MulCommutes(p, high);
        MulCommutes(p, c);
      }
      MulDistributes'(p, c, -1);
    } else {
      if high >= 1 { MulMonotone(1, high, p); MulCommutes(p, high); }
      MulZero(p);
    }
  }
}
