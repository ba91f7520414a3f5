/** The 64 x 64 -> 128 bit product bigint.h builds from four 32-bit half products. */
module HalfProducts {
  import opened Algebra
  import opened Bits
  import opened Words

  function Low32(x: Word): (low: Word) { And64(x, LOW32_MASK) }

  function High32(x: Word): (high: Word) { Shr64(x, 32) }

  /** The upper limb of `left * right`. */
  function HighLimb(left: Word, right: Word): (high: Word) {
    var productLowLow := Mul64(Low32(left), Low32(right));
    var productLowHigh := Mul64(Low32(left), High32(right));
    var productHighLow := Mul64(High32(left), Low32(right));
    var productHighHigh := Mul64(High32(left), High32(right));
    CombineHalves(productLowLow, productLowHigh, productHighLow, productHighHigh)
  }

  function CombineHalves(lowLow: Word, lowHigh: Word, highLow: Word, highHigh: Word): (high: Word) {
    var middle := Add64(lowHigh, High32(lowLow));
    Add64(Add64(highHigh, High32(middle)), High32(Add64(Low32(middle), highLow)))
  }

  lemma Halves(x: Word)
    ensures Low32(x) == x % H && High32(x) == x / H
  {
    Pow2Values();
    AndMask(x, 32);
  }

  lemma HalfProductBound(a: nat, b: nat)
    requires a < H && b < H
    ensures 0 <= a * b <= (H - 1) * (H - 1)
  {
    MulMonotone(a, H - 1, b);
    MulNonNegative(a, b);
  }

  lemma HalfProduct(x: Word, y: Word)
    requires x < H && y < H
    ensures Mul64(x, y) == x * y <= (H - 1) * (H - 1)
  {
    HalfProductBound(x, y);
  }

  // No sum on the way to the upper limb wraps.
  lemma CombineIs(ll: Word, lh: Word, hl: Word, hh: Word, middle: Word, cross: Word)
    requires middle == lh + ll / H && cross == middle % H + hl
    requires hh + middle / H + cross / H < B
    ensures CombineHalves(ll, lh, hl, hh) == hh + middle / H + cross / H
  {
    Halves(ll);
    Halves(middle);
    Halves(cross);
    hide Low32, High32, Add64;
    Add64Exact(lh, High32(ll));
    Add64Exact(Low32(middle), hl);
    Add64Exact(hh, High32(middle));
    Add64Exact(hh + middle / H, High32(cross));
  }

  lemma CombineExact(ll: Word, lh: Word, hl: Word, hh: Word)
    requires ll <= (H - 1) * (H - 1) && lh <= (H - 1) * (H - 1) && hl <= (H - 1) * (H - 1) && hh <= (H - 1) * (H - 1)
    ensures var product := ll + H * (lh + hl) + H * H * hh;
            product == product % B + B * CombineHalves(ll, lh, hl, hh)
  {
    LimbsOfExpansion(ll, lh, hl, hh);
    var middle: Word := lh + ll / H;
    var cross: Word := middle % H + hl;
    hide CombineHalves;
    CombineIs(ll, lh, hl, hh, middle, cross);
    DivModUnique(ll + H * (lh + hl) + H * H * hh, B, CombineHalves(ll, lh, hl, hh), ll % H + H * (cross % H));
  }

  lemma Add64Exact(x: Word, y: Word)
    requires x + y < B
    ensures Add64(x, y) == x + y
  {
  }

  // The two limbs are the whole product.
  lemma ProductLimbs(left: Word, right: Word)
    ensures left * right == Mul64(left, right) + B * HighLimb(left, right)
  {
    Halves(left);
    Halves(right);
    var a, b, c, d := Low32(left), High32(left), Low32(right), High32(right);
    hide Low32, High32, CombineHalves, Mul64;
    HalfProduct(a, c);
    HalfProduct(a, d);
    HalfProduct(b, c);
    HalfProduct(b, d);
    CombineExact(Mul64(a, c), Mul64(a, d), Mul64(b, c), Mul64(b, d));
    Expand(a, b, c, d);
    MulParts(left, right, a + H * b, c + H * d);
    Mul64Is(left, right);
  }

  lemma Mul64Is(x: Word, y: Word)
    ensures Mul64(x, y) == (x * y) % B
  {
  }

  lemma MulParts(x: int, y: int, x': int, y': int)
    requires x == x' && y == y'
    ensures x * y == x' * y'
  {
  }

  lemma Expand(a: int, b: int, c: int, d: int)
    ensures (a + H * b) * (c + H * d) == a * c + H * (a * d + b * c) + H * H * (b * d)
  {
    MulDistributes(a, H * b, c + H * d);
    MulDistributes'(a, c, H * d);
    MulDistributes'(H * b, c, H * d);
    MulAssociates(H, b, c);
    MulCross(a, H, d);
    MulAssociates(H, b, H * d);
    MulCross(b, H, d);
  }

  lemma LimbsOfExpansion(ll: nat, lh: nat, hl: nat, hh: nat)
    requires ll <= (H - 1) * (H - 1) && lh <= (H - 1) * (H - 1) && hl <= (H - 1) * (H - 1) && hh <= (H - 1) * (H - 1)
    ensures var middle := lh + ll / H;
            var cross := middle % H + hl;
            var high := hh + middle / H + cross / H;
            && middle < B && cross < B && high < B
            && ll + H * (lh + hl) + H * H * hh == (ll % H + H * (cross % H)) + B * high
            && ll % H + H * (cross % H) < B
  {
  }
}
