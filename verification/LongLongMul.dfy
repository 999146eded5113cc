/** Schoolbook multiplication of two 64-bit numbers (long_long_mul), and exactly when its result is the product. */
module LongLongMul {
  import opened CInt
  import opened LongLong

  const HALF := 0x1_0000

  /** The unsigned core: four 16-bit partial products, and word products that reach only the high word. */
  function Core(a: LL, b: LL): LL {
    var a0, a1 := a.lo % HALF, a.lo / HALF;
    var b0, b1 := b.lo % HALF, b.lo / HALF;
    Assemble(a0 * b0, a0 * b1, a1 * b0, a1 * b1, a.lo * b.hi, a.hi * b.lo)
  }

  /** The words made from the products; every sum and product is reduced modulo 2^32. */
  function Assemble(q0: int, q1: int, q2: int, q3: int, u: int, v: int): LL {
    var p0, p1, p2, p3 := q0 % TWO32, q1 % TWO32, q2 % TWO32, q3 % TWO32;
    var midSum1 := (p1 + p2) % TWO32;
    var midSum2 := (p0 / HALF + midSum1 % HALF) % TWO32;
    var lo := WordOr(p0 % HALF, (midSum2 * HALF) % TWO32);
    var hi := (p3 + midSum1 / HALF + midSum2 / HALF) % TWO32;
    LL(((hi + u) % TWO32 + v) % TWO32, lo)
  }

  function HandleOverflow(negative: bool): LL {
    if negative then MIN else MAX
  }

  function Mul(a: LL, b: LL): LL {
    Finish(Core(Magnitude(a), Magnitude(b)), IsNegative(a) != IsNegative(b))
  }

  /** The overflow checks and the sign, applied to the core's pattern. */
  function Finish(r: LL, negative: bool): LL {
    if r.hi > 0x7FFF_FFFF then HandleOverflow(negative)
    else if r == MAX && negative then HandleOverflow(negative)
    else if negative then Negate(r)
    else r
  }

  /** The operand after its sign has been taken off; MIN stays as it is and reads as 2^63 unsigned. */
  function Magnitude(v: LL): (m: LL)
    ensures Bits(m) == (if Value(v) < 0 then -Value(v) else Value(v))
  {
    if IsNegative(v) then Negate(v) else v
  }

  /** The cross products of the 16-bit halves of the low words. */
  function CrossSum(x: nat, y: nat): int {
    (x % HALF) * (y / HALF) + (x / HALF) * (y % HALF)
  }

  /** The middle sum is kept in 32 bits, so its carry is lost. */
  predicate LosesCarry(a: LL, b: LL) {
    CrossSum(Magnitude(a).lo, Magnitude(b).lo) >= TWO32
  }

  /** What a caller can check beforehand: the product is representable, it is not one above the minimum,
      and the cross products of the low words do not carry out of 32 bits. */
  predicate MulDomain(a: LL, b: LL) {
    var product := Value(a) * Value(b);
    -TWO63 <= product < TWO63 && product != -(TWO63 - 1) && !LosesCarry(a, b)
  }

  lemma ProductBound(x: nat, y: nat, m: nat)
    requires x < m && y < m
    ensures x * y <= (m - 1) * (m - 1)
  {
    MulMono(x, m - 1, y);
    MulMono(y, m - 1, m - 1);
  }

  /** The low 64 bits of the low-word product, less the carry that the middle sum loses. */
  lemma LowProduct(x: nat, y: nat, a0: nat, a1: nat, b0: nat, b1: nat)
    requires a0 < HALF && a1 < HALF && b0 < HALF && b1 < HALF
    requires x == a1 * HALF + a0 && y == b1 * HALF + b0
    ensures x * y == a1 * b1 * TWO32 + (a0 * b1 + a1 * b0) * HALF + a0 * b0
    ensures a0 * b0 < TWO32 && a0 * b1 < TWO32 && a1 * b0 < TWO32 && a1 * b1 < TWO32
  {
    ProductBound(a0, b0, HALF);
    ProductBound(a0, b1, HALF);
    ProductBound(a1, b0, HALF);
    ProductBound(a1, b1, HALF);
    assert x * y == (a1 * HALF) * (b1 * HALF) + (a1 * HALF) * b0 + a0 * (b1 * HALF) + a0 * b0;
    assert (a1 * HALF) * (b1 * HALF) == a1 * b1 * TWO32;
  }

  /** The two words of the core, as a sum: linear in the four partial products. */
  lemma CoreSum(p0: nat, p1: nat, p2: nat, p3: nat)
    requires p0 < TWO32 && p1 < TWO32 && p2 < TWO32
    ensures var midSum1 := (p1 + p2) % TWO32;
            var midSum2 := (p0 / HALF + midSum1 % HALF) % TWO32;
            && 0 <= midSum2 < 2 * HALF
            && (midSum2 * HALF) % TWO32 == (midSum2 % HALF) * HALF
            && (p3 + midSum1 / HALF + midSum2 / HALF) * TWO32 + (midSum2 % HALF) * HALF + p0 % HALF
               == p3 * TWO32 + (p1 + p2 - (if p1 + p2 >= TWO32 then TWO32 else 0)) * HALF + p0
  {
    ModSmall(p1 + p2, TWO32);
    var midSum1 := (p1 + p2) % TWO32;
    var midSum2 := p0 / HALF + midSum1 % HALF;
    assert p0 == (p0 / HALF) * HALF + p0 % HALF;
    assert midSum1 == (midSum1 / HALF) * HALF + midSum1 % HALF;
    DivModUnique(midSum2 * HALF, TWO32, midSum2 / HALF, (midSum2 % HALF) * HALF);
  }

  lemma WordOrHalves(low: Word, high: Word)
    requires low < HALF && high % HALF == 0
    ensures WordOr(low, high) == low + high
  {
    assert Pow2(16) == HALF by { Pow2Values(); }
    OrAbove(low, high, 16);
  }

  /** Both high-word cross products only matter modulo 2^32. */
  lemma HighWord(h: int, u: int, v: int) returns (k: int)
    ensures ((h % TWO32 + u) % TWO32 + v) % TWO32 == h + u + v + k * TWO32
  {
    var k0, k1 := h / TWO32, (h % TWO32 + u) / TWO32;
    k := -(k0 + k1 + ((h % TWO32 + u) % TWO32 + v) / TWO32);
  }

  /** 2^48 when the middle sum of the cross products q1 + q2 does not fit a word. */
  function LostCarry(q: int): int {
    if q >= TWO32 then 0x1_0000_0000_0000 else 0
  }

  /** The core computes the product modulo 2^64, short of 2^48 when the middle carry is lost. */
  lemma CoreCongruent(a: LL, b: LL) returns (k: int)
    ensures Bits(Core(a, b)) == Bits(a) * Bits(b) - LostCarry(CrossSum(a.lo, b.lo)) + k * TWO64
  {
    hide Assemble;
    k := CoreSplit(a, b, a.lo % HALF, a.lo / HALF, b.lo % HALF, b.lo / HALF);
  }

  lemma CoreSplit(a: LL, b: LL, a0: nat, a1: nat, b0: nat, b1: nat) returns (k: int)
    requires a0 < HALF && a1 < HALF && b0 < HALF && b1 < HALF
    requires a.lo == a1 * HALF + a0 && b.lo == b1 * HALF + b0
    ensures Bits(Assemble(a0 * b0, a0 * b1, a1 * b0, a1 * b1, a.lo * b.hi, a.hi * b.lo))
         == Bits(a) * Bits(b) - LostCarry(a0 * b1 + a1 * b0) + k * TWO64
  {
    hide Assemble, LostCarry;
    FullProduct(a.hi, a.lo, b.hi, b.lo, a0, a1, b0, b1);
    k := AssembleProduct(a0 * b0, a0 * b1, a1 * b0, a1 * b1, a.lo * b.hi, a.hi * b.lo,
                         Bits(a) * Bits(b), a.hi * b.hi);
  }

  lemma FullProduct(ah: nat, x: nat, bh: nat, y: nat, a0: nat, a1: nat, b0: nat, b1: nat)
    requires a0 < HALF && a1 < HALF && b0 < HALF && b1 < HALF
    requires x == a1 * HALF + a0 && y == b1 * HALF + b0
    ensures 0 <= a0 * b0 < TWO32 && 0 <= a0 * b1 < TWO32 && 0 <= a1 * b0 < TWO32 && 0 <= a1 * b1 < TWO32
    ensures (ah * TWO32 + x) * (bh * TWO32 + y)
         == (ah * bh) * TWO64 + (x * bh + ah * y) * TWO32 + ((a1 * b1) * TWO32 + (a0 * b1 + a1 * b0) * HALF + a0 * b0)
  {
    LowProduct(x, y, a0, a1, b0, b1);
    WordsProduct(ah, x, bh, y);
  }

  lemma AssembleProduct(p0: int, p1: int, p2: int, p3: int, u: int, v: int, product: int, high: int) returns (k: int)
    requires 0 <= p0 < TWO32 && 0 <= p1 < TWO32 && 0 <= p2 < TWO32 && 0 <= p3 < TWO32
    requires product == high * TWO64 + (u + v) * TWO32 + (p3 * TWO32 + (p1 + p2) * HALF + p0)
    ensures Bits(Assemble(p0, p1, p2, p3, u, v)) == product - LostCarry(p1 + p2) + k * TWO64
  {
    k := AssembleSum(p0, p1, p2, p3, u, v);
    k := k - high;
  }

  lemma AssembleSum(p0: int, p1: int, p2: int, p3: int, u: int, v: int) returns (k: int)
    requires 0 <= p0 < TWO32 && 0 <= p1 < TWO32 && 0 <= p2 < TWO32 && 0 <= p3 < TWO32
    ensures Bits(Assemble(p0, p1, p2, p3, u, v))
         == p3 * TWO32 + (p1 + p2) * HALF + p0 - LostCarry(p1 + p2) + (u + v) * TWO32 + k * TWO64
  {
    var h, low := AssembleWords(p0, p1, p2, p3, u, v);
    hide Assemble, LostCarry, Bits;
    k := HighWord(h, u, v);
    Combine(Assemble(p0, p1, p2, p3, u, v), h, u, v, k, low);
  }

  /** The high word before the cross products of the words are added, and the low word. */
  lemma AssembleWords(p0: int, p1: int, p2: int, p3: int, u: int, v: int) returns (h: int, low: int)
    requires 0 <= p0 < TWO32 && 0 <= p1 < TWO32 && 0 <= p2 < TWO32 && 0 <= p3 < TWO32
    ensures var c := Assemble(p0, p1, p2, p3, u, v);
            c.hi == ((h % TWO32 + u) % TWO32 + v) % TWO32 && c.lo == low
    ensures h * TWO32 + low == p3 * TWO32 + (p1 + p2) * HALF + p0 - LostCarry(p1 + p2)
  {
    CoreSum(p0, p1, p2, p3);
    var midSum1 := (p1 + p2) % TWO32;
    var midSum2 := (p0 / HALF + midSum1 % HALF) % TWO32;
    h := p3 + midSum1 / HALF + midSum2 / HALF;
    low := (midSum2 % HALF) * HALF + p0 % HALF;
    hide WordOr;
    AssembleHalves(p0, p1, p2, p3, u, v, midSum1, midSum2);
  }

  lemma AssembleHalves(p0: int, p1: int, p2: int, p3: int, u: int, v: int, midSum1: int, midSum2: int)
    requires 0 <= p0 < TWO32 && 0 <= p1 < TWO32 && 0 <= p2 < TWO32 && 0 <= p3 < TWO32
    requires midSum1 == (p1 + p2) % TWO32 && midSum2 == (p0 / HALF + midSum1 % HALF) % TWO32
    requires (midSum2 * HALF) % TWO32 == (midSum2 % HALF) * HALF
    ensures var c := Assemble(p0, p1, p2, p3, u, v);
            && c.hi == (((p3 + midSum1 / HALF + midSum2 / HALF) % TWO32 + u) % TWO32 + v) % TWO32
            && c.lo == (midSum2 % HALF) * HALF + p0 % HALF
  {
    hide WordOr;
    ModSmall(p0, TWO32);
    ModSmall(p1, TWO32);
    ModSmall(p2, TWO32);
    ModSmall(p3, TWO32);
    DivModUnique((midSum2 % HALF) * HALF, HALF, midSum2 % HALF, 0);
    WordOrHalves(p0 % HALF, (midSum2 * HALF) % TWO32);
  }

  lemma Combine(c: LL, h: int, u: int, v: int, k: int, low: int)
    requires c.hi == h + u + v + k * TWO32 && c.lo == low
    ensures Bits(c) == h * TWO32 + low + (u + v) * TWO32 + k * TWO64
  {
  }

  lemma WordsProduct(ah: int, x: int, bh: int, y: int)
    ensures (ah * TWO32 + x) * (bh * TWO32 + y) == ah * bh * TWO64 + (x * bh + ah * y) * TWO32 + x * y
  {
    assert (ah * TWO32 + x) * (bh * TWO32 + y)
        == (ah * TWO32) * (bh * TWO32) + (ah * TWO32) * y + x * (bh * TWO32) + x * y;
    assert (ah * TWO32) * (bh * TWO32) == ah * bh * TWO64;
  }

  /** A lost carry means the product of the low words alone is at least 2^48. */
  lemma CarryNeedsSize(a: LL, b: LL)
    requires CrossSum(a.lo, b.lo) >= TWO32
    ensures Bits(a) * Bits(b) >= 0x1_0000_0000_0000
  {
    var x, y := a.lo, b.lo;
    LowProduct(x, y, x % HALF, x / HALF, y % HALF, y / HALF);
    assert x * y >= 0x1_0000_0000_0000 by {
      NonNegative(x / HALF, y / HALF);
      NonNegative(x % HALF, y % HALF);
    }
    NonNegative(a.hi, b.hi);
    NonNegative(x, b.hi);
    NonNegative(a.hi, y);
    WordsProduct(a.hi, x, b.hi, y);
  }

  lemma NonNegative(x: nat, y: nat)
    ensures x * y >= 0
  {
  }

  lemma SignedProduct(a: LL, b: LL)
    ensures var p := Bits(Magnitude(a)) * Bits(Magnitude(b));
            p >= 0 && Value(a) * Value(b) == if IsNegative(a) != IsNegative(b) then -p else p
  {
    SignArith(Bits(Magnitude(a)), Bits(Magnitude(b)), Value(a), Value(b));
  }

  lemma SignArith(x: nat, y: nat, v: int, w: int)
    requires x == (if v < 0 then -v else v) && y == (if w < 0 then -w else w)
    ensures x * y >= 0
    ensures v * w == if (v < 0) != (w < 0) then -(x * y) else x * y
  {
    NonNegative(x, y);
  }

  /** The signed value Finish makes of the core's pattern. */
  function Clamped(r: int, negative: bool): int {
    if r >= TWO63 || (r == TWO63 - 1 && negative) then if negative then -TWO63 else TWO63 - 1
    else if negative then -r else r
  }

  lemma FinishValue(r: LL, negative: bool)
    ensures Value(Finish(r, negative)) == Clamped(Bits(r), negative)
  {
    if r.hi <= 0x7FFF_FFFF {
      assert Value(r) == Bits(r);
      assert r == MAX <==> Bits(r) == TWO63 - 1;
    }
  }

  /** What long_long_mul returns for every pair of operands: the magnitude of the product, less the carry that may be
      lost, modulo 2^64; with its sign, or clamped to the end of the range on that side. */
  lemma MulValue(a: LL, b: LL)
    ensures var product := Value(a) * Value(b);
            var lost := if LosesCarry(a, b) then 0x1_0000_0000_0000 else 0;
            var r := ((if product < 0 then -product else product) - lost) % TWO64;
            Value(Mul(a, b)) ==
            if IsNegative(a) != IsNegative(b) then (if r >= TWO63 - 1 then -TWO63 else -r)
            else if r >= TWO63 then TWO63 - 1 else r
  {
    var x, y := Magnitude(a), Magnitude(b);
    var k := CoreCongruent(x, y);
    SignedProduct(a, b);
    FinishValue(Core(x, y), IsNegative(a) != IsNegative(b));
    var lost := if LosesCarry(a, b) then 0x1_0000_0000_0000 else 0;
    assert Bits(Core(x, y)) == Bits(x) * Bits(y) - lost + k * TWO64;
    assert Value(Mul(a, b)) == Clamped(Bits(Core(x, y)), IsNegative(a) != IsNegative(b));
    hide Core, Magnitude, LosesCarry, Bits, Value, Mul, IsNegative;
    MulValueArith(Bits(x) * Bits(y), Value(a) * Value(b), lost, k, Bits(Core(x, y)), IsNegative(a) != IsNegative(b));
  }

  lemma MulValueArith(p: int, product: int, lost: int, k: int, r: int, negative: bool)
    requires p >= 0 && product == (if negative then -p else p) && 0 <= r < TWO64 && r == p - lost + k * TWO64
    ensures ((if product < 0 then -product else product) - lost) % TWO64 == r
  {
    DivModUnique(p - lost, TWO64, -k, r);
  }

  /** long_long_mul returns the product exactly on MulDomain, for every pair of 64-bit operands. */
  lemma MulExact(a: LL, b: LL)
    ensures Value(Mul(a, b)) == Value(a) * Value(b) <==> MulDomain(a, b)
  {
    var x, y := Magnitude(a), Magnitude(b);
    var k := CoreCongruent(x, y);
    var p: int := Bits(x) * Bits(y);
    if LosesCarry(a, b) {
      CarryNeedsSize(x, y);
    }
    SignedProduct(a, b);
    FinishValue(Core(x, y), IsNegative(a) != IsNegative(b));
    MulExactArith(p, k, LosesCarry(a, b), IsNegative(a) != IsNegative(b), Bits(Core(x, y)));
  }

  /** The same statement on the unsigned product p and the pattern r the core returns for it. */
  lemma MulExactArith(p: int, k: int, loses: bool, negative: bool, r: int)
    requires 0 <= p && 0 <= r < TWO64
    requires loses ==> p >= 0x1_0000_0000_0000
    requires r == p - (if loses then 0x1_0000_0000_0000 else 0) + k * TWO64
    ensures var product := if negative then -p else p;
            Clamped(r, negative) == product <==> -TWO63 <= product < TWO63 && product != -(TWO63 - 1) && !loses
  {
    if p <= TWO63 {
      assert k == 0;
    }
  }

  /** One short factor is enough: below 2^16 in magnitude no carry can be lost. */
  lemma ShortFactor(a: LL, b: LL)
    requires -HALF < Value(a) < HALF || -HALF < Value(b) < HALF
    ensures !LosesCarry(a, b)
  {
    var x, y := Magnitude(a).lo, Magnitude(b).lo;
    if x < HALF {
      assert x / HALF == 0 && x % HALF == x;
      ProductBound(x, y / HALF, HALF);
    } else {
      assert y / HALF == 0 && y % HALF == y;
      ProductBound(x / HALF, y, HALF);
    }
  }

  /** Two operands of moderate size whose product is far from overflow and still comes out wrong. */
  lemma LostCarryExample()
    ensures var m := LL(0, 0xFFFF_FFFF); Value(m) * Value(m) < TWO64 && LosesCarry(m, m)
    ensures var u := LL(0, 0x7FFF_FFFF); var v := LL(0, 0xFFFF_FFFF);
            Value(u) * Value(v) < TWO63 && Value(Mul(u, v)) != Value(u) * Value(v)
  {
    var u, v := LL(0, 0x7FFF_FFFF), LL(0, 0xFFFF_FFFF);
    assert CrossSum(u.lo, v.lo) >= TWO32;
    MulExact(u, v);
  }
}
