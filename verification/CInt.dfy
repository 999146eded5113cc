/** The C integers of the source: a 32-bit `long`, truncating division, and bit operations on words.
    Signed overflow is written as two's complement wrap-around, which is what the 68000 does. */
module CInt {

  const TWO31 := 0x8000_0000
  const TWO32 := 0x1_0000_0000
  const LONG_MIN := -0x8000_0000
  const LONG_MAX := 0x7FFF_FFFF

  predicate IsLong(x: int) {
    LONG_MIN <= x <= LONG_MAX
  }

  /** The 32-bit signed value congruent to x. */
  function Wrap(x: int): (r: int)
    ensures IsLong(r)
    ensures IsLong(x) ==> r == x
    ensures IsLong(x) <==> r == x
  {
    (x + TWO31) % TWO32 - TWO31
  }

  lemma WrapMultiple(x: int, k: int)
    ensures Wrap(x + k * TWO32) == Wrap(x)
  {
    var y := x + TWO31;
    assert x + k * TWO32 + TWO31 == y + k * TWO32;
    DivModUnique(y + k * TWO32, TWO32, y / TWO32 + k, y % TWO32);
  }

  lemma WrapWitness(x: int) returns (k: int)
    ensures Wrap(x) == x - k * TWO32
  {
    k := (x + TWO31) / TWO32;
  }

  /** Only the total matters, however often it was wrapped on the way. */
  lemma WrapAdd(x: int, y: int)
    ensures Wrap(Wrap(x) + y) == Wrap(x + y)
  {
    var k := WrapWitness(x);
    assert Wrap(x) + y == (x + y) + (-k) * TWO32;
    WrapMultiple(x + y, -k);
  }

  /** C division and remainder, which round toward zero. */
  function CDiv(a: int, b: int): int
    requires b > 0
  {
    if a >= 0 then a / b else -((-a) / b)
  }

  function CRem(a: int, b: int): int
    requires b > 0
  {
    if a >= 0 then a % b else -((-a) % b)
  }

  lemma CDivRem(a: int, b: int)
    requires b > 0
    ensures a == CDiv(a, b) * b + CRem(a, b)
    ensures -b < CRem(a, b) < b
    ensures a >= 0 ==> CRem(a, b) >= 0
    ensures a <= 0 ==> CRem(a, b) <= 0
  {
    if a < 0 {
      var q := (-a) / b;
      assert -a == q * b + (-a) % b;
      assert a == (-q) * b - (-a) % b;
    }
  }

  lemma DivModUnique(x: int, b: int, q: int, r: int)
    requires b > 0 && 0 <= r < b && x == q * b + r
    ensures x / b == q && x % b == r
  {
    var q', r' := x / b, x % b;
    assert x == q' * b + r';
    assert (q - q') * b == r' - r;
    if q > q' {
      assert (q - q') * b >= b by { MulMono(1, q - q', b); }
    } else if q < q' {
      MulMono(1, q' - q, b);
    }
  }

  lemma MulMono(x: int, y: int, b: int)
    requires x <= y && 0 <= b
    ensures x * b <= y * b
  {
  }

  lemma DivBounds(x: nat, b: nat)
    requires b > 0
    ensures 0 <= x / b <= x
  {
    var q := x / b;
    assert x == q * b + x % b;
    if q < 0 {
      MulMono(q, -1, b);
    } else {
      MulMono(1, b, q);
    }
  }

  /** 2^k. */
  function Pow2(k: nat): (p: nat)
    ensures p > 0
  {
    if k == 0 then 1 else 2 * Pow2(k - 1)
  }

  lemma {:induction false} Pow2Add(i: nat, j: nat)
    ensures Pow2(i + j) == Pow2(i) * Pow2(j)
  {
    if i > 0 {
      Pow2Add(i - 1, j);
    }
  }

  lemma {:induction false} Pow2Mono(i: nat, j: nat)
    requires i <= j
    ensures Pow2(i) <= Pow2(j)
    ensures i < j ==> 2 * Pow2(i) <= Pow2(j)
  {
    if i < j {
      Pow2Mono(i, j - 1);
    }
  }

  lemma Pow2Values()
    ensures Pow2(16) == 0x1_0000
    ensures Pow2(31) == TWO31
    ensures Pow2(32) == TWO32
    ensures Pow2(62) == 0x4000_0000_0000_0000
    ensures Pow2(63) == 0x8000_0000_0000_0000
    ensures Pow2(64) == 0x1_0000_0000_0000_0000
  {
    assert Pow2(8) == 256;
    Pow2Add(8, 8);
    Pow2Add(16, 16);
    assert Pow2(32) == 2 * Pow2(31);
    Pow2Add(32, 32);
    assert Pow2(64) == 2 * Pow2(63) == 4 * Pow2(62);
  }

  /** Bitwise or of two words. */
  function Or(a: nat, b: nat): (r: nat)
    ensures r >= a && r >= b
  {
    if a == 0 then b
    else if b == 0 then a
    else 2 * Or(a / 2, b / 2) + (if a % 2 == 1 || b % 2 == 1 then 1 else 0)
  }

  /** When b occupies only bits that are clear in a, the or is the sum. */
  lemma {:induction false} OrDisjoint(a: nat, b: nat, k: nat)
    requires a % Pow2(k) == 0 && b < Pow2(k)
    ensures Or(a, b) == a + b
  {
    if a != 0 && b != 0 {
      assert k > 0;
      var p := Pow2(k - 1);
      var q := a / Pow2(k);
      assert a == q * Pow2(k) == 2 * (q * p);
      assert a / 2 == q * p;
      DivModUnique(a / 2, p, q, 0);
      OrDisjoint(a / 2, b / 2, k - 1);
    }
  }

  lemma {:induction false} OrBelow(a: nat, b: nat, k: nat)
    requires a < Pow2(k) && b < Pow2(k)
    ensures Or(a, b) < Pow2(k)
  {
    if a != 0 && b != 0 {
      OrBelow(a / 2, b / 2, k - 1);
    }
  }
}
