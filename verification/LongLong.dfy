/** The 64-bit integer of longlong.c: two 32-bit words, and the straight-line operations on them. */
module LongLong {
  import opened CInt

  const TWO63 := 0x8000_0000_0000_0000
  const TWO64 := 0x1_0000_0000_0000_0000

  type Word = w: nat | w < TWO32

  datatype LL = LL(hi: Word, lo: Word)

  const ZERO := LL(0, 0)
  const ONE := LL(0, 1)
  const NEG_ONE := LL(0xFFFF_FFFF, 0xFFFF_FFFF)
  const MIN := LL(0x8000_0000, 0)
  const MAX := LL(0x7FFF_FFFF, 0xFFFF_FFFF)

  /** The 64-bit pattern as an unsigned number. */
  function Bits(v: LL): (n: nat)
    ensures n < TWO64
  {
    v.hi * TWO32 + v.lo
  }

  /** The two's complement value. */
  function Value(v: LL): (x: int)
    ensures -TWO63 <= x < TWO63
    ensures x == Bits(v) || x == Bits(v) - TWO64
  {
    if IsNegative(v) then Bits(v) - TWO64 else Bits(v)
  }

  predicate IsNegative(v: LL) {
    v.hi >= TWO31
  }

  function Not(w: Word): Word {
    0xFFFF_FFFF - w
  }

  function Negate(v: LL): (r: LL)
    ensures Bits(r) == (TWO64 - Bits(v)) % TWO64
    ensures v != MIN ==> Value(r) == -Value(v)
    ensures v == MIN ==> r == MIN
  {
    if v.hi == 0 && v.lo == 0 then v
    else
      var lo := (Not(v.lo) + 1) % TWO32;
      ModSmall(Not(v.lo) + 1, TWO32);
      ModSmall(Not(v.hi) + 1, TWO32);
      ModSmall(TWO64 - Bits(v), TWO64);
      LL(if lo == 0 then (Not(v.hi) + 1) % TWO32 else Not(v.hi), lo)
  }

  function Add(a: LL, b: LL): (r: LL)
    ensures Bits(r) == (Bits(a) + Bits(b)) % TWO64
  {
    var lo := (a.lo + b.lo) % TWO32;
    var carry := if lo < a.lo then 1 else 0;
    ModSmall(a.lo + b.lo, TWO32);
    ModSmall(a.hi + b.hi + carry, TWO32);
    ModSmall(Bits(a) + Bits(b), TWO64);
    LL((a.hi + b.hi + carry) % TWO32, lo)
  }

  function Sub(a: LL, b: LL): (r: LL)
    ensures Bits(r) == (Bits(a) - Bits(b)) % TWO64
    ensures Bits(b) <= Bits(a) ==> Bits(r) == Bits(a) - Bits(b)
  {
    var borrow := if a.lo >= b.lo then 0 else 1;
    ModSmall(a.lo - b.lo, TWO32);
    ModSmall(a.hi - b.hi - borrow, TWO32);
    ModSmall(Bits(a) - Bits(b), TWO64);
    LL((a.hi - b.hi - borrow) % TWO32, (a.lo - b.lo) % TWO32)
  }

  /** Within one modulus either way, the remainder is a single correction. */
  lemma ModSmall(x: int, m: int)
    requires m > 0 && -m <= x < 2 * m
    ensures x % m == if x < 0 then x + m else if x < m then x else x - m
  {
    var q := if x < 0 then -1 else if x < m then 0 else 1;
    DivModUnique(x, m, q, x - q * m);
  }

  /** Signed comparison: on equal signs the words are compared as magnitudes. */
  predicate Lt(a: LL, b: LL)
    ensures Lt(a, b) <==> Value(a) < Value(b)
  {
    if IsNegative(a) && !IsNegative(b) then true
    else if !IsNegative(a) && IsNegative(b) then false
    else if a.hi < b.hi then true
    else if a.hi > b.hi then false
    else a.lo < b.lo
  }

  predicate Gt(a: LL, b: LL)
    ensures Gt(a, b) <==> Value(a) > Value(b)
  {
    Lt(b, a)
  }

  predicate Ge(a: LL, b: LL)
    ensures Ge(a, b) <==> Value(a) >= Value(b)
  {
    a == b || Gt(a, b)
  }

  function ShiftLeft(w: Word, k: nat): Word {
    (w * Pow2(k)) % TWO32
  }

  function ShiftRight(w: Word, k: nat): Word {
    DivBounds(w, Pow2(k));
    w / Pow2(k)
  }

  function WordOr(a: Word, b: Word): Word {
    Pow2Values();
    OrBelow(a, b, 32);
    Or(a, b)
  }

  function Shl(v: LL, shift: int): LL {
    if shift <= 0 then v
    else if shift >= 64 then ZERO
    else if shift >= 32 then LL(ShiftLeft(v.lo, shift - 32), 0)
    else LL(WordOr(ShiftLeft(v.hi, shift), ShiftRight(v.lo, 32 - shift)), ShiftLeft(v.lo, shift))
  }

  function Shr(v: LL, shift: int): LL {
    if shift <= 0 then v
    else if shift >= 64 then ZERO
    else if shift >= 32 then LL(0, ShiftRight(v.hi, shift - 32))
    else LL(ShiftRight(v.hi, shift), WordOr(ShiftRight(v.lo, shift), ShiftLeft(v.hi, 32 - shift)))
  }

  /** w * p when w = e * q + f and p * q = t: the part above t and the part below. */
  lemma SplitProduct(w: nat, p: nat, q: nat, t: nat, e: nat, f: nat)
    requires p > 0 && p * q == t && w < t
    requires f < q && w == e * q + f
    ensures e < p
    ensures w * p == e * t + f * p
    ensures f * p < t
  {
    if e >= p {
      MulMono(p, e, q);
    }
    assert w * p == (e * q) * p + f * p;
    assert (e * q) * p == e * (q * p);
    MulMono(f, q - 1, p);
    assert (q - 1) * p == q * p - p;
  }

  lemma SplitWord(w: nat, p: nat, q: nat)
    requires p * q == TWO32 && w < TWO32
    ensures p > 0 && q > 0
    ensures 0 <= w / q < p && 0 <= w % q < q
    ensures (w * p) % TWO32 == (w % q) * p
    ensures w * p == (w / q) * TWO32 + (w % q) * p
  {
    var e, f := w / q, w % q;
    assert w == e * q + f;
    if e < 0 {
      MulMono(e, -1, q);
    }
    SplitProduct(w, p, q, TWO32, e, f);
    DivModUnique(w * p, TWO32, e, f * p);
  }

  /** Complementary shift counts: 2^k * 2^(32 - k) is the modulus of a word. */
  lemma Complement(k: nat)
    requires k <= 32
    ensures Pow2(k) * Pow2(32 - k) == TWO32
  {
    Pow2Values();
    Pow2Add(k, 32 - k);
  }

  /** Shl multiplies by 2^shift modulo 2^64, for every shift count. */
  lemma ShlMultiplies(v: LL, shift: nat)
    requires shift < 64
    ensures Bits(Shl(v, shift)) == (Bits(v) * Pow2(shift)) % TWO64
  {
    if 0 < shift < 32 {
      ShlNarrow(v, shift);
    } else if shift >= 32 {
      ShlWide(v, shift - 32);
    } else {
      ModSmall(Bits(v), TWO64);
    }
  }

  lemma ShlWide(v: LL, k: nat)
    requires k < 32
    ensures Bits(Shl(v, k + 32)) == (Bits(v) * Pow2(k + 32)) % TWO64
  {
    assert Pow2(k + 32) == Pow2(k) * TWO32 by {
      Pow2Values();
      Pow2Add(k, 32);
    }
    Complement(k);
    ShlWideArith(v.hi, v.lo, Pow2(k), Pow2(32 - k));
  }

  lemma ShlNarrow(v: LL, shift: nat)
    requires 0 < shift < 32
    ensures Bits(Shl(v, shift)) == (Bits(v) * Pow2(shift)) % TWO64
  {
    hide Shl, Pow2;
    Complement(shift);
    ShlNarrowValue(v, shift, Pow2(shift), Pow2(32 - shift), Bits(v));
  }

  lemma ShlNarrowValue(v: LL, shift: nat, p: nat, q: nat, n: nat)
    requires 0 < shift < 32 && p == Pow2(shift) && q == Pow2(32 - shift) && p * q == TWO32
    requires n == v.hi * TWO32 + v.lo
    ensures Bits(Shl(v, shift)) == (n * p) % TWO64
  {
    hide Shl, Pow2, Bits;
    ShlNarrowWords(v, shift, p, q);
    ShlArith(v.hi, v.lo, p, q);
  }

  lemma ShlNarrowWords(v: LL, shift: nat, p: nat, q: nat)
    requires 0 < shift < 32 && p == Pow2(shift) && q == Pow2(32 - shift) && p * q == TWO32
    ensures q > 0
    ensures Bits(Shl(v, shift)) == ((v.hi % q) * p + v.lo / q) * TWO32 + (v.lo % q) * p
  {
    SplitWord(v.hi, p, q);
    SplitWord(v.lo, p, q);
    DivModUnique((v.hi % q) * p, p, v.hi % q, 0);
    OrDisjoint((v.hi % q) * p, v.lo / q, shift);
    assert ShiftLeft(v.hi, shift) == (v.hi % q) * p && ShiftRight(v.lo, 32 - shift) == v.lo / q;
    assert ShiftLeft(v.lo, shift) == (v.lo % q) * p;
    hide ShiftLeft, ShiftRight;
  }

  lemma ShlArith(hi: nat, lo: nat, p: nat, q: nat)
    requires p * q == TWO32 && hi < TWO32 && lo < TWO32
    ensures q > 0
    ensures ((hi * TWO32 + lo) * p) % TWO64 == ((hi % q) * p + lo / q) * TWO32 + (lo % q) * p
  {
    SplitWord(hi, p, q);
    SplitWord(lo, p, q);
    var fp := (hi % q) * p;
    var gp := (lo % q) * p;
    var e, g := hi / q, lo / q;
    assert (hi * TWO32 + lo) * p == (hi * p) * TWO32 + lo * p;
    assert 0 <= fp + g < TWO32 by {
      MulMono(hi % q, q - 1, p);
      assert (q - 1) * p == q * p - p;
    }
    assert 0 <= gp < TWO32 by {
      MulMono(lo % q, q - 1, p);
      assert (q - 1) * p == q * p - p;
    }
    DivModUnique((hi * TWO32 + lo) * p, TWO64, e, (fp + g) * TWO32 + gp);
  }

  lemma ShlWideArith(hi: nat, lo: nat, p: nat, q: nat)
    requires p * q == TWO32 && hi < TWO32 && lo < TWO32
    ensures ((hi * TWO32 + lo) * (p * TWO32)) % TWO64 == ((lo * p) % TWO32) * TWO32
  {
    SplitWord(lo, p, q);
    var e, r := lo / q, (lo * p) % TWO32;
    assert (hi * TWO32 + lo) * (p * TWO32) == ((hi * TWO32 + lo) * p) * TWO32;
    assert (hi * TWO32 + lo) * p == (hi * p) * TWO32 + lo * p;
    DivModUnique((hi * TWO32 + lo) * (p * TWO32), TWO64, hi * p + e, r * TWO32);
  }

  /** Shr divides by 2^shift, rounding down, for every shift count. */
  lemma ShrDivides(v: LL, shift: nat)
    requires shift < 64
    ensures Bits(Shr(v, shift)) == Bits(v) / Pow2(shift)
  {
    if 0 < shift < 32 {
      ShrNarrow(v, shift);
    } else if shift >= 32 {
      ShrWide(v, shift - 32);
    } else {
      assert Bits(v) / 1 == Bits(v);
    }
  }

  lemma ShrWide(v: LL, k: nat)
    requires k < 32
    ensures Bits(Shr(v, k + 32)) == Bits(v) / Pow2(k + 32)
  {
    assert Pow2(k + 32) == Pow2(k) * TWO32 by {
      Pow2Values();
      Pow2Add(k, 32);
    }
    ShrWideArith(v.hi, v.lo, Pow2(k));
  }

  lemma ShrWideArith(hi: nat, lo: nat, p: nat)
    requires p > 0 && lo < TWO32
    ensures (hi * TWO32 + lo) / (p * TWO32) == hi / p
  {
    var s, u := hi / p, hi % p;
    assert hi == s * p + u;
    assert (s * p) * TWO32 == s * (p * TWO32);
    DivModUnique(hi * TWO32 + lo, p * TWO32, s, u * TWO32 + lo);
  }

  lemma ShrNarrow(v: LL, shift: nat)
    requires 0 < shift < 32
    ensures Bits(Shr(v, shift)) == Bits(v) / Pow2(shift)
  {
    Complement(shift);
    ShrArith(v.hi, v.lo, Pow2(shift), Pow2(32 - shift));
    OrAbove(v.lo / Pow2(shift), (v.hi * Pow2(32 - shift)) % TWO32, 32 - shift);
  }

  lemma OrAbove(low: nat, high: nat, k: nat)
    requires low < Pow2(k) && high % Pow2(k) == 0
    ensures Or(low, high) == low + high
  {
    OrDisjoint(high, low, k);
    OrSymmetric(high, low);
  }

  lemma ShrArith(hi: nat, lo: nat, p: nat, q: nat)
    requires p * q == TWO32 && hi < TWO32 && lo < TWO32
    ensures p > 0 && q > 0
    ensures 0 <= lo / p < q
    ensures ((hi * q) % TWO32) % q == 0
    ensures (hi * TWO32 + lo) / p == (hi / p) * TWO32 + ((hi * q) % TWO32 + lo / p)
  {
    SplitWord(hi, q, p);
    SplitWord(lo, q, p);
    var s, u := hi / p, hi % p;
    var c, d := lo / p, lo % p;
    DivModUnique(u * q, q, u, 0);
    ShrQuotient(hi, lo, p, q, s, u, c, d);
  }

  lemma ShrQuotient(hi: nat, lo: nat, p: nat, q: nat, s: nat, u: nat, c: nat, d: nat)
    requires p * q == TWO32 && hi == s * p + u && lo == c * p + d && d < p
    ensures (hi * TWO32 + lo) / p == s * TWO32 + (u * q + c)
  {
    ShrSum(hi, lo, p, q, s, u, c, d);
    DivModUnique(hi * TWO32 + lo, p, s * TWO32 + (u * q + c), d);
  }

  lemma ShrSum(hi: nat, lo: nat, p: nat, q: nat, s: nat, u: nat, c: nat, d: nat)
    requires p * q == TWO32 && hi == s * p + u && lo == c * p + d
    ensures hi * TWO32 + lo == (s * TWO32 + (u * q + c)) * p + d
  {
    assert (s * p) * TWO32 == (s * TWO32) * p;
    assert u * TWO32 == (u * q) * p;
  }

  lemma {:induction false} OrSymmetric(a: nat, b: nat)
    ensures Or(a, b) == Or(b, a)
  {
    if a != 0 && b != 0 {
      OrSymmetric(a / 2, b / 2);
    }
  }
}
