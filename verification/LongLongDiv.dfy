/** Shift-subtract division of two 64-bit numbers (long_long_divmod), and exactly when it is truncated division. */
module LongLongDiv {
  import opened CInt
  import opened LongLong

  datatype Errno = NoError | EDOM | ERANGE

  /** |v| as a number; 2^63 for MIN. */
  function Abs(v: LL): nat {
    if Value(v) < 0 then -Value(v) else Value(v)
  }

  /** a = q * b + r with the remainder smaller than the divisor and carrying the dividend's sign. */
  predicate Truncated(a: LL, b: LL, q: LL, r: LL) {
    && Value(a) == Value(q) * Value(b) + Value(r)
    && Abs(r) < Abs(b)
    && (Value(r) == 0 || (Value(r) < 0 <==> Value(a) < 0))
  }

  /** b doubled k times. */
  function Scaled(b: nat, k: nat): nat {
    if k == 0 then b else 2 * Scaled(b, k - 1)
  }

  lemma {:induction false} ScaledIsProduct(b: nat, k: nat)
    ensures Scaled(b, k) == b * Pow2(k)
  {
    if k > 0 {
      ScaledIsProduct(b, k - 1);
    }
  }

  lemma {:induction false} ScaledMono(b: nat, i: nat, j: nat)
    requires i <= j
    ensures Scaled(b, i) <= Scaled(b, j)
  {
    if i < j {
      ScaledMono(b, i, j - 1);
    }
  }

  /** Some left shift of the divisor reaches the dividend without leaving the signed range. */
  predicate Reaches(a: nat, b: nat) {
    a < b || exists k: nat | k < 63 :: a <= Scaled(b, k) < TWO63
  }

  /** What a caller can check beforehand. */
  predicate DivDomain(a: LL, b: LL) {
    || a == ZERO
    || (a == MIN && (b == ONE || b == MIN))
    || (a != MIN && b != MIN && Reaches(Abs(a), Abs(b)))
  }

  /** The least number of doublings that takes b out of the signed range. */
  ghost function Room(b: nat): (k: nat)
    requires b > 0
    ensures k <= 63 && Scaled(b, k) >= TWO63
    ensures k > 0 ==> Scaled(b, k - 1) < TWO63
  {
    ScaledIsProduct(b, 63);
    Pow2Values();
    MulMono(1, b, Pow2(63));
    RoomFrom(b, 0)
  }

  ghost function RoomFrom(b: nat, j: nat): (k: nat)
    requires j <= 63 && Scaled(b, 63) >= TWO63
    requires j > 0 ==> Scaled(b, j - 1) < TWO63
    ensures j <= k <= 63 && Scaled(b, k) >= TWO63
    ensures k > 0 ==> Scaled(b, k - 1) < TWO63
    decreases 63 - j
  {
    if Scaled(b, j) >= TWO63 then j else RoomFrom(b, j + 1)
  }

  lemma ReachesIff(a: nat, b: nat)
    requires 0 < b <= a
    ensures Reaches(a, b) <==> Room(b) > 0 && a <= Scaled(b, Room(b) - 1)
  {
    var room := Room(b);
    if k: nat :| k < 63 && a <= Scaled(b, k) < TWO63 {
      if k >= room {
        ScaledMono(b, room, k);
      } else {
        ScaledMono(b, k, room - 1);
      }
    }
  }

  lemma Doubled(sd: LL, x: nat)
    requires Bits(sd) == x % TWO64
    ensures Bits(Shl(sd, 1)) == (2 * x) % TWO64
  {
    ShlMultiplies(sd, 1);
    assert Pow2(1) == 2;
    ModDouble(x);
  }

  lemma ModDouble(x: nat)
    ensures ((x % TWO64) * 2) % TWO64 == (2 * x) % TWO64
  {
    var q, r := x / TWO64, x % TWO64;
    assert x == q * TWO64 + r;
    ModSmall(2 * r, TWO64);
    DivModUnique(2 * x, TWO64, 2 * q + (2 * r) / TWO64, (2 * r) % TWO64);
  }

  lemma Halved(sd: LL)
    ensures Bits(Shr(sd, 1)) == Bits(sd) / 2
  {
    ShrDivides(sd, 1);
    assert Pow2(1) == 2;
  }

  /** While the doublings stay in range the shifted divisor is an exact multiple. */
  lemma InRange(sd: LL, b: nat, shift: nat)
    requires b > 0 && Bits(sd) == Scaled(b, shift) % TWO64
    requires shift < Room(b)
    ensures Bits(sd) == Scaled(b, shift) <= Scaled(b, Room(b) - 1) < TWO63
  {
    ScaledMono(b, shift, Room(b) - 1);
    ModSmall(Scaled(b, shift), TWO64);
  }

  /** Once past the range the shifted divisor never blocks the first subtraction. */
  lemma PastRange(sd: LL, a: LL, b: nat, shift: nat)
    requires !IsNegative(a) && 0 < b < TWO63 && b <= Bits(a) && !Reaches(Bits(a), b)
    requires Bits(sd) == Scaled(b, shift) % TWO64
    requires shift >= Room(b)
    ensures shift == Room(b) ==> IsNegative(sd)
    ensures Bits(a) >= TWO63 / 2
  {
    var room := Room(b);
    ReachesIff(Bits(a), b);
    if shift == room {
      ModSmall(Scaled(b, room), TWO64);
    }
  }

  lemma {:induction false} MinDoubles(shift: nat)
    ensures Room(TWO63) == 0
    ensures Scaled(TWO63, shift) % TWO64 == if shift == 0 then TWO63 else 0
  {
    assert Scaled(TWO63, 0) == TWO63;
    if shift > 1 {
      MinDoubles(shift - 1);
      var x := Scaled(TWO63, shift - 1);
      DivModUnique(2 * x, TWO64, 2 * (x / TWO64), 0);
    }
  }

  lemma MinRoom(x: nat)
    requires x >= TWO63
    ensures Room(x) == 0
  {
    assert Scaled(x, 0) == x;
  }

  /** The last doubling of y below 2^63 is at least x. */
  ghost predicate Good(x: nat, y: nat)
    requires y > 0
  {
    Room(y) > 0 && x <= Scaled(y, Room(y) - 1)
  }

  /** The shifted divisor is b doubled `shift` times, and in the domain it never left the signed range. */
  ghost predicate Doubling(a: LL, b: LL, sd: LL, shift: nat)
    requires Bits(b) > 0
  {
    && Bits(sd) == Scaled(Bits(b), shift) % TWO64
    && (shift == 0 ==> sd == b)
    && (Good(Bits(a), Bits(b)) ==>
          && shift < Room(Bits(b))
          && (shift > 0 ==> Scaled(Bits(b), shift - 1) < Bits(a)))
  }

  lemma DoublingStart(a: LL, b: LL)
    requires Bits(b) > 0
    ensures Doubling(a, b, b, 0)
  {
    ModSmall(Bits(b), TWO64);
  }

  lemma DoublingStep(a: LL, b: LL, sd: LL, shift: nat)
    requires Bits(b) > 0 && Doubling(a, b, sd, shift)
    requires !IsNegative(a) && Lt(sd, a)
    ensures Doubling(a, b, Shl(sd, 1), shift + 1)
  {
    Doubled(sd, Scaled(Bits(b), shift));
    if Good(Bits(a), Bits(b)) {
      InRange(sd, Bits(b), shift);
    }
  }

  /** Doubles the divisor until it is no longer below the dividend (signed comparison). */
  method Double(a: LL, b: LL) returns (sd: LL, shift: int)
    requires Bits(b) > 0 && (!IsNegative(a) || a == b)
    ensures 0 <= shift <= 63 && Doubling(a, b, sd, shift)
    ensures !Lt(sd, a) || shift == 63
    ensures a == b ==> shift == 0
  {
    shift, sd := 0, b;
    DoublingStart(a, b);
    while Lt(sd, a) && shift < 63
      invariant 0 <= shift <= 63
      invariant Doubling(a, b, sd, shift)
      invariant a == b ==> shift == 0
    {
      DoublingStep(a, b, sd, shift);
      sd := Shl(sd, 1);
      shift := shift + 1;
    }
  }

  /** Doubles the divisor, then steps back once if it went past the dividend. */
  method Align(a: LL, b: LL) returns (sd: LL, shift: int)
    requires Bits(b) > 0
    requires a == b || (!IsNegative(a) && (b == MIN || (!IsNegative(b) && Bits(b) <= Bits(a))))
    ensures 0 <= shift <= 63 && Ge(a, sd)
    ensures a == b ==> sd == b && shift == 0
    ensures Good(Bits(a), Bits(b)) ==> Bits(sd) == Scaled(Bits(b), shift) < TWO63 && Bits(a) < 2 * Bits(sd)
    ensures !Good(Bits(a), Bits(b)) ==> Room(Bits(b)) <= shift
  {
    sd, shift := Double(a, b);
    if !IsNegative(a) {
      AlignCases(a, b, sd, shift);
    } else {
      MinDoubles(0);
      MinRoom(Bits(a));
    }
    if Gt(sd, a) {
      Halved(sd);
      sd := Shr(sd, 1);
      shift := shift - 1;
    }
  }

  /** Where the doubling loop can have stopped. */
  lemma AlignCases(a: LL, b: LL, sd: LL, shift: nat)
    requires Bits(b) > 0
    requires !IsNegative(a) && (b == MIN || (!IsNegative(b) && Bits(b) <= Bits(a)))
    requires Doubling(a, b, sd, shift)
    requires !Lt(sd, a) || shift == 63
    ensures Good(Bits(a), Bits(b)) ==>
      && Bits(sd) == Scaled(Bits(b), shift)
      && Bits(a) <= Bits(sd) < TWO63
      && (Gt(sd, a) ==> shift > 0 && Bits(sd) == 2 * Scaled(Bits(b), shift - 1))
    ensures !Good(Bits(a), Bits(b)) ==>
      && Room(Bits(b)) <= shift
      && (Gt(sd, a) ==> Room(Bits(b)) < shift && Bits(sd) / 2 <= Bits(a))
  {
    hide Room;
    var y := Bits(b);
    if shift < Room(y) {
      InRange(sd, y, shift);
    } else {
      Past(a, b, sd, shift);
    }
  }

  lemma Past(a: LL, b: LL, sd: LL, shift: nat)
    requires Bits(b) > 0
    requires !IsNegative(a) && (b == MIN || (!IsNegative(b) && Bits(b) <= Bits(a)))
    requires Bits(sd) == Scaled(Bits(b), shift) % TWO64
    requires Room(Bits(b)) <= shift && !Good(Bits(a), Bits(b))
    ensures Gt(sd, a) ==> Room(Bits(b)) < shift && Bits(sd) / 2 <= Bits(a)
  {
    if b == MIN {
      MinDoubles(shift);
    } else {
      ReachesIff(Bits(a), Bits(b));
      PastRange(sd, a, Bits(b), shift);
    }
  }

  /** result |= 1 << k, on the word that holds bit k. */
  function SetBit(r: LL, k: nat): LL
    requires k <= 63
  {
    if k >= 32 then LL(WordOr(r.hi, ShiftLeft(1, k - 32)), r.lo)
    else LL(r.hi, WordOr(r.lo, ShiftLeft(1, k)))
  }

  lemma SingleBit(k: nat)
    requires k < 32
    ensures ShiftLeft(1, k) == Pow2(k) < TWO32
  {
    Pow2Values();
    Pow2Mono(k, 31);
    ModSmall(Pow2(k), TWO32);
  }

  lemma SetBitKeeps(r: LL, k: nat)
    requires k <= 63
    ensures Bits(SetBit(r, k)) >= Bits(r)
    ensures Bits(SetBit(r, k)) >= Pow2(k)
  {
    if k >= 32 {
      SingleBit(k - 32);
      Pow2Above(k);
      KeepsHigh(r, SetBit(r, k), Pow2(k - 32));
    } else {
      SingleBit(k);
    }
  }

  lemma KeepsHigh(r: LL, s: LL, p: nat)
    requires s.lo == r.lo && s.hi >= r.hi && s.hi >= p
    ensures Bits(s) >= Bits(r) && Bits(s) >= p * TWO32
  {
  }

  lemma Pow2Above(k: nat)
    requires k >= 32
    ensures Pow2(k) == Pow2(k - 32) * TWO32
  {
    Pow2Values();
    Pow2Add(k - 32, 32);
  }

  lemma LowWordMultiple(hi: nat, lo: nat, p: nat, q: nat)
    requires p * q == TWO32 && p > 0 && (hi * TWO32 + lo) % p == 0
    ensures lo % p == 0
  {
    var n := (hi * TWO32 + lo) / p;
    assert hi * TWO32 + lo == n * p;
    assert hi * TWO32 == (hi * q) * p;
    assert lo == (n - hi * q) * p;
    DivModUnique(lo, p, n - hi * q, 0);
  }

  lemma HighWordMultiple(hi: nat, lo: nat, p: nat)
    requires p > 0 && lo < TWO32 && (hi * TWO32 + lo) % (p * TWO32) == 0
    ensures hi % p == 0
  {
    var n := (hi * TWO32 + lo) / (p * TWO32);
    assert hi * TWO32 + lo == n * (p * TWO32) == (n * p) * TWO32;
    assert hi == n * p;
    DivModUnique(hi, p, n, 0);
  }

  lemma LowestBit()
    ensures SetBit(ZERO, 0) == ONE
  {
    SingleBit(0);
  }

  /** Into a result whose lower bits are all clear, bit k adds 2^k. */
  lemma SetBitAdds(r: LL, k: nat)
    requires k <= 63 && Bits(r) % Pow2(k + 1) == 0
    ensures Bits(SetBit(r, k)) == Bits(r) + Pow2(k)
  {
    if k >= 32 {
      SingleBit(k - 32);
      Pow2Above(k);
      Pow2Above(k + 1);
      HighWordMultiple(r.hi, r.lo, Pow2(k - 31));
      OrDisjoint(r.hi, Pow2(k - 32), k - 31);
    } else {
      SingleBit(k);
      Complement(k + 1);
      LowWordMultiple(r.hi, r.lo, Pow2(k + 1), Pow2(31 - k));
      OrDisjoint(r.lo, Pow2(k), k + 1);
    }
  }

  lemma NextBit(r: nat, k: nat)
    requires r % Pow2(k + 1) == 0
    ensures r % Pow2(k) == 0
    ensures (r + Pow2(k)) % Pow2(k) == 0
  {
    var p, n := Pow2(k), r / Pow2(k + 1);
    assert Pow2(k + 1) == 2 * p;
    assert r == n * (2 * p) == (2 * n) * p;
    DivModUnique(r, p, 2 * n, 0);
    DivModUnique(r + p, p, 2 * n + 1, 0);
  }

  lemma AddMultiple(r: nat, b: nat, k: nat)
    ensures (r + Pow2(k)) * b == r * b + Scaled(b, k)
  {
    ScaledIsProduct(b, k);
  }

  /** With the bits from `next` up decided, the part of a not yet covered is below b * 2^next. */
  ghost predicate Partial(a: LL, b: nat, quotient: LL, dividend: LL, next: nat) {
    && Bits(quotient) % Pow2(next) == 0
    && Bits(a) == Bits(quotient) * b + Bits(dividend)
    && Bits(dividend) < Scaled(b, next)
  }

  lemma PartialStart(a: LL, b: nat, next: nat)
    requires Bits(a) < Scaled(b, next)
    ensures Partial(a, b, ZERO, a, next)
  {
    ModSmall(0, Pow2(next));
  }

  lemma PartialTake(a: LL, b: nat, quotient: LL, dividend: LL, sd: LL, k: nat)
    requires k <= 63 && Partial(a, b, quotient, dividend, k + 1)
    requires Bits(sd) == Scaled(b, k) <= Bits(dividend)
    ensures Partial(a, b, SetBit(quotient, k), Sub(dividend, sd), k)
  {
    hide SetBit, Sub, Bits, Pow2;
    NextBit(Bits(quotient), k);
    SetBitAdds(quotient, k);
    AddMultiple(Bits(quotient), b, k);
    TakeSum(a, b, quotient, dividend, SetBit(quotient, k), Sub(dividend, sd), k);
  }

  lemma TakeSum(a: LL, b: nat, q: LL, d: LL, q': LL, d': LL, k: nat)
    requires Bits(a) == Bits(q) * b + Bits(d)
    requires Bits(q') * b == Bits(q) * b + Scaled(b, k) && Bits(d') == Bits(d) - Scaled(b, k)
    ensures Bits(a) == Bits(q') * b + Bits(d')
  {
  }

  lemma PartialSkip(a: LL, b: nat, quotient: LL, dividend: LL, k: nat)
    requires Partial(a, b, quotient, dividend, k + 1)
    requires Bits(dividend) < Scaled(b, k)
    ensures Partial(a, b, quotient, dividend, k)
  {
    NextBit(Bits(quotient), k);
  }

  /** The shift-subtract loop: from an aligned divisor it leaves quotient and remainder; started on any
      divisor not above the dividend it sets the bit it starts at. */
  method Subtract(a: LL, aligned: LL, from: nat, ghost b: nat) returns (quotient: LL, dividend: LL)
    requires from <= 63 && Ge(a, aligned)
    ensures Bits(quotient) >= Pow2(from)
    ensures from == 0 && a == aligned ==> quotient == ONE && dividend == ZERO
    ensures !IsNegative(a) && Bits(aligned) == Scaled(b, from) < TWO63 && Bits(a) < 2 * Bits(aligned) ==>
      Bits(a) == Bits(quotient) * b + Bits(dividend) && Bits(dividend) < b
  {
    hide SetBit, Sub, Shr;
    ghost var exact := !IsNegative(a) && Bits(aligned) == Scaled(b, from) < TWO63 && Bits(a) < 2 * Bits(aligned);
    var sd, shift: int := aligned, from;
    quotient, dividend := ZERO, a;
    if exact {
      PartialStart(a, b, from + 1);
    }
    while shift >= 0
      invariant -1 <= shift <= from
      invariant shift == from ==> sd == aligned && dividend == a && quotient == ZERO
      invariant shift < from ==> Bits(quotient) >= Pow2(from)
      invariant shift == -1 && from == 0 && a == aligned ==> quotient == ONE && dividend == ZERO
      invariant exact ==> Partial(a, b, quotient, dividend, shift + 1) && Bits(dividend) < TWO63
      invariant exact && shift >= 0 ==> Bits(sd) == Scaled(b, shift) < TWO63
    {
      if Ge(dividend, sd) {
        if exact {
          PartialTake(a, b, quotient, dividend, sd, shift);
        }
        SetBitKeeps(quotient, shift);
        LowestBit();
        dividend := Sub(dividend, sd);
        quotient := SetBit(quotient, shift);
      } else if exact {
        PartialSkip(a, b, quotient, dividend, shift);
      }
      Halved(sd);
      sd := Shr(sd, 1);
      shift := shift - 1;
    }
  }

  /** Truncated division determines the quotient. */
  lemma QuotientUnique(a: LL, b: LL, q: LL, r: LL)
    requires Truncated(a, b, q, r)
    ensures Abs(q) == Abs(a) / Abs(b)
    ensures Value(q) != 0 ==> (Value(q) < 0 <==> IsNegative(a) != IsNegative(b))
  {
    var x, y, n, m := Abs(a), Abs(b), Abs(q), Abs(r);
    ProductAbs(Value(q), Value(b));
    if n > 0 {
      MulMono(1, n, y);
    }
    assert x == n * y + m;
    DivModUnique(x, y, n, m);
  }

  lemma ProductAbs(x: int, y: int)
    ensures var n, m := if x < 0 then -x else x, if y < 0 then -y else y;
            && n * m >= 0
            && x * y == if (x < 0) != (y < 0) then -(n * m) else n * m
  {
  }

  /** Putting the signs back on an unsigned quotient and remainder. */
  lemma SignsBack(a: LL, b: LL, quotient: LL, dividend: LL, q: LL, r: LL)
    requires a != MIN && b != MIN && b != ZERO
    requires Abs(a) == Bits(quotient) * Abs(b) + Bits(dividend) && Bits(dividend) < Abs(b)
    requires q == if IsNegative(a) != IsNegative(b) then Negate(quotient) else quotient
    requires r == if IsNegative(a) then Negate(dividend) else dividend
    ensures Truncated(a, b, q, r)
  {
    var n, y, m := Bits(quotient), Abs(b), Bits(dividend);
    assert n <= n * y by {
      MulMono(1, y, n);
    }
    SignedValues(quotient, q, IsNegative(a) != IsNegative(b));
    SignedValues(dividend, r, IsNegative(a));
    SignedSum(Value(a), Value(b), n, y, m, Value(q));
  }

  lemma SignedValues(unsigned: LL, signed: LL, negative: bool)
    requires Bits(unsigned) < TWO63
    requires signed == if negative then Negate(unsigned) else unsigned
    ensures Value(signed) == if negative then 0 - Bits(unsigned) else Bits(unsigned)
  {
    assert Value(unsigned) == Bits(unsigned);
  }

  lemma SignedSum(a: int, b: int, n: int, y: int, m: int, q: int)
    requires (if a < 0 then -a else a) == n * y + m
    requires y == if b < 0 then -b else b
    requires q == if (a < 0) != (b < 0) then -n else n
    ensures a == q * b + (if a < 0 then -m else m)
  {
  }

  /** Past the domain the result has a bit the quotient cannot have. */
  lemma TooManyBits(a: LL, b: LL, quotient: LL, q: LL, r: LL, shift: nat)
    requires b != ZERO && a != MIN && Room(Abs(b)) <= shift && Bits(quotient) >= Pow2(shift)
    requires q == if IsNegative(a) != IsNegative(b) then Negate(quotient) else quotient
    ensures !Truncated(a, b, q, r)
  {
    if Truncated(a, b, q, r) {
      QuotientUnique(a, b, q, r);
      SmallQuotient(Abs(a), Abs(b), shift);
    }
  }

  lemma SmallQuotient(x: nat, y: nat, shift: nat)
    requires y > 0 && x < TWO63 && Room(y) <= shift
    ensures 0 <= x / y < Pow2(shift)
    ensures x / y < TWO63
  {
    ScaledIsProduct(y, Room(y));
    Pow2Mono(Room(y), shift);
    QuotientBelow(x, y, Pow2(Room(y)), Pow2(shift));
  }

  lemma QuotientBelow(x: nat, y: nat, p: nat, s: nat)
    requires x < TWO63 <= y * p && y > 0 && p <= s
    ensures 0 <= x / y < s && x / y < TWO63
  {
    var n := x / y;
    assert x == n * y + x % y;
    if n < 0 {
      MulMono(n, -1, y);
    } else {
      MulMono(1, y, n);
      if n >= p {
        MulMono(p, n, y);
      }
    }
  }

  lemma DomainIff(a: LL, b: LL)
    requires a != MIN && a != ZERO && b != ZERO && (Abs(b) <= Abs(a) || b == MIN)
    ensures DivDomain(a, b) <==> Good(Abs(a), Abs(b))
  {
    if b == MIN {
      MinRoom(Abs(b));
    } else {
      ReachesIff(Abs(a), Abs(b));
    }
  }

  /** The early exits: the dividend is zero, is MIN over 1 or -1, or is smaller than the divisor. */
  lemma EarlyExits(a: LL, b: LL)
    requires b != ZERO
    ensures a == ZERO ==> Truncated(a, b, ZERO, ZERO)
    ensures a == MIN && b == ONE ==> Truncated(a, b, MIN, ZERO)
    ensures a == MIN && b == NEG_ONE ==> !Truncated(a, b, MAX, ZERO) && !DivDomain(a, b)
    ensures a == MIN && b == MIN ==> Truncated(a, b, ONE, ZERO)
  {
    assert Value(ZERO) == 0 && Value(ONE) == 1 && Value(NEG_ONE) == -1 && Value(MIN) == -TWO63;
  }

  lemma SmallDividend(a: LL, b: LL, r: LL)
    requires a != ZERO && b != ZERO && !(a == MIN && b == ONE)
    requires Lt(Unsigned(a), Unsigned(b))
    requires r == if IsNegative(a) then Negate(Unsigned(a)) else a
    ensures Truncated(a, b, ZERO, r) <==> DivDomain(a, b)
  {
    assert Value(ZERO) == 0;
    assert r == a;
    assert b != MIN;
  }

  /** The operand with its sign taken off; MIN stays as it is. */
  function Unsigned(v: LL): (m: LL)
    ensures Bits(m) == Abs(v)
    ensures IsNegative(m) <==> v == MIN
  {
    if IsNegative(v) then Negate(v) else v
  }

  /** The two loops in sequence. */
  method Loops(x: LL, y: LL) returns (quotient: LL, dividend: LL, ghost shift: nat)
    requires Bits(y) > 0
    requires x == y || (!IsNegative(x) && (y == MIN || (!IsNegative(y) && Bits(y) <= Bits(x))))
    ensures Bits(quotient) >= Pow2(shift)
    ensures x == y ==> quotient == ONE && dividend == ZERO
    ensures !IsNegative(x) && Good(Bits(x), Bits(y)) ==>
      Bits(x) == Bits(quotient) * Bits(y) + Bits(dividend) && Bits(dividend) < Bits(y)
    ensures !Good(Bits(x), Bits(y)) ==> Room(Bits(y)) <= shift
  {
    var aligned, k := Align(x, y);
    shift := k;
    quotient, dividend := Subtract(x, aligned, k, Bits(y));
  }

  /** Both outcomes of the loops, carried through the signs. */
  lemma Verdict(a: LL, b: LL, unsigned: LL, dividend: LL, q: LL, r: LL, shift: nat)
    requires a != MIN && a != ZERO && b != ZERO && (Abs(b) <= Abs(a) || b == MIN)
    requires q == if IsNegative(a) != IsNegative(b) then Negate(unsigned) else unsigned
    requires r == if IsNegative(a) then Negate(dividend) else dividend
    requires Bits(unsigned) >= Pow2(shift)
    requires Good(Abs(a), Abs(b)) ==>
      Abs(a) == Bits(unsigned) * Abs(b) + Bits(dividend) && Bits(dividend) < Abs(b)
    requires !Good(Abs(a), Abs(b)) ==> Room(Abs(b)) <= shift
    ensures Truncated(a, b, q, r) <==> DivDomain(a, b)
  {
    DomainIff(a, b);
    if Good(Abs(a), Abs(b)) {
      assert b != MIN by {
        if b == MIN { MinRoom(Abs(b)); }
      }
      SignsBack(a, b, unsigned, dividend, q, r);
    } else {
      TooManyBits(a, b, unsigned, q, r, shift);
    }
  }

  lemma MinOverMin(a: LL, b: LL)
    requires a == MIN && b != ZERO && !Lt(Unsigned(a), Unsigned(b))
    ensures b == MIN && DivDomain(a, b) && Truncated(a, b, ONE, ZERO) && Negate(ZERO) == ZERO
  {
    EarlyExits(a, b);
  }

  /** The general case: loops on the unsigned operands, then the signs. */
  method DivideUnsigned(a: LL, b: LL) returns (quotient: LL, remainder: LL)
    requires a != ZERO && b != ZERO && !Lt(Unsigned(a), Unsigned(b))
    ensures Truncated(a, b, quotient, remainder) <==> DivDomain(a, b)
  {
    var unsigned, dividend;
    ghost var shift;
    unsigned, dividend, shift := Loops(Unsigned(a), Unsigned(b));
    quotient := if IsNegative(a) != IsNegative(b) then Negate(unsigned) else unsigned;
    remainder := if IsNegative(a) then Negate(dividend) else dividend;
    if a != MIN {
      Verdict(a, b, unsigned, dividend, quotient, remainder, shift);
    } else {
      MinOverMin(a, b);
    }
  }

  /** long_long_divmod. The quotient and remainder are those of truncated division exactly on DivDomain. */
  method DivMod(a: LL, b: LL) returns (quotient: LL, remainder: LL, errno: Errno)
    ensures b == ZERO ==> quotient == ZERO && remainder == ZERO
    ensures errno == EDOM <==> b == ZERO
    ensures errno == ERANGE <==> a == MIN && b == NEG_ONE
    ensures errno == ERANGE ==> quotient == MAX && remainder == ZERO
    ensures b != ZERO ==> (Truncated(a, b, quotient, remainder) <==> DivDomain(a, b))
    ensures a == MIN && b != ZERO && b != ONE && b != NEG_ONE && b != MIN ==> quotient == ZERO && remainder == MIN
  {
    errno := NoError;
    if b == ZERO {
      return ZERO, ZERO, EDOM;
    }
    EarlyExits(a, b);
    if a == ZERO {
      return ZERO, ZERO, errno;
    }
    if a == MIN && b == ONE {
      return MIN, ZERO, errno;
    }
    if a == MIN && b == NEG_ONE {
      return MAX, ZERO, ERANGE;
    }
    if Lt(Unsigned(a), Unsigned(b)) {
      quotient := ZERO;
      remainder := if IsNegative(a) then Negate(Unsigned(a)) else Unsigned(a);
      SmallDividend(a, b, remainder);
      return;
    }
    quotient, remainder := DivideUnsigned(a, b);
  }

  /** Every dividend of magnitude up to 2^62 is in the domain, whatever the nonzero divisor but MIN. */
  lemma SmallDividendsDivide(a: LL, b: LL)
    requires Abs(a) <= TWO63 / 2 && b != ZERO && b != MIN
    ensures DivDomain(a, b)
  {
    var x, y := Abs(a), Abs(b);
    if y <= x {
      ReachesIff(x, y);
      assert Scaled(y, 0) == y;
      assert Room(y) > 0;
      assert Scaled(y, Room(y)) == 2 * Scaled(y, Room(y) - 1);
    }
  }

  /** The largest number over two: far from overflow, and outside the domain. */
  lemma LargeDividendExample()
    ensures !DivDomain(MAX, LL(0, 2))
  {
    assert Scaled(2, 61) == TWO63 / 2 && Scaled(2, 62) == TWO63 by {
      ScaledIsProduct(2, 61);
      Pow2Values();
      assert 2 * Pow2(61) == Pow2(62);
    }
    if k: nat :| k < 63 && TWO63 - 1 <= Scaled(2, k) < TWO63 {
      if k <= 61 {
        ScaledMono(2, k, 61);
      }
    }
    assert Abs(LL(0, 2)) == 2 && Abs(MAX) == TWO63 - 1;
  }
}
