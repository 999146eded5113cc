/** time2: the request is carried into normal form and its instant is found by a search over the bits of a time_t. */
module MkTime {
  import opened CInt
  import opened Calendar
  import opened CivilTime

  // ---------------------------------------------------------------- normalize

  /** The units that normalize leaves: the remainder, except that it leaves a whole base for the exact
      multiples from -2 * base down. */
  function Left(units: int, base: int): int
    requires base > 0
  {
    if units <= -2 * base && units % base == 0 then base else units % base
  }

  /** The tens it carries out. */
  function Carry(units: int, base: int): int
    requires base > 0
  {
    (units - Left(units, base)) / base
  }

  lemma CarryConserves(units: int, base: int)
    requires base > 0
    ensures Carry(units, base) * base + Left(units, base) == units
    ensures 0 <= Left(units, base) <= base
    ensures Left(units, base) == base <==> units <= -2 * base && units % base == 0
  {
    var q, r := units / base, units % base;
    assert units == q * base + r;
    if Left(units, base) == base {
      DivModUnique(units - base, base, q - 1, 0);
    } else {
      DivModUnique(units - r, base, q, 0);
    }
  }

  lemma CarryUnique(units: int, base: int, c: int, l: int)
    requires base > 0 && units == c * base + l
    requires l == Left(units, base)
    ensures c == Carry(units, base)
  {
    DivModUnique(units - l, base, c, 0);
  }

  method Normalize(tens: int, units: int, base: int) returns (tens': int, units': int)
    requires base > 0 && IsLong(tens)
    ensures tens' == Wrap(tens + Carry(units, base))
    ensures units' == Left(units, base)
  {
    hide Carry, Left;
    tens', units' := tens, units;
    if units' >= base {
      OtherUnits(units, base);
      tens' := Wrap(tens' + units' / base);
      units' := units' % base;
    } else if units' < 0 {
      tens' := Wrap(tens' - 1);
      units' := units' + base;
      if units' < 0 {
        NegativeUnits(units, base);
        WrapAdd(tens - 1, -(1 + (-units') / base));
        tens' := Wrap(tens' - (1 + (-units') / base));
        units' := base - (-units') % base;
      } else {
        OtherUnits(units, base);
      }
    } else {
      OtherUnits(units, base);
    }
  }

  lemma OtherUnits(units: int, base: int)
    requires base > 0 && units >= -base
    ensures units >= base ==> Carry(units, base) == units / base && Left(units, base) == units % base
    ensures 0 <= units < base ==> Carry(units, base) == 0 && Left(units, base) == units
    ensures units < 0 ==> Carry(units, base) == -1 && Left(units, base) == units + base
  {
    if units >= base {
      CarryUnique(units, base, units / base, units % base);
    } else if units >= 0 {
      DivModUnique(units, base, 0, units);
      CarryUnique(units, base, 0, units);
    } else {
      DivModUnique(units, base, -1, units + base);
      CarryUnique(units, base, -1, units + base);
    }
  }

  lemma NegativeUnits(units: int, base: int)
    requires base > 0 && units + base < 0
    ensures base - (-(units + base)) % base == Left(units, base)
    ensures -1 - (1 + (-(units + base)) / base) == Carry(units, base)
  {
    var m := -(units + base);
    var q, r := m / base, m % base;
    assert m == q * base + r;
    assert units == (-2 - q) * base + (base - r);
    if r == 0 {
      assert units == (-1 - q) * base;
      DivModUnique(units, base, -1 - q, 0);
      assert q >= 1 by { if q <= 0 { MulMono(q, 0, base); } }
      MulMono(1, q, base);
    } else {
      DivModUnique(units, base, -2 - q, base - r);
    }
    CarryUnique(units, base, -2 - q, base - r);
  }

  // ---------------------------------------------------------------- month walking

  /** The leap status the source looks up for a tm_year; the addition is a 32-bit one. */
  predicate LeapOf(year: int) {
    IsLeap(Wrap(year + TM_YEAR_BASE))
  }

  function LengthOf(year: int): int {
    YearLength(Wrap(year + TM_YEAR_BASE))
  }

  /** A day of the month that is not positive goes back a year at a time. */
  function BackYears(year: int, mday: int): (r: (int, int))
    ensures r.1 >= 1
    ensures IsLong(year) ==> IsLong(r.0)
    ensures IsLong(mday) ==> IsLong(r.1)
    ensures mday >= 1 ==> r == (year, mday)
    decreases 1 - mday
  {
    if mday > 0 then (year, mday) else BackYears(Wrap(year - 1), mday + LengthOf(Wrap(year - 1)))
  }

  /** A day past the end of the month goes forward a month at a time. */
  function ForwardMonths(year: int, mon: int, mday: int): (r: (int, int, int))
    requires 0 <= mon < 12 && mday >= 1
    ensures 0 <= r.1 < 12 && 1 <= r.2 <= MonthLength(LeapOf(r.0), r.1)
    ensures IsLong(year) ==> IsLong(r.0)
    decreases mday
  {
    var length := MonthLength(LeapOf(year), mon);
    if mday <= length then (year, mon, mday)
    else if mon + 1 >= 12 then ForwardMonths(Wrap(year + 1), 0, mday - length)
    else ForwardMonths(year, mon + 1, mday - length)
  }

  /** No year on the way back is out of range. */
  predicate BackFits(year: int, mday: int)
    decreases 1 - mday
  {
    mday > 0 || (IsLong(year - 1) && IsLong(year - 1 + TM_YEAR_BASE)
                 && BackFits(year - 1, mday + YearLength(year - 1 + TM_YEAR_BASE)))
  }

  predicate ForwardFits(year: int, mon: int, mday: int)
    requires 0 <= mon < 12 && mday >= 1
    decreases mday
  {
    IsLong(year) && IsLong(year + TM_YEAR_BASE) &&
    var length := MonthLength(IsLeap(year + TM_YEAR_BASE), mon);
    mday <= length
    || (if mon + 1 >= 12 then ForwardFits(year + 1, 0, mday - length) else ForwardFits(year, mon + 1, mday - length))
  }

  /** Each step back adds the length of the year stepped to, so the count from 1 January is conserved. */
  lemma {:induction false} BackYearsSum(year: int, mday: int)
    requires IsLong(year) && BackFits(year, mday)
    ensures var (y, d) := BackYears(year, mday);
            YearStart(y + TM_YEAR_BASE) + d == YearStart(year + TM_YEAR_BASE) + mday
    decreases 1 - mday
  {
    if mday <= 0 {
      BackYearsSum(year - 1, mday + YearLength(year - 1 + TM_YEAR_BASE));
      YearStep(year - 1 + TM_YEAR_BASE);
    }
  }

  /** The walk ends in the year of the day that mday counts from 1 January. */
  lemma {:induction false} BackYearsEnd(year: int, mday: int)
    requires IsLong(year) && mday <= 0 && BackFits(year, mday)
    ensures BackYears(year, mday).0 + TM_YEAR_BASE == YearOf(YearStart(year + TM_YEAR_BASE) + mday - 1)
    decreases 1 - mday
  {
    hide YearStart, IsLeap;
    var y := year - 1 + TM_YEAR_BASE;
    var next := mday + YearLength(y);
    YearStep(y);
    if next > 0 {
      YearUnique(YearStart(y) + next - 1, y, YearOf(YearStart(y) + next - 1));
    } else {
      BackYearsEnd(year - 1, next);
    }
  }

  function LeapDay(y: int): int {
    if IsLeap(y) then 1 else 0
  }

  /** How many days the walk back misses the date by. From March on the length it takes is that of the year before, so
      it counts the leap day of the year it ends in instead of that of year y. */
  ghost function Slip(y: int, mon: int, mday: int): (s: int)
    ensures s == 0 <==> mday >= 1 || mon <= 1 || IsLeap(YearOf(YearStart(y) + mday - 1)) == IsLeap(y)
  {
    if mday >= 1 || mon <= 1 then 0 else LeapDay(YearOf(YearStart(y) + mday - 1)) - LeapDay(y)
  }

  /** The walk back misses the date by Slip days, so it conserves the date exactly when the day is positive, the month
      January or February, or the year that holds the counted day as long as the year of the request. */
  lemma BackYearsExact(year: int, mon: int, mday: int)
    requires IsLong(year) && 0 <= mon < 12 && BackFits(year, mday)
    ensures var (y, d) := BackYears(year, mday);
            DayNumber(y + TM_YEAR_BASE, mon, d) == DayNumber(year + TM_YEAR_BASE, mon, mday)
                                                   + Slip(year + TM_YEAR_BASE, mon, mday)
    ensures var start := year + TM_YEAR_BASE;
            var (y, d) := BackYears(year, mday);
            DayNumber(y + TM_YEAR_BASE, mon, d) == DayNumber(start, mon, mday) <==>
            mday >= 1 || mon <= 1 || IsLeap(YearOf(YearStart(start) + mday - 1)) == IsLeap(start)
  {
    hide YearStart, IsLeap, BackYears, BackFits;
    BackYearsSum(year, mday);
    if mday <= 0 {
      BackYearsEnd(year, mday);
    }
    MonthTable(true);
    MonthTable(false);
  }

  /** 0 March 1969 comes out as 1 March 1969: the walk counts 366 days of 1968 into March. */
  lemma BackYearsExample()
    ensures BackFits(69, 0) && BackYears(69, 0) == (68, 366)
    ensures DayNumber(1968, 2, 366) == DayNumber(1969, 2, 0) + 1
  {
    LeapYearBefore();
    hide YearStart;
    MonthTable(true);
    MonthTable(false);
    YearStep(1968);
  }

  lemma LeapYearBefore()
    ensures BackFits(69, 0) && BackYears(69, 0) == (68, 366)
  {
    hide YearStart;
    assert YearLength(1968) == 366;
    assert BackYears(68, 366) == (68, 366) && BackFits(68, 366);
  }

  lemma {:induction false} ForwardMonthsExact(year: int, mon: int, mday: int)
    requires 0 <= mon < 12 && mday >= 1 && ForwardFits(year, mon, mday)
    ensures var (y, m, d) := ForwardMonths(year, mon, mday);
            && IsLong(y + TM_YEAR_BASE)
            && DayNumber(y + TM_YEAR_BASE, m, d) == DayNumber(year + TM_YEAR_BASE, mon, mday)
    decreases mday
  {
    hide IsLeap, YearStart;
    var length := MonthLength(IsLeap(year + TM_YEAR_BASE), mon);
    if mday > length {
      if mon + 1 >= 12 {
        ForwardMonthsExact(year + 1, 0, mday - length);
        MonthsFillYear(year + TM_YEAR_BASE);
        YearStep(year + TM_YEAR_BASE);
      } else {
        ForwardMonthsExact(year, mon + 1, mday - length);
      }
    }
  }

  // ---------------------------------------------------------------- the carried request

  /** After the four calls of normalize. */
  function Normalized(tm: TmValue): (r: TmValue)
    ensures IsLong(r.hour) && IsLong(r.min)
    ensures 0 <= r.mon <= 12 && (r.mon == 12 <==> tm.mon <= -24 && tm.mon % 12 == 0)
    ensures IntFields(tm) ==> IntFields(r)
  {
    CarryConserves(tm.sec, 60);
    var far := tm.sec >= 62 || tm.sec < 0;
    var min := if far then Wrap(tm.min + Carry(tm.sec, 60)) else tm.min;
    var sec := if far then Left(tm.sec, 60) else tm.sec;
    CarryConserves(min, 60);
    var hour := Wrap(tm.hour + Carry(min, 60));
    CarryConserves(hour, 24);
    CarryConserves(tm.mon, 12);
    tm.(sec := sec, min := Left(min, 60), hour := Left(hour, 24), mday := Wrap(tm.mday + Carry(hour, 24)),
        mon := Left(tm.mon, 12), year := Wrap(tm.year + Carry(tm.mon, 12)))
  }

  /** Normalize leaves minute 60 or hour 24: whole hours back from -2 on, or whole days back from -2 on. */
  predicate LeavesBase(tm: TmValue) {
    var far := tm.sec >= 62 || tm.sec < 0;
    var min := if far then Wrap(tm.min + Carry(tm.sec, 60)) else tm.min;
    var hour := Wrap(tm.hour + Carry(min, 60));
    || (min <= -120 && min % 60 == 0)
    || (hour <= -48 && hour % 24 == 0)
  }

  lemma LeavesBaseMeans(tm: TmValue)
    ensures var n := Normalized(tm);
            && 0 <= n.min <= 60 && 0 <= n.hour <= 24
            && (LeavesBase(tm) <==> n.min == 60 || n.hour == 24)
  {
    hide Carry, Left;
    var far := tm.sec >= 62 || tm.sec < 0;
    var min := if far then Wrap(tm.min + Carry(tm.sec, 60)) else tm.min;
    CarryConserves(min, 60);
    CarryConserves(Wrap(tm.hour + Carry(min, 60)), 24);
  }

  /** The request the search works on, seconds included. The source indexes its month table with the
      month that normalize leaves, so it must not be 12. */
  function Carried(tm: TmValue): (r: TmValue)
    requires !(tm.mon <= -24 && tm.mon % 12 == 0)
    ensures 0 <= r.mon < 12 && 1 <= r.mday <= MonthLength(LeapOf(r.year), r.mon)
    ensures IntFields(tm) ==> IntFields(r)
    ensures var n := Normalized(tm); r.sec == n.sec && r.min == n.min && r.hour == n.hour && r.isdst == tm.isdst
  {
    var n := Normalized(tm);
    var (year, mday) := BackYears(n.year, n.mday);
    var (y, m, d) := ForwardMonths(year, n.mon, mday);
    n.(year := y, mon := m, mday := d)
  }

  /** The seconds a raw request denotes: months outside 0..11 count whole years. */
  function Denoted(tm: TmValue): int {
    DayNumber(tm.year + tm.mon / 12 + TM_YEAR_BASE, tm.mon % 12, tm.mday) * SECS_PER_DAY
      + tm.hour * 3600 + tm.min * 60 + tm.sec
  }

  /** No addition in the carries overflows an int, which C leaves undefined. */
  predicate Fits(tm: TmValue)
    requires !(tm.mon <= -24 && tm.mon % 12 == 0)
  {
    var n := Normalized(tm);
    var far := tm.sec >= 62 || tm.sec < 0;
    var min := if far then tm.min + Carry(tm.sec, 60) else tm.min;
    var hour := tm.hour + Carry(min, 60);
    && IntFields(tm) && IsLong(min) && IsLong(hour)
    && IsLong(tm.mday + Carry(hour, 24)) && IsLong(tm.year + Carry(tm.mon, 12))
    && BackFits(n.year, n.mday)
    && var (year, mday) := BackYears(n.year, n.mday); ForwardFits(year, n.mon, mday)
  }

  /** Seconds up to 61 are left alone; everything else is brought into its range, but for the whole bases. */
  lemma NormalizedRanges(tm: TmValue)
    ensures var n := Normalized(tm);
            && (if 0 <= tm.sec < 62 then n.sec == tm.sec else 0 <= n.sec <= 60)
            && 0 <= n.min <= 60 && 0 <= n.hour <= 24 && 0 <= n.mon <= 12
  {
    hide Carry, Left;
    LeavesBaseMeans(tm);
    CarryConserves(tm.sec, 60);
  }

  lemma NormalizedConserves(tm: TmValue)
    requires !(tm.mon <= -24 && tm.mon % 12 == 0) && Fits(tm)
    ensures var n := Normalized(tm); IsLong(n.year) && Seconds(n) == Denoted(tm)
  {
    hide YearStart, MonthStart, IsLeap, BackYears, ForwardMonths, BackFits, ForwardFits;
    var far := tm.sec >= 62 || tm.sec < 0;
    var min := if far then tm.min + Carry(tm.sec, 60) else tm.min;
    var hour := tm.hour + Carry(min, 60);
    CarryConserves(tm.sec, 60);
    CarryConserves(min, 60);
    CarryConserves(hour, 24);
    CarryConserves(tm.mon, 12);
    DivModUnique(tm.mon, 12, Carry(tm.mon, 12), Left(tm.mon, 12));
  }

  /** The days by which the carried request misses the raw one. */
  ghost function Missed(tm: TmValue): (s: int)
    ensures var n := Normalized(tm);
            var y := n.year + TM_YEAR_BASE;
            s == 0 <==> n.mday >= 1 || n.mon <= 1 || IsLeap(YearOf(YearStart(y) + n.mday - 1)) == IsLeap(y)
  {
    var n := Normalized(tm);
    Slip(n.year + TM_YEAR_BASE, n.mon, n.mday)
  }

  /** The carried request denotes the same second as the raw one, but for the days that the walk back misses. */
  lemma CarriedConserves(tm: TmValue)
    requires !(tm.mon <= -24 && tm.mon % 12 == 0) && Fits(tm)
    ensures Seconds(Carried(tm)) == Denoted(tm) + Missed(tm) * SECS_PER_DAY
    ensures var n := Normalized(tm);
            var start := n.year + TM_YEAR_BASE;
            Seconds(Carried(tm)) == Denoted(tm) <==>
            n.mday >= 1 || n.mon <= 1 || IsLeap(YearOf(YearStart(start) + n.mday - 1)) == IsLeap(start)
    ensures IsLong(Carried(tm).year + TM_YEAR_BASE)
  {
    hide BackYears, ForwardMonths, DayNumber, Denoted, Slip, YearStart, IsLeap, MonthLength, BackFits, ForwardFits;
    NormalizedConserves(tm);
    var n := Normalized(tm);
    hide Normalized;
    var (year, mday) := BackYears(n.year, n.mday);
    BackYearsExact(n.year, n.mon, n.mday);
    ForwardMonthsExact(year, n.mon, mday);
  }

  /** A positive day of the month is never walked back, so nothing can go wrong with it. */
  lemma PositiveDayConserves(tm: TmValue)
    requires !(tm.mon <= -24 && tm.mon % 12 == 0) && Fits(tm)
    requires Normalized(tm).mday >= 1
    ensures Seconds(Carried(tm)) == Denoted(tm)
  {
    CarriedConserves(tm);
  }
}
