/** struct tm as a value and as the object timesub fills in, and what a count of local seconds breaks down to. */
module CivilTime {
  import opened CInt
  import opened Calendar

  datatype TmValue = TmValue(sec: int, min: int, hour: int, mday: int, mon: int, year: int,
                             wday: int, yday: int, isdst: int, gmtoff: int)

  class Tm {
    var sec: int
    var min: int
    var hour: int
    var mday: int
    var mon: int
    var year: int
    var wday: int
    var yday: int
    var isdst: int
    var gmtoff: int

    function Value(): TmValue
      reads this
    {
      TmValue(sec, min, hour, mday, mon, year, wday, yday, isdst, gmtoff)
    }

    /** A copy, as by structure assignment. */
    constructor (v: TmValue)
      ensures Value() == v
    {
      sec, min, hour, mday, mon, year := v.sec, v.min, v.hour, v.mday, v.mon, v.year;
      wday, yday, isdst, gmtoff := v.wday, v.yday, v.isdst, v.gmtoff;
    }
  }

  /** The count of seconds that date and time of day denote. */
  function Seconds(tm: TmValue): int
    requires 0 <= tm.mon < 12
  {
    DayNumber(tm.year + TM_YEAR_BASE, tm.mon, tm.mday) * SECS_PER_DAY + tm.hour * 3600 + tm.min * 60 + tm.sec
  }

  predicate ValidDate(tm: TmValue) {
    0 <= tm.mon < 12 && 1 <= tm.mday <= MonthLength(IsLeap(tm.year + TM_YEAR_BASE), tm.mon)
  }

  predicate ValidTime(tm: TmValue) {
    0 <= tm.hour < 24 && 0 <= tm.min < 60 && 0 <= tm.sec < 60
  }

  /** The week day and the day of the year go with the date. */
  predicate DaysAgree(tm: TmValue)
    requires 0 <= tm.mon < 12
  {
    var y := tm.year + TM_YEAR_BASE;
    && tm.wday == Weekday(DayNumber(y, tm.mon, tm.mday))
    && tm.yday == MonthStart(IsLeap(y), tm.mon) + tm.mday - 1
    && 0 <= tm.yday < YearLength(y)
  }

  /** The fields for s seconds of local time; a leap second shows as one more second. */
  ghost function BreakDown(s: int, hit: bool, isdst: int, gmtoff: int): TmValue {
    var day, rem := s / SECS_PER_DAY, s % SECS_PER_DAY;
    var y := YearOf(day);
    YearStep(y);
    var yday := day - YearStart(y);
    var m := MonthOf(y, yday);
    TmValue(rem % 60 + (if hit then 1 else 0), (rem % 3600) / 60, rem / 3600,
            yday - MonthStart(IsLeap(y), m) + 1, m, y - TM_YEAR_BASE, Weekday(day), yday, isdst, gmtoff)
  }

  /** Breaking down loses nothing: the fields denote the seconds they came from, are in range and agree. */
  lemma BreakDownExact(s: int, hit: bool, isdst: int, gmtoff: int)
    ensures var tm := BreakDown(s, hit, isdst, gmtoff);
            && ValidDate(tm) && DaysAgree(tm)
            && 0 <= tm.hour < 24 && 0 <= tm.min < 60 && 0 <= tm.sec < 60 + (if hit then 1 else 0)
            && Seconds(tm) == s + (if hit then 1 else 0)
  {
    var day, rem := s / SECS_PER_DAY, s % SECS_PER_DAY;
    assert s == day * SECS_PER_DAY + rem;
    TimeOfDay(rem);
    var y := YearOf(day);
    YearStep(y);
  }

  lemma TimeOfDay(rem: int)
    requires 0 <= rem < SECS_PER_DAY
    ensures rem / 3600 * 3600 + (rem % 3600) / 60 * 60 + rem % 60 == rem
    ensures 0 <= rem / 3600 < 24 && 0 <= (rem % 3600) / 60 < 60
  {
    var h, r := rem / 3600, rem % 3600;
    assert r == r / 60 * 60 + r % 60;
    DivModUnique(rem, 60, h * 60 + r / 60, r % 60);
  }

  /** tmcomp: the first differing field decides; the subtraction is a 32-bit one. */
  function TmComp(a: TmValue, b: TmValue): int {
    if Wrap(a.year - b.year) != 0 then Wrap(a.year - b.year)
    else if Wrap(a.mon - b.mon) != 0 then Wrap(a.mon - b.mon)
    else if Wrap(a.mday - b.mday) != 0 then Wrap(a.mday - b.mday)
    else if Wrap(a.hour - b.hour) != 0 then Wrap(a.hour - b.hour)
    else if Wrap(a.min - b.min) != 0 then Wrap(a.min - b.min)
    else Wrap(a.sec - b.sec)
  }

  /** The fields tmcomp looks at fit an int. */
  predicate IntFields(a: TmValue) {
    IsLong(a.year) && IsLong(a.mon) && IsLong(a.mday) && IsLong(a.hour) && IsLong(a.min) && IsLong(a.sec)
  }

  predicate SameMoment(a: TmValue, b: TmValue) {
    a.year == b.year && a.mon == b.mon && a.mday == b.mday && a.hour == b.hour && a.min == b.min && a.sec == b.sec
  }

  lemma TmCompZero(a: TmValue, b: TmValue)
    requires IntFields(a) && IntFields(b)
    ensures TmComp(a, b) == 0 <==> SameMoment(a, b)
  {
    WrapZero(a.year, b.year);
    WrapZero(a.mon, b.mon);
    WrapZero(a.mday, b.mday);
    WrapZero(a.hour, b.hour);
    WrapZero(a.min, b.min);
    WrapZero(a.sec, b.sec);
  }

  lemma TmCompCongruent(a: TmValue, b: TmValue, c: TmValue)
    requires SameMoment(b, c)
    ensures TmComp(a, b) == TmComp(a, c)
  {
  }

  lemma WrapZero(x: int, y: int)
    requires IsLong(x) && IsLong(y)
    ensures Wrap(x - y) == 0 <==> x == y
  {
    var k := WrapWitness(x - y);
  }

  /** tmcomp orders valid times exactly as the seconds they denote. */
  lemma TmCompOrders(a: TmValue, b: TmValue)
    requires ValidDate(a) && ValidTime(a) && ValidDate(b) && ValidTime(b)
    requires IsLong(a.year - b.year)
    ensures TmComp(a, b) < 0 <==> Seconds(a) < Seconds(b)
    ensures TmComp(a, b) == 0 <==> Seconds(a) == Seconds(b)
  {
    if Before(a, b) {
      BeforeInSeconds(a, b);
    } else if Before(b, a) {
      BeforeInSeconds(b, a);
    }
  }

  predicate DateBefore(a: TmValue, b: TmValue) {
    a.year < b.year || (a.year == b.year && (a.mon < b.mon || (a.mon == b.mon && a.mday < b.mday)))
  }

  predicate Before(a: TmValue, b: TmValue) {
    DateBefore(a, b) || (!DateBefore(b, a) &&
      (a.hour < b.hour || (a.hour == b.hour && (a.min < b.min || (a.min == b.min && a.sec < b.sec)))))
  }

  lemma BeforeInSeconds(a: TmValue, b: TmValue)
    requires ValidDate(a) && ValidTime(a) && ValidDate(b) && ValidTime(b) && Before(a, b)
    ensures Seconds(a) < Seconds(b)
  {
    if DateBefore(a, b) {
      DateOrder(a.year + TM_YEAR_BASE, a.mon, a.mday, b.year + TM_YEAR_BASE, b.mon, b.mday);
    }
  }

  /** A valid time is the breakdown of the seconds it denotes: nothing else denotes them. */
  lemma BreakDownUnique(a: TmValue, b: TmValue)
    requires ValidDate(a) && ValidTime(a) && ValidDate(b) && ValidTime(b)
    requires Seconds(a) == Seconds(b)
    ensures SameMoment(a, b)
  {
    if Before(a, b) {
      BeforeInSeconds(a, b);
    } else if Before(b, a) {
      BeforeInSeconds(b, a);
    }
  }
}
