/** rpytime of zic.c: the second of a year that a rule line refers to. */
module RuleDate {
  import opened CInt
  import opened Calendar
  import opened ZicArith

  datatype DayCode = DayOfMonth | WeekdayOnOrAfter | WeekdayOnOrBefore

  datatype ZoneRule = ZoneRule(month: int, dycode: DayCode, dayofmonth: int, wday: int, tod: int, loyear: int, hiyear: int)

  /** What rulesub lets through. */
  predicate ValidRule(r: ZoneRule) {
    && 0 <= r.month < 12 && 1 <= r.dayofmonth <= MonthLength(true, r.month)
    && 0 <= r.wday < 7 && IsLong(r.tod)
  }

  /** The day of the month the rule starts from; 29 February of a common year is read as 28 in a
      "last weekday" rule and is an error otherwise. */
  function StartDay(r: ZoneRule, year: int): Option<int> {
    if r.month == 1 && r.dayofmonth == 29 && !IsLeap(year) then
      if r.dycode == WeekdayOnOrBefore then Some(28) else None
    else Some(r.dayofmonth)
  }

  /** How far the two loops move from a day of weekday w. Counting down, the source wraps from 0 to 7. */
  function StepsOn(w: int, target: int): int {
    if w <= target then target - w else target - w + 7
  }

  function StepsBack(w: int, target: int): int {
    if target <= w then w - target else w - target + 8
  }

  /** The day of the month rpytime settles on, if it is in the month. */
  function ChosenDay(r: ZoneRule, year: int): Option<int>
    requires ValidRule(r)
  {
    var start := StartDay(r, year);
    if start.None? then None
    else
      var w := Weekday(DayNumber(year, r.month, start.value));
      var d := match r.dycode
               case DayOfMonth => start.value
               case WeekdayOnOrAfter => start.value + StepsOn(w, r.wday)
               case WeekdayOnOrBefore => start.value - StepsBack(w, r.wday);
      if r.dycode != DayOfMonth && !(1 <= d <= MonthLength(IsLeap(year), r.month)) then None else Some(d)
  }

  /** "weekday >= n" names the first such day on or after n. */
  predicate FirstOnOrAfter(year: int, mon: int, n: int, wday: int, d: int)
    requires 0 <= mon < 12
  {
    n <= d && Weekday(DayNumber(year, mon, d)) == wday
    && forall e :: n <= e < d ==> Weekday(DayNumber(year, mon, e)) != wday
  }

  /** "weekday <= n" names the last such day on or before n. */
  predicate LastOnOrBefore(year: int, mon: int, n: int, wday: int, d: int)
    requires 0 <= mon < 12
  {
    d <= n && Weekday(DayNumber(year, mon, d)) == wday
    && forall e :: d < e <= n ==> Weekday(DayNumber(year, mon, e)) != wday
  }

  lemma WeekdayMove(day: int, k: int)
    requires -13 <= k <= 13
    ensures Weekday(day + k) == (Weekday(day) + k) % 7
  {
    var q := (EPOCH_WDAY + day) / 7;
    var w := Weekday(day);
    assert EPOCH_WDAY + day == 7 * q + w;
    DivModUnique(EPOCH_WDAY + day + k, 7, q + (w + k) / 7, (w + k) % 7);
  }

  lemma OnOrAfter(year: int, mon: int, n: int, wday: int)
    requires 0 <= mon < 12 && 0 <= wday < 7
    ensures FirstOnOrAfter(year, mon, n, wday, n + StepsOn(Weekday(DayNumber(year, mon, n)), wday))
  {
    var day := DayNumber(year, mon, n);
    var w := Weekday(day);
    var k := StepsOn(w, wday);
    WeekdayMove(day, k);
    forall e | n <= e < n + k
      ensures Weekday(DayNumber(year, mon, e)) != wday
    {
      WeekdayMove(day, e - n);
      assert DayNumber(year, mon, e) == day + (e - n);
    }
    assert DayNumber(year, mon, n + k) == day + k;
  }

  /** Counting back is right exactly when no wrap is needed; after a wrap it ends one day early. */
  lemma OnOrBefore(year: int, mon: int, n: int, wday: int)
    requires 0 <= mon < 12 && 0 <= wday < 7
    ensures var w := Weekday(DayNumber(year, mon, n));
            var d := n - StepsBack(w, wday);
            && (LastOnOrBefore(year, mon, n, wday, d) <==> wday <= w)
            && (wday > w ==> LastOnOrBefore(year, mon, n, wday, d + 1))
  {
    var day := DayNumber(year, mon, n);
    var w := Weekday(day);
    var k := StepsBack(w, wday);
    var right := if wday <= w then k else k - 1;
    WeekdayMove(day, -k);
    WeekdayMove(day, -right);
    forall e | n - right < e <= n
      ensures Weekday(DayNumber(year, mon, e)) != wday
    {
      WeekdayMove(day, e - n);
      assert DayNumber(year, mon, e) == day + (e - n);
    }
    assert DayNumber(year, mon, n - k) == day + -k;
    assert DayNumber(year, mon, n - right) == day + -right;
  }

  /** What rpytime chooses, rule form by rule form. */
  lemma ChosenDayMeaning(r: ZoneRule, year: int)
    requires ValidRule(r) && ChosenDay(r, year).Some?
    ensures var n, d := StartDay(r, year).value, ChosenDay(r, year).value;
            var w := Weekday(DayNumber(year, r.month, n));
            && 1 <= d <= MonthLength(IsLeap(year), r.month)
            && (r.dycode == DayOfMonth ==> d == r.dayofmonth)
            && (r.dycode == WeekdayOnOrAfter ==> FirstOnOrAfter(year, r.month, n, r.wday, d))
            && (r.dycode == WeekdayOnOrBefore ==> (LastOnOrBefore(year, r.month, n, r.wday, d) <==> r.wday <= w))
  {
    var n := StartDay(r, year).value;
    OnOrAfter(year, r.month, n, r.wday);
    OnOrBefore(year, r.month, n, r.wday);
  }

  /** A Sunday rule never wraps. */
  lemma LastSundayRight(r: ZoneRule, year: int)
    requires ValidRule(r) && r.dycode == WeekdayOnOrBefore && r.wday == 0
    requires ChosenDay(r, year).Some?
    ensures LastOnOrBefore(year, r.month, StartDay(r, year).value, 0, ChosenDay(r, year).value)
  {
    ChosenDayMeaning(r, year);
  }

  /** The last Saturday of October 1999 was the 30th; counting back from Sunday the 31st gives the 29th. */
  lemma LastSaturdayExample()
    ensures var r := ZoneRule(9, WeekdayOnOrBefore, 31, 6, 0, 1999, 1999);
            ValidRule(r) && ChosenDay(r, 1999) == Some(29) && LastOnOrBefore(1999, 9, 31, 6, 30)
  {
    hide YearStart, MonthStart, LastOnOrBefore;
    assert DayNumber(1999, 9, 31) == 10895 by {
      YearClosedForm(1999);
      MonthTable(false);
    }
    OnOrBefore(1999, 9, 31, 6);
  }

  /** Every running day count is a long; otherwise oadd ends the program. */
  predicate DaysFit(r: ZoneRule, year: int)
    requires ValidRule(r) && ChosenDay(r, year).Some?
  {
    && IsLong(YearStart(year))
    && IsLong(DayNumber(year, r.month, StartDay(r, year).value))
    && IsLong(DayNumber(year, r.month, ChosenDay(r, year).value))
  }

  /** 29 February of a common year: the 28th for a "last weekday" rule, and an error for the others. */
  predicate NoSuchDay(r: ZoneRule, year: int) {
    r.month == 1 && r.dayofmonth == 29 && !(year % 4 == 0 && (year % 100 != 0 || year % 400 == 0))
  }

  /** The first such day is past the end exactly when no day up to the end is one. */
  lemma NoneLeft(year: int, mon: int, n: int, wday: int, last: int)
    requires 0 <= mon < 12 && 0 <= wday < 7
    ensures var d := n + StepsOn(Weekday(DayNumber(year, mon, n)), wday);
            && n <= d
            && (d > last <==> forall e :: n <= e <= last ==> Weekday(DayNumber(year, mon, e)) != wday)
  {
    OnOrAfter(year, mon, n, wday);
    hide DayNumber, StepsOn;
    var d := n + StepsOn(Weekday(DayNumber(year, mon, n)), wday);
    assert FirstOnOrAfter(year, mon, n, wday, d);
  }

  /** Where the rule starts from. */
  lemma StartsFrom(r: ZoneRule, year: int)
    requires ValidRule(r)
    ensures StartDay(r, year) ==
      if !NoSuchDay(r, year) then Some(r.dayofmonth) else if r.dycode == WeekdayOnOrBefore then Some(28) else None
  {
  }

  /** When the rule names no day: on the 29 February that is not, and when no such weekday is left in the month; for a
      "last weekday" rule also when the extra step back leaves the month. */
  lemma NamesNone(r: ZoneRule, year: int)
    requires ValidRule(r)
    ensures StartDay(r, year) == None ==> ChosenDay(r, year) == None
    ensures StartDay(r, year).Some? ==>
      var n := StartDay(r, year).value;
      var w := Weekday(DayNumber(year, r.month, n));
      && (r.dycode == DayOfMonth ==> ChosenDay(r, year) == Some(n))
      && (r.dycode == WeekdayOnOrAfter ==>
            (ChosenDay(r, year) == None <==> forall e :: n <= e <= MonthLength(IsLeap(year), r.month) ==>
               Weekday(DayNumber(year, r.month, e)) != r.wday))
      && (r.dycode == WeekdayOnOrBefore ==>
            (ChosenDay(r, year) == None <==> n - (w - r.wday) - (if r.wday > w then 8 else 0) < 1))
  {
    if StartDay(r, year).Some? {
      var n := StartDay(r, year).value;
      var length := MonthLength(IsLeap(year), r.month);
      assert 1 <= n <= length;
      hide IsLeap, DayNumber, MonthLength;
      WeekdayRange(DayNumber(year, r.month, n));
      hide Weekday;
      NoneLeft(year, r.month, n, r.wday, length);
    }
  }

  lemma WeekdayRange(day: int)
    ensures 0 <= Weekday(day) < 7
  {
  }

  /** The second of a day number plus the time of day; a day out of range stands for the extreme time
      when it is the first or last year of the rule. */
  function SecondOf(r: ZoneRule, year: int, day: int): Option<int>
    requires ValidRule(r)
  {
    if IsLong(day * SECS_PER_DAY) then Tadd(day * SECS_PER_DAY, r.tod)
    else if year == r.hiyear then Some(MAX_TIME)
    else if year == r.loyear then Some(MIN_TIME)
    else None
  }

  function Resolved(r: ZoneRule, year: int): Option<int>
    requires ValidRule(r)
  {
    var d := ChosenDay(r, year);
    if d.None? || !DaysFit(r, year) then None else SecondOf(r, year, DayNumber(year, r.month, d.value))
  }

  /** No day count can overflow within five million years. */
  lemma DaysSurelyFit(r: ZoneRule, year: int)
    requires ValidRule(r) && ChosenDay(r, year).Some? && -5_000_000 <= year <= 5_000_000
    ensures DaysFit(r, year)
  {
    hide YearStart, Weekday;
    YearClosedForm(year);
    MonthMono(IsLeap(year), 0, r.month);
    MonthMono(IsLeap(year), r.month, 12);
    MonthsFillYear(year);
  }

  /** The answer for a day that is chosen: its second and the time of day, if both fit; the largest time for the last year
      of a rule and the smallest for its first, if the day's own second does not fit; else the error exit. */
  lemma ResolvedMeaning(r: ZoneRule, year: int)
    requires ValidRule(r)
    ensures ChosenDay(r, year) == None ==> Resolved(r, year) == None
    ensures ChosenDay(r, year).Some? && DaysFit(r, year) ==>
      var second := DayNumber(year, r.month, ChosenDay(r, year).value) * SECS_PER_DAY;
      Resolved(r, year) ==
      if IsLong(second) then (if IsLong(second + r.tod) then Some(second + r.tod) else None)
      else if year == r.hiyear then Some(LONG_MAX)
      else if year == r.loyear then Some(LONG_MIN)
      else None
  {
    if ChosenDay(r, year).Some? && DaysFit(r, year) {
      var day := DayNumber(year, r.month, ChosenDay(r, year).value);
      hide DayNumber, ChosenDay, DaysFit;
      NotExtreme(day);
    }
  }

  lemma NotExtreme(day: int)
    ensures day * SECS_PER_DAY != LONG_MAX && day * SECS_PER_DAY != LONG_MIN
  {
  }

  /** A date whose second is a time_t is resolved to that second: no running count can overflow on the way. */
  lemma DateInRange(r: ZoneRule, year: int)
    requires ValidRule(r) && ChosenDay(r, year).Some?
    requires var second := DayNumber(year, r.month, ChosenDay(r, year).value) * SECS_PER_DAY;
             IsLong(second) && IsLong(second + r.tod)
    ensures var second := DayNumber(year, r.month, ChosenDay(r, year).value) * SECS_PER_DAY;
            Resolved(r, year) == Some(second + r.tod)
  {
    hide YearStart, Weekday;
    MonthMono(IsLeap(year), 0, r.month);
    MonthMono(IsLeap(year), r.month, 12);
    MonthsFillYear(year);
  }

  /** The cheap overflow check is exact. */
  lemma OverflowCheck(day: int)
    requires IsLong(day)
    ensures CDiv(Wrap(day * SECS_PER_DAY), SECS_PER_DAY) == day <==> IsLong(day * SECS_PER_DAY)
  {
    var x := day * SECS_PER_DAY;
    CDivRem(Wrap(x), SECS_PER_DAY);
    if IsLong(x) {
      if day >= 0 {
        DivModUnique(x, SECS_PER_DAY, day, 0);
      } else {
        DivModUnique(-x, SECS_PER_DAY, -day, 0);
      }
    }
  }

  /** Walks from 1970 to the wanted year, adding or taking off a year's length at a time. */
  method DaysToYear(wantedy: int) returns (r: Option<int>)
    ensures r == if IsLong(YearStart(wantedy)) then Some(YearStart(wantedy)) else None
  {
    var dayoff, y := 0, EPOCH_YEAR;
    while wantedy != y
      invariant EPOCH_YEAR <= y <= wantedy || wantedy <= y <= EPOCH_YEAR
      invariant dayoff == YearStart(y) && IsLong(dayoff)
      decreases if wantedy > y then wantedy - y else y - wantedy
    {
      var i;
      if wantedy > y {
        i := YearLength(y);
        y := y + 1;
        YearStep(y - 1);
        YearMono(y, wantedy);
        YearMono(EPOCH_YEAR, y);
      } else {
        y := y - 1;
        i := -YearLength(y);
        YearStep(y);
        YearMono(wantedy, y);
        YearMono(y, EPOCH_YEAR);
      }
      var sum := Oadd(dayoff, i);
      if sum.None? {
        return None;
      }
      dayoff := sum.value;
    }
    r := Some(dayoff);
  }

  method DaysToMonth(year: int, month: int, first: int) returns (r: Option<int>)
    requires 0 <= month < 12 && IsLong(first)
    ensures var day := first + MonthStart(IsLeap(year), month); r == if IsLong(day) then Some(day) else None
  {
    var dayoff, m := first, 0;
    while m != month
      invariant 0 <= m <= month
      invariant dayoff == first + MonthStart(IsLeap(year), m) && IsLong(dayoff)
    {
      MonthMono(IsLeap(year), m + 1, month);
      MonthMono(IsLeap(year), 0, m + 1);
      var sum := Oadd(dayoff, MonthLength(IsLeap(year), m));
      if sum.None? {
        return None;
      }
      dayoff := sum.value;
      m := m + 1;
    }
    r := Some(dayoff);
  }

  /** The weekday of a day count, without the remainder of a negative number. */
  method WeekdayOf(dayoff: int) returns (wday: int)
    ensures wday == Weekday(dayoff)
  {
    wday := EPOCH_WDAY;
    if dayoff >= 0 {
      wday := (wday + dayoff) % 7;
    } else {
      ghost var q, m := (-dayoff) / 7, (-dayoff) % 7;
      wday := wday - (-dayoff) % 7;
      if wday < 0 {
        wday := wday + 7;
        DivModUnique(EPOCH_WDAY + dayoff, 7, -q - 1, wday);
      } else {
        DivModUnique(EPOCH_WDAY + dayoff, 7, -q, wday);
      }
    }
  }

  /** The loop over weekdays, one day at a time; i is the zero-origin day of the month. */
  method MoveToWeekday(r: ZoneRule, dayoff0: int, i0: int) returns (ok: bool, dayoff: int, i: int)
    requires ValidRule(r) && r.dycode != DayOfMonth && IsLong(dayoff0)
    ensures var w := Weekday(dayoff0);
            var move := if r.dycode == WeekdayOnOrAfter then StepsOn(w, r.wday) else -StepsBack(w, r.wday);
            && (ok <==> IsLong(dayoff0 + move))
            && (ok ==> dayoff == dayoff0 + move && i == i0 + move)
  {
    dayoff, i := dayoff0, i0;
    var wday := WeekdayOf(dayoff);
    ghost var w := wday;
    ghost var total := if r.dycode == WeekdayOnOrAfter then StepsOn(w, r.wday) else StepsBack(w, r.wday);
    ghost var moved := 0;
    while wday != r.wday
      invariant 0 <= moved <= total && 0 <= wday <= 7 && IsLong(dayoff)
      invariant r.dycode == WeekdayOnOrAfter ==>
        dayoff == dayoff0 + moved && i == i0 + moved && wday < 7 && total - moved == StepsOn(wday, r.wday)
      invariant r.dycode == WeekdayOnOrBefore ==>
        dayoff == dayoff0 - moved && i == i0 - moved && total - moved == StepsBack(wday, r.wday)
      decreases total - moved
    {
      var sum;
      if r.dycode == WeekdayOnOrAfter {
        sum := Oadd(dayoff, 1);
        if sum.None? {
          return false, dayoff, i;
        }
        wday := wday + 1;
        if wday >= 7 {
          wday := 0;
        }
        i := i + 1;
      } else {
        sum := Oadd(dayoff, -1);
        if sum.None? {
          return false, dayoff, i;
        }
        wday := wday - 1;
        if wday < 0 {
          wday := 7;
        }
        i := i - 1;
      }
      dayoff := sum.value;
      moved := moved + 1;
    }
    ok := true;
  }

  /** rpytime. None is the error exit. */
  method RpyTime(r: ZoneRule, wantedy: int) returns (t: Option<int>)
    requires ValidRule(r)
    ensures t == Resolved(r, wantedy)
  {
    hide YearStart, IsLeap, Weekday, StepsOn, StepsBack;
    var year := DaysToYear(wantedy);
    if year.None? {
      return None;
    }
    var leap := IsLeap(wantedy);
    MonthMono(leap, 0, r.month);
    var month := DaysToMonth(wantedy, r.month, year.value);
    if month.None? {
      return None;
    }
    var i := r.dayofmonth;
    if r.month == 1 && i == 29 && !leap {
      if r.dycode == WeekdayOnOrBefore {
        i := i - 1;
      } else {
        return None;
      }
    }
    i := i - 1;
    var day := Oadd(month.value, i);
    if day.None? {
      return None;
    }
    var dayoff := day.value;
    assert dayoff == DayNumber(wantedy, r.month, StartDay(r, wantedy).value);
    if r.dycode == WeekdayOnOrAfter || r.dycode == WeekdayOnOrBefore {
      var ok;
      ok, dayoff, i := MoveToWeekday(r, dayoff, i);
      if !ok {
        return None;
      }
      if i < 0 || i >= MonthLength(leap, r.month) {
        return None;
      }
    }
    OverflowCheck(dayoff);
    var second := Wrap(dayoff * SECS_PER_DAY);
    if CDiv(second, SECS_PER_DAY) != dayoff {
      if wantedy == r.hiyear {
        return Some(MAX_TIME);
      }
      if wantedy == r.loyear {
        return Some(MIN_TIME);
      }
      return None;
    }
    t := Tadd(second, r.tod);
  }
}
