/** timesub and localsub: from an instant to the fields of struct tm. */
module LocalTime {
  import opened CInt
  import opened Calendar
  import opened CivilTime
  import opened ZoneState

  /** The last of the first n leap entries that t has reached, or -1. */
  function LastLeap(leaps: seq<LsInfo>, t: int, n: nat): (i: int)
    requires n <= |leaps|
    ensures -1 <= i < n
    ensures i >= 0 ==> t >= leaps[i].trans
    ensures forall j :: i < j < n ==> t < leaps[j].trans
  {
    if n == 0 then -1
    else if t >= leaps[n - 1].trans then n - 1
    else LastLeap(leaps, t, n - 1)
  }

  function Correction(leaps: seq<LsInfo>, t: int): int {
    var i := LastLeap(leaps, t, |leaps|);
    if i < 0 then 0 else leaps[i].corr
  }

  /** t is the very moment of a positive leap second. For the first entry the source also compares with
      the word below the table. */
  predicate Hit(leaps: seq<LsInfo>, t: int, below: int) {
    var i := LastLeap(leaps, t, |leaps|);
    i >= 0 && t == leaps[i].trans &&
    if i == 0 then leaps[0].corr > 0 || leaps[0].corr > below else leaps[i].corr > leaps[i - 1].corr
  }

  /** The local second count timesub works with: the offset enters through two 32-bit operations. */
  function LocalSeconds(t: int, offset: int, corr: int): int {
    CDiv(t, SECS_PER_DAY) * SECS_PER_DAY + Wrap(CRem(t, SECS_PER_DAY) + Wrap(offset - corr))
  }

  /** The local second count is t + offset - corr exactly when adding them to the second of the day
      stays within a long. */
  lemma LocalSecondsExact(t: int, offset: int, corr: int)
    ensures (LocalSeconds(t, offset, corr) == t + offset - corr) <==> IsLong(CRem(t, SECS_PER_DAY) + offset - corr)
  {
    CDivRem(t, SECS_PER_DAY);
    WrapAdd(offset - corr, CRem(t, SECS_PER_DAY));
  }

  /** Entry i is the last one that t has reached. */
  predicate LastReached(leaps: seq<LsInfo>, t: int, i: int) {
    0 <= i < |leaps| && leaps[i].trans <= t && forall j :: i < j < |leaps| ==> t < leaps[j].trans
  }

  /** The correction is that of the last entry reached, and 0 before all of them; a second is a leap second when it is
      the very moment of that entry and the entry raises the correction. */
  lemma LeapMeaning(leaps: seq<LsInfo>, t: int, below: int)
    ensures (forall i :: 0 <= i < |leaps| ==> t < leaps[i].trans) ==> Correction(leaps, t) == 0 && !Hit(leaps, t, below)
    ensures forall i :: LastReached(leaps, t, i) ==>
      && Correction(leaps, t) == leaps[i].corr
      && (Hit(leaps, t, below) <==>
            leaps[i].trans == t && (if i > 0 then leaps[i].corr > leaps[i - 1].corr else leaps[0].corr > 0 || leaps[0].corr > below))
  {
    var k := LastLeap(leaps, t, |leaps|);
    forall i | LastReached(leaps, t, i)
      ensures i == k
    {
    }
  }

  /** What timesub stores, for all t, offsets and leap tables. */
  ghost function TimeSubValue(t: int, offset: int, leaps: seq<LsInfo>, below: int): TmValue {
    BreakDown(LocalSeconds(t, offset, Correction(leaps, t)), Hit(leaps, t, below), 0, offset)
  }

  /** timesub is exact: its fields denote t + offset - correction, plus one on a leap second, and are in
      range and consistent, exactly when the offset fits. */
  lemma TimeSubExact(t: int, offset: int, leaps: seq<LsInfo>, below: int)
    ensures var tm := TimeSubValue(t, offset, leaps, below);
            var corr := Correction(leaps, t);
            var hit := Hit(leaps, t, below);
            && ValidDate(tm) && DaysAgree(tm)
            && 0 <= tm.hour < 24 && 0 <= tm.min < 60 && 0 <= tm.sec < 60 + (if hit then 1 else 0)
            && ((Seconds(tm) == t + offset - corr + (if hit then 1 else 0)) <==> IsLong(CRem(t, SECS_PER_DAY) + offset - corr))
  {
    LocalSecondsExact(t, offset, Correction(leaps, t));
    BreakDownExact(LocalSeconds(t, offset, Correction(leaps, t)), Hit(leaps, t, below), 0, offset);
  }

  /** The largest offset at the second second of a day: the sum wraps, and the fields are 2^32 seconds early. */
  lemma OffsetOverflows()
    ensures var tm := TimeSubValue(1, LONG_MAX, [], 0);
            ValidDate(tm) && Seconds(tm) == 1 + LONG_MAX - TWO32
  {
    hide BreakDown, DayNumber;
    assert LocalSeconds(1, LONG_MAX, 0) == LONG_MIN;
    BreakDownExact(LONG_MIN, Hit([], 1, 0), 0, LONG_MAX);
  }

  method SearchLeaps(t: int, sp: State) returns (corr: int, hit: bool)
    requires sp.Loaded()
    ensures corr == Correction(sp.View().leaps, t)
    ensures hit == Hit(sp.View().leaps, t, sp.below)
  {
    corr, hit := 0, false;
    var i := sp.leapcnt - 1;
    ghost var leaps := sp.View().leaps;
    while i >= 0
      invariant -1 <= i < sp.leapcnt
      invariant corr == 0 && !hit
      invariant LastLeap(leaps, t, |leaps|) == LastLeap(leaps, t, i + 1)
    {
      var lp := sp.lsis[i];
      assert lp == leaps[i];
      if t >= lp.trans {
        if t == lp.trans {
          hit := (i == 0 && lp.corr > 0) || lp.corr > (if i == 0 then sp.below else sp.lsis[i - 1].corr);
        }
        corr := lp.corr;
        break;
      }
      i := i - 1;
    }
  }

  /** The day and second of the day, carried with loops after the offset is added. */
  method DayAndSecond(t: int, offset: int, corr: int) returns (days: int, rem: int)
    ensures days == LocalSeconds(t, offset, corr) / SECS_PER_DAY
    ensures rem == LocalSeconds(t, offset, corr) % SECS_PER_DAY
  {
    days, rem := CDiv(t, SECS_PER_DAY), CRem(t, SECS_PER_DAY);
    rem := Wrap(rem + Wrap(offset - corr));
    ghost var s := LocalSeconds(t, offset, corr);
    while rem < 0
      invariant days * SECS_PER_DAY + rem == s
      decreases -rem
    {
      rem := rem + SECS_PER_DAY;
      days := days - 1;
    }
    while rem >= SECS_PER_DAY
      invariant rem >= 0 && days * SECS_PER_DAY + rem == s
    {
      rem := rem - SECS_PER_DAY;
      days := days + 1;
    }
    DivModUnique(s, SECS_PER_DAY, days, rem);
  }

  method TimeSub(t: int, offset: int, sp: State, tmp: Tm)
    requires sp.Loaded()
    modifies tmp
    ensures tmp.Value() == TimeSubValue(t, offset, sp.View().leaps, sp.below)
  {
    hide Correction, Hit, LocalSeconds, YearOf, MonthOf, MonthStart, YearStart, IsLeap;
    var corr, hit := SearchLeaps(t, sp);
    var days, rem := DayAndSecond(t, offset, corr);
    SecondOfMinute(rem);
    tmp.hour := rem / 3600;
    rem := rem % 3600;
    tmp.min := rem / 60;
    tmp.sec := rem % 60;
    if hit {
      tmp.sec := tmp.sec + 1;
    }
    StoreDate(days, tmp);
    tmp.isdst := 0;
    tmp.gmtoff := offset;
  }

  /** The date fields of a day number. */
  method StoreDate(day: int, tmp: Tm)
    modifies tmp`wday, tmp`year, tmp`yday, tmp`mon, tmp`mday
    ensures tmp.wday == Weekday(day)
    ensures tmp.year == YearOf(day) - TM_YEAR_BASE && tmp.yday == day - YearStart(YearOf(day))
    ensures 0 <= tmp.yday < YearLength(YearOf(day)) && tmp.mon == MonthOf(YearOf(day), tmp.yday)
    ensures tmp.mday == tmp.yday - MonthStart(IsLeap(YearOf(day)), tmp.mon) + 1
  {
    WeekdayFix(day);
    tmp.wday := CRem(EPOCH_WDAY + day, 7);
    if tmp.wday < 0 {
      tmp.wday := tmp.wday + 7;
    }
    var y, yday := FindYear(day);
    tmp.year := y - TM_YEAR_BASE;
    tmp.yday := yday;
    var mon, mday := FindMonth(y, yday);
    tmp.mon := mon;
    tmp.mday := mday + 1;
  }

  lemma SecondOfMinute(rem: int)
    requires 0 <= rem < SECS_PER_DAY
    ensures (rem % 3600) % 60 == rem % 60
  {
    TimeOfDay(rem);
    DivModUnique(rem % 3600, 60, (rem % 3600) / 60, rem % 60);
  }

  lemma WeekdayFix(days: int)
    ensures var w := CRem(EPOCH_WDAY + days, 7); Weekday(days) == if w < 0 then w + 7 else w
  {
  }

  /** The year loops of timesub: upwards from 1970, or downwards. */
  method FindYear(day: int) returns (y: int, days: int)
    ensures y == YearOf(day) && days == day - YearStart(y) && 0 <= days < YearLength(y)
  {
    y, days := EPOCH_YEAR, day;
    if days >= 0 {
      while days >= YearLength(y)
        invariant days >= 0 && YearStart(y) + days == day
        decreases days
      {
        YearStep(y);
        days := days - YearLength(y);
        y := y + 1;
      }
    } else {
      while days < 0
        invariant YearStart(y) + days == day && days < YearLength(y)
        decreases -days
      {
        y := y - 1;
        YearStep(y);
        days := days + YearLength(y);
      }
    }
    YearStep(y);
    YearUnique(day, y, YearOf(day));
  }

  method FindMonth(y: int, yday: int) returns (mon: int, days: int)
    requires 0 <= yday < YearLength(y)
    ensures mon == MonthOf(y, yday) && days == yday - MonthStart(IsLeap(y), mon)
  {
    mon, days := 0, yday;
    MonthsFillYear(y);
    while days >= MonthLength(IsLeap(y), mon)
      invariant 0 <= mon < 12 && 0 <= days
      invariant MonthStart(IsLeap(y), mon) + days == yday
      decreases days
    {
      days := days - MonthLength(IsLeap(y), mon);
      mon := mon + 1;
      if mon == 12 {
        assert false;
      }
    }
    MonthUnique(IsLeap(y), yday, mon, MonthOf(y, yday));
  }

  /** The first transition from index i on that t has not reached. */
  function FirstAfter(ats: seq<int>, t: int, i: nat): (k: nat)
    requires i <= |ats|
    ensures i <= k <= |ats|
    ensures forall j :: i <= j < k ==> ats[j] <= t
    ensures k < |ats| ==> t < ats[k]
    decreases |ats| - i
  {
    if i == |ats| || t < ats[i] then i else FirstAfter(ats, t, i + 1)
  }

  /** The first type that is not daylight time, or type 0 if there is none. */
  function FirstStandard(ttis: seq<TtInfo>, i: nat): (k: nat)
    requires i < |ttis|
    ensures k < |ttis|
    ensures ttis[k].isdst == 0 || k == 0
    decreases |ttis| - i
  {
    if ttis[i].isdst == 0 then i
    else if i + 1 >= |ttis| then 0
    else FirstStandard(ttis, i + 1)
  }

  predicate GoodZone(z: Zone) {
    && |z.ats| == |z.types| && |z.ttis| > 0
    && forall i :: 0 <= i < |z.types| ==> 0 <= z.types[i] < |z.ttis|
  }

  function TypeAt(z: Zone, t: int): (i: nat)
    requires GoodZone(z)
    ensures i < |z.ttis|
  {
    if |z.ats| == 0 || t < z.ats[0] then FirstStandard(z.ttis, 0)
    else z.types[FirstAfter(z.ats, t, 1) - 1]
  }

  /** The fields localsub stores. */
  ghost function LocalTm(z: Zone, below: int, t: int): TmValue
    requires GoodZone(z)
  {
    var tt := z.ttis[TypeAt(z, t)];
    TimeSubValue(t, tt.gmtoff, z.leaps, below).(isdst := tt.isdst)
  }

  /** Before the first transition the first standard type holds, or type 0 when there is none; after it the type of the
      last transition reached. */
  lemma TypeAtMeaning(z: Zone, t: int)
    requires GoodZone(z)
    ensures var i := TypeAt(z, t);
            if |z.ats| == 0 || t < z.ats[0] then
              if exists k :: 0 <= k < |z.ttis| && z.ttis[k].isdst == 0
              then z.ttis[i].isdst == 0 && forall k :: 0 <= k < i ==> z.ttis[k].isdst != 0
              else i == 0
            else exists k :: 0 <= k < |z.ats| && i == z.types[k] && LastTransition(z.ats, t, k)
  {
    if |z.ats| == 0 || t < z.ats[0] {
      FirstStandardFrom(z.ttis, 0);
    } else {
      assert LastTransition(z.ats, t, FirstAfter(z.ats, t, 1) - 1);
    }
  }

  /** t has reached all transitions up to the k-th, and not the next one. */
  predicate LastTransition(ats: seq<int>, t: int, k: int) {
    0 <= k < |ats| && (forall j :: 0 <= j <= k ==> ats[j] <= t) && (k + 1 < |ats| ==> t < ats[k + 1])
  }

  lemma {:induction false} FirstStandardFrom(ttis: seq<TtInfo>, i: nat)
    requires i < |ttis| && forall k :: 0 <= k < i ==> ttis[k].isdst != 0
    ensures var f := FirstStandard(ttis, i);
            if exists k :: 0 <= k < |ttis| && ttis[k].isdst == 0
            then ttis[f].isdst == 0 && forall k :: 0 <= k < f ==> ttis[k].isdst != 0
            else f == 0
    decreases |ttis| - i
  {
    if ttis[i].isdst != 0 && i + 1 < |ttis| {
      FirstStandardFrom(ttis, i + 1);
    }
  }

  /** The fields localsub stores: those of t plus the offset of the type in force, less the leap seconds, with that
      type's offset and kind. */
  lemma LocalTmMeaning(z: Zone, below: int, t: int)
    requires GoodZone(z)
    ensures var tt, tm := z.ttis[TypeAt(z, t)], LocalTm(z, below, t);
            && tm.isdst == tt.isdst && tm.gmtoff == tt.gmtoff && ValidDate(tm) && DaysAgree(tm)
            && 0 <= tm.hour < 24 && 0 <= tm.min < 60 && 0 <= tm.sec <= 60
            && (z.leaps == [] ==> tm.sec < 60)
            && (z.leaps == [] && IsLong(CRem(t, SECS_PER_DAY) + tt.gmtoff) ==> Seconds(tm) == t + tt.gmtoff)
  {
    TimeSubExact(t, z.ttis[TypeAt(z, t)].gmtoff, z.leaps, below);
  }

  method FindType(t: int, sp: State) returns (i: nat)
    requires sp.Loaded()
    ensures GoodZone(sp.View()) && i == TypeAt(sp.View(), t)
  {
    ghost var z := sp.View();
    if sp.timecnt == 0 || t < sp.ats[0] {
      i := 0;
      while sp.ttis[i].isdst != 0
        invariant i < sp.typecnt
        invariant FirstStandard(z.ttis, 0) == FirstStandard(z.ttis, i)
        decreases sp.typecnt - i
      {
        assert z.ttis[i] == sp.ttis[i];
        if i + 1 >= sp.typecnt {
          i := 0;
          break;
        }
        i := i + 1;
      }
    } else {
      i := 1;
      while i < sp.timecnt && t >= sp.ats[i]
        invariant 1 <= i <= sp.timecnt
        invariant FirstAfter(z.ats, t, 1) == FirstAfter(z.ats, t, i)
      {
        assert z.ats[i] == sp.ats[i];
        i := i + 1;
      }
      i := sp.types[i - 1];
    }
  }

  method LocalSub(t: int, sp: State, tmp: Tm)
    requires sp.Loaded()
    modifies tmp
    ensures GoodZone(sp.View()) && tmp.Value() == LocalTm(sp.View(), sp.below, t)
  {
    var i := FindType(t, sp);
    var ttisp := sp.ttis[i];
    TimeSub(t, ttisp.gmtoff, sp, tmp);
    tmp.isdst := ttisp.isdst;
  }
}
