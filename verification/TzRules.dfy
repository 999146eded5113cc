/** POSIX TZ rules (POSIX.1 Base Definitions, section 8.3): transtime places a rule in a year, and tzparse makes the
    transition table of 1970 to 2037 from a pair of rules. */
module TzRules {
  import opened CInt
  import opened Calendar
  import opened CivilTime
  import opened ZoneState
  import opened LocalTime

  datatype RuleKind = JulianDay | DayOfYear | MonthNthDayOfWeek

  datatype Rule = Rule(kind: RuleKind, day: int, week: int, mon: int, time: int)

  /** What getrule lets through. */
  predicate ValidRule(r: Rule) {
    && IsLong(r.time)
    && match r.kind
       case JulianDay => 1 <= r.day <= 365
       case DayOfYear => 0 <= r.day <= 365
       case MonthNthDayOfWeek => 1 <= r.mon <= 12 && 1 <= r.week <= 5 && 0 <= r.day < 7
  }

  /** The days among the first n of a month that fall on weekday `target`, the first of it being on `first`. */
  function CountDays(first: int, target: int, n: nat): nat {
    if n == 0 then 0 else CountDays(first, target, n - 1) + (if (first + n - 1) % 7 == target then 1 else 0)
  }

  /** The zero-origin day of the month that is the n-th `target` day, or the last if there are fewer. */
  predicate IsNthDay(first: int, length: nat, week: int, target: int, d: int) {
    && 0 <= d < length
    && (first + d) % 7 == target
    && (CountDays(first, target, d) == week - 1
        || (CountDays(first, target, d) < week - 1 && CountDays(first, target, length) == CountDays(first, target, d) + 1))
  }

  lemma {:induction false} CountMono(first: int, target: int, m: nat, n: nat)
    requires m <= n
    ensures CountDays(first, target, m) <= CountDays(first, target, n)
    ensures m < n && (first + m) % 7 == target ==> CountDays(first, target, m) < CountDays(first, target, n)
    decreases n
  {
    if m < n {
      CountMono(first, target, m, n - 1);
    }
  }

  /** There is only one such day. */
  lemma NthDayUnique(first: int, length: nat, week: int, target: int, d: int, e: int)
    requires IsNthDay(first, length, week, target, d) && IsNthDay(first, length, week, target, e)
    ensures d == e
  {
    if d < e {
      CountMono(first, target, d, e);
      CountMono(first, target, e, length);
    } else if e < d {
      CountMono(first, target, e, d);
      CountMono(first, target, d, length);
    }
  }

  /** The zero-origin day of the year a rule names, found by counting weekdays from the epoch. */
  ghost predicate RuleYday(r: Rule, year: int, yday: int)
    requires ValidRule(r)
  {
    var leap := IsLeap(year);
    match r.kind
    case JulianDay => yday == r.day - 1 + (if leap && r.day >= 60 then 1 else 0)
    case DayOfYear => yday == r.day
    case MonthNthDayOfWeek =>
      var m := r.mon - 1;
      var first := Weekday(DayNumber(year, m, 1));
      IsNthDay(first, MonthLength(leap, m), r.week, r.day, yday - MonthStart(leap, m))
  }

  /** A Jn rule names the same date in every year: the n-th day of a common year, and never 29 February. */
  lemma JulianNamesDate(r: Rule, year: int, yday: int, m: int)
    requires ValidRule(r) && r.kind == JulianDay && RuleYday(r, year, yday)
    requires 0 <= m < 12 && MonthStart(false, m) <= r.day - 1 < MonthStart(false, m + 1)
    ensures yday - MonthStart(IsLeap(year), m) == r.day - 1 - MonthStart(false, m)
  {
    MonthTable(true);
    MonthTable(false);
  }

  // ---------------------------------------------------------------- Zeller's congruence

  /** The day of the week of the first of a month, by Zeller's congruence in C arithmetic. */
  function ZellerDow(year: int, mon: int): int {
    var m1 := CRem(mon + 9, 12) + 1;
    var yy0 := if mon <= 2 then year - 1 else year;
    var yy1, yy2 := CDiv(yy0, 100), CRem(yy0, 100);
    var dow := CRem(CDiv(26 * m1 - 2, 10) + 1 + yy2 + CDiv(yy2, 4) + CDiv(yy1, 4) - 2 * yy1, 7);
    if dow < 0 then dow + 7 else dow
  }

  /** The congruence agrees with counting days, in every month of every year from 1 on. */
  lemma ZellerAgrees(year: int, mon: int)
    requires year >= 1 && 1 <= mon <= 12
    ensures ZellerDow(year, mon) == Weekday(DayNumber(year, mon - 1, 1))
  {
    hide YearStart, MonthStart;
    var y := if mon <= 2 then year - 1 else year;
    var c, n := y / 100, y % 100;
    var shift := (26 * ((mon + 9) % 12 + 1) - 2) / 10;
    var d := if mon <= 2 then MonthStart(false, mon - 1) else MonthStart(false, mon - 1) - 365;
    FirstOfMonth(year, mon);
    var k := MonthShift(mon, shift, d);
    CenturyYear(y, c, n);
    FixedRemainder(shift + 1 + n + n / 4 + c / 4 - 2 * c, EPOCH_WDAY + YearStart(y + 1) + d, 5218 * c + 52 * n - 102737 + k);
  }

  /** With years counted from March, the days before a month do not depend on leap years. */
  lemma FirstOfMonth(year: int, mon: int)
    requires 1 <= mon <= 12
    ensures DayNumber(year, mon - 1, 1) ==
      if mon <= 2 then YearStart(year) + MonthStart(false, mon - 1)
      else YearStart(year + 1) + MonthStart(false, mon - 1) - 365
  {
    MonthTable(false);
    MonthTable(true);
    YearStep(year);
  }

  /** Zeller's month term and the days before the month differ by whole weeks. */
  lemma MonthShift(mon: int, shift: int, d: int) returns (k: int)
    requires 1 <= mon <= 12 && shift == (26 * ((mon + 9) % 12 + 1) - 2) / 10
    requires d == if mon <= 2 then MonthStart(false, mon - 1) else MonthStart(false, mon - 1) - 365
    ensures d - shift == 7 * k
  {
    MonthTable(false);
    k := (d - shift) / 7;
  }

  lemma CenturyYear(y: int, c: int, n: int)
    requires c == y / 100 && n == y % 100
    ensures YearStart(y + 1) == 36524 * c + 365 * n + n / 4 + c / 4 - 719162
  {
    YearClosedForm(y + 1);
    assert y == 100 * c + n;
    DivModUnique(y, 4, 25 * c + n / 4, n % 4);
    DivModUnique(y, 400, c / 4, (c % 4) * 100 + n);
  }

  /** C's remainder, corrected when negative, is the same for numbers that differ by whole weeks. */
  lemma FixedRemainder(x: int, day: int, k: int)
    requires day == x + 7 * k
    ensures (var r := CRem(x, 7); if r < 0 then r + 7 else r) == day % 7
  {
    var q, r := x / 7, x % 7;
    DivModUnique(day, 7, q + k, r);
  }

  // ---------------------------------------------------------------- transtime

  /** The instant of a rule in a year, from the day of the year it falls on; the sums are 32-bit ones. */
  function Instant(janfirst: int, yday: int, r: Rule, offset: int): int {
    Wrap(janfirst + yday * SECS_PER_DAY + r.time + offset)
  }

  /** transtime lands on the day the rule names, in every year from 1 on. */
  method TransTime(janfirst: int, year: int, r: Rule, offset: int) returns (value: int, ghost yday: int)
    requires ValidRule(r) && year >= 1
    ensures RuleYday(r, year, yday)
    ensures value == Instant(janfirst, yday, r, offset)
  {
    hide Wrap, IsNthDay, MonthStart, IsLeap, YearStart;
    value, yday := RuleDay(janfirst, year, r);
    var midnight := janfirst + yday * SECS_PER_DAY;
    WrapAdd(value, r.time);
    WrapAdd(midnight, r.time);
    WrapAdd(value + r.time, offset);
    WrapAdd(midnight + r.time, offset);
    value := Wrap(Wrap(value + r.time) + offset);
  }

  /** Midnight of the day of a rule: the switch of transtime. */
  method RuleDay(janfirst: int, year: int, r: Rule) returns (value: int, ghost yday: int)
    requires ValidRule(r) && year >= 1
    ensures RuleYday(r, year, yday)
    ensures Wrap(value) == Wrap(janfirst + yday * SECS_PER_DAY)
  {
    hide Wrap, IsNthDay, MonthStart, IsLeap, YearStart;
    var leap := IsLeap(year);
    match r.kind {
      case JulianDay =>
        yday := r.day - 1;
        value := Wrap(janfirst + (r.day - 1) * SECS_PER_DAY);
        WrapAdd(janfirst + yday * SECS_PER_DAY, 0);
        if leap && r.day >= 60 {
          WrapAdd(janfirst + yday * SECS_PER_DAY, SECS_PER_DAY);
          value := Wrap(value + SECS_PER_DAY);
          yday := yday + 1;
        }
      case DayOfYear =>
        yday := r.day;
        value := Wrap(janfirst + r.day * SECS_PER_DAY);
      case MonthNthDayOfWeek =>
        value := MonthFirst(janfirst, leap, r.mon);
        var d := NthDay(year, r);
        var before := MonthStart(leap, r.mon - 1);
        yday := before + d;
        WrapAdd(value, d * SECS_PER_DAY);
        WrapAdd(janfirst + before * SECS_PER_DAY, d * SECS_PER_DAY);
        value := Wrap(value + d * SECS_PER_DAY);
    }
  }

  method MonthFirst(janfirst: int, leap: bool, mon: int) returns (value: int)
    requires 1 <= mon <= 12
    ensures Wrap(value) == Wrap(janfirst + MonthStart(leap, mon - 1) * SECS_PER_DAY)
  {
    value := janfirst;
    var i := 0;
    while i < mon - 1
      invariant 0 <= i <= mon - 1
      invariant Wrap(value) == Wrap(janfirst + MonthStart(leap, i) * SECS_PER_DAY)
    {
      WrapAdd(value, MonthLength(leap, i) * SECS_PER_DAY);
      WrapAdd(janfirst + MonthStart(leap, i) * SECS_PER_DAY, MonthLength(leap, i) * SECS_PER_DAY);
      value := Wrap(value + MonthLength(leap, i) * SECS_PER_DAY);
      i := i + 1;
    }
  }

  /** The day of the month of an Mm.n.d rule: the first such weekday, then whole weeks while they fit. */
  method NthDay(year: int, r: Rule) returns (d: int)
    requires ValidRule(r) && r.kind == MonthNthDayOfWeek && year >= 1
    ensures IsNthDay(Weekday(DayNumber(year, r.mon - 1, 1)), MonthLength(IsLeap(year), r.mon - 1), r.week, r.day, d)
  {
    var dow := ZellerDow(year, r.mon);
    ZellerAgrees(year, r.mon);
    var length := MonthLength(IsLeap(year), r.mon - 1);
    d := r.day - dow;
    if d < 0 {
      d := d + 7;
    }
    FirstHit(dow, r.day, d);
    var i := 1;
    while i < r.week
      invariant 1 <= i <= r.week
      invariant 0 <= d < length && (dow + d) % 7 == r.day && CountDays(dow, r.day, d) == i - 1
    {
      WeekAhead(dow, r.day, d);
      if d + 7 >= length {
        CountRest(dow, r.day, d, length);
        break;
      }
      d := d + 7;
      i := i + 1;
    }
  }

  lemma FirstHit(dow: int, target: int, d: int)
    requires 0 <= dow < 7 && 0 <= target < 7
    requires d == if target < dow then target - dow + 7 else target - dow
    ensures 0 <= d < 7 && (dow + d) % 7 == target && CountDays(dow, target, d) == 0
  {
    NoneBefore(dow, target, d, d);
  }

  lemma {:induction false} NoneBefore(dow: int, target: int, d: int, n: nat)
    requires 0 <= dow < 7 && 0 <= target < 7 && n <= d < 7 && (dow + d) % 7 == target
    ensures CountDays(dow, target, n) == 0
  {
    if n > 0 {
      NoneBefore(dow, target, d, n - 1);
    }
  }

  /** Between a hit and the next week there is no other. */
  lemma WeekAhead(dow: int, target: int, d: nat)
    requires (dow + d) % 7 == target
    ensures (dow + d + 7) % 7 == target
    ensures CountDays(dow, target, d + 7) == CountDays(dow, target, d) + 1
    ensures forall n :: d < n <= d + 7 ==> CountDays(dow, target, n) == CountDays(dow, target, d) + 1
  {
    var c := CountDays(dow, target, d);
    assert CountDays(dow, target, d + 1) == c + 1;
    assert CountDays(dow, target, d + 2) == c + 1;
    assert CountDays(dow, target, d + 3) == c + 1;
    assert CountDays(dow, target, d + 4) == c + 1;
    assert CountDays(dow, target, d + 5) == c + 1;
    assert CountDays(dow, target, d + 6) == c + 1;
    assert CountDays(dow, target, d + 7) == c + 1;
  }

  lemma CountRest(dow: int, target: int, d: nat, length: nat)
    requires (dow + d) % 7 == target && d < length <= d + 7
    ensures CountDays(dow, target, length) == CountDays(dow, target, d) + 1
  {
    WeekAhead(dow, target, d);
  }

  // ---------------------------------------------------------------- the table of tzparse

  const LAST_YEAR := 2037

  /** The day of the year a rule falls on. */
  ghost function YdayOf(r: Rule, year: int): (yday: int)
    requires ValidRule(r) && year >= 1
    ensures RuleYday(r, year, yday)
  {
    RuleYdayExists(r, year);
    var yday :| RuleYday(r, year, yday);
    yday
  }

  lemma RuleYdayUnique(r: Rule, year: int, d: int, e: int)
    requires ValidRule(r) && RuleYday(r, year, d) && RuleYday(r, year, e)
    ensures d == e
  {
    if r.kind == MonthNthDayOfWeek {
      var first := Weekday(DayNumber(year, r.mon - 1, 1));
      var before := MonthStart(IsLeap(year), r.mon - 1);
      NthDayUnique(first, MonthLength(IsLeap(year), r.mon - 1), r.week, r.day, d - before, e - before);
    }
  }

  lemma RuleYdayExists(r: Rule, year: int)
    requires ValidRule(r)
    ensures exists yday :: RuleYday(r, year, yday)
  {
    match r.kind {
      case JulianDay =>
        assert RuleYday(r, year, r.day - 1 + (if IsLeap(year) && r.day >= 60 then 1 else 0));
      case DayOfYear =>
        assert RuleYday(r, year, r.day);
      case MonthNthDayOfWeek =>
        var first := Weekday(DayNumber(year, r.mon - 1, 1));
        var d := NthDayExists(first, MonthLength(IsLeap(year), r.mon - 1), r.day, r.week);
        assert RuleYday(r, year, MonthStart(IsLeap(year), r.mon - 1) + d);
    }
  }

  lemma {:induction false} NthDayExists(first: int, length: nat, target: int, week: int) returns (d: int)
    requires 0 <= first < 7 && 0 <= target < 7 && length >= 28 && week >= 1
    ensures IsNthDay(first, length, week, target, d)
    decreases week
  {
    if week == 1 {
      d := if target < first then target - first + 7 else target - first;
      FirstHit(first, target, d);
    } else {
      d := NthDayExists(first, length, target, week - 1);
      if CountDays(first, target, d) == week - 2 {
        WeekAhead(first, target, d);
        if d + 7 < length {
          d := d + 7;
        } else {
          CountRest(first, target, d, length);
        }
      }
    }
  }

  /** The transitions of one year: the rules' days, at their times, with the offset in force before each. */
  ghost function StartOf(start: Rule, stdoffset: int, year: int): int
    requires ValidRule(start) && year >= 1
  {
    Instant(YearStart(year) * SECS_PER_DAY, YdayOf(start, year), start, stdoffset)
  }

  datatype RulePair = RulePair(start: Rule, end: Rule, stdoffset: int, dstoffset: int)

  predicate ValidPair(p: RulePair) {
    ValidRule(p.start) && ValidRule(p.end)
  }

  /** When daylight time starts and ends in a year. */
  ghost function DstStart(p: RulePair, year: int): int
    requires ValidPair(p) && year >= 1
  {
    StartOf(p.start, p.stdoffset, year)
  }

  ghost function DstEnd(p: RulePair, year: int): int
    requires ValidPair(p) && year >= 1
  {
    StartOf(p.end, p.dstoffset, year)
  }

  /** Entries 2k and 2k + 1 are the transitions of year 1970 + k in time order; type 0 is daylight time. */
  ghost predicate YearEntries(ats: seq<int>, types: seq<int>, p: RulePair, k: nat)
    requires ValidPair(p) && 2 * k + 1 < |ats| == |types|
  {
    var s, e := DstStart(p, EPOCH_YEAR + k), DstEnd(p, EPOCH_YEAR + k);
    if s > e then ats[2 * k] == e && types[2 * k] == 1 && ats[2 * k + 1] == s && types[2 * k + 1] == 0
    else ats[2 * k] == s && types[2 * k] == 0 && ats[2 * k + 1] == e && types[2 * k + 1] == 1
  }

  ghost predicate RuleTable(ats: seq<int>, types: seq<int>, p: RulePair, years: nat)
    requires ValidPair(p)
  {
    && |ats| == |types| && 2 * years <= |ats|
    && forall k: nat | k < years :: YearEntries(ats, types, p, k)
  }

  lemma TableKept(ats: seq<int>, types: seq<int>, ats': seq<int>, types': seq<int>, p: RulePair, years: nat)
    requires ValidPair(p) && RuleTable(ats, types, p, years)
    requires |ats'| == |types'| && 2 * years <= |ats'|
    requires forall i :: 0 <= i < 2 * years ==> ats'[i] == ats[i] && types'[i] == types[i]
    ensures RuleTable(ats', types', p, years)
  {
    forall k: nat | k < years
      ensures YearEntries(ats', types', p, k)
    {
      assert YearEntries(ats, types, p, k);
    }
  }

  const YEARS := LAST_YEAR - EPOCH_YEAR + 1

  /** The explicit-rule branch of tzparse. */
  method TzParseRules(p: RulePair, stdlen: int, sp: State)
    requires ValidPair(p) && sp.Shape()
    requires 0 <= sp.leapcnt <= TZ_MAX_LEAPS && 0 <= sp.charcnt <= TZ_MAX_CHARS + 1
    modifies sp`typecnt, sp`timecnt, sp.ats, sp.types, sp.ttis
    ensures sp.Loaded() && sp.timecnt == 2 * YEARS && sp.typecnt == 2
    ensures RuleTable(sp.View().ats, sp.View().types, p, YEARS)
    ensures sp.View().ttis == [TtInfo(Wrap(-p.dstoffset), 1, stdlen + 1, old(sp.ttis[0].ttisstd)),
                               TtInfo(Wrap(-p.stdoffset), 0, 0, old(sp.ttis[1].ttisstd))]
    ensures sp.View().leaps == old(sp.lsis[..sp.leapcnt])
  {
    sp.typecnt := 2;
    sp.timecnt := 2 * YEARS;
    sp.ttis[0] := sp.ttis[0].(gmtoff := Wrap(-p.dstoffset), isdst := 1, abbrind := stdlen + 1);
    sp.ttis[1] := sp.ttis[1].(gmtoff := Wrap(-p.stdoffset), isdst := 0, abbrind := 0);
    FillTable(p, sp.ats, sp.types);
    TableKept(sp.ats[..], sp.types[..], sp.View().ats, sp.View().types, p, YEARS);
  }

  method FillTable(p: RulePair, ats: array<int>, types: array<int>)
    requires ValidPair(p) && ats != types && ats.Length == types.Length == TZ_MAX_TIMES
    modifies ats, types
    ensures RuleTable(ats[..], types[..], p, YEARS)
    ensures forall i :: 0 <= i < 2 * YEARS ==> 0 <= types[i] < 2
  {
    var janfirst, year := 0, EPOCH_YEAR;
    while year <= LAST_YEAR
      invariant EPOCH_YEAR <= year <= LAST_YEAR + 1
      invariant janfirst == YearStart(year) * SECS_PER_DAY
      invariant RuleTable(ats[..], types[..], p, year - EPOCH_YEAR)
      invariant forall i :: 0 <= i < 2 * (year - EPOCH_YEAR) ==> 0 <= types[i] < 2
    {
      FillYear(janfirst, year, p, ats, types);
      JanfirstStep(year);
      janfirst := Wrap(janfirst + YearLength(year) * SECS_PER_DAY);
      year := year + 1;
    }
  }

  /** One turn of the loop: the two transitions of a year, the earlier first. */
  method FillYear(janfirst: int, year: int, p: RulePair, ats: array<int>, types: array<int>)
    requires ValidPair(p) && ats != types && ats.Length == types.Length == TZ_MAX_TIMES
    requires EPOCH_YEAR <= year <= LAST_YEAR && janfirst == YearStart(year) * SECS_PER_DAY
    requires RuleTable(ats[..], types[..], p, year - EPOCH_YEAR)
    modifies ats, types
    ensures RuleTable(ats[..], types[..], p, year - EPOCH_YEAR + 1)
    ensures forall i :: 0 <= i < 2 * (year - EPOCH_YEAR) ==> types[i] == old(types[i])
    ensures forall i :: 2 * (year - EPOCH_YEAR) <= i < 2 * (year - EPOCH_YEAR) + 2 ==> 0 <= types[i] < 2
  {
    hide RuleYday, Instant;
    ghost var k := year - EPOCH_YEAR;
    var starttime, endtime;
    ghost var d, e;
    starttime, d := TransTime(janfirst, year, p.start, p.stdoffset);
    endtime, e := TransTime(janfirst, year, p.end, p.dstoffset);
    RuleYdayUnique(p.start, year, d, YdayOf(p.start, year));
    RuleYdayUnique(p.end, year, e, YdayOf(p.end, year));
    var i := 2 * (year - EPOCH_YEAR);
    if starttime > endtime {
      ats[i], types[i] := endtime, 1;
      ats[i + 1], types[i + 1] := starttime, 0;
    } else {
      ats[i], types[i] := starttime, 0;
      ats[i + 1], types[i + 1] := endtime, 1;
    }
    TableKept(old(ats[..]), old(types[..]), ats[..], types[..], p, k);
    assert YearEntries(ats[..], types[..], p, k);
  }

  /** 1 January of every year to 2038 is a time_t. */
  lemma JanfirstStep(year: int)
    requires EPOCH_YEAR <= year <= LAST_YEAR
    ensures var next := YearStart(year) * SECS_PER_DAY + YearLength(year) * SECS_PER_DAY;
            next == YearStart(year + 1) * SECS_PER_DAY && IsLong(next)
  {
    YearStep(year);
    YearClosedForm(LAST_YEAR + 1);
    YearMono(year + 1, LAST_YEAR + 1);
  }

  // ---------------------------------------------------------------- looking the table up

  function YearSecond(year: int): int {
    YearStart(year) * SECS_PER_DAY
  }

  /** Both transitions of every year fall inside that year. */
  ghost predicate InOwnYear(p: RulePair)
    requires ValidPair(p)
  {
    forall year | EPOCH_YEAR <= year <= LAST_YEAR ::
      && YearSecond(year) <= DstStart(p, year) < YearSecond(year + 1)
      && YearSecond(year) <= DstEnd(p, year) < YearSecond(year + 1)
  }

  /** The POSIX reading of the rules: between start and end, or outside them when the start comes later. */
  ghost predicate InDst(p: RulePair, t: int, year: int)
    requires ValidPair(p) && year >= 1
  {
    var s, e := DstStart(p, year), DstEnd(p, year);
    if s > e then t < e || t >= s else s <= t < e
  }

  /** Entry i of the table falls inside year 1970 + i / 2. */
  lemma EntryYear(ats: seq<int>, types: seq<int>, p: RulePair, i: nat)
    requires ValidPair(p) && RuleTable(ats, types, p, YEARS) && InOwnYear(p) && i < 2 * YEARS
    ensures YearSecond(EPOCH_YEAR + i / 2) <= ats[i] < YearSecond(EPOCH_YEAR + i / 2 + 1)
  {
    hide DstStart, DstEnd, YearSecond;
    var k := i / 2;
    assert YearEntries(ats, types, p, k);
    assert i == 2 * k || i == 2 * k + 1;
    var year := EPOCH_YEAR + k;
    assert YearSecond(year) <= DstStart(p, year) < YearSecond(year + 1);
  }

  lemma YearSecondMono(y: int, z: int)
    requires y <= z
    ensures YearSecond(y) <= YearSecond(z)
  {
    YearMono(y, z);
  }

  /** When the transitions fall inside their own years the table is in time order. */
  lemma TableSorted(ats: seq<int>, types: seq<int>, p: RulePair, i: nat, j: nat)
    requires ValidPair(p) && RuleTable(ats, types, p, YEARS) && InOwnYear(p)
    requires i <= j < 2 * YEARS
    ensures ats[i] <= ats[j]
  {
    hide DstStart, DstEnd, YearSecond, InOwnYear;
    if i / 2 == j / 2 {
      assert YearEntries(ats, types, p, i / 2);
      assert i == 2 * (i / 2) || i == 2 * (i / 2) + 1;
      assert j == 2 * (j / 2) || j == 2 * (j / 2) + 1;
    } else {
      EntryYear(ats, types, p, i);
      EntryYear(ats, types, p, j);
      YearSecondMono(EPOCH_YEAR + i / 2 + 1, EPOCH_YEAR + j / 2);
    }
  }

  /** The entry localsub picks is the last transition t has reached; for a t in a year it belongs to that
      year, or is the last of the year before. */
  lemma PickedEntry(z: Zone, p: RulePair, t: int, year: int) returns (k: nat)
    requires GoodZone(z) && ValidPair(p) && |z.ats| == 2 * YEARS && RuleTable(z.ats, z.types, p, YEARS) && InOwnYear(p)
    requires EPOCH_YEAR <= year <= LAST_YEAR && YearSecond(year) <= t < YearSecond(year + 1)
    requires t >= z.ats[0]
    ensures k < |z.ats| && TypeAt(z, t) == z.types[k]
    ensures z.ats[k] <= t && (k + 1 < |z.ats| ==> t < z.ats[k + 1])
    ensures 2 * (year - EPOCH_YEAR) - 1 <= k <= 2 * (year - EPOCH_YEAR) + 1
  {
    hide YearSecond, DstStart, DstEnd, InOwnYear, RuleTable;
    k := FirstAfter(z.ats, t, 1) - 1;
    var b := year - EPOCH_YEAR;
    if k < 2 * b - 1 {
      EntryYear(z.ats, z.types, p, k + 1);
      YearSecondMono(EPOCH_YEAR + (k + 1) / 2 + 1, year);
    }
    if k > 2 * b + 1 {
      EntryYear(z.ats, z.types, p, k);
      YearSecondMono(year + 1, EPOCH_YEAR + k / 2);
    }
  }

  /** Daylight time starts later in the year than it ends. */
  ghost predicate StartLater(p: RulePair, year: int)
    requires ValidPair(p) && year >= 1
  {
    DstStart(p, year) > DstEnd(p, year)
  }

  /** t precedes both transitions of its year, and the year before had them in the other order. */
  ghost predicate OrderFlipped(p: RulePair, t: int, year: int)
    requires ValidPair(p) && year >= 2
  {
    && year > EPOCH_YEAR && t < DstStart(p, year) && t < DstEnd(p, year)
    && StartLater(p, year - 1) != StartLater(p, year)
  }

  /** From the first transition to the end of 2037, localsub picks daylight time as the rules say, except
      before the first transition of a year whose transitions changed order since the year before. */
  lemma LocalSubFollowsRules(z: Zone, p: RulePair, t: int)
    requires GoodZone(z) && ValidPair(p) && |z.ats| == 2 * YEARS && RuleTable(z.ats, z.types, p, YEARS) && InOwnYear(p)
    requires z.ats[0] <= t < YearSecond(LAST_YEAR + 1)
    ensures EPOCH_YEAR <= YearOf(t / SECS_PER_DAY) <= LAST_YEAR
    ensures var year := YearOf(t / SECS_PER_DAY);
            TypeAt(z, t) == (if InDst(p, t, year) then 0 else 1) <==> !OrderFlipped(p, t, year)
  {
    hide YearSecond, DstStart, DstEnd, TypeAt, InDst, OrderFlipped;
    var year := YearOf(t / SECS_PER_DAY);
    EntryYear(z.ats, z.types, p, 0);
    YearBounds(t, year);
    var k := PickedEntry(z, p, t, year);
    PickedType(z, p, t, year, k);
  }

  lemma PickedType(z: Zone, p: RulePair, t: int, year: int, k: nat)
    requires GoodZone(z) && ValidPair(p) && |z.ats| == 2 * YEARS && RuleTable(z.ats, z.types, p, YEARS)
    requires EPOCH_YEAR <= year <= LAST_YEAR && k < |z.ats|
    requires z.ats[k] <= t && (k + 1 < |z.ats| ==> t < z.ats[k + 1])
    requires 2 * (year - EPOCH_YEAR) - 1 <= k <= 2 * (year - EPOCH_YEAR) + 1
    ensures z.types[k] == (if InDst(p, t, year) then 0 else 1) <==> !OrderFlipped(p, t, year)
  {
    hide DstStart, DstEnd;
    var b := year - EPOCH_YEAR;
    assert YearEntries(z.ats, z.types, p, b);
    if k == 2 * b - 1 {
      assert YearEntries(z.ats, z.types, p, b - 1);
      assert z.ats[k + 1] == z.ats[2 * b];
    }
  }

  lemma YearBounds(t: int, year: int)
    requires year == YearOf(t / SECS_PER_DAY)
    requires YearSecond(EPOCH_YEAR) <= t < YearSecond(LAST_YEAR + 1)
    ensures EPOCH_YEAR <= year <= LAST_YEAR
    ensures YearSecond(year) <= t < YearSecond(year + 1)
  {
    var day := t / SECS_PER_DAY;
    assert t == day * SECS_PER_DAY + t % SECS_PER_DAY;
    if year < EPOCH_YEAR {
      YearSecondMono(year + 1, EPOCH_YEAR);
    } else if year > LAST_YEAR {
      YearSecondMono(LAST_YEAR + 1, year);
    }
  }

  /** The kind of time and the offset localsub stores up to the end of 2037: standard time before the first transition,
      and what the rules say after it. */
  lemma LocalSubIsDst(z: Zone, p: RulePair, below: int, t: int)
    requires GoodZone(z) && ValidPair(p) && |z.ats| == 2 * YEARS && RuleTable(z.ats, z.types, p, YEARS) && InOwnYear(p)
    requires |z.ttis| == 2 && z.ttis[0].isdst == 1 && z.ttis[1].isdst == 0
    requires t < YearSecond(LAST_YEAR + 1)
    ensures var tm := LocalTm(z, below, t);
            && tm.gmtoff == z.ttis[1 - tm.isdst].gmtoff && 0 <= tm.isdst <= 1
            && (t < z.ats[0] ==> tm.isdst == 0)
    ensures z.ats[0] <= t ==> YearOf(t / SECS_PER_DAY) >= EPOCH_YEAR
    ensures z.ats[0] <= t && !OrderFlipped(p, t, YearOf(t / SECS_PER_DAY)) ==>
      (LocalTm(z, below, t).isdst == 1 <==> InDst(p, t, YearOf(t / SECS_PER_DAY)))
  {
    hide LocalTm, InDst, OrderFlipped, TypeAt, RuleTable, InOwnYear;
    LocalTmMeaning(z, below, t);
    if t < z.ats[0] {
      TypeAtMeaning(z, t);
    } else {
      LocalSubFollowsRules(z, p, t);
    }
  }

  /** A rule's time is wall clock time: the start falls on it in standard time, the end in daylight time, each in the
      offset that the table gives that type. */
  lemma RulesInWallTime(p: RulePair, year: int)
    requires ValidPair(p) && SmallShift(p.start, p.stdoffset) && SmallShift(p.end, p.dstoffset)
    requires EPOCH_YEAR <= year <= LAST_YEAR
    ensures DstStart(p, year) + -p.stdoffset == YearSecond(year) + YdayOf(p.start, year) * SECS_PER_DAY + p.start.time
    ensures DstEnd(p, year) + -p.dstoffset == YearSecond(year) + YdayOf(p.end, year) * SECS_PER_DAY + p.end.time
  {
    hide StartOf;
    StartExact(p.start, p.stdoffset, year);
    StartExact(p.end, p.dstoffset, year);
  }

  // ---------------------------------------------------------------- when the transitions stay in their years

  /** The earliest and the latest day of a common year that a rule can name; in a leap year both may be a day later. */
  function FirstDay(r: Rule): int
    requires ValidRule(r)
  {
    match r.kind
    case JulianDay => r.day - 1
    case DayOfYear => r.day
    case MonthNthDayOfWeek =>
      MonthStart(false, r.mon - 1) + (if r.week <= 4 then 7 * (r.week - 1) else MonthLength(false, r.mon - 1) - 7)
  }

  function LastDay(r: Rule): int
    requires ValidRule(r)
  {
    if r.kind == MonthNthDayOfWeek then FirstDay(r) + 6 else FirstDay(r)
  }

  /** The times and offsets that getsecs reads stay below 25 hours each. */
  predicate SmallShift(r: Rule, offset: int) {
    -3 * SECS_PER_DAY <= r.time + offset <= 3 * SECS_PER_DAY
  }

  /** Neither the earliest nor the latest day is shifted out of a common year. */
  predicate StaysInside(r: Rule, offset: int)
    requires ValidRule(r)
  {
    && 0 <= FirstDay(r) * SECS_PER_DAY + r.time + offset
    && LastDay(r) * SECS_PER_DAY + r.time + offset < 365 * SECS_PER_DAY
  }

  lemma {:induction false} HitCount(first: int, target: int, f: int, k: nat)
    requires 0 <= first < 7 && 0 <= target < 7 && 0 <= f < 7 && (first + f) % 7 == target
    ensures (first + f + 7 * k) % 7 == target && CountDays(first, target, f + 7 * k) == k
  {
    if k == 0 {
      NoneBefore(first, target, f, f);
    } else {
      HitCount(first, target, f, k - 1);
      WeekAhead(first, target, f + 7 * (k - 1));
    }
  }

  /** The n-th week day when the first one is on day f, or the last one if that is past the month. */
  function NthOffset(f: int, week: int, length: int): int {
    f + 7 * (if f + 7 * (week - 1) < length then week - 1 else week - 2)
  }

  lemma NthDayAt(first: int, length: nat, target: int, week: int, f: int)
    requires 0 <= first < 7 && 0 <= target < 7 && 0 <= f < 7 && (first + f) % 7 == target
    requires 28 <= length <= 31 && 1 <= week <= 5
    ensures IsNthDay(first, length, week, target, NthOffset(f, week, length))
  {
    var d := NthOffset(f, week, length);
    if f + 7 * (week - 1) < length {
      HitCount(first, target, f, week - 1);
    } else {
      HitCount(first, target, f, week - 2);
      CountRest(first, target, d, length);
    }
  }

  /** Where an Mm.n.d rule falls, given how many days after the first of the month its week day comes. */
  lemma MonthYday(r: Rule, year: int, f: int)
    requires ValidRule(r) && r.kind == MonthNthDayOfWeek && year >= 1
    requires 0 <= f < 7 && (Weekday(DayNumber(year, r.mon - 1, 1)) + f) % 7 == r.day
    ensures var leap := IsLeap(year);
            YdayOf(r, year) == MonthStart(leap, r.mon - 1) + NthOffset(f, r.week, MonthLength(leap, r.mon - 1))
  {
    hide CountDays, YdayOf, IsNthDay, NthOffset, MonthStart, Weekday, DayNumber, IsLeap;
    WeekdayRange(DayNumber(year, r.mon - 1, 1));
    var leap := IsLeap(year);
    var length := MonthLength(leap, r.mon - 1);
    NthDayAt(Weekday(DayNumber(year, r.mon - 1, 1)), length, r.day, r.week, f);
    RuleYdayUnique(r, year, YdayOf(r, year), MonthStart(leap, r.mon - 1) + NthOffset(f, r.week, length));
  }

  lemma WeekdayRange(day: int)
    ensures 0 <= Weekday(day) < 7
  {
  }

  /** A leap day makes no rule earlier, and none later by more than a day. */
  lemma OffsetBounds(r: Rule, leap: bool, f: int)
    requires ValidRule(r) && r.kind == MonthNthDayOfWeek && 0 <= f < 7
    ensures var d := MonthStart(leap, r.mon - 1) + NthOffset(f, r.week, MonthLength(leap, r.mon - 1));
            FirstDay(r) <= d <= LastDay(r) + (if leap then 1 else 0)
  {
    hide MonthStart;
    MonthTable(true);
    MonthTable(false);
  }

  lemma YdayBounds(r: Rule, year: int)
    requires ValidRule(r) && year >= 1
    ensures FirstDay(r) <= YdayOf(r, year) <= LastDay(r) + YearLength(year) - 365
  {
    if r.kind == MonthNthDayOfWeek {
      hide RuleYday, YdayOf, DayNumber, Weekday, NthOffset, MonthStart, MonthLength, FirstDay, LastDay, IsLeap;
      var first := Weekday(DayNumber(year, r.mon - 1, 1));
      WeekdayRange(DayNumber(year, r.mon - 1, 1));
      var f := (r.day - first) % 7;
      assert (first + f) % 7 == r.day;
      MonthYday(r, year, f);
      OffsetBounds(r, IsLeap(year), f);
    }
  }

  /** From 1970 on common years soon start on every day of the week. */
  lemma CommonYear(wday: int) returns (year: int)
    requires 0 <= wday < 7
    ensures 1970 <= year <= 1978 && !IsLeap(year) && Weekday(YearStart(year)) == wday
  {
    year := [1978, 1973, 1974, 1975, 1970, 1971, 1977][wday];
    hide YearStart;
    YearClosedForm(year);
  }

  /** The earliest day or the latest day is the rule's in some common year. */
  lemma DayAttained(r: Rule, latest: bool) returns (year: int)
    requires ValidRule(r)
    ensures 1970 <= year <= 1978 && !IsLeap(year)
    ensures YdayOf(r, year) == if latest then LastDay(r) else FirstDay(r)
  {
    if r.kind == MonthNthDayOfWeek {
      var before, length := MonthStart(false, r.mon - 1), MonthLength(false, r.mon - 1);
      var f := ExtremeOffset(r.week, length, latest);
      year := CommonYear((r.day - f - before) % 7);
      WeekdayPlaced(YearStart(year), before, f, r.day);
      hide YdayOf, YearStart, MonthStart, MonthLength, Weekday, IsLeap, NthOffset;
      MonthYday(r, year, f);
    } else {
      year := 1970;
    }
  }

  /** How late in the first week the week day has to come for the earliest or the latest day. */
  lemma ExtremeOffset(week: int, length: int, latest: bool) returns (f: int)
    requires 28 <= length <= 31 && 1 <= week <= 5
    ensures 0 <= f < 7
    ensures NthOffset(f, week, length) == (if week <= 4 then 7 * (week - 1) else length - 7) + (if latest then 6 else 0)
  {
    f := if week <= 4 then (if latest then 6 else 0) else (if latest then length - 1 else length) % 7;
  }

  lemma WeekdayPlaced(start: int, before: int, f: int, target: int)
    requires 0 <= target < 7 && Weekday(start) == (target - f - before) % 7
    ensures (Weekday(start + before) + f) % 7 == target
  {
  }

  /** With such a shift the 32-bit sums of transtime are exact. */
  lemma StartExact(r: Rule, offset: int, year: int)
    requires ValidRule(r) && SmallShift(r, offset) && EPOCH_YEAR <= year <= LAST_YEAR
    ensures StartOf(r, offset, year) == YearSecond(year) + YdayOf(r, year) * SECS_PER_DAY + r.time + offset
    ensures YearSecond(year + 1) == YearSecond(year) + YearLength(year) * SECS_PER_DAY
  {
    hide YdayOf, FirstDay;
    YdayBounds(r, year);
    FewDays(r);
    YearStep(year);
    YearMono(EPOCH_YEAR, year);
    YearMono(year, LAST_YEAR);
    YearClosedForm(LAST_YEAR);
    hide YearStart;
  }

  lemma FewDays(r: Rule)
    requires ValidRule(r)
    ensures 0 <= FirstDay(r) <= LastDay(r) <= 365
  {
    MonthTable(false);
  }

  /** A rule's transition falls inside its own year in every year of the table if and only if neither extreme day is
      shifted out of a common year. */
  lemma InsideYear(r: Rule, offset: int)
    requires ValidRule(r) && SmallShift(r, offset)
    ensures StaysInside(r, offset) <==> forall year | EPOCH_YEAR <= year <= LAST_YEAR ::
      YearSecond(year) <= StartOf(r, offset, year) < YearSecond(year + 1)
  {
    hide YdayOf, FirstDay, StartOf, YearSecond, LastDay;
    if StaysInside(r, offset) {
      forall year | EPOCH_YEAR <= year <= LAST_YEAR
        ensures YearSecond(year) <= StartOf(r, offset, year) < YearSecond(year + 1)
      {
        YdayBounds(r, year);
        StartExact(r, offset, year);
      }
    }
    var y := DayAttained(r, false);
    StartExact(r, offset, y);
    var z := DayAttained(r, true);
    StartExact(r, offset, z);
  }

  /** Every transition falls inside its own year if and only if both rules stay inside a common year. */
  lemma StaysInOwnYear(p: RulePair)
    requires ValidPair(p) && SmallShift(p.start, p.stdoffset) && SmallShift(p.end, p.dstoffset)
    ensures InOwnYear(p) <==> StaysInside(p.start, p.stdoffset) && StaysInside(p.end, p.dstoffset)
  {
    hide StaysInside, StartOf, YearSecond;
    InsideYear(p.start, p.stdoffset);
    InsideYear(p.end, p.dstoffset);
    if InOwnYear(p) {
      forall year | EPOCH_YEAR <= year <= LAST_YEAR
        ensures YearSecond(year) <= StartOf(p.start, p.stdoffset, year) < YearSecond(year + 1)
        ensures YearSecond(year) <= StartOf(p.end, p.dstoffset, year) < YearSecond(year + 1)
      {
        assert YearSecond(year) <= DstStart(p, year) && YearSecond(year) <= DstEnd(p, year);
      }
    }
  }

  /** Rules on 10 April and on the second Sunday of April: the Sunday came after in 1971 and before in 1972,
      so on 1 January 1972 the table still shows standard time although the rules of 1972 say daylight time. */
  lemma FlippedExample(p: RulePair)
    requires p == RulePair(Rule(JulianDay, 100, 0, 0, 7200), Rule(MonthNthDayOfWeek, 0, 2, 4, 7200), 0, 0)
    ensures ValidPair(p) && InOwnYear(p)
    ensures OrderFlipped(p, YearSecond(1972), 1972)
  {
    hide StartOf, YdayOf, RuleYday, YearStart, InOwnYear;
    StaysInOwnYear(p);
    var start, end := p.start, p.end;
    assert YearStart(1971) == 365 && YearStart(1972) == 730 by {
      YearClosedForm(1971);
      YearClosedForm(1972);
    }
    TenthOfApril(start, 1971);
    TenthOfApril(start, 1972);
    SecondSunday(end, 1971, 4, 10);
    SecondSunday(end, 1972, 6, 8);
    StartExact(start, 0, 1971);
    StartExact(start, 0, 1972);
    StartExact(end, 0, 1971);
    StartExact(end, 0, 1972);
  }

  lemma TenthOfApril(r: Rule, year: int)
    requires r == Rule(JulianDay, 100, 0, 0, 7200) && year >= 1
    ensures YdayOf(r, year) == 99 + (if IsLeap(year) then 1 else 0)
  {
  }

  lemma SecondSunday(r: Rule, year: int, first: int, d: int)
    requires r == Rule(MonthNthDayOfWeek, 0, 2, 4, 7200) && year >= 1
    requires first == (EPOCH_WDAY + YearStart(year) + 90 + (if IsLeap(year) then 1 else 0)) % 7
    requires 7 <= d < 14 && (first + d) % 7 == 0
    ensures YdayOf(r, year) == 90 + (if IsLeap(year) then 1 else 0) + d
  {
    MonthTable(IsLeap(year));
    SecondHit(first, d);
    RuleYdayUnique(r, year, YdayOf(r, year), 90 + (if IsLeap(year) then 1 else 0) + d);
  }

  lemma SecondHit(first: int, d: int)
    requires 0 <= first < 7 && 7 <= d < 14 && (first + d) % 7 == 0
    ensures IsNthDay(first, 30, 2, 0, d)
  {
    NoneBefore(first, 0, d - 7, d - 7);
    WeekAhead(first, 0, d - 7);
  }
}
