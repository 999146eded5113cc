/** Plain day counting in the proleptic Gregorian calendar, from Thursday 1 January 1970: the reference
    every fast form in this project is compared with. */
module Calendar {
  import opened CInt

  const EPOCH_YEAR := 1970
  const EPOCH_WDAY := 4
  const TM_YEAR_BASE := 1900
  const SECS_PER_DAY := 86400

  predicate IsLeap(y: int) {
    (y % 4 == 0 && y % 100 != 0) || y % 400 == 0
  }

  function YearLength(y: int): int {
    if IsLeap(y) then 366 else 365
  }

  /** mon_lengths; months are numbered from 0. */
  function MonthLength(leap: bool, m: int): int
    requires 0 <= m < 12
  {
    if m == 1 then if leap then 29 else 28
    else if m == 3 || m == 5 || m == 8 || m == 10 then 30
    else 31
  }

  /** Days from the epoch to 1 January of y, counted one year at a time. */
  function YearStart(y: int): int
    decreases if y >= EPOCH_YEAR then y - EPOCH_YEAR else EPOCH_YEAR - y
  {
    if y == EPOCH_YEAR then 0
    else if y > EPOCH_YEAR then YearStart(y - 1) + YearLength(y - 1)
    else YearStart(y + 1) - YearLength(y)
  }

  /** Days from 1 January to the first of month m. */
  function MonthStart(leap: bool, m: int): int
    requires 0 <= m <= 12
  {
    if m == 0 then 0 else MonthStart(leap, m - 1) + MonthLength(leap, m - 1)
  }

  /** Days from the epoch to the given date; mday may lie outside the month. */
  function DayNumber(y: int, mon: int, mday: int): int
    requires 0 <= mon < 12
  {
    YearStart(y) + MonthStart(IsLeap(y), mon) + mday - 1
  }

  /** 0 is Sunday. */
  function Weekday(day: int): int {
    (EPOCH_WDAY + day) % 7
  }

  lemma YearStep(y: int)
    ensures YearStart(y + 1) == YearStart(y) + YearLength(y)
  {
  }

  lemma {:induction false} YearMono(y: int, z: int)
    requires y <= z
    ensures YearStart(y) + 365 * (z - y) <= YearStart(z) <= YearStart(y) + 366 * (z - y)
    decreases z - y
  {
    if y < z {
      YearMono(y, z - 1);
      YearStep(z - 1);
    }
  }

  /** Counting agrees with the closed form. */
  lemma {:induction false} YearClosedForm(y: int)
    ensures YearStart(y) == 365 * (y - 1970) + (y - 1) / 4 - (y - 1) / 100 + (y - 1) / 400 - 477
    decreases if y >= EPOCH_YEAR then y - EPOCH_YEAR else EPOCH_YEAR - y
  {
    if y > EPOCH_YEAR {
      YearClosedForm(y - 1);
      LeapStep(y - 1);
    } else if y < EPOCH_YEAR {
      YearClosedForm(y + 1);
      LeapStep(y);
    }
  }

  lemma LeapStep(y: int)
    ensures YearLength(y) == 365 + (y / 4 - (y - 1) / 4) - (y / 100 - (y - 1) / 100) + (y / 400 - (y - 1) / 400)
  {
    QuotientStep(y, 4);
    QuotientStep(y, 100);
    QuotientStep(y, 400);
    var q := y / 400;
    if y % 400 == 0 {
      DivModUnique(y, 100, 4 * q, 0);
      DivModUnique(y, 4, 100 * q, 0);
    } else if y % 100 == 0 {
      DivModUnique(y, 4, 25 * (y / 100), 0);
    }
  }

  lemma QuotientStep(y: int, b: int)
    requires b > 1
    ensures y / b - (y - 1) / b == if y % b == 0 then 1 else 0
  {
    var q, r := y / b, y % b;
    if r == 0 {
      assert y - 1 == (q - 1) * b + (b - 1);
      DivModUnique(y - 1, b, q - 1, b - 1);
    } else {
      DivModUnique(y - 1, b, q, r - 1);
    }
  }

  lemma {:induction false} MonthMono(leap: bool, m: int, n: int)
    requires 0 <= m <= n <= 12
    ensures MonthStart(leap, m) + 28 * (n - m) <= MonthStart(leap, n)
  {
    if m < n {
      MonthMono(leap, m, n - 1);
    }
  }

  /** The running totals of the month lengths. */
  lemma MonthTable(leap: bool)
    ensures var f := if leap then 1 else 0;
            && MonthStart(leap, 0) == 0 && MonthStart(leap, 1) == 31
            && MonthStart(leap, 2) == 59 + f && MonthStart(leap, 3) == 90 + f
            && MonthStart(leap, 4) == 120 + f && MonthStart(leap, 5) == 151 + f
            && MonthStart(leap, 6) == 181 + f && MonthStart(leap, 7) == 212 + f
            && MonthStart(leap, 8) == 243 + f && MonthStart(leap, 9) == 273 + f
            && MonthStart(leap, 10) == 304 + f && MonthStart(leap, 11) == 334 + f
            && MonthStart(leap, 12) == 365 + f
  {
    var f := if leap then 1 else 0;
    assert MonthStart(leap, 1) == 31;
    assert MonthStart(leap, 2) == 59 + f;
    assert MonthStart(leap, 3) == 90 + f;
    assert MonthStart(leap, 4) == 120 + f;
    assert MonthStart(leap, 5) == 151 + f;
    assert MonthStart(leap, 6) == 181 + f;
    assert MonthStart(leap, 7) == 212 + f;
    assert MonthStart(leap, 8) == 243 + f;
    assert MonthStart(leap, 9) == 273 + f;
    assert MonthStart(leap, 10) == 304 + f;
    assert MonthStart(leap, 11) == 334 + f;
  }

  lemma MonthsFillYear(y: int)
    ensures MonthStart(IsLeap(y), 12) == YearLength(y)
  {
    MonthTable(IsLeap(y));
  }

  lemma {:induction false} YearExists(d: int)
    ensures exists y :: YearStart(y) <= d < YearStart(y + 1)
    decreases if d >= 0 then d else -d
  {
    if d == 0 {
      assert YearStart(EPOCH_YEAR) == 0 && YearStart(EPOCH_YEAR + 1) == 365;
    } else if d > 0 {
      YearExists(d - 1);
      var y :| YearStart(y) <= d - 1 < YearStart(y + 1);
      YearStep(y + 1);
    } else {
      YearExists(d + 1);
      var y :| YearStart(y) <= d + 1 < YearStart(y + 1);
      YearStep(y - 1);
      assert YearStart((y - 1) + 1) == YearStart(y);
    }
  }

  lemma YearUnique(d: int, y: int, z: int)
    requires YearStart(y) <= d < YearStart(y + 1)
    requires YearStart(z) <= d < YearStart(z + 1)
    ensures y == z
  {
    if y < z {
      YearMono(y + 1, z);
    } else if z < y {
      YearMono(z + 1, y);
    }
  }

  /** The year day d falls in. */
  ghost function YearOf(d: int): (y: int)
    ensures YearStart(y) <= d < YearStart(y + 1)
  {
    YearExists(d);
    var y :| YearStart(y) <= d < YearStart(y + 1);
    y
  }

  lemma {:induction false} MonthExists(leap: bool, yday: int, n: int)
    requires 0 <= n <= 12 && 0 <= yday < MonthStart(leap, n)
    ensures exists m | 0 <= m < n :: MonthStart(leap, m) <= yday < MonthStart(leap, m + 1)
    decreases n
  {
    if yday >= MonthStart(leap, n - 1) {
      assert MonthStart(leap, n - 1) <= yday < MonthStart(leap, (n - 1) + 1);
    } else {
      MonthExists(leap, yday, n - 1);
    }
  }

  lemma MonthUnique(leap: bool, yday: int, m: int, n: int)
    requires 0 <= m < 12 && MonthStart(leap, m) <= yday < MonthStart(leap, m + 1)
    requires 0 <= n < 12 && MonthStart(leap, n) <= yday < MonthStart(leap, n + 1)
    ensures m == n
  {
    if m < n {
      MonthMono(leap, m + 1, n);
    } else if n < m {
      MonthMono(leap, n + 1, m);
    }
  }

  /** The month day `yday` of a year falls in. */
  ghost function MonthOf(y: int, yday: int): (m: int)
    requires 0 <= yday < YearLength(y)
    ensures 0 <= m < 12 && MonthStart(IsLeap(y), m) <= yday < MonthStart(IsLeap(y), m + 1)
  {
    MonthsFillYear(y);
    MonthExists(IsLeap(y), yday, 12);
    var m :| 0 <= m < 12 && MonthStart(IsLeap(y), m) <= yday < MonthStart(IsLeap(y), m + 1);
    m
  }

  /** Dates in calendar order have day numbers in the same order. */
  lemma DateOrder(y: int, m: int, d: int, y': int, m': int, d': int)
    requires 0 <= m < 12 && 1 <= d <= MonthLength(IsLeap(y), m)
    requires 0 <= m' < 12 && 1 <= d' <= MonthLength(IsLeap(y'), m')
    requires y < y' || (y == y' && (m < m' || (m == m' && d < d')))
    ensures DayNumber(y, m, d) < DayNumber(y', m', d')
  {
    hide YearStart, MonthStart, MonthLength, IsLeap;
    DayBounds(y, m, d);
    DayBounds(y', m', d');
    if y < y' {
      YearMono(y + 1, y');
    } else if m < m' {
      MonthMono(IsLeap(y), m + 1, m');
    }
  }

  /** A valid day lies in its month and in its year. */
  lemma DayBounds(y: int, m: int, d: int)
    requires 0 <= m < 12 && 1 <= d <= MonthLength(IsLeap(y), m)
    ensures YearStart(y) <= DayNumber(y, m, d) < YearStart(y + 1)
    ensures YearStart(y) + MonthStart(IsLeap(y), m) <= DayNumber(y, m, d) < YearStart(y) + MonthStart(IsLeap(y), m + 1)
  {
    hide YearStart, IsLeap;
    MonthMono(IsLeap(y), 0, m);
    MonthMono(IsLeap(y), m + 1, 12);
    MonthsFillYear(y);
    YearStep(y);
  }
}
