/** Days since 1970-01-01 for a proleptic Gregorian date, against counting the days one by one. */
module CivilDate {
  import opened Arith

  datatype Date = Date(year: int, month: nat, day: nat)

  /** Division as C does it, toward zero. */
  function Quotient(a: int, b: int): int
    requires b > 0
  {
    if a >= 0 then a / b else -((-a) / b)
  }

  predicate Leap(year: int) { (year % 4 == 0 && year % 100 != 0) || year % 400 == 0 }

  function DaysInMonth(year: int, month: nat): nat
  {
    if month < 1 || month > 12 then 0
    else if month == 2 && Leap(year) then 29
    else [31, 28, 31, 30, 31, 30, 31, 31, 30, 31, 30, 31][month - 1]
  }

  predicate Valid(d: Date) { 1 <= d.month <= 12 && 1 <= d.day <= DaysInMonth(d.year, d.month) }

  /** tamga_days_from_civil. */
  function DaysFromCivil(d: Date): int
  {
    var y := d.year - (if d.month <= 2 then 1 else 0);
    var era := Quotient(if y >= 0 then y else y - 399, 400);
    var yoe := y - era * 400;
    var doy := (153 * (if d.month > 2 then d.month - 3 else d.month + 9) + 2) / 5 + d.day - 1;
    var doe := yoe * 365 + Quotient(yoe, 4) - Quotient(yoe, 100) + doy;
    era * 146097 + doe - 719468
  }

  // ----- the closed form without eras

  /** Days before the year that starts in March of y. */
  function Before(y: int): int { 365 * y + y / 4 - y / 100 + y / 400 }

  /** Days from the first of March to the first of the month that is m months later. */
  function MonthStart(m: nat): nat { (153 * m + 2) / 5 }

  lemma EraIsFloor(y: int)
    ensures Quotient(if y >= 0 then y else y - 399, 400) == y / 400
  {
  }

  lemma YearOfEra(y: int)
    ensures var era, yoe := y / 400, y % 400; era * 146097 + yoe * 365 + yoe / 4 - yoe / 100 == Before(y)
  {
    var era, yoe := y / 400, y % 400;
    assert y == 400 * era + yoe;
    assert y / 4 == 100 * era + yoe / 4;
    assert y / 100 == 4 * era + yoe / 100;
  }

  /** For every year, negative ones included. */
  lemma ClosedForm(d: Date)
    requires 1 <= d.month <= 12
    ensures var y := d.year - (if d.month <= 2 then 1 else 0);
            DaysFromCivil(d) == Before(y) + MonthStart(Index(d.month)) + d.day - 1 - 719468
  {
    var y := d.year - (if d.month <= 2 then 1 else 0);
    EraIsFloor(y);
    YearOfEra(y);
    assert y - y / 400 * 400 == y % 400;
  }

  lemma NextYear(y: int)
    ensures Before(y + 1) - Before(y) == 365 + (if Leap(y + 1) then 1 else 0)
  {
    Steps(y, 4);
    Steps(y, 100);
    Steps(y, 400);
    Hundreds(y + 1);
    YearAdds(y, y / 4, (y + 1) / 4, y / 100, (y + 1) / 100, y / 400, (y + 1) / 400);
  }

  /** Every multiple of 400 is one of 100, and every multiple of 100 is one of 4. */
  lemma Hundreds(y: int)
    ensures y % 400 == 0 ==> y % 100 == 0
    ensures y % 100 == 0 ==> y % 4 == 0
  {
    if y % 400 == 0 {
      Multiple(y, y / 400, 4, 100);
    }
    if y % 100 == 0 {
      Multiple(y, y / 100, 25, 4);
    }
  }

  lemma Multiple(y: int, q: int, c: int, k: int)
    requires k > 0 && y == q * (c * k)
    ensures y % k == 0
  {
    MulAssoc(q, c, k);
    DivModUnique(y, q * c, 0, k);
  }

  lemma YearAdds(y: int, a: int, a': int, b: int, b': int, c: int, c': int)
    requires a == y / 4 && a' == (y + 1) / 4 && b == y / 100 && b' == (y + 1) / 100 && c == y / 400 &&
             c' == (y + 1) / 400
    ensures Before(y + 1) - Before(y) == 365 + (a' - a) - (b' - b) + (c' - c)
  {
  }

  lemma Steps(y: int, k: int)
    requires k == 4 || k == 100 || k == 400
    ensures (y + 1) / k - y / k == if (y + 1) % k == 0 then 1 else 0
  {
  }

  // ----- one day at a time

  function NextDay(d: Date): Date
  {
    if d.day < DaysInMonth(d.year, d.month) then Date(d.year, d.month, d.day + 1)
    else if d.month < 12 then Date(d.year, d.month + 1, 1)
    else Date(d.year + 1, 1, 1)
  }

  function PreviousDay(d: Date): Date
  {
    if d.day > 1 then Date(d.year, d.month, d.day - 1)
    else if d.month > 1 then Date(d.year, d.month - 1, DaysInMonth(d.year, d.month - 1))
    else Date(d.year - 1, 12, 31)
  }

  lemma DaysBack(d: Date)
    requires Valid(d)
    ensures Valid(PreviousDay(d)) && NextDay(PreviousDay(d)) == d && Valid(NextDay(d)) && PreviousDay(NextDay(d)) == d
  {
  }

  function Index(month: nat): nat
    requires 1 <= month <= 12
  {
    if month > 2 then month - 3 else month + 9
  }

  lemma MonthLengths(year: int, month: nat)
    requires 1 <= month <= 12 && month != 2
    ensures MonthStart(Index(month)) + DaysInMonth(year, month) ==
            MonthStart(Index(if month == 12 then 1 else month + 1))
  {
  }

  /** The count goes up by exactly one from each calendar day to the next. */
  lemma NextDayCounts(d: Date)
    requires Valid(d)
    ensures DaysFromCivil(NextDay(d)) == DaysFromCivil(d) + 1
  {
    var e := NextDay(d);
    hide DaysFromCivil, Before, MonthStart;
    ClosedForm(d);
    ClosedForm(e);
    if e.month != d.month {
      if d.month == 2 {
        NextYear(d.year - 1);
        assert MonthStart(0) == 0 && MonthStart(11) == 337 by { MonthStarts(); }
      } else {
        MonthLengths(d.year, d.month);
      }
    }
  }

  lemma MonthStarts()
    ensures MonthStart(0) == 0 && MonthStart(11) == 337
  {
  }

  const EPOCH := Date(1970, 1, 1)

  lemma EpochIsZero()
    ensures DaysFromCivil(EPOCH) == 0
  {
  }

  /** The date n days after 1970-01-01, or before it, reached one day at a time. */
  function DateAt(n: int): Date
    decreases if n >= 0 then n else -n
  {
    if n == 0 then EPOCH else if n > 0 then NextDay(DateAt(n - 1)) else PreviousDay(DateAt(n + 1))
  }

  /** Counting n days and then asking for the count gives n, in both directions. */
  lemma {:induction false} CountOfDate(n: int)
    ensures Valid(DateAt(n)) && DaysFromCivil(DateAt(n)) == n
    decreases if n >= 0 then n else -n
  {
    hide DaysFromCivil, NextDay, PreviousDay;
    if n == 0 {
      EpochIsZero();
      EpochValid();
    } else if n > 0 {
      CountOfDate(n - 1);
      DaysBack(DateAt(n - 1));
      NextDayCounts(DateAt(n - 1));
    } else {
      CountOfDate(n + 1);
      DaysBack(DateAt(n + 1));
      NextDayCounts(PreviousDay(DateAt(n + 1)));
    }
  }

  lemma EpochValid()
    ensures Valid(EPOCH)
  {
  }

  // ----- only one date per count

  lemma InYear(d: Date)
    requires Valid(d)
    ensures DaysFromCivil(Date(d.year, 1, 1)) <= DaysFromCivil(d) < DaysFromCivil(Date(d.year + 1, 1, 1))
  {
    hide DaysFromCivil, Before;
    ClosedForm(d);
    ClosedForm(Date(d.year, 1, 1));
    ClosedForm(Date(d.year + 1, 1, 1));
    NextYear(d.year - 1);
  }

  lemma {:induction false} YearsAfter(y: int)
    requires y >= 1971
    ensures DaysFromCivil(Date(y, 1, 1)) >= 365
  {
    hide DaysFromCivil, Before;
    ClosedForm(Date(y, 1, 1));
    NextYear(y - 2);
    ClosedForm(Date(y - 1, 1, 1));
    if y > 1971 {
      YearsAfter(y - 1);
    } else {
      EpochIsZero();
    }
  }

  lemma {:induction false} YearsBefore(y: int)
    requires y <= 1970
    ensures DaysFromCivil(Date(y, 1, 1)) <= 0
    decreases 1970 - y
  {
    hide DaysFromCivil, Before;
    if y == 1970 {
      EpochIsZero();
    } else {
      YearsBefore(y + 1);
      ClosedForm(Date(y, 1, 1));
      ClosedForm(Date(y + 1, 1, 1));
      NextYear(y - 1);
    }
  }

  lemma OnlyEpochIsZero(d: Date)
    requires Valid(d) && DaysFromCivil(d) == 0
    ensures d == EPOCH
  {
    hide DaysFromCivil, Before;
    InYear(d);
    if d.year >= 1971 {
      YearsAfter(d.year);
    } else if d.year < 1970 {
      YearsBefore(d.year + 1);
    }
    EpochIsZero();
    ClosedForm(d);
    ClosedForm(EPOCH);
    NextYear(1969);
  }

  /** Every valid date is the one that its count leads to. */
  lemma {:induction false} DateOfCount(d: Date)
    requires Valid(d)
    ensures DateAt(DaysFromCivil(d)) == d
    decreases if DaysFromCivil(d) >= 0 then DaysFromCivil(d) else -DaysFromCivil(d)
  {
    hide DaysFromCivil, NextDay, PreviousDay;
    var n := DaysFromCivil(d);
    DaysBack(d);
    if n == 0 {
      OnlyEpochIsZero(d);
    } else if n > 0 {
      NextDayCounts(PreviousDay(d));
      DateOfCount(PreviousDay(d));
    } else {
      NextDayCounts(d);
      DateOfCount(NextDay(d));
    }
  }
}
