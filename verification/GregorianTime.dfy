/** The Gregorian calendar, in years since 1900 and months from 0, and seconds since the Epoch. */
module Gregorian {
  import Bits

  predicate IsLeap(y: int) {
    y % 4 == 0 && (y % 100 != 0 || (y + 1900) % 400 == 0)
  }

  function DaysInYear(y: int): int {
    if IsLeap(y) then 366 else 365
  }

  function DaysInMonth(y: int, m: nat): (d: int)
    requires m < 12
    ensures 28 <= d <= 31
  {
    if m == 1 then (if IsLeap(y) then 29 else 28)
    else [31, 28, 31, 30, 31, 30, 31, 31, 30, 31, 30, 31][m]
  }

  function DaysBeforeMonth(y: int, m: nat): int
    requires m < 12
  {
    [0, 31, 59, 90, 120, 151, 181, 212, 243, 273, 304, 334][m] + if m > 1 && IsLeap(y) then 1 else 0
  }

  /** The days of the year add up month by month. */
  lemma MonthByMonth(y: int, m: nat)
    requires m < 12
    ensures m < 11 ==> DaysBeforeMonth(y, m + 1) == DaysBeforeMonth(y, m) + DaysInMonth(y, m)
    ensures m == 11 ==> DaysInYear(y) == DaysBeforeMonth(y, m) + DaysInMonth(y, m)
  {
  }

  // ---- the calendar without its tables ----

  /** In civil years: every fourth year, but of the full centuries only every fourth. */
  lemma LeapRule(year: int)
    ensures IsLeap(year - 1900) <==> year % 400 == 0 || (year % 4 == 0 && year % 100 != 0)
  {
    Residue(year, 4, -475);
    Residue(year, 100, -19);
    if year % 400 == 0 {
      Divided(year, 4, 100 * (year / 400), 0);
    }
  }

  /** Knuckle rule: from March on, 31 and 30 days in turn, beginning anew in August; January has 31. */
  lemma MonthLengths(y: int, m: nat)
    requires m < 12
    ensures m != 1 ==> DaysInMonth(y, m) == 30 + (m + m / 7 + 1) % 2
    ensures DaysInMonth(y, m) == 31 <==> m in {0, 2, 4, 6, 7, 9, 11}
    ensures DaysInMonth(y, m) == 30 <==> m in {3, 5, 8, 10}
    ensures DaysInMonth(y, 1) == if IsLeap(y) then 29 else 28
  {
  }

  /** The day of the year on which a month begins, in closed form with months from 1. */
  lemma MonthFormula(y: int, m: nat)
    requires m < 12
    ensures DaysBeforeMonth(y, m) == (367 * (m + 1) - 362) / 12 - if m <= 1 then 0 else if IsLeap(y) then 1 else 2
  {
  }

  /**
    Days from the Epoch to the beginning of a year, as in section 4.16 of POSIX.1-2017 Base
    Definitions, with divisions rounded down so that it also holds before 1970.
   */
  function DaysBeforeYear(y: int): int {
    365 * (y - 70) + (y - 69) / 4 - (y - 1) / 100 + (y + 299) / 400
  }

  lemma Step(x: int, d: int)
    requires d > 0
    ensures (x + 1) / d == x / d + if (x + 1) % d == 0 then 1 else 0
  {
    var q, r := x / d, x % d;
    assert x == q * d + r;
    if r == d - 1 {
      assert x + 1 == (q + 1) * d;
      Divided(x + 1, d, q + 1, 0);
    } else {
      Divided(x + 1, d, q, r + 1);
    }
  }

  lemma Divided(x: int, d: int, q: int, r: int)
    requires d > 0 && 0 <= r < d && x == q * d + r
    ensures x / d == q && x % d == r
  {
    Bits.Remainder(x, d, q, r);
  }

  lemma Residue(x: int, d: int, k: int)
    requires d > 0
    ensures (x + k * d) % d == x % d
  {
    Divided(x + k * d, d, x / d + k, x % d);
  }

  /** The formula counts the days of every year. */
  lemma YearByYear(y: int)
    ensures DaysBeforeYear(y + 1) == DaysBeforeYear(y) + DaysInYear(y)
  {
    Step(y - 69, 4);
    Step(y - 1, 100);
    Step(y + 299, 400);
    Residue(y, 4, -17);
    Residue(y + 300, 400, 4);
    if y % 100 == 0 {
      HundredFour(y);
    }
    if (y + 300) % 400 == 0 {
      FourHundred(y);
    }
  }

  lemma HundredFour(y: int)
    requires y % 100 == 0
    ensures y % 4 == 0
  {
    Divided(y, 4, 25 * (y / 100), 0);
  }

  lemma FourHundred(y: int)
    requires (y + 300) % 400 == 0
    ensures y % 100 == 0 && y % 4 == 0
  {
    var k := (y + 300) / 400;
    Divided(y, 100, 4 * k - 3, 0);
    HundredFour(y);
  }
}

/** The normalisation and conversion of mkgmtime. */
module GregorianTime {
  import opened Gregorian

  /** div: rounds towards zero. */
  function Quot(x: int, d: int): int
    requires d > 0
  {
    if x >= 0 then x / d else -((-x) / d)
  }

  function Rem(x: int, d: int): int
    requires d > 0
  {
    x - d * Quot(x, d)
  }

  /** The instant that fields stand for, in range or not: seconds since the Epoch. */
  ghost function Instant(sec: int, min: int, hour: int, mday: int, mon: int, year: int): int {
    sec + 60 * min + 3600 * hour + 86400 * (mday - 1) + 86400 * MonthStart(mon, year)
  }

  /** Days from the Epoch to the beginning of a month; months from 12 on and below 0 belong to other years. */
  ghost function MonthStart(mon: int, year: int): int {
    DaysBeforeMonth(year + mon / 12, mon % 12) + DaysBeforeYear(year + mon / 12)
  }

  lemma MonthInYear(mon: int, year: int)
    ensures MonthStart(mon % 12, year + mon / 12) == MonthStart(mon, year)
    ensures 0 <= mon < 12 ==> MonthStart(mon, year) == DaysBeforeMonth(year, mon) + DaysBeforeYear(year)
  {
    Divided(mon % 12, 12, 0, mon % 12);
    if 0 <= mon < 12 {
      Divided(mon, 12, 0, mon);
    }
  }

  ghost function DayNumber(mday: int, mon: nat, year: int): int
    requires mon < 12
  {
    mday - 1 + DaysBeforeMonth(year, mon) + DaysBeforeYear(year)
  }

  // ---- the table of month lengths ----

  /** The month after the reduction of months above 11. */
  function ReducedMonth(mon: int): int {
    if mon > 11 then Rem(mon, 12) else mon
  }

  /** The index of the first look into the table of month lengths: this month, or the one before it. */
  function FirstLookup(mday: int, mon: int): int {
    var m := ReducedMonth(mon);
    if mday > 0 then m else if m == 0 then 11 else m - 1
  }

  /** The table has that index exactly when the month is not negative. */
  lemma LookupInTable(mday: int, mon: int)
    ensures 0 <= FirstLookup(mday, mon) < 12 <==> mon >= 0
  {
  }

  /**
    The last month of the year before, written as month -1: the fields stand for an instant, but
    the first look is outside the table.
   */
  lemma MonthBeforeFirst(year: int)
    ensures Instant(0, 0, 0, 1, -1, year) == Instant(0, 0, 0, 1, 11, year - 1)
    ensures !(0 <= FirstLookup(1, -1) < 12) && !(0 <= FirstLookup(0, -1) < 12)
  {
    Divided(-1, 12, -1, 11);
    Divided(11, 12, 0, 11);
  }

  /** Carries x into the next unit: the truncated quotient and remainder, corrected. */
  method Carry(x: int, d: int, unit: int) returns (x': int, unit': int)
    requires d > 0
    ensures 0 <= x' < d && d * unit' + x' == d * unit + x
  {
    x', unit' := x, unit;
    if x < 0 || x > d - 1 {
      unit' := unit + Quot(x, d);
      x' := Rem(x, d);
      Truncated(x, d);
      assert d * (unit + Quot(x, d)) == d * unit + d * Quot(x, d);
      if x' < 0 {
        assert d * (unit' - 1) == d * unit' - d;
        x' := x' + d;
        unit' := unit' - 1;
      }
    }
  }

  lemma Truncated(x: int, d: int)
    requires d > 0
    ensures x == d * Quot(x, d) + Rem(x, d) && -d < Rem(x, d) < d
  {
    if x < 0 {
      assert -x == d * ((-x) / d) + (-x) % d;
    } else {
      assert x == d * (x / d) + x % d;
    }
  }

  class Tm {
    var sec: int
    var min: int
    var hour: int
    var mday: int
    var mon: int
    var year: int
    var wday: int
    var yday: int
    var isdst: int

    ghost predicate InRange()
      reads this
    {
      && 0 <= sec < 60 && 0 <= min < 60 && 0 <= hour < 24
      && 0 <= mon < 12 && 1 <= mday <= DaysInMonth(year, mon)
    }

    ghost function Denoted(): int
      reads this
    {
      Instant(sec, min, hour, mday, mon, year)
    }

    ghost predicate ClockInRange()
      reads this
    {
      0 <= sec < 60 && 0 <= min < 60 && 0 <= hour < 24
    }

    method NormalizeClock()
      modifies this`sec, this`min, this`hour, this`mday
      ensures ClockInRange()
      ensures sec + 60 * min + 3600 * hour +
        86400 * (mday - 1) == old(sec + 60 * min + 3600 * hour + 86400 * (mday - 1))
    {
      sec, min := Carry(sec, 60, min);
      min, hour := Carry(min, 60, hour);
      hour, mday := Carry(hour, 24, mday);
    }

    method NormalizeMonth()
      modifies this`mon, this`year
      ensures mon == ReducedMonth(old(mon)) && MonthStart(mon, year) == old(MonthStart(mon, year))
    {
      MonthInYear(mon, year);
      if mon > 11 {
        mon, year := Rem(mon, 12), year + Quot(mon, 12);
      }
    }

    /**
      Brings all fields into range without changing the instant, unless it looks outside the
      table, where the outcome is undefined.
     */
    method ValidateStructure() returns (defined: bool)
      modifies this
      ensures defined <==> old(mon) >= 0
      ensures defined ==> InRange() && Denoted() == old(Denoted()) && isdst == old(isdst)
    {
      NormalizeClock();
      LookupInTable(mday, mon);
      var first := FirstLookup(mday, mon);
      NormalizeMonth();
      if first < 0 || first >= 12 {
        return false;
      }
      BalanceDays();
      return true;
    }

    /** Borrows days from the months before, or spends them on the months that follow. */
    method BalanceDays()
      requires 0 <= mon < 12 && ClockInRange()
      modifies this`mday, this`mon, this`year
      ensures InRange() && Denoted() == old(Denoted())
    {
      MonthInYear(mon, year);
      if mday <= 0 {
        BorrowMonths();
      } else {
        SpendMonths();
      }
      MonthInYear(mon, year);
    }

    method BorrowMonths()
      requires 0 <= mon < 12 && mday <= 0
      modifies this`mday, this`mon, this`year
      ensures 0 <= mon < 12 && 1 <= mday <= DaysInMonth(year, mon)
      ensures DayNumber(mday, mon, year) == old(DayNumber(mday, mon, year))
    {
      while mday <= 0
        invariant 0 <= mon < 12 && DayNumber(mday, mon, year) == old(DayNumber(mday, mon, year))
        invariant mday <= DaysInMonth(year, mon)
        decreases -mday
      {
        mon := mon - 1;
        if mon == -1 {
          YearByYear(year - 1);
          year := year - 1;
          mon := 11;
        }
        MonthByMonth(year, mon);
        mday := mday + DaysInMonth(year, mon);
      }
    }

    method SpendMonths()
      requires 0 <= mon < 12 && mday > 0
      modifies this`mday, this`mon, this`year
      ensures 0 <= mon < 12 && 1 <= mday <= DaysInMonth(year, mon)
      ensures DayNumber(mday, mon, year) == old(DayNumber(mday, mon, year))
    {
      while mday > DaysInMonth(year, mon)
        invariant 0 <= mon < 12 && mday > 0 && DayNumber(mday, mon, year) == old(DayNumber(mday, mon, year))
        decreases mday
      {
        MonthByMonth(year, mon);
        YearByYear(year);
        mday := mday - DaysInMonth(year, mon);
        mon := mon + 1;
        if mon == 12 {
          year := year + 1;
          mon := 0;
        }
      }
    }

    /** Days from the Epoch to the beginning of the year, one year after the other. */
    method DaysInOtherYears() returns (days: int)
      ensures days == DaysBeforeYear(year)
    {
      days := 0;
      assert DaysBeforeYear(70) == 0;
      if year > 70 {
        for y := 70 to year
          invariant days == DaysBeforeYear(y)
        {
          YearByYear(y);
          days := days + DaysInYear(y);
        }
      } else if year < 70 {
        var y := 69;
        while y > year
          invariant year <= y && days == DaysBeforeYear(y + 1)
        {
          YearByYear(y);
          days := days - DaysInYear(y);
          y := y - 1;
        }
        YearByYear(y);
        days := days - DaysInYear(y);
      }
    }

    /** The instant as seconds since the Epoch, or -1 outside the years it covers. */
    method MkGmTime() returns (defined: bool, tim: int)
      modifies this
      ensures defined <==> old(mon) >= 0
      ensures defined ==> InRange() && Denoted() == old(Denoted())
      ensures defined ==> tim == if -10000 <= year <= 10000 then old(Denoted()) else -1
      ensures defined ==> yday == DaysBeforeMonth(year, mon) + mday - 1
      ensures defined && -10000 <= year <= 10000 ==> wday == (DayNumber(mday, mon, year) + 4) % 7
      ensures defined ==> isdst == if -10000 <= year <= 10000 && old(isdst) > 0 then 1 else old(isdst)
    {
      defined := ValidateStructure();
      tim := -1;
      if defined {
        tim := Convert();
      }
    }

    /** The conversion of fields in range. */
    method Convert() returns (tim: int)
      requires InRange()
      modifies this`yday, this`wday, this`isdst
      ensures tim == if -10000 <= year <= 10000 then Denoted() else -1
      ensures yday == DaysBeforeMonth(year, mon) + mday - 1
      ensures -10000 <= year <= 10000 ==> wday == (DayNumber(mday, mon, year) + 4) % 7
      ensures isdst == if -10000 <= year <= 10000 && old(isdst) > 0 then 1 else old(isdst)
    {
      MonthInYear(mon, year);
      tim := sec + min * 60 + hour * 3600;
      var days := mday - 1 + DaysBeforeMonth(year, mon);
      yday := days;
      if year > 10000 || year < -10000 {
        return -1;
      }
      var others := DaysInOtherYears();
      days := days + others;
      SetWeekDay(days);
      tim := tim + days * 86400;
      isdst := if isdst > 0 then 1 else isdst;
    }

    method SetWeekDay(days: int)
      modifies this`wday
      ensures wday == (days + 4) % 7
    {
      wday := Rem(days + 4, 7);
      Truncated(days + 4, 7);
      if wday < 0 {
        wday := wday + 7;
      }
      WeekDay(days + 4, wday);
    }
  }

  lemma WeekDay(x: int, w: int)
    requires 0 <= w < 7 && (w == Rem(x, 7) || w == Rem(x, 7) + 7)
    ensures w == x % 7
  {
    var q := if w == Rem(x, 7) then Quot(x, 7) else Quot(x, 7) - 1;
    Divided(x, 7, q, w);
  }
}
