// The whole-day part of `julday` in pdsmerge: a Gregorian calendar date to its Julian day
// number, computed in integers.

module Calendar {
  import opened Common

  /** MODIS_REF_DATE: the Julian day number of 1958-01-01, day 0 of the MODIS time code. */
  const ModisRefDate := 2436205

  /** `day + 31 * (month + 12 * year)` of 1582-10-15, where the Gregorian correction starts. */
  const GregorianStart := 15 + 31 * (10 + 12 * 1582)

  /**
   * The `ljul` of julday: floor(365.25 jy) is (1461 jy) div 4, floor(30.6001 jm) is
   * (306001 jm) div 10000, and the `(int)` casts of 0.01 jy and 0.25 ja truncate toward zero.
   */
  function JulianDayNumber(day: int, month: int, year: int): int {
    var jy0 := if year < 0 then year + 1 else year;
    var jy := if month > 2 then jy0 else jy0 - 1;
    var jm := if month > 2 then month + 1 else month + 13;
    var ljul := (1461 * jy) / 4 + (306001 * jm) / 10000 + day + 1720995;
    if day + 31 * (month + 12 * year) >= GregorianStart then
      var ja := TruncDiv(jy, 100);
      ljul + 2 - ja + TruncDiv(ja, 4)
    else
      ljul
  }

  predicate IsLeapYear(year: int) {
    (year % 4 == 0 && year % 100 != 0) || year % 400 == 0
  }

  function DaysInMonth(month: int, year: int): int
    requires 1 <= month <= 12
  {
    if month == 2 then (if IsLeapYear(year) then 29 else 28)
    else if month == 4 || month == 6 || month == 9 || month == 11 then 30
    else 31
  }

  /** The epoch of the MODIS time code. */
  lemma EpochDayNumber()
    ensures JulianDayNumber(1, 1, 1958) == ModisRefDate
  {
  }

  /** Within a month of a Gregorian year the day number counts days one by one. */
  lemma NextDay(day: int, month: int, year: int)
    requires year >= 1583 && 1 <= month <= 12 && 1 <= day
    ensures JulianDayNumber(day + 1, month, year) == JulianDayNumber(day, month, year) + 1
  {
  }

  /** From the first of one month to the first of the next lie exactly that month's days. */
  lemma {:induction false} MonthLength(month: int, year: int)
    requires year >= 1583 && 1 <= month <= 12
    ensures var next := if month == 12 then JulianDayNumber(1, 1, year + 1)
                        else JulianDayNumber(1, month + 1, year);
      next - JulianDayNumber(1, month, year) == DaysInMonth(month, year)
  {
    if month == 2 {
      LeapDay(year);
    } else if month == 12 {
      YearTurn(year);
    } else {
      SameReckoningYear(month, year);
      MonthTerm(month, year);
    }
  }

  /** floor(30.6001 jm) steps by the length of the month, for the months julday counts as 4..14. */
  lemma MonthTerm(month: int, year: int)
    requires 1 <= month <= 11 && month != 2
    ensures var jm := if month > 2 then month + 1 else month + 13;
      (306001 * (jm + 1)) / 10000 - (306001 * jm) / 10000 == DaysInMonth(month, year)
  {
    if month == 1 { } else if month == 3 { } else if month == 4 { } else if month == 5 { }
    else if month == 6 { } else if month == 7 { } else if month == 8 { } else if month == 9 { }
    else if month == 10 { } else { }
  }

  /** December 1st and the next January 1st are counted in the same julday year. */
  lemma YearTurn(year: int)
    requires year >= 1583
    ensures JulianDayNumber(1, 1, year + 1) - JulianDayNumber(1, 12, year) == 31
  {
  }

  /**
   * julday counts January and February as months 13 and 14 of the year before: two months
   * counted in the same year differ only in the month term.
   */
  lemma SameReckoningYear(month: int, year: int)
    requires year >= 1583 && 1 <= month <= 11 && month != 2
    ensures var jm := if month > 2 then month + 1 else month + 13;
      JulianDayNumber(1, month + 1, year) - JulianDayNumber(1, month, year)
        == (306001 * (jm + 1)) / 10000 - (306001 * jm) / 10000
  {
  }

  /** Gregorian leap years: February has 29 days exactly in the leap years. */
  lemma LeapDay(year: int)
    requires year >= 1583
    ensures JulianDayNumber(1, 3, year) - JulianDayNumber(1, 2, year)
      == if IsLeapYear(year) then 29 else 28
  {
    MarchFirst(year);
    FebruaryFirst(year);
    StepQuotient(year, 4);
    StepQuotient(year, 100);
    CenturyStep(year);
    DivisorChain(year);
  }

  /** The count of 400-year cycles steps up exactly at the multiples of 400. */
  lemma CenturyStep(year: int)
    requires year >= 1
    ensures year / 100 / 4 - (year - 1) / 100 / 4 == if year % 400 == 0 then 1 else 0
  {
    var a := year / 100;
    StepQuotient(year, 100);
    DivisorChain(year);
    if year % 100 == 0 {
      assert (year - 1) / 100 == a - 1;
      StepQuotient(a, 4);
      assert year == 400 * (a / 4) + 100 * (a % 4);
      DivUnique(year, a / 4, 100 * (a % 4), 400);
    }
  }

  /** A multiple of 400 is one of 100, and a multiple of 100 is one of 4. */
  lemma DivisorChain(year: int)
    ensures year % 400 == 0 ==> year % 100 == 0
    ensures year % 100 == 0 ==> year % 4 == 0
  {
    if year % 400 == 0 {
      DivUnique(year, 4 * (year / 400), 0, 100);
    }
    if year % 100 == 0 {
      DivUnique(year, 25 * (year / 100), 0, 4);
    }
  }

  /** The day number of March 1st, with floor(365.25 year) split into whole and leap days. */
  lemma MarchFirst(year: int)
    requires year >= 1583
    ensures var a := year / 100;
      JulianDayNumber(1, 3, year) == 365 * year + year / 4 + 1721120 - a + a / 4
  {
    assert TruncDiv(year, 100) == year / 100;
    assert TruncDiv(year / 100, 4) == year / 100 / 4;
    DivUnique(1461 * year, 365 * year + year / 4, year % 4, 4);
  }

  /** The day number of February 1st, which julday counts as month 14 of the year before. */
  lemma FebruaryFirst(year: int)
    requires year >= 1583
    ensures var y := year - 1; var b := y / 100;
      JulianDayNumber(1, 2, year) == 365 * y + y / 4 + 1721457 - b + b / 4
  {
    var y := year - 1;
    assert TruncDiv(y, 100) == y / 100;
    assert TruncDiv(y / 100, 4) == y / 100 / 4;
    DivUnique(1461 * y, 365 * y + y / 4, y % 4, 4);
  }

  /** Stepping x down by one lowers x / d exactly when x was a multiple of d. */
  lemma StepQuotient(x: int, d: int)
    requires x >= 1 && d > 0
    ensures x / d - (x - 1) / d == if x % d == 0 then 1 else 0
  {
    if x % d == 0 {
      DivUnique(x - 1, x / d - 1, d - 1, d);
    } else {
      DivUnique(x - 1, x / d, x % d - 1, d);
    }
  }

  /** Every date from 1958 on has a day number at or after the MODIS epoch. */
  lemma AfterEpoch(day: int, month: int, year: int)
    requires year >= 1958 && 1 <= month <= 12 && 1 <= day
    ensures JulianDayNumber(day, month, year) >= ModisRefDate
  {
  }
}
