/**
 * The "current month deadline" line of landing-new.js: "<Month> <day><suffix>,
 * <year>" for the last day of the current month. The clock is an input: the
 * functions take the year and the zero-based month JavaScript's `Date` reports.
 */
module Deadline {
  import opened Text

  /** Gregorian leap years. */
  predicate IsLeapYear(year: int) {
    year % 4 == 0 && (year % 100 != 0 || year % 400 == 0)
  }

  /** The year the `Date(year, month, day)` constructor computes in: years 0
      to 99 are taken as 1900 to 1999. */
  function DateYear(year: int): int {
    if 0 <= year <= 99 then 1900 + year else year
  }

  /** `new Date(year, month + 1, 0).getDate()`: day 0 of the next month is the
      last day of `month` in the constructor's year, so this is the number of
      days in `month`. */
  function LastDayOfMonth(year: int, month: nat): (day: nat)
    requires month < 12
    ensures 28 <= day <= 31
    ensures day == 29 <==> month == 1 && IsLeapYear(DateYear(year))
  {
    if month == 1 then (if IsLeapYear(DateYear(year)) then 29 else 28)
    else if month == 3 || month == 5 || month == 8 || month == 10 then 30
    else 31
  }

  /** The twelve months add up to the length of the constructor's year, and
      February has 29 days exactly when that year is a leap year. */
  lemma MonthsMakeAYear(year: int)
    ensures LastDayOfMonth(year, 1) == 29 <==> IsLeapYear(DateYear(year))
    ensures LastDayOfMonth(year, 0) + LastDayOfMonth(year, 1) + LastDayOfMonth(year, 2)
          + LastDayOfMonth(year, 3) + LastDayOfMonth(year, 4) + LastDayOfMonth(year, 5)
          + LastDayOfMonth(year, 6) + LastDayOfMonth(year, 7) + LastDayOfMonth(year, 8)
          + LastDayOfMonth(year, 9) + LastDayOfMonth(year, 10) + LastDayOfMonth(year, 11)
          == if IsLeapYear(DateYear(year)) then 366 else 365
  {
  }

  /** Years 0 to 99 get the month lengths of 1900 to 1999: February of year 0,
      a Gregorian leap year, has 28 days because 1900 is not a leap year. */
  lemma TwoDigitYears(year: int, month: nat)
    requires 0 <= year <= 99 && month < 12
    ensures LastDayOfMonth(year, month) == LastDayOfMonth(1900 + year, month)
    ensures IsLeapYear(0) && LastDayOfMonth(0, 1) == 28
  {
  }

  function MonthName(month: nat): string
    requires month < 12
  {
    ["January", "February", "March", "April", "May", "June",
     "July", "August", "September", "October", "November", "December"][month]
  }

  /** The suffix chain of landing-new.js: "st" for 1, 21 and 31, "nd" for 2
      and 22, "rd" for 3 and 23, "th" for everything else. */
  function OrdinalSuffix(day: int): (suffix: string)
    ensures suffix in ["st", "nd", "rd", "th"]
  {
    if day == 1 || day == 21 || day == 31 then "st"
    else if day == 2 || day == 22 then "nd"
    else if day == 3 || day == 23 then "rd"
    else "th"
  }

  /** The English ordinal rule: "th" for 11–13 (mod 100), otherwise by the
      last digit. */
  function EnglishOrdinalSuffix(n: nat): string {
    if 11 <= n % 100 <= 13 then "th"
    else if n % 10 == 1 then "st"
    else if n % 10 == 2 then "nd"
    else if n % 10 == 3 then "rd"
    else "th"
  }

  /** On every day of a month the suffix chain agrees with the English rule. */
  lemma SuffixIsEnglishOrdinal(day: nat)
    requires 1 <= day <= 31
    ensures OrdinalSuffix(day) == EnglishOrdinalSuffix(day)
  {
  }

  /** Over all numbers, the chain departs from the English rule exactly past
      31 where the last digit is 1, 2 or 3 outside the teens (32, 41, 103, ...). */
  lemma SuffixChainDeparts(n: nat)
    ensures OrdinalSuffix(n) != EnglishOrdinalSuffix(n)
            <==> n > 31 && 1 <= n % 10 <= 3 && !(11 <= n % 100 <= 13)
  {
  }

  /** `initCurrentMonthDeadline` of landing-new.js. */
  function DeadlineText(year: nat, month: nat): string
    requires month < 12
  {
    var day := LastDayOfMonth(year, month);
    MonthName(month) + " " + NatToString(day) + OrdinalSuffix(day) + ", " + NatToString(year)
  }

  /** A last day of a month is 28 to 31, so the deadline line says "31st" for
      a 31-day month and "<day>th" for every other month. */
  lemma DeadlineSuffix(year: nat, month: nat)
    requires month < 12
    ensures var day := LastDayOfMonth(year, month);
            DeadlineText(year, month)
            == MonthName(month) + " " + NatToString(day) + (if day == 31 then "st" else "th")
               + ", " + NatToString(year)
  {
  }
}
