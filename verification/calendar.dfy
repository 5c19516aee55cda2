/**
 * The calendar arithmetic of rtc.c on decoded (binary) date fields: the
 * month table, IsLeapYear and ConvertDateToDayCount. Years are the two
 * BCD digits of the RTC, so year 0 is 2000.
 */
module Calendar {
  import opened CInts

  const MONTH_JAN: nat := 1
  const MONTH_FEB: nat := 2
  const MONTH_DEC: nat := 12

  /** sDaysPerMonth: the length of each month of a common year, January first. */
  const DAYS_PER_MONTH: seq<nat> := [31, 28, 31, 30, 31, 30, 31, 31, 30, 31, 30, 31]

  /** IsLeapYear: the Gregorian rule. */
  predicate IsLeapYear(year: u8) {
    (year % 4 == 0 && year % 100 != 0) || year % 400 == 0
  }

  /** Within a byte the 400-year rule only rescues year 0: the leap years are the multiples of 4 other than 100 and 200. */
  lemma LeapYearsOfAByte(year: u8)
    ensures IsLeapYear(year) <==> year % 4 == 0 && year != 100 && year != 200
    ensures IsLeapYear(0)
  {
  }

  function YearLength(year: u8): nat {
    if IsLeapYear(year) then 366 else 365
  }

  /** Days in the years 1 .. year-1; year 0 never contributes. */
  function YearsBefore(year: nat): nat
    requires year <= 0x100
  {
    if year <= 1 then 0 else YearsBefore(year - 1) + YearLength(year - 1)
  }

  /** Days in the months before `month` of a common year. */
  function MonthsBefore(month: nat): nat
    requires month <= 13
  {
    if month <= 1 then 0 else MonthsBefore(month - 1) + DAYS_PER_MONTH[month - 2]
  }

  /**
   * The day count as a plain sum: the whole years from 1 to year-1, the
   * whole months before `month`, the leap day once past February of a leap
   * year, and the day itself.
   */
  function DayCount(year: u8, month: u8, day: u8): nat
    requires month <= 13
  {
    YearsBefore(year) + MonthsBefore(month) + (if month > MONTH_FEB && IsLeapYear(year) then 1 else 0) + day
  }

  lemma AddU16(a: int, b: int)
    ensures ToU16(ToU16(a) + b) == ToU16(a + b)
  {
  }

  /**
   * ConvertDateToDayCount: the loops of the C code, years counted down from
   * year-1 to 1 and months up from January, accumulating in a u16 that wraps.
   * The month table is read for months 1 .. month-1, so a month of at most 13
   * stays inside it.
   */
  method ConvertDateToDayCount(year: u8, month: u8, day: u8) returns (dayCount: u16)
    requires month <= 13
    ensures dayCount == ToU16(DayCount(year, month, day))
  {
    dayCount := CountYearDays(year);
    ghost var counted := YearsBefore(year);
    var i := 0;
    while i < month as int - 1
      invariant 0 <= i && (month >= 1 ==> i <= month - 1) && (month == 0 ==> i == 0)
      invariant counted == YearsBefore(year) + MonthsBefore(i + 1)
      invariant dayCount == ToU16(counted)
    {
      AddU16(counted, DAYS_PER_MONTH[i]);
      dayCount := ToU16(dayCount as int + DAYS_PER_MONTH[i]);
      counted := counted + DAYS_PER_MONTH[i];
      i := i + 1;
    }
    assert MonthsBefore(i + 1) == MonthsBefore(month);
    if month > MONTH_FEB && IsLeapYear(year) {
      AddU16(counted, 1);
      dayCount := ToU16(dayCount as int + 1);
      counted := counted + 1;
    }
    AddU16(counted, day);
    dayCount := ToU16(dayCount as int + day);
    counted := counted + day;
    assert counted == DayCount(year, month, day);
  }

  /** The first loop of ConvertDateToDayCount: the years from year-1 down to 1. */
  method CountYearDays(year: u8) returns (dayCount: u16)
    ensures dayCount == ToU16(YearsBefore(year))
  {
    dayCount := 0;
    ghost var counted := 0;
    var i: int := year - 1;
    while i > 0
      invariant -1 <= i < year
      invariant counted == YearsBefore(year) - YearsBefore(i + 1)
      invariant dayCount == ToU16(counted)
      decreases i
    {
      var next := ToU16(dayCount as int + 365);
      if IsLeapYear(i) {
        next := ToU16(next as int + 1);
      }
      YearStep(dayCount, counted, i, next);
      dayCount := next;
      counted := counted + YearLength(i);
      i := i - 1;
    }
  }

  /** One pass of the year loop adds the year's length, modulo 2^16. */
  lemma YearStep(dayCount: u16, counted: int, i: u8, next: u16)
    requires 0 < i && dayCount == ToU16(counted)
    requires next == if IsLeapYear(i) then ToU16(ToU16(dayCount + 365) + 1) else ToU16(dayCount + 365)
    ensures next == ToU16(counted + YearLength(i))
    ensures YearsBefore(i + 1) == YearsBefore(i) + YearLength(i)
  {
    AddU16(counted, 365);
    AddU16(counted + 365, 1);
  }

  // ---- Dates and their successor ----

  /** A decoded date. */
  datatype Date = Date(year: u8, month: u8, day: u8)

  /** The length of a month of a given year: February has 29 days in a leap year. */
  function MonthLength(year: u8, month: u8): (n: nat)
    requires MONTH_JAN <= month <= MONTH_DEC
    ensures 28 <= n <= 31
  {
    if month == MONTH_FEB && IsLeapYear(year) then 29 else DAYS_PER_MONTH[month - 1]
  }

  predicate ValidDate(d: Date) {
    MONTH_JAN <= d.month <= MONTH_DEC && 1 <= d.day <= MonthLength(d.year, d.month)
  }

  /** The calendar successor: the next day of the month, else the first of the next month, else January 1 of the next year. */
  function NextDate(d: Date): (n: Date)
    requires ValidDate(d) && d.year < 0xFF
    ensures ValidDate(n)
  {
    if d.day < MonthLength(d.year, d.month) then Date(d.year, d.month, d.day + 1)
    else if d.month < MONTH_DEC then Date(d.year, d.month + 1, 1)
    else Date(d.year + 1, MONTH_JAN, 1)
  }

  function DateDayCount(d: Date): nat
    requires d.month <= 13
  {
    DayCount(d.year, d.month, d.day)
  }

  /**
   * The day count advances by exactly one from a date to its successor,
   * except across the end of year 0, which the count leaves out.
   */
  lemma DayCountOfNextDate(d: Date)
    requires ValidDate(d) && d.year < 0xFF
    requires d.year == 0 ==> d.month < MONTH_DEC || d.day < 31
    ensures DateDayCount(NextDate(d)) == DateDayCount(d) + 1
  {
    if d.day == MonthLength(d.year, d.month) && d.month < MONTH_DEC {
      assert MonthsBefore(d.month + 1) == MonthsBefore(d.month) + DAYS_PER_MONTH[d.month - 1];
    } else if d.day == MonthLength(d.year, d.month) {
      WholeYear(d.year);
    }
  }

  /** December 31 counts one short of the next year's start, save in year 0. */
  lemma WholeYear(year: u8)
    requires 0 < year < 0xFF
    ensures DayCount(year, MONTH_DEC, 31) + 1 == DayCount(year + 1, MONTH_JAN, 1)
  {
      assert MonthsBefore(13) == 365 by {
        assert MonthsBefore(13) == MonthsBefore(12) + 31;
        assert MonthsBefore(12) == MonthsBefore(11) + 30;
        assert MonthsBefore(11) == MonthsBefore(10) + 31;
        assert MonthsBefore(10) == MonthsBefore(9) + 30;
        assert MonthsBefore(9) == MonthsBefore(8) + 31;
        assert MonthsBefore(8) == MonthsBefore(7) + 31;
        assert MonthsBefore(7) == MonthsBefore(6) + 30;
        assert MonthsBefore(6) == MonthsBefore(5) + 31;
        assert MonthsBefore(5) == MonthsBefore(4) + 30;
        assert MonthsBefore(4) == MonthsBefore(3) + 31;
        assert MonthsBefore(3) == MonthsBefore(2) + 28;
        assert MonthsBefore(2) == 31;
      }
      assert MonthsBefore(12) == 334;
      assert YearsBefore(year + 1) == YearsBefore(year) + YearLength(year);
  }
}
