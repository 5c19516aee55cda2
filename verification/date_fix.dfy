/**
 * The date correction of rtc.c: a clock still in 2000 or 2001 is moved on
 * a year (sii_rtc_inc_day, sii_rtc_inc_month, rtc_is_past_feb_28_2000 and
 * rtc_maincb_fix_date), working on the raw BCD sample.
 */
module DateFix {
  import opened CInts
  import opened Bcd
  import opened Calendar
  import opened Options
  import opened RtcInfo
  import opened RtcStatus

  /** Only the date fields may differ: the weekday, the time and the status are kept. */
  predicate SameTime(a: SiiRtcInfo, b: SiiRtcInfo) {
    a.dayOfWeek == b.dayOfWeek && a.hour == b.hour && a.minute == b.minute
    && a.second == b.second && a.status == b.status
  }

  /**
   * sii_rtc_inc_month: step the month; past December it becomes January and
   * the year is stepped.
   */
  function IncMonth(rtc: SiiRtcInfo): (r: SiiRtcInfo)
    ensures SameTime(r, rtc) && r.day == rtc.day
    ensures MonthValid(rtc.month) && BcdToBinary(rtc.month) < MONTH_DEC ==>
      r.year == rtc.year && MonthValid(r.month) && BcdToBinary(r.month) == BcdToBinary(rtc.month) + 1
    ensures IsBcd(rtc.month) && BcdToBinary(rtc.month) == MONTH_DEC ==>
      r.year == Inc(rtc.year) && MonthValid(r.month) && BcdToBinary(r.month) == MONTH_JAN
  {
    var month := Inc(rtc.month);
    if BcdToBinary(month) > MONTH_DEC then rtc.(month := MONTH_JAN, year := Inc(rtc.year))
    else rtc.(month := month)
  }

  /**
   * sii_rtc_inc_day: step the day; once past the month's table entry it
   * becomes the first of the next month, except for February 29 of a leap
   * year. The month indexes the table unchecked, so it must be 1..12.
   */
  function IncDay(rtc: SiiRtcInfo): (r: SiiRtcInfo)
    requires MonthValid(rtc.month)
    ensures SameTime(r, rtc)
    ensures var length := MonthLength(BcdToBinary(rtc.year), BcdToBinary(rtc.month));
      IsBcd(rtc.day) && BcdToBinary(rtc.day) < length ==>
        r.year == rtc.year && r.month == rtc.month && IsBcd(r.day) && BcdToBinary(r.day) == BcdToBinary(rtc.day) + 1
    ensures var length := MonthLength(BcdToBinary(rtc.year), BcdToBinary(rtc.month));
      IsBcd(rtc.day) && BcdToBinary(rtc.day) == length ==> r == IncMonth(rtc.(day := 0x01))
    ensures !IsBcd(rtc.day) ==> r == rtc.(day := 0)
  {
    var stepped := rtc.(day := Inc(rtc.day));
    var day := BcdToBinary(stepped.day);
    var month := BcdToBinary(stepped.month);
    if day > DAYS_PER_MONTH[month - 1] then
      if !IsLeapYear(BcdToBinary(stepped.year)) || month != MONTH_FEB || day != 29 then
        IncMonth(stepped.(day := 1))
      else stepped
    else stepped
  }

  /** On a calendar date before 2099, stepping the day gives the calendar successor. */
  lemma IncDayIsNextDate(rtc: SiiRtcInfo)
    requires ValidSampleDate(rtc) && BcdToBinary(rtc.year) < 99
    ensures ValidSampleDate(IncDay(rtc)) && DateOf(IncDay(rtc)) == NextDate(DateOf(rtc))
  {
    var d := DateOf(rtc);
    var stepped := rtc.(day := Inc(rtc.day));
    assert BcdToBinary(stepped.day) == d.day + 1;
    if d.day == MonthLength(d.year, d.month) {
      var first := stepped.(day := 1);
      assert BcdToBinary(first.day) == 1;
      if d.month == MONTH_DEC {
        var r := IncMonth(first);
        assert BcdToBinary(r.year) == d.year + 1;
      }
    }
  }

  /**
   * rtc_is_past_feb_28_2000: in 2000, TRUE from February 29 on (the test
   * reads the month and the day only); in 2001 always TRUE; otherwise FALSE.
   */
  function IsPastFeb28(rtc: SiiRtcInfo): (past: bool)
    ensures BcdToBinary(rtc.year) == 1 ==> past
    ensures BcdToBinary(rtc.year) > 1 ==> !past
  {
    var year := BcdToBinary(rtc.year);
    var month := BcdToBinary(rtc.month);
    if year == 0 then
      if month == MONTH_JAN then false
      else if month > MONTH_FEB then true
      else BcdToBinary(rtc.day) == 29
    else year == 1
  }

  /** On a calendar date of 2000 the test means "later than day 59", the count of February 28. */
  lemma PastFeb28Meaning(rtc: SiiRtcInfo)
    requires ValidSampleDate(rtc) && BcdToBinary(rtc.year) == 0
    ensures IsPastFeb28(rtc) <==> DateDayCount(DateOf(rtc)) > 59
  {
    var d := DateOf(rtc);
    MonthsBeforeValues(d.month);
  }

  lemma MonthsBeforeValues(m: nat)
    requires 1 <= m <= 12
    ensures m == 1 ==> MonthsBefore(m) == 0
    ensures m == 2 ==> MonthsBefore(m) == 31
    ensures m >= 3 ==> MonthsBefore(m) >= 59
  {
    if m >= 3 {
      assert MonthsBefore(3) == 59;
      MonthsBeforeGrows(3, m);
    }
  }

  lemma {:induction false} MonthsBeforeGrows(a: nat, b: nat)
    requires a <= b <= 13
    ensures MonthsBefore(a) <= MonthsBefore(b)
  {
    if a < b {
      MonthsBeforeGrows(a, b - 1);
    }
  }

  /**
   * What rtc_maincb_fix_date may step without reading past the month table:
   * a sample of 2000 it steps by a day must name a month 1..12.
   */
  predicate FixDateDefined(rtc: SiiRtcInfo) {
    BcdToBinary(rtc.year) == 0 && IsPastFeb28(rtc) ==> MonthValid(rtc.month)
  }

  /**
   * rtc_maincb_fix_date: the sample it writes back to the chip, if any.
   * A 2001 clock is set to January 2, 2002; a 2000 clock gets its year
   * stepped, after a day step when past February 28. Any other year is
   * left alone.
   */
  function FixDate(rtc: SiiRtcInfo): (written: Option<SiiRtcInfo>)
    requires FixDateDefined(rtc)
    ensures written.None? <==> BcdToBinary(rtc.year) > 1
    ensures written.Some? ==> SameTime(written.value, rtc)
    ensures BcdToBinary(rtc.year) == 1 ==> DateOf(written.value) == Date(2, MONTH_JAN, 2)
  {
    var year := BcdToBinary(rtc.year);
    if year == 0 || year == 1 then
      if year == 1 then Some(rtc.(year := 2, month := MONTH_JAN, day := 2))
      else if IsPastFeb28(rtc) then
        var stepped := IncDay(rtc);
        Some(stepped.(year := Inc(stepped.year)))
      else Some(rtc.(year := Inc(rtc.year)))
    else None
  }

  /**
   * The correction keeps the game's day count: a calendar date of 2000 is
   * rewritten as a calendar date of 2001 (2002 for December 31) with the
   * same count, since year 0 never enters the count of later years.
   */
  lemma FixDateKeepsDayCount(rtc: SiiRtcInfo)
    requires ValidSampleDate(rtc) && BcdToBinary(rtc.year) == 0
    ensures FixDateDefined(rtc)
    ensures var written := FixDate(rtc);
      && written.Some?
      && ValidSampleDate(written.value)
      && BcdToBinary(written.value.year) in {1, 2}
      && DateDayCount(DateOf(written.value)) == DateDayCount(DateOf(rtc))
  {
    var d := DateOf(rtc);
    if !IsPastFeb28(rtc) {
      FixEarlyIn2000(rtc);
    } else if d.month == MONTH_DEC && d.day == 31 {
      FixNewYearsEve2000(rtc);
    } else {
      FixLateIn2000(rtc);
    }
  }

  /** 2001 is a common year and counts from zero, so a date of it counts as the same date of 2000 less the leap day. */
  lemma YearOneAgainstYearZero(month: u8, day: u8)
    requires month <= 13
    ensures DayCount(1, month, day) + (if month > MONTH_FEB then 1 else 0) == DayCount(0, month, day)
  {
    assert !IsLeapYear(1) && IsLeapYear(0);
  }

  /** Up to February 28, 2000 only the year is stepped. */
  lemma FixEarlyIn2000(rtc: SiiRtcInfo)
    requires ValidSampleDate(rtc) && BcdToBinary(rtc.year) == 0 && !IsPastFeb28(rtc)
    ensures var written := FixDate(rtc).value;
      && ValidSampleDate(written)
      && BcdToBinary(written.year) == 1
      && DateDayCount(DateOf(written)) == DateDayCount(DateOf(rtc))
  {
    var d := DateOf(rtc);
    var written := FixDate(rtc).value;
    assert DateOf(written) == Date(1, d.month, d.day);
    YearOneAgainstYearZero(d.month, d.day);
  }

  /** From February 29 to December 30, 2000, the next day of 2001 has the same count. */
  lemma FixLateIn2000(rtc: SiiRtcInfo)
    requires ValidSampleDate(rtc) && BcdToBinary(rtc.year) == 0 && IsPastFeb28(rtc)
    requires !(BcdToBinary(rtc.month) == MONTH_DEC && BcdToBinary(rtc.day) == 31)
    ensures var written := FixDate(rtc).value;
      && ValidSampleDate(written)
      && BcdToBinary(written.year) == 1
      && DateDayCount(DateOf(written)) == DateDayCount(DateOf(rtc))
  {
    var d := DateOf(rtc);
    var n := NextDate(d);
    var written := FixDate(rtc).value;
    IncDayIsNextDate(rtc);
    assert n.year == 0;
    assert DateOf(written) == Date(1, n.month, n.day);
    DayCountOfNextDate(d);
    PastFeb28Meaning(rtc);
    assert n.month > MONTH_FEB;
    YearOneAgainstYearZero(n.month, n.day);
  }

  /** December 31, 2000 becomes January 1, 2002: both count 366 days. */
  lemma FixNewYearsEve2000(rtc: SiiRtcInfo)
    requires ValidSampleDate(rtc) && BcdToBinary(rtc.year) == 0
    requires BcdToBinary(rtc.month) == MONTH_DEC && BcdToBinary(rtc.day) == 31
    ensures var written := FixDate(rtc).value;
      && ValidSampleDate(written)
      && BcdToBinary(written.year) == 2
      && DateDayCount(DateOf(written)) == DateDayCount(DateOf(rtc))
  {
    var written := FixDate(rtc).value;
    IncDayIsNextDate(rtc);
    assert DateOf(written) == Date(2, MONTH_JAN, 1);
    assert YearsBefore(2) == 365;
    YearZeroTotal();
  }

  /** December 31, 2000 counts 366: the leap year in full. */
  lemma YearZeroTotal()
    ensures DayCount(0, MONTH_DEC, 31) == 366
  {
    MonthsBeforeValues(12);
    assert MonthsBefore(12) == 334 by {
      assert MonthsBefore(12) == MonthsBefore(11) + 30;
      assert MonthsBefore(11) == MonthsBefore(10) + 31;
      assert MonthsBefore(10) == MonthsBefore(9) + 30;
      assert MonthsBefore(9) == MonthsBefore(8) + 31;
      assert MonthsBefore(8) == MonthsBefore(7) + 31;
      assert MonthsBefore(7) == MonthsBefore(6) + 30;
      assert MonthsBefore(6) == MonthsBefore(5) + 31;
      assert MonthsBefore(5) == MonthsBefore(4) + 30;
      assert MonthsBefore(4) == MonthsBefore(3) + 31;
      assert MonthsBefore(3) == 59;
    }
  }
}
