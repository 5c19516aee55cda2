/**
 * A raw sample of the Seiko real-time clock (struct SiiRtcInfo) and the
 * date it encodes. rtc.c reads the chip into such a sample and decodes each
 * field with ConvertBcdToBinary.
 */
module RtcInfo {
  import opened CInts
  import opened Bcd
  import opened Calendar

  /** One sample: every date and time field a BCD byte, plus the status register. */
  datatype SiiRtcInfo = SiiRtcInfo(
    year: u8,
    month: u8,
    day: u8,
    dayOfWeek: u8,
    hour: u8,
    minute: u8,
    second: u8,
    status: bv8)

  /** The decoded date of a sample (a malformed field decodes to 0xFF). */
  function DateOf(rtc: SiiRtcInfo): Date {
    Date(BcdToBinary(rtc.year), BcdToBinary(rtc.month), BcdToBinary(rtc.day))
  }

  /** Every date field is well-formed BCD and together they name a calendar date. */
  predicate ValidSampleDate(rtc: SiiRtcInfo) {
    IsBcd(rtc.year) && IsBcd(rtc.month) && IsBcd(rtc.day) && ValidDate(DateOf(rtc))
  }

  /** The day count of a sample as ConvertDateToDayCount leaves it, in a u16. */
  function SampleDayCount(rtc: SiiRtcInfo): u16
    requires BcdToBinary(rtc.month) <= 13
  {
    ToU16(DateDayCount(DateOf(rtc)))
  }

  /** The years 1 .. y-1 hold at most 366 days each. */
  lemma {:induction false} YearsBeforeBound(y: nat)
    requires y <= 0x100
    ensures YearsBefore(y) <= 366 * y
  {
    if y > 1 {
      YearsBeforeBound(y - 1);
    }
  }

  /**
   * RtcGetDayCount: the decoded fields handed to ConvertDateToDayCount (the
   * decoded month must keep the month-table reads inside the table). For a
   * calendar date of the BCD range 2000-2099 the count does not wrap.
   */
  method RtcGetDayCount(rtc: SiiRtcInfo) returns (dayCount: u16)
    requires BcdToBinary(rtc.month) <= 13
    ensures dayCount == ToU16(DateDayCount(DateOf(rtc)))
    ensures ValidSampleDate(rtc) ==> dayCount == DateDayCount(DateOf(rtc))
  {
    var d := DateOf(rtc);
    dayCount := ConvertDateToDayCount(d.year, d.month, d.day);
    if ValidSampleDate(rtc) {
      DayCountFits(d);
      InRangeU16(DateDayCount(d));
    }
  }

  /** A calendar date of 2000-2099 counts fewer days than a u16 holds. */
  lemma DayCountFits(d: Date)
    requires ValidDate(d) && d.year <= 99
    ensures DateDayCount(d) < 0x1_0000
  {
    YearsBeforeBound(d.year);
    MonthsBeforeBound(d.month);
  }

  lemma {:induction false} MonthsBeforeBound(m: nat)
    requires m <= 13
    ensures MonthsBefore(m) <= 31 * m
  {
    if m > 1 {
      MonthsBeforeBound(m - 1);
    }
  }
}
