/**
 * Clock health as rtc.c judges it: RtcInit probes the chip and RtcCheckInfo
 * turns one raw sample into a mask of error flags; the clock counts as
 * working while no flag of RTC_ERR_FLAG_MASK is raised.
 */
module RtcStatus {
  import opened CInts
  import opened Bcd
  import opened Calendar
  import opened RtcInfo

  // Bits of the chip's status register (siirtc.h is not part of this model).
  const SIIRTCINFO_24HOUR: bv8 := 0x40
  const SIIRTCINFO_POWER: bv8 := 0x80

  const RTC_INIT_ERROR: bv16 := 0x0001
  const RTC_INIT_WARNING: bv16 := 0x0002
  const RTC_ERR_12HOUR_CLOCK: bv16 := 0x0010
  const RTC_ERR_POWER_FAILURE: bv16 := 0x0020
  const RTC_ERR_INVALID_YEAR: bv16 := 0x0040
  const RTC_ERR_INVALID_MONTH: bv16 := 0x0080
  const RTC_ERR_INVALID_DAY: bv16 := 0x0100
  const RTC_ERR_INVALID_HOUR: bv16 := 0x0200
  const RTC_ERR_INVALID_MINUTE: bv16 := 0x0400
  const RTC_ERR_INVALID_SECOND: bv16 := 0x0800
  const RTC_ERR_FLAG_MASK: bv16 := 0x0FF0

  /** The flag `bit` is raised in `flags`. */
  predicate Raised(flags: bv16, bit: bv16) {
    flags & bit != 0
  }

  /** No bit outside RTC_ERR_FLAG_MASK is raised. */
  predicate OnlyErrorFlags(flags: bv16) {
    flags & !RTC_ERR_FLAG_MASK == 0
  }

  function Flag(raised: bool, bit: bv16): bv16 {
    if raised then bit else 0
  }

  /** A month byte naming one of the twelve months. */
  predicate MonthValid(month: u8) {
    IsBcd(month) && MONTH_JAN <= BcdToBinary(month) <= MONTH_DEC
  }

  /** A BCD field whose value is at most `limit`. */
  predicate FieldAtMost(b: u8, limit: nat) {
    IsBcd(b) && BcdToBinary(b) <= limit
  }

  /**
   * The month table entry RtcCheckInfo compares the day with. Outside months
   * 1..12 the C code reads past the table; `stray` stands for whatever that
   * read yields.
   */
  function TableEntry(month: int, stray: int -> int): int {
    if MONTH_JAN <= month <= MONTH_DEC then DAYS_PER_MONTH[month - 1] else stray(month - 1)
  }

  /** The year test: the decoded year is the 0xFF sentinel, i.e. the byte is malformed. */
  function YearInvalid(year: u8): (bad: bool)
    ensures bad <==> !IsBcd(year)
  {
    BcdToBinary(year) == 0xFF
  }

  /** The month test: the sentinel, zero, or above December. */
  function MonthInvalid(month: u8): (bad: bool)
    ensures bad <==> !MonthValid(month)
  {
    var m := BcdToBinary(month);
    m == 0xFF || m == 0 || m > MONTH_DEC
  }

  /**
   * The day test: a malformed day, or one past the table entry of its month,
   * February allowing one more day in a leap year. For a valid month this is
   * the calendar's month length; for another month the stray read decides.
   */
  function DayInvalid(rtc: SiiRtcInfo, stray: int -> int): (bad: bool)
    ensures MonthValid(rtc.month) ==>
      (bad <==> !IsBcd(rtc.day) || BcdToBinary(rtc.day) > MonthLength(BcdToBinary(rtc.year), BcdToBinary(rtc.month)))
  {
    var month := BcdToBinary(rtc.month);
    var value := BcdToBinary(rtc.day);
    value == 0xFF ||
    if month == MONTH_FEB then
      value > (if IsLeapYear(BcdToBinary(rtc.year)) then 1 else 0) + DAYS_PER_MONTH[1]
    else
      value > TableEntry(month, stray)
  }

  /** The hour, minute and second tests: the decoded value exceeds the limit (the sentinel always does). */
  function AboveLimit(b: u8, limit: nat): (bad: bool)
    requires limit < 0xFF
    ensures bad <==> !FieldAtMost(b, limit)
  {
    BcdToBinary(b) > limit
  }

  /**
   * RtcCheckInfo: one flag per defect of the sample. The flags say exactly
   * that the power-fail bit is up, that the 24-hour bit is down, that the
   * year is malformed, that the month is not 1..12, that the hour exceeds
   * 24 and that the minute or second exceeds 60 (a malformed byte counts as
   * out of range). For a valid month the day flag says the day is malformed
   * or past the end of the month, February having 29 days in a leap year.
   * No bit outside RTC_ERR_FLAG_MASK is ever raised.
   */
  function RtcCheckInfo(rtc: SiiRtcInfo, stray: int -> int): (flags: bv16)
    ensures OnlyErrorFlags(flags)
    ensures Raised(flags, RTC_ERR_POWER_FAILURE) <==> rtc.status & SIIRTCINFO_POWER != 0
    ensures Raised(flags, RTC_ERR_12HOUR_CLOCK) <==> rtc.status & SIIRTCINFO_24HOUR == 0
    ensures Raised(flags, RTC_ERR_INVALID_YEAR) <==> !IsBcd(rtc.year)
    ensures Raised(flags, RTC_ERR_INVALID_MONTH) <==> !MonthValid(rtc.month)
    ensures MonthValid(rtc.month) ==>
      (Raised(flags, RTC_ERR_INVALID_DAY) <==>
        !IsBcd(rtc.day) || BcdToBinary(rtc.day) > MonthLength(BcdToBinary(rtc.year), BcdToBinary(rtc.month)))
    ensures Raised(flags, RTC_ERR_INVALID_HOUR) <==> !FieldAtMost(rtc.hour, 24)
    ensures Raised(flags, RTC_ERR_INVALID_MINUTE) <==> !FieldAtMost(rtc.minute, 60)
    ensures Raised(flags, RTC_ERR_INVALID_SECOND) <==> !FieldAtMost(rtc.second, 60)
  {
    ErrorFlags(
      rtc.status & SIIRTCINFO_POWER != 0,
      rtc.status & SIIRTCINFO_24HOUR == 0,
      YearInvalid(rtc.year),
      MonthInvalid(rtc.month),
      DayInvalid(rtc, stray),
      AboveLimit(rtc.hour, 24),
      AboveLimit(rtc.minute, 60),
      AboveLimit(rtc.second, 60))
  }

  /** The or of the eight error flags: each bit is raised exactly for its condition. */
  function ErrorFlags(power: bool, twelveHour: bool, year: bool, month: bool,
                      day: bool, hour: bool, minute: bool, second: bool): (flags: bv16)
    ensures OnlyErrorFlags(flags)
    ensures Raised(flags, RTC_ERR_POWER_FAILURE) <==> power
    ensures Raised(flags, RTC_ERR_12HOUR_CLOCK) <==> twelveHour
    ensures Raised(flags, RTC_ERR_INVALID_YEAR) <==> year
    ensures Raised(flags, RTC_ERR_INVALID_MONTH) <==> month
    ensures Raised(flags, RTC_ERR_INVALID_DAY) <==> day
    ensures Raised(flags, RTC_ERR_INVALID_HOUR) <==> hour
    ensures Raised(flags, RTC_ERR_INVALID_MINUTE) <==> minute
    ensures Raised(flags, RTC_ERR_INVALID_SECOND) <==> second
  {
    Flag(power, RTC_ERR_POWER_FAILURE)
    | Flag(twelveHour, RTC_ERR_12HOUR_CLOCK)
    | Flag(year, RTC_ERR_INVALID_YEAR)
    | Flag(month, RTC_ERR_INVALID_MONTH)
    | Flag(day, RTC_ERR_INVALID_DAY)
    | Flag(hour, RTC_ERR_INVALID_HOUR)
    | Flag(minute, RTC_ERR_INVALID_MINUTE)
    | Flag(second, RTC_ERR_INVALID_SECOND)
  }

  /**
   * RtcInit: a probe whose low nibble is not 1 leaves RTC_INIT_ERROR alone;
   * otherwise the status is the check of the sample read then, so the
   * warning for a set high probe nibble never survives.
   */
  function RtcInit(probeResult: bv8, sample: SiiRtcInfo, stray: int -> int): (errorStatus: bv16)
    ensures probeResult & 0xF != 1 ==> errorStatus == RTC_INIT_ERROR
    ensures errorStatus & RTC_INIT_WARNING == 0
    ensures probeResult & 0xF == 1 ==> OnlyErrorFlags(errorStatus) && errorStatus == RtcCheckInfo(sample, stray)
  {
    if probeResult & 0xF != 1 then RTC_INIT_ERROR
    // the warning the C code records for `probeResult & 0xF0` is overwritten here
    else RtcCheckInfo(sample, stray)
  }

  /** A sample the checks accept in full. */
  predicate SaneSample(rtc: SiiRtcInfo) {
    && rtc.status & SIIRTCINFO_POWER == 0
    && rtc.status & SIIRTCINFO_24HOUR != 0
    && IsBcd(rtc.year)
    && MonthValid(rtc.month)
    && IsBcd(rtc.day)
    && BcdToBinary(rtc.day) <= MonthLength(BcdToBinary(rtc.year), BcdToBinary(rtc.month))
    && FieldAtMost(rtc.hour, 24)
    && FieldAtMost(rtc.minute, 60)
    && FieldAtMost(rtc.second, 60)
  }

  /**
   * rtc_maincb_is_rtc_working: TRUE exactly when the probe failed or the
   * sample passes every check. A failed probe raises only RTC_INIT_ERROR,
   * which lies outside the mask it checks, so it reads as working.
   */
  function IsRtcWorking(probeResult: bv8, sample: SiiRtcInfo, stray: int -> int): (working: bool)
    ensures working <==> probeResult & 0xF != 1 || SaneSample(sample)
  {
    SaneMeansNoFlag(sample, stray);
    RtcInit(probeResult, sample, stray) & RTC_ERR_FLAG_MASK == 0
  }

  /** No flag of the mask is raised exactly for a sane sample. */
  lemma SaneMeansNoFlag(rtc: SiiRtcInfo, stray: int -> int)
    ensures RtcCheckInfo(rtc, stray) & RTC_ERR_FLAG_MASK == 0 <==> SaneSample(rtc)
  {
    var flags := RtcCheckInfo(rtc, stray);
    NoFlagIff(flags);
  }

  /** A mask-confined value is zero on the mask exactly when none of its eight flags is set. */
  lemma NoFlagIff(flags: bv16)
    requires OnlyErrorFlags(flags)
    ensures flags & RTC_ERR_FLAG_MASK == 0 <==>
      && flags & RTC_ERR_POWER_FAILURE == 0
      && flags & RTC_ERR_12HOUR_CLOCK == 0
      && flags & RTC_ERR_INVALID_YEAR == 0
      && flags & RTC_ERR_INVALID_MONTH == 0
      && flags & RTC_ERR_INVALID_DAY == 0
      && flags & RTC_ERR_INVALID_HOUR == 0
      && flags & RTC_ERR_INVALID_MINUTE == 0
      && flags & RTC_ERR_INVALID_SECOND == 0
  {
  }
}
