/**
 * Time arithmetic of rtc.c: CalcTimeDifference and RtcCalcTimeDifference
 * subtract field by field in the C field widths and then borrow, and
 * rtc_maincb_is_time_since_last_berry_update_positive combines them into
 * the clock's UTC reading and the time since the last berry update.
 */
module ElapsedTime {
  import opened CInts
  import opened Bcd
  import opened Calendar
  import opened RtcInfo

  /** struct Time: days, hours, minutes and seconds, each signed. */
  datatype Time = Time(days: s16, hours: s8, minutes: s8, seconds: s8)

  /** The span a Time stands for, in seconds. */
  function Seconds(t: Time): int {
    ((t.days * 24 + t.hours) * 60 + t.minutes) * 60 + t.seconds
  }

  /** Hours, minutes and seconds within their clock ranges; days may be negative. */
  predicate Normalized(t: Time) {
    0 <= t.hours < 24 && 0 <= t.minutes < 60 && 0 <= t.seconds < 60
  }

  /**
   * The borrow chain both difference routines end with: a negative field
   * takes one unit from the next larger field. Every store is in the
   * field's width.
   */
  function Borrow(r: Time): Time {
    var r1 := if r.seconds < 0 then r.(seconds := ToS8(r.seconds + 60), minutes := ToS8(r.minutes - 1)) else r;
    var r2 := if r1.minutes < 0 then r1.(minutes := ToS8(r1.minutes + 60), hours := ToS8(r1.hours - 1)) else r1;
    if r2.hours < 0 then r2.(hours := ToS8(r2.hours + 24), days := ToS16(r2.days - 1)) else r2
  }

  /** Field differences of two normalized times borrow into a normalized time of the same span. */
  lemma BorrowNormalizes(r: Time)
    requires -60 < r.seconds < 60 && -60 < r.minutes < 60 && -24 < r.hours < 24 && -0x8000 < r.days
    ensures Normalized(Borrow(r)) && Seconds(Borrow(r)) == Seconds(r)
  {
    InRangeS8(r.seconds + 60);
    InRangeS8(r.minutes - 1);
    InRangeS8(r.minutes - 1 + 60);
    InRangeS8(r.minutes + 60);
    InRangeS8(r.hours - 1);
    InRangeS8(r.hours - 1 + 24);
    InRangeS8(r.hours + 24);
    InRangeS16(r.days - 1);
  }

  /** The difference whose days do not overflow an s16. */
  predicate DaysFit(t1: Time, t2: Time) {
    -0x8000 < t2.days - t1.days < 0x8000
  }

  /**
   * CalcTimeDifference: t2 minus t1. For normalized times whose day
   * difference fits, the result is normalized and spans exactly the
   * seconds between them.
   */
  function CalcTimeDifference(t1: Time, t2: Time): (r: Time)
    ensures Normalized(t1) && Normalized(t2) && DaysFit(t1, t2) ==>
      Normalized(r) && Seconds(r) == Seconds(t2) - Seconds(t1)
  {
    DifferenceExact(t1, t2, FieldDifference(t1, t2));
    Borrow(FieldDifference(t1, t2))
  }

  /** The field-by-field subtraction, each stored in its field's width. */
  function FieldDifference(t1: Time, t2: Time): Time {
    Time(ToS16(t2.days - t1.days), ToS8(t2.hours - t1.hours),
         ToS8(t2.minutes - t1.minutes), ToS8(t2.seconds - t1.seconds))
  }

  lemma DifferenceExact(t1: Time, t2: Time, raw: Time)
    requires raw == FieldDifference(t1, t2)
    ensures Normalized(t1) && Normalized(t2) && DaysFit(t1, t2) ==>
      Normalized(Borrow(raw)) && Seconds(Borrow(raw)) == Seconds(t2) - Seconds(t1)
  {
    if Normalized(t1) && Normalized(t2) && DaysFit(t1, t2) {
      InRangeS16(t2.days - t1.days);
      InRangeS8(t2.hours - t1.hours);
      InRangeS8(t2.minutes - t1.minutes);
      InRangeS8(t2.seconds - t1.seconds);
      BorrowNormalizes(raw);
    }
  }

  /** Values stored into the fields of a Time, each in its field's width. */
  function StoredTime(days: int, hours: int, minutes: int, seconds: int): Time {
    Time(ToS16(days), ToS8(hours), ToS8(minutes), ToS8(seconds))
  }

  /** A clock sample read as a Time: its day count (a u16 stored into an s16) and its decoded time of day. */
  function SampleTime(rtc: SiiRtcInfo): Time
    requires BcdToBinary(rtc.month) <= 13
  {
    StoredTime(SampleDayCount(rtc), BcdToBinary(rtc.hour), BcdToBinary(rtc.minute), BcdToBinary(rtc.second))
  }

  /** Subtracting t from unstored values, each difference then stored in its field's width. */
  function RawDifference(days: int, hours: int, minutes: int, seconds: int, t: Time): Time {
    StoredTime(days - t.days, hours - t.hours, minutes - t.minutes, seconds - t.seconds)
  }

  /**
   * RtcCalcTimeDifference: the sample minus t, subtracting from the
   * decoded fields and the u16 day count directly. It equals
   * CalcTimeDifference from t to the sample read as a Time.
   */
  function RtcCalcTimeDifference(rtc: SiiRtcInfo, t: Time): (r: Time)
    requires BcdToBinary(rtc.month) <= 13
    ensures r == CalcTimeDifference(t, SampleTime(rtc))
  {
    var days := SampleDayCount(rtc);
    var hours := BcdToBinary(rtc.hour);
    var minutes := BcdToBinary(rtc.minute);
    var seconds := BcdToBinary(rtc.second);
    StoredDifference(days, hours, minutes, seconds, t);
    Borrow(RawDifference(days, hours, minutes, seconds, t))
  }

  /** Subtracting from values before or after storing them in their field widths gives the same fields. */
  lemma StoredDifference(days: int, hours: int, minutes: int, seconds: int, t: Time)
    ensures FieldDifference(t, StoredTime(days, hours, minutes, seconds)) == RawDifference(days, hours, minutes, seconds, t)
  {
    S16Congruent(days, t.days);
    S8Congruent(hours, t.hours);
    S8Congruent(minutes, t.minutes);
    S8Congruent(seconds, t.seconds);
  }

  /** What rtc_maincb_is_time_since_last_berry_update_positive reports and leaves in its globals. */
  datatype BerryClock = BerryClock(positive: bool, year: u8, utc: Time, since: Time)

  /**
   * rtc_maincb_is_time_since_last_berry_update_positive: UTC is the sample
   * minus the saved local offset, the time since the update is UTC minus
   * the saved update time, and the answer is whether that span, counted
   * in whole minutes, is not negative. For a normalized span that is
   * whether its day count is not negative.
   */
  function IsTimeSincePositive(rtc: SiiRtcInfo, localOffset: Time, lastUpdate: Time): (r: BerryClock)
    requires BcdToBinary(rtc.month) <= 13
    ensures r.year == BcdToBinary(rtc.year)
    ensures r.utc == CalcTimeDifference(localOffset, SampleTime(rtc))
    ensures r.since == CalcTimeDifference(lastUpdate, r.utc)
    ensures Normalized(r.since) ==> (r.positive <==> r.since.days >= 0)
  {
    var utc := RtcCalcTimeDifference(rtc, localOffset);
    var since := CalcTimeDifference(lastUpdate, utc);
    BerryClock(since.days * 1440 + since.hours * 60 + since.minutes >= 0, BcdToBinary(rtc.year), utc, since)
  }

  /** A sample whose time of day is a clock reading, on a date whose count fits an s16. */
  predicate SampleInRange(rtc: SiiRtcInfo) {
    && BcdToBinary(rtc.month) <= 13
    && IsBcd(rtc.hour) && BcdToBinary(rtc.hour) < 24
    && IsBcd(rtc.minute) && BcdToBinary(rtc.minute) < 60
    && IsBcd(rtc.second) && BcdToBinary(rtc.second) < 60
    && DateDayCount(DateOf(rtc)) < 0x8000
  }

  /**
   * With normalized saved times and no day overflow, the answer is TRUE
   * exactly when the clock's UTC reading is not earlier than the last
   * berry update, to the second.
   */
  lemma PositiveMeansNotEarlier(rtc: SiiRtcInfo, localOffset: Time, lastUpdate: Time)
    requires SampleInRange(rtc) && Normalized(localOffset) && Normalized(lastUpdate)
    requires DaysFit(localOffset, SampleTime(rtc))
    requires DaysFit(lastUpdate, CalcTimeDifference(localOffset, SampleTime(rtc)))
    ensures var r := IsTimeSincePositive(rtc, localOffset, lastUpdate);
      && Seconds(r.utc) == Seconds(SampleTime(rtc)) - Seconds(localOffset)
      && (r.positive <==> Seconds(r.utc) >= Seconds(lastUpdate))
  {
    var s := SampleTime(rtc);
    InRangeU16(DateDayCount(DateOf(rtc)));
    InRangeS16(DateDayCount(DateOf(rtc)));
    InRangeS8(BcdToBinary(rtc.hour));
    InRangeS8(BcdToBinary(rtc.minute));
    InRangeS8(BcdToBinary(rtc.second));
    assert Normalized(s);
    var r := IsTimeSincePositive(rtc, localOffset, lastUpdate);
    assert Normalized(r.utc);
    assert Normalized(r.since) && Seconds(r.since) == Seconds(r.utc) - Seconds(lastUpdate);
  }
}
