/** `max77620_rtc_epoch_to_date`, `max77620_rtc_date_to_epoch` and
    `max77620_rtc_get_time_adjusted` of bdk/rtc/max77620-rtc.c. */
module Rtc {
  import opened Bits
  import opened Calendar

  type u16 = x: int | 0 <= x < 0x1_0000

  // ----- time of day and date

  datatype Time = Time(date: Date, hour: int, min: int, sec: int)

  predicate ValidTime(t: Time) {
    ValidDate(t.date) && 0 <= t.hour < 24 && 0 <= t.min < 60 && 0 <= t.sec < 60
  }

  /** Seconds since the start of 1970. */
  function Seconds(t: Time): nat
    requires ValidTime(t)
  {
    86400 * Days(t.date) + 3600 * t.hour + 60 * t.min + t.sec
  }

  function TimeAt(seconds: nat): Time {
    Time(After(seconds / 86400), seconds / 3600 % 24, seconds / 60 % 60, seconds % 60)
  }

  /** The counts are inverse to each other on all of time, not only on 32 bits. */
  lemma SecondsAt(n: nat)
    ensures ValidTime(TimeAt(n)) && Seconds(TimeAt(n)) == n
  {
    hide Days, After;
    DaysAfter(n / 86400);
    Digits(n, n / 60, n / 3600, n / 86400);
  }

  lemma Digits(n: nat, minutes: nat, hours: nat, days: nat)
    requires minutes == n / 60 && hours == n / 3600 && days == n / 86400
    ensures n == 60 * minutes + n % 60 && minutes == 60 * hours + minutes % 60 && hours == 24 * days + hours % 24
  {
  }

  lemma AtSeconds(t: Time)
    requires ValidTime(t)
    ensures TimeAt(Seconds(t)) == t
  {
    hide Days, After;
    var d, h, m := Days(t.date), t.hour, t.min;
    Quotients(d, h, m, t.sec);
    AfterDays(t.date);
  }

  lemma Quotients(d: nat, h: nat, m: nat, s: nat)
    requires h < 24 && m < 60 && s < 60
    ensures var n := 86400 * d + 3600 * h + 60 * m + s;
      n / 86400 == d && n / 3600 % 24 == h && n / 60 % 60 == m && n % 60 == s
  {
    var n := 86400 * d + 3600 * h + 60 * m + s;
    InMinutes(1440 * d + 60 * h + m, s);
    InHours(24 * d + h, 60 * m + s);
    InDays(d, 3600 * h + 60 * m + s);
    LastDigits(d, h, m);
  }

  lemma InMinutes(q: nat, r: nat)
    requires r < 60
    ensures (60 * q + r) / 60 == q && (60 * q + r) % 60 == r
  {
  }

  lemma InHours(q: nat, r: nat)
    requires r < 3600
    ensures (3600 * q + r) / 3600 == q
  {
  }

  lemma InDays(q: nat, r: nat)
    requires r < 86400
    ensures (86400 * q + r) / 86400 == q
  {
  }

  lemma LastDigits(d: nat, h: nat, m: nat)
    requires h < 24 && m < 60
    ensures (1440 * d + 60 * h + m) % 60 == m && (24 * d + h) % 24 == h
  {
  }

  /** The last second that 32 bits can count. */
  const LAST := Time(Date(2106, 2, 7), 6, 28, 15)

  predicate NotAfter(t: Time, u: Time) {
    Earlier(t.date, u.date) ||
    (t.date == u.date && 3600 * t.hour + 60 * t.min + t.sec <= 3600 * u.hour + 60 * u.min + u.sec)
  }

  lemma LastSecond()
    ensures Seconds(LAST) == WRAP - 1
  {
    hide Days, ByFormula;
    FormulaCounts(LAST.date);
    LastDay();
  }

  lemma LastDay()
    ensures ByFormula(LAST.date) == 49710
  {
  }

  lemma FitsExactly(t: Time)
    requires ValidTime(t)
    ensures Seconds(t) < WRAP <==> NotAfter(t, LAST)
  {
    hide Days;
    LastSecond();
    if Earlier(t.date, LAST.date) {
      EarlierDays(t.date, LAST.date);
    } else if t.date != LAST.date {
      EarlierDays(LAST.date, t.date);
    }
  }

  /** A date survives the way through a 32-bit epoch exactly up to that second. */
  lemma RoundTripExactly(t: Time)
    requires ValidTime(t)
    ensures TimeAt(Seconds(t) % WRAP) == t <==> NotAfter(t, LAST)
  {
    hide NotAfter, Seconds, TimeAt, ValidTime;
    FitsExactly(t);
    AtSeconds(t);
    SecondsAt(Seconds(t) % WRAP);
  }

  /** Moving the clock by an offset is exact as long as the moment stays in range. */
  lemma OffsetExactly(t: Time, offset: int)
    requires ValidTime(t)
    ensures var u := TimeAt((Seconds(t) + offset) % WRAP);
      ValidTime(u) && (Seconds(u) == Seconds(t) + offset <==> 0 <= Seconds(t) + offset < WRAP)
  {
    hide Seconds, TimeAt, ValidTime;
    SecondsAt((Seconds(t) + offset) % WRAP);
  }

  // ----- the code

  /** `rtc_time_t` */
  class RtcTime {
    var weekday: u8
    var sec: u8
    var min: u8
    var hour: u8
    var day: u8
    var month: u8
    var year: u16

    function Value(): Time
      reads this
    {
      Time(Date(year, month, day), hour, min, sec)
    }
  }

  /** `max77620_rtc_epoch_to_date`: every variable fits the 32 bits that the code gives it. */
  method EpochToDate(epoch0: u32, time: RtcTime)
    modifies time
    ensures time.Value() == TimeAt(epoch0) && time.weekday == 0
    ensures Date(time.year, time.month, time.day) == After(epoch0 / 86400)
    ensures time.hour == epoch0 / 3600 % 24 && time.min == epoch0 / 60 % 60 && time.sec == epoch0 % 60
  {
    hide After;
    var epoch: u32 := epoch0;
    time.sec := epoch % 60;
    epoch := epoch / 60;
    time.min := epoch % 60;
    epoch := epoch / 60;
    time.hour := epoch % 24;
    epoch := epoch / 24;

    var tmp: u32 := (4 * epoch + 102032) / 146097 + 15;
    ShiftedIs(epoch);
    tmp := epoch + 2442113 + tmp - tmp / 4;

    assert 20 * tmp < WRAP;
    var year: u32 := (20 * tmp - 2442) / 7305;
    assert 365 * year < WRAP;
    var edays: u32 := tmp - 365 * year - year / 4;
    assert edays * 1000 < WRAP;
    var month: u32 := edays * 1000 / 30601;
    DayFits(epoch, tmp, year, edays, month);
    var day: u32 := edays - month * 30 - month * 601 / 1000;
    DateOfDays(epoch, tmp, year, edays, month, day);
    if month < 14 {
      year := year - 4716;
      month := month - 1;
    } else {
      year := year - 4715;
      month := month - 13;
    }

    time.year := year;
    time.month := month;
    time.day := day;
    time.weekday := 0;
    Divisions(epoch0);
  }

  lemma DayFits(n: nat, tmp: int, year: int, edays: int, month: int)
    requires n <= LAST_DAY && tmp == Shifted(n)
    requires year == (20 * tmp - 2442) / 7305 && edays == tmp - 365 * year - year / 4 && month == edays * 1000 / 30601
    ensures 6685 <= year <= 6822 && 4 <= month <= 15 && 0 < edays - month * 30 - month * 601 / 1000 < 32
  {
    ShiftedIs(n);
    SplitRange(tmp, year, edays, month, edays - month * 30 - month * 601 / 1000);
    MonthTable(edays, month);
  }

  lemma Divisions(e: u32)
    ensures e / 60 / 60 == e / 3600 && e / 60 / 60 / 24 == e / 86400 <= LAST_DAY
  {
  }

  /** `max77620_rtc_date_to_epoch`, with the wrap-around of 32 bits where it can happen. */
  method DateToEpoch(time: RtcTime) returns (epoch: u32)
    ensures ValidTime(time.Value()) ==> epoch == Seconds(time.Value()) % WRAP
    ensures CountsFields(Date(time.year, time.month, time.day), time.hour, time.min, time.sec, epoch)
  {
    hide Days, ValidTime, Seconds, CountsFields;
    var year: u32, month: u32 := time.year, time.month;
    if month < 3 {
      month := month + 12;
      year := (year - 1) % WRAP;
    }
    epoch := (365 * year + year / 4 - year / 100 + year / 400) % WRAP;
    epoch := (epoch + 30 * month + 3 * (month + 1) / 5 + time.day) % WRAP;
    epoch := (epoch - 719561) % WRAP;
    DaysFit(time.Value(), year, month, epoch);
    SecondsOfDays(time.Value(), epoch);
    epoch := epoch * 86400 % WRAP;
    epoch := (epoch + 3600 * time.hour + 60 * time.min + time.sec) % WRAP;
    SecondsCountFields(time.Value(), epoch);
  }

  lemma DaysFit(t: Time, year: u32, month: u32, epoch: u32)
    requires if t.date.month < 3 then month == t.date.month + 12 && year == (t.date.year - 1) % WRAP
             else month == t.date.month && year == t.date.year
    requires t.date.year < 0x1_0000
    requires epoch == (((365 * year + year / 4 - year / 100 + year / 400) % WRAP
                        + 30 * month + 3 * (month + 1) / 5 + t.date.day) % WRAP - 719561) % WRAP
    ensures ValidDate(t.date) ==> epoch == Days(t.date)
  {
    hide Days, YearDays, MonthDays;
    if ValidDate(t.date) {
      FormulaCounts(t.date);
      YearFits(year);
      ShortMonth(t.date);
      NoWrap(YearDays(year), 30 * month + 3 * (month + 1) / 5, t.date.day);
    }
  }

  lemma YearFits(year: nat)
    requires year < 0x1_0000
    ensures 365 * year + year / 4 - year / 100 + year / 400 == YearDays(year) < 0x200_0000 && YearDays(year) >= 0
  {
  }

  lemma ShortMonth(d: Date)
    requires ValidDate(d)
    ensures d.day <= 31
  {
    hide Leap;
  }

  lemma NoWrap(y: nat, m: nat, d: nat)
    requires y < 0x200_0000 && m <= 450 && d <= 31 && y + m + d >= 719561
    ensures ((y % WRAP + m + d) % WRAP - 719561) % WRAP == y + m + d - 719561
  {
  }

  /** In terms of the fields: the seconds of the days and of the time of day, in 32 bits. */
  predicate CountsFields(d: Date, hour: nat, min: nat, sec: nat, epoch: u32) {
    ValidDate(d) && hour < 24 && min < 60 && sec < 60 ==>
    epoch == (86400 * Days(d) + 3600 * hour + 60 * min + sec) % 0x1_0000_0000
  }

  lemma SecondsCountFields(t: Time, epoch: u32)
    requires t.hour >= 0 && t.min >= 0 && t.sec >= 0 && (ValidTime(t) ==> epoch == Seconds(t) % WRAP)
    ensures CountsFields(t.date, t.hour, t.min, t.sec, epoch)
  {
  }

  lemma SecondsOfDays(t: Time, days: nat)
    requires ValidDate(t.date) ==> days == Days(t.date)
    ensures ValidTime(t) ==> (days * 86400 % WRAP + 3600 * t.hour + 60 * t.min + t.sec) % WRAP == Seconds(t) % WRAP
  {
    hide Days;
    SecondsWrap(days * 86400, 3600 * t.hour + 60 * t.min + t.sec);
  }

  lemma SecondsWrap(a: int, b: int)
    ensures (a % WRAP + b) % WRAP == (a + b) % WRAP
  {
    assert a == WRAP * (a / WRAP) + a % WRAP;
    var q := a / WRAP;
    assert a + b == WRAP * q + (a % WRAP + b);
  }

  /** The conversion of `max77620_rtc_get_time_adjusted`, `time` having been read from the
      clock. */
  method AdjustTime(time: RtcTime, offset: int)
    modifies time
    ensures offset == 0 ==> time.Value() == old(time.Value()) && time.weekday == old(time.weekday)
    ensures offset != 0 && ValidTime(old(time.Value())) ==>
      time.Value() == TimeAt((Seconds(old(time.Value())) + offset) % WRAP)
  {
    hide Days, After;
    if offset != 0 {
      ghost var t := time.Value();
      var epoch: int := DateToEpoch(time);
      if ValidTime(t) { SecondsWrap(Seconds(t), offset); }
      EpochToDate((epoch + offset) % WRAP, time);
    }
  }
}
