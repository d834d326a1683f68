/** The part of Python's datetime module that the calendar formatter relies on:
    datetime.fromisoformat, datetime.isoformat and adding timedelta(hours=1),
    over the proleptic Gregorian calendar of years 1 to 9999. */
module IsoDateTime {
  import opened PyValues

  /** A naive (time-zone free) datetime with whole seconds. */
  datatype DateTime = DateTime(year: int, month: int, day: int, hour: int, minute: int, second: int)

  /** datetime.MINYEAR and datetime.MAXYEAR */
  const MinYear := 1
  const MaxYear := 9999

  predicate IsLeapYear(y: int) {
    y % 4 == 0 && (y % 100 != 0 || y % 400 == 0)
  }

  function DaysInMonth(y: int, m: int): int
    requires 1 <= m <= 12
  {
    if m == 2 then (if IsLeapYear(y) then 29 else 28)
    else if m == 4 || m == 6 || m == 9 || m == 11 then 30
    else 31
  }

  predicate ValidDate(y: int, m: int, d: int) {
    MinYear <= y <= MaxYear && 1 <= m <= 12 && 1 <= d <= DaysInMonth(y, m)
  }

  /** The range checks that the datetime constructor performs. */
  predicate Valid(dt: DateTime) {
    && ValidDate(dt.year, dt.month, dt.day)
    && 0 <= dt.hour < 24 && 0 <= dt.minute < 60 && 0 <= dt.second < 60
  }

  // ---------------------------------------------------------------------------
  // Fixed-width decimal fields

  predicate IsDigit(c: char) {
    '0' <= c <= '9'
  }

  function DigitValue(c: char): nat
    requires IsDigit(c)
  {
    c as int - '0' as int
  }

  function DigitChar(n: nat): char
    requires n < 10
  {
    (n + '0' as int) as char
  }

  /** s[i..i+n] consists of ASCII digits */
  predicate DigitsAt(s: string, i: nat, n: nat) {
    i + n <= |s| && forall k :: i <= k < i + n ==> IsDigit(s[k])
  }

  function Num2(s: string, i: nat): nat
    requires DigitsAt(s, i, 2)
  {
    10 * DigitValue(s[i]) + DigitValue(s[i + 1])
  }

  function Num4(s: string, i: nat): nat
    requires DigitsAt(s, i, 4)
  {
    100 * Num2(s, i) + Num2(s, i + 2)
  }

  /** n as two digits, zero padded (the %02d of isoformat) */
  function Pad2(n: nat): string
    requires n < 100
  {
    [DigitChar(n / 10), DigitChar(n % 10)]
  }

  /** n as four digits, zero padded (the %04d of isoformat) */
  function Pad4(n: nat): string
    requires n < 10000
  {
    Pad2(n / 100) + Pad2(n % 100)
  }

  // ---------------------------------------------------------------------------
  // datetime.fromisoformat and datetime.isoformat

  /** The time part that follows the separator: HH, HH:MM or HH:MM:SS. */
  function ParseTime(t: string): Option<(nat, nat, nat)> {
    if |t| == 2 && DigitsAt(t, 0, 2) then
      Some((Num2(t, 0), 0, 0))
    else if |t| == 5 && DigitsAt(t, 0, 2) && t[2] == ':' && DigitsAt(t, 3, 2) then
      Some((Num2(t, 0), Num2(t, 3), 0))
    else if |t| == 8 && DigitsAt(t, 0, 2) && t[2] == ':' && DigitsAt(t, 3, 2)
                     && t[5] == ':' && DigitsAt(t, 6, 2) then
      Some((Num2(t, 0), Num2(t, 3), Num2(t, 6)))
    else
      None
  }

  /** The date YYYY-MM-DD occupies the first ten characters of s. */
  predicate DateShaped(s: string) {
    DigitsAt(s, 0, 4) && |s| >= 10 && s[4] == '-' && DigitsAt(s, 5, 2) && s[7] == '-' && DigitsAt(s, 8, 2)
  }

  /** datetime.fromisoformat(s): None where Python raises ValueError.
      Accepts YYYY-MM-DD, optionally followed by any one separator character and
      HH, HH:MM or HH:MM:SS; the fields must form a valid datetime. */
  function FromIsoFormat(s: string): (r: Option<DateTime>)
    ensures r.Some? ==> Valid(r.value)
    ensures r.Some? ==> DateShaped(s) && r.value.year == Num4(s, 0) && r.value.month == Num2(s, 5)
                        && r.value.day == Num2(s, 8)
    ensures |s| == 10 && r.Some? ==> r.value.hour == 0 && r.value.minute == 0 && r.value.second == 0
  {
    if !DateShaped(s) then None
    else
      var time := if |s| == 10 then Some((0, 0, 0)) else ParseTime(s[11..]);
      if time.None? then None
      else
        var dt := DateTime(Num4(s, 0), Num2(s, 5), Num2(s, 8), time.value.0, time.value.1, time.value.2);
        if Valid(dt) then Some(dt) else None
  }

  /** date.isoformat(): YYYY-MM-DD */
  function IsoDate(dt: DateTime): string
    requires Valid(dt)
  {
    Pad4(dt.year) + "-" + Pad2(dt.month) + "-" + Pad2(dt.day)
  }

  /** time.isoformat() without microseconds: HH:MM:SS */
  function IsoTime(dt: DateTime): string
    requires Valid(dt)
  {
    Pad2(dt.hour) + ":" + Pad2(dt.minute) + ":" + Pad2(dt.second)
  }

  /** dt.isoformat() for a datetime without microseconds or time zone: the
      date and the time joined by 'T'. */
  function IsoFormat(dt: DateTime): (s: string)
    requires Valid(dt)
  {
    IsoDate(dt) + "T" + IsoTime(dt)
  }

  lemma Pad2Reads(n: nat)
    requires n < 100
    ensures |Pad2(n)| == 2 && DigitsAt(Pad2(n), 0, 2) && Num2(Pad2(n), 0) == n
  {
    assert DigitValue(DigitChar(n / 10)) == n / 10;
    assert DigitValue(DigitChar(n % 10)) == n % 10;
  }

  /** The date part reads back as the year, month and day. */
  lemma IsoDateReads(dt: DateTime)
    requires Valid(dt)
    ensures var s := IsoDate(dt);
            |s| == 10 && DateShaped(s) && Num4(s, 0) == dt.year && Num2(s, 5) == dt.month && Num2(s, 8) == dt.day
  {
    var y, mo, d := Pad4(dt.year), Pad2(dt.month), Pad2(dt.day);
    Pad2Reads(dt.year / 100);
    Pad2Reads(dt.year % 100);
    Pad2Reads(dt.month);
    Pad2Reads(dt.day);
    var s := IsoDate(dt);
    assert s == y + "-" + mo + "-" + d;
    assert s[0] == y[0] && s[1] == y[1] && s[2] == y[2] && s[3] == y[3];
    assert s[5] == mo[0] && s[6] == mo[1] && s[8] == d[0] && s[9] == d[1];
  }

  /** The time part reads back as the hour, minute and second. */
  lemma IsoTimeReads(dt: DateTime)
    requires Valid(dt)
    ensures |IsoTime(dt)| == 8 && ParseTime(IsoTime(dt)) == Some((dt.hour, dt.minute, dt.second))
  {
    var h, mi, se := Pad2(dt.hour), Pad2(dt.minute), Pad2(dt.second);
    Pad2Reads(dt.hour);
    Pad2Reads(dt.minute);
    Pad2Reads(dt.second);
    var t := IsoTime(dt);
    assert t == h + ":" + mi + ":" + se;
    assert t[0] == h[0] && t[1] == h[1] && t[3] == mi[0] && t[4] == mi[1] && t[6] == se[0] && t[7] == se[1];
  }

  /** Reading back what isoformat wrote gives the same datetime. */
  lemma IsoFormatRoundTrip(dt: DateTime)
    requires Valid(dt)
    ensures |IsoFormat(dt)| == 19
    ensures FromIsoFormat(IsoFormat(dt)) == Some(dt)
  {
    var date, time := IsoDate(dt), IsoTime(dt);
    IsoDateReads(dt);
    IsoTimeReads(dt);
    var s := IsoFormat(dt);
    assert s == date + "T" + time;
    assert forall k :: 0 <= k < 10 ==> s[k] == date[k];
    assert DateShaped(s);
    assert Num4(s, 0) == dt.year && Num2(s, 5) == dt.month && Num2(s, 8) == dt.day;
    assert s[11..] == time;
  }

  /** Reading back what date.isoformat wrote gives the same date, at midnight. */
  lemma IsoDateRoundTrip(dt: DateTime)
    requires Valid(dt) && dt.hour == 0 && dt.minute == 0 && dt.second == 0
    ensures FromIsoFormat(IsoDate(dt)) == Some(dt)
  {
    IsoDateReads(dt);
  }

  // ---------------------------------------------------------------------------
  // Calendar arithmetic: datetime + timedelta(hours=1)

  function DaysBeforeMonth(y: int, m: int): nat
    requires 1 <= m <= 12
  {
    if m == 1 then 0 else DaysBeforeMonth(y, m - 1) + DaysInMonth(y, m - 1)
  }

  function YearLength(y: int): nat {
    DaysBeforeMonth(y, 12) + DaysInMonth(y, 12)
  }

  function DaysBeforeYear(y: int): nat
    requires y >= 1
  {
    if y == 1 then 0 else DaysBeforeYear(y - 1) + YearLength(y - 1)
  }

  /** date.toordinal(): day 1 is 0001-01-01. */
  function DayNumber(y: int, m: int, d: int): int
    requires ValidDate(y, m, d)
  {
    DaysBeforeYear(y) + DaysBeforeMonth(y, m) + d
  }

  /** Seconds elapsed since 0001-01-01T00:00:00 minus one day; an independent
      measure of the instant against which the hour arithmetic is checked. */
  function EpochSeconds(dt: DateTime): int
    requires Valid(dt)
  {
    ((DayNumber(dt.year, dt.month, dt.day) * 24 + dt.hour) * 60 + dt.minute) * 60 + dt.second
  }

  /** The calendar date after y-m-d; None past 9999-12-31. */
  function NextDay(y: int, m: int, d: int): (r: Option<(int, int, int)>)
    requires ValidDate(y, m, d)
    ensures r.Some? ==> ValidDate(r.value.0, r.value.1, r.value.2)
    ensures r.None? <==> y == MaxYear && m == 12 && d == 31
  {
    if d < DaysInMonth(y, m) then Some((y, m, d + 1))
    else if m < 12 then Some((y, m + 1, 1))
    else if y < MaxYear then Some((y + 1, 1, 1))
    else None
  }

  /** The next day is the next ordinal. */
  lemma NextDayIsNextOrdinal(y: int, m: int, d: int)
    requires ValidDate(y, m, d) && NextDay(y, m, d).Some?
    ensures var (y', m', d') := NextDay(y, m, d).value;
            DayNumber(y', m', d') == DayNumber(y, m, d) + 1
  {
  }

  /** dt + timedelta(hours=1); None where Python raises OverflowError. */
  function PlusOneHour(dt: DateTime): (r: Option<DateTime>)
    requires Valid(dt)
    ensures r.Some? ==> Valid(r.value)
    ensures r.None? <==> dt.year == MaxYear && dt.month == 12 && dt.day == 31 && dt.hour == 23
  {
    if dt.hour < 23 then Some(dt.(hour := dt.hour + 1))
    else
      match NextDay(dt.year, dt.month, dt.day)
      case None => None
      case Some((y, m, d)) => Some(DateTime(y, m, d, 0, dt.minute, dt.second))
  }

  /** The datetime one hour later is exactly 3600 seconds later. */
  lemma PlusOneHourIsAnHour(dt: DateTime)
    requires Valid(dt) && PlusOneHour(dt).Some?
    ensures EpochSeconds(PlusOneHour(dt).value) == EpochSeconds(dt) + 3600
  {
    if dt.hour == 23 {
      NextDayIsNextOrdinal(dt.year, dt.month, dt.day);
    }
  }
}
