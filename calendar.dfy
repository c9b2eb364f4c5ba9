/**
 * Instants, calendar days and the fixed-width `yyyy-MM-dd_HH:mm:ss` timestamp text shared by
 * both implementations. Both the Rust `NaiveDateTime` and the Kotlin `LocalDateTime` are
 * zoneless date-times in the proleptic Gregorian calendar, so every day has exactly 86400
 * seconds; an instant is modelled as whole seconds since 0000-01-01T00:00:00.
 */
module Calendar {
  import opened Wrappers

  /** Whole seconds since 0000-01-01T00:00:00 (negative before that). */
  type Instant = int

  const SecondsPerDay: int := 86400

  /** The calendar day of an instant, as days since 0000-01-01 (`toLocalDate`, `num_days_from_ce`). */
  function Day(t: Instant): int {
    t / SecondsPerDay
  }

  /** Midnight at the start of day `d` (`LocalDate.atStartOfDay`). */
  function StartOfDay(d: int): Instant {
    d * SecondsPerDay
  }

  lemma DayOfInstant(t: Instant, d: int)
    ensures Day(t) == d <==> StartOfDay(d) <= t < StartOfDay(d + 1)
  {
    var q, r := t / SecondsPerDay, t % SecondsPerDay;
    assert t == q * SecondsPerDay + r && 0 <= r < SecondsPerDay;
    if d < q {
      assert StartOfDay(d + 1) <= StartOfDay(q);
    } else if d > q {
      assert StartOfDay(q + 1) <= StartOfDay(d);
    }
  }

  /** An instant with sub-second precision, as handed to the item constructors. */
  datatype Precise = Precise(seconds: Instant, nanos: int)

  predicate ValidPrecise(p: Precise) {
    0 <= p.nanos < 1000000000
  }

  /** Chronological order of precise instants. */
  predicate PreciseBefore(a: Precise, b: Precise) {
    a.seconds < b.seconds || (a.seconds == b.seconds && a.nanos < b.nanos)
  }

  /** Zeroing the sub-second part (`with_nanosecond(0)`, `withNano(0)`). */
  function Truncate(p: Precise): Instant {
    p.seconds
  }

  /** A whole-second instant viewed as a precise one. */
  function Whole(t: Instant): Precise {
    Precise(t, 0)
  }

  lemma TruncateMonotone(a: Precise, b: Precise)
    requires ValidPrecise(a) && ValidPrecise(b)
    ensures !PreciseBefore(b, a) ==> Truncate(a) <= Truncate(b)
    ensures Truncate(a) < Truncate(b) ==> PreciseBefore(a, b)
  {
  }

  // ---------------------------------------------------------------------------------------
  // The proleptic Gregorian calendar

  predicate IsLeap(y: int) {
    y % 4 == 0 && (y % 100 != 0 || y % 400 == 0)
  }

  function DaysInYear(y: int): int {
    if IsLeap(y) then 366 else 365
  }

  function DaysInMonth(y: int, m: int): int
    requires 1 <= m <= 12
  {
    if m == 2 then (if IsLeap(y) then 29 else 28)
    else if m == 4 || m == 6 || m == 9 || m == 11 then 30
    else 31
  }

  /** Days of year `y` before the first of month `m`; month 13 stands for the next new year. */
  function DaysBeforeMonth(y: int, m: int): int
    requires 1 <= m <= 13
  {
    var common :=
      if m == 1 then 0 else if m == 2 then 31 else if m == 3 then 59 else if m == 4 then 90
      else if m == 5 then 120 else if m == 6 then 151 else if m == 7 then 181 else if m == 8 then 212
      else if m == 9 then 243 else if m == 10 then 273 else if m == 11 then 304 else if m == 12 then 334
      else 365;
    if IsLeap(y) && m > 2 then common + 1 else common
  }

  lemma DaysBeforeNextMonth(y: int, m: int)
    requires 1 <= m <= 12
    ensures DaysBeforeMonth(y, m + 1) == DaysBeforeMonth(y, m) + DaysInMonth(y, m)
    ensures DaysBeforeMonth(y, 13) == DaysInYear(y)
  {
  }

  /** Days from 0000-01-01 to the first of January of year `y`. */
  function DaysBeforeYear(y: int): int
    decreases if y < 0 then -y else y
  {
    if y == 0 then 0
    else if y > 0 then DaysBeforeYear(y - 1) + DaysInYear(y - 1)
    else DaysBeforeYear(y + 1) - DaysInYear(y)
  }

  lemma DaysBeforeNextYear(y: int)
    ensures DaysBeforeYear(y + 1) == DaysBeforeYear(y) + DaysInYear(y)
  {
  }

  lemma {:induction false} DaysBeforeYearMonotone(a: int, b: int)
    requires a < b
    ensures DaysBeforeYear(a + 1) <= DaysBeforeYear(b)
    decreases b - a
  {
    DaysBeforeNextYear(a);
    if a + 1 < b {
      DaysBeforeYearMonotone(a + 1, b);
      DaysBeforeNextYear(a + 1);
    }
  }

  /** Year and zero-based day of year of the day `n` days after the first of January of `y`. */
  function YearAndDay(n: int, y: int): (int, int)
    decreases if n < 0 then 366 - n else n
  {
    if n < 0 then YearAndDay(n + DaysInYear(y - 1), y - 1)
    else if n < DaysInYear(y) then (y, n)
    else YearAndDay(n - DaysInYear(y), y + 1)
  }

  lemma {:induction false} YearAndDayCorrect(n: int, y: int)
    ensures var (y', d) := YearAndDay(n, y);
      DaysBeforeYear(y') + d == DaysBeforeYear(y) + n && 0 <= d < DaysInYear(y')
    decreases if n < 0 then 366 - n else n
  {
    if n < 0 {
      YearAndDayCorrect(n + DaysInYear(y - 1), y - 1);
      DaysBeforeNextYear(y - 1);
    } else if n >= DaysInYear(y) {
      YearAndDayCorrect(n - DaysInYear(y), y + 1);
      DaysBeforeNextYear(y);
    }
  }

  lemma {:induction false} YearAndDayUnique(n: int, y0: int, y: int, d: int)
    requires 0 <= d < DaysInYear(y)
    requires n == DaysBeforeYear(y) + d - DaysBeforeYear(y0)
    ensures YearAndDay(n, y0) == (y, d)
    decreases if n < 0 then 366 - n else n
  {
    DaysBeforeNextYear(y);
    if n < 0 {
      DaysBeforeNextYear(y0 - 1);
      YearAndDayUnique(n + DaysInYear(y0 - 1), y0 - 1, y, d);
    } else if n < DaysInYear(y0) {
      DaysBeforeNextYear(y0);
      if y < y0 {
        DaysBeforeYearMonotone(y, y0);
      } else if y0 < y {
        DaysBeforeYearMonotone(y0, y);
      }
    } else {
      DaysBeforeNextYear(y0);
      YearAndDayUnique(n - DaysInYear(y0), y0 + 1, y, d);
    }
  }

  /** The month holding zero-based day `doy` of year `y`, searching downwards from month `m`. */
  function MonthOf(y: int, doy: int, m: int): (r: int)
    requires 1 <= m <= 12 && 0 <= doy
    ensures 1 <= r <= m && DaysBeforeMonth(y, r) <= doy
    ensures doy < DaysBeforeMonth(y, m + 1) ==> doy < DaysBeforeMonth(y, r + 1)
  {
    if m == 1 || DaysBeforeMonth(y, m) <= doy then m else MonthOf(y, doy, m - 1)
  }

  /** The calendar fields of a date-time. */
  datatype DateTime = DateTime(year: int, month: int, day: int, hour: int, minute: int, second: int)

  /** Fields that name an existing date and time (what `LocalDateTime.of` accepts). */
  predicate ValidDateTime(dt: DateTime) {
    1 <= dt.month <= 12 && 1 <= dt.day <= DaysInMonth(dt.year, dt.month)
    && 0 <= dt.hour < 24 && 0 <= dt.minute < 60 && 0 <= dt.second < 60
  }

  function DayNumber(y: int, m: int, d: int): int
    requires 1 <= m <= 12
  {
    DaysBeforeYear(y) + DaysBeforeMonth(y, m) + d - 1
  }

  function ToInstant(dt: DateTime): Instant
    requires ValidDateTime(dt)
  {
    DayNumber(dt.year, dt.month, dt.day) * SecondsPerDay
    + dt.hour * 3600 + dt.minute * 60 + dt.second
  }

  function FromInstant(t: Instant): (dt: DateTime)
    ensures ValidDateTime(dt)
  {
    var days, secs := t / SecondsPerDay, t % SecondsPerDay;
    YearAndDayCorrect(days, 0);
    var (y, doy) := YearAndDay(days, 0);
    DaysBeforeNextMonth(y, 12);
    var m := MonthOf(y, doy, 12);
    DaysBeforeNextMonth(y, m);
    DateTime(y, m, doy - DaysBeforeMonth(y, m) + 1, secs / 3600, secs % 3600 / 60, secs % 60)
  }

  lemma SplitSeconds(t: Instant)
    ensures t == (t / SecondsPerDay) * SecondsPerDay + (t % SecondsPerDay) / 3600 * 3600
                 + (t % SecondsPerDay) % 3600 / 60 * 60 + (t % SecondsPerDay) % 60
  {
    var secs := t % SecondsPerDay;
    assert secs == secs / 3600 * 3600 + secs % 3600;
    assert secs % 3600 == secs % 3600 / 60 * 60 + secs % 3600 % 60;
    assert secs % 3600 % 60 == secs % 60;
  }

  /** Reading the fields of an instant and turning them back into an instant gives the instant. */
  lemma InstantRoundTrip(t: Instant)
    ensures ToInstant(FromInstant(t)) == t
  {
    var days := t / SecondsPerDay;
    YearAndDayCorrect(days, 0);
    var (y, doy) := YearAndDay(days, 0);
    var dt := FromInstant(t);
    assert dt.year == y;
    assert DayNumber(dt.year, dt.month, dt.day) == days;
    SplitSeconds(t);
  }

  lemma TimeOfDay(h: int, mi: int, s: int)
    requires 0 <= h < 24 && 0 <= mi < 60 && 0 <= s < 60
    ensures var secs := h * 3600 + mi * 60 + s;
      0 <= secs < SecondsPerDay && secs / 3600 == h && secs % 3600 / 60 == mi && secs % 60 == s
  {
    var secs := h * 3600 + mi * 60 + s;
    assert 0 <= mi * 60 + s < 3600;
    assert secs % 3600 == mi * 60 + s;
  }

  /** Valid fields turned into an instant are read back unchanged. */
  lemma {:induction false} FieldsRoundTrip(dt: DateTime)
    requires ValidDateTime(dt)
    ensures FromInstant(ToInstant(dt)) == dt
  {
    var days := DayNumber(dt.year, dt.month, dt.day);
    var secs := dt.hour * 3600 + dt.minute * 60 + dt.second;
    TimeOfDay(dt.hour, dt.minute, dt.second);
    DivModUnique(days * SecondsPerDay + secs, SecondsPerDay, days, secs);
    var t := ToInstant(dt);
    assert t / SecondsPerDay == days && t % SecondsPerDay == secs;
    var doy := DaysBeforeMonth(dt.year, dt.month) + dt.day - 1;
    DaysBeforeNextMonth(dt.year, dt.month);
    DaysBeforeNextMonth(dt.year, 12);
    YearAndDayUnique(days, 0, dt.year, doy);
    MonthUnique(dt.year, doy, 12, dt.month);
  }

  lemma {:induction false} MonthUnique(y: int, doy: int, m: int, month: int)
    requires 1 <= month <= m <= 12
    requires DaysBeforeMonth(y, month) <= doy < DaysBeforeMonth(y, month + 1)
    ensures MonthOf(y, doy, m) == month
    decreases m
  {
    if m != month {
      assert DaysBeforeMonth(y, month + 1) <= DaysBeforeMonth(y, m) by {
        MonthsIncrease(y, month + 1, m);
      }
      MonthUnique(y, doy, m - 1, month);
    }
  }

  lemma MonthsIncrease(y: int, a: int, b: int)
    requires 1 <= a <= b <= 13
    ensures DaysBeforeMonth(y, a) <= DaysBeforeMonth(y, b)
  {
  }

  // ---------------------------------------------------------------------------------------
  // The fixed-width timestamp text `yyyy-MM-dd_HH:mm:ss`

  predicate IsDigit(c: char) {
    '0' <= c <= '9'
  }

  function DigitValue(c: char): int
    requires IsDigit(c)
  {
    c as int - '0' as int
  }

  function DigitChar(n: int): char
    requires 0 <= n <= 9
  {
    (n + '0' as int) as char
  }

  /** The 19 leading characters have digits and separators where the layout puts them. */
  predicate LooksLikeTimestamp(s: string) {
    |s| >= 19
    && IsDigit(s[0]) && IsDigit(s[1]) && IsDigit(s[2]) && IsDigit(s[3]) && s[4] == '-'
    && IsDigit(s[5]) && IsDigit(s[6]) && s[7] == '-' && IsDigit(s[8]) && IsDigit(s[9]) && s[10] == '_'
    && IsDigit(s[11]) && IsDigit(s[12]) && s[13] == ':' && IsDigit(s[14]) && IsDigit(s[15])
    && s[16] == ':' && IsDigit(s[17]) && IsDigit(s[18])
  }

  function TwoDigits(a: char, b: char): int
    requires IsDigit(a) && IsDigit(b)
  {
    DigitValue(a) * 10 + DigitValue(b)
  }

  /** The fields written at the fixed positions of a timestamp-shaped text. */
  function TimestampFields(s: string): (dt: DateTime)
    requires LooksLikeTimestamp(s)
    ensures 0 <= dt.year <= 9999
  {
    DateTime(
      DigitValue(s[0]) * 1000 + DigitValue(s[1]) * 100 + DigitValue(s[2]) * 10 + DigitValue(s[3]),
      TwoDigits(s[5], s[6]), TwoDigits(s[8], s[9]),
      TwoDigits(s[11], s[12]), TwoDigits(s[14], s[15]), TwoDigits(s[17], s[18]))
  }

  function Pad2(n: int): (s: string)
    requires 0 <= n <= 99
    ensures |s| == 2 && IsDigit(s[0]) && IsDigit(s[1]) && TwoDigits(s[0], s[1]) == n
  {
    [DigitChar(n / 10), DigitChar(n % 10)]
  }

  /** The text of fields with a four-digit year, zero padded. */
  function FormatFields(dt: DateTime): (s: string)
    requires 0 <= dt.year <= 9999 && ValidDateTime(dt)
    ensures |s| == 19 && LooksLikeTimestamp(s)
  {
    [DigitChar(dt.year / 1000), DigitChar(dt.year / 100 % 10), DigitChar(dt.year / 10 % 10),
     DigitChar(dt.year % 10), '-']
    + Pad2(dt.month) + "-" + Pad2(dt.day) + "_" + Pad2(dt.hour) + ":" + Pad2(dt.minute)
    + ":" + Pad2(dt.second)
  }

  lemma YearDigits(y: int)
    requires 0 <= y <= 9999
    ensures y / 1000 * 1000 + y / 100 % 10 * 100 + y / 10 % 10 * 10 + y % 10 == y
  {
    var d, t := y % 10, y / 10;
    var c, u := t % 10, t / 10;
    var b, v := u % 10, u / 10;
    DivModUnique(y, 100, u, c * 10 + d);
    DivModUnique(y, 1000, v, b * 100 + c * 10 + d);
  }

  /** Quotient and remainder are the only such pair. */
  lemma DivModUnique(x: int, n: int, q: int, r: int)
    requires n > 0 && 0 <= r < n && x == q * n + r
    ensures x / n == q && x % n == r
  {
    var q', r' := x / n, x % n;
    assert (q - q') * n == r' - r;
    if q > q' {
      MultipleAtLeast(q - q', n);
    } else if q < q' {
      MultipleAtLeast(q' - q, n);
    }
  }

  /** A positive multiple of n is at least n. */
  lemma {:induction false} MultipleAtLeast(a: int, n: int)
    requires a >= 1 && n > 0
    ensures a * n >= n
    decreases a
  {
    if a > 1 {
      MultipleAtLeast(a - 1, n);
      assert a * n == (a - 1) * n + n;
    }
  }

  /** Reading back the written fields gives the fields. */
  lemma FormatFieldsRead(dt: DateTime)
    requires 0 <= dt.year <= 9999 && ValidDateTime(dt)
    ensures TimestampFields(FormatFields(dt)) == dt
  {
    var s := FormatFields(dt);
    var y := dt.year;
    assert DigitValue(s[0]) == y / 1000 && DigitValue(s[1]) == y / 100 % 10;
    assert DigitValue(s[2]) == y / 10 % 10 && DigitValue(s[3]) == y % 10;
    YearDigits(y);
    assert TimestampFields(s).year == y;
    assert s[5..7] == Pad2(dt.month) && s[8..10] == Pad2(dt.day);
    assert s[11..13] == Pad2(dt.hour);
    assert s[14..16] == Pad2(dt.minute) && s[17..19] == Pad2(dt.second);
  }

  /** The instants whose year can be written with four digits. */
  predicate InFourDigitYears(t: Instant) {
    0 <= FromInstant(t).year <= 9999
  }
}
