/**
 * `DateTimes`: day comparisons and the texts of durations and dates. Durations are whole seconds,
 * `Duration.getSeconds()` being their value.
 */
module TimeText {
  import opened Wrappers
  import opened Calendar
  import opened Tti
  import opened LineCodec

  /** `isOnSameDay`: false when either is absent, otherwise their dates are equal. */
  predicate IsOnSameDay(a: Option<Instant>, b: Option<Instant>) {
    a.Some? && b.Some? && Day(a.value) == Day(b.value)
  }

  /** `isBetween`: `from <= source <= to`, for days. */
  predicate IsBetween(source: int, from: int, to: int) {
    !(source < from) && !(source > to)
  }

  /** `isBetween` includes both ends, and is empty when `from` is after `to`. */
  lemma IsBetweenInclusive(source: int, from: int, to: int)
    ensures IsBetween(from, from, to) <==> from <= to
    ensures IsBetween(to, from, to) <==> from <= to
    ensures from > to ==> !IsBetween(source, from, to)
  {
  }

  /** `isOnSameDay` holds of two instants exactly when both lie in the span of one day. */
  lemma IsOnSameDayMeansOneDay(a: Instant, b: Instant)
    ensures IsOnSameDay(Some(a), Some(b)) <==>
      exists d :: StartOfDay(d) <= a < StartOfDay(d + 1) && StartOfDay(d) <= b < StartOfDay(d + 1)
    ensures !IsOnSameDay(None, Some(b)) && !IsOnSameDay(Some(a), None)
  {
    DayOfInstant(a, Day(a));
    DayOfInstant(b, Day(a));
    if exists d :: StartOfDay(d) <= a < StartOfDay(d + 1) && StartOfDay(d) <= b < StartOfDay(d + 1) {
      var d :| StartOfDay(d) <= a < StartOfDay(d + 1) && StartOfDay(d) <= b < StartOfDay(d + 1);
      DayOfInstant(a, d);
      DayOfInstant(b, d);
    }
  }

  // ---------------------------------------------------------------------------------------
  // Durations

  /** `%d` of a `long`. */
  function SignedDecimal(n: int): string {
    if n < 0 then "-" + Decimal(-n) else Decimal(n)
  }

  /** `%02d` of a `long`: zero padded to two characters. */
  function ZeroPadded2(n: int): string {
    if 0 <= n <= 9 then "0" + Decimal(n) else SignedDecimal(n)
  }

  /** The three fields `FORMATTER_PERIOD_HHh_MMm_SSs` prints, from Java's `/` and `%`. */
  datatype PeriodFields = PeriodFields(hours: int, minutes: int, seconds: int)

  function Fields(seconds: int): (f: PeriodFields) {
    PeriodFields(JavaDiv(seconds, 3600), JavaDiv(JavaRem(seconds, 3600), 60), JavaRem(seconds, 60))
  }

  /** For a non-negative duration the fields are hours, minutes and seconds that add up to it. */
  lemma FieldsRecompose(seconds: int)
    requires seconds >= 0
    ensures var f := Fields(seconds);
      f.hours * 3600 + f.minutes * 60 + f.seconds == seconds
      && f.hours >= 0 && 0 <= f.minutes < 60 && 0 <= f.seconds < 60
  {
    var h, r := seconds / 3600, seconds % 3600;
    var m, rest := r / 60, r % 60;
    DivModUnique(seconds, 60, h * 60 + m, rest);
  }

  /** `FORMATTER_PERIOD_HHh_MMm_SSs`: `"%d:%02d:%02d"` of hours, minutes and seconds. */
  function FormatPeriod(seconds: int): string {
    var f := Fields(seconds);
    SignedDecimal(f.hours) + ":" + ZeroPadded2(f.minutes) + ":" + ZeroPadded2(f.seconds)
  }

  /** `prettyPrintDuration`: a minus sign and the absolute value, or a space and the value. */
  function PrettyPrintDuration(seconds: int): string {
    if seconds < 0 then "-" + FormatPeriod(-seconds) else " " + FormatPeriod(seconds)
  }

  /** The number the digits of `s` spell. */
  function ReadDigits(s: string): nat
    decreases |s|
  {
    if s == [] then 0
    else ReadDigits(s[..|s| - 1]) * 10 + (if IsDigit(s[|s| - 1]) then DigitValue(s[|s| - 1]) else 0)
  }

  lemma {:induction false} ReadDecimal(n: nat)
    ensures ReadDigits(Decimal(n)) == n
    decreases n
  {
    var s := Decimal(n);
    if n >= 10 {
      ReadDecimal(n / 10);
      assert s[..|s| - 1] == Decimal(n / 10);
    }
  }

  /** Reads `h:mm:ss` as a number of seconds. */
  function ReadPeriod(text: string): Option<int> {
    var n := |text|;
    if n < 7 || text[n - 6] != ':' || text[n - 3] != ':' then None
    else Some(ReadDigits(text[..n - 6]) * 3600 + ReadDigits(text[n - 5..n - 3]) * 60 + ReadDigits(text[n - 2..]))
  }

  /** Reads the text of `prettyPrintDuration` as a signed number of seconds. */
  function ReadDuration(text: string): Option<int> {
    if text == [] then None
    else
      var magnitude := ReadPeriod(text[1..]);
      if magnitude.None? then None
      else if text[0] == '-' then Some(-magnitude.value)
      else if text[0] == ' ' then magnitude
      else None
  }

  lemma TwoDigitField(n: int)
    requires 0 <= n < 60
    ensures |ZeroPadded2(n)| == 2 && ReadDigits(ZeroPadded2(n)) == n
  {
    if n < 10 {
      assert ZeroPadded2(n) == "0" + [DigitChar(n)];
      assert ZeroPadded2(n)[..1] == "0";
      assert ReadDigits("0") == ReadDigits("") * 10 + 0;
    } else {
      ReadDecimal(n);
      assert Decimal(n) == Decimal(n / 10) + [DigitChar(n % 10)];
    }
  }

  /** A non-negative duration's text reads back as the duration. */
  lemma FormatPeriodReads(seconds: int)
    requires seconds >= 0
    ensures ReadPeriod(FormatPeriod(seconds)) == Some(seconds)
  {
    var f := Fields(seconds);
    FieldsRecompose(seconds);
    TwoDigitField(f.minutes);
    TwoDigitField(f.seconds);
    ReadDecimal(f.hours);
    PeriodTextParts(SignedDecimal(f.hours), ZeroPadded2(f.minutes), ZeroPadded2(f.seconds));
  }

  /** In `h:m:s` with two-character minutes and seconds, the parts and separators sit at fixed distances from the end. */
  lemma PeriodTextParts(h: string, m: string, s: string)
    requires |h| >= 1 && |m| == 2 && |s| == 2
    ensures var text := h + ":" + m + ":" + s; var n := |text|;
      n >= 7 && text[n - 6] == ':' && text[n - 3] == ':'
      && text[..n - 6] == h && text[n - 5..n - 3] == m && text[n - 2..] == s
  {
    var text := h + ":" + m + ":" + s;
    var n := |text|;
    assert text[..n - 6] == h;
    assert text[n - 5..n - 3] == m;
    assert text[n - 2..] == s;
  }

  /**
   * `prettyPrintDuration` shows the sign in its first character and reads back as the duration,
   * so different durations print differently.
   */
  lemma PrettyPrintDurationReads(seconds: int)
    ensures var text := PrettyPrintDuration(seconds);
      (text[0] == '-' <==> seconds < 0) && ReadDuration(text) == Some(seconds)
  {
    var magnitude := if seconds < 0 then -seconds else seconds;
    FormatPeriodReads(magnitude);
    var text := PrettyPrintDuration(seconds);
    assert text[1..] == FormatPeriod(magnitude);
  }

  // ---------------------------------------------------------------------------------------
  // Dates

  /** A `LocalDate` by its fields. */
  datatype Date = Date(year: int, month: int, day: int)

  /** `LocalDate.MIN` */
  const MinDate := Date(-999999999, 1, 1)

  lemma {:induction false} DecimalStartsWithDigit(n: nat)
    ensures IsDigit(Decimal(n)[0])
    decreases n
  {
    if n >= 10 {
      DecimalStartsWithDigit(n / 10);
    }
  }

  /** The year-of-era as `yyyy` prints it: four digits, a `+` and more digits above 9999. */
  function YearOfEraText(year: int): (s: string)
    ensures s != [] && (s[0] == '+' || IsDigit(s[0]))
  {
    var yearOfEra := if year >= 1 then year else 1 - year;
    var digits := Decimal(yearOfEra);
    DecimalStartsWithDigit(yearOfEra);
    if yearOfEra > 9999 then "+" + digits
    else if |digits| < 4 then Zeros(4 - |digits|) + digits
    else digits
  }

  /** `prettyPrintDate`: `"beginning of time"` for `LocalDate.MIN`, `yyyy-MM-dd` otherwise. */
  function PrettyPrintDate(date: Date): string
    requires 1 <= date.month <= 12 && 1 <= date.day <= 31
  {
    if date == MinDate then "beginning of time"
    else YearOfEraText(date.year) + "-" + Pad2(date.month) + "-" + Pad2(date.day)
  }

  /** Only `LocalDate.MIN` prints as `"beginning of time"`. */
  lemma BeginningOfTimeIsMin(date: Date)
    requires 1 <= date.month <= 12 && 1 <= date.day <= 31
    ensures PrettyPrintDate(date) == "beginning of time" <==> date == MinDate
  {
    if date != MinDate {
      var y := YearOfEraText(date.year);
      assert PrettyPrintDate(date)[0] == y[0];
    }
  }

  /** For years 1 to 9999 the year prints as the four digits of the timestamp layout. */
  lemma YearOfEraTextInRange(year: int)
    requires 1 <= year <= 9999
    ensures YearOfEraText(year) == [DigitChar(year / 1000), DigitChar(year / 100 % 10), DigitChar(year / 10 % 10), DigitChar(year % 10)]
  {
    PaddedDecimal(year);
  }

  /** A number below 10000, zero padded to four digits. */
  lemma PaddedDecimal(n: nat)
    requires n <= 9999
    ensures var d := Decimal(n);
      (if |d| < 4 then Zeros(4 - |d|) + d else d)
      == [DigitChar(n / 1000), DigitChar(n / 100 % 10), DigitChar(n / 10 % 10), DigitChar(n % 10)]
  {
    if n < 10 {
      PaddedOneDigit(n);
    } else if n < 100 {
      PaddedTwoDigits(n);
    } else if n < 1000 {
      PaddedThreeDigits(n);
    } else {
      PaddedFourDigits(n);
    }
  }

  lemma PaddedOneDigit(n: nat)
    requires n < 10
    ensures var d := Decimal(n);
      (if |d| < 4 then Zeros(4 - |d|) + d else d)
      == [DigitChar(n / 1000), DigitChar(n / 100 % 10), DigitChar(n / 10 % 10), DigitChar(n % 10)]
  {
    assert DigitChar(0) == '0';
    assert n / 1000 == 0 && n / 100 % 10 == 0 && n / 10 % 10 == 0 && n % 10 == n;
    assert Zeros(3) == "000";
  }

  lemma PaddedTwoDigits(n: nat)
    requires 10 <= n < 100
    ensures var d := Decimal(n);
      (if |d| < 4 then Zeros(4 - |d|) + d else d)
      == [DigitChar(n / 1000), DigitChar(n / 100 % 10), DigitChar(n / 10 % 10), DigitChar(n % 10)]
  {
    assert DigitChar(0) == '0';
    TwoDigitDecimal(n);
    assert n / 1000 == 0 && n / 100 % 10 == 0 && n / 10 % 10 == n / 10;
    assert Zeros(2) == "00";
  }

  lemma PaddedThreeDigits(n: nat)
    requires 100 <= n < 1000
    ensures var d := Decimal(n);
      (if |d| < 4 then Zeros(4 - |d|) + d else d)
      == [DigitChar(n / 1000), DigitChar(n / 100 % 10), DigitChar(n / 10 % 10), DigitChar(n % 10)]
  {
    ThreeDigitDecimal(n);
    var d := Decimal(n);
    assert |d| == 3;
    assert Zeros(1) == [DigitChar(0)];
    assert n / 1000 == 0;
    assert n / 100 < 10;
    assert n / 100 % 10 == n / 100;
    assert Zeros(1) + d == [DigitChar(0), DigitChar(n / 100), DigitChar(n / 10 % 10), DigitChar(n % 10)];
  }

  lemma PaddedFourDigits(n: nat)
    requires 1000 <= n <= 9999
    ensures var d := Decimal(n);
      (if |d| < 4 then Zeros(4 - |d|) + d else d)
      == [DigitChar(n / 1000), DigitChar(n / 100 % 10), DigitChar(n / 10 % 10), DigitChar(n % 10)]
  {
    ThreeDigitDecimal(n / 10);
    assert n / 10 / 100 == n / 1000 && n / 10 / 10 % 10 == n / 100 % 10 && n / 1000 < 10;
  }

  lemma TwoDigitDecimal(n: nat)
    requires 10 <= n < 100
    ensures Decimal(n) == [DigitChar(n / 10), DigitChar(n % 10)]
  {
  }

  lemma ThreeDigitDecimal(n: nat)
    requires 100 <= n < 1000
    ensures Decimal(n) == [DigitChar(n / 100), DigitChar(n / 10 % 10), DigitChar(n % 10)]
  {
    TwoDigitDecimal(n / 10);
    assert n / 10 / 10 == n / 100;
  }
}
