/**
 * The line codec of the Kotlin implementation (`STTItemConverter`): an item is written as its
 * zero-padded start, its end if closed, and its escaped activity, separated by single spaces;
 * reading a line takes the end only where the text at its place has the shape of a timestamp.
 */
module LineCodec {
  import opened Wrappers
  import opened Calendar
  import opened Tti
  import opened TrackingItem

  // ---------------------------------------------------------------------------------------
  // Java integer arithmetic

  /** Java's `/` on `int`: rounds toward zero. */
  function JavaDiv(a: int, b: int): int
    requires b > 0
  {
    if a >= 0 then a / b else -((-a) / b)
  }

  /** Java's `%` on `int`: takes the sign of the dividend. */
  function JavaRem(a: int, b: int): (r: int)
    requires b > 0
    ensures -b < r < b
    ensures a >= 0 ==> r == a % b
  {
    a - b * JavaDiv(a, b)
  }

  /** `(v % 10 + '0'.toInt()).toChar()` */
  function DigitOf(v: int): (c: char)
    ensures v >= 0 ==> c == DigitChar(v % 10)
    ensures c != '\n' && c != '\r'
  {
    (JavaRem(v, 10) + '0' as int) as char
  }

  // ---------------------------------------------------------------------------------------
  // Timestamps

  /** Two digits of a field: `v / 10 % 10` and `v % 10`. */
  function FieldText(v: int): (s: string)
    ensures |s| == 2 && '\n' !in s && '\r' !in s
  {
    [DigitOf(JavaDiv(v, 10)), DigitOf(v)]
  }

  /** The four digits of a year: `y / 1000 % 10`, `y / 100 % 10`, `y / 10 % 10` and `y % 10`. */
  function YearText(y: int): (s: string)
    ensures |s| == 4 && '\n' !in s && '\r' !in s
  {
    [DigitOf(JavaDiv(y, 1000)), DigitOf(JavaDiv(y, 100)), DigitOf(JavaDiv(y, 10)), DigitOf(y)]
  }

  /** `appendDateTime`: two digits per field, four for the year, from Java's `/` and `%`. */
  function DateTimeText(dt: DateTime): (s: string)
    ensures |s| == 19 && '\n' !in s && '\r' !in s
  {
    YearText(dt.year) + "-" + FieldText(dt.month) + "-" + FieldText(dt.day) + "_"
    + FieldText(dt.hour) + ":" + FieldText(dt.minute) + ":" + FieldText(dt.second)
  }

  lemma FieldTextIsPadded(v: int)
    requires 0 <= v <= 99
    ensures FieldText(v) == Pad2(v)
  {
    assert JavaDiv(v, 10) % 10 == v / 10;
  }

  lemma YearTextIsPadded(y: int)
    requires 0 <= y <= 9999
    ensures YearText(y) == [DigitChar(y / 1000), DigitChar(y / 100 % 10), DigitChar(y / 10 % 10), DigitChar(y % 10)]
  {
    assert JavaDiv(y, 1000) % 10 == y / 1000;
  }

  /** For four-digit years the text is the zero-padded `yyyy-MM-dd_HH:mm:ss` layout. */
  lemma DateTimeTextIsPadded(dt: DateTime)
    requires 0 <= dt.year <= 9999 && ValidDateTime(dt)
    ensures DateTimeText(dt) == FormatFields(dt)
  {
    YearTextIsPadded(dt.year);
    assert YearText(dt.year) + "-"
      == [DigitChar(dt.year / 1000), DigitChar(dt.year / 100 % 10), DigitChar(dt.year / 10 % 10),
          DigitChar(dt.year % 10), '-'];
    FieldTextIsPadded(dt.month);
    FieldTextIsPadded(dt.day);
    FieldTextIsPadded(dt.hour);
    FieldTextIsPadded(dt.minute);
    FieldTextIsPadded(dt.second);
  }

  /** What `parseDate` may come to: no timestamp, an instant, or an exception from `LocalDateTime.of`. */
  datatype LineError = TooShort | NotADate | InvalidDate | EndBeforeStart

  /** `parseDate`: absent unless every one of the 19 positions holds a digit or its separator. */
  function ParseDate(s: string): (r: Result<Option<Instant>, LineError>)
    requires |s| == 19
    ensures r == Ok(None) <==> !LooksLikeTimestamp(s)
    ensures r.Err? ==> r.error == InvalidDate
  {
    if !LooksLikeTimestamp(s) then Ok(None)
    else
      var dt := TimestampFields(s);
      if ValidDateTime(dt) then Ok(Some(ToInstant(dt))) else Err(InvalidDate)
  }

  /** A written timestamp reads back as the instant it was written from. */
  lemma ParseWrittenDate(t: Instant)
    requires InFourDigitYears(t)
    ensures ParseDate(DateTimeText(FromInstant(t))) == Ok(Some(t))
  {
    var dt := FromInstant(t);
    DateTimeTextIsPadded(dt);
    FormatFieldsRead(dt);
    InstantRoundTrip(t);
  }

  // ---------------------------------------------------------------------------------------
  // Escaping

  /** `escape`: CR, LF and CR LF each become `\n`, and `\` becomes `\\`. */
  function Escaped(s: string): (r: string)
    ensures '\n' !in r && '\r' !in r
    decreases |s|
  {
    if s == [] then []
    else if s[0] == '\r' then "\\n" + Escaped(if |s| > 1 && s[1] == '\n' then s[2..] else s[1..])
    else if s[0] == '\n' then "\\n" + Escaped(s[1..])
    else if s[0] == '\\' then "\\\\" + Escaped(s[1..])
    else [s[0]] + Escaped(s[1..])
  }

  /** `unescape`: `\n` becomes a newline, `\` and any other character becomes that character, and a last lone `\` stays. */
  function Unescaped(s: string): string
    decreases |s|
  {
    if s == [] then []
    else if s[0] == '\\' && |s| > 1 then (if s[1] == 'n' then "\n" else [s[1]]) + Unescaped(s[2..])
    else [s[0]] + Unescaped(s[1..])
  }

  /** The text with CR LF and lone CR both replaced by LF. */
  function NormalizeNewlines(s: string): (r: string)
    ensures '\r' !in r
    decreases |s|
  {
    if s == [] then []
    else if s[0] == '\r' then "\n" + NormalizeNewlines(if |s| > 1 && s[1] == '\n' then s[2..] else s[1..])
    else [s[0]] + NormalizeNewlines(s[1..])
  }

  lemma UnescapedPair(c: char, rest: string)
    ensures Unescaped(['\\', c] + rest) == (if c == 'n' then "\n" else [c]) + Unescaped(rest)
  {
    assert (['\\', c] + rest)[2..] == rest;
  }

  lemma UnescapedPlain(c: char, rest: string)
    requires c != '\\'
    ensures Unescaped([c] + rest) == [c] + Unescaped(rest)
  {
    assert ([c] + rest)[1..] == rest;
  }

  /** How `Escaped` writes the rest of `a` from position i: a line break (CR LF taken as one) or one character. */
  lemma EscapedAt(a: string, i: nat)
    requires i < |a|
    ensures a[i] == '\r' && i + 1 < |a| && a[i + 1] == '\n' ==> Escaped(a[i..]) == "\\n" + Escaped(a[i + 2..])
    ensures a[i] == '\r' && !(i + 1 < |a| && a[i + 1] == '\n') ==> Escaped(a[i..]) == "\\n" + Escaped(a[i + 1..])
    ensures a[i] == '\n' ==> Escaped(a[i..]) == "\\n" + Escaped(a[i + 1..])
    ensures a[i] == '\\' ==> Escaped(a[i..]) == "\\\\" + Escaped(a[i + 1..])
    ensures a[i] != '\r' && a[i] != '\n' && a[i] != '\\' ==> Escaped(a[i..]) == [a[i]] + Escaped(a[i + 1..])
  {
    assert a[i..][1..] == a[i + 1..];
    if i + 1 < |a| {
      assert a[i..][2..] == a[i + 2..];
    }
  }

  /** How `Unescaped` reads the rest of `a` from position i: one escape pair or one character. */
  lemma UnescapedAt(a: string, i: nat)
    requires i < |a|
    ensures a[i] == '\\' && i + 1 < |a| ==>
      Unescaped(a[i..]) == (if a[i + 1] == 'n' then "\n" else [a[i + 1]]) + Unescaped(a[i + 2..])
    ensures !(a[i] == '\\' && i + 1 < |a|) ==> Unescaped(a[i..]) == [a[i]] + Unescaped(a[i + 1..])
  {
    assert a[i..][1..] == a[i + 1..];
    if i + 1 < |a| {
      assert a[i..][2..] == a[i + 2..];
    }
  }

  /** Reading back an escaped activity gives it with its line breaks normalised to LF. */
  lemma {:induction false} EscapeRoundTrip(s: string)
    ensures Unescaped(Escaped(s)) == NormalizeNewlines(s)
    decreases |s|
  {
    if s != [] {
      var rest := if s[0] == '\r' && |s| > 1 && s[1] == '\n' then s[2..] else s[1..];
      EscapeRoundTrip(rest);
      if s[0] == '\r' || s[0] == '\n' {
        UnescapedPair('n', Escaped(rest));
      } else if s[0] == '\\' {
        UnescapedPair('\\', Escaped(rest));
      } else {
        UnescapedPlain(s[0], Escaped(rest));
      }
    }
  }

  /** Text without carriage returns reads back unchanged. */
  lemma {:induction false} NormalizeWithoutCarriageReturn(s: string)
    requires '\r' !in s
    ensures NormalizeNewlines(s) == s
    decreases |s|
  {
    if s != [] {
      assert '\r' !in s[1..];
      NormalizeWithoutCarriageReturn(s[1..]);
    }
  }

  /** `escape`, appending to the builder `b` one character of the activity at a time. */
  method Escape(b: string, activity: string) returns (r: string)
    ensures r == b + Escaped(activity)
  {
    r := b;
    var n := |activity|;
    var i := 0;
    while i < n
      invariant 0 <= i <= n
      invariant r + Escaped(activity[i..]) == b + Escaped(activity)
      decreases n - i
    {
      ghost var s := activity[i..];
      var next := activity[i];
      var step := 1;
      var piece: string;
      if next == '\r' {
        piece := "\\n";
        if i + 1 < n && activity[i + 1] == '\n' {
          step := 2;
        }
      } else if next == '\n' {
        piece := "\\n";
      } else if next == '\\' {
        piece := "\\\\";
      } else {
        piece := [next];
      }
      EscapedAt(activity, i);
      ghost var tail := Escaped(activity[i + step..]);
      assert Escaped(s) == piece + tail;
      assert r + (piece + tail) == (r + piece) + tail;
      r := r + piece;
      i := i + step;
    }
  }

  /** `unescape`, one character or escape pair of the activity at a time. */
  method Unescape(activity: string) returns (r: string)
    ensures r == Unescaped(activity)
  {
    r := [];
    var n := |activity|;
    var i := 0;
    while i < n
      invariant 0 <= i <= n
      invariant r + Unescaped(activity[i..]) == Unescaped(activity)
      decreases n - i
    {
      ghost var s := activity[i..];
      var next := activity[i];
      var step := 1;
      var piece := [next];
      if next == '\\' && i + 1 < n {
        step := 2;
        if activity[i + 1] == 'n' {
          piece := ['\n'];
        } else {
          piece := [activity[i + 1]];
        }
      }
      UnescapedAt(activity, i);
      ghost var tail := Unescaped(activity[i + step..]);
      assert Unescaped(s) == piece + tail;
      assert r + (piece + tail) == (r + piece) + tail;
      r := r + piece;
      i := i + step;
    }
  }

  // ---------------------------------------------------------------------------------------
  // Lines

  /** `timeTrackingItemToLine`: start, the end if closed, the escaped activity, single spaces between. */
  function Line(item: Item): string {
    DateTimeText(FromInstant(item.start)) + " "
    + (if item.end.At? then DateTimeText(FromInstant(item.end.time)) + " " else "")
    + Escaped(item.activity)
  }

  /** `lineToTimeTrackingItem`, its exceptions as errors. */
  function ParsedLine(line: string): Result<Item, LineError> {
    if |line| < 19 then Err(TooShort)
    else
      var start := ParseDate(line[..19]);
      if start.Err? then Err(start.error)
      else if start.value.None? then Err(NotADate)
      else
        var end := if |line| >= 39 then ParseDate(line[20..39]) else Ok(None);
        if end.Err? then Err(end.error)
        else
          var activityStart := if end.value.None? then 20 else 40;
          var activity := if |line| > activityStart then Unescaped(line[activityStart..]) else "";
          var endAt := if end.value.Some? then Some(Whole(end.value.value)) else None;
          var item := Create(activity, Whole(start.value.value), endAt);
          if item.Err? then Err(EndBeforeStart) else Ok(item.value)
  }

  /** A written line is one line of text. */
  lemma LineHasNoBreak(item: Item)
    ensures '\n' !in Line(item) && '\r' !in Line(item)
  {
  }

  /** The places of the parts of a line with no end. */
  lemma OpenLayout(st: string, a: string)
    requires |st| == 19
    ensures var line := st + " " + a;
      |line| == 20 + |a| && line[..19] == st && line[19] == ' ' && line[20..] == a
      && (|a| >= 19 ==> line[20..39] == a[..19])
  {
    var line := st + " " + a;
    assert line == st + (" " + a);
  }

  /** The places of the parts of a line with an end. */
  lemma ClosedLayout(st: string, et: string, a: string)
    requires |st| == 19 && |et| == 19
    ensures var line := st + " " + et + " " + a;
      |line| == 40 + |a| && line[..19] == st && line[19] == ' ' && line[20..39] == et
      && line[39] == ' ' && line[40..] == a
  {
    var line := st + " " + et + " " + a;
    assert line == st + (" " + (et + (" " + a)));
  }

  /** The written line as the start text, then the end text if closed, then the escaped activity. */
  lemma LineJoins(item: Item)
    ensures var st := DateTimeText(FromInstant(item.start)); var a := Escaped(item.activity);
      (item.end.Open? ==> Line(item) == st + " " + a)
      && (item.end.At? ==> Line(item) == st + " " + DateTimeText(FromInstant(item.end.time)) + " " + a)
  {
    var st := DateTimeText(FromInstant(item.start));
    var a := Escaped(item.activity);
    if item.end.At? {
      Regroup(st + " ", DateTimeText(FromInstant(item.end.time)), " ", a);
    } else {
      assert st + " " + "" == st + " ";
    }
  }

  lemma LineLayout(item: Item)
    ensures var line := Line(item); var a := Escaped(item.activity);
      line[..19] == DateTimeText(FromInstant(item.start)) && line[19] == ' '
      && (item.end.At? ==>
            |line| == 40 + |a| && line[20..39] == DateTimeText(FromInstant(item.end.time))
            && line[39] == ' ' && line[40..] == a)
      && (item.end.Open? ==> |line| == 20 + |a| && line[20..] == a)
  {
    LineJoins(item);
    if item.end.At? {
      ClosedLayout(DateTimeText(FromInstant(item.start)), DateTimeText(FromInstant(item.end.time)), Escaped(item.activity));
    } else {
      OpenLayout(DateTimeText(FromInstant(item.start)), Escaped(item.activity));
    }
  }

  /** A line of a readable start and a text that does not look like a timestamp is read as open. */
  lemma ReadOpenLine(st: string, a: string, start: Instant)
    requires |st| == 19 && ParseDate(st) == Ok(Some(start))
    requires |a| >= 19 ==> !LooksLikeTimestamp(a[..19])
    ensures ParsedLine(st + " " + a) == Ok(Item(start, Open, Unescaped(a)))
  {
    OpenLayout(st, a);
    ParsedLineLayout(st + " " + a, start);
  }

  /** A line of a readable start and a readable end no earlier is read as closed. */
  lemma ReadClosedLine(st: string, et: string, a: string, start: Instant, end: Instant)
    requires |st| == 19 && ParseDate(st) == Ok(Some(start))
    requires |et| == 19 && ParseDate(et) == Ok(Some(end)) && start <= end
    ensures ParsedLine(st + " " + et + " " + a) == Ok(Item(start, At(end), Unescaped(a)))
  {
    ClosedLayout(st, et, a);
    ParsedLineLayout(st + " " + et + " " + a, start);
  }

  /** A readable start followed by a timestamp-shaped text: the text is read as the end. */
  lemma ReadTimestampActivity(st: string, a: string, start: Instant)
    requires |st| == 19 && ParseDate(st) == Ok(Some(start))
    requires |a| >= 19 && LooksLikeTimestamp(a[..19])
    ensures var r := ParsedLine(st + " " + a);
      (!ValidDateTime(TimestampFields(a[..19])) ==> r == Err(InvalidDate))
      && (ValidDateTime(TimestampFields(a[..19])) ==>
            r == Err(EndBeforeStart) || (r.Ok? && r.value.end == At(ToInstant(TimestampFields(a[..19])))))
  {
    OpenLayout(st, a);
  }

  /**
   * A line written for an item with four-digit years reads back as the item with its activity's
   * line breaks normalised, unless the item is open and its escaped activity starts with text
   * shaped like a timestamp.
   */
  lemma LineRoundTrip(item: Item)
    requires ValidItem(item) && InFourDigitYears(item.start)
    requires item.end.At? ==> InFourDigitYears(item.end.time)
    requires var a := Escaped(item.activity); item.end.Open? && |a| >= 19 ==> !LooksLikeTimestamp(a[..19])
    ensures ParsedLine(Line(item)) == Ok(item.(activity := NormalizeNewlines(item.activity)))
  {
    var st := DateTimeText(FromInstant(item.start));
    var a := Escaped(item.activity);
    LineJoins(item);
    ParseWrittenDate(item.start);
    EscapeRoundTrip(item.activity);
    if item.end.At? {
      ParseWrittenDate(item.end.time);
      ReadClosedLine(st, DateTimeText(FromInstant(item.end.time)), a, item.start, item.end.time);
    } else {
      ReadOpenLine(st, a, item.start);
    }
  }

  /** An item written without carriage returns in its activity reads back as itself. */
  lemma LineRoundTripExact(item: Item)
    requires ValidItem(item) && InFourDigitYears(item.start)
    requires item.end.At? ==> InFourDigitYears(item.end.time)
    requires var a := Escaped(item.activity); item.end.Open? && |a| >= 19 ==> !LooksLikeTimestamp(a[..19])
    requires '\r' !in item.activity
    ensures ParsedLine(Line(item)) == Ok(item)
  {
    LineRoundTrip(item);
    NormalizeWithoutCarriageReturn(item.activity);
  }

  /**
   * An open item whose escaped activity starts with a timestamp-shaped text is not read back as
   * open: the text is taken as an end, and reading fails when its fields are not a date-time.
   */
  lemma OpenItemWithTimestampActivity(item: Item)
    requires ValidItem(item) && InFourDigitYears(item.start) && item.end == Open
    requires var a := Escaped(item.activity); |a| >= 19 && LooksLikeTimestamp(a[..19])
    ensures var r := ParsedLine(Line(item)); var a := Escaped(item.activity);
      (!ValidDateTime(TimestampFields(a[..19])) ==> r == Err(InvalidDate))
      && (ValidDateTime(TimestampFields(a[..19])) ==>
            r == Err(EndBeforeStart) || (r.Ok? && r.value.end == At(ToInstant(TimestampFields(a[..19])))))
  {
    LineJoins(item);
    ParseWrittenDate(item.start);
    ReadTimestampActivity(DateTimeText(FromInstant(item.start)), Escaped(item.activity), item.start);
  }

  /**
   * Where `lineToTimeTrackingItem` reads: the start from 0..19, an end only from a line of at least
   * 39 characters whose 20..39 look like a timestamp, and the activity from 40 after an end, from 20
   * otherwise, empty when the line stops before it.
   */
  lemma ParsedLineLayout(line: string, start: Instant)
    requires |line| >= 19 && ParseDate(line[..19]) == Ok(Some(start))
    ensures |line| < 39 || !LooksLikeTimestamp(line[20..39]) ==>
      ParsedLine(line) == Ok(Item(start, Open, if |line| > 20 then Unescaped(line[20..]) else ""))
    ensures |line| >= 39 && ParseDate(line[20..39]).Ok? && ParseDate(line[20..39]).value.Some? ==>
      var end := ParseDate(line[20..39]).value.value;
      ParsedLine(line) == if end < start then Err(EndBeforeStart)
        else Ok(Item(start, At(end), if |line| > 40 then Unescaped(line[40..]) else ""))
  {
  }

  /** `timeTrackingItemToLine`, building the line in a `StringBuilder`. */
  method TimeTrackingItemToLine(item: Item) returns (line: string)
    ensures line == Line(item)
  {
    var builder := DateTimeText(FromInstant(item.start));
    builder := builder + " ";
    if item.end.At? {
      builder := builder + DateTimeText(FromInstant(item.end.time));
      builder := builder + " ";
    }
    line := Escape(builder, item.activity);
    LineJoins(item);
  }

  /** `lineToTimeTrackingItem`: an exception is returned as the error that names it. */
  method LineToTimeTrackingItem(line: string) returns (r: Result<Item, LineError>)
    ensures r == ParsedLine(line)
  {
    if |line| < 19 {
      return Err(TooShort);
    }
    var start := ParseDate(line[..19]);
    if start.Err? {
      return Err(start.error);
    }
    if start.value.None? {
      return Err(NotADate);
    }
    var end: Result<Option<Instant>, LineError> := Ok(None);
    if |line| >= 39 {
      end := ParseDate(line[20..39]);
    }
    if end.Err? {
      return Err(end.error);
    }
    var activityStart := if end.value.None? then 20 else 40;
    var activity := "";
    if |line| > activityStart {
      activity := Unescape(line[activityStart..]);
    }
    var endAt := if end.value.Some? then Some(Whole(end.value.value)) else None;
    var item := Create(activity, Whole(start.value.value), endAt);
    if item.Err? {
      return Err(EndBeforeStart);
    }
    r := Ok(item.value);
  }
}
