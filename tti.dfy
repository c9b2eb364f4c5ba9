/**
 * The activity interval of the Rust implementation (`src/tti.rs`): an `Ending` that is either
 * open or closed at an instant, with its total order; the item with its two constructors; and
 * the one-line storage format with its reader.
 */
module Tti {
  import opened Wrappers
  import opened Calendar

  /** The end of an activity: still running, or closed at a whole-second instant. */
  datatype Ending = Open | At(time: Instant)

  /** One labelled interval of the timeline. */
  datatype Item = Item(start: Instant, end: Ending, activity: string)

  /** A stored item never ends before it starts. */
  predicate ValidItem(item: Item) {
    item.end.At? ==> item.start <= item.end.time
  }

  datatype Ordering = Less | Equal | Greater

  function Flip(o: Ordering): Ordering {
    match o
    case Less => Greater
    case Equal => Equal
    case Greater => Less
  }

  function CompareInstants(a: Instant, b: Instant): Ordering {
    if a < b then Less else if a == b then Equal else Greater
  }

  /** `Ord for Ending`: open equals open and is greater than every closed ending. */
  function Cmp(a: Ending, b: Ending): Ordering {
    match a
    case Open => if b == Open then Equal else Greater
    case At(t) =>
      match b
      case Open => Less
      case At(u) => CompareInstants(t, u)
  }

  /** `Cmp` is a total order: antisymmetric, transitive, and equal only on equal endings. */
  lemma CmpIsTotalOrder(a: Ending, b: Ending, c: Ending)
    ensures Cmp(a, b) == Equal <==> a == b
    ensures Cmp(b, a) == Flip(Cmp(a, b))
    ensures Cmp(a, b) != Greater && Cmp(b, c) != Greater ==> Cmp(a, c) != Greater
    ensures Cmp(a, b) == Less && Cmp(b, c) != Greater ==> Cmp(a, c) == Less
  {
  }

  lemma OpenIsGreatest(t: Instant)
    ensures Cmp(Open, Open) == Equal
    ensures Cmp(Open, At(t)) == Greater && Cmp(At(t), Open) == Less
  {
  }

  /** `PartialOrd<NaiveDateTime> for Ending`: an ending compared with an instant. */
  function CmpInstant(e: Ending, t: Instant): Ordering {
    match e
    case Open => Greater
    case At(ts) => CompareInstants(ts, t)
  }

  /** `PartialEq<NaiveDateTime> for Ending`: an open ending equals no instant. */
  predicate EqualsInstant(e: Ending, t: Instant) {
    match e
    case Open => false
    case At(ts) => ts == t
  }

  lemma OpenAgainstInstant(e: Ending, t: Instant)
    ensures e == Open ==> CmpInstant(e, t) == Greater && !EqualsInstant(e, t)
    ensures EqualsInstant(e, t) <==> CmpInstant(e, t) == Equal
    ensures CmpInstant(e, t) == Cmp(e, At(t))
  {
  }

  /** `e < t` */
  predicate EndsBefore(e: Ending, t: Instant) {
    CmpInstant(e, t) == Less
  }

  /** `e > t` */
  predicate EndsAfter(e: Ending, t: Instant) {
    CmpInstant(e, t) == Greater
  }

  /** `a <= b` */
  predicate EndingAtMost(a: Ending, b: Ending) {
    Cmp(a, b) != Greater
  }

  // ---------------------------------------------------------------------------------------
  // Constructors

  datatype ItemError = StartAfterEnd | BadFormat | ActivityMissing

  /** `starting_at`: an open item whose start loses its sub-second part. */
  function StartingAt(start: Precise, activity: string): (r: Item)
    ensures ValidItem(r) && r.end == Open
  {
    Item(Truncate(start), Open, activity)
  }

  /** `interval`: refuses an end before the start, compared before truncation. */
  function Interval(start: Precise, end: Precise, activity: string): (r: Result<Item, ItemError>)
    requires ValidPrecise(start) && ValidPrecise(end)
    ensures r.Err? <==> PreciseBefore(end, start)
    ensures r.Err? ==> r.error == StartAfterEnd
    ensures r.Ok? ==> ValidItem(r.value) && r.value.end.At?
  {
    if PreciseBefore(end, start) then Err(StartAfterEnd)
    else
      TruncateMonotone(start, end);
      Ok(Item(Truncate(start), At(Truncate(end)), activity))
  }

  /** Both constructors keep only whole seconds, so instants differing below a second give equal items. */
  lemma ConstructorsTruncate(start: Precise, end: Precise, activity: string, nanos: int, nanos': int)
    requires 0 <= nanos < 1000000000 && 0 <= nanos' < 1000000000
    requires ValidPrecise(start) && ValidPrecise(end) && start.seconds <= end.seconds
    ensures StartingAt(Precise(start.seconds, nanos), activity) == StartingAt(Precise(start.seconds, 0), activity)
    ensures var a := Interval(Precise(start.seconds, 0), Precise(end.seconds, nanos'), activity);
      a.Ok? && a.value.start == start.seconds && a.value.end == At(end.seconds)
  {
  }

  // ---------------------------------------------------------------------------------------
  // The storage line

  /** Decimal digits of a natural number. */
  function Decimal(n: nat): (s: string)
    ensures |s| >= 1
    decreases n
  {
    if n < 10 then [DigitChar(n)] else Decimal(n / 10) + [DigitChar(n % 10)]
  }

  function Zeros(k: nat): string {
    if k == 0 then [] else ['0'] + Zeros(k - 1)
  }

  /** `%Y` of chrono: four digits, with a sign and more digits outside 0000..9999. */
  function ChronoYear(y: int): string {
    var abs := if y < 0 then -y else y;
    var digits := Decimal(abs);
    var padded := if |digits| < 4 then Zeros(4 - |digits|) + digits else digits;
    if y < 0 then "-" + padded else if y > 9999 then "+" + padded else padded
  }

  /** `%Y-%m-%d_%H:%M:%S` of an instant. */
  function FormatTimestamp(t: Instant): string {
    var dt := FromInstant(t);
    if 0 <= dt.year <= 9999 then FormatFields(dt)
    else
      ChronoYear(dt.year) + "-" + Pad2(dt.month) + "-" + Pad2(dt.day) + "_" + Pad2(dt.hour)
      + ":" + Pad2(dt.minute) + ":" + Pad2(dt.second)
  }

  lemma FormatTimestampInRange(t: Instant)
    requires InFourDigitYears(t)
    ensures var s := FormatTimestamp(t);
      |s| == 19 && LooksLikeTimestamp(s) && ValidDateTime(TimestampFields(s))
      && ToInstant(TimestampFields(s)) == t
  {
    FormatFieldsRead(FromInstant(t));
    InstantRoundTrip(t);
  }

  /** `parse_stt_date_time` on a 19-character slice. */
  function ParseSttDateTime(s: string): (r: Result<Instant, ItemError>)
    ensures r.Ok? <==> LooksLikeTimestamp(s) && ValidDateTime(TimestampFields(s))
  {
    if LooksLikeTimestamp(s) && ValidDateTime(TimestampFields(s)) then Ok(ToInstant(TimestampFields(s)))
    else Err(BadFormat)
  }

  /** `str::replace` of one character by a string. */
  function ReplaceChar(s: string, c: char, rep: string): (r: string)
    ensures c !in rep ==> c !in r
  {
    if s == [] then []
    else (if s[0] == c then rep else [s[0]]) + ReplaceChar(s[1..], c, rep)
  }

  /** `str::replace` of a two-character pattern: leftmost matches, never overlapping. */
  function ReplacePair(s: string, a: char, b: char, rep: string): string {
    if |s| >= 2 && s[0] == a && s[1] == b then rep + ReplacePair(s[2..], a, b, rep)
    else if s == [] then []
    else [s[0]] + ReplacePair(s[1..], a, b, rep)
  }

  /** The activity escaping of `to_storage_line`: `\` doubled first, then newline as `\n`. */
  function Escape(activity: string): string {
    ReplaceChar(ReplaceChar(activity, '\\', "\\\\"), '\n', "\\n")
  }

  /** `unescape`: `\n` replaced before `\\`. */
  function Unescape(activity: string): string {
    ReplacePair(ReplacePair(activity, '\\', 'n', "\n"), '\\', '\\', "\\")
  }

  /** `to_storage_line`: start, the end when closed, and the escaped activity, separated by spaces. */
  function ToStorageLine(item: Item): string {
    FormatTimestamp(item.start) + " "
    + (match item.end case Open => "" case At(e) => FormatTimestamp(e) + " ")
    + Escape(item.activity)
  }

  /** `from_str`. Slices are taken by character; every written line is ASCII up to the activity. */
  function FromStr(s: string): (r: Result<Item, ItemError>)
    ensures r.Ok? ==> ValidItem(r.value)
    ensures |s| < 19 ==> r == Err(BadFormat)
    ensures |s| >= 19 && ParseSttDateTime(s[..19]).Err? ==> r == Err(BadFormat)
  {
    if |s| < 19 then Err(BadFormat)
    else
      match ParseSttDateTime(s[..19])
      case Err(_) => Err(BadFormat)
      case Ok(start) =>
        if |s| >= 39 && ParseSttDateTime(s[20..39]).Ok? then
          if |s| < 40 then Err(ActivityMissing)
          else Interval(Whole(start), Whole(ParseSttDateTime(s[20..39]).value), Unescape(s[40..]))
        else if |s| < 20 then Err(ActivityMissing)
        else Ok(StartingAt(Whole(start), Unescape(s[20..])))
  }

  /** The end is read only from a valid timestamp at 20..39; otherwise everything from 20 on is the activity. */
  lemma FromStrLayout(s: string)
    requires |s| >= 19 && ParseSttDateTime(s[..19]).Ok?
    ensures |s| >= 40 && ParseSttDateTime(s[20..39]).Ok? && ParseSttDateTime(s[20..39]).value >= ParseSttDateTime(s[..19]).value
            ==> FromStr(s) == Ok(Item(ParseSttDateTime(s[..19]).value, At(ParseSttDateTime(s[20..39]).value), Unescape(s[40..])))
    ensures (|s| < 39 || ParseSttDateTime(s[20..39]).Err?) && |s| >= 20
            ==> FromStr(s) == Ok(Item(ParseSttDateTime(s[..19]).value, Open, Unescape(s[20..])))
    ensures (|s| < 20 || (|s| == 39 && ParseSttDateTime(s[20..39]).Ok?)) ==> FromStr(s) == Err(ActivityMissing)
  {
  }

  // ---------------------------------------------------------------------------------------
  // Round trip of the storage line

  /** An activity with a backslash directly followed by `n`. */
  predicate NoBackslashN(a: string) {
    forall i :: 0 <= i < |a| - 1 ==> !(a[i] == '\\' && a[i + 1] == 'n')
  }

  /** The escaping of one character. */
  function EscapeChar(c: char): string {
    if c == '\\' then "\\\\" else if c == '\n' then "\\n" else [c]
  }

  lemma {:induction false} EscapeCons(a: string)
    requires a != []
    ensures Escape(a) == EscapeChar(a[0]) + Escape(a[1..])
  {
    var d := ReplaceChar(a, '\\', "\\\\");
    assert d == (if a[0] == '\\' then "\\\\" else [a[0]]) + ReplaceChar(a[1..], '\\', "\\\\");
    ReplaceCharAppend(if a[0] == '\\' then "\\\\" else [a[0]], ReplaceChar(a[1..], '\\', "\\\\"), '\n', "\\n");
    if a[0] == '\\' {
      assert ReplaceChar("\\\\", '\n', "\\n") == "\\\\" by {
        assert ReplaceChar("\\\\"[1..], '\n', "\\n") == "\\";
      }
    }
  }

  lemma {:induction false} ReplaceCharAppend(x: string, y: string, c: char, rep: string)
    ensures ReplaceChar(x + y, c, rep) == ReplaceChar(x, c, rep) + ReplaceChar(y, c, rep)
  {
    if x != [] {
      assert (x + y)[1..] == x[1..] + y;
      ReplaceCharAppend(x[1..], y, c, rep);
    } else {
      assert x + y == y;
    }
  }

  /** The activity with only backslashes doubled (what is left after `\n` is read back). */
  function DoubleBackslashes(a: string): string {
    if a == [] then [] else (if a[0] == '\\' then "\\\\" else [a[0]]) + DoubleBackslashes(a[1..])
  }

  /** Reading `\n` back: a plain character passes through. */
  lemma ReadPlain(s: string, c: char)
    requires c != '\\'
    ensures ReplacePair([c] + s, '\\', 'n', "\n") == [c] + ReplacePair(s, '\\', 'n', "\n")
  {
    assert ([c] + s)[1..] == s;
  }

  /** Reading `\n` back: an escaped backslash not followed by `n` passes through. */
  lemma ReadDoubled(s: string)
    requires s == [] || s[0] != 'n'
    ensures ReplacePair("\\\\" + s, '\\', 'n', "\n") == "\\\\" + ReplacePair(s, '\\', 'n', "\n")
  {
    var u := "\\" + s;
    assert u[1..] == s;
    assert ReplacePair(u, '\\', 'n', "\n") == "\\" + ReplacePair(s, '\\', 'n', "\n");
    assert ("\\\\" + s)[1..] == u;
  }

  /** Reading `\n` back: an escaped newline becomes a newline. */
  lemma ReadEscapedNewline(s: string)
    ensures ReplacePair("\\n" + s, '\\', 'n', "\n") == "\n" + ReplacePair(s, '\\', 'n', "\n")
  {
    assert ("\\n" + s)[2..] == s;
  }

  lemma {:induction false} ReadNewlines(a: string)
    requires NoBackslashN(a)
    ensures ReplacePair(Escape(a), '\\', 'n', "\n") == DoubleBackslashes(a)
  {
    if a == [] {
      assert Escape(a) == [];
    } else {
      var r := a[1..];
      EscapeCons(a);
      assert NoBackslashN(r) by {
        forall i | 0 <= i < |r| - 1 ensures !(r[i] == '\\' && r[i + 1] == 'n') {
          assert r[i] == a[i + 1] && r[i + 1] == a[i + 2];
        }
      }
      ReadNewlines(r);
      var er := Escape(r);
      if a[0] == '\\' {
        assert er == [] || er[0] != 'n' by {
          if r != [] {
            EscapeCons(r);
            assert a[1] != 'n';
          }
        }
        ReadDoubled(er);
      } else if a[0] == '\n' {
        ReadEscapedNewline(er);
      } else {
        ReadPlain(er, a[0]);
      }
    }
  }

  lemma {:induction false} ReadBackslashes(a: string)
    ensures ReplacePair(DoubleBackslashes(a), '\\', '\\', "\\") == a
  {
    if a != [] {
      ReadBackslashes(a[1..]);
      var d := DoubleBackslashes(a);
      if a[0] == '\\' {
        assert d[2..] == DoubleBackslashes(a[1..]);
      } else {
        assert d[1..] == DoubleBackslashes(a[1..]);
      }
    }
  }

  /** Without a backslash followed by `n`, unescaping undoes escaping. */
  lemma EscapeRoundTrip(a: string)
    requires NoBackslashN(a)
    ensures Unescape(Escape(a)) == a
  {
    ReadNewlines(a);
    ReadBackslashes(a);
  }

  /** A backslash followed by `n` is read back as a backslash and a newline. */
  lemma BackslashNIsNotRestored()
    ensures Unescape(Escape("\\n")) == "\\\n" && "\\\n" != "\\n"
  {
    EscapeCons("\\n");
    EscapeCons("n");
    assert Escape("\\n") == "\\\\n" by { assert Escape([]) == []; }
    var e := "\\\\n";
    assert e[1..] == "\\n" && e[1..][2..] == [];
    assert ReplacePair(e, '\\', 'n', "\n") == "\\\n";
    var u := "\\\n";
    assert u[1..] == "\n" && u[1..][1..] == [];
    assert ReplacePair(u, '\\', '\\', "\\") == u;
  }

  /** `unescape` as evidently intended: one left-to-right pass over `\\` and `\n`. */
  function UnescapeFixed(s: string): string {
    if |s| >= 2 && s[0] == '\\' && s[1] == 'n' then "\n" + UnescapeFixed(s[2..])
    else if |s| >= 2 && s[0] == '\\' && s[1] == '\\' then "\\" + UnescapeFixed(s[2..])
    else if s == [] then []
    else [s[0]] + UnescapeFixed(s[1..])
  }

  /** The single-pass unescape undoes escaping for every activity. */
  lemma {:induction false} EscapeRoundTripFixed(a: string)
    ensures UnescapeFixed(Escape(a)) == a
  {
    if a == [] {
      assert Escape(a) == [];
    } else {
      EscapeCons(a);
      EscapeRoundTripFixed(a[1..]);
      var e := Escape(a);
      if a[0] == '\\' || a[0] == '\n' {
        assert e[2..] == Escape(a[1..]);
      } else {
        assert e[1..] == Escape(a[1..]);
      }
    }
  }

  /** Escaping keeps the characters before the first backslash it writes. */
  lemma {:induction false} EscapeKeepsPlainPrefix(a: string, k: nat)
    requires k <= |Escape(a)| && forall j :: 0 <= j < k ==> Escape(a)[j] != '\\'
    ensures k <= |a| && Escape(a)[..k] == a[..k]
    decreases k
  {
    if k > 0 {
      assert a != [];
      EscapeCons(a);
      assert EscapeChar(a[0]) == [a[0]] by { assert Escape(a)[0] != '\\'; }
      var e := Escape(a);
      assert e == [a[0]] + Escape(a[1..]);
      forall j | 0 <= j < k - 1 ensures Escape(a[1..])[j] != '\\' {
        assert Escape(a[1..])[j] == e[j + 1];
      }
      EscapeKeepsPlainPrefix(a[1..], k - 1);
      assert a[..k] == [a[0]] + a[1..][..k - 1];
    }
  }

  /** An activity that does not start like a timestamp does not escape to one. */
  lemma EscapedNotTimestamp(a: string)
    requires !LooksLikeTimestamp(a)
    ensures !LooksLikeTimestamp(Escape(a))
  {
    if LooksLikeTimestamp(Escape(a)) {
      EscapeKeepsPlainPrefix(a, 19);
      assert Escape(a)[..19] == a[..19];
      assert forall j :: 0 <= j < 19 ==> a[j] == Escape(a)[j];
      assert false;
    }
  }

  /** A timestamp in the four-digit years is written in 19 characters and read back. */
  lemma ParseFormatted(t: Instant)
    requires InFourDigitYears(t)
    ensures |FormatTimestamp(t)| == 19 && ParseSttDateTime(FormatTimestamp(t)) == Ok(t)
  {
    FormatTimestampInRange(t);
  }

  /** A line with two timestamps and an activity is read as a closed item. */
  lemma ReadClosedLine(st: string, et: string, esc: string, start: Instant, end: Instant)
    requires |st| == 19 && |et| == 19 && start <= end
    requires ParseSttDateTime(st) == Ok(start) && ParseSttDateTime(et) == Ok(end)
    ensures FromStr(st + " " + et + " " + esc) == Ok(Item(start, At(end), Unescape(esc)))
  {
    var line := st + " " + et + " " + esc;
    assert line[..19] == st && line[20..39] == et && line[40..] == esc;
  }

  /** The line of a closed item, as one concatenation. */
  lemma ClosedStorageLine(item: Item, st: string, et: string, esc: string)
    requires item.end.At? && st == FormatTimestamp(item.start) && et == FormatTimestamp(item.end.time)
    requires esc == Escape(item.activity)
    ensures ToStorageLine(item) == st + " " + et + " " + esc
  {
    Regroup(st + " ", et, " ", esc);
  }

  lemma Regroup<T>(a: seq<T>, b: seq<T>, c: seq<T>, d: seq<T>)
    ensures a + (b + c) + d == a + b + c + d
  {
  }

  lemma StorageLineReadClosed(item: Item)
    requires ValidItem(item) && item.end.At?
    requires InFourDigitYears(item.start) && InFourDigitYears(item.end.time)
    ensures FromStr(ToStorageLine(item)) == Ok(item.(activity := Unescape(Escape(item.activity))))
  {
    var st, et := FormatTimestamp(item.start), FormatTimestamp(item.end.time);
    ParseFormatted(item.start);
    ParseFormatted(item.end.time);
    ReadClosedLine(st, et, Escape(item.activity), item.start, item.end.time);
    ClosedStorageLine(item, st, et, Escape(item.activity));
  }

  /** A line with one timestamp and an activity that does not start like one is read as an open item. */
  lemma ReadOpenLine(st: string, esc: string, start: Instant)
    requires |st| == 19 && ParseSttDateTime(st) == Ok(start) && !LooksLikeTimestamp(esc)
    ensures FromStr(st + " " + esc) == Ok(Item(start, Open, Unescape(esc)))
  {
    var line := st + " " + esc;
    assert line[..19] == st && line[20..] == esc;
    if |line| >= 39 {
      assert line[20..39] == esc[..19];
      assert !LooksLikeTimestamp(line[20..39]);
    }
  }

  lemma StorageLineReadOpen(item: Item)
    requires item.end.Open? && InFourDigitYears(item.start)
    requires !LooksLikeTimestamp(item.activity)
    ensures FromStr(ToStorageLine(item)) == Ok(item.(activity := Unescape(Escape(item.activity))))
  {
    var st := FormatTimestamp(item.start);
    ParseFormatted(item.start);
    EscapedNotTimestamp(item.activity);
    ReadOpenLine(st, Escape(item.activity), item.start);
    assert ToStorageLine(item) == st + " " + Escape(item.activity) by {
      assert st + " " + "" == st + " ";
    }
  }

  /** What `to_storage_line` writes, `from_str` reads back with the activity unescaped. */
  lemma StorageLineRead(item: Item)
    requires ValidItem(item) && InFourDigitYears(item.start)
    requires item.end.At? ==> InFourDigitYears(item.end.time)
    requires item.end.Open? ==> !LooksLikeTimestamp(item.activity)
    ensures FromStr(ToStorageLine(item)) == Ok(item.(activity := Unescape(Escape(item.activity))))
  {
    if item.end.At? {
      StorageLineReadClosed(item);
    } else {
      StorageLineReadOpen(item);
    }
  }

  /** The storage line round-trips for activities without a backslash followed by `n`. */
  lemma StorageLineRoundTrip(item: Item)
    requires ValidItem(item) && InFourDigitYears(item.start)
    requires item.end.At? ==> InFourDigitYears(item.end.time)
    requires item.end.Open? ==> !LooksLikeTimestamp(item.activity)
    requires NoBackslashN(item.activity)
    ensures FromStr(ToStorageLine(item)) == Ok(item)
  {
    StorageLineRead(item);
    EscapeRoundTrip(item.activity);
  }
}
