/**
 * `SummingReportGenerator.createReport`: one entry per activity with the summed durations of its
 * items (negative ones counted as zero), sorted by activity, the report's start and end, and the
 * time no item covers. An open item ends at `now`; the category lookup is the parameter `isBreak`.
 */
module SummingReport {
  import opened Wrappers
  import opened Calendar
  import opened Tti
  import opened Database

  datatype ReportingItem = ReportingItem(duration: int, comment: string, isBreak: bool)

  datatype Report = Report(reportingItems: seq<ReportingItem>, start: Option<Instant>, end: Option<Instant>,
                           uncoveredDuration: int)

  /** `item.end ?: now` */
  function EndOrNow(e: Ending, now: Instant): Instant {
    if e.At? then e.time else now
  }

  /** `Duration.between(start, end)`, zero when negative. */
  function ClampedDuration(x: Item, now: Instant): (d: int)
    ensures d >= 0
  {
    var d := EndOrNow(x.end, now) - x.start;
    if d < 0 then 0 else d
  }

  /** The time between the end of `previous` and the start of `x`, when positive. */
  function Gap(previous: Item, x: Item, now: Instant): (g: int)
    ensures g >= 0
  {
    var endOfLastItem := EndOrNow(previous.end, now);
    if endOfLastItem < x.start then x.start - endOfLastItem else 0
  }

  /** The sum of the positive gaps between consecutive items. */
  function Uncovered(s: seq<Item>, now: Instant): (u: int)
    ensures u >= 0
  {
    if |s| <= 1 then 0 else Uncovered(s[..|s| - 1], now) + Gap(s[|s| - 2], s[|s| - 1], now)
  }

  /** The sum of the clamped durations of all items. */
  function Covered(s: seq<Item>, now: Instant): int {
    if s == [] then 0 else Covered(s[..|s| - 1], now) + ClampedDuration(s[|s| - 1], now)
  }

  /** The collecting map after the items of `s`: per activity, the running sum of durations. */
  function Totals(s: seq<Item>, now: Instant): map<string, int> {
    if s == [] then map[] else Collected(Totals(s[..|s| - 1], now), s[|s| - 1], now)
  }

  /** The collecting map with the clamped duration of `x` added to its activity's sum. */
  function Collected(m: map<string, int>, x: Item, now: Instant): map<string, int> {
    var d := ClampedDuration(x, now);
    m[x.activity := if x.activity in m then m[x.activity] + d else d]
  }

  /** The sum of the clamped durations of the items with activity `c`. */
  function ActivityTotal(s: seq<Item>, c: string, now: Instant): int {
    if s == [] then 0
    else ActivityTotal(s[..|s| - 1], c, now) + (if s[|s| - 1].activity == c then ClampedDuration(s[|s| - 1], now) else 0)
  }

  /** The collecting map has exactly the activities of the items, each with its items' total. */
  lemma {:induction false} TotalsPerActivity(s: seq<Item>, now: Instant)
    ensures forall c :: c in Totals(s, now) <==> exists i :: 0 <= i < |s| && s[i].activity == c
    ensures forall c :: c in Totals(s, now) ==> Totals(s, now)[c] == ActivityTotal(s, c, now)
  {
    if s != [] {
      var init := s[..|s| - 1];
      TotalsPerActivity(init, now);
      forall c ensures c in Totals(s, now) <==> exists i :: 0 <= i < |s| && s[i].activity == c {
        if exists i :: 0 <= i < |init| && init[i].activity == c {
          var i :| 0 <= i < |init| && init[i].activity == c;
          assert s[i] == init[i];
        }
        if exists i :: 0 <= i < |s| && s[i].activity == c {
          var i :| 0 <= i < |s| && s[i].activity == c;
          if i < |init| {
            assert init[i] == s[i];
          }
        }
      }
      forall c | c in Totals(init, now) && c != s[|s| - 1].activity
        ensures ActivityTotal(s, c, now) == Totals(init, now)[c]
      {
      }
      if s[|s| - 1].activity !in Totals(init, now) {
        ActivityTotalAbsent(init, s[|s| - 1].activity, now);
      }
    }
  }

  lemma {:induction false} ActivityTotalAbsent(s: seq<Item>, c: string, now: Instant)
    requires forall i :: 0 <= i < |s| ==> s[i].activity != c
    ensures ActivityTotal(s, c, now) == 0
  {
    if s != [] {
      ActivityTotalAbsent(s[..|s| - 1], c, now);
    }
  }

  /**
   * On a timeline, the covered and the uncovered time add up to the span of the report, from the
   * first start to the last end (`now` for an open last item that started by then).
   */
  lemma {:induction false} CoveredAndUncoveredSpan(s: seq<Item>, now: Instant)
    requires Wellformed(s) && s != []
    requires s[|s| - 1].end == Open ==> s[|s| - 1].start <= now
    ensures Covered(s, now) + Uncovered(s, now) == EndOrNow(s[|s| - 1].end, now) - s[0].start
  {
    if |s| > 1 {
      var init := s[..|s| - 1];
      WellformedSlice(s, 0, |s| - 1);
      assert Precedes(s[|s| - 2], s[|s| - 1]);
      CoveredAndUncoveredSpan(init, now);
    } else {
      assert ValidItem(s[0]);
    }
  }

  // ---------------------------------------------------------------------------------------
  // Sorting by activity

  /** `String.compareTo(...) < 0`: lexicographic by character, a proper prefix first. */
  predicate StringLess(a: string, b: string)
    decreases |a|
  {
    if a == [] then b != []
    else if b == [] then false
    else if a[0] != b[0] then a[0] < b[0]
    else StringLess(a[1..], b[1..])
  }

  lemma {:induction false} StringLessIrreflexive(a: string)
    ensures !StringLess(a, a)
    decreases |a|
  {
    if a != [] {
      StringLessIrreflexive(a[1..]);
    }
  }

  lemma {:induction false} StringLessTotal(a: string, b: string)
    ensures a == b || StringLess(a, b) || StringLess(b, a)
    decreases |a|
  {
    if a != [] && b != [] && a[0] == b[0] {
      StringLessTotal(a[1..], b[1..]);
      if a[1..] == b[1..] {
        assert a == [a[0]] + a[1..] && b == [b[0]] + b[1..];
      }
    }
  }

  lemma {:induction false} StringLessTransitive(a: string, b: string, c: string)
    requires StringLess(a, b) && StringLess(b, c)
    ensures StringLess(a, c)
    decreases |a|
  {
    if a != [] && a[0] == b[0] && b[0] == c[0] {
      StringLessTransitive(a[1..], b[1..], c[1..]);
    }
  }

  /** The order `sortWith` uses is a strict total order on activities. */
  lemma StringLessIsStrictTotalOrder(a: string, b: string, c: string)
    ensures !StringLess(a, a)
    ensures a == b || StringLess(a, b) || StringLess(b, a)
    ensures !(StringLess(a, b) && StringLess(b, a))
    ensures StringLess(a, b) && StringLess(b, c) ==> StringLess(a, c)
  {
    StringLessIrreflexive(a);
    StringLessTotal(a, b);
    if StringLess(a, b) && StringLess(b, a) {
      StringLessTransitive(a, b, a);
    }
    if StringLess(a, b) && StringLess(b, c) {
      StringLessTransitive(a, b, c);
    }
  }

  predicate SortedByComment(r: seq<ReportingItem>) {
    forall i, j :: 0 <= i < j < |r| ==> !StringLess(r[j].comment, r[i].comment)
  }

  function InsertByComment(x: ReportingItem, r: seq<ReportingItem>): seq<ReportingItem> {
    if r == [] then [x]
    else if StringLess(x.comment, r[0].comment) then [x] + r
    else [r[0]] + InsertByComment(x, r[1..])
  }

  /** `sortWith(comparing { it.comment })` */
  function SortByComment(l: seq<ReportingItem>): seq<ReportingItem> {
    if l == [] then [] else InsertByComment(l[0], SortByComment(l[1..]))
  }

  lemma InsertInFront(x: ReportingItem, r: seq<ReportingItem>)
    requires SortedByComment(r) && r != [] && StringLess(x.comment, r[0].comment)
    ensures SortedByComment([x] + r)
  {
    var q := [x] + r;
    forall j | 0 < j < |q| ensures !StringLess(q[j].comment, x.comment) {
      if StringLess(q[j].comment, x.comment) {
        StringLessTransitive(q[j].comment, x.comment, r[0].comment);
        if j == 1 {
          StringLessIrreflexive(r[0].comment);
        }
      }
    }
  }

  lemma InsertBehind(y: ReportingItem, t: seq<ReportingItem>)
    requires SortedByComment(t)
    requires forall z :: z in t ==> !StringLess(z.comment, y.comment)
    ensures SortedByComment([y] + t)
  {
    var q := [y] + t;
    forall i, j | 0 <= i < j < |q| ensures !StringLess(q[j].comment, q[i].comment) {
      if i == 0 {
        assert q[j] in t;
      } else {
        assert q[i] == t[i - 1] && q[j] == t[j - 1];
      }
    }
  }

  lemma {:induction false} InsertByCommentSorted(x: ReportingItem, r: seq<ReportingItem>)
    requires SortedByComment(r)
    ensures SortedByComment(InsertByComment(x, r))
    ensures multiset(InsertByComment(x, r)) == multiset(r) + multiset{x}
  {
    if r == [] {
    } else if StringLess(x.comment, r[0].comment) {
      InsertInFront(x, r);
    } else {
      InsertByCommentSorted(x, r[1..]);
      var t := InsertByComment(x, r[1..]);
      assert r == [r[0]] + r[1..];
      forall z | z in t ensures !StringLess(z.comment, r[0].comment) {
        assert z in multiset(t);
        if z != x {
          assert z in multiset(r[1..]);
          var j :| 0 <= j < |r[1..]| && r[1..][j] == z;
          assert r[j + 1] == z;
        }
      }
      InsertBehind(r[0], t);
    }
  }

  lemma {:induction false} SortByCommentSorted(l: seq<ReportingItem>)
    ensures SortedByComment(SortByComment(l)) && multiset(SortByComment(l)) == multiset(l)
  {
    if l != [] {
      SortByCommentSorted(l[1..]);
      InsertByCommentSorted(l[0], SortByComment(l[1..]));
      assert l == [l[0]] + l[1..];
    }
  }

  // ---------------------------------------------------------------------------------------
  // The report

  /** The entries are the collecting map's, one per activity, with the activity's category. */
  predicate EntriesOf(r: seq<ReportingItem>, totals: map<string, int>, isBreak: string -> bool) {
    (forall e :: e in r ==> e.comment in totals && e.duration == totals[e.comment] && e.isBreak == isBreak(e.comment))
    && (forall c :: c in totals ==> exists e :: e in r && e.comment == c)
    && (forall i, j :: 0 <= i < j < |r| ==> r[i].comment != r[j].comment)
  }

  lemma SortKeepsEntries(r: seq<ReportingItem>, totals: map<string, int>, isBreak: string -> bool)
    requires EntriesOf(r, totals, isBreak)
    ensures EntriesOf(SortByComment(r), totals, isBreak) && SortedByComment(SortByComment(r))
  {
    var q := SortByComment(r);
    SortByCommentSorted(r);
    SameElements(q, r);
    forall i, j | 0 <= i < j < |q| ensures q[i].comment != q[j].comment {
      if q[i].comment == q[j].comment {
        assert q[i] in r && q[j] in r;
        TwiceCounted(q, i, j);
        DistinctOnce(r, q[i]);
      }
    }
  }

  lemma SameElements(q: seq<ReportingItem>, r: seq<ReportingItem>)
    requires multiset(q) == multiset(r)
    ensures forall e :: e in q <==> e in r
  {
    forall e ensures e in q <==> e in r {
      assert e in q <==> e in multiset(q);
      assert e in r <==> e in multiset(r);
    }
  }

  lemma TwiceCounted(q: seq<ReportingItem>, i: nat, j: nat)
    requires i < j < |q| && q[i] == q[j]
    ensures multiset(q)[q[i]] >= 2
  {
    assert q == q[..i] + [q[i]] + q[i + 1..j] + [q[j]] + q[j + 1..];
  }

  lemma DistinctOnce(r: seq<ReportingItem>, e: ReportingItem)
    requires forall i, j :: 0 <= i < j < |r| ==> r[i].comment != r[j].comment
    ensures multiset(r)[e] <= 1
  {
    if r != [] {
      assert r == [r[0]] + r[1..];
      DistinctOnce(r[1..], e);
      if r[0] == e {
        assert forall j :: 0 <= j < |r[1..]| ==> r[1..][j] == r[j + 1];
      }
    }
  }

  /** The collecting map and the uncovered time after one more item. */
  lemma PrefixStep(items: seq<Item>, i: nat, now: Instant)
    requires i < |items|
    ensures Totals(items[..i + 1], now) == Collected(Totals(items[..i], now), items[i], now)
    ensures Uncovered(items[..i + 1], now) == Uncovered(items[..i], now) + (if i > 0 then Gap(items[i - 1], items[i], now) else 0)
  {
    var next := items[..i + 1];
    assert next[..i] == items[..i] && next[i] == items[i];
    if i > 0 {
      assert next[i - 1] == items[i - 1];
    }
  }

  /** The loop of `createReport` over the items: first start, last end, the collecting map and the gaps. */
  method CollectItems(items: seq<Item>, now: Instant)
    returns (startOfReport: Option<Instant>, endOfReport: Option<Instant>, collectingMap: map<string, int>,
             uncoveredDuration: int)
    ensures startOfReport == (if items == [] then None else Some(items[0].start))
    ensures endOfReport == (if items == [] then None else Some(EndOrNow(items[|items| - 1].end, now)))
    ensures collectingMap == Totals(items, now)
    ensures uncoveredDuration == Uncovered(items, now)
  {
    startOfReport, endOfReport, collectingMap, uncoveredDuration := None, None, map[], 0;
    var lastItem: Option<Item> := None;
    var i := 0;
    while i < |items|
      invariant 0 <= i <= |items|
      invariant lastItem == (if i == 0 then None else Some(items[i - 1]))
      invariant startOfReport == (if i == 0 then None else Some(items[0].start))
      invariant endOfReport == (if i == 0 then None else Some(EndOrNow(items[i - 1].end, now)))
      invariant collectingMap == Totals(items[..i], now)
      invariant uncoveredDuration == Uncovered(items[..i], now)
    {
      var item := items[i];
      var start := item.start;
      var end := EndOrNow(item.end, now);
      ghost var uncoveredBefore := uncoveredDuration;
      if lastItem.Some? {
        var endOfLastItem := EndOrNow(lastItem.value.end, now);
        if endOfLastItem < start {
          uncoveredDuration := uncoveredDuration + (start - endOfLastItem);
        }
      }
      assert uncoveredDuration == uncoveredBefore + (if i > 0 then Gap(items[i - 1], item, now) else 0);
      lastItem := Some(item);
      if startOfReport.None? {
        startOfReport := Some(start);
      }
      endOfReport := Some(end);
      var duration := end - start;
      if duration < 0 {
        duration := 0;
      }
      assert duration == ClampedDuration(item, now);
      ghost var before := collectingMap;
      var comment := item.activity;
      if comment in collectingMap {
        collectingMap := collectingMap[comment := collectingMap[comment] + duration];
      } else {
        collectingMap := collectingMap[comment := duration];
      }
      assert collectingMap == Collected(before, item, now);
      PrefixStep(items, i, now);
      assert collectingMap == Totals(items[..i + 1], now);
      assert uncoveredDuration == Uncovered(items[..i + 1], now);
      i := i + 1;
    }
    assert items[..|items|] == items;
  }

  /** `createReport`, with the clock read as `now` and the categorizer as `isBreak`. */
  method CreateReport(items: seq<Item>, now: Instant, isBreak: string -> bool) returns (report: Report)
    ensures report.start == (if items == [] then None else Some(items[0].start))
    ensures report.end == (if items == [] then None else Some(EndOrNow(items[|items| - 1].end, now)))
    ensures report.uncoveredDuration == Uncovered(items, now)
    ensures EntriesOf(report.reportingItems, Totals(items, now), isBreak)
    ensures SortedByComment(report.reportingItems)
  {
    var startOfReport, endOfReport, collectingMap, uncoveredDuration := CollectItems(items, now);
    var reportList := ListEntries(collectingMap, isBreak);
    SortKeepsEntries(reportList, collectingMap, isBreak);
    report := Report(SortByComment(reportList), startOfReport, endOfReport, uncoveredDuration);
  }

  /** One entry per activity of the collecting map, in the map's (unspecified) order. */
  method ListEntries(collectingMap: map<string, int>, isBreak: string -> bool) returns (reportList: seq<ReportingItem>)
    ensures EntriesOf(reportList, collectingMap, isBreak)
  {
    reportList := [];
    var remaining := collectingMap.Keys;
    while remaining != {}
      invariant remaining <= collectingMap.Keys
      invariant forall e :: e in reportList ==>
        e.comment in collectingMap && e.comment !in remaining
        && e.duration == collectingMap[e.comment] && e.isBreak == isBreak(e.comment)
      invariant forall c :: c in collectingMap && c !in remaining ==> exists e :: e in reportList && e.comment == c
      invariant forall i, j :: 0 <= i < j < |reportList| ==> reportList[i].comment != reportList[j].comment
      decreases |remaining|
    {
      var comment :| comment in remaining;
      var entry := ReportingItem(collectingMap[comment], comment, isBreak(comment));
      reportList := reportList + [entry];
      assert entry in reportList;
      remaining := remaining - {comment};
    }
  }
}
