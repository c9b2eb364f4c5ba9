/**
 * `OvertimeReportGenerator`: per day, the time worked on WORKTIME items against the day's
 * working-time bounds, overwritten by the absence days; their sum; and the days of a range.
 * The categorizer is the parameter `isWork`, the working time of a date the parameter
 * `workingTime`, the absences the map `absences`, and the clock `now`.
 */
module OvertimeReport {
  import opened Wrappers
  import opened Calendar
  import opened Tti
  import opened TimeText
  import opened SummingReport

  /** A `WorkingtimeItem`: the least and the most time to work on a day, in seconds. */
  datatype WorkingTime = WorkingTime(min: int, max: int)

  /** `getOvertime(date, duration)`: the time above the maximum or below the minimum, else zero. */
  function OvertimeFor(duration: int, w: WorkingTime): int {
    if duration > w.max then duration - w.max
    else if duration < w.min then duration - w.min
    else 0
  }

  /** The duration moved into the bounds `[min, max]`. */
  function Clamp(duration: int, w: WorkingTime): int
    requires w.min <= w.max
  {
    if duration < w.min then w.min else if duration > w.max then w.max else duration
  }

  /**
   * The overtime is what the working-time bounds cut off the duration: positive above the
   * maximum, negative below the minimum, and zero exactly inside `[min, max]`.
   */
  lemma OvertimeIsClampRemainder(duration: int, w: WorkingTime)
    requires w.min <= w.max
    ensures OvertimeFor(duration, w) == duration - Clamp(duration, w)
    ensures OvertimeFor(duration, w) > 0 <==> duration > w.max
    ensures OvertimeFor(duration, w) < 0 <==> duration < w.min
    ensures OvertimeFor(duration, w) == 0 <==> w.min <= duration <= w.max
  {
  }

  /** `Duration.between(start, end ?: now)`, negative when the item ends before it starts. */
  function ItemDuration(x: Item, now: Instant): int {
    EndOrNow(x.end, now) - x.start
  }

  /** The per-day map after the items of `s`: for each start day of a work item, the running sum. */
  function DayTotals(s: seq<Item>, isWork: string -> bool, now: Instant): map<int, int> {
    if s == [] then map[]
    else
      var m := DayTotals(s[..|s| - 1], isWork, now);
      var x := s[|s| - 1];
      if !isWork(x.activity) then m
      else
        var day := Day(x.start);
        m[day := if day in m then m[day] + ItemDuration(x, now) else ItemDuration(x, now)]
  }

  /** The time worked on day `d`: the durations of the work items that start on `d`. */
  function WorkedOn(s: seq<Item>, d: int, isWork: string -> bool, now: Instant): int {
    if s == [] then 0
    else
      var x := s[|s| - 1];
      WorkedOn(s[..|s| - 1], d, isWork, now) + (if isWork(x.activity) && Day(x.start) == d then ItemDuration(x, now) else 0)
  }

  /** A work item of `s` starts on day `d`. */
  predicate WorkedDay(s: seq<Item>, d: int, isWork: string -> bool) {
    exists i :: 0 <= i < |s| && isWork(s[i].activity) && Day(s[i].start) == d
  }

  /** The per-day map has the start days of the work items, each with the time worked on it. */
  lemma {:induction false} DayTotalsPerDay(s: seq<Item>, isWork: string -> bool, now: Instant)
    ensures forall d :: d in DayTotals(s, isWork, now) <==> WorkedDay(s, d, isWork)
    ensures forall d :: d in DayTotals(s, isWork, now) ==> DayTotals(s, isWork, now)[d] == WorkedOn(s, d, isWork, now)
  {
    if s != [] {
      var init := s[..|s| - 1];
      var x := s[|s| - 1];
      DayTotalsPerDay(init, isWork, now);
      forall d ensures WorkedDay(s, d, isWork) <==> WorkedDay(init, d, isWork) || (isWork(x.activity) && Day(x.start) == d) {
        if WorkedDay(init, d, isWork) {
          var i :| 0 <= i < |init| && isWork(init[i].activity) && Day(init[i].start) == d;
          assert s[i] == init[i];
        }
        if WorkedDay(s, d, isWork) {
          var i :| 0 <= i < |s| && isWork(s[i].activity) && Day(s[i].start) == d;
          if i < |init| {
            assert init[i] == s[i];
          }
        }
      }
      if isWork(x.activity) && Day(x.start) !in DayTotals(init, isWork, now) {
        NotWorkedOn(init, Day(x.start), isWork, now);
      }
    }
  }

  lemma {:induction false} NotWorkedOn(s: seq<Item>, d: int, isWork: string -> bool, now: Instant)
    requires !WorkedDay(s, d, isWork)
    ensures WorkedOn(s, d, isWork, now) == 0
  {
    if s != [] {
      NotWorkedOn(s[..|s| - 1], d, isWork, now);
    }
  }

  /** A non-empty set of days has a member. */
  lemma SomeDay(days: set<int>)
    requires days != {}
    ensures exists d :: d in days
  {
    if forall d :: d !in days {
      assert false;
    }
  }

  /** `absencesMap`: the minimum working time of each absence day. */
  function AbsencesMap(absences: map<int, WorkingTime>): map<int, int> {
    map d | d in absences :: absences[d].min
  }

  /** The map `overtime` returns: each worked day's overtime, then the absence days put over it. */
  function OvertimeMap(s: seq<Item>, isWork: string -> bool, now: Instant,
                       workingTime: int -> WorkingTime, absences: map<int, WorkingTime>): map<int, int> {
    var totals := DayTotals(s, isWork, now);
    (map d | d in totals :: OvertimeFor(totals[d], workingTime(d))) + AbsencesMap(absences)
  }

  /**
   * The overtime has an entry exactly for the worked days and the absence days; an absence day
   * shows its minimum working time whatever was worked on it, any other day the overtime of the
   * time worked on it.
   */
  lemma OvertimeMapMeans(s: seq<Item>, isWork: string -> bool, now: Instant,
                         workingTime: int -> WorkingTime, absences: map<int, WorkingTime>, d: int)
    ensures var m := OvertimeMap(s, isWork, now, workingTime, absences);
      (d in m <==> WorkedDay(s, d, isWork) || d in absences)
      && (d in absences ==> m[d] == absences[d].min)
      && (d in m && d !in absences ==> m[d] == OvertimeFor(WorkedOn(s, d, isWork, now), workingTime(d)))
  {
    DayTotalsPerDay(s, isWork, now);
  }

  /** `absencesMap`, filled entry by entry. */
  method AbsencesOf(absences: map<int, WorkingTime>) returns (resultMap: map<int, int>)
    ensures resultMap == AbsencesMap(absences)
  {
    resultMap := map[];
    var remaining := absences.Keys;
    while remaining != {}
      invariant remaining <= absences.Keys
      invariant resultMap == map d | d in absences && d !in remaining :: absences[d].min
      decreases |remaining|
    {
      SomeDay(remaining);
      var key :| key in remaining;
      resultMap := resultMap[key := absences[key].min];
      remaining := remaining - {key};
    }
  }

  /** The first loop of `overtime`: the durations of the work items summed per start day. */
  method SumPerDay(items: seq<Item>, isWork: string -> bool, now: Instant) returns (dateToOvertime: map<int, int>)
    ensures dateToOvertime == DayTotals(items, isWork, now)
  {
    dateToOvertime := map[];
    var i := 0;
    while i < |items|
      invariant 0 <= i <= |items|
      invariant dateToOvertime == DayTotals(items[..i], isWork, now)
    {
      var item := items[i];
      assert items[..i + 1][..i] == items[..i];
      if isWork(item.activity) {
        var currentDay := Day(item.start);
        var itemDuration := EndOrNow(item.end, now) - item.start;
        if currentDay in dateToOvertime {
          dateToOvertime := dateToOvertime[currentDay := dateToOvertime[currentDay] + itemDuration];
        } else {
          dateToOvertime := dateToOvertime[currentDay := itemDuration];
        }
      }
      i := i + 1;
    }
    assert items[..|items|] == items;
  }

  /** The second loop of `overtime`: each day's sum replaced by its overtime. */
  method ToOvertime(totals: map<int, int>, workingTime: int -> WorkingTime) returns (dateToOvertime: map<int, int>)
    ensures dateToOvertime == map d | d in totals :: OvertimeFor(totals[d], workingTime(d))
  {
    dateToOvertime := totals;
    var remaining := totals.Keys;
    while remaining != {}
      invariant remaining <= totals.Keys
      invariant dateToOvertime == Converted(totals, remaining, workingTime)
      decreases |remaining|
    {
      SomeDay(remaining);
      var key :| key in remaining;
      ConvertedStep(totals, remaining, key, workingTime);
      dateToOvertime := dateToOvertime[key := OvertimeFor(dateToOvertime[key], workingTime(key))];
      remaining := remaining - {key};
    }
    assert Converted(totals, {}, workingTime) == map d | d in totals :: OvertimeFor(totals[d], workingTime(d));
  }

  /** The totals with every day outside `remaining` turned into its overtime. */
  ghost function Converted(totals: map<int, int>, remaining: set<int>, workingTime: int -> WorkingTime): map<int, int> {
    map d | d in totals :: if d in remaining then totals[d] else OvertimeFor(totals[d], workingTime(d))
  }

  /** Turning one more remaining day into its overtime. */
  lemma ConvertedStep(totals: map<int, int>, remaining: set<int>, key: int, workingTime: int -> WorkingTime)
    requires key in remaining && remaining <= totals.Keys
    ensures var m := Converted(totals, remaining, workingTime);
      key in m && m[key := OvertimeFor(m[key], workingTime(key))] == Converted(totals, remaining - {key}, workingTime)
  {
  }

  /** `putAll`: every entry of `other` written over `m`. */
  method PutAll(m: map<int, int>, other: map<int, int>) returns (result: map<int, int>)
    ensures result == m + other
  {
    result := m;
    var remaining := other.Keys;
    while remaining != {}
      invariant remaining <= other.Keys
      invariant result == m + (map d | d in other && d !in remaining :: other[d])
      decreases |remaining|
    {
      SomeDay(remaining);
      var key :| key in remaining;
      result := result[key := other[key]];
      remaining := remaining - {key};
    }
    assert (map d | d in other && d !in remaining :: other[d]) == other;
  }

  /** `overtime`: sum per start day, turn each sum into overtime, then put the absences over it. */
  method Overtime(items: seq<Item>, isWork: string -> bool, now: Instant,
                  workingTime: int -> WorkingTime, absences: map<int, WorkingTime>)
    returns (dateToOvertime: map<int, int>)
    ensures dateToOvertime == OvertimeMap(items, isWork, now, workingTime, absences)
  {
    var totals := SumPerDay(items, isWork, now);
    var overtime := ToOvertime(totals, workingTime);
    var absencesMap := AbsencesOf(absences);
    dateToOvertime := PutAll(overtime, absencesMap);
  }

  /** The sum of the values of a map, one key at a time. */
  ghost function SumValues(m: map<int, int>): int
    decreases |m|
  {
    if m == map[] then 0
    else
      SomeDay(m.Keys);
      var k :| k in m;
      m[k] + SumValues(m - {k})
  }

  /** The sum does not depend on the key taken first. */
  lemma {:induction false} SumValuesRemove(m: map<int, int>, k: int)
    requires k in m
    ensures SumValues(m) == m[k] + SumValues(m - {k})
    decreases |m|
  {
    var j :| j in m && SumValues(m) == m[j] + SumValues(m - {j});
    if j != k {
      SumValuesRemove(m - {j}, k);
      SumValuesRemove(m - {k}, j);
      assert m - {j} - {k} == m - {k} - {j};
    }
  }

  /** `overallOvertime`: the values of `overtime` added one by one. */
  method OverallOvertime(overtime: map<int, int>) returns (result: int)
    ensures result == SumValues(overtime)
  {
    result := 0;
    var rest := overtime;
    while rest != map[]
      invariant result + SumValues(rest) == SumValues(overtime)
      decreases |rest|
    {
      SomeDay(rest.Keys);
      var d :| d in rest;
      SumValuesRemove(rest, d);
      result := result + rest[d];
      rest := rest - {d};
    }
  }

  /** A sum of zeros is zero, and a sum of non-negative values is non-negative. */
  lemma {:induction false} SumValuesSigns(m: map<int, int>)
    ensures (forall d :: d in m ==> m[d] == 0) ==> SumValues(m) == 0
    ensures (forall d :: d in m ==> m[d] >= 0) ==> SumValues(m) >= 0
    decreases |m|
  {
    if m != map[] {
      SomeDay(m.Keys);
      var k :| k in m;
      SumValuesRemove(m, k);
      SumValuesSigns(m - {k});
    }
  }

  /**
   * Without absences, when every worked day's total lies within its bounds, the overall overtime
   * is zero.
   */
  lemma NoOvertimeWithinBounds(s: seq<Item>, isWork: string -> bool, now: Instant, workingTime: int -> WorkingTime)
    requires forall d :: WorkedDay(s, d, isWork) ==>
      workingTime(d).min <= WorkedOn(s, d, isWork, now) <= workingTime(d).max
    ensures SumValues(OvertimeMap(s, isWork, now, workingTime, map[])) == 0
  {
    var m := OvertimeMap(s, isWork, now, workingTime, map[]);
    forall d | d in m ensures m[d] == 0 {
      OvertimeMapMeans(s, isWork, now, workingTime, map[], d);
    }
    SumValuesSigns(m);
  }

  /** `getOvertime(from, to)`: the days of `overtime` from `from` to `to`, both included. */
  method OvertimeBetween(overtime: map<int, int>, from: int, to: int) returns (result: map<int, int>)
    ensures forall d :: d in result <==> d in overtime && from <= d <= to
    ensures forall d :: d in result ==> result[d] == overtime[d]
  {
    result := map[];
    var remaining := overtime.Keys;
    while remaining != {}
      invariant remaining <= overtime.Keys
      invariant forall d :: d in result <==> d in overtime && d !in remaining && from <= d <= to
      invariant forall d :: d in result ==> result[d] == overtime[d]
      decreases |remaining|
    {
      SomeDay(remaining);
      var key :| key in remaining;
      if IsBetween(key, from, to) {
        result := result[key := overtime[key]];
      }
      remaining := remaining - {key};
    }
  }
}
