/**
 * `Criteria`: a mutable filter over items, built by setter calls, whose present conditions must
 * all hold for an item to match. `LocalDateTime.MIN` and `MAX`, the defaults of the two start
 * bounds, are the absent bounds `None`.
 */
module Query {
  import opened Wrappers
  import opened Calendar
  import opened Tti

  /** `sub` occurs in `s` starting at index `i`. */
  predicate OccursAt(s: string, sub: string, i: int) {
    0 <= i && i + |sub| <= |s| && s[i..i + |sub|] == sub
  }

  /** `String.contains`: `sub` occurs in `s` at some position. */
  predicate Contains(s: string, sub: string) {
    exists i | 0 <= i <= |s| - |sub| :: OccursAt(s, sub, i)
  }

  lemma ContainsEmpty(s: string)
    ensures Contains(s, "")
  {
    assert OccursAt(s, "", 0);
  }

  /** The values of the nine fields of a `Criteria`. */
  datatype Fields = Fields(
    startNotBefore: Option<Instant>,
    startBefore: Option<Instant>,
    endNotAfter: Option<Instant>,
    endBefore: Option<Instant>,
    startsAt: Option<Instant>,
    endsAt: Option<Instant>,
    activityContains: string,
    activityIs: Option<string>,
    activityIsNot: Option<string>)

  /** The fields of a new `Criteria`. */
  const NoCriteria := Fields(None, None, None, None, None, None, "", None, None)

  /** `matches`: every condition whose field is set holds of the item. */
  predicate Admits(f: Fields, item: Item) {
    (f.startBefore.None? || item.start < f.startBefore.value)
    && (f.startNotBefore.None? || !(item.start < f.startNotBefore.value))
    && (f.endNotAfter.None? || (item.end.At? && !(item.end.time > f.endNotAfter.value)))
    && (f.endBefore.None? || (item.end.At? && item.end.time < f.endBefore.value))
    && Contains(item.activity, f.activityContains)
    && (f.startsAt.None? || item.start == f.startsAt.value)
    && (f.endsAt.None? || item.end == At(f.endsAt.value))
    && (f.activityIs.None? || f.activityIs.value == item.activity)
    && (f.activityIsNot.None? || f.activityIsNot.value != item.activity)
  }

  /** A new `Criteria` matches every item. */
  lemma NoCriteriaAdmitsAll(item: Item)
    ensures Admits(NoCriteria, item)
  {
    ContainsEmpty(item.activity);
  }

  /**
   * The start bounds: `startNotBefore` admits its own instant and `startBefore` does not; the end
   * bounds: `endNotAfter` admits its own instant and `endBefore` does not, and both refuse open items.
   */
  lemma BoundsAtTheirInstant(item: Item, t: Instant)
    ensures item.start == t ==> Admits(NoCriteria.(startNotBefore := Some(t)), item)
    ensures item.start == t ==> !Admits(NoCriteria.(startBefore := Some(t)), item)
    ensures item.end == At(t) ==> Admits(NoCriteria.(endNotAfter := Some(t)), item)
    ensures item.end == At(t) ==> !Admits(NoCriteria.(endBefore := Some(t)), item)
    ensures item.end == Open ==> !Admits(NoCriteria.(endNotAfter := Some(t)), item)
    ensures item.end == Open ==> !Admits(NoCriteria.(endBefore := Some(t)), item)
  {
    ContainsEmpty(item.activity);
  }

  /** `activityIs` and `activityIsNot` compare whole activities; `activityContains` looks for a substring. */
  lemma ActivityConditions(item: Item, a: string)
    ensures Admits(NoCriteria.(activityIs := Some(a)), item) <==> item.activity == a
    ensures Admits(NoCriteria.(activityIsNot := Some(a)), item) <==> item.activity != a
    ensures Admits(NoCriteria.(activityContains := a), item) <==> Contains(item.activity, a)
  {
    ContainsEmpty(item.activity);
  }

  /** The start bounds of `withPeriodAtDay(d)`. */
  function PeriodAtDay(f: Fields, d: int): Fields {
    f.(startNotBefore := Some(StartOfDay(d)), startBefore := Some(StartOfDay(d + 1)))
  }

  /** `withPeriodAtDay(d)` alone admits exactly the items that start on day `d`. */
  lemma PeriodAtDayMeansStartDay(item: Item, d: int)
    ensures Admits(PeriodAtDay(NoCriteria, d), item) <==> Day(item.start) == d
  {
    ContainsEmpty(item.activity);
    DayOfInstant(item.start, d);
  }

  /** `g` has every condition of `f`, each as strict or stricter, and possibly more. */
  predicate Narrows(g: Fields, f: Fields) {
    (f.startNotBefore.None? || (g.startNotBefore.Some? && g.startNotBefore.value >= f.startNotBefore.value))
    && (f.startBefore.None? || (g.startBefore.Some? && g.startBefore.value <= f.startBefore.value))
    && (f.endNotAfter.None? || (g.endNotAfter.Some? && g.endNotAfter.value <= f.endNotAfter.value))
    && (f.endBefore.None? || (g.endBefore.Some? && g.endBefore.value <= f.endBefore.value))
    && (f.startsAt.None? || g.startsAt == f.startsAt)
    && (f.endsAt.None? || g.endsAt == f.endsAt)
    && (f.activityContains == "" || g.activityContains == f.activityContains)
    && (f.activityIs.None? || g.activityIs == f.activityIs)
    && (f.activityIsNot.None? || g.activityIsNot == f.activityIsNot)
  }

  /** `matches` is a conjunction: adding or tightening a condition never admits more items. */
  lemma NarrowingAdmitsFewer(g: Fields, f: Fields, item: Item)
    requires Narrows(g, f)
    ensures Admits(g, item) ==> Admits(f, item)
  {
    ContainsEmpty(item.activity);
  }

  /**
   * A setter narrows when its field was unset (or, for a bound, when the new bound is tighter);
   * otherwise it replaces the condition. `NoCriteria` is the widest criteria.
   */
  lemma SettersNarrow(f: Fields, t: Instant, a: string)
    ensures f.startsAt.None? ==> Narrows(f.(startsAt := Some(t)), f)
    ensures f.endsAt.None? ==> Narrows(f.(endsAt := Some(t)), f)
    ensures f.activityIs.None? ==> Narrows(f.(activityIs := Some(a)), f)
    ensures f.activityIsNot.None? ==> Narrows(f.(activityIsNot := Some(a)), f)
    ensures f.activityContains == "" ==> Narrows(f.(activityContains := a), f)
    ensures (f.startNotBefore.None? || t >= f.startNotBefore.value) ==> Narrows(f.(startNotBefore := Some(t)), f)
    ensures (f.startBefore.None? || t <= f.startBefore.value) ==> Narrows(f.(startBefore := Some(t)), f)
    ensures f.startsAt.Some? && f.startsAt != Some(t) ==> !Narrows(f.(startsAt := Some(t)), f)
    ensures Narrows(f, NoCriteria)
  {
  }

  /** `Criteria`, its setters returning nothing rather than `this`. */
  class Criteria {
    var startNotBefore: Option<Instant>
    var startBefore: Option<Instant>
    var endNotAfter: Option<Instant>
    var endBefore: Option<Instant>
    var startsAt: Option<Instant>
    var endsAt: Option<Instant>
    var activityContains: string
    var activityIs: Option<string>
    var activityIsNot: Option<string>

    function Snapshot(): Fields
      reads this
    {
      Fields(startNotBefore, startBefore, endNotAfter, endBefore, startsAt, endsAt,
             activityContains, activityIs, activityIsNot)
    }

    constructor ()
      ensures Snapshot() == NoCriteria
    {
      startNotBefore := None;
      startBefore := None;
      endNotAfter := None;
      endBefore := None;
      startsAt := None;
      endsAt := None;
      activityContains := "";
      activityIs := None;
      activityIsNot := None;
    }

    /** `matches` */
    predicate Matches(item: Item)
      reads this
    {
      Admits(Snapshot(), item)
    }

    method WithStartNotBefore(time: Instant)
      modifies this
      ensures Snapshot() == old(Snapshot()).(startNotBefore := Some(time))
    {
      startNotBefore := Some(time);
    }

    method WithStartBefore(time: Instant)
      modifies this
      ensures Snapshot() == old(Snapshot()).(startBefore := Some(time))
    {
      startBefore := Some(time);
    }

    /** `withStartBetween`: both start bounds from an interval's start and end. */
    method WithStartBetween(start: Instant, end: Instant)
      modifies this
      ensures Snapshot() == old(Snapshot()).(startNotBefore := Some(start), startBefore := Some(end))
    {
      WithStartNotBefore(start);
      WithStartBefore(end);
    }

    method WithEndNotAfter(time: Instant)
      modifies this
      ensures Snapshot() == old(Snapshot()).(endNotAfter := Some(time))
    {
      endNotAfter := Some(time);
    }

    /** `withPeriodAtDay`: from midnight of day `d` up to, not including, the next midnight. */
    method WithPeriodAtDay(d: int)
      modifies this
      ensures Snapshot() == PeriodAtDay(old(Snapshot()), d)
    {
      var startOfDayAtDate := StartOfDay(d);
      WithStartNotBefore(startOfDayAtDate);
      WithStartBefore(startOfDayAtDate + SecondsPerDay);
    }

    method WithEndBefore(time: Instant)
      modifies this
      ensures Snapshot() == old(Snapshot()).(endBefore := Some(time))
    {
      endBefore := Some(time);
    }

    method WithActivityContains(substring: string)
      modifies this
      ensures Snapshot() == old(Snapshot()).(activityContains := substring)
    {
      activityContains := substring;
    }

    method WithActivityIsNot(activity: string)
      modifies this
      ensures Snapshot() == old(Snapshot()).(activityIsNot := Some(activity))
    {
      activityIsNot := Some(activity);
    }

    method WithStartsAt(start: Instant)
      modifies this
      ensures Snapshot() == old(Snapshot()).(startsAt := Some(start))
    {
      startsAt := Some(start);
    }

    method WithActivityIs(activity: string)
      modifies this
      ensures Snapshot() == old(Snapshot()).(activityIs := Some(activity))
    {
      activityIs := Some(activity);
    }

    method WithEndsAt(end: Instant)
      modifies this
      ensures Snapshot() == old(Snapshot()).(endsAt := Some(end))
    {
      endsAt := Some(end);
    }
  }
}
