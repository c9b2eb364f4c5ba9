/**
 * The Kotlin entity `TimeTrackingItem`: an immutable item whose constructor refuses an end before
 * the start and keeps whole seconds only, its interval predicates and its `with*` copies. A
 * `null` end is the open ending `Open` of the shared `Tti.Item`.
 */
module TrackingItem {
  import opened Wrappers
  import opened Calendar
  import opened Tti

  /** The constructor: refuses an end before the start, compared with sub-second precision. */
  function Create(activity: string, start: Precise, end: Option<Precise>): (r: Result<Item, ItemError>)
    requires ValidPrecise(start) && (end.Some? ==> ValidPrecise(end.value))
    ensures r.Err? <==> end.Some? && PreciseBefore(end.value, start)
    ensures r.Ok? ==> ValidItem(r.value) && r.value.activity == activity
  {
    if end.Some? && PreciseBefore(end.value, start) then Err(StartAfterEnd)
    else
      TruncateMonotone(start, if end.Some? then end.value else start);
      Ok(Item(Truncate(start), if end.Some? then At(Truncate(end.value)) else Open, activity))
  }

  /** The Kotlin constructor and the two Rust constructors build the same items. */
  lemma CreateAgreesWithRust(activity: string, start: Precise, end: Precise)
    requires ValidPrecise(start) && ValidPrecise(end)
    ensures Create(activity, start, None) == Ok(StartingAt(start, activity))
    ensures Create(activity, start, Some(end)) == Interval(start, end, activity)
  {
  }

  /** `intersects`: each ends after the other starts, an open end counting as unbounded. */
  predicate Intersects(a: Item, b: Item) {
    EndsAfter(a.end, b.start) && EndsAfter(b.end, a.start)
  }

  /** `t` lies in the half-open span `[start, end)` of `a`. */
  predicate Within(t: Instant, a: Item) {
    a.start <= t && EndsAfter(a.end, t)
  }

  /** The item spans at least one second. */
  predicate NonEmpty(a: Item) {
    EndsAfter(a.end, a.start)
  }

  /**
   * `intersects` is symmetric, and for items that span time it holds exactly when some instant
   * lies in both half-open spans; items that only touch do not intersect.
   */
  lemma IntersectsMeansCommonInstant(a: Item, b: Item)
    ensures Intersects(a, b) <==> Intersects(b, a)
    ensures a.end == At(b.start) ==> !Intersects(a, b)
    ensures NonEmpty(a) && NonEmpty(b) ==>
      (Intersects(a, b) <==> exists t :: Within(t, a) && Within(t, b))
  {
    if NonEmpty(a) && NonEmpty(b) && Intersects(a, b) {
      var t := if a.start < b.start then b.start else a.start;
      assert Within(t, a) && Within(t, b);
    }
  }

  /** `endsSameOrAfter`: the other item's end is the same, or it is closed and not later. */
  predicate EndsSameOrAfter(a: Item, other: Item) {
    other.end == a.end || (other.end.At? && !(a.end.At? && a.end.time < other.end.time))
  }

  /** `endsSameOrAfter` is the ending order of `Ord for Ending`, open being the latest. */
  lemma EndsSameOrAfterIsEndingOrder(a: Item, b: Item)
    ensures EndsSameOrAfter(a, b) <==> EndingAtMost(b.end, a.end)
    ensures EndsSameOrAfter(a, a)
    ensures a.end == Open ==> EndsSameOrAfter(a, b)
  {
  }

  /** `endsAtOrBefore`: a closed end no later than `t`. */
  predicate EndsAtOrBefore(a: Item, t: Instant) {
    a.end.At? && !(t < a.end.time)
  }

  lemma EndsAtOrBeforeIsEndingOrder(a: Item, t: Instant)
    ensures EndsAtOrBefore(a, t) <==> EndingAtMost(a.end, At(t))
    ensures a.end == Open ==> !EndsAtOrBefore(a, t)
  {
  }

  /** `withEnd`: a closed copy, refused when the new end is before the start. */
  function WithEnd(a: Item, newEnd: Precise): (r: Result<Item, ItemError>)
    requires ValidPrecise(newEnd)
    ensures r.Ok? <==> a.start <= Truncate(newEnd)
    ensures r.Ok? ==> r.value == a.(end := At(Truncate(newEnd)))
  {
    Create(a.activity, Whole(a.start), Some(newEnd))
  }

  /** `withPendingEnd`: the open copy. */
  function WithPendingEnd(a: Item): (r: Item)
    ensures r == a.(end := Open) && ValidItem(r)
  {
    Create(a.activity, Whole(a.start), None).value
  }

  function PreciseEnd(e: Ending): Option<Precise> {
    match e
    case Open => None
    case At(t) => Some(Whole(t))
  }

  /** `withStart`: a copy with a new start, refused when the end is before it. */
  function WithStart(a: Item, newStart: Precise): (r: Result<Item, ItemError>)
    requires ValidPrecise(newStart)
    ensures r.Ok? <==> a.end == Open || !PreciseBefore(Whole(a.end.time), newStart)
    ensures r.Ok? ==> r.value == a.(start := Truncate(newStart))
  {
    Create(a.activity, newStart, PreciseEnd(a.end))
  }

  /** `withActivity`: a copy with another activity. */
  function WithActivity(a: Item, newActivity: string): (r: Item)
    requires ValidItem(a)
    ensures r == a.(activity := newActivity)
  {
    Create(newActivity, Whole(a.start), PreciseEnd(a.end)).value
  }
}
