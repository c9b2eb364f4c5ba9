/**
 * `Activities`: the command handlers. Each handler reads the stored items through the queries and
 * asks the persister for one change, which is modelled as the `Effect` it returns; the event
 * published with it follows from the effect.
 */
module Commands {
  import opened Wrappers
  import opened Calendar
  import opened Tti
  import opened TrackingItem
  import opened Database
  import opened Query
  import opened ItemQueries
  import opened TimeText
  import opened StreamInsert

  /** The persister call a handler makes, if any. */
  datatype Effect = Persist(item: Item) | Replace(original: Item, replacement: Item) | Delete(item: Item) | NoEffect

  /** `ongoingItemThatWouldEnd`: the last item, if it is open and starts with the new item. */
  function OngoingItemThatWouldEnd(s: seq<Item>, newItem: Item): Option<Item> {
    var last := LastItem(s);
    if last.Some? && last.value.end == Open && newItem.start == last.value.start then last else None
  }

  /** The criteria of `itemWithEditedActivity`: the new item's start, and its end when closed. */
  function EditedActivityCriteria(newItem: Item): Fields {
    var f := NoCriteria.(startsAt := Some(newItem.start));
    if newItem.end.At? then f.(endsAt := Some(newItem.end.time)) else f
  }

  /** `itemWithEditedActivity`: a stored item the criteria match; the first, for `findAny`. */
  function ItemWithEditedActivity(s: seq<Item>, newItem: Item): Option<Item> {
    var matching := QueryItems(s, EditedActivityCriteria(newItem));
    if matching == [] then None else Some(matching[0])
  }

  /** `addNewActivity` */
  function AddNewActivity(s: seq<Item>, newItem: Item): Effect {
    var ongoing := OngoingItemThatWouldEnd(s, newItem);
    var toReplace := if ongoing.Some? then ongoing else ItemWithEditedActivity(s, newItem);
    if toReplace.Some? then Replace(toReplace.value, newItem) else Persist(newItem)
  }

  /** A stored item the new item would take the place of: same start, and same end if it is closed. */
  predicate SameSlot(x: Item, newItem: Item) {
    x.start == newItem.start && (newItem.end.At? ==> x.end == newItem.end)
  }

  lemma EditedActivityCriteriaMeans(x: Item, newItem: Item)
    ensures Admits(EditedActivityCriteria(newItem), x) <==> SameSlot(x, newItem)
  {
    ContainsEmpty(x.activity);
  }

  /**
   * `addNewActivity` replaces the ongoing last item when the new item starts with it, otherwise a
   * stored item in the same slot, and otherwise persists the new item.
   */
  lemma AddNewActivityChoice(s: seq<Item>, newItem: Item)
    ensures var e := AddNewActivity(s, newItem);
      (e.Persist? || e.Replace?)
      && (e.Persist? ==> e.item == newItem)
      && (e.Replace? ==> e.replacement == newItem && e.original in s && e.original.start == newItem.start)
      && (s != [] && s[|s| - 1].end == Open && s[|s| - 1].start == newItem.start ==>
            e == Replace(s[|s| - 1], newItem))
      && (e.Replace? <==>
            (s != [] && s[|s| - 1].end == Open && s[|s| - 1].start == newItem.start)
            || exists x :: x in s && SameSlot(x, newItem))
  {
    var f := EditedActivityCriteria(newItem);
    forall x ensures Admits(f, x) <==> SameSlot(x, newItem) {
      EditedActivityCriteriaMeans(x, newItem);
    }
    var matching := QueryItems(s, f);
    if matching != [] {
      assert matching[0] in matching;
    }
  }

  /** `endCurrentActivity`: the ongoing item replaced by its copy ending at `endAt`. */
  function EndCurrentActivity(s: seq<Item>, endAt: Precise): (r: Result<Effect, ItemError>)
    requires ValidPrecise(endAt)
  {
    var ongoing := OngoingItem(s);
    if ongoing.None? then Ok(NoEffect)
    else
      var derived := WithEnd(ongoing.value, endAt);
      if derived.Err? then Err(derived.error) else Ok(Replace(ongoing.value, derived.value))
  }

  /**
   * `endCurrentActivity` does nothing without an ongoing item; otherwise it closes that item at
   * `endAt`, which `withEnd` refuses when it is before the item's start.
   */
  lemma EndCurrentActivityMeans(s: seq<Item>, endAt: Precise)
    requires ValidPrecise(endAt)
    ensures var r := EndCurrentActivity(s, endAt);
      (r == Ok(NoEffect) <==> s == [] || s[|s| - 1].end != Open)
      && (r.Ok? && r.value != NoEffect ==>
            r.value == Replace(s[|s| - 1], s[|s| - 1].(end := At(Truncate(endAt)))))
      && (r.Err? <==> s != [] && s[|s| - 1].end == Open && Truncate(endAt) < s[|s| - 1].start)
  {
  }

  /** `removeActivity` */
  function RemoveActivity(x: Item): Effect {
    Effect.Delete(x)
  }

  /** `removeActivityAndCloseGap`, with the neighbours `getAdjacentItems` gives. */
  function RemoveActivityAndCloseGap(s: seq<Item>, x: Item): (r: Result<Effect, ItemError>) {
    var adjacent := AdjacentAsWritten(s, x);
    var previous := adjacent.previous;
    var next := adjacent.next;
    if previous.Some? && next.Some? && previous.value.activity == next.value.activity then
      if next.value.end.At? then
        var extended := WithEnd(previous.value, Whole(next.value.end.time));
        if extended.Err? then Err(extended.error) else Ok(Persist(extended.value))
      else Ok(Persist(WithPendingEnd(previous.value)))
    else if previous.Some? && IsOnSameDay(Some(previous.value.start), Some(x.start)) && x.end == Open then
      Ok(Persist(WithPendingEnd(previous.value)))
    else Ok(RemoveActivity(x))
  }

  /**
   * On a timeline, deleting an item whose contiguous neighbours have one activity persists the
   * previous item stretched to the next one's end (open if that is open); deleting an ongoing item
   * whose contiguous previous item starts on its day reopens the previous item; anything else is a
   * plain delete.
   */
  lemma RemoveActivityAndCloseGapMeans(s: seq<Item>, i: nat)
    requires Wellformed(s) && i < |s|
    ensures var x := s[i]; var k := ListIndexOf(s, x); var r := RemoveActivityAndCloseGap(s, x);
      var joinsPrevious := k > 0 && s[k - 1].end == At(x.start);
      var joinsNext := k < |s| - 1 && x.end == At(s[k + 1].start);
      r.Ok?
      && (joinsPrevious && joinsNext && s[k - 1].activity == s[k + 1].activity ==>
            r.value == Persist(s[k - 1].(end := s[k + 1].end)))
      && (joinsPrevious && !(joinsNext && s[k - 1].activity == s[k + 1].activity)
          && Day(s[k - 1].start) == Day(x.start) && x.end == Open ==>
            r.value == Persist(s[k - 1].(end := Open)))
      && (r.value.Delete? <==>
            !(joinsPrevious && joinsNext && s[k - 1].activity == s[k + 1].activity)
            && !(joinsPrevious && Day(s[k - 1].start) == Day(x.start) && x.end == Open))
      && (r.value.Delete? ==> r.value.item == x)
  {
    var x := s[i];
    var k := ListIndexOf(s, x);
    assert x in s;
    if k > 0 && k < |s| - 1 {
      WellformedMeans(s);
      assert ValidItem(s[k + 1]);
      assert s[k - 1].start <= x.start;
    }
  }

  /** The streamed insertion of an item that starts with `s[k]` copies the items before `s[k]`. */
  lemma InsertedFrom(s: seq<Item>, k: nat, m: Item)
    requires Wellformed(s) && k < |s| && NonEmpty(s[k]) && m.start == s[k].start && ValidItem(m)
    ensures CountWhile(s, EndsByStartOf(m)) == k
    ensures Head(s, m) == s[..k] + [m]
  {
    WellformedMeans(s);
    assert !EndsAtOrBefore(s[k], m.start);
  }

  /**
   * Persisting the stretched previous item closes the gap: over a timeline, the streamed insertion
   * replaces the previous item, the deleted one and the next one by the stretched item.
   */
  lemma CloseGapMerges(s: seq<Item>, k: nat)
    requires Wellformed(s) && 0 < k < |s| - 1
    requires s[k - 1].end == At(s[k].start) && s[k].end == At(s[k + 1].start)
    requires NonEmpty(s[k - 1]) && (k + 2 < |s| ==> NonEmpty(s[k + 2]))
    ensures var merged := s[k - 1].(end := s[k + 1].end);
      ValidItem(merged) && Inserted(s, merged) == s[..k - 1] + [merged] + s[k + 2..]
  {
    var merged := s[k - 1].(end := s[k + 1].end);
    assert Precedes(s[k - 1], s[k]) && Precedes(s[k], s[k + 1]);
    assert ValidItem(s[k + 1]);
    InsertedFrom(s, k - 1, merged);
    CloseGapTail(s, k);
  }

  /** After the stretched previous item, the streamed insertion skips the deleted and the next item. */
  lemma CloseGapTail(s: seq<Item>, k: nat)
    requires Wellformed(s) && 0 < k < |s| - 1
    requires s[k - 1].end == At(s[k].start) && s[k].end == At(s[k + 1].start)
    requires NonEmpty(s[k - 1]) && (k + 2 < |s| ==> NonEmpty(s[k + 2]))
    ensures Tail(s, s[k - 1].(end := s[k + 1].end)) == s[k + 2..]
  {
    var merged := s[k - 1].(end := s[k + 1].end);
    assert ValidItem(s[k]) && ValidItem(s[k + 1]);
    InsertedFrom(s, k - 1, merged);
    var t := s[k - 1..];
    assert t[0] == s[k - 1] && t[1] == s[k] && t[2] == s[k + 1];
    assert EndsSameOrAfter(merged, t[0]) && EndsSameOrAfter(merged, t[1]) && EndsSameOrAfter(merged, t[2]);
    if k + 2 < |s| {
      assert t[3] == s[k + 2];
      assert !EndsSameOrAfter(merged, t[3]) by {
        assert Precedes(s[k + 1], s[k + 2]);
      }
      CountWhileIs(t, CoveredBy(merged), 3);
      assert RightPart(t[3], merged) == s[k + 2];
      assert t[4..] == s[k + 3..];
      assert s[k + 2..] == [s[k + 2]] + s[k + 3..];
    } else {
      CountWhileIs(t, CoveredBy(merged), 3);
    }
  }

  /** Persisting the reopened previous item drops the deleted item and everything after it. */
  lemma ReopenDropsRest(s: seq<Item>, k: nat)
    requires Wellformed(s) && 0 < k < |s| && NonEmpty(s[k - 1])
    ensures Inserted(s, s[k - 1].(end := Open)) == s[..k - 1] + [s[k - 1].(end := Open)]
  {
    var reopened := s[k - 1].(end := Open);
    InsertedFrom(s, k - 1, reopened);
    InsertedTail(s, reopened);
  }

  /** `resumeActivity`: an open copy of the item starting at `beginningWith`. */
  function ResumeActivity(itemToResume: Item, beginningWith: Precise): (r: Effect)
    requires ValidPrecise(beginningWith)
    ensures r == Persist(itemToResume.(start := Truncate(beginningWith), end := Open))
  {
    Persist(WithStart(WithPendingEnd(itemToResume), beginningWith).value)
  }

  /** `resumeLastActivity`: acts only when the last item is closed. */
  function ResumeLastActivity(s: seq<Item>, resumeAt: Precise): (r: Effect)
    requires ValidPrecise(resumeAt)
    ensures r != NoEffect <==> s != [] && s[|s| - 1].end.At?
    ensures r != NoEffect ==>
      r == Persist(s[|s| - 1].(start := Truncate(resumeAt), end := Open))
  {
    var last := LastItem(s);
    if last.Some? && last.value.end.At? then ResumeActivity(last.value, resumeAt) else NoEffect
  }
}
