/**
 * `TimeTrackingItemQueries`: views over the stored items, read once into a cache that an
 * `ItemModified` event clears. The views are functions of the cached sequence.
 */
module ItemQueries {
  import opened Wrappers
  import opened Calendar
  import opened Tti
  import opened Database
  import opened Query

  /** `lastItem`: absent for no items. */
  function LastItem(s: seq<Item>): (r: Option<Item>)
    ensures r.Some? <==> s != []
    ensures r.Some? ==> r.value == s[|s| - 1]
  {
    if s == [] then None else Some(s[|s| - 1])
  }

  /** `ongoingItem`: the last item if its end is open; absent when there is none. */
  function OngoingItem(s: seq<Item>): Option<Item> {
    var last := LastItem(s);
    if last.Some? && last.value.end != Open then None else last
  }

  /** On a timeline the ongoing item is its one open item, if any. */
  lemma OngoingIsTheOpenItem(s: seq<Item>)
    requires Wellformed(s)
    ensures OngoingItem(s).Some? <==> exists i :: 0 <= i < |s| && s[i].end == Open
    ensures OngoingItem(s).Some? ==> OngoingItem(s).value in s && OngoingItem(s).value.end == Open
    ensures forall i :: 0 <= i < |s| && s[i].end == Open ==> OngoingItem(s) == Some(s[i])
  {
    WellformedMeans(s);
  }

  /** `AdjacentItems` */
  datatype Adjacent = Adjacent(previous: Option<Item>, next: Option<Item>)

  /** `List.indexOf`: the first equal item's index, `-1` when there is none. */
  function ListIndexOf(s: seq<Item>, x: Item): (i: int)
    ensures -1 <= i < |s|
    ensures i == -1 <==> x !in s
    ensures i >= 0 ==> s[i] == x && x !in s[..i]
  {
    var k := IndexOf(s, x);
    if k == |s| then -1 else k
  }

  /** `getAdjacentItems` as written: with `indexOf` at `-1`, the first item is a candidate `next`. */
  function AdjacentAsWritten(s: seq<Item>, x: Item): Adjacent {
    var i := ListIndexOf(s, x);
    var previous := if i > 0 && s[i - 1].end == At(x.start) then Some(s[i - 1]) else None;
    var next := if i < |s| - 1 && x.end == At(s[i + 1].start) then Some(s[i + 1]) else None;
    Adjacent(previous, next)
  }

  /** An item that is not stored can get the first stored item as its `next`. */
  lemma AdjacentOfAbsentItem()
    ensures var s := [Item(10, At(20), "a")]; var x := Item(0, At(10), "b");
      x !in s && AdjacentAsWritten(s, x).next == Some(s[0])
  {
    var s := [Item(10, At(20), "a")];
    var x := Item(0, At(10), "b");
    assert s[0] != x;
    assert ListIndexOf(s, x) == -1;
  }

  /** `getAdjacentItems` with an absent item given no neighbours. */
  function AdjacentCorrected(s: seq<Item>, x: Item): Adjacent {
    if x !in s then Adjacent(None, None) else AdjacentAsWritten(s, x)
  }

  /**
   * The neighbours of a stored item are the items just before and after its first occurrence,
   * each present exactly when there is no gap between it and the item; an absent item has none.
   */
  lemma AdjacentMeansContiguous(s: seq<Item>, x: Item)
    ensures var r := AdjacentCorrected(s, x); var i := ListIndexOf(s, x);
      (x !in s ==> r == Adjacent(None, None))
      && (r.previous.Some? <==> i > 0 && s[i - 1].end == At(x.start))
      && (r.previous.Some? ==> r.previous.value == s[i - 1])
      && (r.next.Some? <==> 0 <= i < |s| - 1 && x.end == At(s[i + 1].start))
      && (r.next.Some? ==> r.next.value == s[i + 1])
    ensures x in s ==> AdjacentCorrected(s, x) == AdjacentAsWritten(s, x)
  {
  }

  /** The distinct values of `xs`, each where it first occurs (`Stream.distinct`). */
  function Distinct(xs: seq<int>): (r: seq<int>)
    ensures forall d :: d in r <==> d in xs
    ensures forall i, j :: 0 <= i < j < |r| ==> r[i] != r[j]
  {
    if xs == [] then []
    else
      var r := Distinct(xs[..|xs| - 1]);
      assert xs == xs[..|xs| - 1] + [xs[|xs| - 1]];
      if xs[|xs| - 1] in r then r else r + [xs[|xs| - 1]]
  }

  /** The index of the first occurrence of `d` in `xs`. */
  function FirstIndex(xs: seq<int>, d: int): (k: nat)
    requires d in xs
    ensures k < |xs| && xs[k] == d && d !in xs[..k]
  {
    if xs[0] == d then 0 else 1 + FirstIndex(xs[1..], d)
  }

  lemma FirstIndexInPrefix(xs: seq<int>, n: nat, d: int)
    requires n <= |xs| && d in xs[..n]
    ensures FirstIndex(xs[..n], d) == FirstIndex(xs, d)
  {
    var k := FirstIndex(xs[..n], d);
    var m := FirstIndex(xs, d);
    assert xs[..n][k] == xs[k];
  }

  /** The distinct values come in the order of their first occurrences. */
  lemma {:induction false} DistinctInFirstSeenOrder(xs: seq<int>)
    ensures forall i, j :: 0 <= i < j < |Distinct(xs)| ==>
      FirstIndex(xs, Distinct(xs)[i]) < FirstIndex(xs, Distinct(xs)[j])
    decreases |xs|
  {
    if xs != [] {
      var n := |xs| - 1;
      var init := xs[..n];
      DistinctInFirstSeenOrder(init);
      var p := Distinct(init);
      var r := Distinct(xs);
      forall i, j | 0 <= i < j < |r| ensures FirstIndex(xs, r[i]) < FirstIndex(xs, r[j]) {
        assert r[i] == p[i];
        FirstIndexInPrefix(xs, n, r[i]);
        if j < |p| {
          FirstIndexInPrefix(xs, n, r[j]);
          assert FirstIndex(init, p[i]) < FirstIndex(init, p[j]);
        } else {
          assert r[j] == xs[n] && r[j] !in init;
          assert FirstIndex(init, p[i]) < n;
        }
      }
    }
  }

  function StartDays(s: seq<Item>): (days: seq<int>)
    ensures |days| == |s| && forall i :: 0 <= i < |s| ==> days[i] == Day(s[i].start)
  {
    if s == [] then [] else [Day(s[0].start)] + StartDays(s[1..])
  }

  /** `queryAllTrackedDays`: the distinct start days, in first-seen order. */
  function TrackedDays(s: seq<Item>): seq<int> {
    Distinct(StartDays(s))
  }

  /** Every start day once, and no other day, in the order the items first reach them. */
  lemma TrackedDaysAreStartDays(s: seq<Item>)
    ensures var r := TrackedDays(s);
      (forall d :: d in r <==> exists i :: 0 <= i < |s| && Day(s[i].start) == d)
      && (forall i, j :: 0 <= i < j < |r| ==> r[i] != r[j])
      && (forall i, j :: 0 <= i < j < |r| ==> FirstIndex(StartDays(s), r[i]) < FirstIndex(StartDays(s), r[j]))
  {
    var days := StartDays(s);
    DistinctInFirstSeenOrder(days);
    forall d ensures d in days <==> exists i :: 0 <= i < |s| && Day(s[i].start) == d {
      if d in days {
        var i :| 0 <= i < |days| && days[i] == d;
        assert Day(s[i].start) == d;
      }
    }
  }

  /** `queryItems`: the items the criteria match, in stored order. */
  function QueryItems(s: seq<Item>, f: Fields): (r: seq<Item>)
    ensures forall x :: x in r <==> x in s && Admits(f, x)
    ensures |r| <= |s|
  {
    if s == [] then []
    else if Admits(f, s[0]) then [s[0]] + QueryItems(s[1..], f)
    else QueryItems(s[1..], f)
  }

  /** Filtering keeps order: it distributes over concatenation. */
  lemma {:induction false} QueryItemsKeepsOrder(a: seq<Item>, b: seq<Item>, f: Fields)
    ensures QueryItems(a + b, f) == QueryItems(a, f) + QueryItems(b, f)
  {
    if a == [] {
      assert a + b == b;
    } else {
      assert (a + b)[0] == a[0];
      assert (a + b)[1..] == a[1..] + b;
      QueryItemsKeepsOrder(a[1..], b, f);
    }
  }

  /** The items a criteria picks out of a timeline form a timeline. */
  lemma {:induction false} QueryItemsKeepsTimeline(s: seq<Item>, f: Fields)
    requires Wellformed(s)
    ensures Wellformed(QueryItems(s, f))
  {
    if s != [] {
      WellformedSlice(s, 1, |s|);
      assert s[1..|s|] == s[1..];
      QueryItemsKeepsTimeline(s[1..], f);
      var rest := QueryItems(s[1..], f);
      if Admits(f, s[0]) && rest != [] {
        WellformedMeans(s);
        assert rest[0] in s[1..];
        WellformedConcat([s[0]], rest);
      }
    }
  }

  /** `TimeTrackingItemQueries`: the reader's items, and the cache read from them. */
  class TimeTrackingItemQueries {
    /** What a reader from the provider yields; the persister changes it outside this class. */
    var stored: seq<Item>
    var cachedItems: Option<seq<Item>>

    constructor (stored: seq<Item>)
      ensures this.stored == stored && cachedItems == None
    {
      this.stored := stored;
      cachedItems := None;
    }

    /** The cache, when present, holds what the reader yields. */
    predicate CacheCurrent()
      reads this
    {
      cachedItems.Some? ==> cachedItems.value == stored
    }

    /** The persister writes `newStored` and publishes `ItemModified`, which drops the cache. */
    method SourceChanged(newStored: seq<Item>)
      modifies this
      ensures stored == newStored && cachedItems == None && CacheCurrent()
    {
      stored := newStored;
      cachedItems := None;
    }

    /** `validateCache`: reads every item from a fresh reader when the cache is absent. */
    method ValidateCache()
      modifies this
      ensures stored == old(stored)
      ensures cachedItems == Some(if old(cachedItems).Some? then old(cachedItems).value else stored)
      ensures old(CacheCurrent()) ==> CacheCurrent()
    {
      if cachedItems.None? {
        var items: seq<Item> := [];
        var i := 0;
        while i < |stored|
          invariant 0 <= i <= |stored| && items == stored[..i]
        {
          items := items + [stored[i]];
          i := i + 1;
        }
        assert stored[..|stored|] == stored;
        cachedItems := Some(items);
      }
    }

    method GetLastItem() returns (r: Option<Item>)
      modifies this
      ensures stored == old(stored) && cachedItems.Some? && r == LastItem(cachedItems.value)
      ensures old(CacheCurrent()) ==> CacheCurrent() && r == LastItem(stored)
    {
      ValidateCache();
      r := LastItem(cachedItems.value);
    }

    method GetOngoingItem() returns (r: Option<Item>)
      modifies this
      ensures stored == old(stored) && cachedItems.Some? && r == OngoingItem(cachedItems.value)
      ensures old(CacheCurrent()) ==> CacheCurrent() && r == OngoingItem(stored)
    {
      var last := GetLastItem();
      r := if last.Some? && last.value.end != Open then None else last;
    }

    method GetAdjacentItems(forItem: Item) returns (r: Adjacent)
      modifies this
      ensures stored == old(stored) && cachedItems.Some? && r == AdjacentAsWritten(cachedItems.value, forItem)
      ensures old(CacheCurrent()) ==> CacheCurrent() && r == AdjacentAsWritten(stored, forItem)
    {
      ValidateCache();
      r := AdjacentAsWritten(cachedItems.value, forItem);
    }

    method QueryAllTrackedDays() returns (days: seq<int>)
      modifies this
      ensures stored == old(stored) && cachedItems.Some? && days == TrackedDays(cachedItems.value)
      ensures old(CacheCurrent()) ==> CacheCurrent() && days == TrackedDays(stored)
    {
      ValidateCache();
      days := TrackedDays(cachedItems.value);
    }

    method QueryItemsMatching(criteria: Criteria) returns (items: seq<Item>)
      modifies this
      ensures stored == old(stored) && cachedItems.Some?
      ensures items == QueryItems(cachedItems.value, old(criteria.Snapshot()))
      ensures old(CacheCurrent()) ==> CacheCurrent() && items == QueryItems(stored, old(criteria.Snapshot()))
    {
      ValidateCache();
      items := QueryItems(cachedItems.value, criteria.Snapshot());
    }
  }
}
