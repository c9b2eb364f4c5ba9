/**
 * The in-memory timeline of the Rust implementation (`Connection for Vec<TimeTrackingItem>` in
 * `src/database.rs`): insertion that clips, splits and drops overlapped items, deletion that may
 * close the gap it leaves, and the newest-first views.
 */
module Database {
  import opened Wrappers
  import opened Calendar
  import opened Tti

  // ---------------------------------------------------------------------------------------
  // The timeline invariant

  /** `a.end <= b.start` for neighbours: `a` is closed and ends no later than `b` starts. */
  predicate Precedes(a: Item, b: Item) {
    a.end.At? && a.end.time <= b.start
  }

  /** Every item is valid and each one ends before its successor starts. */
  predicate Wellformed(s: seq<Item>) {
    (forall i :: 0 <= i < |s| ==> ValidItem(s[i]))
    && (forall i :: 0 <= i < |s| - 1 ==> Precedes(s[i], s[i + 1]))
  }

  lemma {:induction false} PrecedesChain(s: seq<Item>, i: nat, j: nat)
    requires Wellformed(s) && i < j < |s|
    ensures Precedes(s[i], s[j])
    decreases j - i
  {
    if i + 1 < j {
      PrecedesChain(s, i + 1, j);
      assert Precedes(s[i], s[i + 1]);
    }
  }

  /** The invariant says: sorted by start, no two items overlap, and only the last may be open. */
  lemma WellformedMeans(s: seq<Item>)
    requires Wellformed(s)
    ensures forall i, j :: 0 <= i < j < |s| ==> s[i].start <= s[j].start
    ensures forall i, j :: 0 <= i < j < |s| ==> s[i].end.At? && s[i].end.time <= s[j].start
    ensures forall i :: 0 <= i < |s| && s[i].end == Open ==> i == |s| - 1
  {
    forall i, j | 0 <= i < j < |s|
      ensures s[i].end.At? && s[i].end.time <= s[j].start && s[i].start <= s[j].start
    {
      PrecedesChain(s, i, j);
      assert ValidItem(s[i]);
    }
    forall i | 0 <= i < |s| - 1 ensures s[i].end != Open {
      assert Precedes(s[i], s[i + 1]);
    }
  }

  lemma WellformedSlice(s: seq<Item>, m: nat, n: nat)
    requires Wellformed(s) && m <= n <= |s|
    ensures Wellformed(s[m..n])
  {
    var t := s[m..n];
    forall i | 0 <= i < |t| - 1 ensures Precedes(t[i], t[i + 1]) {
      assert t[i] == s[m + i] && t[i + 1] == s[m + i + 1];
    }
  }

  lemma WellformedConcat(a: seq<Item>, b: seq<Item>)
    requires Wellformed(a) && Wellformed(b)
    requires a != [] && b != [] ==> Precedes(a[|a| - 1], b[0])
    ensures Wellformed(a + b)
  {
    var c := a + b;
    forall i | 0 <= i < |c| - 1 ensures Precedes(c[i], c[i + 1]) {
      if i + 1 < |a| {
        assert c[i] == a[i] && c[i + 1] == a[i + 1];
      } else if i >= |a| {
        assert c[i] == b[i - |a|] && c[i + 1] == b[i - |a| + 1];
      }
    }
  }

  // ---------------------------------------------------------------------------------------
  // insert_item, step by step

  /** The first loop of `insert_item`: the index of the first item that does not end before `t`. */
  function ScanIndex(s: seq<Item>, t: Instant): (k: nat)
    ensures k <= |s|
    ensures forall j :: 0 <= j < k ==> EndsBefore(s[j].end, t)
    ensures k < |s| ==> !EndsBefore(s[k].end, t)
  {
    if s == [] || !EndsBefore(s[0].end, t) then 0 else 1 + ScanIndex(s[1..], t)
  }

  /** The scan stops at `k` when the items before it end before `t` and the one at it does not. */
  lemma {:induction false} ScanIndexIs(s: seq<Item>, t: Instant, k: nat)
    requires k <= |s| && (forall j :: 0 <= j < k ==> EndsBefore(s[j].end, t))
    requires k < |s| ==> !EndsBefore(s[k].end, t)
    ensures ScanIndex(s, t) == k
    decreases k
  {
    if k > 0 {
      ScanIndexIs(s[1..], t, k - 1);
    }
  }

  /** What precedes the new item, and what follows it before the final clip and removal. */
  datatype Placement = Placement(before: seq<Item>, after: seq<Item>)

  /**
   * The first item that does not end before the new start is clipped to end there (and split
   * when it also outlasts a closed new end), dropped when the new item covers it, kept before
   * the new item when it ends exactly at the new start, and otherwise kept after it.
   */
  function Place(s: seq<Item>, item: Item): Placement {
    var k := ScanIndex(s, item.start);
    if k == |s| then Placement(s, [])
    else
      var last := s[k];
      if last.start < item.start && EndsAfter(last.end, item.start) then
        var tail :=
          if item.end.At? && EndsAfter(last.end, item.end.time) then [last.(start := item.end.time)] + s[k + 1..]
          else s[k + 1..];
        Placement(s[..k] + [last.(end := At(item.start))], tail)
      else if item.start <= last.start && EndingAtMost(last.end, item.end) then
        Placement(s[..k], s[k + 1..])
      // `item.start >= last.end`, the mirror of `last.end > item.start`
      else if !EndsAfter(last.end, item.start) then
        Placement(s[..k + 1], s[k + 1..])
      else
        Placement(s[..k], s[k..])
  }

  /** The final loop of `insert_item`: the leading items that end at or before `end` are removed. */
  function DropCovered(t: seq<Item>, end: Ending): (r: seq<Item>)
    ensures |r| <= |t| && r == t[|t| - |r|..]
    ensures forall j :: 0 <= j < |t| - |r| ==> EndingAtMost(t[j].end, end)
    ensures r != [] ==> !EndingAtMost(r[0].end, end)
  {
    if t != [] && EndingAtMost(t[0].end, end) then DropCovered(t[1..], end) else t
  }

  /** The start of the first item is moved to a closed `end` it straddles. */
  function ClipFirst(t: seq<Item>, end: Ending): seq<Item> {
    if t != [] && end.At? && t[0].start < end.time && EndsAfter(t[0].end, end.time) then
      [t[0].(start := end.time)] + t[1..]
    else t
  }

  /** `insert_item` as written: the successor is clipped before the covered items are removed. */
  function InsertedAsWritten(s: seq<Item>, item: Item): seq<Item> {
    var p := Place(s, item);
    p.before + [item] + DropCovered(ClipFirst(p.after, item.end), item.end)
  }

  /** `insert_item` with the covered items removed before the successor is clipped. */
  function InsertedCorrected(s: seq<Item>, item: Item): seq<Item> {
    var p := Place(s, item);
    p.before + [item] + ClipFirst(DropCovered(p.after, item.end), item.end)
  }

  /** The new item covers `x`: it starts no earlier and ends no later. */
  predicate Covers(item: Item, x: Item) {
    item.start <= x.start && EndingAtMost(x.end, item.end)
  }

  lemma PlaceShape(s: seq<Item>, item: Item)
    requires Wellformed(s) && ValidItem(item)
    ensures var p := Place(s, item);
      Wellformed(p.before) && Wellformed(p.after)
      && (p.before != [] ==> Precedes(p.before[|p.before| - 1], item))
      && (forall j :: 0 <= j < |p.before| ==> p.before[j].start < item.start)
  {
    var k := ScanIndex(s, item.start);
    if k == |s| {
      assert Place(s, item) == Placement(s[..k], s[k..]);
      PrefixShape(s, item, k);
    } else {
      var last := s[k];
      if last.start < item.start && EndsAfter(last.end, item.start) {
        PlaceShapeStraddled(s, item, k);
      } else if item.start <= last.start && EndingAtMost(last.end, item.end) {
        assert Place(s, item) == Placement(s[..k], s[k + 1..]);
        PrefixShape(s, item, k);
        WellformedSlice(s, k + 1, |s|);
      } else if !EndsAfter(last.end, item.start) {
        assert Place(s, item) == Placement(s[..k + 1], s[k + 1..]);
        assert last.start < item.start && Precedes(last, item);
        PrefixShape(s, item, k + 1);
        WellformedSlice(s, k + 1, |s|);
      } else {
        assert Place(s, item) == Placement(s[..k], s[k..]);
        PrefixShape(s, item, k);
        WellformedSlice(s, k, |s|);
      }
    }
  }

  /** A prefix whose items start before the new item, the last preceding it, has the shape of `before`. */
  lemma PrefixShape(s: seq<Item>, item: Item, n: nat)
    requires Wellformed(s) && n <= |s|
    requires ScanIndex(s, item.start) <= n <= ScanIndex(s, item.start) + 1
    requires n == ScanIndex(s, item.start) + 1 ==> s[n - 1].start < item.start && Precedes(s[n - 1], item)
    ensures var b := s[..n];
      Wellformed(b) && (b != [] ==> Precedes(b[|b| - 1], item))
      && (forall j :: 0 <= j < |b| ==> b[j].start < item.start)
  {
    var b := s[..n];
    WellformedSlice(s, 0, n);
    forall j | 0 <= j < |b| ensures b[j].start < item.start && (j == n - 1 ==> Precedes(b[j], item)) {
      assert b[j] == s[j] && ValidItem(s[j]);
    }
  }

  /** The placement around an item that straddles the new start: it is clipped to end there. */
  lemma PlaceShapeStraddled(s: seq<Item>, item: Item, k: nat)
    requires Wellformed(s) && ValidItem(item) && k == ScanIndex(s, item.start) && k < |s|
    requires s[k].start < item.start && EndsAfter(s[k].end, item.start)
    ensures var p := Place(s, item);
      Wellformed(p.before) && Wellformed(p.after)
      && (p.before != [] ==> Precedes(p.before[|p.before| - 1], item))
      && (forall j :: 0 <= j < |p.before| ==> p.before[j].start < item.start)
  {
    var last := s[k];
    var after :=
      if item.end.At? && EndsAfter(last.end, item.end.time) then [last.(start := item.end.time)] + s[k + 1..]
      else s[k + 1..];
    assert Place(s, item) == Placement(s[..k] + [last.(end := At(item.start))], after);
    StraddledBefore(s, item, k);
    WellformedSlice(s, k + 1, |s|);
    if item.end.At? && EndsAfter(last.end, item.end.time) {
      if k + 1 < |s| {
        assert Precedes(s[k], s[k + 1]);
      }
      WellformedConcat([last.(start := item.end.time)], s[k + 1..]);
    }
  }

  /** The items before the straddled one, then the straddled one clipped to end at the new start. */
  lemma StraddledBefore(s: seq<Item>, item: Item, k: nat)
    requires Wellformed(s) && k == ScanIndex(s, item.start) && k < |s| && s[k].start < item.start
    ensures var b := s[..k] + [s[k].(end := At(item.start))];
      Wellformed(b) && Precedes(b[|b| - 1], item) && forall j :: 0 <= j < |b| ==> b[j].start < item.start
  {
    var clipped := s[k].(end := At(item.start));
    PrefixShape(s, item, k);
    if k > 0 {
      assert Precedes(s[k - 1], s[k]);
    }
    WellformedConcat(s[..k], [clipped]);
    BeforeWithLast(s[..k], clipped, item);
  }

  /** Appending an item that starts before the new one and precedes it keeps the shape of `before`. */
  lemma BeforeWithLast(b: seq<Item>, x: Item, item: Item)
    requires forall j :: 0 <= j < |b| ==> b[j].start < item.start
    requires x.start < item.start && Precedes(x, item)
    ensures var c := b + [x];
      Precedes(c[|c| - 1], item) && forall j :: 0 <= j < |c| ==> c[j].start < item.start
  {
    var c := b + [x];
    forall j | 0 <= j < |c| ensures c[j].start < item.start {
      if j < |b| {
        assert c[j] == b[j];
      }
    }
  }

  lemma ClipFirstShape(d: seq<Item>, item: Item)
    requires Wellformed(d) && ValidItem(item)
    requires d != [] ==> !EndingAtMost(d[0].end, item.end)
    ensures var c := ClipFirst(d, item.end);
      Wellformed(c) && |c| == |d|
      && (c != [] ==> Precedes(item, c[0]) && !EndingAtMost(c[0].end, item.end))
      && (forall j :: 1 <= j < |c| ==> c[j] == d[j])
  {
    var c := ClipFirst(d, item.end);
    if c != [] {
      if |d| > 1 {
        assert Precedes(d[0], d[1]);
        WellformedSlice(d, 1, |d|);
        WellformedConcat([c[0]], d[1..]);
      }
    }
  }

  /** The corrected insertion keeps the timeline invariant and places the new item in it. */
  lemma InsertCorrectedKeepsTimeline(s: seq<Item>, item: Item)
    requires Wellformed(s) && ValidItem(item)
    ensures var r := InsertedCorrected(s, item);
      Wellformed(r) && item == r[|Place(s, item).before|]
  {
    var p := Place(s, item);
    PlaceShape(s, item);
    var d := DropCovered(p.after, item.end);
    WellformedSlice(p.after, |p.after| - |d|, |p.after|);
    ClipFirstShape(d, item);
    var c := ClipFirst(d, item.end);
    WellformedConcat(p.before, [item]);
    WellformedConcat(p.before + [item], c);
  }

  /** No item the new one covers survives the corrected insertion, other than the new item. */
  lemma InsertCorrectedDropsCovered(s: seq<Item>, item: Item)
    requires Wellformed(s) && ValidItem(item)
    ensures var r := InsertedCorrected(s, item);
      forall j :: 0 <= j < |r| && j != |Place(s, item).before| ==> !Covers(item, r[j])
  {
    var p := Place(s, item);
    PlaceShape(s, item);
    InsertCorrectedKeepsTimeline(s, item);
    var r := InsertedCorrected(s, item);
    var n := |p.before|;
    var d := DropCovered(p.after, item.end);
    WellformedSlice(p.after, |p.after| - |d|, |p.after|);
    ClipFirstShape(d, item);
    WellformedMeans(r);
    forall j | 0 <= j < |r| && j != n ensures !Covers(item, r[j]) {
      if j < n {
        assert r[j] == p.before[j];
      } else {
        assert r[n + 1] == ClipFirst(d, item.end)[0];
        if j > n + 1 {
          assert r[n + 1].end.At? && r[n + 1].end.time <= r[j].start;
        }
      }
    }
  }

  /**
   * An item that starts before the new one and outlasts its start is clipped to end there; when
   * it also outlasts a closed new end, its remainder from that end follows the new item.
   */
  lemma InsertSplitsLeftOverlap(s: seq<Item>, item: Item)
    requires Wellformed(s) && ValidItem(item)
    requires var k := ScanIndex(s, item.start);
      k < |s| && s[k].start < item.start && EndsAfter(s[k].end, item.start)
    ensures SplitAround(InsertedAsWritten(s, item), s, ScanIndex(s, item.start), item)
    ensures SplitAround(InsertedCorrected(s, item), s, ScanIndex(s, item.start), item)
  {
    var k := ScanIndex(s, item.start);
    var p := Place(s, item);
    assert p.before == s[..k] + [s[k].(end := At(item.start))];
    var written := DropCovered(ClipFirst(p.after, item.end), item.end);
    var corrected := ClipFirst(DropCovered(p.after, item.end), item.end);
    if item.end.At? && EndsAfter(s[k].end, item.end.time) {
      var piece := s[k].(start := item.end.time);
      assert p.after[0] == piece;
      assert ClipFirst(p.after, item.end) == p.after;
      assert DropCovered(p.after, item.end) == p.after;
      assert written[0] == piece && corrected[0] == piece;
    }
    SplitAroundConcat(p.before, written, s, k, item);
    SplitAroundConcat(p.before, corrected, s, k, item);
  }

  /** `r` holds `s[..k]`, then `s[k]` ending at the new start, then the new item, then `rest`. */
  lemma SplitAroundConcat(before: seq<Item>, rest: seq<Item>, s: seq<Item>, k: nat, item: Item)
    requires k < |s| && before == s[..k] + [s[k].(end := At(item.start))]
    requires item.end.At? && EndsAfter(s[k].end, item.end.time) ==>
      rest != [] && rest[0] == s[k].(start := item.end.time)
    ensures SplitAround(before + [item] + rest, s, k, item)
  {
    var r := before + [item] + rest;
    assert r[..k] == s[..k];
    assert r[k] == before[k] && r[k + 1] == item;
    if item.end.At? && EndsAfter(s[k].end, item.end.time) {
      assert r[k + 2] == rest[0];
    }
  }

  /** The clipped item, the new item and, when the clipped item outlasted it, the remainder. */
  predicate SplitAround(r: seq<Item>, s: seq<Item>, k: nat, item: Item)
    requires k < |s|
  {
    |r| >= k + 2 && r[..k] == s[..k] && r[k] == s[k].(end := At(item.start)) && r[k + 1] == item
    && (item.end.At? && EndsAfter(s[k].end, item.end.time) ==>
          |r| >= k + 3 && r[k + 2] == s[k].(start := item.end.time))
  }

  /** An open new item ends the timeline: every later item is removed. */
  lemma InsertOpenDropsLater(s: seq<Item>, item: Item)
    requires item.end == Open
    ensures var r := InsertedAsWritten(s, item); r[|r| - 1] == item
    ensures var r := InsertedCorrected(s, item); r[|r| - 1] == item
  {
    var p := Place(s, item);
    assert ClipFirst(p.after, item.end) == p.after;
    var d := DropCovered(p.after, item.end);
    assert DropCovered(ClipFirst(p.after, item.end), item.end) == [];
    assert ClipFirst(d, item.end) == [];
  }

  /** The two orders of the last two steps agree when nothing after the new item is covered by it. */
  lemma AsWrittenAgreesWithoutCoveredSuccessor(s: seq<Item>, item: Item)
    requires var p := Place(s, item); p.after == [] || !EndingAtMost(p.after[0].end, item.end)
    ensures InsertedAsWritten(s, item) == InsertedCorrected(s, item)
  {
    var p := Place(s, item);
    var c := ClipFirst(p.after, item.end);
    assert DropCovered(p.after, item.end) == p.after;
    assert c == [] || !EndingAtMost(c[0].end, item.end);
    assert DropCovered(c, item.end) == c;
  }

  /**
   * As written, the item after the new one is clipped even when it is about to be removed, and
   * the item behind it keeps its start: [0,4] [5,6] [6,20] with [3,10] inserted gives
   * [0,3] [3,10] [6,20], where the last two overlap.
   */
  lemma InsertAsWrittenOverlaps()
    ensures var s := [Item(0, At(4), "a"), Item(5, At(6), "b"), Item(6, At(20), "c")];
      var item := Item(3, At(10), "x");
      Wellformed(s) && ValidItem(item)
      && InsertedAsWritten(s, item) == [Item(0, At(3), "a"), item, Item(6, At(20), "c")]
      && !Wellformed(InsertedAsWritten(s, item))
  {
    var s := [Item(0, At(4), "a"), Item(5, At(6), "b"), Item(6, At(20), "c")];
    var item := Item(3, At(10), "x");
    OverlapPlacement(s, item);
    assert ClipFirst([s[1], s[2]], item.end) == [s[1], s[2]];
    DropFirstOfTwo(s[1], s[2], item.end);
    Three(Item(0, At(3), "a"), item, s[2]);
    var r := InsertedAsWritten(s, item);
    assert !Precedes(r[1], r[2]);
  }

  /** On the same timeline, the corrected insertion moves the start of the last item to 10. */
  lemma InsertCorrectedOnOverlap()
    ensures var s := [Item(0, At(4), "a"), Item(5, At(6), "b"), Item(6, At(20), "c")];
      var item := Item(3, At(10), "x");
      InsertedCorrected(s, item) == [Item(0, At(3), "a"), item, Item(10, At(20), "c")]
      && Wellformed(InsertedCorrected(s, item))
  {
    var s := [Item(0, At(4), "a"), Item(5, At(6), "b"), Item(6, At(20), "c")];
    var item := Item(3, At(10), "x");
    OverlapPlacement(s, item);
    DropFirstOfTwo(s[1], s[2], item.end);
    var moved := Item(10, At(20), "c");
    assert ClipFirst([s[2]], item.end) == [moved];
    Three(Item(0, At(3), "a"), item, moved);
  }

  lemma OverlapPlacement(s: seq<Item>, item: Item)
    requires s == [Item(0, At(4), "a"), Item(5, At(6), "b"), Item(6, At(20), "c")]
    requires item == Item(3, At(10), "x")
    ensures Wellformed(s) && ValidItem(item)
    ensures Place(s, item) == Placement([Item(0, At(3), "a")], [s[1], s[2]])
  {
    assert Precedes(s[0], s[1]) && Precedes(s[1], s[2]);
    assert !EndsBefore(s[0].end, 3);
    assert ScanIndex(s, 3) == 0;
    assert s[1..] == [s[1], s[2]];
  }

  lemma DropFirstOfTwo(b: Item, c: Item, end: Ending)
    requires EndingAtMost(b.end, end) && !EndingAtMost(c.end, end)
    ensures DropCovered([b, c], end) == [c]
  {
    assert [b, c][1..] == [c];
  }

  /** Replacing the element at `k` splits as the prefix, the new element, and the old suffix. */
  lemma UpdateSplits<T>(s: seq<T>, k: nat, x: T)
    requires k < |s|
    ensures s[k := x][..k + 1] == s[..k] + [x] && s[k := x][k + 1..] == s[k + 1..]
  {
  }

  /** Inserting at `i` keeps the prefix before `i` and puts the new element first in the suffix. */
  lemma InsertSplits<T>(s: seq<T>, i: nat, x: T)
    requires i <= |s|
    ensures (s[..i] + [x] + s[i..])[..i] == s[..i] && (s[..i] + [x] + s[i..])[i..] == [x] + s[i..]
  {
  }

  /** Removing the element at `i` keeps the prefix before it and moves the rest up. */
  lemma RemoveSplits<T>(s: seq<T>, i: nat)
    requires i < |s|
    ensures (s[..i] + s[i + 1..])[..i] == s[..i] && (s[..i] + s[i + 1..])[i..] == s[i + 1..]
  {
  }

  lemma Three<T>(x: T, y: T, z: T)
    ensures [x] + [y] + [z] == [x, y, z]
  {
  }


  // ---------------------------------------------------------------------------------------
  // delete_item

  /** The index of the first item equal to `x`, or `|s|` when there is none. */
  function IndexOf(s: seq<Item>, x: Item): (k: nat)
    ensures k <= |s|
    ensures k < |s| ==> s[k] == x
    ensures forall j :: 0 <= j < k ==> s[j] != x
  {
    if s == [] || s[0] == x then 0 else 1 + IndexOf(s[1..], x)
  }

  /** What `delete_item` does: removes and reports success, finds nothing, or panics. */
  datatype Deletion = Deleted(items: seq<Item>) | NotFound | Panicked(items: seq<Item>)

  /**
   * The gap left at `k` in `rest` is closed when the predecessor ended where the deleted item
   * started, the deleted item was closed, a successor exists, and the deleted item started and
   * ended on the same calendar day.
   */
  predicate ClosesGap(rest: seq<Item>, k: nat, x: Item)
    requires k <= |rest|
  {
    k > 0 && EqualsInstant(rest[k - 1].end, x.start) && x.end.At? && k < |rest|
    && Day(x.start) == Day(x.end.time)
  }

  function MergeGap(rest: seq<Item>, k: nat, x: Item): seq<Item>
    requires k <= |rest|
  {
    if ClosesGap(rest, k, x) then rest[k - 1 := rest[k - 1].(end := x.end)] else rest
  }

  /** `delete_item` as written: the predecessor is indexed before `i > 0` is checked. */
  function DeleteAsWritten(s: seq<Item>, x: Item): Deletion {
    var k := IndexOf(s, x);
    if k == |s| then NotFound
    else if k == 0 then Panicked(s[1..])
    else Deleted(MergeGap(s[..k] + s[k + 1..], k, x))
  }

  /** `delete_item` with the predecessor looked at only when there is one. */
  function DeleteCorrected(s: seq<Item>, x: Item): Deletion {
    var k := IndexOf(s, x);
    if k == |s| then NotFound
    else Deleted(MergeGap(s[..k] + s[k + 1..], k, x))
  }

  /** Deleting the first item of a timeline panics. */
  lemma DeleteAsWrittenPanicsAtFirst(s: seq<Item>)
    requires s != []
    ensures DeleteAsWritten(s, s[0]).Panicked?
    ensures DeleteCorrected(s, s[0]) == Deleted(s[1..])
  {
  }

  /** Everywhere else the written and the corrected deletion agree. */
  lemma DeleteAsWrittenAgreesElsewhere(s: seq<Item>, x: Item)
    requires s == [] || s[0] != x
    ensures DeleteAsWritten(s, x) == DeleteCorrected(s, x)
  {
  }

  /**
   * Deletion fails exactly when no item equals `x`; otherwise the first equal item is removed,
   * and only its predecessor may change: its end becomes the deleted item's end exactly when the
   * two were contiguous, the deleted item was closed, it had a successor and it did not cross
   * midnight.
   */
  lemma DeleteRemovesFirstEqual(s: seq<Item>, x: Item)
    ensures DeleteCorrected(s, x).NotFound? <==> x !in s
    ensures var k := IndexOf(s, x); var d := DeleteCorrected(s, x);
      d.Deleted? ==>
        |d.items| == |s| - 1
        && (forall j :: 0 <= j < k - 1 ==> d.items[j] == s[j])
        && (forall j :: k <= j < |d.items| ==> d.items[j] == s[j + 1])
        && (k > 0 ==>
              var merge := s[k - 1].end == At(x.start) && x.end.At? && k + 1 < |s|
                           && Day(x.start) == Day(x.end.time);
              d.items[k - 1] == (if merge then s[k - 1].(end := x.end) else s[k - 1]))
  {
  }

  /** The corrected deletion keeps the timeline invariant, gap merge included. */
  lemma DeleteCorrectedKeepsTimeline(s: seq<Item>, x: Item)
    requires Wellformed(s)
    ensures DeleteCorrected(s, x).Deleted? ==> Wellformed(DeleteCorrected(s, x).items)
  {
    var k := IndexOf(s, x);
    if k < |s| {
      var rest := s[..k] + s[k + 1..];
      WellformedSlice(s, 0, k);
      WellformedSlice(s, k + 1, |s|);
      if 0 < k && k + 1 < |s| {
        PrecedesChain(s, k - 1, k + 1);
      }
      WellformedConcat(s[..k], s[k + 1..]);
      if ClosesGap(rest, k, x) {
        var r := MergeGap(rest, k, x);
        assert Precedes(s[k], s[k + 1]);
        forall i | 0 <= i < |r| - 1 ensures Precedes(r[i], r[i + 1]) {
          if i != k - 1 && i + 1 != k - 1 {
            assert r[i] == rest[i] && r[i + 1] == rest[i + 1];
          }
        }
      }
    }
  }

  // ---------------------------------------------------------------------------------------
  // Queries

  /** `query`: the items newest first. */
  function Query(s: seq<Item>): (r: seq<Item>)
    ensures |r| == |s|
    ensures forall i :: 0 <= i < |s| ==> r[i] == s[|s| - 1 - i]
  {
    if s == [] then [] else [s[|s| - 1]] + Query(s[..|s| - 1])
  }

  /** `query_n`: at most `limit` items, newest first. */
  function QueryN(s: seq<Item>, limit: nat): (r: seq<Item>)
    ensures |r| == if limit < |s| then limit else |s|
    ensures forall i :: 0 <= i < |r| ==> r[i] == s[|s| - 1 - i]
  {
    var q := Query(s);
    if limit < |s| then q[..limit] else q
  }

  /** `query_latest`: the last item, if any. */
  function QueryLatest(s: seq<Item>): (r: Option<Item>)
    ensures r.None? <==> s == []
    ensures r.Some? ==> r.value in s && r.value == Query(s)[0]
  {
    if s == [] then None else Some(s[|s| - 1])
  }

  /** On a timeline, newest first means by descending start, and the latest item starts last. */
  lemma QueryNewestFirst(s: seq<Item>)
    requires Wellformed(s)
    ensures forall i, j :: 0 <= i < j < |s| ==> Query(s)[j].start <= Query(s)[i].start
    ensures QueryLatest(s).Some? ==> forall x :: x in s ==> x.start <= QueryLatest(s).value.start
  {
    WellformedMeans(s);
    var q := Query(s);
    forall i, j | 0 <= i < j < |s| ensures q[j].start <= q[i].start {
      assert q[j] == s[|s| - 1 - j] && q[i] == s[|s| - 1 - i];
    }
  }

  // ---------------------------------------------------------------------------------------
  // Edits over time

  datatype Edit = Insert(item: Item) | Delete(item: Item)

  /** One corrected insertion or deletion; a failed deletion changes nothing. */
  function ApplyEdit(s: seq<Item>, e: Edit): seq<Item> {
    match e
    case Insert(item) => InsertedCorrected(s, item)
    case Delete(item) =>
      var d := DeleteCorrected(s, item);
      if d.Deleted? then d.items else s
  }

  function ApplyEdits(s: seq<Item>, edits: seq<Edit>): seq<Item>
    decreases |edits|
  {
    if edits == [] then s else ApplyEdits(ApplyEdit(s, edits[0]), edits[1..])
  }

  /** Any series of edits that inserts only valid items keeps the timeline invariant. */
  lemma {:induction false} EditsKeepTimeline(s: seq<Item>, edits: seq<Edit>)
    requires Wellformed(s)
    requires forall e :: e in edits && e.Insert? ==> ValidItem(e.item)
    ensures Wellformed(ApplyEdits(s, edits))
    decreases |edits|
  {
    if edits != [] {
      EditKeepsTimeline(s, edits[0]);
      assert forall e :: e in edits[1..] ==> e in edits;
      EditsKeepTimeline(ApplyEdit(s, edits[0]), edits[1..]);
    }
  }

  lemma EditKeepsTimeline(s: seq<Item>, e: Edit)
    requires Wellformed(s) && (e.Insert? ==> ValidItem(e.item))
    ensures Wellformed(ApplyEdit(s, e))
  {
    match e
    case Insert(item) => InsertCorrectedKeepsTimeline(s, item);
    case Delete(item) => DeleteCorrectedKeepsTimeline(s, item);
  }

  // ---------------------------------------------------------------------------------------
  // The vector, changed in place

  class Timeline {
    var items: seq<Item>

    constructor (initial: seq<Item>)
      ensures items == initial
    {
      items := initial;
    }

    /** The first loop of `insert_item`: the index of the first item that does not end before `t`. */
    method ScanTo(t: Instant) returns (i: nat)
      ensures i == ScanIndex(items, t)
    {
      i := 0;
      while i < |items| && EndsBefore(items[i].end, t)
        invariant i <= |items|
        invariant forall j :: 0 <= j < i ==> EndsBefore(items[j].end, t)
      {
        i := i + 1;
      }
      ScanIndexIs(items, t, i);
    }

    /** The first loop of `insert_item` and the handling of the item it stops at. */
    method PlaceItem(item: Item) returns (i: nat)
      modifies this
      ensures var p := Place(old(items), item);
        items == p.before + [item] + p.after && i == |p.before| + 1
    {
      ghost var s := items;
      ghost var p := Place(s, item);
      i := ScanTo(item.start);
      ghost var k := i;
      if i < |items| {
        var last := items[i];
        if last.start < item.start && EndsAfter(last.end, item.start) {
          var after := last;
          UpdateSplits(items, i, last.(end := At(item.start)));
          items := items[i := last.(end := At(item.start))];
          i := i + 1;
          if item.end.At? && EndsAfter(after.end, item.end.time) {
            InsertSplits(items, i, after.(start := item.end.time));
            items := items[..i] + [after.(start := item.end.time)] + items[i..];
          }
        } else if item.start <= last.start && EndingAtMost(last.end, item.end) {
          RemoveSplits(items, i);
          items := items[..i] + items[i + 1..];
        } else if !EndsAfter(last.end, item.start) {
          i := i + 1;
        }
      }
      assert items[..i] == p.before && items[i..] == p.after;
      items := items[..i] + [item] + items[i..];
      i := i + 1;
    }

    /** The last loop of `insert_item`: items from `i` on that end at or before `end` are removed. */
    method RemoveCovered(i: nat, end: Ending)
      requires i <= |items|
      modifies this
      ensures items == old(items[..i]) + DropCovered(old(items[i..]), end)
    {
      ghost var prefix := items[..i];
      ghost var rest := items[i..];
      ghost var target := DropCovered(rest, end);
      assert items == prefix + rest;
      while i < |items| && EndingAtMost(items[i].end, end)
        invariant |prefix| == i && items == prefix + rest
        invariant DropCovered(rest, end) == target
        decreases |rest|
      {
        assert rest[0] == items[i];
        items := items[..i] + items[i + 1..];
        rest := rest[1..];
      }
      assert rest == target;
    }

    /** The clip of `insert_item`: the item at `i` starts at a closed `end` it straddles. */
    method ClipSuccessor(i: nat, end: Ending)
      requires i <= |items|
      modifies this
      ensures items == old(items[..i]) + ClipFirst(old(items[i..]), end)
    {
      if i < |items| && end.At? {
        var last := items[i];
        if last.start < end.time && EndsAfter(last.end, end.time) {
          items := items[i := last.(start := end.time)];
        }
      }
      assert items == items[..i] + items[i..];
    }

    /** `insert_item` as written. */
    method InsertItem(item: Item)
      modifies this
      ensures items == InsertedAsWritten(old(items), item)
    {
      var i := PlaceItem(item);
      ClipSuccessor(i, item.end);
      RemoveCovered(i, item.end);
    }

    /** `insert_item` with its last two steps swapped; it keeps the timeline invariant. */
    method InsertItemCorrected(item: Item)
      modifies this
      ensures items == InsertedCorrected(old(items), item)
      ensures Wellformed(old(items)) && ValidItem(item) ==> Wellformed(items)
    {
      ghost var s := items;
      var i := PlaceItem(item);
      RemoveCovered(i, item.end);
      ClipSuccessor(i, item.end);
      if Wellformed(s) && ValidItem(item) {
        InsertCorrectedKeepsTimeline(s, item);
      }
    }

    /** `delete_item` as written: a panic is reported as `Panicked`, after the removal. */
    method DeleteItem(item: Item) returns (outcome: Deletion)
      modifies this
      ensures outcome == DeleteAsWritten(old(items), item)
      ensures items == if outcome.NotFound? then old(items) else outcome.items
    {
      for i := 0 to |items|
        invariant items == old(items)
        invariant forall j :: 0 <= j < i ==> items[j] != item
      {
        if items[i] == item {
          assert i == IndexOf(items, item);
          items := items[..i] + items[i + 1..];
          var len := |items|;
          if i == 0 {
            // `self[i - 1]` is evaluated before the guard `i > 0`
            outcome := Panicked(items);
            return;
          }
          if i > 0 && EqualsInstant(items[i - 1].end, item.start) {
            match item.end
            case Open =>
            case At(end) =>
              if i < len && Day(item.start) == Day(end) {
                items := items[i - 1 := items[i - 1].(end := item.end)];
              }
          }
          outcome := Deleted(items);
          return;
        }
      }
      assert IndexOf(items, item) == |items|;
      outcome := NotFound;
    }
  }
}
