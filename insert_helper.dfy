/**
 * The streaming insertion of the Kotlin implementation (`InsertHelper`): items are read one by
 * one from a sorted reader and written to a writer, with the new item written once in its place,
 * the item it cuts on the left ending at its start, the items it covers skipped, and the item it
 * cuts on the right starting at its end.
 */
module StreamInsert {
  import opened Wrappers
  import opened Calendar
  import opened Tti
  import opened TrackingItem
  import opened Database

  /**
   * The conditions the insertion reads items under: ending at or before the new start (the
   * first copy), being ended at or after by the new item (the skip), and none (the last copy).
   */
  datatype Condition = EndsByStartOf(item: Item) | CoveredBy(item: Item) | Always

  predicate Holds(c: Condition, x: Item) {
    match c
    case EndsByStartOf(item) => EndsAtOrBefore(x, item.start)
    case CoveredBy(item) => EndsSameOrAfter(item, x)
    case Always => true
  }

  /** The number of leading items that satisfy `condition`. */
  function CountWhile(s: seq<Item>, condition: Condition): (k: nat)
    ensures k <= |s|
    ensures forall j :: 0 <= j < k ==> Holds(condition, s[j])
    ensures k < |s| ==> !Holds(condition, s[k])
  {
    if s == [] || !Holds(condition, s[0]) then 0 else 1 + CountWhile(s[1..], condition)
  }

  /** The leading run is exactly `n` long when the first `n` items satisfy the condition and the next does not. */
  lemma {:induction false} CountWhileIs(s: seq<Item>, condition: Condition, n: nat)
    requires n <= |s| && (forall j :: 0 <= j < n ==> Holds(condition, s[j]))
    requires n < |s| ==> !Holds(condition, s[n])
    ensures CountWhile(s, condition) == n
  {
    if n > 0 {
      CountWhileIs(s[1..], condition, n - 1);
    }
  }

  /** What is written for the first item not copied: its part before the new start, if any. */
  function LeftPart(x: Item, item: Item): seq<Item> {
    if x.start < item.start then [x.(end := At(item.start))] else []
  }

  /** What is written for the first item not skipped: it starts no earlier than a closed new end. */
  function RightPart(x: Item, item: Item): Item {
    if item.end.At? && item.end.time > x.start then x.(start := item.end.time) else x
  }

  /** Everything up to and including the new item. */
  function Head(input: seq<Item>, item: Item): seq<Item> {
    var k := CountWhile(input, EndsByStartOf(item));
    input[..k] + (if k < |input| then LeftPart(input[k], item) else []) + [item]
  }

  /** Everything after the new item. */
  function Tail(input: seq<Item>, item: Item): seq<Item> {
    var s := input[CountWhile(input, EndsByStartOf(item))..];
    var k := CountWhile(s, CoveredBy(item));
    if k < |s| then [RightPart(s[k], item)] + s[k + 1..] else []
  }

  /** `Tail` from the counts of the two scans: the clipped item at the second, then what follows it. */
  lemma TailOfParts(s: seq<Item>, item: Item, k1: nat, rest: seq<Item>, k2: nat, right: seq<Item>, after: seq<Item>)
    requires k1 == CountWhile(s, EndsByStartOf(item)) && rest == s[k1..] && k2 == CountWhile(rest, CoveredBy(item))
    requires right == (if k2 < |rest| then [RightPart(rest[k2], item)] else [])
    requires k2 < |rest| ==> after == rest[k2 + 1..]
    requires k2 >= |rest| ==> after == []
    ensures Tail(s, item) == right + after
  {
  }

  lemma TailUnfolds(input: seq<Item>, item: Item)
    ensures var s := input[CountWhile(input, EndsByStartOf(item))..];
      var k := CountWhile(s, CoveredBy(item));
      Tail(input, item) == (if k < |s| then [RightPart(s[k], item)] else []) + (if k < |s| then s[k + 1..] else [])
  {
  }

  lemma ConcatAssociates(a: seq<Item>, b: seq<Item>, c: seq<Item>)
    ensures (a + b) + c == a + (b + c)
  {
  }

  /** The items `performInsert` writes. */
  function Inserted(input: seq<Item>, item: Item): seq<Item> {
    Head(input, item) + Tail(input, item)
  }

  /**
   * The items ending at or before the new start are copied unchanged and in order; the first item
   * not copied, if it starts earlier, is written ending at the new start; then the new item.
   */
  lemma InsertedHead(input: seq<Item>, item: Item)
    ensures var k := CountWhile(input, EndsByStartOf(item)); var r := Inserted(input, item);
      (forall j :: 0 <= j < k ==> EndsAtOrBefore(input[j], item.start))
      && r[..k] == input[..k]
      && (k < |input| && input[k].start < item.start ==>
            r[k] == input[k].(end := At(item.start)) && r[k + 1] == item)
      && (k == |input| || input[k].start >= item.start ==> r[k] == item)
  {
    var k := CountWhile(input, EndsByStartOf(item));
    var r := Inserted(input, item);
    assert r[..k] == Head(input, item)[..k];
  }

  /**
   * From the first item not copied on, the items the new one ends at or after are dropped; the
   * first one it does not cover is written starting no earlier than a closed new end, and all
   * later items are copied unchanged. An open new item drops every later item.
   */
  lemma InsertedTail(input: seq<Item>, item: Item)
    ensures var k1 := CountWhile(input, EndsByStartOf(item)); var s := input[k1..];
      var k2 := CountWhile(s, CoveredBy(item)); var t := Tail(input, item);
      (forall j :: 0 <= j < k2 ==> EndsSameOrAfter(item, s[j]))
      && (k2 < |s| ==>
            t[0] == (if item.end.At? && item.end.time > s[k2].start then s[k2].(start := item.end.time) else s[k2])
            && t[1..] == s[k2 + 1..])
      && (k2 == |s| ==> t == [])
      && (item.end == Open ==> t == [])
  {
    var k1 := CountWhile(input, EndsByStartOf(item));
    var s := input[k1..];
    var k2 := CountWhile(s, CoveredBy(item));
    if item.end == Open && k2 < |s| {
      EndsSameOrAfterIsEndingOrder(item, s[k2]);
    }
  }

  lemma HeadShape(input: seq<Item>, item: Item)
    requires Wellformed(input) && ValidItem(item)
    ensures var h := Head(input, item);
      Wellformed(h) && h[|h| - 1] == item
  {
    var k := CountWhile(input, EndsByStartOf(item));
    WellformedSlice(input, 0, k);
    var left := if k < |input| then LeftPart(input[k], item) else [];
    assert Wellformed(left);
    if k > 0 && left != [] {
      assert Precedes(input[k - 1], input[k]);
    }
    WellformedConcat(input[..k], left);
    if k > 0 {
      assert EndsAtOrBefore(input[k - 1], item.start);
    }
    WellformedConcat(input[..k] + left, [item]);
  }

  lemma TailShape(input: seq<Item>, item: Item)
    requires Wellformed(input) && ValidItem(item)
    ensures var t := Tail(input, item);
      Wellformed(t) && (t != [] ==> Precedes(item, t[0]))
  {
    var k1 := CountWhile(input, EndsByStartOf(item));
    var s := input[k1..];
    WellformedSlice(input, k1, |input|);
    var k2 := CountWhile(s, CoveredBy(item));
    if k2 < |s| {
      var x := s[k2];
      EndsSameOrAfterIsEndingOrder(item, x);
      assert item.end.At?;
      var y := RightPart(x, item);
      WellformedSlice(s, k2 + 1, |s|);
      if k2 + 1 < |s| {
        assert Precedes(s[k2], s[k2 + 1]);
      }
      WellformedConcat([y], s[k2 + 1..]);
    }
  }

  /** On a timeline the streamed insertion writes a timeline holding the new item. */
  lemma InsertedKeepsTimeline(input: seq<Item>, item: Item)
    requires Wellformed(input) && ValidItem(item)
    ensures Wellformed(Inserted(input, item)) && item in Inserted(input, item)
  {
    HeadShape(input, item);
    TailShape(input, item);
    var h := Head(input, item);
    WellformedConcat(h, Tail(input, item));
    assert Inserted(input, item)[|h| - 1] == item;
  }

  /**
   * The new item is written exactly once, when it is not already stored or spans time; the item
   * that holds it is the last of `Head`.
   */
  lemma InsertedOnce(input: seq<Item>, item: Item)
    requires Wellformed(input) && ValidItem(item)
    requires item !in input || NonEmpty(item)
    ensures var r := Inserted(input, item); var n := |Head(input, item)|;
      r[n - 1] == item && forall j :: 0 <= j < |r| && r[j] == item ==> j == n - 1
  {
    var r := Inserted(input, item);
    var h := Head(input, item);
    var t := Tail(input, item);
    var n := |h|;
    HeadHoldsItemLast(input, item);
    TailLacksItem(input, item);
    forall j | 0 <= j < |r| && j != n - 1 ensures r[j] != item {
      if j < n - 1 {
        assert r[j] == h[..n - 1][j];
      } else {
        assert r[j] == t[j - n];
      }
    }
  }

  /** The new item ends `Head` and appears nowhere before that. */
  lemma HeadHoldsItemLast(input: seq<Item>, item: Item)
    requires Wellformed(input) && ValidItem(item)
    requires item !in input || NonEmpty(item)
    ensures var h := Head(input, item); h != [] && h[|h| - 1] == item && item !in h[..|h| - 1]
  {
    var h := Head(input, item);
    var k1 := CountWhile(input, EndsByStartOf(item));
    var left := if k1 < |input| then LeftPart(input[k1], item) else [];
    assert h == input[..k1] + left + [item];
    assert h[..|h| - 1] == input[..k1] + left;
    forall x | x in input[..k1] ensures x != item {
      var j :| 0 <= j < k1 && input[..k1][j] == x;
      assert input[j] == x && EndsAtOrBefore(input[j], item.start);
    }
  }

  /** No item after the new one in the output is the new item itself. */
  lemma TailLacksItem(input: seq<Item>, item: Item)
    requires Wellformed(input) && ValidItem(item)
    ensures item !in Tail(input, item)
  {
    var k1 := CountWhile(input, EndsByStartOf(item));
    var s := input[k1..];
    var k2 := CountWhile(s, CoveredBy(item));
    if k2 < |s| {
      assert !Holds(CoveredBy(item), s[k2]);
      assert RightPart(s[k2], item).end == s[k2].end != item.end;
      WellformedSlice(input, k1, |input|);
      SuffixAfterLacks(s, k2, item);
      assert Tail(input, item) == [RightPart(s[k2], item)] + s[k2 + 1..];
    }
  }

  /** On a timeline, nothing after an item that outlasts `item` equals `item`. */
  lemma SuffixAfterLacks(s: seq<Item>, k: nat, item: Item)
    requires Wellformed(s) && k < |s| && !EndsSameOrAfter(item, s[k])
    ensures item !in s[k + 1..]
  {
    var rest := s[k + 1..];
    if s[k].end.At? {
      forall i | 0 <= i < |rest| ensures rest[i] != item {
        assert rest[i] == s[k + 1 + i];
        LaterStartsAfter(s, k, k + 1 + i, item.end.time);
      }
    } else {
      assert k + 1 < |s| ==> Precedes(s[k], s[k + 1]);
    }
  }

  /** On a timeline, an item after one that ends later than `t` starts later than `t`. */
  lemma LaterStartsAfter(s: seq<Item>, k: nat, j: nat, t: Instant)
    requires Wellformed(s) && k < j < |s| && s[k].end.At? && t < s[k].end.time
    ensures t < s[j].start
  {
    PrecedesChain(s, k, j);
  }

  /** The Kotlin insertion splits an item the new one lies inside: [0,10] with [3,5] gives [0,3] [3,5] [5,10]. */
  lemma InsertedSplits()
    ensures Inserted([Item(0, At(10), "a")], Item(3, At(5), "x"))
      == [Item(0, At(3), "a"), Item(3, At(5), "x"), Item(5, At(10), "a")]
  {
    var input := [Item(0, At(10), "a")];
    var item := Item(3, At(5), "x");
    assert CountWhile(input, EndsByStartOf(item)) == 0;
    assert input[0..] == input;
    assert CountWhile(input, CoveredBy(item)) == 0;
  }

  /**
   * A stored item of length zero is copied because it ends at the new start, and then written
   * again as the new item: the output holds it twice.
   */
  lemma InsertedStoredEmptyTwice()
    ensures Inserted([Item(5, At(5), "a")], Item(5, At(5), "a"))
      == [Item(5, At(5), "a"), Item(5, At(5), "a")]
  {
    var input := [Item(5, At(5), "a")];
    var item := Item(5, At(5), "a");
    assert CountWhile(input[1..], EndsByStartOf(item)) == 0;
    assert CountWhile(input, EndsByStartOf(item)) == 1;
    assert input[..1] == input && input[1..] == [];
  }

  /** The reader, the writer and the last item read, as `performInsert` changes them. */
  class InsertHelper {
    /** The items the reader has yet to deliver. */
    var input: seq<Item>
    /** The items written so far. */
    var output: seq<Item>
    var lastReadItem: Option<Item>
    const itemToInsert: Item

    constructor (reader: seq<Item>, item: Item)
      ensures input == reader && output == [] && lastReadItem == None && itemToInsert == item
    {
      input := reader;
      output := [];
      lastReadItem := None;
      itemToInsert := item;
    }

    /** After reading `s` up to `k`, the item at `k` is the last read and the reader is past it. */
    ghost predicate ReadUpTo(s: seq<Item>, k: nat)
      reads this
    {
      (k < |s| ==> lastReadItem == Some(s[k]) && input == s[k + 1..])
      && (k >= |s| ==> lastReadItem == None && input == [])
    }

    method Read() returns (r: Option<Item>)
      modifies this
      ensures old(input) == [] ==> r == None && input == []
      ensures old(input) != [] ==> r == Some(old(input)[0]) && input == old(input)[1..]
      ensures output == old(output) && lastReadItem == old(lastReadItem)
    {
      if input == [] {
        r := None;
      } else {
        r := Some(input[0]);
        input := input[1..];
      }
    }

    method Write(x: Item)
      modifies this
      ensures output == old(output) + [x]
      ensures input == old(input) && lastReadItem == old(lastReadItem)
    {
      output := output + [x];
    }

    /** `copyWhile`: writes the items read while they satisfy `condition`; the first that fails is kept. */
    method CopyWhile(condition: Condition)
      modifies this
      ensures var k := CountWhile(old(input), condition);
        output == old(output) + old(input)[..k] && ReadUpTo(old(input), k)
    {
      ghost var s := input;
      ghost var n := 0;
      lastReadItem := Read();
      while lastReadItem.Some? && Holds(condition, lastReadItem.value)
        invariant n <= |s| && (forall j :: 0 <= j < n ==> Holds(condition, s[j]))
        invariant output == old(output) + s[..n] && ReadUpTo(s, n)
        decreases |s| - n
      {
        Write(lastReadItem.value);
        assert s[..n + 1] == s[..n] + [s[n]];
        lastReadItem := Read();
        n := n + 1;
      }
      assert n == CountWhile(s, condition);
    }

    /** `skipAllItemsCompletelyCoveredByItemToInsert`: from the last item read on, covered items are passed over. */
    method SkipAllItemsCompletelyCoveredByItemToInsert()
      requires lastReadItem.None? ==> input == []
      modifies this
      ensures var s := if old(lastReadItem).Some? then [old(lastReadItem).value] + old(input) else [];
        ReadUpTo(s, CountWhile(s, CoveredBy(itemToInsert))) && output == old(output)
    {
      ghost var s := if lastReadItem.Some? then [lastReadItem.value] + input else [];
      ghost var n := 0;
      var currentItem := lastReadItem;
      while currentItem.Some? && EndsSameOrAfter(itemToInsert, currentItem.value)
        invariant n <= |s| && (forall j :: 0 <= j < n ==> Holds(CoveredBy(itemToInsert), s[j]))
        invariant n < |s| ==> currentItem == Some(s[n]) && input == s[n + 1..]
        invariant n >= |s| ==> currentItem == None && input == []
        invariant output == old(output)
        decreases |s| - n
      {
        assert n + 1 < |s| ==> input[0] == s[n + 1] && input[1..] == s[n + 2..];
        currentItem := Read();
        n := n + 1;
      }
      lastReadItem := currentItem;
      CountWhileIs(s, CoveredBy(itemToInsert), n);
    }

    /** `adjustEndOfLastItemReadAndWrite`: an item starting before the new one is written ending at its start. */
    method AdjustEndOfLastItemReadAndWrite(x: Item)
      requires ValidItem(x)
      modifies this
      ensures output == old(output) + LeftPart(x, itemToInsert)
      ensures input == old(input) && lastReadItem == old(lastReadItem)
    {
      if x.start < itemToInsert.start {
        var itemBeforeItemToInsert := WithEnd(x, Whole(itemToInsert.start));
        Write(itemBeforeItemToInsert.value);
      }
    }

    /** `adjustStartOfLastItemReadAndWrite`: an item starting before a closed new end is written starting there. */
    method AdjustStartOfLastItemReadAndWrite(x: Item)
      requires ValidItem(x) && !EndsSameOrAfter(itemToInsert, x)
      modifies this
      ensures output == old(output) + [RightPart(x, itemToInsert)]
      ensures input == old(input) && lastReadItem == old(lastReadItem)
    {
      var itemToWrite := x;
      if itemToInsert.end.At? && itemToInsert.end.time > x.start {
        EndsSameOrAfterIsEndingOrder(itemToInsert, x);
        var moved := WithStart(x, Whole(itemToInsert.end.time));
        itemToWrite := moved.value;
      }
      Write(itemToWrite);
    }

    /** `copyAllItemsEndingAtOrBeforeItemToInsert` */
    method CopyAllItemsEndingAtOrBeforeItemToInsert()
      modifies this
      ensures var k := CountWhile(old(input), EndsByStartOf(itemToInsert));
        output == old(output) + old(input)[..k] && ReadUpTo(old(input), k)
    {
      CopyWhile(EndsByStartOf(itemToInsert));
    }

    /** `copyRemainingItems` */
    method CopyRemainingItems()
      modifies this
      ensures output == old(output) + old(input) && input == [] && lastReadItem == None
    {
      ghost var s := input;
      CopyWhile(Always);
      assert CountWhile(s, Always) == |s|;
    }

    /** `performInsert`: copy, clip the end, write the new item, skip, clip the start, copy the rest. */
    method PerformInsert()
      requires lastReadItem == None && forall x :: x in input ==> ValidItem(x)
      modifies this
      ensures output == old(output) + Inserted(old(input), itemToInsert)
      ensures input == [] && lastReadItem == None
    {
      ghost var s := input;
      ghost var out0 := output;
      WriteUpToItemToInsert();
      WriteAfterItemToInsert(s);
      ConcatAssociates(out0, Head(s, itemToInsert), Tail(s, itemToInsert));
    }

    /** The first three steps of `performInsert`: copy, clip the end of the item read last, write the new item. */
    method WriteUpToItemToInsert()
      requires lastReadItem == None && forall x :: x in input ==> ValidItem(x)
      modifies this
      ensures output == old(output) + Head(old(input), itemToInsert)
      ensures ReadUpTo(old(input), CountWhile(old(input), EndsByStartOf(itemToInsert)))
    {
      ghost var s := input;
      ghost var k1 := CountWhile(s, EndsByStartOf(itemToInsert));
      CopyAllItemsEndingAtOrBeforeItemToInsert();
      if lastReadItem.Some? {
        assert s[k1] in s;
        AdjustEndOfLastItemReadAndWrite(lastReadItem.value);
      }
      Write(itemToInsert);
    }

    /** Skip the items the new one covers, then write the first one it does not, its start clipped. */
    method SkipCoveredAndClip(ghost rest: seq<Item>)
      requires lastReadItem.None? ==> input == []
      requires rest == if lastReadItem.Some? then [lastReadItem.value] + input else []
      requires forall x :: x in rest ==> ValidItem(x)
      modifies this
      ensures var k2 := CountWhile(rest, CoveredBy(itemToInsert));
        (k2 < |rest| ==> output == old(output) + [RightPart(rest[k2], itemToInsert)] && input == rest[k2 + 1..])
        && (k2 >= |rest| ==> output == old(output) && input == [])
    {
      ghost var k2 := CountWhile(rest, CoveredBy(itemToInsert));
      SkipAllItemsCompletelyCoveredByItemToInsert();
      assert ReadUpTo(rest, k2);
      if lastReadItem.Some? {
        assert k2 < |rest| && lastReadItem.value == rest[k2] && rest[k2] in rest;
        assert !Holds(CoveredBy(itemToInsert), rest[k2]);
        AdjustStartOfLastItemReadAndWrite(lastReadItem.value);
      }
    }

    /** The last three steps of `performInsert`: skip, clip the start of the item read last, copy the rest. */
    method WriteAfterItemToInsert(ghost s: seq<Item>)
      requires ReadUpTo(s, CountWhile(s, EndsByStartOf(itemToInsert)))
      requires forall x :: x in s ==> ValidItem(x)
      modifies this
      ensures output == old(output) + Tail(s, itemToInsert)
      ensures input == [] && lastReadItem == None
    {
      ghost var k1 := CountWhile(s, EndsByStartOf(itemToInsert));
      ghost var rest := s[k1..];
      assert k1 < |s| ==> rest == [s[k1]] + s[k1 + 1..];
      ghost var k2 := CountWhile(rest, CoveredBy(itemToInsert));
      ghost var right := if k2 < |rest| then [RightPart(rest[k2], itemToInsert)] else [];
      SkipCoveredAndClip(rest);
      assert output == old(output) + right;
      ghost var afterSkip := input;
      CopyRemainingItems();
      ConcatAssociates(old(output), right, afterSkip);
      TailOfParts(s, itemToInsert, k1, rest, k2, right, afterSkip);
    }
  }
}
