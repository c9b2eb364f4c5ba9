# stt activity timeline in Dafny

This project models the core of stt, a time tracker. The core is the activity timeline: an ordered list of labelled time intervals. Each interval has a start and an ending that is either open (still running) or closed at an instant. stt implements the timeline twice:

- in Rust: the in-memory `Vec` of `src/database.rs` and the entity and line format of `src/tti.rs`;
- in Kotlin: a streaming insert over a sorted reader, the entity `TimeTrackingItem`, the line codec, the query views and the command handlers.

The smaller pieces around the core are modelled too: the summing and overtime reports, the prefix-tree autocompleter with its grouping of typed text, the duration and date texts, and the terminal text-field editor.

Instants are whole seconds since 0000-01-01T00:00:00 in a zoneless proleptic Gregorian calendar, so the day of an instant is `t / 86400`. Wherever the code reads the clock, the model takes `now` as a parameter.

Modules, one per source file or concern:

- `Wrappers`: `Option` and `Result`.
- `Calendar`: instants, days, truncation to whole seconds, and the `yyyy-MM-dd_HH:mm:ss` text with its parser.
- `Tti` (`src/tti.rs`): `Ending` and its orderings, the constructors `starting_at` and `interval`, `to_storage_line`, `unescape` and `from_str`.
- `Database` (`src/database.rs`): the timeline invariant `Wellformed`, `insert_item`, `delete_item` and the three queries. These are specified by functions and implemented by the methods of the class `Timeline`, which mutates its `items` sequence in place.
- `TrackingItem` (`TimeTrackingItem.kt`): the constructor check, the interval predicates and the `with*` copies.
- `StreamInsert` (`InsertHelper.kt`): the class `InsertHelper`, which reads items one by one and writes the output sequence.
- `LineCodec` (`STTItemConverter.kt`): `escape`, `unescape`, `parseDate`, `appendDateTime` and the line reader and writer.
- `Query` (`Criteria.kt`): the class `Criteria` with its setters and `matches`.
- `ItemQueries` (`TimeTrackingItemQueries.kt`): the cached item list and its views.
- `Commands` (`Activities.kt`): the command handlers. Each returns the persister call it makes, as an `Effect`.
- `TimeText` (`DateTimes.kt`): day predicates and the duration and date texts.
- `SummingReport` (`SummingReportGenerator.kt`): the loop of `createReport` and its specification.
- `OvertimeReport` (`OvertimeReportGenerator.kt`): the per-day overtime map, its sum and its range view.
- `PrefixGrouper` (`CommonPrefixGrouper.kt`): the trie, `insert`, `getPossibleExpansions`, and the `GroupHelper` parser.
- `TextEditing` (`src/tui/textfield.rs`): the key step function and the class `TextFieldState`.

## Model

| member | source | states |
|---|---|---|
| Tti.CmpIsTotalOrder | src/tti.rs:61-83 | the ordering of endings is a total order: equal only on equal endings, antisymmetric, transitive |
| Tti.OpenIsGreatest | src/tti.rs:61-77 | `Open` equals `Open` and is greater than every closed ending, which is less than it |
| Tti.OpenAgainstInstant | src/tti.rs:34-59 | against an instant an open ending is greater and never equal; equality and the comparison agree, and agree with comparing `At(t)` |
| Tti.StartingAt | src/tti.rs:86-92 | `starting_at` always succeeds with an open, valid item |
| Tti.Interval | src/tti.rs:94-108 | `interval` fails exactly when the end is before the start (compared with sub-seconds), and then with `StartAfterEnd`; otherwise the item is closed and valid |
| Tti.ConstructorsTruncate | src/tti.rs:86-108 | both constructors drop the sub-second part: starts and ends differing only in nanoseconds give the same item |
| Tti.FormatTimestampInRange | src/tti.rs:134-137 | for years 0..9999 the `%Y-%m-%d_%H:%M:%S` text has 19 characters, has the timestamp shape and reads back to the same instant |
| Tti.ParseSttDateTime | src/tti.rs:193-197 | a 19-character slice in the fixed-width digit form `yyyy-mm-dd_HH:MM:SS` parses exactly when it names a valid date and time; the other forms chrono accepts are refused (see "Left out") |
| Tti.FromStr | src/tti.rs:155-191 | a parsed item is valid; a line shorter than 19 characters or with an unreadable start gives `BadFormat` |
| Tti.FromStrLayout | src/tti.rs:158-190 | counting in characters, the end is taken from 20..39 only when that slice is a timestamp (the activity then from 40); otherwise the item is open with the activity from 20 |
| Tti.EscapeRoundTrip | src/tti.rs:110-131 | `unescape` undoes the escaping of `to_storage_line` for activities without a backslash followed by `n` |
| Tti.BackslashNIsNotRestored | src/tti.rs:112-131 | the activity backslash-`n` escapes and unescapes to backslash-newline, a different activity |
| Tti.EscapeRoundTripFixed | src/tti.rs:129-131 | a single left-to-right unescape undoes the escaping for every activity |
| Tti.EscapedNotTimestamp | src/tti.rs:161-179 | an activity that does not start like a timestamp does not escape to one, so an open item's line is not read as closed |
| Tti.ParseFormatted | src/tti.rs:193-197 | a timestamp of the years 0 to 9999 is written in 19 characters that parse back to it |
| Tti.ReadClosedLine | src/tti.rs:157-171 | a start, a space, a valid end no earlier than the start, a space and an activity are read as that closed item with the activity unescaped |
| Tti.ReadOpenLine | src/tti.rs:172-189 | a start, a space and an activity that does not start like a timestamp are read as that open item |
| Tti.StorageLineReadClosed | src/tti.rs:158-171 | a closed valid item with four-digit years is read back with its activity passed through escape and unescape |
| Tti.StorageLineReadOpen | src/tti.rs:172-188 | an open item whose activity does not start like a timestamp is read back likewise |
| Tti.StorageLineRead | src/tti.rs:110-191 | every such item is read back with start and end intact and the activity passed through escape and unescape |
| Tti.StorageLineRoundTrip | src/tti.rs:110-191 | with no backslash followed by `n` in the activity, `from_str(to_storage_line(item)) == item` |
| Database.WellformedMeans | src/database.rs:89-126 | a well-formed timeline is sorted by start, every item before the last is closed no later than the next starts, and only the last item may be open |
| Database.WellformedSlice | src/database.rs:89-126 | every contiguous part of a well-formed timeline is well-formed |
| Database.WellformedConcat | src/database.rs:89-126 | two well-formed timelines joined where the first ends before the second starts form a well-formed timeline |
| Database.ScanIndex | src/database.rs:90-93 | the scan stops at the first item whose end is not before the new start; every item before it ends before that start |
| Database.DropCovered | src/database.rs:123-125 | the removal loop drops exactly the leading items ending at or before the new end and keeps a suffix whose first item ends after it |
| Database.PlaceShape | src/database.rs:90-111 | what is placed before the new item is well-formed, starts before it and ends no later than it starts |
| Database.ClipFirstShape | src/database.rs:115-122 | clipping the successor's start to a closed new end changes only the first item and leaves it after the new item |
| Database.InsertCorrectedKeepsTimeline | src/database.rs:89-126 | inserting into a well-formed timeline keeps it well-formed, with the new item in its place |
| Database.InsertCorrectedDropsCovered | src/database.rs:106-125 | no item the new item covers survives the insertion |
| Database.InsertSplitsLeftOverlap | src/database.rs:94-105 | an item the new one starts inside is clipped to end at the new start, and its remainder after a closed new end is placed right after the new item |
| Database.InsertOpenDropsLater | src/database.rs:112-125 | an open new item ends the timeline: everything after it is removed |
| Database.AsWrittenAgreesWithoutCoveredSuccessor | src/database.rs:112-125 | when the first item after the new one is not covered by it, the insertion as written and the corrected one agree |
| Database.InsertAsWrittenOverlaps | src/database.rs:115-125 | as written, [0-4],[5-6],[6-20] with [3-10] inserted gives [0-3],[3-10],[6-20], which overlaps |
| Database.InsertCorrectedOnOverlap | src/database.rs:106-125 | on the same timeline the corrected insertion gives [0-3],[3-10],[10-20], which is well formed |
| Database.IndexOf | src/database.rs:129-130 | the index of the first item equal to the target, or the length when there is none |
| Database.DeleteAsWrittenPanicsAtFirst | src/database.rs:130-134 | deleting the first item reads the item before index 0 and panics; the corrected deletion removes it |
| Database.DeleteAsWrittenAgreesElsewhere | src/database.rs:128-148 | for every other target the deletion as written and the corrected one agree |
| Database.DeleteRemovesFirstEqual | src/database.rs:128-148 | deletion fails exactly when the target is absent; otherwise it removes the first equal item, leaves the rest alone and extends the predecessor only when it was contiguous, the target closed, a successor exists and start and end fall on one day |
| Database.DeleteCorrectedKeepsTimeline | src/database.rs:128-148 | deleting from a well-formed timeline keeps it well-formed |
| Database.Query | src/database.rs:77-79 | `query` holds every item, newest first |
| Database.QueryN | src/database.rs:81-83 | `query_n` holds the newest `limit` items (all if fewer), newest first |
| Database.QueryLatest | src/database.rs:85-87 | `query_latest` is none exactly for an empty timeline, and otherwise the first item of `query` |
| Database.QueryNewestFirst | src/database.rs:77-87 | on a well-formed timeline `query` is ordered by descending start and `query_latest` has the latest start |
| Database.EditsKeepTimeline | src/database.rs:89-148 | any sequence of corrected insertions of valid items and deletions keeps a timeline well-formed |
| Database.Timeline.PlaceItem | src/database.rs:90-114 | the new item is placed between the kept items before it and the rest, with the index just after it |
| Database.Timeline.ScanTo | src/database.rs:90-93 | the scan stops at the first item that does not end before the new start: every item before it ends earlier, and the one at it (if any) does not |
| Database.Timeline.RemoveCovered | src/database.rs:123-125 | the loop removes exactly what `DropCovered` drops from the index on |
| Database.Timeline.ClipSuccessor | src/database.rs:115-122 | the item after the new one gets the clipped start, nothing else changes |
| Database.Timeline.InsertItem | src/database.rs:89-126 | `insert_item` as written leaves the timeline `InsertedAsWritten` of the old one |
| Database.Timeline.InsertItemCorrected | src/database.rs:89-126 | the corrected insertion leaves `InsertedCorrected` and keeps a well-formed timeline well-formed |
| Database.Timeline.DeleteItem | src/database.rs:128-148 | `delete_item` gives the outcome of `DeleteAsWritten` and leaves the timeline unchanged when the item is not found |
| TrackingItem.Create | src/main/kotlin/org/stt/model/TimeTrackingItem.kt:8-16 | construction fails exactly when an end is given that is before the start (compared with sub-seconds); a built item is valid and keeps its activity |
| TrackingItem.CreateAgreesWithRust | src/main/kotlin/org/stt/model/TimeTrackingItem.kt:12-16 | the Kotlin constructor builds the same item as `starting_at` without an end and as `interval` with one |
| TrackingItem.IntersectsMeansCommonInstant | src/main/kotlin/org/stt/model/TimeTrackingItem.kt:28-29 | `intersects` is symmetric, items that only touch do not intersect, and non-empty items intersect exactly when some instant lies in both half-open spans |
| TrackingItem.EndsSameOrAfterIsEndingOrder | src/main/kotlin/org/stt/model/TimeTrackingItem.kt:31 | `endsSameOrAfter` is the ending order (open greatest); it is reflexive and true for an open item |
| TrackingItem.EndsAtOrBeforeIsEndingOrder | src/main/kotlin/org/stt/model/TimeTrackingItem.kt:33 | `endsAtOrBefore(t)` holds exactly when the end is closed and at most `t`; never for an open item |
| TrackingItem.WithEnd | src/main/kotlin/org/stt/model/TimeTrackingItem.kt:35 | `withEnd` fails exactly when the new end is before the start; otherwise only the end changes, truncated to seconds |
| TrackingItem.WithPendingEnd | src/main/kotlin/org/stt/model/TimeTrackingItem.kt:37 | `withPendingEnd` changes only the end, to open, and gives a valid item |
| TrackingItem.WithStart | src/main/kotlin/org/stt/model/TimeTrackingItem.kt:39 | `withStart` fails exactly when a closed end is before the new start; otherwise only the start changes, truncated to seconds |
| TrackingItem.WithActivity | src/main/kotlin/org/stt/model/TimeTrackingItem.kt:41 | `withActivity` changes only the activity |
| StreamInsert.CountWhile | src/main/kotlin/org/stt/persistence/stt/InsertHelper.kt:51-56 | the number of leading items meeting the condition: all before it meet it, the one at it does not |
| StreamInsert.InsertedHead | src/main/kotlin/org/stt/persistence/stt/InsertHelper.kt:12-15 | items ending at or before the new start are copied unchanged and in order; the first other item, if it starts earlier, is written ending at the new start; then comes the new item |
| StreamInsert.InsertedTail | src/main/kotlin/org/stt/persistence/stt/InsertHelper.kt:16-18 | items the new item ends at or after are dropped; the first other item gets its start moved to a closed new end that is after its start; the rest is copied; an open new item leaves nothing after it |
| StreamInsert.HeadShape | src/main/kotlin/org/stt/persistence/stt/InsertHelper.kt:12-15 | what is written up to the new item is a well-formed timeline ending with the new item |
| StreamInsert.TailShape | src/main/kotlin/org/stt/persistence/stt/InsertHelper.kt:16-18 | what is written after the new item is a well-formed timeline starting no earlier than the new item ends |
| StreamInsert.InsertedKeepsTimeline | src/main/kotlin/org/stt/persistence/stt/InsertHelper.kt:12-19 | inserting into a well-formed stream gives a well-formed stream that holds the new item |
| StreamInsert.InsertedOnce | src/main/kotlin/org/stt/persistence/stt/InsertHelper.kt:12-19 | when the new item is not yet stored or has a positive length, the output holds it exactly once, right after the adjusted head |
| StreamInsert.InsertedStoredEmptyTwice | src/main/kotlin/org/stt/persistence/stt/InsertHelper.kt:12-23 | a stored zero-length item ends at the new start, so it is copied and then written again as the new item: the output holds it twice |
| StreamInsert.InsertedSplits | src/main/kotlin/org/stt/persistence/stt/InsertHelper.kt:25-37 | an item strictly inside an existing one splits it: [0-10] with [3-5] inserted gives [0-3],[3-5],[5-10] |
| StreamInsert.InsertHelper.Read | src/main/kotlin/org/stt/persistence/stt/InsertHelper.kt:53 | reading takes the first item of the input, or none at its end |
| StreamInsert.InsertHelper.Write | src/main/kotlin/org/stt/persistence/stt/InsertHelper.kt:54 | writing appends one item to the output |
| StreamInsert.InsertHelper.CopyWhile | src/main/kotlin/org/stt/persistence/stt/InsertHelper.kt:51-56 | the leading items meeting the condition are copied to the output, and the first one that does not is read and held back |
| StreamInsert.InsertHelper.CopyAllItemsEndingAtOrBeforeItemToInsert | src/main/kotlin/org/stt/persistence/stt/InsertHelper.kt:21-23 | the items ending at or before the new start are copied |
| StreamInsert.InsertHelper.AdjustEndOfLastItemReadAndWrite | src/main/kotlin/org/stt/persistence/stt/InsertHelper.kt:31-37 | the held item is written ending at the new start when it starts before it, and dropped otherwise |
| StreamInsert.InsertHelper.SkipAllItemsCompletelyCoveredByItemToInsert | src/main/kotlin/org/stt/persistence/stt/InsertHelper.kt:43-49 | reading continues past every item the new one ends at or after, writing nothing |
| StreamInsert.InsertHelper.AdjustStartOfLastItemReadAndWrite | src/main/kotlin/org/stt/persistence/stt/InsertHelper.kt:25-29 | the first surviving item is written starting at a closed new end after its start, and unchanged otherwise |
| StreamInsert.InsertHelper.SkipCoveredAndClip | src/main/kotlin/org/stt/persistence/stt/InsertHelper.kt:16-17 | after the skip and the clip, the first item the new one does not cover has been written with its start moved to the new end where needed, and reading resumes just after it; with no such item nothing is written and nothing is left to read |
| StreamInsert.InsertHelper.CopyRemainingItems | src/main/kotlin/org/stt/persistence/stt/InsertHelper.kt:39-41 | everything left in the input is copied |
| StreamInsert.InsertHelper.WriteUpToItemToInsert | src/main/kotlin/org/stt/persistence/stt/InsertHelper.kt:13-15 | the first three steps write the head of the insertion |
| StreamInsert.InsertHelper.WriteAfterItemToInsert | src/main/kotlin/org/stt/persistence/stt/InsertHelper.kt:16-18 | the last three steps write the tail of the insertion |
| StreamInsert.InsertHelper.PerformInsert | src/main/kotlin/org/stt/persistence/stt/InsertHelper.kt:12-19 | `performInsert` writes exactly `Inserted(input, itemToInsert)` and consumes the whole input |
| LineCodec.JavaRem | src/main/kotlin/org/stt/persistence/stt/STTItemConverter.kt:116-134 | Java's `%` keeps the sign of the dividend, stays below the divisor in size and agrees with `%` on non-negative values |
| LineCodec.DigitOf | src/main/kotlin/org/stt/persistence/stt/STTItemConverter.kt:116-134 | one appended digit is the decimal digit of a non-negative value and never a line break |
| LineCodec.DateTimeText | src/main/kotlin/org/stt/persistence/stt/STTItemConverter.kt:109-135 | `appendDateTime` writes 19 characters and no line break |
| LineCodec.DateTimeTextIsPadded | src/main/kotlin/org/stt/persistence/stt/STTItemConverter.kt:109-135 | for years 0..9999 it writes the zero-padded `yyyy-MM-dd_HH:mm:ss` of the date and time |
| LineCodec.ParseDate | src/main/kotlin/org/stt/persistence/stt/STTItemConverter.kt:41-71 | `parseDate` gives null exactly when some of the 19 positions lacks its digit or separator; otherwise a date or the exception of `LocalDateTime.of` |
| LineCodec.ParseWrittenDate | src/main/kotlin/org/stt/persistence/stt/STTItemConverter.kt:41-71 | a written timestamp reads back as the instant it was written from |
| LineCodec.Escaped | src/main/kotlin/org/stt/persistence/stt/STTItemConverter.kt:87-107 | the escaped activity holds no line feed or carriage return |
| LineCodec.EscapeRoundTrip | src/main/kotlin/org/stt/persistence/stt/STTItemConverter.kt:19-39 | `unescape(escape(s))` is `s` with CR and CR LF each turned into LF |
| LineCodec.NormalizeWithoutCarriageReturn | src/main/kotlin/org/stt/persistence/stt/STTItemConverter.kt:87-107 | without carriage returns the normalisation changes nothing, so `unescape(escape(s)) == s` |
| LineCodec.UnescapedPair | src/main/kotlin/org/stt/persistence/stt/STTItemConverter.kt:26-32 | backslash-`n` reads as a newline and backslash-x as x |
| LineCodec.Escape | src/main/kotlin/org/stt/persistence/stt/STTItemConverter.kt:87-107 | the loop appends exactly the escaped activity to the builder |
| LineCodec.Unescape | src/main/kotlin/org/stt/persistence/stt/STTItemConverter.kt:19-39 | the loop builds exactly the unescaped activity, a trailing lone backslash kept |
| LineCodec.LineHasNoBreak | src/main/kotlin/org/stt/persistence/stt/STTItemConverter.kt:73-85 | a written line holds no line break |
| LineCodec.LineLayout | src/main/kotlin/org/stt/persistence/stt/STTItemConverter.kt:73-85 | the line is the start, a space, for a closed item the end and a space, then the escaped activity |
| LineCodec.ParsedLineLayout | src/main/kotlin/org/stt/persistence/stt/STTItemConverter.kt:8-17 | the end is read only from a line of at least 39 characters whose 20..39 look like a timestamp; the activity starts at 40 after an end and at 20 otherwise, empty when the line is shorter |
| LineCodec.LineRoundTrip | src/main/kotlin/org/stt/persistence/stt/STTItemConverter.kt:8-17 | a written valid item reads back with its activity's CR and CR LF turned into LF, unless it is open with an activity escaping to a timestamp |
| LineCodec.LineRoundTripExact | src/main/kotlin/org/stt/persistence/stt/STTItemConverter.kt:8-17 | without carriage returns in the activity it reads back as itself |
| LineCodec.OpenItemWithTimestampActivity | src/main/kotlin/org/stt/persistence/stt/STTItemConverter.kt:10-11 | an open item whose escaped activity starts with a timestamp is read back as closed, or fails |
| LineCodec.TimeTrackingItemToLine | src/main/kotlin/org/stt/persistence/stt/STTItemConverter.kt:73-85 | the builder ends up holding `Line(item)` |
| LineCodec.LineJoins | src/main/kotlin/org/stt/persistence/stt/STTItemConverter.kt:73-85 | a line is the start timestamp, then the end timestamp for a closed item, then the escaped activity, separated by single spaces |
| LineCodec.LineToTimeTrackingItem | src/main/kotlin/org/stt/persistence/stt/STTItemConverter.kt:8-17 | the method gives `ParsedLine(line)`, with each exception as its error |
| Query.NoCriteriaAdmitsAll | src/main/kotlin/org/stt/query/Criteria.kt:11-20 | a new `Criteria` matches every item |
| Query.BoundsAtTheirInstant | src/main/kotlin/org/stt/query/Criteria.kt:80-83 | `startNotBefore` admits a start at its instant and `startBefore` refuses it; `endNotAfter` admits an end at its instant and `endBefore` refuses it; both end bounds refuse open items |
| Query.ActivityConditions | src/main/kotlin/org/stt/query/Criteria.kt:84-88 | `activityIs` admits exactly the equal activity, `activityIsNot` exactly the others, `activityContains` the activities holding it as a substring |
| Query.PeriodAtDayMeansStartDay | src/main/kotlin/org/stt/query/Criteria.kt:43-48 | `withPeriodAtDay(d)` alone admits exactly the items starting on day `d` |
| Query.NarrowingAdmitsFewer | src/main/kotlin/org/stt/query/Criteria.kt:79-89 | `matches` is a conjunction: criteria that narrow others admit no item the others refuse |
| Query.SettersNarrow | src/main/kotlin/org/stt/query/Criteria.kt:22-77 | each setter, applied to an unset field or tightening a bound, narrows the criteria |
| Query.Criteria.constructor | src/main/kotlin/org/stt/query/Criteria.kt:11-20 | a new `Criteria` has every field unset |
| Query.Criteria.WithStartNotBefore | src/main/kotlin/org/stt/query/Criteria.kt:28-31 | only `startNotBefore` changes |
| Query.Criteria.WithStartBefore | src/main/kotlin/org/stt/query/Criteria.kt:33-36 | only `startBefore` changes |
| Query.Criteria.WithStartBetween | src/main/kotlin/org/stt/query/Criteria.kt:22-26 | both start bounds are set from the interval, nothing else changes |
| Query.Criteria.WithEndNotAfter | src/main/kotlin/org/stt/query/Criteria.kt:38-41 | only `endNotAfter` changes |
| Query.Criteria.WithPeriodAtDay | src/main/kotlin/org/stt/query/Criteria.kt:43-48 | the start bounds become the day's midnight and the next midnight |
| Query.Criteria.WithEndBefore | src/main/kotlin/org/stt/query/Criteria.kt:50-53 | only `endBefore` changes |
| Query.Criteria.WithActivityContains | src/main/kotlin/org/stt/query/Criteria.kt:55-58 | only `activityContains` changes |
| Query.Criteria.WithActivityIsNot | src/main/kotlin/org/stt/query/Criteria.kt:60-62 | only `activityIsNot` changes |
| Query.Criteria.WithStartsAt | src/main/kotlin/org/stt/query/Criteria.kt:64-67 | only `startsAt` changes |
| Query.Criteria.WithActivityIs | src/main/kotlin/org/stt/query/Criteria.kt:69-72 | only `activityIs` changes |
| Query.Criteria.WithEndsAt | src/main/kotlin/org/stt/query/Criteria.kt:74-77 | only `endsAt` changes |
| ItemQueries.LastItem | src/main/kotlin/org/stt/query/TimeTrackingItemQueries.kt:29-33 | `lastItem` is null exactly for no items, and otherwise the last one |
| ItemQueries.OngoingIsTheOpenItem | src/main/kotlin/org/stt/query/TimeTrackingItemQueries.kt:23-27 | on a well-formed timeline `ongoingItem` is present exactly when some item is open, and it is that item |
| ItemQueries.ListIndexOf | src/main/kotlin/org/stt/query/TimeTrackingItemQueries.kt:52 | `indexOf` is -1 exactly for an absent item, and otherwise the first index holding it |
| ItemQueries.AdjacentOfAbsentItem | src/main/kotlin/org/stt/query/TimeTrackingItemQueries.kt:52-66 | as written, an item not in the list can get the first item as its next one |
| ItemQueries.AdjacentMeansContiguous | src/main/kotlin/org/stt/query/TimeTrackingItemQueries.kt:50-68 | corrected: an absent item has no neighbours; the previous item is returned exactly when it ends where the item starts, the next one exactly when it starts where the item ends; for a present item this is what the code as written gives |
| ItemQueries.Distinct | src/main/kotlin/org/stt/query/TimeTrackingItemQueries.kt:77 | `distinct` keeps every value once and only values of the input |
| ItemQueries.DistinctInFirstSeenOrder | src/main/kotlin/org/stt/query/TimeTrackingItemQueries.kt:77 | `distinct` keeps the values in the order of their first occurrence |
| ItemQueries.StartDays | src/main/kotlin/org/stt/query/TimeTrackingItemQueries.kt:75-76 | the start dates of the items, one per item, in order |
| ItemQueries.TrackedDaysAreStartDays | src/main/kotlin/org/stt/query/TimeTrackingItemQueries.kt:73-78 | `queryAllTrackedDays` holds exactly the start dates, each once, in first-seen order |
| ItemQueries.QueryItems | src/main/kotlin/org/stt/query/TimeTrackingItemQueries.kt:83-84 | `queryItems` holds exactly the items the criteria match |
| ItemQueries.QueryItemsKeepsOrder | src/main/kotlin/org/stt/query/TimeTrackingItemQueries.kt:83-84 | the filter works item by item, keeping order: filtering a concatenation concatenates the filtered parts |
| ItemQueries.QueryItemsKeepsTimeline | src/main/kotlin/org/stt/query/TimeTrackingItemQueries.kt:83-84 | the matching items of a well-formed timeline form a well-formed timeline |
| ItemQueries.TimeTrackingItemQueries.SourceChanged | src/main/kotlin/org/stt/query/TimeTrackingItemQueries.kt:39-44 | a change of the stored items clears the cache |
| ItemQueries.TimeTrackingItemQueries.ValidateCache | src/main/kotlin/org/stt/query/TimeTrackingItemQueries.kt:94-108 | an empty cache is filled with the stored items, a filled one is kept |
| ItemQueries.TimeTrackingItemQueries.GetLastItem | src/main/kotlin/org/stt/query/TimeTrackingItemQueries.kt:29-33 | the last cached item; the last stored one when the cache was current |
| ItemQueries.TimeTrackingItemQueries.GetOngoingItem | src/main/kotlin/org/stt/query/TimeTrackingItemQueries.kt:26-27 | the ongoing item of the cache |
| ItemQueries.TimeTrackingItemQueries.GetAdjacentItems | src/main/kotlin/org/stt/query/TimeTrackingItemQueries.kt:50-68 | the neighbours as written, over the cache |
| ItemQueries.TimeTrackingItemQueries.QueryAllTrackedDays | src/main/kotlin/org/stt/query/TimeTrackingItemQueries.kt:73-78 | the tracked days of the cache |
| ItemQueries.TimeTrackingItemQueries.QueryItemsMatching | src/main/kotlin/org/stt/query/TimeTrackingItemQueries.kt:83-92 | the cached items the criteria match, in order |
| Commands.EditedActivityCriteriaMeans | src/main/kotlin/org/stt/command/Activities.kt:48-53 | the criteria of `itemWithEditedActivity` match exactly the items with the new item's start and end |
| Commands.AddNewActivityChoice | src/main/kotlin/org/stt/command/Activities.kt:31-59 | `addNewActivity` replaces the last item when it is ongoing with the same start, otherwise an item with the same start and end, and otherwise persists the new item |
| Commands.EndCurrentActivityMeans | src/main/kotlin/org/stt/command/Activities.kt:61-68 | `endCurrentActivity` does nothing without an ongoing item, fails when the end is before its start, and otherwise replaces it with its copy closed at the end |
| Commands.RemoveActivityAndCloseGapMeans | src/main/kotlin/org/stt/command/Activities.kt:76-101 | with contiguous neighbours of equal activity the previous item is persisted extended to the next one's end (open if that is open); an ongoing item whose contiguous predecessor starts on the same day reopens the predecessor; anything else is a plain delete |
| Commands.InsertedFrom | src/main/kotlin/org/stt/command/Activities.kt:85-91 | persisting an item with the start of an existing item keeps the items before it and places it there |
| Commands.CloseGapMerges | src/main/kotlin/org/stt/command/Activities.kt:82-88 | persisting the merged item replaces the previous, deleted and next items by the one merged item |
| Commands.ReopenDropsRest | src/main/kotlin/org/stt/command/Activities.kt:89-94 | persisting the reopened predecessor removes every later item |
| Commands.ResumeActivity | src/main/kotlin/org/stt/command/Activities.kt:103-110 | `resumeActivity` persists an open copy of the item starting at the given instant |
| Commands.ResumeLastActivity | src/main/kotlin/org/stt/command/Activities.kt:112-121 | `resumeLastActivity` acts exactly when the last item is closed, persisting an open copy of it starting at `resumeAt` |
| TimeText.IsBetweenInclusive | src/main/kotlin/org/stt/time/DateTimes.kt:41-46 | `isBetween` includes both ends and holds for nothing when `from` is after `to` |
| TimeText.IsOnSameDayMeansOneDay | src/main/kotlin/org/stt/time/DateTimes.kt:37-39 | `isOnSameDay` is false when either argument is null, and otherwise holds exactly when both fall within one calendar day |
| TimeText.FieldsRecompose | src/main/kotlin/org/stt/time/DateTimes.kt:16-20 | for a non-negative duration the hours, minutes and seconds recompose it, minutes and seconds in 0..59 |
| TimeText.FormatPeriodReads | src/main/kotlin/org/stt/time/DateTimes.kt:16-20 | the `%d:%02d:%02d` text of a non-negative duration reads back as that duration |
| TimeText.PrettyPrintDurationReads | src/main/kotlin/org/stt/time/DateTimes.kt:72-79 | `prettyPrintDuration` starts with `-` exactly for a negative duration (otherwise with a space) and reads back as the duration |
| TimeText.YearOfEraText | src/main/kotlin/org/stt/time/DateTimes.kt:13-14 | the `yyyy` text of a year starts with a digit or a sign |
| TimeText.YearOfEraTextInRange | src/main/kotlin/org/stt/time/DateTimes.kt:13-14 | for years 1..9999 it is the four zero-padded digits |
| TimeText.BeginningOfTimeIsMin | src/main/kotlin/org/stt/time/DateTimes.kt:62-70 | `prettyPrintDate` prints "beginning of time" exactly for `LocalDate.MIN` |
| Calendar.DayOfInstant | src/database.rs:138 | the calendar day of an instant is the one whose midnight-to-midnight span holds it |
| Calendar.TruncateMonotone | src/main/kotlin/org/stt/time/DateTimes.kt:82 | dropping the sub-second part keeps the order of instants, and a strict order of whole seconds was strict before |
| Calendar.FromInstant | src/main/kotlin/org/stt/persistence/stt/STTItemConverter.kt:110-115 | the date-time fields of an instant form a valid date and time |
| Calendar.InstantRoundTrip | src/main/kotlin/org/stt/persistence/stt/STTItemConverter.kt:64-70 | an instant's fields give back the instant |
| Calendar.FieldsRoundTrip | src/main/kotlin/org/stt/persistence/stt/STTItemConverter.kt:64-70 | a valid date and time gives back its fields through its instant |
| Calendar.TimestampFields | src/main/kotlin/org/stt/persistence/stt/STTItemConverter.kt:64-69 | the fields read from a timestamp-shaped text have a four-digit year |
| Calendar.FormatFields | src/tti.rs:134-137 | the `%Y-%m-%d_%H:%M:%S` text of a date in years 0..9999 has 19 characters and the timestamp shape |
| Calendar.FormatFieldsRead | src/tti.rs:193-197 | reading the text back gives the same fields |
| SummingReport.ClampedDuration | src/main/kotlin/org/stt/reporting/SummingReportGenerator.kt:63-66 | an item's counted duration is never negative |
| SummingReport.Gap | src/main/kotlin/org/stt/reporting/SummingReportGenerator.kt:45-54 | the uncovered time between two items is never negative |
| SummingReport.Uncovered | src/main/kotlin/org/stt/reporting/SummingReportGenerator.kt:45-54 | the sum of the gaps is never negative |
| SummingReport.TotalsPerActivity | src/main/kotlin/org/stt/reporting/SummingReportGenerator.kt:67-73 | the collected map has exactly one key per activity that occurs, and its value is the sum of that activity's clamped durations |
| SummingReport.ActivityTotalAbsent | src/main/kotlin/org/stt/reporting/SummingReportGenerator.kt:67-73 | an activity that does not occur sums to zero |
| SummingReport.CoveredAndUncoveredSpan | src/main/kotlin/org/stt/reporting/SummingReportGenerator.kt:37-76 | on a well-formed timeline the covered and the uncovered time add up to the span from the first start to the last end |
| SummingReport.StringLessIsStrictTotalOrder | src/main/kotlin/org/stt/reporting/SummingReportGenerator.kt:83 | the comparison of activities is a strict total order |
| SummingReport.InsertByCommentSorted | src/main/kotlin/org/stt/reporting/SummingReportGenerator.kt:83 | inserting into a sorted list keeps it sorted and adds exactly the one entry |
| SummingReport.SortByCommentSorted | src/main/kotlin/org/stt/reporting/SummingReportGenerator.kt:83 | the sort gives a sorted permutation of its input |
| SummingReport.SortKeepsEntries | src/main/kotlin/org/stt/reporting/SummingReportGenerator.kt:78-83 | sorting keeps one entry per activity with its total and its break flag |
| SummingReport.CreateReport | src/main/kotlin/org/stt/reporting/SummingReportGenerator.kt:28-88 | the report starts at the first item's start and ends at the last item's end (both absent without items), its uncovered duration is the sum of the gaps, and it holds one entry per activity with its total, sorted by activity |
| SummingReport.CollectItems | src/main/kotlin/org/stt/reporting/SummingReportGenerator.kt:29-76 | the reading loop leaves the first start, the last end (the clock for an open one), the per-activity totals of clamped durations and the sum of the gaps between consecutive items |
| SummingReport.ListEntries | src/main/kotlin/org/stt/reporting/SummingReportGenerator.kt:78-81 | the entries are one per activity of the collecting map, each with that activity's total and its break category |
| OvertimeReport.OvertimeIsClampRemainder | src/main/kotlin/org/stt/reporting/OvertimeReportGenerator.kt:89-99 | a day's overtime is what lies outside [min, max]: duration - max above max, duration - min below min, zero inside |
| OvertimeReport.DayTotalsPerDay | src/main/kotlin/org/stt/reporting/OvertimeReportGenerator.kt:35-47 | the map has a key exactly for each day on which a work-time item starts, holding the sum of those items' durations |
| OvertimeReport.NotWorkedOn | src/main/kotlin/org/stt/reporting/OvertimeReportGenerator.kt:35-47 | a day without work-time items has no worked time |
| OvertimeReport.OvertimeMapMeans | src/main/kotlin/org/stt/reporting/OvertimeReportGenerator.kt:32-69 | `overtime` has a key exactly for each worked or absent day; an absence gives its minimum and overrides; otherwise the day's overtime of its worked time |
| OvertimeReport.AbsencesOf | src/main/kotlin/org/stt/reporting/OvertimeReportGenerator.kt:60-69 | `absencesMap` maps each absence day to its minimum working time |
| OvertimeReport.SumPerDay | src/main/kotlin/org/stt/reporting/OvertimeReportGenerator.kt:35-47 | the first loop leaves the worked time per day |
| OvertimeReport.ToOvertime | src/main/kotlin/org/stt/reporting/OvertimeReportGenerator.kt:49-51 | the second loop turns each day's worked time into its overtime |
| OvertimeReport.PutAll | src/main/kotlin/org/stt/reporting/OvertimeReportGenerator.kt:53 | `putAll` adds the entries of the other map, overriding on common keys |
| OvertimeReport.Overtime | src/main/kotlin/org/stt/reporting/OvertimeReportGenerator.kt:32-55 | `overtime` gives `OvertimeMap` |
| OvertimeReport.SumValuesRemove | src/main/kotlin/org/stt/reporting/OvertimeReportGenerator.kt:22-24 | the sum of a map's values does not depend on the order of the keys |
| OvertimeReport.OverallOvertime | src/main/kotlin/org/stt/reporting/OvertimeReportGenerator.kt:19-26 | `overallOvertime` is the sum of all values of `overtime` |
| OvertimeReport.SumValuesSigns | src/main/kotlin/org/stt/reporting/OvertimeReportGenerator.kt:19-26 | a sum of zeros is zero and a sum of non-negative values is non-negative |
| OvertimeReport.NoOvertimeWithinBounds | src/main/kotlin/org/stt/reporting/OvertimeReportGenerator.kt:19-55 | when every worked day is within its bounds and nobody is absent, the overall overtime is zero |
| OvertimeReport.OvertimeBetween | src/main/kotlin/org/stt/reporting/OvertimeReportGenerator.kt:74-83 | `getOvertime(from, to)` keeps exactly the days in the inclusive range, with their values |
| PrefixGrouper.PrefixClosed | src/main/kotlin/org/stt/text/CommonPrefixGrouper.kt:45-67 | every prefix of a node of the tree is a node of the tree |
| PrefixGrouper.Child | src/main/kotlin/org/stt/text/CommonPrefixGrouper.kt:108-113 | `child(c)` gives a node exactly when the current node exists and has a `c` child |
| PrefixGrouper.ChildKeyIsChild | src/main/kotlin/org/stt/text/CommonPrefixGrouper.kt:122-132 | a character is among a node's child keys exactly when the node extended by it is a node |
| PrefixGrouper.DeeperShrinks | src/main/kotlin/org/stt/text/CommonPrefixGrouper.kt:89-95 | stepping to a child leaves strictly fewer nodes below, so the single-child walk ends |
| PrefixGrouper.TheKey | src/main/kotlin/org/stt/text/CommonPrefixGrouper.kt:126-128 | `anyChild` of a node with one child is that child |
| PrefixGrouper.ChainStep | src/main/kotlin/org/stt/text/CommonPrefixGrouper.kt:89-95 | at a node with one child, the walk appends that character and continues, or stops at the terminator |
| PrefixGrouper.ChainStops | src/main/kotlin/org/stt/text/CommonPrefixGrouper.kt:89-95 | the walk ends at a node of the tree that branches, is a leaf, or only terminates |
| PrefixGrouper.ChainHead | src/main/kotlin/org/stt/text/CommonPrefixGrouper.kt:89-95 | a non-empty walk starts with the node's only child |
| PrefixGrouper.ChainFollowsSingleChildren | src/main/kotlin/org/stt/text/CommonPrefixGrouper.kt:89-95 | every character of the walk is the only child of the node reached before it |
| PrefixGrouper.ExpansionStaysInTree | src/main/kotlin/org/stt/text/CommonPrefixGrouper.kt:85-97 | the corrected expansion of a child key leads to a node of the tree, and agrees with the code for character keys |
| PrefixGrouper.TerminatorExpandsToNull | src/main/kotlin/org/stt/text/CommonPrefixGrouper.kt:88 | after inserting "ab", expanding "ab" gives the text "null", which is not a continuation in the tree |
| PrefixGrouper.InsertedValid | src/main/kotlin/org/stt/text/CommonPrefixGrouper.kt:45-67 | `insert` keeps the tree prefix-closed with every word a node |
| PrefixGrouper.InsertedPrefixesExpand | src/main/kotlin/org/stt/text/CommonPrefixGrouper.kt:45-67 | after `insert(s)` every prefix of `s` is a node whose child is the next character of `s`, or the terminator at the end |
| PrefixGrouper.InsertTwiceUnchanged | src/main/kotlin/org/stt/text/CommonPrefixGrouper.kt:45-67 | inserting a word is idempotent, and inserting a known word changes nothing |
| PrefixGrouper.GroupHelper.constructor | src/main/kotlin/org/stt/text/CommonPrefixGrouper.kt:135-146 | the helper starts at the root with no groups and all positions at zero |
| PrefixGrouper.GroupHelper.ParseToNextBranch | src/main/kotlin/org/stt/text/CommonPrefixGrouper.kt:182-190 | advances at least one character; `lastGood` ends on the last non-whitespace character passed, only whitespace after it |
| PrefixGrouper.GroupHelper.SetLastGoodToNextWhitespace | src/main/kotlin/org/stt/text/CommonPrefixGrouper.kt:173-180 | `lastGood` moves past `start`, to at least `MINIMUM_GROUP_LENGTH` characters or the end of the text |
| PrefixGrouper.GroupHelper.SkipWhitespace | src/main/kotlin/org/stt/text/CommonPrefixGrouper.kt:164-171 | skips exactly the run of whitespace at `i` |
| PrefixGrouper.GroupHelper.ParseGroup | src/main/kotlin/org/stt/text/CommonPrefixGrouper.kt:150-156 | one round of `parse` adds a match group and moves `start` forward, keeping the groups a tiling of the text so far |
| PrefixGrouper.GroupHelper.Parse | src/main/kotlin/org/stt/text/CommonPrefixGrouper.kt:148-162 | `parse` returns groups whose texts tile the input in order, matches separated only by whitespace, a remainder only last |
| PrefixGrouper.AppendMatch | src/main/kotlin/org/stt/text/CommonPrefixGrouper.kt:153-156 | appending the match `start..lastGood` and skipping whitespace keeps the tiling |
| PrefixGrouper.FinishGroups | src/main/kotlin/org/stt/text/CommonPrefixGrouper.kt:158-161 | adding the remainder group, when text is left, completes the tiling |
| PrefixGrouper.CommonPrefixGrouper.constructor | src/main/kotlin/org/stt/text/CommonPrefixGrouper.kt:20-21 | the grouper starts uninitialized with an empty tree |
| PrefixGrouper.CommonPrefixGrouper.Insert | src/main/kotlin/org/stt/text/CommonPrefixGrouper.kt:45-67 | `insert` walks the existing nodes, adds the rest and the terminator: the tree becomes `Inserted(tree, item)` |
| PrefixGrouper.CommonPrefixGrouper.CheckInitialized | src/main/kotlin/org/stt/text/CommonPrefixGrouper.kt:28-43 | the first call inserts every activity, then every baseline entry; later calls change nothing |
| PrefixGrouper.CommonPrefixGrouper.Follow | src/main/kotlin/org/stt/text/CommonPrefixGrouper.kt:85-96 | the builder loop for one entry produces the key followed by the single-child walk |
| PrefixGrouper.CommonPrefixGrouper.Walk | src/main/kotlin/org/stt/text/CommonPrefixGrouper.kt:73-80 | the walk along the typed text reaches a node exactly when the text is a node of the tree, and that node is the text |
| PrefixGrouper.CommonPrefixGrouper.ExpandEntries | src/main/kotlin/org/stt/text/CommonPrefixGrouper.kt:84-98 | one expansion per distinct child key of the node, each the key followed by the single-child walk |
| PrefixGrouper.CommonPrefixGrouper.GetPossibleExpansions | src/main/kotlin/org/stt/text/CommonPrefixGrouper.kt:70-99 | no expansions for a text that is not in the tree; otherwise one expansion per distinct child key, each the key followed by the walk |
| PrefixGrouper.Groups | src/main/kotlin/org/stt/text/CommonPrefixGrouper.kt:23-26 | `invoke` initializes the grouper and returns a grouping that tiles the text |
| TextEditing.StepKeepsCursorInside | src/tui/textfield.rs:54-135 | every key keeps the cursor on an existing line and within or at the end of it |
| TextEditing.TextSplitsAtCursor | src/tui/textfield.rs:158-160 | the text of the field is the text before the cursor followed by the text after it |
| TextEditing.AtStart | src/tui/textfield.rs:54-135 | nothing lies before the cursor exactly when it is at column 0 of row 0 |
| TextEditing.CharTypesAtCursor | src/tui/textfield.rs:97-104 | typing a character inserts it just before the cursor and leaves the rest of the text after it |
| TextEditing.EnterBreaksAtCursor | src/tui/textfield.rs:82-96 | Enter inserts a line break at the cursor and adds one line (two lines from an empty field) |
| TextEditing.BackspaceDeletesBeforeCursor | src/tui/textfield.rs:56-70 | away from the start, Backspace deletes exactly the character (or line break) before the cursor |
| TextEditing.DeleteRemovesAtCursor | src/tui/textfield.rs:71-81 | Delete removes exactly the character (or line break) after the cursor, and nothing at the end |
| TextEditing.MovingKeepsText | src/tui/textfield.rs:105-134 | the movement keys and unknown keys leave the text unchanged |
| TextEditing.BackspaceAtStartAsWritten | src/tui/textfield.rs:60-69 | Backspace at row 0, column 0 moves the first line behind the second, or deletes a sole line |
| TextEditing.BackspaceCorrected | src/tui/textfield.rs:56-70 | with the start guarded, Backspace at the start changes nothing and elsewhere deletes the character before the cursor |
| TextEditing.SetTextOfGetText | src/tui/textfield.rs:158-164 | `set_text(get_text())` gives back the lines without line breaks, dropping only a trailing empty line |
| TextEditing.FirstLineIsTextUpToBreak | src/tui/textfield.rs:154-160 | `first_line` is the text up to its first line break |
| TextEditing.SetTextCanStrandCursor | src/tui/textfield.rs:162-164 | `set_text` keeps the cursor, which can leave it below the last line |
| TextEditing.TextFieldState.constructor | src/tui/textfield.rs:139-146 | a new field has no lines, cursor and scroll at the origin |
| TextEditing.TextFieldState.HandleEvent | src/tui/textfield.rs:54-135 | `handle_event` applies the key's step to lines and cursor, keeping the cursor inside and the scroll |
| TextEditing.TextFieldState.RemoveBefore | src/tui/textfield.rs:56-70 | the Backspace branch updates the state as `Step` says |
| TextEditing.TextFieldState.RemoveAt | src/tui/textfield.rs:71-81 | the Delete branch updates the state as `Step` says |
| TextEditing.TextFieldState.BreakLine | src/tui/textfield.rs:82-96 | the Enter branch updates the state as `Step` says |
| TextEditing.TextFieldState.TypeChar | src/tui/textfield.rs:97-104 | the character branch updates the state as `Step` says |
| TextEditing.TextFieldState.Move | src/tui/textfield.rs:105-134 | the movement branches update the cursor as `Step` says |
| TextEditing.TextFieldState.Clear | src/tui/textfield.rs:148-152 | `clear` empties the lines and resets cursor and scroll |
| TextEditing.TextFieldState.SetText | src/tui/textfield.rs:162-164 | `set_text` replaces the lines by the text's lines, leaving cursor and scroll |
| TextEditing.TextFieldState.End | src/tui/textfield.rs:166-172 | `end` puts the cursor after the last character of the last line, with no text after it |

## Left out

- File I/O: `Database::open` and `flush`, the item persister, reader and writer files, backups and configuration. The streaming insert reads from and writes to sequences, and the command handlers return the persister call as an `Effect` value.
- Event publishing, executors and the `@Synchronized` cache locking. The cache is a plain sequence that `SourceChanged` clears.
- The clock: `now` is a parameter. `createReport` reads the clock once per open item, and the model uses one value of `now` for the whole report.
- The item categorizer and the working-time provider are parameters (`isBreak`, `isWork`, `workingTime`, `absences`).
- `findAny` in `removeActivityAndCloseGap` and `addNewActivity` is modelled as the first match in list order.
- chrono and java.time: the lenient parsing of out-of-range fields and zones (see also `Tti.ParseSttDateTime` below). Timestamps are the fixed 19-character `yyyy-MM-dd_HH:mm:ss` text over a proleptic Gregorian calendar, and the round-trip lemmas are stated for the years 0 to 9999, which print as four digits.
- Sub-second durations: instants carry nanoseconds only up to the constructors, which truncate them, so every duration is whole seconds.
- `prettyPrintTime` and `isToday` depend on the clock and the zone and are not part of this model.
- `FORMATTER_PERIOD_H_M_S` is not part of this model: no core operation uses it. The period formatter that `prettyPrintDuration` uses, `FORMATTER_PERIOD_HHh_MMm_SSs`, is modelled.
- `bulkChangeActivity` in `Activities.kt` hands the whole change to the persister's `updateActivitities`, whose behaviour is not part of this model.
- The terminal UI: `render`, the scroll logic and the cursor's screen position. `scroll` is a field that the editing operations keep unchanged.
- Grapheme segmentation and byte lengths in `textfield.rs`: lines are sequences of characters, which agrees with the source for ASCII text.
- `HashMap` iteration order: `getPossibleExpansions` returns the expansions in the order of an arbitrary sequence of distinct child keys, and `anyChild` of a node with one child is that child.
- Trie nodes are identified by their paths from the root, so a tree is the set of its paths plus the set of inserted words. Object identity and the lazy creation of child maps are not modelled.
- `Group` and `IntRange` are the datatype `Group(kind, content, start, end)`; the UI classes that consume the groups are not part of this model.
- TextEditing.TextFieldState.HandleEvent: requires the cursor to be inside the lines, which the source keeps except after `set_text` shortens the text (see `TextEditing.SetTextCanStrandCursor`); with the cursor outside, the source may index out of range and panic.
- TextEditing.TextFieldState.RemoveBefore: requires the cursor to be inside the lines, for the same reason as `HandleEvent`.
- TextEditing.TextFieldState.RemoveAt: requires the cursor to be inside the lines, for the same reason as `HandleEvent`.
- TextEditing.TextFieldState.BreakLine: requires the cursor to be inside the lines, for the same reason as `HandleEvent`.
- TextEditing.TextFieldState.TypeChar: requires the cursor to be inside the lines, for the same reason as `HandleEvent`.
- TextEditing.TextFieldState.Move: requires the cursor to be inside the lines, for the same reason as `HandleEvent`.
- The Rust `usize` underflow of `i - 1` in `delete_item` is modelled as the outcome `Panicked`; other integer widths do not matter at the sizes involved, and integers are unbounded.
- OvertimeReport.OvertimeIsClampRemainder: stated for working times with `min <= max`. `OvertimeFor` itself follows the source's branches for all bounds.
- LineCodec.LineRoundTrip: stated for years 0 to 9999 and for open items whose escaped activity does not begin with a timestamp; `LineCodec.OpenItemWithTimestampActivity` states what happens to the others.
- LineCodec.LineRoundTripExact: stated under the same conditions as `LineRoundTrip`.
- Tti.FromStr: slices the line by character, where `from_str` slices it by UTF-8 byte (`s.get(0..19)`, `s.get(20..39)`, `s.get(40..)`, `s.get(20..)`) and gets `None` when an offset falls inside a multi-byte character. The two agree unless a multi-byte character straddles byte 19, 20, 39 or 40; then the source can give `BadFormat` or `ActivityMissing` where the model reads an item.
- Tti.FromStrLayout: the offsets 19, 20, 39 and 40 are character offsets, so the layout it states differs from the source's under the same condition as `Tti.FromStr`.
- Tti.ParseSttDateTime: accepts only the fixed-width digit form `yyyy-mm-dd_HH:MM:SS`. chrono's `parse` also accepts leading spaces in number fields, one-digit month, day and hour fields, a signed year and second 60, so a line such as `2017- 7- 1_21:06:03 x` is an open item in the source and `BadFormat` in the model.
- LineCodec.ParsedLine, LineCodec.LineToTimeTrackingItem, SummingReport.StringLess, SummingReport.SortByComment, PrefixGrouper.Child, PrefixGrouper.GroupHelper.SetLastGoodToNextWhitespace and PrefixGrouper.CommonPrefixGrouper.GetPossibleExpansions: strings are sequences of Unicode code points, where Kotlin strings are sequences of UTF-16 units. `substring` offsets, `String.compareTo`, the trie's `Char` keys and `MINIMUM_GROUP_LENGTH` count units in the source. The model agrees with the source for text in the Basic Multilingual Plane. With characters beyond it the source can split a surrogate pair: it can read a lone surrogate as an activity, order such a character before U+FF5E, or give one expansion for two activities that share a high surrogate.

## Findings

| source | as written | input that shows it | evidently intended | confidence | as-written member | corrected member |
|---|---|---|---|---|---|---|
| src/database.rs:106-125 | `insert_item` clips the start of the item after the new one before it drops the items the new one covers, so the item behind a dropped one keeps its start | [0,4] [5,6] [6,20], insert [3,10]: gives [0,3] [3,10] [6,20], whose last two overlap | drop the covered items first, then move the start of the next item to the new end: [0,3] [3,10] [10,20] | not executed | Database.InsertAsWrittenOverlaps | Database.InsertCorrectedKeepsTimeline |
| src/database.rs:130-134 | `delete_item` reads `self[i - 1]` before it checks `i > 0`, so `i - 1` underflows | deleting the first item of any non-empty timeline | check `i > 0` first; deleting the first item removes it and merges nothing | not executed | Database.DeleteAsWrittenPanicsAtFirst | Database.DeleteRemovesFirstEqual |
| src/tti.rs:129-131 | `unescape` replaces `\n` before `\\` | the activity `\n` (a backslash, then `n`) is stored as `\\n` and read back as a backslash and a newline | one left-to-right pass that reads `\\` as a backslash and `\n` as a newline, so that every activity round-trips | not executed | Tti.BackslashNIsNotRestored | Tti.EscapeRoundTripFixed |
| src/main/kotlin/org/stt/query/TimeTrackingItemQueries.kt:52,60-66 | `getAdjacentItems` takes the index `-1` of an item that is not stored and looks at index 0 as its successor | stored [10,20], item [0,10] that is not stored: the stored item is returned as `next` | an item that is not stored has no neighbours | not executed | ItemQueries.AdjacentOfAbsentItem | ItemQueries.AdjacentMeansContiguous |
| src/main/kotlin/org/stt/text/CommonPrefixGrouper.kt:88 | the builder appends the entry key even when it is the terminator `null`, and Kotlin's `append` writes it as the text "null" | after inserting "ab", the expansions of "ab" include "null" | the terminator adds nothing, so every expansion continues the text to a node of the tree | not executed | PrefixGrouper.TerminatorExpandsToNull | PrefixGrouper.ExpansionStaysInTree |
| src/tui/textfield.rs:60-69 | Backspace at column 0 removes the current line and appends it to the line now at the cursor's row; at row 0 that is the former second line, and a sole line is dropped | lines ["ab", "cd"] with the cursor at (0, 0) give ["cdab"]; a sole line "ab" is deleted | Backspace at the start of the text changes nothing | not executed | TextEditing.BackspaceAtStartAsWritten | TextEditing.BackspaceCorrected |
