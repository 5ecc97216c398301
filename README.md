# nudgytimer core, modelled in Dafny

This project models the library core of nudgytimer, an Android activity tracker, and proves properties of that model. The user records events: an interval of time with a non-empty description. The tracker keeps them in a SQLite table. It answers four kinds of question: which events fall in an interval, how long each activity took in it, which activity dominated it, and what happened last.

Modules, one per source file (the Joda-Time parts it relies on come first):

- `Joda` gives Joda-Time's `Interval` as a subset type: start never after end, half-open containment, `overlap`, duration. It also gives Java's truncating `long` division. Instants are unbounded integers. The `Long.MIN_VALUE`/`Long.MAX_VALUE` constants appear where the source names them.
- `Events` (Event.java): the event value, its validating constructor, getters, duration and `equals`.
- `Aggregates` (AggregateEvent.java):
  - The TreeMap from `Key` (start, duration) to interval is its sequence of values in ascending key order.
  - `Builder` is a class whose `events` list `Accumulate` extends; `Build` runs the `put` loop.
  - `ToDuration` is the summing loop.
  - Also modelled: `LatestStart`, `Compare` (`compareTo`) and `Equals`.
- `StoreContract` (StoreContract.java):
  - The events table is the `Database` class, whose `rows` field `Insert` extends. The UNIQUE constraints on both bound columns decide whether a row is written.
  - The SELECT of `queryEvents` is the WHERE predicate `Matches`, a sort by descending start, and a LIMIT prefix.
  - `ParseEvent` (cutting a row to the query interval, with its error cases), the `ParseEvents` loop and `PutEvent` inside its transaction.
- `Tracker` (SqliteTracker.java):
  - The `SqliteTracker` class over a `Database`.
  - The two loops of `aggregateEventsInInterval`: `GroupByDescription` fills the HashMap of builders; `CollectAggregates` fills the TreeSet, a sequence ascending by `compareTo` into which `TreeSetAdd` inserts.
  - The `max` loop of `topEventInInterval`, and `mostRecentEvent`.
  - What these return is specified relationally: `IsAggregation` and `IsTop` say what any HashMap iteration order yields.
- `TimeUtils` (TimeUtils.java):
  - `intervalForever`.
  - The unit and singular/plural choice of `formatDurationMinutes` and `formatDuration`.
  - `Long.toString` and `String.replaceAll` of the `_DURATION_` placeholder. `context.getString` becomes a function parameter from resource id to template.
- `IntentUtils` (IntentUtils.java): an `Intent` class whose long extras are a map, with `putExtra` and `getIntervalExtra`.
- `TrackerTests` (SqliteTrackerTest.java): scenarios that call the tracker's methods on an empty store. One is the test of aggregates cut to [17, 36]. The other stores rows that `addEvent` accepts and that make two aggregates tie.

Java exceptions become `Result` failures with one constructor per cause:
- `BadEvent(EmptyDescription)`, `BadEvent(BackwardsInterval)` and `BadEvent(WouldOverlap(other))` for BadEventException.
- `CorruptStore(...)` for CorruptStoreError.
- `MissingStartMillis`, `MissingEndMillis` and `BackwardsInterval` for BadIntentException.

A `BuildConfig.DEBUG` assertion that callers can trip is an explicit `debug` parameter with its own failure outcome. This covers `accumulate`, `putExtra` and the formatters. Two assertions have other treatments:
- The duplicate-key assertion of `build` is reported as the flag `duplicateKey`.
- The assertion in `parseEvent` is the `FetchedOutsideQuery` failure. It is raised for a matched row that shares no instant with the query.

Java's `null` is `None`.

Where the documentation and the code disagree, the model follows the code:
- `aggregateEventsInInterval` is documented as sorted by start. The code's TreeSet orders by `compareTo`: total duration, then latest start, ascending.
- A stored row that strictly encloses the new interval matches neither arm of the overlap check, so `putEvent` accepts it. There is therefore no global no-overlap invariant. `PutGuarantee` states what the check does guarantee.

## Model

Source paths are relative to the repository root.

| member | source | states |
|---|---|---|
| Joda.NewInterval | lib/src/main/java/com/github/jmmv/nudgytimer/lib/SqliteTracker.java:60 | `new Interval(start, end)` succeeds exactly when start <= end, and keeps both bounds |
| Joda.Overlap | lib/src/main/java/com/github/jmmv/nudgytimer/lib/StoreContract.java:136 | `overlap` is null exactly when the intervals share no instant (a.start < b.end and b.start < a.end fails); otherwise it is [max of starts, min of ends] |
| Joda.OverlapWithin | lib/src/main/java/com/github/jmmv/nudgytimer/lib/StoreContract.java:136 | an instant is in the overlap exactly when it is in both intervals |
| Joda.JavaDiv | lib/src/main/java/com/github/jmmv/nudgytimer/lib/TimeUtils.java:101 | long division truncates toward zero: the remainder takes the sign of the dividend and is smaller than the divisor |
| Events.NewEvent | lib/src/main/java/com/github/jmmv/nudgytimer/lib/Event.java:43-51 | the constructor fails with BadEventException exactly for an empty description, and otherwise stores the interval and the description unchanged |
| Events.Start | lib/src/main/java/com/github/jmmv/nudgytimer/lib/Event.java:63-65 | an event never starts after it ends |
| Events.ToDuration | lib/src/main/java/com/github/jmmv/nudgytimer/lib/Event.java:86-88 | the duration is non-negative and carries the start to the end |
| Events.End | lib/src/main/java/com/github/jmmv/nudgytimer/lib/Event.java:70-72 | definition of `getEnd` as the end of the event's interval; `Start` and `ToDuration` state how it relates to the start |
| Events.EqualsIsIdentity | lib/src/main/java/com/github/jmmv/nudgytimer/lib/Event.java:94-104 | `equals` holds exactly for identical events, i.e. same start, same end and same description |
| Events.Equals | lib/src/main/java/com/github/jmmv/nudgytimer/lib/Event.java:94-104 | definition of `equals`: same interval and same description; `EqualsIsIdentity` proves it is identity |
| Events.ConstructThenGet | lib/src/main/java/com/github/jmmv/nudgytimer/lib/Event.java:49-88 | after a successful construction the getters return the given interval bounds and description, and the duration is end minus start |
| Events.GettersExample | lib/src/androidTest/java/com/github/jmmv/nudgytimer/lib/EventTest.java:23-30 | [50, 60) "Foo" starts at 50, ends at 60 and lasts 10 |
| Aggregates.KeyOf | lib/src/main/java/com/github/jmmv/nudgytimer/lib/AggregateEvent.java:65-68 | a key holds the interval's start and a duration that carries the start to the end |
| Aggregates.Put | lib/src/main/java/com/github/jmmv/nudgytimer/lib/AggregateEvent.java:182 | definition of `TreeMap.put` on the values in key order; its properties are proved in `PutKeepsOrder` and `PutDuration` |
| Aggregates.KeyOfInjective | lib/src/main/java/com/github/jmmv/nudgytimer/lib/AggregateEvent.java:65-68 | two intervals have the same key exactly when they are equal |
| Aggregates.KeyCompare | lib/src/main/java/com/github/jmmv/nudgytimer/lib/AggregateEvent.java:74-82 | `Key.compareTo` is -1, 0 or 1 by start, then by duration, and 0 exactly on equal keys |
| Aggregates.KeyLessIsStrictOrder | lib/src/main/java/com/github/jmmv/nudgytimer/lib/AggregateEvent.java:74-82 | the key order is irreflexive, asymmetric, total on distinct intervals and transitive |
| Aggregates.PutKeepsOrder | lib/src/main/java/com/github/jmmv/nudgytimer/lib/AggregateEvent.java:179-182 | `put` keeps the map in key order and adds exactly the new interval; `containsKey` holds exactly when the interval is present, and then `put` changes nothing, otherwise the map grows by one |
| Aggregates.SortedUnique | lib/src/main/java/com/github/jmmv/nudgytimer/lib/AggregateEvent.java:115 | two key-ordered maps with the same values are equal |
| Aggregates.SortedOf | lib/src/main/java/com/github/jmmv/nudgytimer/lib/AggregateEvent.java:176-183 | every finite set of intervals is the value set of some key-ordered map |
| Aggregates.PutDuration | lib/src/main/java/com/github/jmmv/nudgytimer/lib/AggregateEvent.java:182 | putting a new interval adds its duration to the total; putting a present one adds nothing |
| Aggregates.Builder.constructor | lib/src/main/java/com/github/jmmv/nudgytimer/lib/AggregateEvent.java:145-147 | a new builder holds exactly its first event |
| Aggregates.Builder.Accumulate | lib/src/main/java/com/github/jmmv/nudgytimer/lib/AggregateEvent.java:158-165 | the event is appended; a debug build refuses, and leaves the list unchanged, exactly when the description differs from the first event's |
| Aggregates.Builder.Build | lib/src/main/java/com/github/jmmv/nudgytimer/lib/AggregateEvent.java:173-186 | the aggregate has the first event's description and exactly the accumulated intervals in key order; `duplicateKey` (the debug assertion) is set exactly when two accumulated events share an interval; without one, the total is the sum of the event durations; the builder is not changed |
| Aggregates.GetIntervals | lib/src/main/java/com/github/jmmv/nudgytimer/lib/AggregateEvent.java:203-205 | intervals come by ascending start, equal starts by ascending duration |
| Aggregates.ToDuration | lib/src/main/java/com/github/jmmv/nudgytimer/lib/AggregateEvent.java:211-217 | the loop's result is the total duration of the map's values |
| Aggregates.LatestStart | lib/src/main/java/com/github/jmmv/nudgytimer/lib/AggregateEvent.java:222-224 | the start of the last key is the greatest start of all intervals, and is one of them |
| Aggregates.Compare | lib/src/main/java/com/github/jmmv/nudgytimer/lib/AggregateEvent.java:239-257 | -1 exactly when shorter, or equally long with an earlier latest start; 1 exactly in the mirror case; 0 exactly when duration and latest start are equal |
| Aggregates.Equals | lib/src/main/java/com/github/jmmv/nudgytimer/lib/AggregateEvent.java:270-280 | definition of `equals`: same description and equal interval maps; `EqualsIffSameIntervals` proves it is identity, and equality of interval sets |
| Aggregates.CompareIsTotalPreorder | lib/src/main/java/com/github/jmmv/nudgytimer/lib/AggregateEvent.java:239-257 | `compareTo` is antisymmetric, reflexive at 0 and transitive, and 0-tied aggregates compare alike to any third one |
| Aggregates.EqualsIffSameIntervals | lib/src/main/java/com/github/jmmv/nudgytimer/lib/AggregateEvent.java:270-280 | `equals` holds exactly for equal descriptions and interval sets, whatever the accumulation order, i.e. for identical aggregates |
| Aggregates.EqualsImpliesCompareZero | lib/src/main/java/com/github/jmmv/nudgytimer/lib/AggregateEvent.java:247 | equal aggregates compare 0 |
| Aggregates.CompareZeroWithoutEquals | lib/src/main/java/com/github/jmmv/nudgytimer/lib/AggregateEvent.java:247-250 | two different aggregates of equal duration and latest start compare 0, so compareTo's debug consistency assertion can fire |
| Aggregates.BuilderReuse | lib/src/androidTest/java/com/github/jmmv/nudgytimer/lib/AggregateEventTest.java:27-54 | building does not consume the builder: building again after more accumulates includes all the events |
| Aggregates.GetIntervalsSortedExample | lib/src/androidTest/java/com/github/jmmv/nudgytimer/lib/AggregateEventTest.java:56-77 | intervals accumulated in any order come back as [10,20], [10,30], [30,40], [50,51] |
| Aggregates.DurationAndLatestStartExample | lib/src/androidTest/java/com/github/jmmv/nudgytimer/lib/AggregateEventTest.java:79-99 | 20+10+20 gives a total of 50; starts {10, 80, 70} give a latest start of 80 |
| StoreContract.NextRowId | lib/src/main/java/com/github/jmmv/nudgytimer/lib/StoreContract.java:56 | the rowid of a new row is positive and above every present id, and is either 1 or one past a present id: the largest id plus one, or 1 |
| StoreContract.Matches | lib/src/main/java/com/github/jmmv/nudgytimer/lib/StoreContract.java:209-213 | definition of the WHERE clause of `queryEvents`: the start, or else the end, lies in [q.start, q.end) |
| StoreContract.ParseAll | lib/src/main/java/com/github/jmmv/nudgytimer/lib/StoreContract.java:159-187 | definition of `parseEvents` over a cursor: the first failing row decides the error, otherwise the set of parsed events; the `ParseEvents` loop is proved to compute it |
| StoreContract.QueryResult | lib/src/main/java/com/github/jmmv/nudgytimer/lib/StoreContract.java:203-219 | definition of `queryEvents`: `ParseAll` over the rows the WHERE clause selects, sorted by descending start and cut to the limit |
| StoreContract.PutOutcome | lib/src/main/java/com/github/jmmv/nudgytimer/lib/StoreContract.java:73-109 | definition of what `putEvent` does to a table: the overlap query, then the insert, and the table unchanged on any failure; `PutEvent`, `MatchBlocksPut`, `FreeSlotInserts` and `PutGuarantee` state its properties |
| StoreContract.Database.constructor | lib/src/main/java/com/github/jmmv/nudgytimer/lib/StoreContract.java:54-59 | a new events table is empty and keeps its constraints |
| StoreContract.Database.Insert | lib/src/main/java/com/github/jmmv/nudgytimer/lib/StoreContract.java:96-98 | `insert` returns -1 and writes nothing exactly when the start or the end is already stored; otherwise it appends one row under the next rowid; the UNIQUE constraints keep holding |
| StoreContract.Filter | lib/src/main/java/com/github/jmmv/nudgytimer/lib/StoreContract.java:210-213 | the WHERE clause keeps exactly the rows whose start, or else whose end, lies in [q.start, q.end) |
| StoreContract.SortByStartDescSpec | lib/src/main/java/com/github/jmmv/nudgytimer/lib/StoreContract.java:214 | ORDER BY start_millis DESC orders by descending start and only rearranges the rows |
| StoreContract.Take | lib/src/main/java/com/github/jmmv/nudgytimer/lib/StoreContract.java:215 | LIMIT keeps a prefix: everything for a null limit, else the limit or all rows if fewer |
| StoreContract.CursorSpec | lib/src/main/java/com/github/jmmv/nudgytimer/lib/StoreContract.java:208-216 | the cursor holds only matching rows, by descending start; without a limit it holds every one of them; with a limit, the limit's number or all |
| StoreContract.ParseEvent | lib/src/main/java/com/github/jmmv/nudgytimer/lib/StoreContract.java:123-147 | a backwards row fails with "Bad event in database"; a row sharing no instant with the query fails with FetchedOutsideQuery; an empty description fails with "Bogus event"; otherwise the event is the row cut to [max starts, min ends] with its description; success exactly when none of these failures applies |
| StoreContract.MatchedRowOutsideIffAbutting | lib/src/main/java/com/github/jmmv/nudgytimer/lib/StoreContract.java:136-140 | a matched well-formed row hits the parseEvent assertion exactly when it ends where the query starts |
| StoreContract.ParseAllSpec | lib/src/main/java/com/github/jmmv/nudgytimer/lib/StoreContract.java:159-187 | `parseEvents` succeeds exactly when every row parses, with exactly the parsed events; otherwise the error is that of the first failing row |
| StoreContract.ParseAllPrefixFailure | lib/src/main/java/com/github/jmmv/nudgytimer/lib/StoreContract.java:177-178 | an error in a prefix of the cursor is the error of the whole cursor |
| StoreContract.ParseEvents | lib/src/main/java/com/github/jmmv/nudgytimer/lib/StoreContract.java:159-187 | the do-while loop over the cursor computes ParseAll: the first error, or the HashSet of parsed events |
| StoreContract.QueryEvents | lib/src/main/java/com/github/jmmv/nudgytimer/lib/StoreContract.java:203-219 | `queryEvents` parses the cursor of the SELECT statement on the current table |
| StoreContract.QueryReturnsMatchingRows | lib/src/main/java/com/github/jmmv/nudgytimer/lib/StoreContract.java:209-217 | without a limit the query succeeds exactly when every matching row parses, and then returns exactly the matching rows cut to the interval; a row that encloses the whole query never matches |
| StoreContract.LimitKeepsGreatestStarts | lib/src/main/java/com/github/jmmv/nudgytimer/lib/StoreContract.java:214-215 | with a limit n the cursor holds min(n, matches) rows, and no matching row left out starts after one kept |
| StoreContract.CorruptRowFailsQuery | lib/src/main/java/com/github/jmmv/nudgytimer/lib/StoreContract.java:129-146 | a backwards, empty-description or abutting row reached by the cursor makes the whole query fail |
| StoreContract.ParsedRowsDistinct | lib/src/main/java/com/github/jmmv/nudgytimer/lib/StoreContract.java:179-182 | distinct rows of a table that keeps its UNIQUE constraints parse to distinct events, so the duplicate assertion of parseEvents cannot fire |
| StoreContract.LimitOneYieldsAtMostOne | lib/src/main/java/com/github/jmmv/nudgytimer/lib/StoreContract.java:214-215 | a limit-1 query is empty exactly when no row matches, and otherwise returns the single cut event of a matching row with the greatest start |
| StoreContract.PutEvent | lib/src/main/java/com/github/jmmv/nudgytimer/lib/StoreContract.java:73-109 | `putEvent` yields the outcome and table of PutOutcome: a failed query is propagated; a non-empty `queryEvents(event, 1)` is "would overlap"; a refused insert is CorruptStoreError; any failure leaves the table as it was; success appends one row |
| StoreContract.MatchBlocksPut | lib/src/main/java/com/github/jmmv/nudgytimer/lib/StoreContract.java:86-94 | any stored row that matches the new interval makes `putEvent` fail and leaves the table unchanged |
| StoreContract.FreeSlotInserts | lib/src/main/java/com/github/jmmv/nudgytimer/lib/StoreContract.java:96-105 | with no matching row and no UNIQUE clash, `putEvent` succeeds and appends exactly one row with the event's start, end and description |
| StoreContract.PutGuarantee | lib/src/main/java/com/github/jmmv/nudgytimer/lib/StoreContract.java:84-105 | after a successful put of [s, e] no stored row shares its start or its end, and every well-formed row ends before s, starts at or after e, or strictly encloses [s, e] |
| StoreContract.EnclosedInsertAccepted | lib/src/main/java/com/github/jmmv/nudgytimer/lib/StoreContract.java:209-213 | with [0, 100] stored, putting the enclosed [10, 20] succeeds and writes row 2 |
| StoreContract.AbuttingInserts | lib/src/main/java/com/github/jmmv/nudgytimer/lib/StoreContract.java:136-140 | with [0, 10] stored, putting [10, 20] fails with FetchedOutsideQuery, while putting [-5, 0] succeeds |
| StoreContract.UniqueClashIsCorruption | lib/src/main/java/com/github/jmmv/nudgytimer/lib/StoreContract.java:98-102 | with [5, 8] stored, the empty [5, 5] matches nothing, the insert is refused by UNIQUE(start_millis), and the result is CorruptStoreError with the table unchanged |
| Tracker.AggregateFor | lib/src/main/java/com/github/jmmv/nudgytimer/lib/SqliteTracker.java:92-106 | each description of the events has an aggregate with that description and exactly its events' intervals |
| Tracker.AggregateForUnique | lib/src/main/java/com/github/jmmv/nudgytimer/lib/SqliteTracker.java:92-106 | an aggregate holding exactly a description's intervals is that description's aggregate |
| Tracker.TreeSetAdd | lib/src/main/java/com/github/jmmv/nudgytimer/lib/SqliteTracker.java:105 | definition of `TreeSet.add` on a sequence ascending by compareTo; its properties are proved in `TreeSetAddSpec` |
| Tracker.TreeSetAddSpec | lib/src/main/java/com/github/jmmv/nudgytimer/lib/SqliteTracker.java:105 | `TreeSet.add` keeps the set ascending by compareTo and keeps every element; it adds the new one exactly when nothing present compares 0 to it |
| Tracker.NoTiesKeepsAll | lib/src/main/java/com/github/jmmv/nudgytimer/lib/SqliteTracker.java:103-107 | when no two descriptions' aggregates compare 0, each description's aggregate is in the result |
| Tracker.AggregationEmptyIff | lib/src/main/java/com/github/jmmv/nudgytimer/lib/SqliteTracker.java:117 | the aggregates are empty exactly when there are no events |
| Tracker.GroupByDescription | lib/src/main/java/com/github/jmmv/nudgytimer/lib/SqliteTracker.java:92-101 | after the first loop there is one fresh builder per description, holding each event of that description once |
| Tracker.GroupedKeys | lib/src/main/java/com/github/jmmv/nudgytimer/lib/SqliteTracker.java:92-101 | the HashMap's keys are exactly the events' descriptions |
| Tracker.GroupedHasNoDuplicate | lib/src/main/java/com/github/jmmv/nudgytimer/lib/SqliteTracker.java:104-106 | a builder fed distinct events of one description never meets build's duplicate-key assertion |
| Tracker.BuiltIsAggregateFor | lib/src/main/java/com/github/jmmv/nudgytimer/lib/SqliteTracker.java:104-106 | what a grouped builder builds is its description's aggregate |
| Tracker.CollectAggregates | lib/src/main/java/com/github/jmmv/nudgytimer/lib/SqliteTracker.java:103-107 | the second loop leaves the TreeSet ascending by compareTo, holding only aggregates of the events' descriptions, with every description's aggregate present or tied with one present |
| Tracker.TopWinsDraws | lib/src/main/java/com/github/jmmv/nudgytimer/lib/SqliteTracker.java:120-129 | no description's aggregate is longer than the top one, and on equal durations none started later |
| Tracker.MaximalIsTop | lib/src/main/java/com/github/jmmv/nudgytimer/lib/SqliteTracker.java:120-129 | an element of the TreeSet that none compares above is above every description's aggregate |
| Tracker.SqliteTracker.constructor | lib/src/main/java/com/github/jmmv/nudgytimer/lib/SqliteTracker.java:47-49 | the tracker works on the database it is given |
| Tracker.SqliteTracker.AddEvent | lib/src/main/java/com/github/jmmv/nudgytimer/lib/SqliteTracker.java:55-66 | a backwards interval or an empty description throws BadEventException and leaves the table unchanged; otherwise the outcome and the table are those of putEvent |
| Tracker.SqliteTracker.EventsInInterval | lib/src/main/java/com/github/jmmv/nudgytimer/lib/SqliteTracker.java:72-74 | `eventsInInterval` is `queryEvents` without a limit |
| Tracker.SqliteTracker.AggregateEventsInInterval | lib/src/main/java/com/github/jmmv/nudgytimer/lib/SqliteTracker.java:80-108 | a failed query is propagated; otherwise the result is an aggregation of the queried events |
| Tracker.SqliteTracker.TopEventInInterval | lib/src/main/java/com/github/jmmv/nudgytimer/lib/SqliteTracker.java:114-130 | a failed query is propagated; the result is null exactly when there are no events; otherwise it is a description's aggregate that no aggregate compares above |
| Tracker.SqliteTracker.MostRecentEvent | lib/src/main/java/com/github/jmmv/nudgytimer/lib/SqliteTracker.java:136-150 | a failed query is propagated; a successful one gives a successful result: null exactly when the limit-1 query over the forever interval is empty, i.e. when no row matches it, as on an empty store; otherwise the single event that query returns, the cut event of a matching row with the greatest start |
| Tracker.ForeverMatches | lib/src/main/java/com/github/jmmv/nudgytimer/lib/SqliteTracker.java:143-144 | a row of long bounds escapes the forever query only if both bounds are Long.MAX_VALUE |
| Tracker.LatestEventWinsIfDraw | lib/src/androidTest/java/com/github/jmmv/nudgytimer/lib/SqliteTrackerTest.java:255-265 | A [0,1], B [2,3], A [4,5], B [6,7]: the top aggregate is B's, which started last |
| Tracker.AggregationOfTwo | lib/src/main/java/com/github/jmmv/nudgytimer/lib/SqliteTracker.java:103-107 | events of two descriptions whose aggregates are ranked apart give exactly those two, the lower first |
| Tracker.CutQueryAggregates | lib/src/androidTest/java/com/github/jmmv/nudgytimer/lib/SqliteTrackerTest.java:187-204 | the three events that the query [17, 36] yields over the test's table (proved in `TrackerTests.CutQuery`) have two descriptions, with intervals [17,19], [30,36] and [20,29] |
| Tracker.AggregatesOrderedByDuration | lib/src/androidTest/java/com/github/jmmv/nudgytimer/lib/SqliteTrackerTest.java:187-204 | those three events give two aggregates: the 8 ms partial one first, then the 9 ms inside one; `TrackerTests.CutRowsAggregates` states the same of the rows themselves |
| TrackerTests.SortThree | lib/src/main/java/com/github/jmmv/nudgytimer/lib/StoreContract.java:214 | ORDER BY start_millis DESC puts three rows of ascending starts last first |
| TrackerTests.ParseThree | lib/src/main/java/com/github/jmmv/nudgytimer/lib/StoreContract.java:169-186 | a cursor of three rows that all parse gives the set of their three events |
| TrackerTests.FilterCons | lib/src/main/java/com/github/jmmv/nudgytimer/lib/StoreContract.java:209-213 | the WHERE clause keeps or drops each row on its own, in table order |
| TrackerTests.QueryOfThree | lib/src/main/java/com/github/jmmv/nudgytimer/lib/StoreContract.java:203-219 | a table whose WHERE clause selects three rows of ascending starts that all parse queries to exactly their three events |
| TrackerTests.CutFilter | lib/src/androidTest/java/com/github/jmmv/nudgytimer/lib/SqliteTrackerTest.java:189-198 | over the test's five rows, the WHERE clause of [17, 36] keeps exactly the second, third and fourth |
| TrackerTests.CutQuery | lib/src/androidTest/java/com/github/jmmv/nudgytimer/lib/SqliteTrackerTest.java:189-198 | the query [17, 36] over the test's five rows gives [17,19] and [30,36] "Partially inside" and [20,29] "Inside" |
| TrackerTests.NumberedNextRowId | lib/src/main/java/com/github/jmmv/nudgytimer/lib/StoreContract.java:56 | in a table numbered 1 to n the next rowid is n + 1 |
| TrackerTests.PutAppends | lib/src/main/java/com/github/jmmv/nudgytimer/lib/StoreContract.java:84-105 | putting an event that no row matches or clashes with into a numbered table succeeds and appends its row under the next number |
| TrackerTests.PutAfterAll | lib/src/main/java/com/github/jmmv/nudgytimer/lib/StoreContract.java:84-105 | putting an event that starts after every row of a numbered table ends succeeds and appends its row under the next number |
| TrackerTests.CutPutsHead | lib/src/androidTest/java/com/github/jmmv/nudgytimer/lib/SqliteTrackerTest.java:189-192 | the test's first three addEvent calls each succeed and append their row |
| TrackerTests.CutPutsTail | lib/src/androidTest/java/com/github/jmmv/nudgytimer/lib/SqliteTrackerTest.java:193-195 | the last two succeed too, and the table is then the five rows |
| TrackerTests.CutRowsAggregates | lib/src/androidTest/java/com/github/jmmv/nudgytimer/lib/SqliteTrackerTest.java:187-204 | the aggregates of [17, 36] over the test's table are the 8 ms "Partially inside" one, then the 9 ms "Inside" one |
| TrackerTests.SomeEventsInIntervalAndCut | lib/src/androidTest/java/com/github/jmmv/nudgytimer/lib/SqliteTrackerTest.java:187-204 | the test end to end: five addEvent calls on an empty store succeed, and aggregateEventsInInterval([17, 36]) returns "Partially inside" (8 ms) first and "Inside" (9 ms) last |
| TrackerTests.TiePuts | lib/src/main/java/com/github/jmmv/nudgytimer/lib/StoreContract.java:84-105 | A [0,13], B [5,12], B [7,11] are each accepted, as each row strictly encloses the next |
| TrackerTests.TieQuery | lib/src/main/java/com/github/jmmv/nudgytimer/lib/StoreContract.java:203-219 | the query [10, 100) over those rows gives A [10,13], B [10,12] and B [10,11] |
| TrackerTests.TieAggregates | lib/src/main/java/com/github/jmmv/nudgytimer/lib/AggregateEvent.java:239-257 | the A and B aggregates both last 3 ms with latest start 10: compareTo gives 0 although they are not equal |
| TrackerTests.TiedNotSorted | lib/src/main/java/com/github/jmmv/nudgytimer/lib/SqliteTracker.java:103-107 | a TreeSet of two tied aggregates holds at most one element |
| TrackerTests.MemberIsAggregate | lib/src/main/java/com/github/jmmv/nudgytimer/lib/SqliteTracker.java:103-107 | every element of the TreeSet is the aggregate of its own description |
| TrackerTests.OnlyTheTwo | lib/src/main/java/com/github/jmmv/nudgytimer/lib/SqliteTracker.java:103-107 | the TreeSet built from events of two descriptions holds only their two aggregates |
| TrackerTests.AggregationNotEmpty | lib/src/main/java/com/github/jmmv/nudgytimer/lib/SqliteTracker.java:103-107 | the TreeSet built from events with a description is not empty |
| TrackerTests.TieKeepsOne | lib/src/main/java/com/github/jmmv/nudgytimer/lib/SqliteTracker.java:103-107 | for two descriptions whose aggregates compare 0, the TreeSet keeps exactly one of them |
| TrackerTests.TieRowsAggregates | lib/src/main/java/com/github/jmmv/nudgytimer/lib/SqliteTracker.java:80-108 | the aggregates of [10, 100) over the tie's table are a single aggregate, A's or B's |
| TrackerTests.TieThroughTracker | lib/src/main/java/com/github/jmmv/nudgytimer/lib/SqliteTracker.java:80-108 | through the tracker: the three addEvent calls succeed, and aggregateEventsInInterval([10, 100)) returns one aggregate where there are two descriptions |
| TimeUtils.IntervalForever | lib/src/main/java/com/github/jmmv/nudgytimer/lib/TimeUtils.java:38-44 | [Long.MIN_VALUE, Long.MAX_VALUE) is a valid interval holding every long instant but Long.MAX_VALUE |
| TimeUtils.ForeverExamples | lib/src/androidTest/java/com/github/jmmv/nudgytimer/lib/TimeUtilsTest.java:28-35 | the forever interval holds 0, 1000, 123456789 and Long.MAX_VALUE - 1, but not Long.MAX_VALUE |
| TimeUtils.NaturalString | lib/src/main/java/com/github/jmmv/nudgytimer/lib/TimeUtils.java:109 | `Long.toString` of a natural number is a non-empty string of digits with no leading zero |
| TimeUtils.DecimalRoundTrip | lib/src/main/java/com/github/jmmv/nudgytimer/lib/TimeUtils.java:109 | reading back what `Long.toString` writes gives the number again |
| TimeUtils.DecimalString | lib/src/main/java/com/github/jmmv/nudgytimer/lib/TimeUtils.java:109 | `Long.toString` is non-empty and begins with a minus sign exactly for a negative number |
| TimeUtils.HasSub | lib/src/main/java/com/github/jmmv/nudgytimer/lib/TimeUtils.java:95 | definition of `String.contains` |
| TimeUtils.ReplaceAll | lib/src/main/java/com/github/jmmv/nudgytimer/lib/TimeUtils.java:108-109 | definition of `replaceAll` for a literal pattern, left to right without overlaps; its properties are proved in `NoPlaceholderUnchanged` and `EveryPlaceholderReplaced` |
| TimeUtils.Fill | lib/src/main/java/com/github/jmmv/nudgytimer/lib/TimeUtils.java:171-172 | definition of filling a template with the decimal quantity; `FillOnePlaceholder` states its effect |
| TimeUtils.NoPlaceholderUnchanged | lib/src/main/java/com/github/jmmv/nudgytimer/lib/TimeUtils.java:108-109 | a template without the placeholder comes back unchanged |
| TimeUtils.EveryPlaceholderReplaced | lib/src/main/java/com/github/jmmv/nudgytimer/lib/TimeUtils.java:171-172 | in texts holding no underscore, joined by placeholders, every placeholder is replaced and every text is kept |
| TimeUtils.FillOnePlaceholder | lib/src/main/java/com/github/jmmv/nudgytimer/lib/TimeUtils.java:171-172 | "before_DURATION_after", with no underscore in before or after, becomes before, the decimal quantity, after |
| TimeUtils.StandardMinutes | lib/src/main/java/com/github/jmmv/nudgytimer/lib/TimeUtils.java:101 | whole minutes truncated toward zero |
| TimeUtils.StandardSeconds | lib/src/main/java/com/github/jmmv/nudgytimer/lib/TimeUtils.java:162 | whole seconds truncated toward zero |
| TimeUtils.MinutesChoice | lib/src/main/java/com/github/jmmv/nudgytimer/lib/TimeUtils.java:101-107 | always minutes; singular exactly for durations in [60000, 120000), so 0 minutes is plural |
| TimeUtils.DurationChoice | lib/src/main/java/com/github/jmmv/nudgytimer/lib/TimeUtils.java:153-169 | minutes exactly from one whole minute up, seconds below; singular exactly when the quantity is 1 |
| TimeUtils.FormatDurationMinutes | lib/src/main/java/com/github/jmmv/nudgytimer/lib/TimeUtils.java:89-110 | a debug build fails exactly when the plural template lacks the placeholder; otherwise the chosen template with the minutes filled in |
| TimeUtils.FormatDuration | lib/src/main/java/com/github/jmmv/nudgytimer/lib/TimeUtils.java:131-173 | corrected debug check: a debug build fails exactly when a plural template lacks the placeholder; otherwise the chosen template with the quantity filled in; a plural template used after a passed check holds the placeholder |
| TimeUtils.FormatDurationAsWritten | lib/src/main/java/com/github/jmmv/nudgytimer/lib/TimeUtils.java:131-173 | as written, a debug build fails exactly when the minutes plural template lacks the placeholder, and otherwise formats as a release build does |
| TimeUtils.SecondsPluralUnchecked | lib/src/main/java/com/github/jmmv/nudgytimer/lib/TimeUtils.java:138 | a seconds plural template without the placeholder passes the check as written, and 2 s formats as "These are seconds"; the corrected check rejects it |
| TimeUtils.TestPluralsHavePlaceholder | lib/src/androidTest/java/com/github/jmmv/nudgytimer/lib/TimeUtilsTest.java:73-91 | the plural templates of the tests pass the debug check |
| TimeUtils.FormatSecondsExamples | lib/src/androidTest/java/com/github/jmmv/nudgytimer/lib/TimeUtilsTest.java:73-91 | 10 ms gives "These are 0 seconds" and 1000 ms "This is 1 second" |
| TimeUtils.FormatMinutesExamples | lib/src/androidTest/java/com/github/jmmv/nudgytimer/lib/TimeUtilsTest.java:73-126 | 70 minutes gives "These are 70 minutes"; the minutes formatter gives "These are 0 minutes" for 2000 ms and "This is 1 minute" for one minute |
| IntentUtils.IdsDiffer | lib/src/main/java/com/github/jmmv/nudgytimer/lib/IntentUtils.java:27-33 | the two extra keys are different strings, so writing one never overwrites the other |
| IntentUtils.IntervalFrom | lib/src/main/java/com/github/jmmv/nudgytimer/lib/IntentUtils.java:49-69 | a missing start key fails first, then a missing end key, then a backwards interval; otherwise the stored bounds |
| IntentUtils.WithInterval | lib/src/main/java/com/github/jmmv/nudgytimer/lib/IntentUtils.java:85-86 | both keys are written and every other extra is kept |
| IntentUtils.PutThenGet | lib/src/main/java/com/github/jmmv/nudgytimer/lib/IntentUtils.java:49-87 | getting back a put interval gives it again |
| IntentUtils.GetThenPut | lib/src/main/java/com/github/jmmv/nudgytimer/lib/IntentUtils.java:49-87 | putting back the interval an intent holds leaves its extras unchanged |
| IntentUtils.Intent.PutExtra | lib/src/main/java/com/github/jmmv/nudgytimer/lib/IntentUtils.java:79-87 | a debug build fails exactly when either key is present, and leaves the extras unchanged; otherwise both keys are written, the other extras kept, and getIntervalExtra returns the interval |
| IntentUtils.Intent.PutLongExtra | lib/src/main/java/com/github/jmmv/nudgytimer/lib/IntentUtils.java:85-86 | `putExtra(key, long)` sets that key and keeps every other extra |
| IntentUtils.Intent.GetIntervalExtra | lib/src/main/java/com/github/jmmv/nudgytimer/lib/IntentUtils.java:49-69 | definition of `getIntervalExtra` as `IntervalFrom` of the extras; `PutExtra` and `PutThenGet` state the round trip |
| IntentUtils.IntentExamples | lib/src/androidTest/java/com/github/jmmv/nudgytimer/lib/IntentUtilsTest.java:24-70 | [5, 10] round-trips; an empty intent, a start-only intent and a backwards pair give the three errors |

## Left out

- The whole Joda-Time library is not part of this model; its Interval, overlap, containment and duration are stated as definitions in `Joda`.
- `hashCode` and `toString` of Event and AggregateEvent, and all `Log` calls: string formatting and int hash overflow carry no behaviour the model needs.
- `TimeUtils.intervalForDay`: it reads `java.util.Calendar` and the default time zone.
- ActivityTrigger.java, StoreHelper.java, the settings classes and the app layer are not part of this model (alarms, preferences, lifecycle, UI).
- Real SQL execution and cursors: the SELECT statement is replaced by its meaning (`Cursor`), and the transaction of `putEvent` by "a failure leaves the table as it was"; concurrency is not modelled.
- Long overflow: instants, durations and totals are unbounded integers. Joda's `Duration.plus` and `toDurationMillis` use checked arithmetic and throw ArithmeticException on overflow; the model never fails there.
- HashSet and HashMap iteration order: the loops pick their next element by choice, so the results are specified for every order (`IsAggregation`, `IsTop`), not for the one the JVM would use.
- Aggregates.Compare: the debug AssertionError of `compareTo` on a 0 result without `equals` is not an error outcome. `CompareZeroWithoutEquals` shows it is reachable for some aggregates, and `TrackerTests.TieThroughTracker` shows it is reachable from a table that `addEvent` accepts. The "Bad conditional flow" assertion cannot fire and is dropped.
- Tracker.SqliteTracker.AggregateEventsInInterval: the duplicate-key assertion of `build` is shown never to fire for its builders, so its debug failure does not appear in the tracker's outcomes. The `compareTo` tie is not an error outcome either. After A [0,13], B [5,12] and B [7,11], the aggregates of [10, 100) tie (`TrackerTests.TieThroughTracker`). A debug build then throws AssertionError from `TreeSet.add` here and in `topEventInInterval`. A release build keeps one aggregate and drops the other description; the model states the release behaviour.
- IntentUtils: only long extras are modelled; `getLongExtra`'s default for an extra of another type is not.
- TimeUtils: `context.getString` is a total function from ids to templates; a missing resource is not modelled. `replaceAll` is modelled for the fixed placeholder, which holds no regular-expression metacharacter; the replacement, a decimal number, holds none either.
- StoreContract.ParseEvent: in a release build a matched row without overlap reaches `new Event(null, ...)`; the model stops with `FetchedOutsideQuery` instead of following the null.
- TimeUtils.EveryPlaceholderReplaced, TimeUtils.FillOnePlaceholder: stated only for texts holding no underscore. A text with an underscore can form a placeholder together with its neighbours: ["a_DURATION", ""] joined by "_DURATION_" holds the placeholder early, so the replacement gives "a7DURATION_" rather than "a_DURATION7".
- Tracker.SqliteTracker.MostRecentEvent: the most recent event is stated as cut to the forever interval; a row ending at Long.MAX_VALUE is cut to end there, as the source does.

## Findings

| source | as written | input that shows it | evidently intended | confidence | as-written member | corrected member |
|---|---|---|---|---|---|---|
| lib/src/main/java/com/github/jmmv/nudgytimer/lib/TimeUtils.java:138 | the debug check of `formatDuration` reads `minutes_plural_id` into `seconds_plural`, so the minutes plural template is checked twice and the seconds plural template never | templates whose seconds plural is "These are seconds" (no placeholder) and a duration of 2000 ms: the check passes and the result is "These are seconds" | read `seconds_plural_id` there, so a seconds plural template without the placeholder is rejected in a debug build | not executed | TimeUtils.FormatDurationAsWritten, TimeUtils.SecondsPluralUnchecked | TimeUtils.FormatDuration |
