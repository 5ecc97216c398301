/**
 * SqliteTracker.java: the Tracker interface of Tracker.java over the events
 * table: recording events, the range query, grouping by description and
 * ranking, and the most recent event.
 */
module Tracker {
  import opened Wrappers
  import opened Joda
  import opened Events
  import opened Aggregates
  import opened StoreContract
  import opened TimeUtils

  // ----- What an aggregation of a set of events is -----

  /** The descriptions of a set of events. */
  ghost function Descriptions(events: set<Event>): set<string> {
    set e | e in events :: e.description
  }

  /** The clipped intervals of the events with description `d`. */
  ghost function IntervalsWith(events: set<Event>, d: string): set<Interval> {
    set e | e in events && e.description == d :: e.interval
  }

  /** The one aggregate of description `d`: exactly that description's intervals, in key order. */
  ghost function AggregateFor(events: set<Event>, d: string): (a: AggregateEvent)
    requires d in Descriptions(events)
    ensures a.description == d && Elems(a.intervals) == IntervalsWith(events, d)
  {
    var s := SortedOf(IntervalsWith(events, d));
    var e :| e in events && e.description == d;
    assert e.interval in Elems(s);
    var sorted: AggregateEvent := Aggregate(d, s);
    var a: AggregateEvent :| a.description == d && Elems(a.intervals) == IntervalsWith(events, d);
    a
  }

  /** An aggregate holding exactly the intervals of its description is that description's aggregate. */
  lemma AggregateForUnique(events: set<Event>, x: AggregateEvent)
    requires x.description in Descriptions(events)
    requires Elems(x.intervals) == IntervalsWith(events, x.description)
    ensures x == AggregateFor(events, x.description)
  {
    SortedUnique(x.intervals, AggregateFor(events, x.description).intervals);
  }

  /** A TreeSet<AggregateEvent> as the sequence of its elements, ascending by compareTo. */
  predicate RankSorted(s: seq<AggregateEvent>) {
    forall i, j | 0 <= i < j < |s| :: Compare(s[i], s[j]) == -1
  }

  /** `x` is the aggregate of one of the descriptions of `events`. */
  ghost predicate IsAggregateOf(events: set<Event>, x: AggregateEvent) {
    x.description in Descriptions(events) && Elems(x.intervals) == IntervalsWith(events, x.description)
  }

  /**
   * What aggregateEventsInInterval returns for a set of events: a TreeSet
   * of aggregates of the events' descriptions, where every description's
   * aggregate is present or has been dropped in favour of one that compares
   * 0 to it.  Which of two tied aggregates stays depends on HashMap order.
   */
  ghost predicate IsAggregation(events: set<Event>, aggs: seq<AggregateEvent>) {
    RankSorted(aggs)
    && (forall x | x in aggs :: IsAggregateOf(events, x))
    && (forall d {:trigger AggregateFor(events, d)} | d in Descriptions(events) ::
          exists x | x in aggs :: Compare(x, AggregateFor(events, d)) == 0)
  }

  /** `TreeSet.add`: insert at the element's place; an element comparing 0 to one present is not added. */
  function TreeSetAdd(s: seq<AggregateEvent>, a: AggregateEvent): seq<AggregateEvent> {
    if s == [] then [a]
    else
      var c := Compare(a, s[0]);
      if c == 0 then s
      else if c == -1 then [a] + s
      else [s[0]] + TreeSetAdd(s[1..], a)
  }

  lemma FirstIsLeast(s: seq<AggregateEvent>, y: AggregateEvent)
    requires RankSorted(s) && s != [] && y in s[1..]
    ensures Compare(s[0], y) == -1
  {
    var k :| 0 <= k < |s[1..]| && s[1..][k] == y;
    assert s[k + 1] == y;
  }

  lemma TreeSetAddMembers(s: seq<AggregateEvent>, a: AggregateEvent)
    requires RankSorted(s)
    ensures forall x :: x in TreeSetAdd(s, a) <==> x in s || (x == a && forall y | y in s :: Compare(a, y) != 0)
  {
    if s != [] {
      var c := Compare(a, s[0]);
      assert forall y | y in s :: y == s[0] || y in s[1..];
      if c == -1 {
        forall y | y in s[1..] ensures Compare(a, y) == -1 {
          FirstIsLeast(s, y);
          CompareIsTotalPreorder(a, s[0], y);
        }
      } else if c == 1 {
        TreeSetAddMembers(s[1..], a);
      }
    }
  }

  /** add keeps the set ordered, keeps every element, and adds the new one exactly when nothing ties with it. */
  lemma {:induction false} TreeSetAddSpec(s: seq<AggregateEvent>, a: AggregateEvent)
    requires RankSorted(s)
    ensures RankSorted(TreeSetAdd(s, a))
    ensures forall x :: x in TreeSetAdd(s, a) <==> x in s || (x == a && forall y | y in s :: Compare(a, y) != 0)
  {
    TreeSetAddMembers(s, a);
    if s != [] {
      var c := Compare(a, s[0]);
      if c == -1 {
        PrependSorted(s, a);
      } else if c == 1 {
        TreeSetAddSpec(s[1..], a);
        TreeSetAddMembers(s[1..], a);
        KeepHeadSorted(s, a, TreeSetAdd(s[1..], a));
      }
    }
  }

  /** An element below the least of an ordered set goes in front of it. */
  lemma PrependSorted(s: seq<AggregateEvent>, a: AggregateEvent)
    requires RankSorted(s) && s != [] && Compare(a, s[0]) == -1
    ensures RankSorted([a] + s)
  {
    var t := [a] + s;
    forall i, j | 0 <= i < j < |t| ensures Compare(t[i], t[j]) == -1 {
      if i == 0 {
        if j > 1 {
          FirstIsLeast(s, t[j]);
          CompareIsTotalPreorder(a, s[0], t[j]);
        }
      } else {
        assert t[i] == s[i - 1] && t[j] == s[j - 1];
      }
    }
  }

  /** An element above the least of an ordered set goes after it: the least stays in front. */
  lemma KeepHeadSorted(s: seq<AggregateEvent>, a: AggregateEvent, tail: seq<AggregateEvent>)
    requires RankSorted(s) && s != [] && Compare(a, s[0]) == 1
    requires RankSorted(tail) && forall x | x in tail :: x in s[1..] || x == a
    ensures RankSorted([s[0]] + tail)
  {
    CompareIsTotalPreorder(a, s[0], a);
    var t := [s[0]] + tail;
    forall i, j | 0 <= i < j < |t| ensures Compare(t[i], t[j]) == -1 {
      if i == 0 {
        assert t[j] in tail;
        if t[j] != a {
          FirstIsLeast(s, t[j]);
        }
      } else {
        assert t[i] == tail[i - 1] && t[j] == tail[j - 1];
      }
    }
  }

  /** When no two descriptions tie, every description's aggregate is in the result. */
  lemma NoTiesKeepsAll(events: set<Event>, aggs: seq<AggregateEvent>)
    requires IsAggregation(events, aggs)
    requires forall d1, d2 | d1 in Descriptions(events) && d2 in Descriptions(events) && d1 != d2 ::
      Compare(AggregateFor(events, d1), AggregateFor(events, d2)) != 0
    ensures forall d | d in Descriptions(events) :: AggregateFor(events, d) in aggs
  {
    forall d | d in Descriptions(events) ensures AggregateFor(events, d) in aggs {
      var x :| x in aggs && Compare(x, AggregateFor(events, d)) == 0;
      AggregateForUnique(events, x);
    }
  }

  /** There are aggregates exactly when there are events. */
  lemma AggregationEmptyIff(events: set<Event>, aggs: seq<AggregateEvent>)
    requires IsAggregation(events, aggs)
    ensures aggs == [] <==> events == {}
  {
    if events != {} {
      var e :| e in events;
      assert e.description in Descriptions(events);
      var x :| x in aggs && Compare(x, AggregateFor(events, e.description)) == 0;
    }
    if aggs != [] {
      assert aggs[0] in aggs;
    }
  }

  // ----- The builders of aggregateEventsInInterval -----

  predicate Distinct(s: seq<Event>) {
    forall i, j | 0 <= i < j < |s| :: s[i] != s[j]
  }

  /** The events of each description, once each, as lists. */
  ghost predicate GroupedSeqs(events: set<Event>, groups: map<string, seq<Event>>) {
    (forall d | d in groups ::
      groups[d] != [] && Distinct(groups[d]) && forall e :: e in groups[d] <==> e in events && e.description == d)
    && (forall e | e in events :: e.description in groups)
  }

  /** One turn of the first loop: the event joins its description's list, or starts one. */
  lemma GroupStep(done: set<Event>, groups: map<string, seq<Event>>, e: Event)
    requires GroupedSeqs(done, groups) && e !in done
    ensures var d := e.description;
      GroupedSeqs(done + {e}, if d in groups then groups[d := groups[d] + [e]] else groups[d := [e]])
  {
    var d := e.description;
    if d in groups {
      var g := groups[d] + [e];
      forall i, j | 0 <= i < j < |g| ensures g[i] != g[j] {
        if j == |g| - 1 {
          assert g[i] in groups[d];
        } else {
          assert g[i] == groups[d][i] && g[j] == groups[d][j];
        }
      }
    }
  }

  /**
   * The HashMap of builders after the first loop over `events`: one builder
   * per description, holding each event of that description once.
   */
  ghost predicate Grouped(events: set<Event>, builders: map<string, Builder>)
    reads set d | d in builders :: builders[d]
  {
    (forall d | d in builders ::
      builders[d].Valid() && builders[d].events[0].description == d && Distinct(builders[d].events)
      && forall e :: e in builders[d].events <==> e in events && e.description == d)
    && (forall e | e in events :: e.description in builders)
  }

  lemma MirrorGrouped(events: set<Event>, builders: map<string, Builder>, groups: map<string, seq<Event>>)
    requires GroupedSeqs(events, groups) && Mirrors(builders, groups)
    ensures Grouped(events, builders)
  {
    forall d | d in builders ensures builders[d].Valid() && builders[d].events[0].description == d {
      assert builders[d].events[0] in groups[d];
    }
  }

  /** The builders mirror the lists of `groups`, one distinct builder per description. */
  ghost predicate Mirrors(builders: map<string, Builder>, groups: map<string, seq<Event>>)
    reads set d | d in builders :: builders[d]
  {
    builders.Keys == groups.Keys
    && (forall d | d in builders :: builders[d].events == groups[d])
    && (forall d1, d2 | d1 in builders && d2 in builders && d1 != d2 :: builders[d1] != builders[d2])
  }

  /** One turn of the first loop: accumulate into the description's builder, or put a new one. */
  method Feed(builders: map<string, Builder>, ghost groups: map<string, seq<Event>>, ghost done: set<Event>, event: Event)
    returns (builders': map<string, Builder>, ghost groups': map<string, seq<Event>>)
    requires GroupedSeqs(done, groups) && Mirrors(builders, groups) && event !in done
    modifies set d | d in builders :: builders[d]
    ensures GroupedSeqs(done + {event}, groups') && Mirrors(builders', groups')
    ensures forall d | d in builders' :: (d in builders && builders'[d] == builders[d]) || fresh(builders'[d])
  {
    var key := event.description;
    GroupStep(done, groups, event);
    if key in builders {
      var b := builders[key];
      assert b.events[0] in groups[key];
      var accepted := b.Accumulate(event, true);
      builders' := builders;
      groups' := groups[key := groups[key] + [event]];
    } else {
      var b := new Builder(event);
      builders' := builders[key := b];
      groups' := groups[key := [event]];
    }
  }

  /** The first loop of aggregateEventsInInterval: a builder per description, fed every event. */
  method GroupByDescription(events: set<Event>) returns (builders: map<string, Builder>)
    ensures Grouped(events, builders)
    ensures forall d | d in builders :: fresh(builders[d])
  {
    builders := map[];
    ghost var groups: map<string, seq<Event>> := map[];
    var remaining := events;
    while remaining != {}
      invariant remaining <= events
      invariant GroupedSeqs(events - remaining, groups) && Mirrors(builders, groups)
      invariant forall d | d in builders :: fresh(builders[d])
      decreases |remaining|
    {
      var event :| event in remaining;
      builders, groups := Feed(builders, groups, events - remaining, event);
      assert events - (remaining - {event}) == (events - remaining) + {event};
      remaining := remaining - {event};
    }
    MirrorGrouped(events, builders, groups);
  }

  /** The builders of distinct events never meet the duplicate-key assertion of build. */
  lemma GroupedHasNoDuplicate(events: set<Event>, builders: map<string, Builder>, d: string)
    requires Grouped(events, builders) && d in builders
    ensures !HasDuplicate(builders[d].events)
  {
  }

  /** What build returns for a grouped builder is the description's aggregate. */
  lemma BuiltIsAggregateFor(events: set<Event>, builders: map<string, Builder>, d: string, agg: AggregateEvent)
    requires Grouped(events, builders) && d in builders
    requires agg.description == builders[d].events[0].description
    requires Elems(agg.intervals) == IntervalsOf(builders[d].events)
    ensures d in Descriptions(events) && agg.description == d && IsAggregateOf(events, agg)
    ensures agg == AggregateFor(events, d)
  {
    var s := builders[d].events;
    assert s[0] in s;
    assert IntervalsOf(s) == IntervalsWith(events, d);
    AggregateForUnique(events, agg);
  }

  /** The builders' keys are the descriptions of the events. */
  lemma GroupedKeys(events: set<Event>, builders: map<string, Builder>)
    requires Grouped(events, builders)
    ensures builders.Keys == Descriptions(events)
  {
    forall d | d in builders ensures d in Descriptions(events) {
      assert builders[d].events[0] in builders[d].events;
    }
  }

  /** Every description outside `pending` has an aggregate in the TreeSet, up to ties. */
  ghost predicate CoveredExcept(events: set<Event>, aggs: seq<AggregateEvent>, pending: set<string>) {
    forall d {:trigger AggregateFor(events, d)} | d in Descriptions(events) && d !in pending ::
      exists x | x in aggs :: Compare(x, AggregateFor(events, d)) == 0
  }

  /** One turn of the second loop: the new aggregate is added or ties with one present. */
  lemma CollectStep(events: set<Event>, before: seq<AggregateEvent>, agg: AggregateEvent, pending: set<string>)
    requires RankSorted(before) && agg.description in pending
    requires agg.description in Descriptions(events) && IsAggregateOf(events, agg)
    requires agg == AggregateFor(events, agg.description)
    requires forall x | x in before :: IsAggregateOf(events, x) && x.description !in pending
    requires CoveredExcept(events, before, pending)
    ensures var aggs := TreeSetAdd(before, agg); var pending' := pending - {agg.description};
      RankSorted(aggs)
      && (forall x | x in aggs :: IsAggregateOf(events, x) && x.description !in pending')
      && CoveredExcept(events, aggs, pending')
  {
    TreeSetAddSpec(before, agg);
    var aggs := TreeSetAdd(before, agg);
    var pending' := pending - {agg.description};
    forall d | d in Descriptions(events) && d !in pending'
      ensures exists x | x in aggs :: Compare(x, AggregateFor(events, d)) == 0
    {
      if d == agg.description {
        if agg in aggs {
          CompareIsTotalPreorder(agg, agg, agg);
        } else {
          var y :| y in before && Compare(agg, y) == 0;
          CompareIsTotalPreorder(y, agg, agg);
          assert y in aggs;
        }
      } else {
        var a := AggregateFor(events, d);
        assert d !in pending;
        var x :| x in before && Compare(x, a) == 0;
        assert x in aggs;
      }
    }
  }

  /** The second loop of aggregateEventsInInterval: build every builder and add it to a TreeSet. */
  method CollectAggregates(events: set<Event>, builders: map<string, Builder>) returns (aggs: seq<AggregateEvent>)
    requires Grouped(events, builders)
    ensures IsAggregation(events, aggs)
  {
    GroupedKeys(events, builders);
    aggs := [];
    var pending := builders.Keys;
    while pending != {}
      invariant pending <= builders.Keys
      invariant RankSorted(aggs)
      invariant forall x | x in aggs :: IsAggregateOf(events, x) && x.description !in pending
      invariant CoveredExcept(events, aggs, pending)
      decreases pending
    {
      var d :| d in pending;
      var agg, duplicateKey := builders[d].Build();
      GroupedHasNoDuplicate(events, builders, d);
      assert !duplicateKey;
      BuiltIsAggregateFor(events, builders, d, agg);
      CollectStep(events, aggs, agg, pending);
      aggs := TreeSetAdd(aggs, agg);
      pending := pending - {d};
    }
    CollectDone(events, aggs, pending);
  }

  /** When no builder is pending, the TreeSet is the aggregation of the events. */
  lemma CollectDone(events: set<Event>, aggs: seq<AggregateEvent>, pending: set<string>)
    requires pending == {} && RankSorted(aggs)
    requires forall x | x in aggs :: IsAggregateOf(events, x) && x.description !in pending
    requires CoveredExcept(events, aggs, pending)
    ensures IsAggregation(events, aggs)
  {
    forall d | d in Descriptions(events)
      ensures exists x | x in aggs :: Compare(x, AggregateFor(events, d)) == 0
    {
      var a := AggregateFor(events, d);
      assert d !in pending;
      assert exists x | x in aggs :: Compare(x, a) == 0;
    }
  }

  /** The aggregate topEventInInterval returns: one of the aggregates, and compareTo puts none above it. */
  ghost predicate IsTop(events: set<Event>, top: AggregateEvent) {
    IsAggregateOf(events, top)
    && forall d {:trigger AggregateFor(events, d)} | d in Descriptions(events) :: Compare(AggregateFor(events, d), top) != 1
  }

  /** Nothing is longer than the top aggregate, and on a draw in duration the top one started last. */
  lemma TopWinsDraws(events: set<Event>, top: AggregateEvent, d: string)
    requires IsTop(events, top) && d in Descriptions(events)
    ensures TotalDuration(AggregateFor(events, d).intervals) <= TotalDuration(top.intervals)
    ensures TotalDuration(AggregateFor(events, d).intervals) == TotalDuration(top.intervals) ==>
      LatestStart(AggregateFor(events, d)) <= LatestStart(top)
  {
    assert Compare(AggregateFor(events, d), top) != 1;
  }

  /** An element of the TreeSet that none compares above is the top of the whole aggregation. */
  lemma MaximalIsTop(events: set<Event>, aggs: seq<AggregateEvent>, top: AggregateEvent)
    requires IsAggregation(events, aggs)
    requires top in aggs && forall x | x in aggs :: Compare(x, top) != 1
    ensures IsTop(events, top)
  {
    assert IsAggregateOf(events, top);
    forall d | d in Descriptions(events)
      ensures Compare(AggregateFor(events, d), top) != 1
    {
      var a := AggregateFor(events, d);
      MaximalIsAbove(aggs, top, a);
    }
  }

  /** An aggregate tied with an element of the TreeSet is not above an element that none is above. */
  lemma MaximalIsAbove(aggs: seq<AggregateEvent>, top: AggregateEvent, a: AggregateEvent)
    requires exists x | x in aggs :: Compare(x, a) == 0
    requires forall x | x in aggs :: Compare(x, top) != 1
    ensures Compare(a, top) != 1
  {
    var x :| x in aggs && Compare(x, a) == 0;
    CompareIsTotalPreorder(a, x, top);
  }

  // ----- The tracker -----

  /** A tracker over an open, writable database. */
  class SqliteTracker {
    const database: Database

    constructor (database: Database)
      ensures this.database == database
    {
      this.database := database;
    }

    /**
     * `addEvent`: a backwards interval or an empty description is a
     * BadEventException and nothing is stored; otherwise the event goes
     * through putEvent.
     */
    method AddEvent(start: int, end: int, description: string) returns (r: Result<(), StoreFailure>)
      requires database.Valid()
      modifies database
      ensures database.Valid()
      ensures end < start ==> r == Failure(BadEvent(BackwardsInterval)) && database.rows == old(database.rows)
      ensures start <= end && description == [] ==>
        r == Failure(BadEvent(EmptyDescription)) && database.rows == old(database.rows)
      ensures start <= end && description != [] ==>
        (r, database.rows) == PutOutcome(old(database.rows), Entry(Span(start, end), description))
    {
      match NewInterval(start, end)
      case None =>
        r := Failure(BadEvent(BackwardsInterval));
      case Some(interval) =>
        match NewEvent(interval, description)
        case Failure(reason) =>
          r := Failure(BadEvent(reason));
        case Success(event) =>
          r := PutEvent(database, event);
    }

    /** `eventsInInterval`: the query with no limit. */
    method EventsInInterval(q: Interval) returns (r: Result<set<Event>, StoreFailure>)
      ensures r == QueryResult(database.rows, q, None)
    {
      r := QueryEvents(database, q, None);
    }

    /** `aggregateEventsInInterval`: group the events of the query by description, then rank the aggregates. */
    method AggregateEventsInInterval(q: Interval) returns (r: Result<seq<AggregateEvent>, StoreFailure>)
      ensures QueryResult(database.rows, q, None).Failure? ==> r == Failure(QueryResult(database.rows, q, None).error)
      ensures QueryResult(database.rows, q, None).Success? ==>
        r.Success? && IsAggregation(QueryResult(database.rows, q, None).value, r.value)
    {
      var found := EventsInInterval(q);
      if found.Failure? {
        return Failure(found.error);
      }
      var builders := GroupByDescription(found.value);
      var aggs := CollectAggregates(found.value, builders);
      r := Success(aggs);
    }

    /**
     * `topEventInInterval`: None (Java's null) exactly when the interval has
     * no events; otherwise the greatest aggregate, the later one on a draw.
     */
    method TopEventInInterval(q: Interval) returns (r: Result<Option<AggregateEvent>, StoreFailure>)
      ensures QueryResult(database.rows, q, None).Failure? ==> r == Failure(QueryResult(database.rows, q, None).error)
      ensures QueryResult(database.rows, q, None).Success? ==>
        (r.Success? && (r.value.None? <==> QueryResult(database.rows, q, None).value == {})
         && (r.value.Some? ==> IsTop(QueryResult(database.rows, q, None).value, r.value.value)))
    {
      var aggregates := AggregateEventsInInterval(q);
      if aggregates.Failure? {
        return Failure(aggregates.error);
      }
      var s := aggregates.value;
      ghost var events := QueryResult(database.rows, q, None).value;
      AggregationEmptyIff(events, s);
      if s == [] {
        return Success(None);
      }
      var max := s[0];
      var k := 1;
      while k < |s|
        invariant 1 <= k <= |s|
        invariant max in s[..k]
        invariant forall x | x in s[..k] :: Compare(x, max) != 1
      {
        var next := s[k];
        assert s[..k + 1] == s[..k] + [next];
        if Compare(next, max) == 1 {
          forall x | x in s[..k] ensures Compare(x, next) != 1 {
            CompareIsTotalPreorder(x, max, next);
          }
          max := next;
        }
        k := k + 1;
      }
      assert s[..k] == s;
      MaximalIsTop(events, s, max);
      r := Success(Some(max));
    }

    /**
     * `mostRecentEvent`: the query over the forever interval with limit 1.
     * None when no row matches it, as in an empty store; otherwise the row
     * with the greatest start, cut to the forever interval.
     */
    method MostRecentEvent() returns (r: Result<Option<Event>, StoreFailure>)
      ensures QueryResult(database.rows, IntervalForever(), Some(1)).Failure? ==>
        r == Failure(QueryResult(database.rows, IntervalForever(), Some(1)).error)
      ensures QueryResult(database.rows, IntervalForever(), Some(1)).Success? ==>
        r.Success? && (r.value.None? <==> QueryResult(database.rows, IntervalForever(), Some(1)).value == {})
        && (r.value.Some? ==> QueryResult(database.rows, IntervalForever(), Some(1)).value == {r.value.value})
      ensures r.Success? ==> (r.value.None? <==> forall row | row in database.rows :: !Matches(row, IntervalForever()))
      ensures database.rows == [] ==> r == Success(None)
      ensures r.Success? && r.value.Some? ==>
        exists row | row in database.rows && Matches(row, IntervalForever()) ::
          ParseRow(row, IntervalForever()) == Success(r.value.value)
          && forall other | other in database.rows && Matches(other, IntervalForever()) :: other.startMillis <= row.startMillis
    {
      var events := QueryEvents(database, IntervalForever(), Some(1));
      if events.Failure? {
        return Failure(events.error);
      }
      LimitOneYieldsAtMostOne(database.rows, IntervalForever());
      if events.value == {} {
        return Success(None);
      }
      var e :| e in events.value;
      r := Success(Some(e));
    }
  }

  /** A row of long bounds matches the forever query unless both its bounds are Long.MAX_VALUE. */
  lemma ForeverMatches(row: Record)
    requires LongMin <= row.startMillis <= LongMax && LongMin <= row.endMillis <= LongMax
    ensures Matches(row, IntervalForever()) <==> row.startMillis < LongMax || row.endMillis < LongMax
  {
  }

  // ----- Scenarios of the tracker's tests -----

  /** An aggregate holding two intervals, the first a smaller key, holds them in that order. */
  lemma TwoIntervals(a: AggregateEvent, i: Interval, j: Interval)
    requires Elems(a.intervals) == {i, j} && KeyLess(i, j)
    ensures a.intervals == [i, j]
  {
    var expected: seq<Interval> := [i, j];
    assert Elems(expected) == {i, j};
    SortedUnique(a.intervals, expected);
  }

  /** Total duration and latest start of an aggregate of two intervals. */
  lemma TwoIntervalsRank(a: AggregateEvent, i: Interval, j: Interval)
    requires a.intervals == [i, j]
    ensures TotalDuration(a.intervals) == DurationOf(i) + DurationOf(j) && LatestStart(a) == j.start
  {
    assert a.intervals[1..] == [j];
    assert TotalDuration([j]) == DurationOf(j) + TotalDuration([j][1..]);
    assert [j][1..] == [];
  }

  /**
   * Two descriptions with two events each, of equal total duration: the
   * top aggregate is the one with the later event.
   */
  lemma LatestEventWinsIfDraw(events: set<Event>, first: string, second: string, top: AggregateEvent)
    requires first != [] && second != [] && first != second
    requires events == {Entry(Span(0, 1), first), Entry(Span(2, 3), second),
                        Entry(Span(4, 5), first), Entry(Span(6, 7), second)}
    requires IsTop(events, top)
    ensures top.description == second && top.intervals == [Span(2, 3), Span(6, 7)]
  {
    var e1: Event := Entry(Span(0, 1), first);
    var e2: Event := Entry(Span(2, 3), second);
    var e3: Event := Entry(Span(4, 5), first);
    var e4: Event := Entry(Span(6, 7), second);
    assert e1 in events && e2 in events && e3 in events && e4 in events;
    assert Descriptions(events) == {first, second};
    assert IntervalsWith(events, first) == {Span(0, 1), Span(4, 5)};
    assert IntervalsWith(events, second) == {Span(2, 3), Span(6, 7)};
    var b := AggregateFor(events, second);
    TwoIntervals(b, Span(2, 3), Span(6, 7));
    if top.description == first {
      TwoIntervals(top, Span(0, 1), Span(4, 5));
      TwoIntervalsRank(b, Span(2, 3), Span(6, 7));
      TwoIntervalsRank(top, Span(0, 1), Span(4, 5));
      assert false;
    }
    TwoIntervals(top, Span(2, 3), Span(6, 7));
  }

  /**
   * The query [17, 36] of the tests: two cut events of one description (8 ms
   * in all) and one inner event of another (9 ms).  The TreeSet holds
   * exactly the two aggregates, the shorter first.
   */
  lemma AggregatesOrderedByDuration(events: set<Event>, partial: string, inside: string, aggs: seq<AggregateEvent>)
    requires partial != [] && inside != [] && partial != inside
    requires events == {Entry(Span(17, 19), partial), Entry(Span(20, 29), inside), Entry(Span(30, 36), partial)}
    requires IsAggregation(events, aggs)
    ensures aggs == [Aggregate(partial, [Span(17, 19), Span(30, 36)]), Aggregate(inside, [Span(20, 29)])]
    ensures TotalDuration(aggs[0].intervals) == 8 && TotalDuration(aggs[1].intervals) == 9
  {
    var a: AggregateEvent := Aggregate(partial, [Span(17, 19), Span(30, 36)]);
    var b: AggregateEvent := Aggregate(inside, [Span(20, 29)]);
    CutQueryAggregates(events, partial, inside);
    TwoIntervalsRank(a, Span(17, 19), Span(30, 36));
    assert b.intervals[1..] == [];
    assert Compare(a, b) == -1;
    AggregationOfTwo(events, aggs, a, b);
  }

  /** Events of two descriptions whose aggregates are ranked apart: the TreeSet is those two, in order. */
  lemma AggregationOfTwo(events: set<Event>, aggs: seq<AggregateEvent>, a: AggregateEvent, b: AggregateEvent)
    requires IsAggregation(events, aggs) && Descriptions(events) == {a.description, b.description}
    requires AggregateFor(events, a.description) == a && AggregateFor(events, b.description) == b
    requires Compare(a, b) == -1
    ensures aggs == [a, b]
  {
    forall x | x in aggs ensures x == a || x == b {
      assert x.description in Descriptions(events);
      AggregateForUnique(events, x);
    }
    var x :| x in aggs && Compare(x, AggregateFor(events, a.description)) == 0;
    var y :| y in aggs && Compare(y, AggregateFor(events, b.description)) == 0;
    assert x == a && y == b;
    PairOfDistinct(aggs, a, b);
  }

  /** The descriptions and the aggregates of the events of the query [17, 36]. */
  lemma CutQueryAggregates(events: set<Event>, partial: string, inside: string)
    requires partial != [] && inside != [] && partial != inside
    requires events == {Entry(Span(17, 19), partial), Entry(Span(20, 29), inside), Entry(Span(30, 36), partial)}
    ensures Descriptions(events) == {partial, inside}
    ensures AggregateFor(events, partial) == Aggregate(partial, [Span(17, 19), Span(30, 36)])
    ensures AggregateFor(events, inside) == Aggregate(inside, [Span(20, 29)])
  {
    var e1: Event := Entry(Span(17, 19), partial);
    var e2: Event := Entry(Span(20, 29), inside);
    var e3: Event := Entry(Span(30, 36), partial);
    assert e1 in events && e2 in events && e3 in events;
    assert Descriptions(events) == {partial, inside};
    assert IntervalsWith(events, partial) == {Span(17, 19), Span(30, 36)};
    assert IntervalsWith(events, inside) == {Span(20, 29)};
    var a: AggregateEvent := Aggregate(partial, [Span(17, 19), Span(30, 36)]);
    var b: AggregateEvent := Aggregate(inside, [Span(20, 29)]);
    AggregateForUnique(events, a);
    AggregateForUnique(events, b);
  }

  /** A strictly ascending sequence drawn from two elements holding both is those two in order. */
  lemma PairOfDistinct(aggs: seq<AggregateEvent>, a: AggregateEvent, b: AggregateEvent)
    requires RankSorted(aggs) && Compare(a, b) == -1
    requires a in aggs && b in aggs && forall x | x in aggs :: x == a || x == b
    ensures aggs == [a, b]
  {
    CompareIsTotalPreorder(a, b, b);
    var i :| 0 <= i < |aggs| && aggs[i] == a;
    var j :| 0 <= j < |aggs| && aggs[j] == b;
    if |aggs| > 2 {
      assert aggs[0] in aggs && aggs[1] in aggs && aggs[2] in aggs;
      CompareIsTotalPreorder(aggs[0], aggs[1], aggs[2]);
      assert false;
    }
    assert i < j;
  }
}
