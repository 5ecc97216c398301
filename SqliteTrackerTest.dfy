/**
 * Scenarios of SqliteTrackerTest.java stated through the tracker's own
 * methods: the events are stored with addEvent into an empty table, and the
 * queries see the rows those calls wrote.
 */
module TrackerTests {
  import opened Wrappers
  import opened Joda
  import opened Events
  import opened Aggregates
  import opened StoreContract
  import opened Tracker

  /** Three rows with ascending starts come out of ORDER BY start_millis DESC reversed. */
  lemma SortThree(a: Record, b: Record, c: Record)
    requires a.startMillis < b.startMillis < c.startMillis
    ensures SortByStartDesc([a, b, c]) == [c, b, a]
  {
    assert [a, b, c][1..] == [b, c] && [b, c][1..] == [c] && [c][1..] == [];
    assert [c, b][1..] == [b] && [b][1..] == [];
    assert SortByStartDesc([c]) == InsertByStartDesc(c, []) == [c];
    assert InsertByStartDesc(b, [c]) == [c] + InsertByStartDesc(b, []) == [c, b];
    assert SortByStartDesc([b, c]) == [c, b];
    assert InsertByStartDesc(a, [b]) == [b] + InsertByStartDesc(a, []) == [b, a];
    assert InsertByStartDesc(a, [c, b]) == [c] + InsertByStartDesc(a, [b]) == [c, b, a];
  }

  /** A cursor of three rows that all parse yields exactly their three events. */
  lemma ParseThree(x: Record, y: Record, z: Record, q: Interval)
    requires ParseRow(x, q).Success? && ParseRow(y, q).Success? && ParseRow(z, q).Success?
    ensures ParseAll([x, y, z], q) == Success({ParseRow(x, q).value, ParseRow(y, q).value, ParseRow(z, q).value})
  {
    var cursor := [x, y, z];
    ParseAllSpec(cursor, q);
    assert forall r | r in cursor :: r == x || r == y || r == z;
    var expected := {ParseRow(x, q).value, ParseRow(y, q).value, ParseRow(z, q).value};
    assert ParseAll(cursor, q).value == expected by {
      forall e ensures e in ParseAll(cursor, q).value <==> e in expected {
        if e in expected {
          assert x in cursor && y in cursor && z in cursor;
        }
      }
    }
  }

  // ----- testAggregateEventsInInterval_SomeEventsInIntervalAndCut -----

  /** The table after the test's five addEvent calls, with descriptions `outside`, `partial` and `inside`. */
  function CutRows(outside: string, partial: string, inside: string): seq<Record> {
    [Record(1, 0, 9, outside)] + [Record(2, 10, 19, partial)] + [Record(3, 20, 29, inside)]
      + [Record(4, 30, 39, partial)] + [Record(5, 40, 49, outside)]
  }

  /** The WHERE clause on a table, one row at a time. */
  lemma FilterCons(r: Record, rest: seq<Record>, q: Interval)
    ensures Filter([r] + rest, q) == (if Matches(r, q) then [r] else []) + Filter(rest, q)
  {
    assert ([r] + rest)[1..] == rest;
  }

  /** A table whose WHERE clause selects three rows of ascending starts that all parse: the query yields their three events. */
  lemma QueryOfThree(rows: seq<Record>, q: Interval, x: Record, y: Record, z: Record)
    requires Filter(rows, q) == [x, y, z] && x.startMillis < y.startMillis < z.startMillis
    requires ParseRow(x, q).Success? && ParseRow(y, q).Success? && ParseRow(z, q).Success?
    ensures QueryResult(rows, q, None) == Success({ParseRow(x, q).value, ParseRow(y, q).value, ParseRow(z, q).value})
  {
    SortThree(x, y, z);
    ParseThree(z, y, x, q);
    var ex, ey, ez := ParseRow(x, q).value, ParseRow(y, q).value, ParseRow(z, q).value;
    assert {ez, ey, ex} == {ex, ey, ez};
  }

  /** The WHERE clause of the query [17, 36] keeps the three middle rows. */
  lemma CutFilter(outside: string, partial: string, inside: string)
    ensures Filter(CutRows(outside, partial, inside), Span(17, 36)) ==
      [Record(2, 10, 19, partial), Record(3, 20, 29, inside), Record(4, 30, 39, partial)]
  {
    var q: Interval := Span(17, 36);
    var r1, r2, r3 := Record(1, 0, 9, outside), Record(2, 10, 19, partial), Record(3, 20, 29, inside);
    var r4, r5 := Record(4, 30, 39, partial), Record(5, 40, 49, outside);
    assert CutRows(outside, partial, inside) == [r1] + ([r2] + ([r3] + ([r4] + [r5])));
    FilterCons(r5, [], q);
    FilterCons(r4, [r5], q);
    FilterCons(r3, [r4] + [r5], q);
    FilterCons(r2, [r3] + ([r4] + [r5]), q);
    FilterCons(r1, [r2] + ([r3] + ([r4] + [r5])), q);
  }

  /** The query [17, 36] over those rows: the two outer rows are not selected, the partial ones are cut. */
  lemma CutQuery(outside: string, partial: string, inside: string)
    requires partial != [] && inside != []
    ensures QueryResult(CutRows(outside, partial, inside), Span(17, 36), None) ==
      Success({Entry(Span(17, 19), partial), Entry(Span(20, 29), inside), Entry(Span(30, 36), partial)})
  {
    var q: Interval := Span(17, 36);
    CutFilter(outside, partial, inside);
    var r2, r3, r4 := Record(2, 10, 19, partial), Record(3, 20, 29, inside), Record(4, 30, 39, partial);
    assert ParseRow(r2, q) == Success(Entry(Span(17, 19), partial));
    assert ParseRow(r3, q) == Success(Entry(Span(20, 29), inside));
    assert ParseRow(r4, q) == Success(Entry(Span(30, 36), partial));
    QueryOfThree(CutRows(outside, partial, inside), q, r2, r3, r4);
  }

  /** Rows numbered 1, 2, ... in order: the next rowid is one past their count. */
  lemma {:induction false} NumberedNextRowId(rows: seq<Record>)
    requires forall i | 0 <= i < |rows| :: rows[i].id == i + 1
    ensures NextRowId(rows) == |rows| + 1
  {
    if rows != [] {
      NumberedNextRowId(rows[..|rows| - 1]);
    }
  }

  /**
   * Storing an event into a numbered table where no row matches or clashes
   * with it appends its row under the next number.
   */
  lemma PutAppends(rows: seq<Record>, start: int, end: int, description: string)
    requires start <= end && description != []
    requires forall i | 0 <= i < |rows| :: rows[i].id == i + 1
    requires forall r | r in rows :: !Matches(r, Span(start, end))
    requires forall r | r in rows :: r.startMillis != start && r.endMillis != end
    ensures PutOutcome(rows, Entry(Span(start, end), description)) ==
      (Success(()), rows + [Record(|rows| + 1, start, end, description)])
  {
    NumberedNextRowId(rows);
    FreeSlotInserts(rows, Entry(Span(start, end), description));
  }

  /** Storing an event that starts after every row of a numbered table ends appends its row under the next number. */
  lemma PutAfterAll(rows: seq<Record>, start: int, end: int, description: string)
    requires start <= end && description != []
    requires forall i | 0 <= i < |rows| :: rows[i].id == i + 1
    requires forall r | r in rows :: r.startMillis <= r.endMillis < start
    ensures PutOutcome(rows, Entry(Span(start, end), description)) ==
      (Success(()), rows + [Record(|rows| + 1, start, end, description)])
  {
    PutAppends(rows, start, end, description);
  }

  /** The first three addEvent calls of the test, each into the table the one before left: every one appends its row. */
  lemma CutPutsHead(outside: string, partial: string, inside: string)
    requires outside != [] && partial != [] && inside != []
    ensures PutOutcome([], Entry(Span(0, 9), outside)) == (Success(()), [Record(1, 0, 9, outside)])
    ensures PutOutcome([Record(1, 0, 9, outside)], Entry(Span(10, 19), partial)) ==
      (Success(()), [Record(1, 0, 9, outside)] + [Record(2, 10, 19, partial)])
    ensures PutOutcome([Record(1, 0, 9, outside)] + [Record(2, 10, 19, partial)], Entry(Span(20, 29), inside)) ==
      (Success(()), [Record(1, 0, 9, outside)] + [Record(2, 10, 19, partial)] + [Record(3, 20, 29, inside)])
  {
    var t1 := [Record(1, 0, 9, outside)];
    assert [] + t1 == t1;
    var t2 := t1 + [Record(2, 10, 19, partial)];
    PutAfterAll([], 0, 9, outside);
    PutAfterAll(t1, 10, 19, partial);
    PutAfterAll(t2, 20, 29, inside);
  }

  /** The last two addEvent calls of the test: each appends its row, and the table is then the test's five rows. */
  lemma CutPutsTail(outside: string, partial: string, inside: string)
    requires outside != [] && partial != [] && inside != []
    ensures PutOutcome([Record(1, 0, 9, outside)] + [Record(2, 10, 19, partial)] + [Record(3, 20, 29, inside)],
        Entry(Span(30, 39), partial)) ==
      (Success(()), [Record(1, 0, 9, outside)] + [Record(2, 10, 19, partial)] + [Record(3, 20, 29, inside)]
        + [Record(4, 30, 39, partial)])
    ensures PutOutcome([Record(1, 0, 9, outside)] + [Record(2, 10, 19, partial)] + [Record(3, 20, 29, inside)]
        + [Record(4, 30, 39, partial)], Entry(Span(40, 49), outside)) ==
      (Success(()), CutRows(outside, partial, inside))
  {
    var t3 := [Record(1, 0, 9, outside)] + [Record(2, 10, 19, partial)] + [Record(3, 20, 29, inside)];
    var t4 := t3 + [Record(4, 30, 39, partial)];
    PutAfterAll(t3, 30, 39, partial);
    PutAfterAll(t4, 40, 49, outside);
  }

  /**
   * The aggregates of [17, 36] over the test's table: "Partially inside"
   * (8 ms) ranks before "Inside" (9 ms).
   */
  lemma CutRowsAggregates(outside: string, partial: string, inside: string, aggs: seq<AggregateEvent>)
    requires partial != [] && inside != [] && partial != inside
    requires QueryResult(CutRows(outside, partial, inside), Span(17, 36), None).Success?
    requires IsAggregation(QueryResult(CutRows(outside, partial, inside), Span(17, 36), None).value, aggs)
    ensures aggs == [Aggregate(partial, [Span(17, 19), Span(30, 36)]), Aggregate(inside, [Span(20, 29)])]
    ensures TotalDuration(aggs[0].intervals) == 8 && TotalDuration(aggs[1].intervals) == 9
  {
    CutQuery(outside, partial, inside);
    AggregatesOrderedByDuration(QueryResult(CutRows(outside, partial, inside), Span(17, 36), None).value,
      partial, inside, aggs);
  }

  /**
   * The test end to end: five events stored, then the aggregates of [17, 36]
   * are the 8 ms "Partially inside" aggregate first and the 9 ms "Inside"
   * one last.
   */
  method SomeEventsInIntervalAndCut() returns (added: seq<Result<(), StoreFailure>>, r: Result<seq<AggregateEvent>, StoreFailure>)
    ensures added == [Success(()), Success(()), Success(()), Success(()), Success(())]
    ensures r == Success([Aggregate("Partially inside", [Span(17, 19), Span(30, 36)]), Aggregate("Inside", [Span(20, 29)])])
    ensures TotalDuration(r.value[0].intervals) == 8 && TotalDuration(r.value[1].intervals) == 9
  {
    var outside, partial, inside := "Outside", "Partially inside", "Inside";
    assert partial[0] != inside[0];
    var db := new Database();
    var tracker := new SqliteTracker(db);
    CutPutsHead(outside, partial, inside);
    CutPutsTail(outside, partial, inside);
    var a1 := tracker.AddEvent(0, 9, outside);
    var a2 := tracker.AddEvent(10, 19, partial);
    var a3 := tracker.AddEvent(20, 29, inside);
    var a4 := tracker.AddEvent(30, 39, partial);
    var a5 := tracker.AddEvent(40, 49, outside);
    added := [a1, a2, a3, a4, a5];
    CutQuery(outside, partial, inside);
    r := tracker.AggregateEventsInInterval(Span(17, 36));
    CutRowsAggregates(outside, partial, inside, r.value);
  }

  // ----- A compareTo tie between two descriptions in a valid table -----

  /** Each row strictly encloses the next, so the overlap check of putEvent lets every one in. */
  function TieRows(outer: string, inner: string): seq<Record> {
    [Record(1, 0, 13, outer)] + [Record(2, 5, 12, inner)] + [Record(3, 7, 11, inner)]
  }

  /** The query [10, 100) selects all three rows by their ends and cuts them to start at 10. */
  lemma TieQuery(outer: string, inner: string)
    requires outer != [] && inner != []
    ensures QueryResult(TieRows(outer, inner), Span(10, 100), None) ==
      Success({Entry(Span(10, 13), outer), Entry(Span(10, 12), inner), Entry(Span(10, 11), inner)})
  {
    var q: Interval := Span(10, 100);
    var r1, r2, r3 := Record(1, 0, 13, outer), Record(2, 5, 12, inner), Record(3, 7, 11, inner);
    assert TieRows(outer, inner) == [r1] + ([r2] + [r3]);
    FilterCons(r3, [], q);
    FilterCons(r2, [r3], q);
    FilterCons(r1, [r2] + [r3], q);
    assert ParseRow(r1, q) == Success(Entry(Span(10, 13), outer));
    assert ParseRow(r2, q) == Success(Entry(Span(10, 12), inner));
    assert ParseRow(r3, q) == Success(Entry(Span(10, 11), inner));
    QueryOfThree(TieRows(outer, inner), q, r1, r2, r3);
  }

  /** 3 ms each, both last starting at 10: compareTo gives 0 although the aggregates differ. */
  lemma TieAggregates(events: set<Event>, outer: string, inner: string)
    requires outer != [] && inner != [] && outer != inner
    requires events == {Entry(Span(10, 13), outer), Entry(Span(10, 12), inner), Entry(Span(10, 11), inner)}
    ensures Descriptions(events) == {outer, inner}
    ensures AggregateFor(events, outer) == Aggregate(outer, [Span(10, 13)])
    ensures AggregateFor(events, inner) == Aggregate(inner, [Span(10, 11), Span(10, 12)])
    ensures Compare(AggregateFor(events, outer), AggregateFor(events, inner)) == 0
    ensures !Aggregates.Equals(AggregateFor(events, outer), AggregateFor(events, inner))
  {
    var e1: Event := Entry(Span(10, 13), outer);
    var e2: Event := Entry(Span(10, 12), inner);
    var e3: Event := Entry(Span(10, 11), inner);
    assert e1 in events && e2 in events && e3 in events;
    assert Descriptions(events) == {outer, inner};
    assert IntervalsWith(events, outer) == {Span(10, 13)};
    assert IntervalsWith(events, inner) == {Span(10, 11), Span(10, 12)};
    var a: AggregateEvent := Aggregate(outer, [Span(10, 13)]);
    var b: AggregateEvent := Aggregate(inner, [Span(10, 11), Span(10, 12)]);
    AggregateForUnique(events, a);
    AggregateForUnique(events, b);
    TwoIntervalsRank(b, Span(10, 11), Span(10, 12));
    assert a.intervals[1..] == [];
  }

  /** A sequence of two tied aggregates is ascending by compareTo only if it has at most one element. */
  lemma TiedNotSorted(s: seq<AggregateEvent>, a: AggregateEvent, b: AggregateEvent)
    requires forall y | y in s :: y == a || y == b
    requires Compare(a, b) == 0
    ensures |s| > 1 ==> !RankSorted(s)
  {
    if |s| > 1 {
      assert s[0] in s && s[1] in s;
      CompareIsTotalPreorder(a, b, a);
      CompareIsTotalPreorder(b, a, b);
    }
  }

  /** Each member of an aggregation is the aggregate of its own description. */
  lemma MemberIsAggregate(events: set<Event>, aggs: seq<AggregateEvent>, y: AggregateEvent)
    requires IsAggregation(events, aggs) && y in aggs
    ensures y.description in Descriptions(events) && y == AggregateFor(events, y.description)
  {
    assert IsAggregateOf(events, y);
    AggregateForUnique(events, y);
  }

  /** The aggregation of events of two descriptions holds nothing but their two aggregates. */
  lemma OnlyTheTwo(events: set<Event>, aggs: seq<AggregateEvent>, a: AggregateEvent, b: AggregateEvent)
    requires IsAggregation(events, aggs) && Descriptions(events) == {a.description, b.description}
    requires AggregateFor(events, a.description) == a && AggregateFor(events, b.description) == b
    ensures forall y | y in aggs :: y == a || y == b
  {
    forall y | y in aggs ensures y == a || y == b {
      MemberIsAggregate(events, aggs, y);
    }
  }

  /** The aggregation of events with at least one description is not empty. */
  lemma AggregationNotEmpty(events: set<Event>, aggs: seq<AggregateEvent>, d: string)
    requires IsAggregation(events, aggs) && d in Descriptions(events)
    ensures aggs != []
  {
    var g := AggregateFor(events, d);
    var x :| x in aggs && Compare(x, g) == 0;
  }

  /** Events of two descriptions whose aggregates compare 0: the TreeSet keeps only one of them. */
  lemma TieKeepsOne(events: set<Event>, aggs: seq<AggregateEvent>, a: AggregateEvent, b: AggregateEvent)
    requires IsAggregation(events, aggs) && Descriptions(events) == {a.description, b.description}
    requires AggregateFor(events, a.description) == a && AggregateFor(events, b.description) == b
    requires Compare(a, b) == 0
    ensures |aggs| == 1
    ensures aggs[0] == a || aggs[0] == b
  {
    OnlyTheTwo(events, aggs, a, b);
    AggregationNotEmpty(events, aggs, a.description);
    TiedNotSorted(aggs, a, b);
    assert aggs[0] in aggs;
  }

  /** The three addEvent calls of the tie, each into the table the one before left: every one appends its row. */
  lemma TiePuts(outer: string, inner: string)
    requires outer != [] && inner != []
    ensures PutOutcome([], Entry(Span(0, 13), outer)) == (Success(()), [Record(1, 0, 13, outer)])
    ensures PutOutcome([Record(1, 0, 13, outer)], Entry(Span(5, 12), inner)) ==
      (Success(()), [Record(1, 0, 13, outer)] + [Record(2, 5, 12, inner)])
    ensures PutOutcome([Record(1, 0, 13, outer)] + [Record(2, 5, 12, inner)], Entry(Span(7, 11), inner)) ==
      (Success(()), TieRows(outer, inner))
  {
    var t1 := [Record(1, 0, 13, outer)];
    assert [] + t1 == t1;
    var t2 := t1 + [Record(2, 5, 12, inner)];
    PutAppends([], 0, 13, outer);
    PutAppends(t1, 5, 12, inner);
    PutAppends(t2, 7, 11, inner);
  }

  /** The aggregates of [10, 100) over the tie's table: one of the two tied aggregates, never both. */
  lemma TieRowsAggregates(outer: string, inner: string, aggs: seq<AggregateEvent>)
    requires outer != [] && inner != [] && outer != inner
    requires QueryResult(TieRows(outer, inner), Span(10, 100), None).Success?
    requires IsAggregation(QueryResult(TieRows(outer, inner), Span(10, 100), None).value, aggs)
    ensures |aggs| == 1
    ensures aggs[0] == Aggregate(outer, [Span(10, 13)]) || aggs[0] == Aggregate(inner, [Span(10, 11), Span(10, 12)])
  {
    TieQuery(outer, inner);
    var events := QueryResult(TieRows(outer, inner), Span(10, 100), None).value;
    TieAggregates(events, outer, inner);
    TieKeepsOne(events, aggs, AggregateFor(events, outer), AggregateFor(events, inner));
  }

  /**
   * Three events stored through addEvent (each accepted, as each lies inside
   * the one before), then the aggregates of [10, 100): the two descriptions
   * compare 0, so the TreeSet keeps one aggregate and drops the other.  In a
   * debug build the same comparison throws compareTo's AssertionError.
   */
  method TieThroughTracker() returns (added: seq<Result<(), StoreFailure>>, r: Result<seq<AggregateEvent>, StoreFailure>)
    ensures added == [Success(()), Success(()), Success(())]
    ensures r.Success? && |r.value| == 1
    ensures r.value[0] == Aggregate("A", [Span(10, 13)]) || r.value[0] == Aggregate("B", [Span(10, 11), Span(10, 12)])
  {
    var outer, inner := "A", "B";
    assert outer != inner;
    var db := new Database();
    var tracker := new SqliteTracker(db);
    TiePuts(outer, inner);
    var first := tracker.AddEvent(0, 13, outer);
    var second := tracker.AddEvent(5, 12, inner);
    var third := tracker.AddEvent(7, 11, inner);
    added := [first, second, third];
    TieQuery(outer, inner);
    r := tracker.AggregateEventsInInterval(Span(10, 100));
    TieRowsAggregates(outer, inner, r.value);
  }
}
