/**
 * StoreContract.java: the events table and the code that reads and writes it.
 *
 * The SQLite table is a sequence of rows held by a Database object; the SQL
 * statements become their meaning: the WHERE clause of queryEvents is the
 * predicate Matches, ORDER BY is a sort by descending start, LIMIT a prefix,
 * and the UNIQUE constraints on both bound columns decide whether an insert
 * writes a row.
 */
module StoreContract {
  import opened Wrappers
  import opened Joda
  import opened Events

  /** A row of the events table: _id, start_millis, end_millis, description. */
  datatype Record = Record(id: int, startMillis: int, endMillis: int, description: string)

  /** The faults reported as CorruptStoreError. */
  datatype Corruption =
    | BadStoredInterval   // "Bad event in database": a row whose start is after its end
    | BogusStoredEvent    // "Bogus event in database": a row with an empty description
    | InsertFailed        // "Failed to put event": the insert wrote no row

  /** What the store's operations throw. */
  datatype StoreFailure =
    | BadEvent(reason: BadEventException)
    | CorruptStore(fault: Corruption)
    | FetchedOutsideQuery  // the assertion in parseEvent: a matched row shares no instant with the query

  /** The table's constraints: _id is the primary key, start_millis and end_millis are UNIQUE. */
  predicate UniqueColumns(rows: seq<Record>) {
    forall i, j | 0 <= i < j < |rows| ::
      rows[i].id != rows[j].id && rows[i].startMillis != rows[j].startMillis && rows[i].endMillis != rows[j].endMillis
  }

  /** A new row would break a UNIQUE constraint. */
  predicate Clashes(rows: seq<Record>, startMillis: int, endMillis: int) {
    exists r | r in rows :: r.startMillis == startMillis || r.endMillis == endMillis
  }

  /**
   * The rowid SQLite gives the next row of an INTEGER PRIMARY KEY table: one
   * more than the largest, and 1 in an empty table.  Above every rowid and
   * either 1 or one past some rowid, it is the least such value.
   */
  function NextRowId(rows: seq<Record>): (id: int)
    ensures id >= 1
    ensures forall r | r in rows :: r.id < id
    ensures id == 1 || exists r | r in rows :: id == r.id + 1
  {
    if rows == [] then 1
    else
      var rest := NextRowId(rows[..|rows| - 1]);
      var last := rows[|rows| - 1];
      assert forall r | r in rows :: r in rows[..|rows| - 1] || r == last;
      assert forall r | r in rows[..|rows| - 1] :: r in rows;
      if last.id < rest then rest else last.id + 1
  }

  /** The SQLite database holding the events table. */
  class Database {
    var rows: seq<Record>

    ghost predicate Valid()
      reads this
    {
      UniqueColumns(rows)
    }

    /** A database whose events table has just been created. */
    constructor ()
      ensures Valid() && rows == []
    {
      rows := [];
    }

    /**
     * `insert`: the new row's id, or -1 when a UNIQUE constraint refuses the
     * row, in which case nothing is written.
     */
    method Insert(startMillis: int, endMillis: int, description: string) returns (rowId: int)
      requires Valid()
      modifies this
      ensures Valid()
      ensures rowId == -1 <==> Clashes(old(rows), startMillis, endMillis)
      ensures rowId == -1 ==> rows == old(rows)
      ensures rowId != -1 ==>
        rowId == NextRowId(old(rows)) && rows == old(rows) + [Record(rowId, startMillis, endMillis, description)]
    {
      if exists r | r in rows :: r.startMillis == startMillis || r.endMillis == endMillis {
        rowId := -1;
      } else {
        rowId := NextRowId(rows);
        rows := rows + [Record(rowId, startMillis, endMillis, description)];
      }
    }
  }

  /** The WHERE clause of queryEvents: the start, or else the end, lies in [q.start, q.end). */
  predicate Matches(r: Record, q: Interval) {
    (q.start <= r.startMillis < q.end) || (q.start <= r.endMillis < q.end)
  }

  /** The rows the WHERE clause selects, in table order. */
  function Filter(rows: seq<Record>, q: Interval): (s: seq<Record>)
    ensures forall r :: r in s <==> r in rows && Matches(r, q)
  {
    if rows == [] then []
    else (if Matches(rows[0], q) then [rows[0]] else []) + Filter(rows[1..], q)
  }

  /** Rows by descending start, as ORDER BY start_millis DESC lists them. */
  predicate StartDescending(s: seq<Record>) {
    forall i, j | 0 <= i < j < |s| :: s[j].startMillis <= s[i].startMillis
  }

  function InsertByStartDesc(r: Record, s: seq<Record>): seq<Record> {
    if s == [] then [r]
    else if s[0].startMillis <= r.startMillis then [r] + s
    else [s[0]] + InsertByStartDesc(r, s[1..])
  }

  function SortByStartDesc(s: seq<Record>): seq<Record> {
    if s == [] then [] else InsertByStartDesc(s[0], SortByStartDesc(s[1..]))
  }

  lemma {:induction false} InsertByStartDescElems(r: Record, s: seq<Record>)
    ensures multiset(InsertByStartDesc(r, s)) == multiset(s) + multiset{r}
  {
    if s != [] && r.startMillis < s[0].startMillis {
      assert s == [s[0]] + s[1..];
      InsertByStartDescElems(r, s[1..]);
    }
  }

  lemma {:induction false} InsertByStartDescMembers(r: Record, s: seq<Record>)
    ensures forall x :: x in InsertByStartDesc(r, s) <==> x == r || x in s
  {
    if s != [] && r.startMillis < s[0].startMillis {
      InsertByStartDescMembers(r, s[1..]);
      assert forall x :: x in s <==> x == s[0] || x in s[1..];
    }
  }

  lemma {:induction false} InsertByStartDescSpec(r: Record, s: seq<Record>)
    requires StartDescending(s)
    ensures StartDescending(InsertByStartDesc(r, s))
  {
    if s != [] && r.startMillis < s[0].startMillis {
      InsertByStartDescSpec(r, s[1..]);
      var tail := InsertByStartDesc(r, s[1..]);
      InsertByStartDescMembers(r, s[1..]);
      forall x | x in s[1..] ensures x.startMillis <= s[0].startMillis {
        var k :| 0 <= k < |s[1..]| && s[1..][k] == x;
        assert s[k + 1] == x;
      }
      var t := [s[0]] + tail;
      forall i, j | 0 <= i < j < |t| ensures t[j].startMillis <= t[i].startMillis {
        if i == 0 {
          assert t[j] in tail;
        } else {
          assert t[i] == tail[i - 1] && t[j] == tail[j - 1];
        }
      }
    }
  }

  /** The sort orders by descending start and only rearranges the rows. */
  lemma {:induction false} SortByStartDescSpec(s: seq<Record>)
    ensures StartDescending(SortByStartDesc(s))
    ensures multiset(SortByStartDesc(s)) == multiset(s)
  {
    if s != [] {
      SortByStartDescSpec(s[1..]);
      InsertByStartDescSpec(s[0], SortByStartDesc(s[1..]));
      InsertByStartDescElems(s[0], SortByStartDesc(s[1..]));
      assert s == [s[0]] + s[1..];
    }
  }

  /** LIMIT: None is Java's null, no limit. */
  function Take(s: seq<Record>, limit: Option<nat>): (t: seq<Record>)
    ensures t <= s
    ensures limit.None? ==> t == s
    ensures limit.Some? ==> |t| == Min(limit.value, |s|)
  {
    match limit
    case None => s
    case Some(n) => if n < |s| then s[..n] else s
  }

  /** The rows the SELECT statement of queryEvents returns, in cursor order. */
  function Cursor(rows: seq<Record>, q: Interval, limit: Option<nat>): seq<Record> {
    Take(SortByStartDesc(Filter(rows, q)), limit)
  }

  /**
   * `parseEvent`: the row's interval cut to the query interval, with its
   * description.  A row whose start is after its end, or whose description
   * is empty, is corrupt; a row sharing no instant with the query breaks the
   * assertion of parseEvent, which is an error outcome here.
   */
  function ParseEvent(startMillis: int, endMillis: int, description: string, q: Interval): (r: Result<Event, StoreFailure>)
    ensures r.Success? <==> startMillis <= endMillis && startMillis < q.end && q.start < endMillis && description != []
    ensures startMillis > endMillis ==> r == Failure(CorruptStore(BadStoredInterval))
    ensures startMillis <= endMillis && !(startMillis < q.end && q.start < endMillis) ==> r == Failure(FetchedOutsideQuery)
    ensures startMillis <= endMillis && startMillis < q.end && q.start < endMillis && description == [] ==>
      r == Failure(CorruptStore(BogusStoredEvent))
    ensures r.Success? ==>
      (r.value.description == description && r.value.interval == Span(Max(startMillis, q.start), Min(endMillis, q.end)))
  {
    match NewInterval(startMillis, endMillis)
    case None => Failure(CorruptStore(BadStoredInterval))
    case Some(realInterval) =>
      match Overlap(realInterval, q)
      case None => Failure(FetchedOutsideQuery)
      case Some(effectiveRange) =>
        match NewEvent(effectiveRange, description)
        case Failure(_) => Failure(CorruptStore(BogusStoredEvent))
        case Success(e) => Success(e)
  }

  function ParseRow(r: Record, q: Interval): Result<Event, StoreFailure> {
    ParseEvent(r.startMillis, r.endMillis, r.description, q)
  }

  /** A row the WHERE clause selects has no overlap exactly when it ends where the query starts. */
  lemma MatchedRowOutsideIffAbutting(r: Record, q: Interval)
    requires Matches(r, q) && r.startMillis <= r.endMillis
    ensures ParseRow(r, q) == Failure(FetchedOutsideQuery) <==> r.endMillis == q.start
  {
  }

  /** `parseEvents` over the rows of a cursor, in cursor order: the first failing row decides the error. */
  function ParseAll(cursor: seq<Record>, q: Interval): Result<set<Event>, StoreFailure> {
    if cursor == [] then Success({})
    else
      match ParseAll(cursor[..|cursor| - 1], q)
      case Failure(f) => Failure(f)
      case Success(events) =>
        match ParseRow(cursor[|cursor| - 1], q)
        case Failure(f) => Failure(f)
        case Success(e) => Success(events + {e})
  }

  /**
   * What parseEvents yields: the parsed rows when every row parses, else the
   * error of the first row that does not.
   */
  lemma {:induction false} ParseAllSpec(cursor: seq<Record>, q: Interval)
    ensures ParseAll(cursor, q).Success? <==> forall r | r in cursor :: ParseRow(r, q).Success?
    ensures ParseAll(cursor, q).Success? ==>
      forall e :: e in ParseAll(cursor, q).value <==> exists r | r in cursor :: ParseRow(r, q) == Success(e)
    ensures ParseAll(cursor, q).Failure? ==>
      exists k | 0 <= k < |cursor| :: ParseRow(cursor[k], q) == Failure(ParseAll(cursor, q).error)
        && forall j | 0 <= j < k :: ParseRow(cursor[j], q).Success?
    decreases |cursor|
  {
    if cursor != [] {
      var n := |cursor| - 1;
      var init := cursor[..n];
      ParseAllSpec(init, q);
      assert cursor == init + [cursor[n]];
      assert forall r | r in cursor :: r in init || r == cursor[n];
      if ParseAll(init, q).Failure? {
        var k :| 0 <= k < |init| && ParseRow(init[k], q) == Failure(ParseAll(init, q).error)
          && forall j | 0 <= j < k :: ParseRow(init[j], q).Success?;
        assert cursor[k] == init[k];
        assert forall j | 0 <= j < k :: cursor[j] == init[j];
      } else if ParseRow(cursor[n], q).Failure? {
        assert forall j | 0 <= j < n :: cursor[j] in init;
      }
    }
  }

  /** An error in a prefix of the cursor is the error of the whole cursor. */
  lemma {:induction false} ParseAllPrefixFailure(cursor: seq<Record>, n: nat, q: Interval)
    requires n <= |cursor| && ParseAll(cursor[..n], q).Failure?
    ensures ParseAll(cursor, q) == ParseAll(cursor[..n], q)
    decreases |cursor| - n
  {
    if n < |cursor| {
      var m := |cursor| - 1;
      assert cursor[..m][..n] == cursor[..n];
      if n < m {
        ParseAllPrefixFailure(cursor[..m], n, q);
      }
      assert cursor[..m] == cursor[..m];
    } else {
      assert cursor[..n] == cursor;
    }
  }

  /** `parseEvents`: the do-while loop over the cursor adding each parsed event to a HashSet. */
  method ParseEvents(cursor: seq<Record>, q: Interval) returns (r: Result<set<Event>, StoreFailure>)
    ensures r == ParseAll(cursor, q)
  {
    var events: set<Event> := {};
    var k := 0;
    while k < |cursor|
      invariant 0 <= k <= |cursor|
      invariant ParseAll(cursor[..k], q) == Success(events)
    {
      var row := cursor[k];
      var parsed := ParseEvent(row.startMillis, row.endMillis, row.description, q);
      assert cursor[..k + 1][..k] == cursor[..k];
      if parsed.Failure? {
        ParseAllPrefixFailure(cursor, k + 1, q);
        return Failure(parsed.error);
      }
      events := events + {parsed.value};
      k := k + 1;
    }
    assert cursor[..k] == cursor;
    r := Success(events);
  }

  /** What queryEvents returns for a table, a query interval and a limit. */
  function QueryResult(rows: seq<Record>, q: Interval, limit: Option<nat>): Result<set<Event>, StoreFailure> {
    ParseAll(Cursor(rows, q, limit), q)
  }

  /** `queryEvents`: run the SELECT and parse its cursor. */
  method QueryEvents(db: Database, q: Interval, limit: Option<nat>) returns (r: Result<set<Event>, StoreFailure>)
    ensures r == QueryResult(db.rows, q, limit)
  {
    var cursor := Cursor(db.rows, q, limit);
    r := ParseEvents(cursor, q);
  }

  /** The cursor holds matching rows only, by descending start; without a limit it holds all of them. */
  lemma CursorSpec(rows: seq<Record>, q: Interval, limit: Option<nat>)
    ensures StartDescending(Cursor(rows, q, limit))
    ensures forall r | r in Cursor(rows, q, limit) :: r in rows && Matches(r, q)
    ensures limit.None? ==> forall r | r in rows && Matches(r, q) :: r in Cursor(rows, q, limit)
    ensures limit.Some? ==> |Cursor(rows, q, limit)| == Min(limit.value, |Filter(rows, q)|)
  {
    var sorted := SortByStartDesc(Filter(rows, q));
    SortByStartDescSpec(Filter(rows, q));
    var c := Cursor(rows, q, limit);
    assert |sorted| == |Filter(rows, q)| by {
      assert |multiset(sorted)| == |multiset(Filter(rows, q))|;
    }
    forall r | r in c ensures r in rows && Matches(r, q) {
      assert r in sorted;
      assert r in multiset(sorted);
    }
    if limit.None? {
      forall r | r in rows && Matches(r, q) ensures r in c {
        assert r in multiset(Filter(rows, q));
      }
    }
    forall i, j | 0 <= i < j < |c| ensures c[j].startMillis <= c[i].startMillis {
      assert c[i] == sorted[i] && c[j] == sorted[j];
    }
  }

  /**
   * queryEvents without a limit returns exactly the matching rows, each cut
   * to the query interval.  A row that encloses the whole query matches
   * neither arm of the WHERE clause and is not returned.
   */
  lemma QueryReturnsMatchingRows(rows: seq<Record>, q: Interval)
    ensures QueryResult(rows, q, None).Success? <==> forall r | r in rows && Matches(r, q) :: ParseRow(r, q).Success?
    ensures QueryResult(rows, q, None).Success? ==>
      forall e :: e in QueryResult(rows, q, None).value <==> exists r | r in rows :: Matches(r, q) && ParseRow(r, q) == Success(e)
    ensures forall r | r in rows && r.startMillis < q.start && q.end <= r.endMillis :: !Matches(r, q)
  {
    CursorSpec(rows, q, None);
    ParseAllSpec(Cursor(rows, q, None), q);
  }

  /** With a limit n, the cursor holds n matching rows (or all, if fewer) with the greatest starts. */
  lemma LimitKeepsGreatestStarts(rows: seq<Record>, q: Interval, n: nat)
    ensures |Cursor(rows, q, Some(n))| == Min(n, |Filter(rows, q)|)
    ensures forall x, y | x in Cursor(rows, q, Some(n)) && y in rows && Matches(y, q) && y !in Cursor(rows, q, Some(n)) ::
      y.startMillis <= x.startMillis
  {
    CursorSpec(rows, q, Some(n));
    var sorted := SortByStartDesc(Filter(rows, q));
    SortByStartDescSpec(Filter(rows, q));
    var c := Cursor(rows, q, Some(n));
    forall x, y | x in c && y in rows && Matches(y, q) && y !in c ensures y.startMillis <= x.startMillis {
      assert y in multiset(Filter(rows, q));
      assert y in multiset(sorted);
      var j :| 0 <= j < |sorted| && sorted[j] == y;
      var i :| 0 <= i < |c| && c[i] == x;
      assert c == sorted[..|c|];
      assert j >= |c|;
      assert sorted[i] == x;
    }
  }

  /** A corrupt row reached by the cursor makes the whole query fail. */
  lemma CorruptRowFailsQuery(rows: seq<Record>, q: Interval, limit: Option<nat>, r: Record)
    requires r in Cursor(rows, q, limit)
    requires r.startMillis > r.endMillis || r.description == [] || r.endMillis == q.start
    ensures QueryResult(rows, q, limit).Failure?
  {
    CursorSpec(rows, q, limit);
    ParseAllSpec(Cursor(rows, q, limit), q);
    assert ParseRow(r, q).Failure?;
  }

  /**
   * Distinct rows of a table that keeps its UNIQUE constraints are cut to
   * distinct events, so the debug assertion of parseEvents against duplicate
   * events never fires.
   */
  lemma ParsedRowsDistinct(rows: seq<Record>, q: Interval, i: nat, j: nat)
    requires UniqueColumns(rows) && i < j < |rows|
    requires Matches(rows[i], q) && Matches(rows[j], q)
    requires ParseRow(rows[i], q).Success? && ParseRow(rows[j], q).Success?
    ensures ParseRow(rows[i], q).value != ParseRow(rows[j], q).value
  {
  }

  /** A limit of 1 yields at most one event: the cut most recent matching row. */
  lemma LimitOneYieldsAtMostOne(rows: seq<Record>, q: Interval)
    requires QueryResult(rows, q, Some(1)).Success?
    ensures var found := QueryResult(rows, q, Some(1)).value;
      (found == {} <==> forall r | r in rows :: !Matches(r, q))
      && (found != {} ==> exists r | r in rows && Matches(r, q) ::
            ParseRow(r, q).Success? && found == {ParseRow(r, q).value}
            && forall r' | r' in rows && Matches(r', q) :: r'.startMillis <= r.startMillis)
  {
    var c := Cursor(rows, q, Some(1));
    CursorSpec(rows, q, Some(1));
    LimitKeepsGreatestStarts(rows, q, 1);
    if |c| == 0 {
      assert |Filter(rows, q)| == 0;
    } else {
      assert c == [c[0]] && c[..0] == [];
      var r := c[0];
      assert r in c;
      ParseAllSpec(c, q);
      assert ParseAll(c[..0], q) == Success({});
      assert ParseAll(c, q) == Success({} + {ParseRow(r, q).value});
      forall r' | r' in rows && Matches(r', q) ensures r'.startMillis <= r.startMillis {
        if r' !in c {
        } else {
          assert r' == r;
        }
      }
    }
  }

  /**
   * What putEvent does to a table: the overlap check with queryEvents(event,
   * 1), then the insert; any failure rolls the transaction back and leaves
   * the table as it was.
   */
  ghost function PutOutcome(rows: seq<Record>, event: Event): (Result<(), StoreFailure>, seq<Record>) {
    match QueryResult(rows, event.interval, Some(1))
    case Failure(f) => (Failure(f), rows)
    case Success(overlapping) =>
      if overlapping != {} then
        var other :| other in overlapping;
        (Failure(BadEvent(WouldOverlap(other))), rows)
      else if Clashes(rows, Start(event), End(event)) then
        (Failure(CorruptStore(InsertFailed)), rows)
      else
        (Success(()), rows + [Record(NextRowId(rows), Start(event), End(event), event.description)])
  }

  /** `putEvent`, inside its transaction. */
  method PutEvent(db: Database, event: Event) returns (r: Result<(), StoreFailure>)
    requires db.Valid()
    modifies db
    ensures db.Valid()
    ensures (r, db.rows) == PutOutcome(old(db.rows), event)
  {
    var overlapping := QueryEvents(db, event.interval, Some(1));
    if overlapping.Failure? {
      return Failure(overlapping.error);
    }
    if overlapping.value != {} {
      LimitOneYieldsAtMostOne(db.rows, event.interval);
      var other :| other in overlapping.value;
      return Failure(BadEvent(WouldOverlap(other)));
    }
    var rowId := db.Insert(Start(event), End(event), event.description);
    if rowId == -1 {
      return Failure(CorruptStore(InsertFailed));
    }
    r := Success(());
  }

  /** Any stored row matching the new interval blocks the insert and leaves the table unchanged. */
  lemma MatchBlocksPut(rows: seq<Record>, event: Event, r: Record)
    requires r in rows && Matches(r, event.interval)
    ensures PutOutcome(rows, event).0.Failure? && PutOutcome(rows, event).1 == rows
  {
    if QueryResult(rows, event.interval, Some(1)).Success? {
      LimitOneYieldsAtMostOne(rows, event.interval);
    }
  }

  /** With no matching row and no UNIQUE clash, putEvent appends exactly one row and nothing else. */
  lemma FreeSlotInserts(rows: seq<Record>, event: Event)
    requires forall r | r in rows :: !Matches(r, event.interval)
    requires !Clashes(rows, Start(event), End(event))
    ensures PutOutcome(rows, event) ==
      (Success(()), rows + [Record(NextRowId(rows), Start(event), End(event), event.description)])
  {
    var c := Cursor(rows, event.interval, Some(1));
    CursorSpec(rows, event.interval, Some(1));
    assert |c| == 0;
  }

  /**
   * What the overlap check guarantees after a successful putEvent of [s, e]:
   * no stored row shares its start or its end, and every well-formed stored
   * row ends before s, starts at or after e, or strictly encloses [s, e].  The
   * last case is the gap of the WHERE clause: there is no global
   * no-overlap invariant.
   */
  lemma PutGuarantee(rows: seq<Record>, event: Event)
    requires PutOutcome(rows, event).0.Success?
    ensures forall r | r in rows :: r.startMillis != Start(event) && r.endMillis != End(event)
    ensures forall r | r in rows && r.startMillis <= r.endMillis ::
      r.endMillis < Start(event) || End(event) <= r.startMillis
      || (r.startMillis < Start(event) && End(event) < r.endMillis)
  {
    LimitOneYieldsAtMostOne(rows, event.interval);
  }

  /** A stored row that strictly encloses the new event does not stop the insert. */
  lemma EnclosedInsertAccepted()
    ensures var rows := [Record(1, 0, 100, "A")];
      var event: Event := Entry(Span(10, 20), "B");
      PutOutcome(rows, event) == (Success(()), rows + [Record(2, 10, 20, "B")])
  {
    var rows := [Record(1, 0, 100, "A")];
    var event: Event := Entry(Span(10, 20), "B");
    assert !Matches(rows[0], event.interval);
    FreeSlotInserts(rows, event);
    assert NextRowId(rows) == 2 by {
      assert rows[..0] == [];
    }
  }

  /**
   * A row ending where the new event starts is matched by the overlap check
   * but has no overlap with it, so putEvent fails with the parseEvent error;
   * a row starting where the new event ends is not matched at all.
   */
  lemma AbuttingInserts()
    ensures var rows := [Record(1, 0, 10, "A")];
      PutOutcome(rows, Entry(Span(10, 20), "B")) == (Failure(FetchedOutsideQuery), rows)
    ensures var rows := [Record(1, 0, 10, "A")];
      PutOutcome(rows, Entry(Span(-5, 0), "B")) == (Success(()), rows + [Record(2, -5, 0, "B")])
  {
    var rows := [Record(1, 0, 10, "A")];
    assert NextRowId(rows) == 2 by {
      assert rows[..0] == [];
    }
    var q: Interval := Span(10, 20);
    assert Filter(rows, q) == [rows[0]];
    assert SortByStartDesc([rows[0]]) == [rows[0]];
    assert Cursor(rows, q, Some(1)) == [rows[0]];
    assert [rows[0]][..0] == [];
    FreeSlotInserts(rows, Entry(Span(-5, 0), "B"));
  }

  /**
   * A zero-length event at an existing row's start matches nothing, so the
   * insert is attempted and refused by UNIQUE(start_millis): CorruptStoreError.
   */
  lemma UniqueClashIsCorruption()
    ensures var rows := [Record(1, 5, 8, "A")];
      PutOutcome(rows, Entry(Span(5, 5), "B")) == (Failure(CorruptStore(InsertFailed)), rows)
  {
    var rows := [Record(1, 5, 8, "A")];
    var q: Interval := Span(5, 5);
    assert Filter(rows, q) == [];
    assert Clashes(rows, 5, 5) by {
      assert rows[0] in rows;
    }
  }
}
