/**
 * AggregateEvent.java: the same activity spread over several intervals.
 *
 * The Java class keeps a TreeMap from Key (start, duration) to Interval.  The
 * key is a function of the interval and different intervals have different
 * keys, so the map is exactly the sequence of its values in ascending key
 * order; that sequence is what an AggregateEvent holds here.
 */
module Aggregates {
  import opened Wrappers
  import opened Joda
  import opened Events

  /** AggregateEvent.Key: the start and the duration of an interval. */
  datatype Key = Key(start: int, duration: int)

  /** `new Key(interval)`. */
  function KeyOf(i: Interval): (k: Key)
    ensures k.start == i.start && k.start + k.duration == i.end
  {
    Key(i.start, DurationOf(i))
  }

  /** An interval is determined by its key, so a TreeMap entry's key never hides a different value. */
  lemma KeyOfInjective(a: Interval, b: Interval)
    ensures KeyOf(a) == KeyOf(b) <==> a == b
  {
  }

  /** Joda's `compareTo` on instants and durations: -1, 0 or 1. */
  function CompareInts(a: int, b: int): (r: int)
    ensures r == -1 <==> a < b
    ensures r == 0 <==> a == b
    ensures r == 1 <==> a > b
  {
    if a < b then -1 else if a == b then 0 else 1
  }

  /** Key.compareTo: ascending start time, then growing duration. */
  function KeyCompare(a: Key, b: Key): (r: int)
    ensures r == 0 <==> a == b
    ensures r == -1 <==> a.start < b.start || (a.start == b.start && a.duration < b.duration)
    ensures r == 1 <==> b.start < a.start || (a.start == b.start && b.duration < a.duration)
  {
    if a.start < b.start then -1
    else if a.start == b.start then CompareInts(a.duration, b.duration)
    else 1
  }

  /** Interval a sorts before interval b in the TreeMap. */
  predicate KeyLess(a: Interval, b: Interval) {
    KeyCompare(KeyOf(a), KeyOf(b)) == -1
  }

  /** The key order is a strict total order on intervals. */
  lemma KeyLessIsStrictOrder(a: Interval, b: Interval, c: Interval)
    ensures !KeyLess(a, a)
    ensures KeyLess(a, b) ==> !KeyLess(b, a)
    ensures a != b ==> KeyLess(a, b) || KeyLess(b, a)
    ensures KeyLess(a, b) && KeyLess(b, c) ==> KeyLess(a, c)
  {
  }

  /** Intervals in strictly ascending key order: a TreeMap's values() as a sequence. */
  predicate StrictlyKeySorted(s: seq<Interval>) {
    forall i, j | 0 <= i < j < |s| :: KeyLess(s[i], s[j])
  }

  /** The values held by a map given as its sequence of values. */
  function Elems(s: seq<Interval>): set<Interval> {
    set i | i in s
  }

  /** The fields of an AggregateEvent, before the builder's guarantees. */
  datatype Aggregate = Aggregate(description: string, intervals: seq<Interval>)

  /**
   * An AggregateEvent: built from at least one event, so its map is never
   * empty, and its intervals are in key order.
   */
  type AggregateEvent = a: Aggregate | a.intervals != [] && StrictlyKeySorted(a.intervals)
    witness Aggregate("?", [Span(0, 0)])

  /** `intervals.containsKey(key)`. */
  predicate ContainsKey(m: seq<Interval>, k: Key) {
    exists i | i in m :: KeyOf(i) == k
  }

  /** TreeMap.put(KeyOf(i), i): insert at the key's place, or replace the entry with the same key. */
  function Put(m: seq<Interval>, i: Interval): seq<Interval>
  {
    if m == [] then [i]
    else
      var c := KeyCompare(KeyOf(i), KeyOf(m[0]));
      if c == 0 then [i] + m[1..]
      else if c == -1 then [i] + m
      else [m[0]] + Put(m[1..], i)
  }

  /** `containsKey(KeyOf(i))` holds exactly when the interval itself is a value of the map. */
  lemma ContainsKeyIff(m: seq<Interval>, i: Interval)
    ensures ContainsKey(m, KeyOf(i)) <==> i in m
  {
    if ContainsKey(m, KeyOf(i)) {
      var x :| x in m && KeyOf(x) == KeyOf(i);
      KeyOfInjective(x, i);
    }
  }

  lemma ElemsCons(x: Interval, s: seq<Interval>)
    ensures Elems([x] + s) == {x} + Elems(s)
  {
    assert forall y | y in [x] + s :: y == x || y in s;
  }

  /** `put` adds exactly the new interval to the map's values. */
  lemma {:induction false} PutElems(m: seq<Interval>, i: Interval)
    ensures Elems(Put(m, i)) == Elems(m) + {i}
    ensures i !in m ==> |Put(m, i)| == |m| + 1
  {
    if m != [] {
      var c := KeyCompare(KeyOf(i), KeyOf(m[0]));
      assert m == [m[0]] + m[1..];
      ElemsCons(m[0], m[1..]);
      if c == 0 {
        assert i == m[0];
        ElemsCons(i, m[1..]);
      } else if c == -1 {
        ElemsCons(i, m);
      } else {
        PutElems(m[1..], i);
        ElemsCons(m[0], Put(m[1..], i));
      }
    }
  }

  /** The first of a key-ordered sequence sorts before all the others. */
  lemma HeadIsLeast(m: seq<Interval>, x: Interval)
    requires StrictlyKeySorted(m) && m != []
    requires x in m[1..]
    ensures KeyLess(m[0], x)
  {
    var q :| 0 <= q < |m[1..]| && m[1..][q] == x;
    assert m[q + 1] == x;
  }

  /** `put` keeps the map in key order. */
  lemma {:induction false} PutSorted(m: seq<Interval>, i: Interval)
    requires StrictlyKeySorted(m)
    ensures StrictlyKeySorted(Put(m, i))
  {
    if m != [] {
      var c := KeyCompare(KeyOf(i), KeyOf(m[0]));
      if c == 0 {
        assert i == m[0];
        assert [i] + m[1..] == m;
      } else if c == -1 {
        var r := [i] + m;
        forall p, q | 0 <= p < q < |r| ensures KeyLess(r[p], r[q]) {
          if p == 0 {
            KeyLessIsStrictOrder(i, m[0], m[q - 1]);
          }
        }
      } else {
        PutSorted(m[1..], i);
        PutElems(m[1..], i);
        var tail := Put(m[1..], i);
        var r := [m[0]] + tail;
        forall p, q | 0 <= p < q < |r| ensures KeyLess(r[p], r[q]) {
          if p == 0 {
            assert r[q] in Elems(tail);
            if r[q] != i {
              HeadIsLeast(m, r[q]);
            }
          } else {
            assert r[p] == tail[p - 1] && r[q] == tail[q - 1];
          }
        }
      }
    }
  }

  /** An interval whose key is already present collapses into its entry: the map is unchanged. */
  lemma {:induction false} PutPresent(m: seq<Interval>, i: Interval)
    requires StrictlyKeySorted(m) && i in m
    ensures Put(m, i) == m
  {
    var c := KeyCompare(KeyOf(i), KeyOf(m[0]));
    if c == 0 {
      assert i == m[0];
      assert [i] + m[1..] == m;
    } else if c == -1 {
      if i != m[0] {
        HeadIsLeast(m, i);
        KeyLessIsStrictOrder(i, m[0], i);
      }
      assert false;
    } else {
      assert i != m[0] && m == [m[0]] + m[1..];
      PutPresent(m[1..], i);
    }
  }

  /**
   * `put` keeps the map ordered, adds exactly the new interval, and an
   * interval whose key is already present collapses into its entry.
   */
  lemma PutKeepsOrder(m: seq<Interval>, i: Interval)
    requires StrictlyKeySorted(m)
    ensures StrictlyKeySorted(Put(m, i))
    ensures Elems(Put(m, i)) == Elems(m) + {i}
    ensures ContainsKey(m, KeyOf(i)) <==> i in m
    ensures i in m ==> Put(m, i) == m
    ensures i !in m ==> |Put(m, i)| == |m| + 1
  {
    PutSorted(m, i);
    PutElems(m, i);
    ContainsKeyIff(m, i);
    if i in m {
      PutPresent(m, i);
    }
  }

  lemma ElemsEmpty(t: seq<Interval>)
    ensures Elems(t) == {} ==> t == []
  {
    if t != [] {
      assert t[0] in Elems(t);
    }
  }

  /** Two key-ordered sequences with the same values are equal: the order is fixed by the keys. */
  lemma {:induction false} SortedUnique(s: seq<Interval>, t: seq<Interval>)
    requires StrictlyKeySorted(s) && StrictlyKeySorted(t)
    requires Elems(s) == Elems(t)
    ensures s == t
  {
    if s == [] {
      ElemsEmpty(t);
    } else {
      assert s[0] in Elems(t);
      assert t != [];
      assert t[0] in Elems(s);
      var p :| 0 <= p < |t| && t[p] == s[0];
      var q :| 0 <= q < |s| && s[q] == t[0];
      assert p == 0 || KeyLess(t[0], s[0]);
      assert q == 0 || KeyLess(s[0], t[0]);
      KeyLessIsStrictOrder(s[0], t[0], s[0]);
      assert Elems(s[1..]) == Elems(t[1..]) by {
        forall x | x in Elems(s[1..]) ensures x in Elems(t[1..]) {
          var a :| 0 <= a < |s[1..]| && s[1..][a] == x;
          assert s[a + 1] == x && x != s[0];
          assert x in Elems(t);
          var b :| 0 <= b < |t| && t[b] == x;
          assert b != 0;
          assert t[1..][b - 1] == x;
        }
        forall x | x in Elems(t[1..]) ensures x in Elems(s[1..]) {
          var a :| 0 <= a < |t[1..]| && t[1..][a] == x;
          assert t[a + 1] == x && x != t[0];
          assert x in Elems(s);
          var b :| 0 <= b < |s| && s[b] == x;
          assert b != 0;
          assert s[1..][b - 1] == x;
        }
      }
      SortedUnique(s[1..], t[1..]);
      assert s == [s[0]] + s[1..] && t == [t[0]] + t[1..];
    }
  }

  /** Every finite set of intervals has a key-ordered sequence holding exactly it. */
  ghost function SortedOf(S: set<Interval>): (s: seq<Interval>)
    ensures StrictlyKeySorted(s) && Elems(s) == S
    decreases |S|
  {
    if S == {} then []
    else
      var x :| x in S;
      var rest := SortedOf(S - {x});
      PutKeepsOrder(rest, x);
      Put(rest, x)
  }

  /** Sum of the interval durations, in map order. */
  function TotalDuration(s: seq<Interval>): (d: int)
    ensures d >= 0
  {
    if s == [] then 0 else DurationOf(s[0]) + TotalDuration(s[1..])
  }

  lemma {:induction false} TotalDurationConcat(a: seq<Interval>, b: seq<Interval>)
    ensures TotalDuration(a + b) == TotalDuration(a) + TotalDuration(b)
  {
    if a != [] {
      assert (a + b)[0] == a[0] && (a + b)[1..] == a[1..] + b;
      TotalDurationConcat(a[1..], b);
    } else {
      assert a + b == b;
    }
  }

  /** Putting a new interval adds its duration to the total; a collapsed one adds nothing. */
  lemma {:induction false} PutDuration(m: seq<Interval>, i: Interval)
    requires StrictlyKeySorted(m)
    ensures TotalDuration(Put(m, i)) == TotalDuration(m) + (if i in m then 0 else DurationOf(i))
  {
    PutKeepsOrder(m, i);
    if m != [] && i !in m {
      var c := KeyCompare(KeyOf(i), KeyOf(m[0]));
      if c == -1 {
        assert ([i] + m)[1..] == m;
      } else {
        assert c == 1;
        assert m[1..] == m[1..];
        assert i !in m[1..];
        assert StrictlyKeySorted(m[1..]);
        PutDuration(m[1..], i);
        assert ([m[0]] + Put(m[1..], i))[1..] == Put(m[1..], i);
      }
    }
  }

  /** The durations of a list of events added up, in list order. */
  function SumOfDurations(events: seq<Event>): (d: int)
    ensures d >= 0
  {
    if events == [] then 0 else SumOfDurations(events[..|events| - 1]) + DurationOf(events[|events| - 1].interval)
  }

  /** The intervals of a list of events. */
  function IntervalsOf(events: seq<Event>): set<Interval> {
    set e | e in events :: e.interval
  }

  /** Two events of the list have the same interval, hence the same key. */
  predicate HasDuplicate(events: seq<Event>) {
    exists i, j | 0 <= i < j < |events| :: events[i].interval == events[j].interval
  }

  /** Extending a list by one event adds a duplicate exactly when its interval was already there. */
  lemma HasDuplicateSnoc(events: seq<Event>, e: Event)
    ensures HasDuplicate(events + [e]) <==> HasDuplicate(events) || e.interval in IntervalsOf(events)
  {
    var s := events + [e];
    if HasDuplicate(s) && !HasDuplicate(events) {
      var i, j :| 0 <= i < j < |s| && s[i].interval == s[j].interval;
      assert j == |events|;
      assert events[i] in events;
    }
    if e.interval in IntervalsOf(events) {
      var x :| x in events && x.interval == e.interval;
      var i :| 0 <= i < |events| && events[i] == x;
      assert s[i].interval == s[|events|].interval;
    }
    if HasDuplicate(events) {
      var i, j :| 0 <= i < j < |events| && events[i].interval == events[j].interval;
      assert s[i].interval == s[j].interval;
    }
  }

  /** One turn of the loop in `build`: the map, the duplicate flag and the total follow the prefix. */
  lemma BuildStep(events: seq<Event>, k: nat, m: seq<Interval>, dup: bool)
    requires k < |events|
    requires StrictlyKeySorted(m) && Elems(m) == IntervalsOf(events[..k])
    requires dup <==> HasDuplicate(events[..k])
    requires !dup ==> TotalDuration(m) == SumOfDurations(events[..k])
    ensures var iv := events[k].interval;
      var m' := Put(m, iv);
      var dup' := dup || ContainsKey(m, KeyOf(iv));
      && StrictlyKeySorted(m') && Elems(m') == IntervalsOf(events[..k + 1])
      && (dup' <==> HasDuplicate(events[..k + 1]))
      && (!dup' ==> TotalDuration(m') == SumOfDurations(events[..k + 1]))
  {
    var iv := events[k].interval;
    PutKeepsOrder(m, iv);
    PutDuration(m, iv);
    assert events[..k + 1] == events[..k] + [events[k]];
    assert events[..k + 1][..k] == events[..k];
    HasDuplicateSnoc(events[..k], events[k]);
    assert IntervalsOf(events[..k + 1]) == IntervalsOf(events[..k]) + {iv};
  }

  /** AggregateEvent.Builder: collects the events of one description. */
  class Builder {
    /** The LinkedList of events accumulated so far; the first fixes the description. */
    var events: seq<Event>

    /** A builder always holds its first event. */
    ghost predicate Valid()
      reads this
    {
      events != []
    }

    /** `new Builder(first)`. */
    constructor (first: Event)
      ensures Valid() && events == [first]
    {
      events := [first];
    }

    /**
     * `accumulate(other)`.  A debug build (`debug`) throws AssertionError for
     * an event of another description and adds nothing (`accepted` is
     * false); a release build adds any event.
     */
    method Accumulate(other: Event, debug: bool) returns (accepted: bool)
      requires Valid()
      modifies this
      ensures Valid()
      ensures accepted <==> !debug || other.description == old(events)[0].description
      ensures accepted ==> events == old(events) + [other]
      ensures !accepted ==> events == old(events)
    {
      if debug && other.description != events[0].description {
        return false;
      }
      events := events + [other];
      accepted := true;
    }

    /**
     * `build()`: an aggregate with the first event's description and exactly
     * the accumulated intervals, in key order.  The builder is not changed, so
     * it can go on accumulating.  `duplicateKey` tells whether two accumulated
     * events share a key, which makes a debug build throw AssertionError; a
     * release build keeps one entry for them.
     */
    method Build() returns (agg: AggregateEvent, duplicateKey: bool)
      requires Valid()
      ensures agg.description == events[0].description
      ensures Elems(agg.intervals) == IntervalsOf(events)
      ensures duplicateKey <==> HasDuplicate(events)
      ensures !duplicateKey ==> TotalDuration(agg.intervals) == SumOfDurations(events)
    {
      var m: seq<Interval> := [];
      duplicateKey := false;
      var k := 0;
      while k < |events|
        invariant 0 <= k <= |events|
        invariant StrictlyKeySorted(m)
        invariant Elems(m) == IntervalsOf(events[..k])
        invariant duplicateKey <==> HasDuplicate(events[..k])
        invariant !duplicateKey ==> TotalDuration(m) == SumOfDurations(events[..k])
      {
        var iv := events[k].interval;
        BuildStep(events, k, m, duplicateKey);
        if ContainsKey(m, KeyOf(iv)) {
          duplicateKey := true;
        }
        m := Put(m, iv);
        k := k + 1;
      }
      assert events[..k] == events;
      assert events[0].interval in Elems(m);
      agg := Aggregate(events[0].description, m);
    }
  }

  /** `getIntervals()`: the intervals by ascending start, equal starts by ascending duration. */
  function GetIntervals(a: AggregateEvent): (r: seq<Interval>)
    ensures forall i, j | 0 <= i < j < |r| ::
      r[i].start < r[j].start || (r[i].start == r[j].start && DurationOf(r[i]) < DurationOf(r[j]))
  {
    a.intervals
  }

  /** `toDuration()`: the loop adding up the durations of the map's values. */
  method ToDuration(a: AggregateEvent) returns (d: int)
    ensures d == TotalDuration(a.intervals)
  {
    d := 0;
    var k := 0;
    while k < |a.intervals|
      invariant 0 <= k <= |a.intervals|
      invariant d == TotalDuration(a.intervals[..k])
    {
      assert a.intervals[..k + 1] == a.intervals[..k] + [a.intervals[k]];
      TotalDurationConcat(a.intervals[..k], [a.intervals[k]]);
      d := d + DurationOf(a.intervals[k]);
      k := k + 1;
    }
    assert a.intervals[..k] == a.intervals;
  }

  /** `latestStart()`: the start of the entry with the last key, the greatest start of all. */
  function LatestStart(a: AggregateEvent): (t: int)
    ensures forall i | i in a.intervals :: i.start <= t
    ensures exists i | i in a.intervals :: i.start == t
  {
    var n := |a.intervals|;
    assert forall j | 0 <= j < n - 1 :: KeyLess(a.intervals[j], a.intervals[n - 1]);
    a.intervals[n - 1].start
  }

  /** The pair compareTo ranks by: total duration, then latest start. */
  function Rank(a: AggregateEvent): (int, int) {
    (TotalDuration(a.intervals), LatestStart(a))
  }

  /**
   * `compareTo`: -1 when shorter, 1 when longer and, on equal durations, the
   * comparison of the latest starts, so that the most recent activity wins a
   * draw.
   */
  function Compare(a: AggregateEvent, b: AggregateEvent): (r: int)
    ensures r == -1 <==> (TotalDuration(a.intervals) < TotalDuration(b.intervals)
      || (TotalDuration(a.intervals) == TotalDuration(b.intervals) && LatestStart(a) < LatestStart(b)))
    ensures r == 1 <==> (TotalDuration(b.intervals) < TotalDuration(a.intervals)
      || (TotalDuration(a.intervals) == TotalDuration(b.intervals) && LatestStart(b) < LatestStart(a)))
    ensures r == 0 <==> Rank(a) == Rank(b)
  {
    var duration := TotalDuration(a.intervals);
    var otherDuration := TotalDuration(b.intervals);
    if duration < otherDuration then -1
    else if duration == otherDuration then CompareInts(LatestStart(a), LatestStart(b))
    else 1
  }

  /** compareTo is a total preorder: antisymmetric, transitive, and 0 exactly on equal ranks. */
  lemma CompareIsTotalPreorder(a: AggregateEvent, b: AggregateEvent, c: AggregateEvent)
    ensures Compare(a, b) == -Compare(b, a)
    ensures Compare(a, a) == 0
    ensures Compare(a, b) <= 0 && Compare(b, c) <= 0 ==> Compare(a, c) <= 0
    ensures Compare(a, b) == -1 && Compare(b, c) <= 0 ==> Compare(a, c) == -1
    ensures Compare(a, b) <= 0 && Compare(b, c) == -1 ==> Compare(a, c) == -1
    ensures Compare(a, b) == 0 ==> Compare(a, c) == Compare(b, c)
  {
  }

  /** `equals`: same description and equal interval maps. */
  predicate Equals(a: AggregateEvent, b: AggregateEvent) {
    a.description == b.description && a.intervals == b.intervals
  }

  /** Equal maps mean the same set of intervals, whatever order they were accumulated in. */
  lemma EqualsIffSameIntervals(a: AggregateEvent, b: AggregateEvent)
    ensures Equals(a, b) <==> a.description == b.description && Elems(a.intervals) == Elems(b.intervals)
    ensures Equals(a, b) <==> a == b
  {
    if Elems(a.intervals) == Elems(b.intervals) {
      SortedUnique(a.intervals, b.intervals);
    }
  }

  /** Equal aggregates compare 0, as compareTo's consistency with equals demands. */
  lemma EqualsImpliesCompareZero(a: AggregateEvent, b: AggregateEvent)
    requires Equals(a, b)
    ensures Compare(a, b) == 0
  {
  }

  /**
   * The converse fails: compareTo returns 0 for two different aggregates of
   * the same duration and latest start, so the debug assertion in compareTo can
   * fire.
   */
  lemma CompareZeroWithoutEquals()
    ensures var a: AggregateEvent := Aggregate("A", [Span(10, 19)]);
      var b: AggregateEvent := Aggregate("B", [Span(10, 14), Span(10, 15)]);
      Compare(a, b) == 0 && !Equals(a, b)
  {
    var a: AggregateEvent := Aggregate("A", [Span(10, 19)]);
    var b: AggregateEvent := Aggregate("B", [Span(10, 14), Span(10, 15)]);
    assert TotalDuration(a.intervals) == 9;
    assert TotalDuration(b.intervals) == 9;
  }

  /**
   * AggregateEventTest.testBuilderAndGetters: building does not consume the
   * builder; accumulating more and building again includes all the events.
   */
  method BuilderReuse(first: Event, second: Event, third: Event) returns (before: AggregateEvent, after: AggregateEvent)
    requires second.description == first.description && third.description == first.description
    ensures before.description == first.description && after.description == first.description
    ensures Elems(before.intervals) == {first.interval}
    ensures Elems(after.intervals) == {first.interval, second.interval, third.interval}
  {
    var builder := new Builder(first);
    var dup;
    before, dup := builder.Build();
    var accepted := builder.Accumulate(second, true);
    accepted := builder.Accumulate(third, true);
    after, dup := builder.Build();
    assert builder.events == [first, second, third];
  }

  /** AggregateEventTest.testGetIntervals_Sorted: the accumulation order does not matter. */
  lemma GetIntervalsSortedExample(a: AggregateEvent)
    requires Elems(a.intervals) == {Span(10, 30), Span(50, 51), Span(10, 20), Span(30, 40)}
    ensures GetIntervals(a) == [Span(10, 20), Span(10, 30), Span(30, 40), Span(50, 51)]
  {
    var expected: seq<Interval> := [Span(10, 20), Span(10, 30), Span(30, 40), Span(50, 51)];
    assert StrictlyKeySorted(expected);
    assert Elems(expected) == Elems(a.intervals);
    SortedUnique(a.intervals, expected);
  }

  /** AggregateEventTest.testToDuration and testLatestStart. */
  lemma DurationAndLatestStartExample(a: AggregateEvent, b: AggregateEvent)
    requires Elems(a.intervals) == {Span(10, 30), Span(40, 50), Span(80, 100)}
    requires Elems(b.intervals) == {Span(10, 30), Span(80, 200), Span(70, 500)}
    ensures TotalDuration(a.intervals) == 50
    ensures LatestStart(b) == 80
  {
    var expected: seq<Interval> := [Span(10, 30), Span(40, 50), Span(80, 100)];
    assert StrictlyKeySorted(expected);
    assert Elems(expected) == Elems(a.intervals);
    SortedUnique(a.intervals, expected);
    assert Span(80, 200) in Elems(b.intervals);
    forall x | x in b.intervals ensures x.start <= 80 {
      assert x in Elems(b.intervals);
    }
  }
}
