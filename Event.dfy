/**
 * Event.java: an interval with a description that must not be empty.
 *
 * Java's Event never changes after its constructor; here it is a datatype
 * value, and the constructor's check becomes the constraint of a subset type,
 * so no Event with an empty description can exist.
 */
module Events {
  import opened Wrappers
  import opened Joda

  /** The two fields of an event, before the constructor's check. */
  datatype Entry = Entry(interval: Interval, description: string)

  /** An Event: its description is never empty. */
  type Event = e: Entry | e.description != [] witness Entry(Span(0, 0), "?")

  /** The reasons for a BadEventException. */
  datatype BadEventException =
    | EmptyDescription          // thrown by the Event constructor
    | BackwardsInterval         // SqliteTracker.addEvent rewrapping Joda's IllegalArgumentException
    | WouldOverlap(other: Event) // StoreContract.putEvent, naming one stored event it collides with

  /** `new Event(interval, description)`. */
  function NewEvent(interval: Interval, description: string): (r: Result<Event, BadEventException>)
    ensures r.Failure? <==> description == []
    ensures r.Failure? ==> r.error == EmptyDescription
    ensures r.Success? ==> r.value.interval == interval && r.value.description == description
  {
    if description == [] then Failure(EmptyDescription) else Success(Entry(interval, description))
  }

  /** `getStart().getMillis()`. */
  function Start(e: Event): (t: int)
    ensures t <= End(e)
  {
    e.interval.start
  }

  /** `getEnd().getMillis()`. */
  function End(e: Event): int {
    e.interval.end
  }

  /** `toDuration().getMillis()`: the time from the start to the end. */
  function ToDuration(e: Event): (d: int)
    ensures d >= 0 && Start(e) + d == End(e)
  {
    DurationOf(e.interval)
  }

  /** `equals`: same interval (start and end) and same description. */
  predicate Equals(a: Event, b: Event) {
    a.interval == b.interval && a.description == b.description
  }

  /** Event equality is structural: it holds exactly for identical values. */
  lemma EqualsIsIdentity(a: Event, b: Event)
    ensures Equals(a, b) <==> a == b
    ensures Equals(a, b) <==> Start(a) == Start(b) && End(a) == End(b) && a.description == b.description
  {
  }

  /** A successful construction keeps what it was given, and the getters return it. */
  lemma ConstructThenGet(interval: Interval, description: string)
    requires description != []
    ensures NewEvent(interval, description).Success?
    ensures var e := NewEvent(interval, description).value;
      e.interval == interval && Start(e) == interval.start && End(e) == interval.end
      && e.description == description && ToDuration(e) == interval.end - interval.start
  {
  }

  /** EventTest.testGetters: [50, 60) "Foo" lasts 10 milliseconds. */
  lemma GettersExample()
    ensures NewEvent(Span(50, 60), "Foo").Success?
    ensures var e := NewEvent(Span(50, 60), "Foo").value;
      Start(e) == 50 && End(e) == 60 && ToDuration(e) == 10 && e.description == "Foo"
  {
  }
}
