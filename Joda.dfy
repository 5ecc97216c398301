/**
 * The parts of Joda-Time's Interval and Duration that the tracker relies on,
 * stated as definitions (the library itself is not part of this model).
 *
 * Timestamps and durations are milliseconds, as unbounded integers; the Java
 * `long` limits appear only where the source names them.
 */
module Joda {
  import opened Wrappers

  /** Long.MIN_VALUE and Long.MAX_VALUE. */
  const LongMin: int := -0x8000_0000_0000_0000
  const LongMax: int := 0x7fff_ffff_ffff_ffff

  /** A pair of instants, not necessarily ordered. */
  datatype Span = Span(start: int, end: int)

  /** An org.joda.time.Interval: a span whose start does not come after its end. */
  type Interval = s: Span | s.start <= s.end witness Span(0, 0)

  /**
   * `new Interval(start, end)`: None stands for the IllegalArgumentException
   * that Joda throws when the end comes before the start.
   */
  function NewInterval(start: int, end: int): (r: Option<Interval>)
    ensures r.Some? <==> start <= end
    ensures r.Some? ==> r.value.start == start && r.value.end == end
  {
    if start <= end then Some(Span(start, end)) else None
  }

  /** `interval.contains(t)`: intervals are closed at the start and open at the end. */
  predicate Contains(i: Interval, t: int) {
    i.start <= t < i.end
  }

  /** `interval.toDuration().getMillis()`. */
  function DurationOf(i: Interval): (d: int)
    ensures d >= 0
  {
    i.end - i.start
  }

  function Max(a: int, b: int): int { if a < b then b else a }
  function Min(a: int, b: int): int { if a < b then a else b }

  /**
   * `a.overlap(b)`: the common part of two intervals, or None (Java's null)
   * when they share no instant.
   */
  function Overlap(a: Interval, b: Interval): (r: Option<Interval>)
    ensures r.Some? <==> a.start < b.end && b.start < a.end
    ensures r.Some? ==> r.value.start == Max(a.start, b.start) && r.value.end == Min(a.end, b.end)
  {
    if a.start < b.end && b.start < a.end then Some(Span(Max(a.start, b.start), Min(a.end, b.end)))
    else None
  }

  /** An overlap is contained in both intervals it came from. */
  lemma OverlapWithin(a: Interval, b: Interval, t: int)
    requires Overlap(a, b).Some?
    ensures Contains(Overlap(a, b).value, t) <==> Contains(a, t) && Contains(b, t)
  {
  }

  /** Java's `long` division, which truncates toward zero (Dafny's `/` is Euclidean). */
  function JavaDiv(a: int, b: int): (q: int)
    requires b > 0
    ensures a >= 0 ==> 0 <= a - q * b < b
    ensures a < 0 ==> -b < a - q * b <= 0
  {
    if a >= 0 then a / b else -((-a) / b)
  }
}
