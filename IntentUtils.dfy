/**
 * IntentUtils.java: an interval carried in an Android intent as two long
 * extras, one for each bound.
 */
module IntentUtils {
  import opened Wrappers
  import opened Joda

  const StartMillisId: string := "com.github.jmmv.nudgytimer.lib.INTERVAL_START_MILLIS_ID"
  const EndMillisId: string := "com.github.jmmv.nudgytimer.lib.INTERVAL_END_MILLIS_ID"

  /** Why an intent holds no usable interval, in the order the checks are made. */
  datatype BadIntentException = MissingStartMillis | MissingEndMillis | BackwardsInterval

  /** The AssertionError a debug build of putExtra throws when an interval was put already. */
  datatype AlreadyPut = AlreadyPut

  lemma IdsDiffer()
    ensures StartMillisId != EndMillisId
  {
    assert StartMillisId[44] != EndMillisId[44];
  }

  /** `getIntervalExtra` on the extras of an intent. */
  function IntervalFrom(extras: map<string, int>): (r: Result<Interval, BadIntentException>)
    ensures StartMillisId !in extras ==> r == Failure(MissingStartMillis)
    ensures StartMillisId in extras && EndMillisId !in extras ==> r == Failure(MissingEndMillis)
    ensures StartMillisId in extras && EndMillisId in extras ==>
      if extras[StartMillisId] <= extras[EndMillisId] then r == Success(Span(extras[StartMillisId], extras[EndMillisId]))
      else r == Failure(BackwardsInterval)
  {
    if StartMillisId !in extras then Failure(MissingStartMillis)
    else
      var startMillis := extras[StartMillisId];
      if EndMillisId !in extras then Failure(MissingEndMillis)
      else
        var endMillis := extras[EndMillisId];
        match NewInterval(startMillis, endMillis)
        case None => Failure(BackwardsInterval)
        case Some(i) => Success(i)
  }

  /** The extras after `putExtra`: the two bounds written, every other extra kept. */
  function WithInterval(extras: map<string, int>, i: Interval): (m: map<string, int>)
    ensures StartMillisId in m && EndMillisId in m
    ensures forall k | k != StartMillisId && k != EndMillisId :: (k in m <==> k in extras) && (k in m ==> m[k] == extras[k])
  {
    extras[StartMillisId := i.start][EndMillisId := i.end]
  }

  /** Reading back a put interval gives it again. */
  lemma PutThenGet(extras: map<string, int>, i: Interval)
    ensures IntervalFrom(WithInterval(extras, i)) == Success(i)
  {
    IdsDiffer();
  }

  /** Putting back the interval an intent holds changes nothing. */
  lemma GetThenPut(extras: map<string, int>, i: Interval)
    requires IntervalFrom(extras) == Success(i)
    ensures WithInterval(extras, i) == extras
  {
    IdsDiffer();
  }

  /** An Android intent; only its long extras are modelled. */
  class Intent {
    var extras: map<string, int>

    /** `new Intent()`. */
    constructor ()
      ensures extras == map[]
    {
      extras := map[];
    }

    /** `Intent.putExtra(key, long)`. */
    method PutLongExtra(key: string, value: int)
      modifies this
      ensures extras == old(extras)[key := value]
    {
      extras := extras[key := value];
    }

    /** `IntentUtils.getIntervalExtra(intent)`: IntervalFrom on the intent's extras. */
    function GetIntervalExtra(): Result<Interval, BadIntentException>
      reads this
    {
      IntervalFrom(extras)
    }

    /**
     * `IntentUtils.putExtra(intent, interval)`.  A debug build refuses an
     * intent that holds either key already; a release build overwrites it.
     */
    method PutExtra(i: Interval, debug: bool) returns (r: Result<(), AlreadyPut>)
      modifies this
      ensures r.Failure? <==> debug && (StartMillisId in old(extras) || EndMillisId in old(extras))
      ensures r.Failure? ==> extras == old(extras)
      ensures r.Success? ==> extras == WithInterval(old(extras), i) && GetIntervalExtra() == Success(i)
    {
      if debug && (StartMillisId in extras || EndMillisId in extras) {
        return Failure(AlreadyPut);
      }
      extras := extras[StartMillisId := i.start];
      extras := extras[EndMillisId := i.end];
      PutThenGet(old(extras), i);
      r := Success(());
    }
  }

  /** The intent tests: a round trip of [5, 10], then the three errors in the order they are checked. */
  method IntentExamples() returns (roundTrip: Result<Interval, BadIntentException>,
                                   empty: Result<Interval, BadIntentException>,
                                   startOnly: Result<Interval, BadIntentException>,
                                   backwards: Result<Interval, BadIntentException>)
    ensures roundTrip == Success(Span(5, 10))
    ensures empty == Failure(MissingStartMillis)
    ensures startOnly == Failure(MissingEndMillis)
    ensures backwards == Failure(BackwardsInterval)
  {
    var intent := new Intent();
    var put := intent.PutExtra(Span(5, 10), true);
    roundTrip := intent.GetIntervalExtra();

    var partial := new Intent();
    empty := partial.GetIntervalExtra();
    partial.PutLongExtra(StartMillisId, 10);
    startOnly := partial.GetIntervalExtra();

    var bad := new Intent();
    bad.PutLongExtra(StartMillisId, 10);
    bad.PutLongExtra(EndMillisId, -10);
    IdsDiffer();
    backwards := bad.GetIntervalExtra();
  }
}
