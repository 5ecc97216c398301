/**
 * TimeUtils.java: the interval that holds every timestamp, and the choice
 * of unit, of singular or plural template and the placeholder substitution
 * done by the two duration formatters.
 *
 * `context.getString` is the parameter `getString`, a function from string
 * resource ids to templates; a Joda Duration is its length in milliseconds.
 */
module TimeUtils {
  import opened Wrappers
  import opened Joda

  /** The placeholder a template carries for the quantity. */
  const DurationPlaceholder: string := "_DURATION_"

  const MillisPerSecond: int := 1000
  const MillisPerMinute: int := 60000

  /** `intervalForever`: [Long.MIN_VALUE, Long.MAX_VALUE), holding every long instant but the largest. */
  function IntervalForever(): (i: Interval)
    ensures forall t | LongMin <= t <= LongMax :: Contains(i, t) <==> t < LongMax
    ensures NewInterval(LongMin, LongMax) == Some(i)
  {
    Span(LongMin, LongMax)
  }

  /** The instants the forever test checks. */
  lemma ForeverExamples()
    ensures Contains(IntervalForever(), 0) && Contains(IntervalForever(), 1000)
    ensures Contains(IntervalForever(), 123456789) && Contains(IntervalForever(), LongMax - 1)
    ensures !Contains(IntervalForever(), LongMax)
  {
  }

  // ----- Long.toString -----

  function DigitChar(d: int): (c: char)
    requires 0 <= d < 10
    ensures '0' <= c <= '9' && c as int - '0' as int == d
  {
    ('0' as int + d) as char
  }

  predicate AllDigits(s: string) {
    forall k | 0 <= k < |s| :: '0' <= s[k] <= '9'
  }

  /** The decimal digits of a natural number, most significant first, with no leading zero. */
  function NaturalString(n: nat): (s: string)
    ensures |s| >= 1 && AllDigits(s)
    ensures |s| > 1 ==> s[0] != '0'
  {
    if n < 10 then [DigitChar(n)] else NaturalString(n / 10) + [DigitChar(n % 10)]
  }

  /** `Long.toString`: a minus sign for negative numbers, then the digits. */
  function DecimalString(n: int): (s: string)
    ensures s != [] && (s[0] == '-' <==> n < 0)
  {
    if n < 0 then "-" + NaturalString(-n) else NaturalString(n)
  }

  /** The value of a string of decimal digits: the partner that reads a number back. */
  function DigitsValue(s: string): int
    requires AllDigits(s)
  {
    if s == [] then 0 else DigitsValue(s[..|s| - 1]) * 10 + (s[|s| - 1] as int - '0' as int)
  }

  function ParseDecimal(s: string): int {
    if s != [] && s[0] == '-' && AllDigits(s[1..]) then -DigitsValue(s[1..])
    else if AllDigits(s) then DigitsValue(s)
    else 0
  }

  lemma {:induction false} NaturalStringRoundTrip(n: nat)
    ensures DigitsValue(NaturalString(n)) == n
  {
    if n >= 10 {
      NaturalStringRoundTrip(n / 10);
      var s := NaturalString(n);
      assert s[..|s| - 1] == NaturalString(n / 10);
    }
  }

  /** Reading back what Long.toString writes gives the number again. */
  lemma DecimalRoundTrip(n: int)
    ensures ParseDecimal(DecimalString(n)) == n
  {
    if n < 0 {
      NaturalStringRoundTrip(-n);
      assert DecimalString(n)[1..] == NaturalString(-n);
    } else {
      NaturalStringRoundTrip(n);
    }
  }

  // ----- String.replaceAll with a placeholder that holds no regular expression metacharacter -----

  /** `p` occurs somewhere in `s`. */
  predicate HasSub(s: string, p: string)
    decreases |s|
  {
    |p| <= |s| && (s[..|p|] == p || HasSub(s[1..], p))
  }

  /** Every occurrence of `p`, scanning left to right without overlaps, replaced by `r`. */
  function ReplaceAll(s: string, p: string, r: string): string
    requires p != []
    decreases |s|
  {
    if |s| < |p| then s
    else if s[..|p|] == p then r + ReplaceAll(s[|p|..], p, r)
    else [s[0]] + ReplaceAll(s[1..], p, r)
  }

  /** A template without the placeholder comes back unchanged. */
  lemma {:induction false} NoPlaceholderUnchanged(s: string, p: string, r: string)
    requires p != [] && !HasSub(s, p)
    ensures ReplaceAll(s, p, r) == s
    decreases |s|
  {
    if |s| >= |p| {
      NoPlaceholderUnchanged(s[1..], p, r);
      assert s == [s[0]] + s[1..];
    }
  }

  /** Text holding no character that could begin the placeholder is copied through. */
  lemma {:induction false} PlainTextCopied(piece: string, rest: string, p: string, r: string)
    requires p != [] && p[0] !in piece
    ensures ReplaceAll(piece + rest, p, r) == piece + ReplaceAll(rest, p, r)
    decreases |piece|
  {
    var s := piece + rest;
    if piece == [] {
      assert s == rest;
    } else {
      assert s[0] == piece[0];
      assert s[1..] == piece[1..] + rest;
      PlainTextCopied(piece[1..], rest, p, r);
      if |s| < |p| {
        NoShortMatch(rest, p, r);
      } else {
        assert s[..|p|][0] == s[0];
        assert ReplaceAll(s, p, r) == [s[0]] + ReplaceAll(s[1..], p, r);
        assert piece == [piece[0]] + piece[1..];
      }
    }
  }

  lemma NoShortMatch(s: string, p: string, r: string)
    requires p != [] && |s| < |p|
    ensures ReplaceAll(s, p, r) == s
  {
  }

  /** Texts joined by the placeholder. */
  function JoinWith(pieces: seq<string>, sep: string): string {
    if pieces == [] then []
    else if |pieces| == 1 then pieces[0]
    else pieces[0] + sep + JoinWith(pieces[1..], sep)
  }

  /**
   * In a template made of plain texts (none holding an underscore) joined by
   * the placeholder, every placeholder is replaced and every text is kept.
   */
  lemma {:induction false} EveryPlaceholderReplaced(pieces: seq<string>, r: string)
    requires forall k | 0 <= k < |pieces| :: '_' !in pieces[k]
    ensures ReplaceAll(JoinWith(pieces, DurationPlaceholder), DurationPlaceholder, r) == JoinWith(pieces, r)
  {
    var p := DurationPlaceholder;
    if |pieces| == 1 {
      PlainTextCopied(pieces[0], [], p, r);
      assert pieces[0] + [] == pieces[0];
      NoShortMatch([], p, r);
    } else if |pieces| > 1 {
      var tail := JoinWith(pieces[1..], p);
      assert pieces[0] + p + tail == pieces[0] + (p + tail);
      PlainTextCopied(pieces[0], p + tail, p, r);
      assert (p + tail)[..|p|] == p;
      assert (p + tail)[|p|..] == tail;
      EveryPlaceholderReplaced(pieces[1..], r);
      assert pieces[0] + (r + JoinWith(pieces[1..], r)) == pieces[0] + r + JoinWith(pieces[1..], r);
    }
  }

  /** The chosen template with its placeholders replaced by the decimal quantity. */
  function Fill(template: string, quantity: int): string {
    ReplaceAll(template, DurationPlaceholder, DecimalString(quantity))
  }

  /** A template "before_DURATION_after" becomes "before", the quantity, "after". */
  lemma FillOnePlaceholder(before: string, after: string, quantity: int)
    requires '_' !in before && '_' !in after
    ensures Fill(before + DurationPlaceholder + after, quantity) == before + DecimalString(quantity) + after
  {
    var pieces := [before, after];
    assert pieces[1..] == [after];
    assert JoinWith(pieces, DurationPlaceholder) == before + DurationPlaceholder + after;
    assert JoinWith(pieces, DecimalString(quantity)) == before + DecimalString(quantity) + after;
    EveryPlaceholderReplaced(pieces, DecimalString(quantity));
  }

  // ----- Unit and template choice -----

  datatype TimeUnit = Seconds | Minutes

  /** The unit, whether the singular template applies, and the number written. */
  datatype Choice = Choice(unit: TimeUnit, singular: bool, quantity: int)

  /** `getStandardMinutes`: the whole minutes of a duration, truncated toward zero. */
  function StandardMinutes(millis: int): (m: int)
    ensures millis >= 0 ==> m >= 0 && m * MillisPerMinute <= millis < (m + 1) * MillisPerMinute
    ensures millis < 0 ==> m <= 0 && (m - 1) * MillisPerMinute < millis <= m * MillisPerMinute
  {
    JavaDiv(millis, MillisPerMinute)
  }

  /** `getStandardSeconds`: the whole seconds of a duration, truncated toward zero. */
  function StandardSeconds(millis: int): (s: int)
    ensures millis >= 0 ==> s >= 0 && s * MillisPerSecond <= millis < (s + 1) * MillisPerSecond
    ensures millis < 0 ==> s <= 0 && (s - 1) * MillisPerSecond < millis <= s * MillisPerSecond
  {
    JavaDiv(millis, MillisPerSecond)
  }

  /** `formatDurationMinutes`' choice: always minutes, singular exactly for one minute (so 0 is plural). */
  function MinutesChoice(millis: int): (c: Choice)
    ensures c.unit == Minutes && c.quantity == StandardMinutes(millis)
    ensures c.singular <==> 60000 <= millis < 120000
  {
    var minutes := StandardMinutes(millis);
    Choice(Minutes, minutes == 1, minutes)
  }

  /**
   * `formatDuration`'s choice: minutes once the duration reaches a whole
   * minute, seconds otherwise; singular exactly when the quantity is 1.
   */
  function DurationChoice(millis: int): (c: Choice)
    ensures c.unit == Minutes <==> millis >= MillisPerMinute
    ensures c.unit == Minutes ==> c == MinutesChoice(millis)
    ensures c.unit == Seconds ==> c.quantity == StandardSeconds(millis)
    ensures c.singular <==> c.quantity == 1
  {
    var minutes := StandardMinutes(millis);
    if minutes > 0 then Choice(Minutes, minutes == 1, minutes)
    else
      var seconds := StandardSeconds(millis);
      Choice(Seconds, seconds == 1, seconds)
  }

  /** The string resource ids a formatter is given. */
  datatype TemplateIds = TemplateIds(secondsSingular: int, secondsPlural: int, minutesSingular: int, minutesPlural: int)

  function TemplateId(c: Choice, ids: TemplateIds): int {
    match c.unit
    case Seconds => if c.singular then ids.secondsSingular else ids.secondsPlural
    case Minutes => if c.singular then ids.minutesSingular else ids.minutesPlural
  }

  /** The AssertionError of a debug build: a plural template without the placeholder. */
  datatype FormatError = MissingPlaceholder(template: string)

  /**
   * `formatDurationMinutes`.  In a debug build (`debug`) a plural template
   * without the placeholder is an error.
   */
  function FormatDurationMinutes(millis: int, getString: int -> string, singularId: int, pluralId: int, debug: bool)
    : (r: Result<string, FormatError>)
    ensures r.Failure? <==> debug && !HasSub(getString(pluralId), DurationPlaceholder)
    ensures r.Success? ==> r.value == Fill(getString(TemplateId(MinutesChoice(millis), TemplateIds(0, 0, singularId, pluralId))),
      StandardMinutes(millis))
  {
    if debug && !HasSub(getString(pluralId), DurationPlaceholder) then
      Failure(MissingPlaceholder(getString(pluralId)))
    else
      var c := MinutesChoice(millis);
      Success(Fill(getString(if c.singular then singularId else pluralId), c.quantity))
  }

  /** The check a debug build of `formatDuration` evidently means: both plural templates hold the placeholder. */
  predicate DebugCheck(getString: int -> string, ids: TemplateIds) {
    HasSub(getString(ids.secondsPlural), DurationPlaceholder) && HasSub(getString(ids.minutesPlural), DurationPlaceholder)
  }

  /** The check `formatDuration` does as written: it reads the minutes plural template twice. */
  predicate DebugCheckAsWritten(getString: int -> string, ids: TemplateIds) {
    HasSub(getString(ids.minutesPlural), DurationPlaceholder) && HasSub(getString(ids.minutesPlural), DurationPlaceholder)
  }

  /**
   * `formatDuration`, with the debug check on both plural templates.  When
   * the check passes, a plural template that is used holds the placeholder.
   */
  function FormatDuration(millis: int, getString: int -> string, ids: TemplateIds, debug: bool)
    : (r: Result<string, FormatError>)
    ensures r.Failure? <==> debug && !DebugCheck(getString, ids)
    ensures r.Success? ==> r.value == Fill(getString(TemplateId(DurationChoice(millis), ids)), DurationChoice(millis).quantity)
    ensures debug && r.Success? && !DurationChoice(millis).singular ==>
      HasSub(getString(TemplateId(DurationChoice(millis), ids)), DurationPlaceholder)
  {
    if debug && !HasSub(getString(ids.secondsPlural), DurationPlaceholder) then
      Failure(MissingPlaceholder(getString(ids.secondsPlural)))
    else if debug && !HasSub(getString(ids.minutesPlural), DurationPlaceholder) then
      Failure(MissingPlaceholder(getString(ids.minutesPlural)))
    else
      var c := DurationChoice(millis);
      Success(Fill(getString(TemplateId(c, ids)), c.quantity))
  }

  /** `formatDuration` as written: the debug check never looks at the seconds plural template. */
  function FormatDurationAsWritten(millis: int, getString: int -> string, ids: TemplateIds, debug: bool)
    : (r: Result<string, FormatError>)
    ensures r.Failure? <==> debug && !DebugCheckAsWritten(getString, ids)
    ensures r.Success? ==> r == FormatDuration(millis, getString, ids, false)
  {
    if debug && !DebugCheckAsWritten(getString, ids) then
      Failure(MissingPlaceholder(getString(ids.minutesPlural)))
    else
      FormatDuration(millis, getString, ids, false)
  }

  /** The templates of the formatter tests, but with a seconds plural template that lost its placeholder. */
  function BrokenStrings(id: int): string {
    if id == 1 then "This is _DURATION_ second"
    else if id == 2 then "These are seconds"
    else if id == 3 then "This is _DURATION_ minute"
    else "These are _DURATION_ minutes"
  }

  lemma PlaceholderFound(before: string, after: string)
    ensures HasSub(before + DurationPlaceholder + after, DurationPlaceholder)
    decreases |before|
  {
    var s := before + DurationPlaceholder + after;
    if before == [] {
      assert s[..|DurationPlaceholder|] == DurationPlaceholder;
    } else {
      assert s[1..] == before[1..] + DurationPlaceholder + after;
      PlaceholderFound(before[1..], after);
    }
  }

  /**
   * The debug check as written lets a seconds plural template without the
   * placeholder through, and two seconds come out with no number; the
   * intended check rejects the template.
   */
  lemma SecondsPluralUnchecked()
    ensures var ids := TemplateIds(1, 2, 3, 4);
      DebugCheckAsWritten(BrokenStrings, ids) && !DebugCheck(BrokenStrings, ids)
      && FormatDurationAsWritten(2000, BrokenStrings, ids, true) == Success("These are seconds")
      && FormatDuration(2000, BrokenStrings, ids, true).Failure?
  {
    var ids := TemplateIds(1, 2, 3, 4);
    MinutesPluralHasPlaceholder();
    var broken := "These are seconds";
    assert BrokenStrings(2) == broken;
    NoUnderscoreNoPlaceholder(broken);
    assert DurationChoice(2000) == Choice(Seconds, false, 2);
    NoPlaceholderUnchanged(broken, DurationPlaceholder, DecimalString(2));
  }

  lemma MinutesPluralHasPlaceholder()
    ensures HasSub(BrokenStrings(4), DurationPlaceholder)
  {
    PlaceholderFound("These are ", " minutes");
    assert BrokenStrings(4) == "These are " + DurationPlaceholder + " minutes";
  }

  lemma {:induction false} NoUnderscoreNoPlaceholder(s: string)
    requires '_' !in s
    ensures !HasSub(s, DurationPlaceholder)
    decreases |s|
  {
    if |s| >= |DurationPlaceholder| {
      assert s[..|DurationPlaceholder|][0] == s[0];
      NoUnderscoreNoPlaceholder(s[1..]);
    }
  }

  /** The four templates of the parameterized formatter tests, under resource ids 1 to 4. */
  predicate TestTemplates(getString: int -> string) {
    getString(1) == "This is " + DurationPlaceholder + " second"
    && getString(2) == "These are " + DurationPlaceholder + " seconds"
    && getString(3) == "This is " + DurationPlaceholder + " minute"
    && getString(4) == "These are " + DurationPlaceholder + " minutes"
  }

  lemma TestPluralsHavePlaceholder(getString: int -> string)
    requires TestTemplates(getString)
    ensures DebugCheck(getString, TemplateIds(1, 2, 3, 4))
  {
    PlaceholderFound("These are ", " seconds");
    PlaceholderFound("These are ", " minutes");
  }

  /** The expectations of the parameterized formatter tests for durations under a minute. */
  lemma FormatSecondsExamples(getString: int -> string)
    requires TestTemplates(getString)
    ensures FormatDuration(10, getString, TemplateIds(1, 2, 3, 4), true) == Success("These are 0 seconds")
    ensures FormatDuration(1000, getString, TemplateIds(1, 2, 3, 4), true) == Success("This is 1 second")
  {
    var ids := TemplateIds(1, 2, 3, 4);
    TestPluralsHavePlaceholder(getString);
    assert DurationChoice(10) == Choice(Seconds, false, 0);
    assert FormatDuration(10, getString, ids, true) == Success(Fill(getString(2), 0));
    FillOnePlaceholder("These are ", " seconds", 0);
    assert "These are " + "0" + " seconds" == "These are 0 seconds";
    assert DecimalString(0) == "0";
    assert DurationChoice(1000) == Choice(Seconds, true, 1);
    assert FormatDuration(1000, getString, ids, true) == Success(Fill(getString(1), 1));
    FillOnePlaceholder("This is ", " second", 1);
    assert "This is " + "1" + " second" == "This is 1 second";
    assert DecimalString(1) == "1";
  }

  /** The expectations of the parameterized formatter tests for whole minutes. */
  lemma FormatMinutesExamples(getString: int -> string)
    requires TestTemplates(getString)
    ensures FormatDuration(70 * 60000, getString, TemplateIds(1, 2, 3, 4), true) == Success("These are 70 minutes")
    ensures FormatDurationMinutes(2000, getString, 3, 4, true) == Success("These are 0 minutes")
    ensures FormatDurationMinutes(60000, getString, 3, 4, true) == Success("This is 1 minute")
  {
    var ids := TemplateIds(1, 2, 3, 4);
    TestPluralsHavePlaceholder(getString);
    assert DurationChoice(70 * 60000) == Choice(Minutes, false, 70);
    assert FormatDuration(70 * 60000, getString, ids, true) == Success(Fill(getString(4), 70));
    FillOnePlaceholder("These are ", " minutes", 70);
    assert "These are " + "70" + " minutes" == "These are 70 minutes";
    assert DecimalString(70) == "70" by {
      assert NaturalString(7) == "7";
    }
    assert MinutesChoice(2000) == Choice(Minutes, false, 0);
    assert FormatDurationMinutes(2000, getString, 3, 4, true) == Success(Fill(getString(4), 0));
    FillOnePlaceholder("These are ", " minutes", 0);
    assert "These are " + "0" + " minutes" == "These are 0 minutes";
    assert DecimalString(0) == "0";
    assert MinutesChoice(60000) == Choice(Minutes, true, 1);
    assert FormatDurationMinutes(60000, getString, 3, 4, true) == Success(Fill(getString(3), 1));
    FillOnePlaceholder("This is ", " minute", 1);
    assert "This is " + "1" + " minute" == "This is 1 minute";
    assert DecimalString(1) == "1";
  }
}
