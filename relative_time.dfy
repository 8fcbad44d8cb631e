/**
 * The time helpers of src/assets/scripts/utils.js: `getRelativeTime` and
 * `getRelativeTimeDiff` put an elapsed time into the largest whole unit, and
 * `getFirstRevision` / `getLastRevision` pick the oldest and newest revision.
 * The elapsed time `now - date` is a parameter in milliseconds; reading the
 * clock and parsing dates are not modelled.
 */
module TimeUtils {
  import opened Wrappers
  import opened Division

  const SecondMs: int := 1000
  const MinuteMs: int := 60 * SecondMs
  const HourMs: int := 60 * MinuteMs
  const DayMs: int := 24 * HourMs
  /** A "month" is 30 days and a "year" 365 days. */
  const MonthMs: int := 30 * DayMs
  const YearMs: int := 365 * DayMs

  datatype Unit = Year | Month | Day | Hour | Minute | Now

  /** An elapsed time in its largest whole unit: `amount` units ago, or just now. */
  datatype Bucket = Bucket(amount: int, unit: Unit)

  /**
   * The cascade of `Math.floor` divisions and the first non-zero unit, in the
   * order years, months, days, hours, minutes. Dafny's `/` by a positive
   * divisor is `Math.floor` of the quotient, negative numerators included.
   */
  function Bucketize(diff: int): Bucket {
    var seconds := diff / 1000;
    var minutes := seconds / 60;
    var hours := minutes / 60;
    var days := hours / 24;
    var months := days / 30;
    var years := days / 365;
    if years > 0 then Bucket(years, Year)
    else if months > 0 then Bucket(months, Month)
    else if days > 0 then Bucket(days, Day)
    else if hours > 0 then Bucket(hours, Hour)
    else if minutes > 0 then Bucket(minutes, Minute)
    else Bucket(0, Now)
  }

  /** The length of one unit in milliseconds. */
  function UnitMs(u: Unit): int {
    match u
    case Year => YearMs
    case Month => MonthMs
    case Day => DayMs
    case Hour => HourMs
    case Minute => MinuteMs
    case Now => 1
  }

  /** A floored quotient by a positive divisor is positive exactly from the divisor on. */
  lemma PositiveQuotient(a: int, d: int)
    requires d > 0
    ensures a / d > 0 <==> a >= d
  {
    if a >= d {
      DivUnique(a, d, a / d, a % d);
      assert a == d * (a / d) + a % d;
    } else {
      assert a == d * (a / d) + a % d;
    }
  }

  /**
   * Each unit covers one band of elapsed time, and the amount is the elapsed
   * time in whole units: years from 365 days, months from 30 days up to 364
   * days, down to "just now" for anything under a minute, negative times
   * included.
   */
  lemma {:induction false} BucketBands(diff: int)
    ensures var b := Bucketize(diff);
      && (b.unit == Now <==> diff < MinuteMs)
      && (b.unit == Minute <==> MinuteMs <= diff < HourMs)
      && (b.unit == Hour <==> HourMs <= diff < DayMs)
      && (b.unit == Day <==> DayMs <= diff < MonthMs)
      && (b.unit == Month <==> MonthMs <= diff < YearMs)
      && (b.unit == Year <==> YearMs <= diff)
      && (b.unit != Now ==> b.amount == diff / UnitMs(b.unit) && b.amount >= 1)
  {
    NestedFloor(diff, 1000, 60);
    NestedFloor(diff, MinuteMs, 60);
    NestedFloor(diff, HourMs, 24);
    NestedFloor(diff, DayMs, 30);
    NestedFloor(diff, DayMs, 365);
    PositiveQuotient(diff, MinuteMs);
    PositiveQuotient(diff, HourMs);
    PositiveQuotient(diff, DayMs);
    PositiveQuotient(diff, MonthMs);
    PositiveQuotient(diff, YearMs);
  }

  /** The month count never passes 12: 360 to 364 days read as 12 months. */
  lemma MonthsAtMostTwelve(diff: int)
    requires Bucketize(diff).unit == Month
    ensures 1 <= Bucketize(diff).amount <= 12
  {
    BucketBands(diff);
    DivUnique(YearMs - 1, MonthMs, 12, YearMs - 1 - 12 * MonthMs);
    assert diff / MonthMs <= (YearMs - 1) / MonthMs by {
      DivMonotone(diff, YearMs - 1, MonthMs);
    }
  }

  // ---------------------------------------------------------------------------
  // Formatting

  function DigitChar(d: int): char
    requires 0 <= d < 10
  {
    "0123456789"[d]
  }

  /** The number a string of decimal digits denotes, most significant digit first. */
  function DigitsValue(s: string): nat
    requires forall k :: 0 <= k < |s| ==> '0' <= s[k] <= '9'
  {
    if s == [] then 0 else 10 * DigitsValue(s[..|s| - 1]) + (s[|s| - 1] - '0') as nat
  }

  /**
   * The decimal digits of `n`, as a template literal writes a non-negative
   * integer: they denote `n`, and only "0" itself begins with a zero.
   */
  function Decimal(n: nat): (s: string)
    ensures |s| >= 1 && forall k :: 0 <= k < |s| ==> '0' <= s[k] <= '9'
    ensures DigitsValue(s) == n
    ensures s[0] == '0' ==> |s| == 1
  {
    if n < 10 then [DigitChar(n)]
    else
      var s := Decimal(n / 10) + [DigitChar(n % 10)];
      assert s[..|s| - 1] == Decimal(n / 10);
      s
  }

  /** The Korean suffix for each unit: "N년 전", "N개월 전", "N일 전", "N시간 전", "N분 전". */
  function KoreanSuffix(u: Unit): string {
    match u
    case Year => "년 전"
    case Month => "개월 전"
    case Day => "일 전"
    case Hour => "시간 전"
    case Minute => "분 전"
    case Now => ""
  }

  /** `getRelativeTime(date)` for the elapsed milliseconds `diff`. */
  function RelativeTime(diff: int): string {
    var b := Bucketize(diff);
    if b.unit == Now then "방금 전" else Decimal(b.amount) + KoreanSuffix(b.unit)
  }

  /** Anything under a minute, a negative elapsed time included, reads "just now", and nothing else does. */
  lemma RelativeTimeJustNow(diff: int)
    ensures RelativeTime(diff) == "방금 전" <==> diff < MinuteMs
    ensures diff >= MinuteMs ==> '0' <= RelativeTime(diff)[0] <= '9'
  {
    BucketBands(diff);
    var b := Bucketize(diff);
    if b.unit != Now {
      var s := Decimal(b.amount) + KoreanSuffix(b.unit);
      assert s[0] == Decimal(b.amount)[0];
      assert "방금 전"[0] !in "0123456789";
    }
  }

  /** The result of `getRelativeTimeDiff`: `[amount, tag]`, with `""` as the amount of `"now"`. */
  datatype TimeDiff = TimeDiff(amount: Option<int>, tag: string)

  function Tag(u: Unit): string {
    match u
    case Year => "y"
    case Month => "m"
    case Day => "d"
    case Hour => "h"
    case Minute => "m"
    case Now => "now"
  }

  /** `getRelativeTimeDiff(timestamp)` for the elapsed milliseconds `diff`. */
  function RelativeTimeDiff(diff: int): (r: TimeDiff)
    ensures r.amount.None? <==> r.tag == "now"
  {
    var b := Bucketize(diff);
    if b.unit == Now then TimeDiff(None, "now") else TimeDiff(Some(b.amount), Tag(b.unit))
  }

  /** The amount and tag of `getRelativeTimeDiff` agree with the unit bands. */
  lemma RelativeTimeDiffBands(diff: int)
    ensures RelativeTimeDiff(diff) == TimeDiff(None, "now") <==> diff < MinuteMs
    ensures diff >= YearMs ==> RelativeTimeDiff(diff) == TimeDiff(Some(diff / YearMs), "y")
    ensures MonthMs <= diff < YearMs ==> RelativeTimeDiff(diff) == TimeDiff(Some(diff / MonthMs), "m")
    ensures DayMs <= diff < MonthMs ==> RelativeTimeDiff(diff) == TimeDiff(Some(diff / DayMs), "d")
    ensures HourMs <= diff < DayMs ==> RelativeTimeDiff(diff) == TimeDiff(Some(diff / HourMs), "h")
    ensures MinuteMs <= diff < HourMs ==> RelativeTimeDiff(diff) == TimeDiff(Some(diff / MinuteMs), "m")
  {
    BucketBands(diff);
  }

  /** Months and minutes share the tag "m": one minute and thirty days give the same result. */
  lemma MonthAndMinuteShareTag()
    ensures RelativeTimeDiff(MinuteMs) == RelativeTimeDiff(MonthMs) == TimeDiff(Some(1), "m")
  {
    BucketBands(MinuteMs);
    BucketBands(MonthMs);
  }

  // ---------------------------------------------------------------------------
  // First and last revision

  /** `revisions[i]` has the least timestamp, and every earlier revision a greater one. */
  ghost predicate EarliestMinimum<R>(revisions: seq<R>, timestamp: R -> int, i: int) {
    && 0 <= i < |revisions|
    && (forall j :: 0 <= j < |revisions| ==> timestamp(revisions[i]) <= timestamp(revisions[j]))
    && (forall j :: 0 <= j < i ==> timestamp(revisions[j]) > timestamp(revisions[i]))
  }

  /** `revisions[i]` has the greatest timestamp, and every earlier revision a smaller one. */
  ghost predicate EarliestMaximum<R>(revisions: seq<R>, timestamp: R -> int, i: int) {
    && 0 <= i < |revisions|
    && (forall j :: 0 <= j < |revisions| ==> timestamp(revisions[i]) >= timestamp(revisions[j]))
    && (forall j :: 0 <= j < i ==> timestamp(revisions[j]) < timestamp(revisions[i]))
  }

  /**
   * The `reduce` of `getFirstRevision` from position `k` on, with the
   * accumulator at position `best`: the current revision replaces the
   * accumulator only when strictly older.
   */
  function OldestFrom<R>(revisions: seq<R>, timestamp: R -> int, best: nat, k: nat): (i: nat)
    requires best < k <= |revisions|
    requires EarliestMinimum(revisions[..k], timestamp, best)
    ensures EarliestMinimum(revisions, timestamp, i)
    decreases |revisions| - k
  {
    if k == |revisions| then
      assert revisions[..k] == revisions;
      best
    else
      var next := if timestamp(revisions[k]) < timestamp(revisions[best]) then k else best;
      assert revisions[..k + 1][..k] == revisions[..k];
      OldestFrom(revisions, timestamp, next, k + 1)
  }

  /** The `reduce` of `getLastRevision`: the current revision wins only when strictly newer. */
  function NewestFrom<R>(revisions: seq<R>, timestamp: R -> int, best: nat, k: nat): (i: nat)
    requires best < k <= |revisions|
    requires EarliestMaximum(revisions[..k], timestamp, best)
    ensures EarliestMaximum(revisions, timestamp, i)
    decreases |revisions| - k
  {
    if k == |revisions| then
      assert revisions[..k] == revisions;
      best
    else
      var next := if timestamp(revisions[k]) > timestamp(revisions[best]) then k else best;
      assert revisions[..k + 1][..k] == revisions[..k];
      NewestFrom(revisions, timestamp, next, k + 1)
  }

  /**
   * `getFirstRevision(revisions)`: the oldest revision, the first of them on a
   * tie. `reduce` without an initial value throws on an empty array; that is
   * `None` here.
   */
  function FirstRevision<R>(revisions: seq<R>, timestamp: R -> int): (r: Option<R>)
    ensures r.None? <==> revisions == []
    ensures r.Some? ==> exists i :: EarliestMinimum(revisions, timestamp, i) && r.value == revisions[i]
  {
    if revisions == [] then None
    else
      var i := OldestFrom(revisions, timestamp, 0, 1);
      Some(revisions[i])
  }

  /** `getLastRevision(revisions)`: the newest revision, the first of them on a tie; `None` when empty. */
  function LastRevision<R>(revisions: seq<R>, timestamp: R -> int): (r: Option<R>)
    ensures r.None? <==> revisions == []
    ensures r.Some? ==> exists i :: EarliestMaximum(revisions, timestamp, i) && r.value == revisions[i]
  {
    if revisions == [] then None
    else
      var i := NewestFrom(revisions, timestamp, 0, 1);
      Some(revisions[i])
  }

  /** The first revision is never newer than the last. */
  lemma FirstNotAfterLast<R>(revisions: seq<R>, timestamp: R -> int)
    requires revisions != []
    ensures timestamp(FirstRevision(revisions, timestamp).value) <= timestamp(LastRevision(revisions, timestamp).value)
  {
    var f := FirstRevision(revisions, timestamp).value;
    var i :| EarliestMinimum(revisions, timestamp, i) && f == revisions[i];
    var l := LastRevision(revisions, timestamp).value;
    var j :| EarliestMaximum(revisions, timestamp, j) && l == revisions[j];
  }
}
