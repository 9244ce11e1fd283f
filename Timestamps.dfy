/**
 * Instants, durations and the timestamp layout of the certificate log.
 *
 * An Instant counts nanoseconds since January 1 of year 1, 00:00:00 UTC,
 * which is Go's zero time.Time: a field that was never set, or that a failed
 * parse overwrote, holds ZeroTime.
 */
module Timestamps {
  import opened Wrappers

  type Instant = int

  const ZeroTime: Instant := 0
  const NanosPerSecond: int := 1_000_000_000
  const SecondsPerDay: int := 86_400

  const MinDuration: int := -0x8000_0000_0000_0000
  const MaxDuration: int := 0x7FFF_FFFF_FFFF_FFFF

  /** Go's time.Duration: a signed 64-bit count of nanoseconds. */
  type Duration = d: int | MinDuration <= d <= MaxDuration

  /**
   * t.Sub(u) for times without a monotonic reading: the exact difference when
   * it fits in a Duration, otherwise the bound on the side of the true sign.
   */
  function Sub(t: Instant, u: Instant): (d: Duration)
    ensures MinDuration <= t - u <= MaxDuration ==> d == t - u
    ensures d < 0 <==> t < u
    ensures d == 0 <==> t == u
    ensures t - u < MinDuration ==> d == MinDuration
    ensures MaxDuration < t - u ==> d == MaxDuration
  {
    if t - u < MinDuration then MinDuration
    else if MaxDuration < t - u then MaxDuration
    else t - u
  }

  predicate IsDigit(c: char) {
    '0' <= c <= '9'
  }

  function Pow10(n: nat): (p: nat)
    ensures 1 <= p
  {
    if n == 0 then 1 else 10 * Pow10(n - 1)
  }

  /** The decimal value of a run of ASCII digits; None when any character is not a digit. */
  function Digits(s: string): (r: Option<nat>)
    ensures r.Some? <==> forall i :: 0 <= i < |s| ==> IsDigit(s[i])
    ensures r.Some? ==> r.value < Pow10(|s|)
  {
    if s == [] then Some(0)
    else
      var last := s[|s| - 1];
      match Digits(s[..|s| - 1])
      case None => None
      case Some(n) =>
        if IsDigit(last) then Some(10 * n + (last as int - '0' as int)) else None
  }

  predicate IsLeap(year: int) {
    year % 4 == 0 && (year % 100 != 0 || year % 400 == 0)
  }

  function DaysIn(month: int, year: int): (n: int)
    requires 1 <= month <= 12
    ensures 28 <= n <= 31
    ensures n == 29 <==> month == 2 && IsLeap(year)
  {
    if month == 2 then (if IsLeap(year) then 29 else 28)
    else if month == 4 || month == 6 || month == 9 || month == 11 then 30
    else 31
  }

  /** Days from January 1 to the first day of `month` in `year`. */
  function DaysBeforeMonth(month: int, year: int): int
    requires 1 <= month <= 12
  {
    [0, 31, 59, 90, 120, 151, 181, 212, 243, 273, 304, 334][month - 1]
      + if 2 < month && IsLeap(year) then 1 else 0
  }

  /** Days from January 1 of year 1 to January 1 of `year`, proleptic Gregorian calendar. */
  function DaysBeforeYear(year: int): int {
    var y := year - 1;
    365 * y + y / 4 - y / 100 + y / 400
  }

  /** The instant of a calendar date and time of day, in UTC. */
  function CivilInstant(year: int, month: int, day: int, hour: int, minute: int, second: int): Instant
    requires 1 <= month <= 12
  {
    var days := DaysBeforeYear(year) + DaysBeforeMonth(month, year) + day - 1;
    (days * SecondsPerDay + hour * 3600 + minute * 60 + second) * NanosPerSecond
  }

  /** The layout "2006-01-02T15:04:05": fixed punctuation at fixed positions. */
  predicate HasLayoutShape(s: string) {
    |s| == 19 && s[4] == '-' && s[7] == '-' && s[10] == 'T' && s[13] == ':' && s[16] == ':'
  }

  /**
   * time.Parse("2006-01-02T15:04:05", s): the timestamp as a UTC instant, or
   * None when s does not follow the layout or a field is out of range
   * (month 1..12, day within the month of that year, hour < 24,
   * minute < 60, second < 60).
   */
  function ParseTime(s: string): (r: Option<Instant>)
    ensures r.Some? ==> HasLayoutShape(s)
    ensures r.Some? ==> forall i :: 0 <= i < 19 && i != 4 && i != 7 && i != 10 && i != 13 && i != 16 ==> IsDigit(s[i])
    ensures r.Some? ==> r.value % NanosPerSecond == 0
  {
    if !HasLayoutShape(s) then None
    else
      var year, month, day := Digits(s[0..4]), Digits(s[5..7]), Digits(s[8..10]);
      var hour, minute, second := Digits(s[11..13]), Digits(s[14..16]), Digits(s[17..19]);
      if year.None? || month.None? || day.None? || hour.None? || minute.None? || second.None? then None
      else if !(1 <= month.value <= 12) || !(1 <= day.value <= DaysIn(month.value, year.value)) then None
      else if 24 <= hour.value || 60 <= minute.value || 60 <= second.value then None
      else Some(CivilInstant(year.value, month.value, day.value, hour.value, minute.value, second.value))
  }
}
