/**
 * Worked cases of the pipeline on concrete rows: newest certificate kept,
 * not-yet-valid certificate flagged, malformed timestamp tolerated,
 * mismatching or unreachable site reported at error level.
 */
module Scenarios {
  import opened Wrappers
  import opened Timestamps
  import opened CrtLogs
  import opened Dedup
  import opened LiveVerify
  import opened Report

  lemma Digits2(s: string)
    requires |s| == 2 && IsDigit(s[0]) && IsDigit(s[1])
    ensures Digits(s) == Some(10 * (s[0] as int - '0' as int) + (s[1] as int - '0' as int))
  {
    assert s[..1][..0] == [];
    assert s[..1] == [s[0]];
  }

  lemma Digits4(s: string)
    requires |s| == 4 && IsDigit(s[0]) && IsDigit(s[1]) && IsDigit(s[2]) && IsDigit(s[3])
    ensures Digits(s) == Some(1000 * (s[0] as int - '0' as int) + 100 * (s[1] as int - '0' as int)
                              + 10 * (s[2] as int - '0' as int) + (s[3] as int - '0' as int))
  {
    assert s[..3][..2] == s[..2];
    Digits2(s[..2]);
    assert Digits(s[..3]).value == 10 * Digits(s[..2]).value + (s[2] as int - '0' as int);
  }

  const Jan2020: string := "2020-01-01T00:00:00"
  const Jan2025: string := "2025-01-01T00:00:00"
  const Jan2099: string := "2099-01-01T00:00:00"
  const Jun2099: string := "2099-06-01T00:00:00"

  /** A midnight timestamp whose digit fields are known parses to that day. */
  lemma ParsesMidnight(s: string, y: nat, mo: nat, d: nat)
    requires HasLayoutShape(s)
    requires Digits(s[0..4]) == Some(y) && Digits(s[5..7]) == Some(mo) && Digits(s[8..10]) == Some(d)
    requires Digits(s[11..13]) == Some(0) && Digits(s[14..16]) == Some(0) && Digits(s[17..19]) == Some(0)
    requires 1 <= mo <= 12 && 1 <= d <= DaysIn(mo, y)
    ensures ParseTime(s) == Some(CivilInstant(y, mo, d, 0, 0, 0))
  {
  }

  lemma ParsesJan2020()
    ensures ParseTime(Jan2020) == Some(CivilInstant(2020, 1, 1, 0, 0, 0))
  {
    var s := Jan2020;
    Digits4(s[0..4]);
    Digits2(s[5..7]); Digits2(s[8..10]); Digits2(s[11..13]); Digits2(s[14..16]); Digits2(s[17..19]);
    ParsesMidnight(s, 2020, 1, 1);
  }

  lemma ParsesJan2025()
    ensures ParseTime(Jan2025) == Some(CivilInstant(2025, 1, 1, 0, 0, 0))
  {
    var s := Jan2025;
    Digits4(s[0..4]);
    Digits2(s[5..7]); Digits2(s[8..10]); Digits2(s[11..13]); Digits2(s[14..16]); Digits2(s[17..19]);
    ParsesMidnight(s, 2025, 1, 1);
  }

  lemma ParsesJan2099()
    ensures ParseTime(Jan2099) == Some(CivilInstant(2099, 1, 1, 0, 0, 0))
  {
    var s := Jan2099;
    Digits4(s[0..4]);
    Digits2(s[5..7]); Digits2(s[8..10]); Digits2(s[11..13]); Digits2(s[14..16]); Digits2(s[17..19]);
    ParsesMidnight(s, 2099, 1, 1);
  }

  lemma ParsesJun2099()
    ensures ParseTime(Jun2099) == Some(CivilInstant(2099, 6, 1, 0, 0, 0))
  {
    var s := Jun2099;
    Digits4(s[0..4]);
    Digits2(s[5..7]); Digits2(s[8..10]); Digits2(s[11..13]); Digits2(s[14..16]); Digits2(s[17..19]);
    ParsesMidnight(s, 2099, 6, 1);
  }

  function Row(nameValue: string, notBefore: string, notAfter: string): CrtLog {
    CrtLog(false, 0, "", 0, "", nameValue, notAfter, ZeroTime, notBefore, ZeroTime, 0, "")
  }

  const Old2020: CrtLog := Row("a.example.com", Jan2020, Jan2020)
  const New2025: CrtLog := Row("a.example.com", Jan2020, Jan2025)

  /** Of two stored candidates under one key, the later one replaces the earlier one. */
  lemma LaterOfTwoKept(first: CrtLog, second: CrtLog, now: Instant)
    requires SiteKey(first.nameValue) == SiteKey(second.nameValue)
    requires first.notAfterTime < second.notAfterTime && Survives(second, now)
    ensures SiteKey(second.nameValue) in Selected([first, second], now)
    ensures Selected([first, second], now)[SiteKey(second.nameValue)] == second
  {
    var rows := [first, second];
    assert rows[..1] == [first] && rows[..1][..0] == [];
    assert Selected(rows[..1], now) == Offer(map[], first, now);
    assert Selected(rows, now) == Offer(Offer(map[], first, now), second, now);
  }

  /** Of two candidates under one key, the later one is not displaced by the earlier one. */
  lemma LaterOfTwoStays(first: CrtLog, second: CrtLog, now: Instant)
    requires SiteKey(first.nameValue) == SiteKey(second.nameValue)
    requires second.notAfterTime < first.notAfterTime && Survives(first, now)
    ensures SiteKey(first.nameValue) in Selected([first, second], now)
    ensures Selected([first, second], now)[SiteKey(first.nameValue)] == first
  {
    var rows := [first, second];
    assert rows[..1] == [first] && rows[..1][..0] == [];
    assert Selected(rows[..1], now) == Offer(map[], first, now);
    assert Selected(rows, now) == Offer(Offer(map[], first, now), second, now);
  }

  lemma NormalizeTwo(a: CrtLog, b: CrtLog, now: Instant)
    ensures NormalizeAll([a, b], now) == [NormalizeEntry(a, now), NormalizeEntry(b, now)]
  {
  }

  /**
   * Two rows for one site whose NotAfter texts both parse: in either order,
   * the row with the later NotAfter is the one kept, whenever it survives.
   */
  lemma LaterNotAfterKept(earlier: CrtLog, later: CrtLog, now: Instant)
    requires earlier.nameValue == later.nameValue
    requires ParseTime(earlier.notAfter).Some? && ParseTime(later.notAfter).Some?
    requires ParseTime(earlier.notAfter).value < ParseTime(later.notAfter).value
    requires now - GraceWindow <= ParseTime(later.notAfter).value
    ensures SiteKey(later.nameValue) in Selected(NormalizeAll([earlier, later], now), now)
    ensures Selected(NormalizeAll([earlier, later], now), now)[SiteKey(later.nameValue)] == NormalizeEntry(later, now)
    ensures SiteKey(later.nameValue) in Selected(NormalizeAll([later, earlier], now), now)
    ensures Selected(NormalizeAll([later, earlier], now), now)[SiteKey(later.nameValue)] == NormalizeEntry(later, now)
  {
    var n1, n2 := NormalizeEntry(earlier, now), NormalizeEntry(later, now);
    NormalizeTwo(earlier, later, now);
    NormalizeTwo(later, earlier, now);
    LaterOfTwoKept(n1, n2, now);
    LaterOfTwoStays(n2, n1, now);
  }

  /**
   * Two rows for "a.example.com", valid until 2020 and until 2025: in either
   * order, the 2025 row is the one kept, whenever it survives the filter.
   */
  lemma NewestRowKept(now: Instant)
    requires now - GraceWindow <= CivilInstant(2025, 1, 1, 0, 0, 0)
    ensures SiteKey("a.example.com") in Selected(NormalizeAll([Old2020, New2025], now), now)
    ensures SiteKey("a.example.com") in Selected(NormalizeAll([New2025, Old2020], now), now)
    ensures Selected(NormalizeAll([Old2020, New2025], now), now)[SiteKey("a.example.com")] == NormalizeEntry(New2025, now)
    ensures Selected(NormalizeAll([New2025, Old2020], now), now)[SiteKey("a.example.com")] == NormalizeEntry(New2025, now)
  {
    ParsesJan2020();
    ParsesJan2025();
    LaterNotAfterKept(Old2020, New2025, now);
  }

  /**
   * A row valid from June 2099 but until January 2099 is flagged expired at
   * any time before June 2099, however its NotAfter compares.
   */
  lemma NotYetValidIsExpired(now: Instant)
    requires now < CivilInstant(2099, 6, 1, 0, 0, 0)
    ensures NormalizeEntry(Row("future.example.com", Jun2099, Jan2099), now).expired
  {
    ParsesJan2099();
    ParsesJun2099();
  }

  /** A malformed NotAfter leaves expired and timeLeft at their defaults. */
  lemma MalformedNotAfterTolerated(now: Instant)
    ensures var e := Row("bad.example.com", Jan2020, "not-a-date");
      && NormalizeEntry(e, now) == e.(notAfterTime := ZeroTime)
      && !NormalizeEntry(e, now).expired && NormalizeEntry(e, now).timeLeft == 0
  {
  }

  /** A presented certificate with another NotAfter is reported at error level, with the reason. */
  lemma NotAfterMismatchIsError(site: string, e: CrtLog, notBefore: Instant, notAfter: Instant)
    requires !e.expired && notAfter != e.notAfterTime
    ensures var line := LineFor(site, ApplyProbe(e, Probe(Some(Cert(notBefore, notAfter)), None)));
      line.level == Error && line.actual == Some("NotAfter mismatch")
  {
  }

  /** A dial that fails with a non-empty error is reported at error level, with the error text. */
  lemma DialFailureIsError(site: string, e: CrtLog, err: string)
    requires !e.expired && err != ""
    ensures var line := LineFor(site, ApplyProbe(e, Probe(None, Some(err))));
      line.level == Error && line.actual == Some(err)
  {
  }
}
