/**
 * One row of the certificate transparency log and the first pass over the
 * fetched rows: parsing the validity window and deciding expiry.
 */
module CrtLogs {
  import opened Wrappers
  import opened Timestamps

  /**
   * A log row. The provenance fields (issuerCaId, issuerName, minCertId,
   * minEntryTimestamp) are carried along unread. nameValue is the
   * newline-separated list of subject names; notAfter and notBefore are the
   * logged timestamps as text; the remaining fields are derived here and
   * during live verification.
   */
  datatype CrtLog = CrtLog(
    expired: bool,
    issuerCaId: int,
    issuerName: string,
    minCertId: int,
    minEntryTimestamp: string,
    nameValue: string,
    notAfter: string,
    notAfterTime: Instant,
    notBefore: string,
    notBeforeTime: Instant,
    timeLeft: Duration,
    actual: string)

  /** The value time.Parse leaves behind: the instant, or the zero time on failure. */
  function ParsedOrZero(s: string): (t: Instant)
    ensures ParseTime(s).Some? ==> t == ParseTime(s).value
    ensures ParseTime(s).None? ==> t == ZeroTime
  {
    ParseTime(s).GetOr(ZeroTime)
  }

  /**
   * What one iteration of the normalisation loop does to one row. A NotAfter
   * that does not parse stops the work on that row after zeroing
   * notAfterTime; being past NotAfter does not stop it: NotBefore is still
   * parsed and checked and timeLeft still computed.
   */
  function NormalizeEntry(e: CrtLog, now: Instant): (n: CrtLog)
    // only the four derived fields can change
    ensures n.(expired := e.expired, notAfterTime := e.notAfterTime,
               notBeforeTime := e.notBeforeTime, timeLeft := e.timeLeft) == e
    // a NotAfter that does not parse: zero notAfterTime, nothing else touched
    ensures ParseTime(e.notAfter).None? ==> n == e.(notAfterTime := ZeroTime)
    // expired: already set, past a parsed NotAfter, or before a parsed NotBefore once NotAfter parsed
    ensures n.expired <==>
      || e.expired
      || (ParseTime(e.notAfter).Some? && now > ParseTime(e.notAfter).value)
      || (ParseTime(e.notAfter).Some? && ParseTime(e.notBefore).Some? && now < ParseTime(e.notBefore).value)
    ensures ParseTime(e.notAfter).Some? ==>
      && n.notAfterTime == ParseTime(e.notAfter).value
      && n.notBeforeTime == ParsedOrZero(e.notBefore)
    // a NotBefore that does not parse leaves timeLeft alone
    ensures ParseTime(e.notAfter).Some? && ParseTime(e.notBefore).None? ==> n.timeLeft == e.timeLeft
    // both parse: timeLeft is NotAfter minus now, negative exactly when now is past NotAfter
    ensures ParseTime(e.notAfter).Some? && ParseTime(e.notBefore).Some? ==>
      && n.timeLeft == Sub(n.notAfterTime, now)
      && (n.timeLeft < 0 <==> now > n.notAfterTime)
  {
    var e1 := e.(notAfterTime := ParsedOrZero(e.notAfter));
    if ParseTime(e.notAfter).None? then e1
    else
      var e2 := if now > e1.notAfterTime then e1.(expired := true) else e1;
      var e3 := e2.(notBeforeTime := ParsedOrZero(e.notBefore));
      if ParseTime(e.notBefore).None? then e3
      else
        var e4 := if now < e3.notBeforeTime then e3.(expired := true) else e3;
        e4.(timeLeft := Sub(e4.notAfterTime, now))
  }

  /** Every row normalised independently of the others. */
  function NormalizeAll(entries: seq<CrtLog>, now: Instant): seq<CrtLog> {
    seq(|entries|, i requires 0 <= i < |entries| => NormalizeEntry(entries[i], now))
  }

  /**
   * The normalisation loop, updating the fetched rows in place. Each row is
   * rewritten from its own fields only, so no row affects another.
   */
  method Normalize(crtlog: array<CrtLog>, now: Instant)
    modifies crtlog
    ensures crtlog[..] == NormalizeAll(old(crtlog[..]), now)
  {
    for i := 0 to crtlog.Length
      invariant crtlog[..i] == NormalizeAll(old(crtlog[..]), now)[..i]
      invariant crtlog[i..] == old(crtlog[..])[i..]
    {
      // the fields of crtlog[i] are rewritten in order; a failed parse skips the rest
      var entry := crtlog[i];
      var notAfterTime := ParseTime(entry.notAfter);
      entry := entry.(notAfterTime := notAfterTime.GetOr(ZeroTime));
      if notAfterTime.Some? {
        if now > entry.notAfterTime {
          entry := entry.(expired := true);
        }
        var notBeforeTime := ParseTime(entry.notBefore);
        entry := entry.(notBeforeTime := notBeforeTime.GetOr(ZeroTime));
        if notBeforeTime.Some? {
          if now < entry.notBeforeTime {
            entry := entry.(expired := true);
          }
          entry := entry.(timeLeft := Sub(entry.notAfterTime, now));
        }
      }
      crtlog[i] := entry;
    }
  }
}
