/** The site index and the report: one line per site, with its severity. */
module Report {
  import opened Wrappers
  import opened Timestamps
  import opened CrtLogs

  datatype Level = Info | Warn | Error

  /**
   * The severity of a site's line: warn when expired, otherwise error when
   * live verification left an annotation, otherwise info.
   */
  function Severity(e: CrtLog): (level: Level)
    ensures level == Warn <==> e.expired
    ensures level == Error <==> !e.expired && e.actual != ""
    ensures level == Info <==> !e.expired && e.actual == ""
  {
    if e.expired then Warn
    else if e.actual != "" then Error
    else Info
  }

  /** One logged line: the site, its severity and its fields; actual only at error level. */
  datatype ReportLine = ReportLine(
    site: string,
    level: Level,
    notAfter: string,
    notBefore: string,
    timeLeft: Duration,
    expired: bool,
    actual: Option<string>)

  function LineFor(site: string, e: CrtLog): (line: ReportLine)
    ensures line.site == site && line.level == Severity(e)
    ensures line.notAfter == e.notAfter && line.notBefore == e.notBefore
    ensures line.timeLeft == e.timeLeft && line.expired == e.expired
    ensures line.actual.Some? <==> line.level == Error
    ensures line.actual.Some? ==> line.actual.value == e.actual != ""
  {
    var level := Severity(e);
    ReportLine(site, level, e.notAfter, e.notBefore, e.timeLeft, e.expired,
               if level == Error then Some(e.actual) else None)
  }

  /**
   * The unique list of sites: every key of the map once, in an order the
   * model leaves open, as Go's map iteration does.
   */
  method IndexSites(validSites: map<string, CrtLog>) returns (index: seq<string>)
    ensures |index| == |validSites|
    ensures forall i :: 0 <= i < |index| ==> index[i] in validSites
    ensures forall k :: k in validSites ==> k in index
    ensures forall i, j :: 0 <= i < j < |index| ==> index[i] != index[j]
  {
    index := [];
    var rest := validSites.Keys;
    while rest != {}
      invariant rest <= validSites.Keys
      invariant forall i :: 0 <= i < |index| ==> index[i] in validSites && index[i] !in rest
      invariant forall k :: k in validSites ==> k in index || k in rest
      invariant forall i, j :: 0 <= i < j < |index| ==> index[i] != index[j]
      invariant |index| + |rest| == |validSites|
    {
      var site :| site in rest;
      index := index + [site];
      rest := rest - {site};
    }
  }

  /** The report loop over the sorted index: one line per site, in index order. */
  method ReportLines(validSites: map<string, CrtLog>, order: seq<string>) returns (report: seq<ReportLine>)
    requires forall i :: 0 <= i < |order| ==> order[i] in validSites
    ensures |report| == |order|
    ensures forall i :: 0 <= i < |order| ==> report[i] == LineFor(order[i], validSites[order[i]])
  {
    report := [];
    for i := 0 to |order|
      invariant |report| == i
      invariant forall j :: 0 <= j < i ==> report[j] == LineFor(order[j], validSites[order[j]])
    {
      var site := order[i];
      report := report + [LineFor(site, validSites[site])];
    }
  }
}
