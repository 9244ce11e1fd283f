/**
 * The whole run for one domain: the rows fetched for the domain and for its
 * wildcard form are normalised, filtered and deduplicated, each selected
 * site is verified live, and the sites are reported in sorted order.
 */
module Watch {
  import opened Wrappers
  import opened Timestamps
  import opened CrtLogs
  import opened Dedup
  import opened LiveVerify
  import opened Order
  import opened Report

  /** The position of x in s. */
  function IndexOf(s: seq<string>, x: string): (i: nat)
    requires x in s
    ensures i < |s| && s[i] == x
  {
    if s[0] == x then 0 else 1 + IndexOf(s[1..], x)
  }

  ghost predicate Distinct(s: seq<string>) {
    forall i, j :: 0 <= i < j < |s| ==> s[i] != s[j]
  }

  lemma {:induction false} DistinctCountsOnce(s: seq<string>, x: string)
    requires Distinct(s)
    ensures multiset(s)[x] <= 1
  {
    if s != [] {
      var n := |s| - 1;
      assert s == s[..n] + [s[n]];
      DistinctCountsOnce(s[..n], x);
      assert s[n] !in s[..n];
    }
  }

  /** A rearrangement of a sequence without repeats has no repeats. */
  lemma PermutationKeepsDistinct(s: seq<string>, t: seq<string>)
    requires multiset(s) == multiset(t) && Distinct(s)
    ensures Distinct(t)
  {
    forall i, j | 0 <= i < j < |t| ensures t[i] != t[j] {
      if t[i] == t[j] {
        assert t == t[..j] + t[j..];
        assert t[i] in t[..j] && t[j] in t[j..];
        assert multiset(t)[t[i]] == multiset(t[..j])[t[i]] + multiset(t[j..])[t[i]];
        DistinctCountsOnce(s, t[i]);
        assert false;
      }
    }
  }

  /** Normalisation then selection over the concatenated row lists. */
  method Collect(crtlog: seq<CrtLog>, wildlog: seq<CrtLog>, now: Instant) returns (validSites: map<string, CrtLog>)
    ensures validSites == Selected(NormalizeAll(crtlog + wildlog, now), now)
  {
    var fetched := crtlog + wildlog;
    var entries := new CrtLog[|fetched|](i requires 0 <= i < |fetched| => fetched[i]);
    assert entries[..] == fetched;
    Normalize(entries, now);
    validSites := SelectSites(entries[..], now);
  }

  /**
   * Sorts a copy of the index and reports each site in that order: the
   * report's sites are the index's, sorted, each once.
   */
  method SortAndReport(checked: map<string, CrtLog>, index: seq<string>) returns (report: seq<ReportLine>)
    requires forall i :: 0 <= i < |index| ==> index[i] in checked
    requires Distinct(index)
    ensures multiset(seq(|report|, i requires 0 <= i < |report| => report[i].site)) == multiset(index)
    ensures forall i, j :: 0 <= i < j < |report| ==>
      LessEq(report[i].site, report[j].site) && report[i].site != report[j].site
    ensures forall i :: 0 <= i < |report| ==>
      report[i].site in index && report[i] == LineFor(report[i].site, checked[report[i].site])
  {
    var order := new string[|index|](i requires 0 <= i < |index| => index[i]);
    assert order[..] == index;
    SortStrings(order);
    PermutationKeepsDistinct(index, order[..]);
    forall i | 0 <= i < order.Length ensures order[i] in index {
      assert order[i] in multiset(order[..]);
    }
    report := ReportLines(checked, order[..]);
    assert seq(|report|, i requires 0 <= i < |report| => report[i].site) == order[..];
  }

  /**
   * The pipeline of main for one domain, given the two fetched row lists,
   * the current time, and the network's answer to each dial. Also returns
   * the unsorted index, whose order fixes which answer each site gets.
   */
  method Run(crtlog: seq<CrtLog>, wildlog: seq<CrtLog>, now: Instant, network: (nat, DialRequest) -> Probe)
    returns (report: seq<ReportLine>, probed: seq<string>)
    // the index lists every selected key exactly once
    ensures Distinct(probed)
    ensures forall k :: k in probed <==> k in Selected(NormalizeAll(crtlog + wildlog, now), now)
    // the report lists the same sites, sorted, each once
    ensures multiset(seq(|report|, i requires 0 <= i < |report| => report[i].site)) == multiset(probed)
    ensures forall i, j :: 0 <= i < j < |report| ==>
      LessEq(report[i].site, report[j].site) && report[i].site != report[j].site
    // each line reports the selected row after its own live check
    ensures forall i :: 0 <= i < |report| ==>
      && report[i].site in probed
      && report[i] == LineFor(report[i].site,
           ApplyProbe(Selected(NormalizeAll(crtlog + wildlog, now), now)[report[i].site],
                      network(IndexOf(probed, report[i].site), DialTo(report[i].site))))
  {
    var validSites := Collect(crtlog, wildlog, now);
    probed := IndexSites(validSites);
    var checked := VerifySites(validSites, probed, network);
    report := SortAndReport(checked, probed);
    forall i | 0 <= i < |report|
      ensures report[i] == LineFor(report[i].site,
        ApplyProbe(validSites[report[i].site], network(IndexOf(probed, report[i].site), DialTo(report[i].site))))
    {
      var p := IndexOf(probed, report[i].site);
      assert checked[probed[p]] == ApplyProbe(validSites[probed[p]], network(p, DialTo(probed[p])));
    }
  }
}
