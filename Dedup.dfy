/**
 * Filtering and deduplication: the map from name-set key to the newest
 * surviving log row for that key.
 */
module Dedup {
  import opened Wrappers
  import opened Timestamps
  import opened CrtLogs

  /**
   * The dedup key: nameValue with every newline replaced by a comma
   * (strings.ReplaceAll with one-character pattern and replacement).
   */
  function SiteKey(nameValue: string): (key: string)
    ensures |key| == |nameValue|
  {
    if nameValue == [] then []
    else [if nameValue[0] == '\n' then ',' else nameValue[0]] + SiteKey(nameValue[1..])
  }

  /**
   * The key is nameValue with each newline, and nothing else, turned into a
   * comma: it holds no newline and equals nameValue when there was none.
   */
  lemma {:induction false} SiteKeyReplacesNewlines(nameValue: string)
    ensures forall i :: 0 <= i < |nameValue| ==>
      SiteKey(nameValue)[i] == if nameValue[i] == '\n' then ',' else nameValue[i]
    ensures '\n' !in SiteKey(nameValue)
    ensures '\n' !in nameValue ==> SiteKey(nameValue) == nameValue
  {
    if nameValue != [] {
      SiteKeyReplacesNewlines(nameValue[1..]);
      var key := SiteKey(nameValue);
      assert key == [if nameValue[0] == '\n' then ',' else nameValue[0]] + SiteKey(nameValue[1..]);
      forall i | 1 <= i < |nameValue|
        ensures key[i] == if nameValue[i] == '\n' then ',' else nameValue[i]
      {
        assert key[i] == SiteKey(nameValue[1..])[i - 1];
      }
    }
  }

  /** Thirty days, the grace window after NotAfter during which a row is still kept. */
  const GraceWindow: int := 30 * 24 * 3600 * NanosPerSecond

  /** A row is dropped when now minus thirty days is strictly after its notAfterTime. */
  predicate Survives(e: CrtLog, now: Instant) {
    !(now - GraceWindow > e.notAfterTime)
  }

  /**
   * One iteration of the filter-and-deduplicate loop: a dropped row changes
   * nothing; a new key is stored; a stored row is replaced only by a row
   * with a strictly later notAfterTime, so ties keep the first seen.
   */
  function Offer(sites: map<string, CrtLog>, e: CrtLog, now: Instant): (r: map<string, CrtLog>)
    ensures r.Keys == if Survives(e, now) then sites.Keys + {SiteKey(e.nameValue)} else sites.Keys
    ensures forall k :: k in sites && k != SiteKey(e.nameValue) ==> r[k] == sites[k]
    ensures SiteKey(e.nameValue) in r ==>
      r[SiteKey(e.nameValue)] == e || (SiteKey(e.nameValue) in sites && r[SiteKey(e.nameValue)] == sites[SiteKey(e.nameValue)])
    ensures SiteKey(e.nameValue) in sites && r[SiteKey(e.nameValue)] != sites[SiteKey(e.nameValue)] ==>
      Survives(e, now) && sites[SiteKey(e.nameValue)].notAfterTime < e.notAfterTime
    ensures Survives(e, now) && SiteKey(e.nameValue) in sites && sites[SiteKey(e.nameValue)].notAfterTime < e.notAfterTime ==>
      r[SiteKey(e.nameValue)] == e
  {
    var name := SiteKey(e.nameValue);
    if !Survives(e, now) then sites
    else if name in sites then
      if sites[name].notAfterTime < e.notAfterTime then sites[name := e] else sites
    else sites[name := e]
  }

  /** The map the loop has built after seeing the rows of `entries`, in order. */
  function Selected(entries: seq<CrtLog>, now: Instant): map<string, CrtLog> {
    if entries == [] then map[]
    else Offer(Selected(entries[..|entries| - 1], now), entries[|entries| - 1], now)
  }

  /** entries[i] is a row that survives the filter and has key k. */
  ghost predicate Candidate(entries: seq<CrtLog>, now: Instant, i: int, k: string) {
    0 <= i < |entries| && Survives(entries[i], now) && SiteKey(entries[i].nameValue) == k
  }

  /** A key is stored exactly when some surviving row has that key. */
  lemma {:induction false} SelectedKeys(entries: seq<CrtLog>, now: Instant, k: string)
    ensures k in Selected(entries, now) <==> exists i :: Candidate(entries, now, i, k)
  {
    if entries != [] {
      var n := |entries| - 1;
      var prefix := entries[..n];
      SelectedKeys(prefix, now, k);
      if k in Selected(entries, now) && k !in Selected(prefix, now) {
        assert Candidate(entries, now, n, k);
      }
      if exists i :: Candidate(prefix, now, i, k) {
        var i :| Candidate(prefix, now, i, k);
        assert Candidate(entries, now, i, k);
      }
      if exists i :: Candidate(entries, now, i, k) {
        var i :| Candidate(entries, now, i, k);
        if i < n {
          assert Candidate(prefix, now, i, k);
        }
      }
    }
  }

  /**
   * Newest wins: the row stored under k is the surviving row of key k at some
   * index j whose notAfterTime is at least that of every surviving row of
   * key k and strictly later than that of every such row before j.
   */
  ghost predicate ChosenAt(entries: seq<CrtLog>, now: Instant, k: string, j: int, stored: CrtLog) {
    && Candidate(entries, now, j, k)
    && stored == entries[j]
    && (forall i :: Candidate(entries, now, i, k) ==> entries[i].notAfterTime <= stored.notAfterTime)
    && (forall i :: Candidate(entries, now, i, k) && i < j ==> entries[i].notAfterTime < stored.notAfterTime)
  }

  lemma {:induction false} SelectedNewest(entries: seq<CrtLog>, now: Instant, k: string)
    requires k in Selected(entries, now)
    ensures exists j :: ChosenAt(entries, now, k, j, Selected(entries, now)[k])
  {
    var n := |entries| - 1;
    var prefix := entries[..n];
    var e := entries[n];
    var before := Selected(prefix, now);
    var stored := Selected(entries, now)[k];
    forall i | 0 <= i < n
      ensures Candidate(prefix, now, i, k) <==> Candidate(entries, now, i, k)
    {
      assert prefix[i] == entries[i];
    }
    var isNew := Survives(e, now) && SiteKey(e.nameValue) == k;
    if k in before {
      SelectedNewest(prefix, now, k);
      var j :| ChosenAt(prefix, now, k, j, before[k]);
      if isNew && before[k].notAfterTime < e.notAfterTime {
        assert stored == e;
        forall i | Candidate(entries, now, i, k)
          ensures entries[i].notAfterTime <= stored.notAfterTime
          ensures i < n ==> entries[i].notAfterTime < stored.notAfterTime
        {
          if i < n {
            assert Candidate(prefix, now, i, k);
          }
        }
        assert ChosenAt(entries, now, k, n, stored);
      } else {
        assert stored == before[k];
        assert Candidate(entries, now, j, k);
        forall i | Candidate(entries, now, i, k)
          ensures entries[i].notAfterTime <= stored.notAfterTime
          ensures i < j ==> entries[i].notAfterTime < stored.notAfterTime
        {
          if i < n {
            assert Candidate(prefix, now, i, k);
          }
        }
        assert ChosenAt(entries, now, k, j, stored);
      }
    } else {
      SelectedKeys(prefix, now, k);
      assert isNew && stored == e;
      assert forall i :: Candidate(entries, now, i, k) ==> i == n;
      assert ChosenAt(entries, now, k, n, stored);
    }
  }

  /** Every stored row is stored under its own key and survives the filter. */
  lemma SelectedWellKeyed(entries: seq<CrtLog>, now: Instant)
    ensures forall k :: k in Selected(entries, now) ==>
      SiteKey(Selected(entries, now)[k].nameValue) == k && Survives(Selected(entries, now)[k], now)
  {
    forall k | k in Selected(entries, now)
      ensures SiteKey(Selected(entries, now)[k].nameValue) == k && Survives(Selected(entries, now)[k], now)
    {
      SelectedNewest(entries, now, k);
    }
  }

  /**
   * Selecting from rows that are each the stored row of their own key in
   * `sites` stores each of them under its key.
   */
  lemma {:induction false} SelectedFromStored(rows: seq<CrtLog>, now: Instant, sites: map<string, CrtLog>)
    requires forall i :: 0 <= i < |rows| ==>
      SiteKey(rows[i].nameValue) in sites && sites[SiteKey(rows[i].nameValue)] == rows[i]
    ensures forall k :: k in Selected(rows, now) ==> k in sites && Selected(rows, now)[k] == sites[k]
  {
    if rows != [] {
      var n := |rows| - 1;
      var prefix := rows[..n];
      assert forall i :: 0 <= i < n ==> prefix[i] == rows[i];
      SelectedFromStored(prefix, now, sites);
    }
  }

  /**
   * Deduplication is idempotent: feeding the selected rows back in, in any
   * order and with repeats, selects the same map.
   */
  lemma SelectIdempotent(entries: seq<CrtLog>, rows: seq<CrtLog>, now: Instant)
    requires forall i :: 0 <= i < |rows| ==> rows[i] in Selected(entries, now).Values
    requires forall k :: k in Selected(entries, now) ==> Selected(entries, now)[k] in rows
    ensures Selected(rows, now) == Selected(entries, now)
  {
    var sites := Selected(entries, now);
    SelectedWellKeyed(entries, now);
    forall i | 0 <= i < |rows|
      ensures Survives(rows[i], now) && SiteKey(rows[i].nameValue) in sites && sites[SiteKey(rows[i].nameValue)] == rows[i]
    {
      var k :| k in sites && sites[k] == rows[i];
    }
    SelectedFromStored(rows, now, sites);
    forall k | k in sites ensures k in Selected(rows, now) {
      var i :| 0 <= i < |rows| && rows[i] == sites[k];
      SelectedKeys(rows, now, k);
      assert Candidate(rows, now, i, k);
    }
  }

  /**
   * The filter-and-deduplicate loop: for each row in order, compute its key,
   * skip it when it expired more than thirty days before now, otherwise store
   * it unless the key already holds a row that is not strictly older.
   */
  method SelectSites(entries: seq<CrtLog>, now: Instant) returns (validSites: map<string, CrtLog>)
    ensures validSites == Selected(entries, now)
    ensures forall k :: k in validSites ==> SiteKey(validSites[k].nameValue) == k && Survives(validSites[k], now)
    ensures forall i :: 0 <= i < |entries| && Survives(entries[i], now) ==>
      && SiteKey(entries[i].nameValue) in validSites
      && entries[i].notAfterTime <= validSites[SiteKey(entries[i].nameValue)].notAfterTime
  {
    validSites := map[];
    for i := 0 to |entries|
      invariant validSites == Selected(entries[..i], now)
    {
      assert entries[..i + 1][..i] == entries[..i];
      var site := entries[i];
      var name := SiteKey(site.nameValue);
      if now - GraceWindow > site.notAfterTime {
        continue;
      }
      if name in validSites {
        if validSites[name].notAfterTime < site.notAfterTime {
          validSites := validSites[name := site];
        }
      } else {
        validSites := validSites[name := site];
      }
    }
    assert entries[..|entries|] == entries;
    SelectedWellKeyed(entries, now);
    forall i | 0 <= i < |entries| && Survives(entries[i], now)
      ensures SiteKey(entries[i].nameValue) in validSites
      ensures entries[i].notAfterTime <= validSites[SiteKey(entries[i].nameValue)].notAfterTime
    {
      var k := SiteKey(entries[i].nameValue);
      SelectedKeys(entries, now, k);
      assert Candidate(entries, now, i, k);
      SelectedNewest(entries, now, k);
    }
  }

  /**
   * A row whose NotAfter does not parse keeps Go's zero time and is never
   * stored, as long as now is more than thirty days after the zero time.
   */
  lemma UnparsedNeverSelected(entries: seq<CrtLog>, now: Instant)
    requires now - GraceWindow > ZeroTime
    ensures forall k :: k in Selected(NormalizeAll(entries, now), now) ==>
      ParseTime(Selected(NormalizeAll(entries, now), now)[k].notAfter).Some?
  {
    var rows := NormalizeAll(entries, now);
    forall k | k in Selected(rows, now)
      ensures ParseTime(Selected(rows, now)[k].notAfter).Some?
    {
      SelectedNewest(rows, now, k);
      var j :| ChosenAt(rows, now, k, j, Selected(rows, now)[k]);
      assert rows[j] == NormalizeEntry(entries[j], now);
    }
  }
}
