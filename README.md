# crt-watch, modelled in Dafny

crt-watch asks the certificate transparency search service for every logged
certificate of a domain and of its wildcard form, and reports, per distinct
set of subject names, the newest certificate that has not been expired for
more than thirty days. Before reporting it dials each site on port 443 and
compares the certificate the site presents with the logged one. The whole
program is `main.go`; this project models the decision logic of `main`:

- `Timestamps`: instants (nanoseconds since Go's zero time, January 1 of
  year 1, UTC), Go's 64-bit `time.Duration` with the saturating `Time.Sub`,
  and the timestamp layout `2006-01-02T15:04:05`.
- `CrtLogs`: the `CrtLog` record and the normalisation loop, which runs in
  place over an array of rows (`Normalize`) and is specified row by row
  (`NormalizeEntry`).
- `Dedup`: the dedup key, the thirty-day filter and the "newest wins" map
  update (`SelectSites`), specified by a fold over the rows (`Selected`)
  with lemmas for key coverage, newest-wins with first-seen ties, and
  idempotence.
- `LiveVerify`: the probe target (the key's first name), the
  `VerifyPeerCertificate` callback and the dial-error branch, and the loop
  that updates the `actual` field of each site.
- `Order`: Go's string order and the in-place sort of the index.
- `TimestampOrder`: parsing preserves order, so comparing two parsed
  `NotAfterTime` values, as the newest-wins update does, compares the logged
  `NotAfter` texts; this rests on the calendar arithmetic being monotone.
- `Report`: the unique site index, the severity choice and the report loop.
- `Watch`: the pipeline of `main` from the two fetched row lists to the
  sorted report.
- `Scenarios`: the pipeline's stages applied to concrete rows: the newer
  of two certificates kept, a not-yet-valid certificate flagged, a
  malformed timestamp tolerated, a mismatch and a failed dial reported.

The network and the clock are inputs: `now` is a parameter, the fetched rows
are two sequences, and the outcome of each TLS dial is given by a function
from the dial's sequence number and its request to a `Probe` (what the
certificate callback saw, if the handshake reached it, and the dial error,
if any). The report is returned as a sequence of lines instead of being
logged.

In `main.go`, a `NotAfter` that does not parse does not set `Expired`, but it
does overwrite `NotAfterTime` with the zero time (`time.Parse` returns the
zero `Time` with its error), and such a row is then dropped by the
thirty-day filter whenever `now` is more than thirty days after year 1.
Likewise a `NotBefore` that does not parse zeroes `NotBeforeTime` and leaves
`TimeLeft` as it was, while an expiry already found through `NotAfter`
stays set.

## Model

| member | source | states |
|---|---|---|
| `Timestamps.Sub` | main.go:90 | `Time.Sub`: the exact difference in nanoseconds when it fits in 64 bits, otherwise the bound on the side of its sign; negative exactly when the first instant is earlier, zero exactly when equal |
| `Timestamps.Digits` | main.go:68 | a field of the timestamp: some value exactly when every character is a digit, below 10 to the number of digits |
| `Timestamps.ParseTime` | main.go:68 | `time.Parse` with layout `2006-01-02T15:04:05`: a result only for a 19-character string with the layout's punctuation and digits elsewhere; the result is a whole number of seconds |
| `CrtLogs.NormalizeEntry` | main.go:67-91 | one row: only `Expired`, `NotAfterTime`, `NotBeforeTime`, `TimeLeft` change; a failed `NotAfter` parse zeroes `NotAfterTime` and touches nothing else; `Expired` is set iff already set, `now` after a parsed `NotAfter`, or (both parse) `now` before `NotBefore`; expiry through `NotAfter` does not stop the `NotBefore` check; with both parsed `TimeLeft` is `NotAfterTime - now`, negative exactly when `now` is past `NotAfterTime` |
| `CrtLogs.Normalize` | main.go:67-91 | the loop updates every row in place as `NormalizeEntry` says, each from its own fields only |
| `Dedup.SiteKey` | main.go:95 | the key has the length of `NameValue` |
| `Dedup.SiteKeyReplacesNewlines` | main.go:95 | the key is `NameValue` with each newline, and only newlines, replaced by a comma; it has no newline and equals `NameValue` when there was none |
| `Dedup.Offer` | main.go:96-106 | one loop step: a row expired more than 30 days before `now` changes nothing; otherwise its key is stored; other keys are untouched; a stored row is replaced by a surviving row exactly when that row's `NotAfterTime` is strictly later |
| `Dedup.SelectedKeys` | main.go:94-107 | a key is in `ValidSites` exactly when some row that survives the filter has that key |
| `Dedup.SelectedNewest` | main.go:99-106 | the stored row is a surviving input row of that key whose `NotAfterTime` is at least every surviving same-key row's and strictly later than every earlier one's (ties keep the first seen) |
| `Dedup.SelectedWellKeyed` | main.go:95-106 | every stored row sits under its own key and survives the filter |
| `Dedup.SelectIdempotent` | main.go:94-107 | running the deduplication again over the selected rows, in any order, yields the same map |
| `Dedup.SelectSites` | main.go:93-107 | the loop builds exactly the fold `Selected`; no stored row is older than `now` minus 30 days; every surviving row's key is stored with a `NotAfterTime` at least as late |
| `Dedup.UnparsedNeverSelected` | main.go:68-98 | once `now` is more than 30 days after the zero time, no row whose `NotAfter` failed to parse is ever stored |
| `LiveVerify.Host` | main.go:122-125 | the dial target is the key's text before its first comma: a prefix with no comma, followed by a comma or the end; the whole key when it has no comma |
| `LiveVerify.CheckPeer` | main.go:126-145 | the callback changes only `Actual`; a `NotAfter` mismatch wins over a `NotBefore` mismatch; no certificate, an unparseable one or a matching one leaves the row unchanged |
| `LiveVerify.ApplyProbe` | main.go:118-151 | a dial error sets `Actual` to its text, overriding the callback; without one the row is the callback's result, or unchanged if the handshake never reached it |
| `LiveVerify.VerifySite` | main.go:126-151 | the loop body for one site computes `ApplyProbe` step by step |
| `LiveVerify.VerifySites` | main.go:113-153 | the i-th dial goes to `Host(index[i]) + ":443"` with that server name and a 10-second timeout; each probed site's row becomes `ApplyProbe` of its own outcome; unprobed rows and the key set are unchanged |
| `Order.LessEqIsLexicographic` | main.go:156 | Go's string order is a prefix, or the smaller character at the first difference |
| `Order.LessEqTotal` | main.go:156 | any two strings are ordered one way or the other |
| `Order.LessEqAntisymmetric` | main.go:156 | strings ordered both ways are equal |
| `Order.LessEqTransitive` | main.go:156 | the order is transitive |
| `Order.AdjacentSortedIsSorted` | main.go:156 | a sequence with every neighbouring pair in order is sorted |
| `Order.InsertAt` | main.go:156 | one insertion step extends the sorted prefix by one, permuting the array |
| `Order.SortStrings` | main.go:156 | `sort.Strings` leaves the array sorted and a permutation of what it was |
| `TimestampOrder.DigitsOrder` | main.go:68 | two digit fields of the same width compare as text exactly as their values compare, and are equal exactly when their values are |
| `TimestampOrder.TextOrderIsFieldOrder` | main.go:68 | of two timestamps in the layout, one is before the other as text exactly when its (year, month, day, hour, minute, second) is lexicographically smaller, and they are the same text exactly when all fields agree |
| `TimestampOrder.DaysBeforeNextYear` | main.go:68 | the days before the next year are the days before this one plus this year's length (366 in a leap year) |
| `TimestampOrder.DaysBeforeLaterYear` | main.go:68 | every day of a year comes before the first day of any later year |
| `TimestampOrder.DaysBeforeLaterMonth` | main.go:68 | every day of a month comes before the first day of any later month of that year |
| `TimestampOrder.LastMonthEndsYear` | main.go:68 | December ends exactly at the year's length |
| `TimestampOrder.DayNumberOrder` | main.go:68 | valid calendar dates are numbered in calendar order, distinct dates with distinct numbers |
| `TimestampOrder.CivilInstantOrder` | main.go:68 | the instant of a valid date and time is strictly increasing in (year, month, day, hour, minute, second) and one-to-one |
| `TimestampOrder.ParseTimeOrder` | main.go:68 | of two parseable timestamps, the first parses to an earlier instant exactly when its text is before the other's in Go's string order, and to the same instant exactly when the texts are equal |
| `Scenarios.ParsesMidnight` | main.go:68 | a layout-shaped text with fields year, month, day and zero time parses to that day's midnight when the date is valid |
| `Scenarios.ParsesJan2020` | main.go:68 | `2020-01-01T00:00:00` parses to midnight of January 1, 2020 |
| `Scenarios.ParsesJan2025` | main.go:68 | `2025-01-01T00:00:00` parses to midnight of January 1, 2025 |
| `Scenarios.ParsesJan2099` | main.go:68 | `2099-01-01T00:00:00` parses to midnight of January 1, 2099 |
| `Scenarios.ParsesJun2099` | main.go:79 | `2099-06-01T00:00:00` parses to midnight of June 1, 2099 |
| `Scenarios.LaterOfTwoKept` | main.go:99-105 | of two surviving rows with one key, a later second row replaces the first |
| `Scenarios.LaterOfTwoStays` | main.go:99-102 | of two rows with one key, an earlier second row does not displace the first |
| `Scenarios.LaterNotAfterKept` | main.go:67-107 | of two rows for one site with parseable `NotAfter`, the later one is kept in either order, once normalised, whenever it survives the filter |
| `Scenarios.NewestRowKept` | main.go:67-107 | rows for `a.example.com` valid until 2020 and until 2025: the 2025 row is kept, in either order, whenever it survives the thirty-day filter (`now` at most thirty days after January 1, 2025) |
| `Scenarios.NotYetValidIsExpired` | main.go:79-88 | a row valid from June 2099 is flagged expired at any time before then |
| `Scenarios.MalformedNotAfterTolerated` | main.go:68-73 | `NotAfter` of `not-a-date`: the row keeps `Expired` false and `TimeLeft` zero, and only `NotAfterTime` is reset |
| `Scenarios.NotAfterMismatchIsError` | main.go:134-171 | a presented certificate whose `NotAfter` differs puts an unexpired site at error level with `Actual` `NotAfter mismatch` |
| `Scenarios.DialFailureIsError` | main.go:148-171 | a failed dial puts an unexpired site at error level with the error text as `Actual` |
| `Report.Severity` | main.go:166-174 | warn iff expired; error iff not expired and `Actual` is non-empty; info iff neither |
| `Report.LineFor` | main.go:158-174 | a line carries the site, its severity and the row's `NotAfter`, `NotBefore`, `TimeLeft`, `Expired`; `Actual` appears exactly at error level |
| `Report.IndexSites` | main.go:108-111 | the index lists every key of `ValidSites` exactly once, in an unspecified order |
| `Report.ReportLines` | main.go:157-175 | one line per site of the index, in order, built from that site's row |
| `Watch.Collect` | main.go:63-107 | the rows of both queries, normalised and filtered, give exactly `Selected` of the normalised concatenation |
| `Watch.SortAndReport` | main.go:155-175 | the report's sites are the index's, sorted, each once, and each line is built from its site's row |
| `Watch.Run` | main.go:53-177 | the whole run: the index holds each selected key once; the report lists the same keys sorted and distinct; each line is the selected row after its own probe |

## Left out

- `fetchLog` (the HTTPS request and JSON decoding): the two row lists are inputs; the first query's fetch error, which the second assignment overwrites, is not modelled.
- The TLS dial, the handshake and `x509.ParseCertificate`: each dial's outcome is an input (`Probe`); closing the connection has no effect on the model.
- Logging: the parse-error and debug lines are not produced; the report is returned as data.
- `time.Now()` and the monotonic clock reading: `now` is a parameter on the same nanosecond scale as parsed times.
- `time.Time` equality at main.go:134 and main.go:138 is modelled as equality of instants; Go's struct comparison also compares the location, which is UTC on both sides here.
- `now.Add` overflow at main.go:96 is not modelled: the cutoff is `now` minus thirty days as an unbounded integer.
- `Timestamps.ParseTime`: accepts only a two-digit hour and no fractional seconds, whereas Go's parser also takes a one-digit hour and trailing fractional seconds after either a `.` or a `,` separator; its own contract states the shape of accepted strings and whole-second results; the calendar arithmetic is covered by `TimestampOrder.ParseTimeOrder` (order and injectivity), not by a statement of the exact instant.
- Go's map iteration order: `IndexSites` picks the next key nondeterministically, so only "each key once" is stated.
- The algorithm inside `sort.Strings`: the model sorts by insertion, with the same outcome (sorted, a permutation).
- Pointers into `ValidSites`: the map holds row values and each update is an explicit map assignment.
- A missing command-line argument (`os.Args[1]`) is outside the model.
