# Metrics store of the blue-green demo service

The demo Flask service keeps one shared block of metrics, `app_data`: a
request counter, a health-check counter, an error counter, the start time,
the timestamps of `/api` calls and a log of the ten most recent dashboard
visitors. The `/`, `/api`, `/health` and `/reset` handlers update that block
under one lock; `/stats` reads it under the lock, and `/health` builds its
answer after releasing it. This project models that block as a Dafny class, `Metrics.MetricsStore`,
with one method per handler (`/`, `/api`, `/health`, `/stats`, `/reset`). It
also models the pure parts the handlers use:

- `Uptime`: Python's `int()` truncation of elapsed float seconds, the
  hours/minutes/seconds split of `format_uptime`, and its `"<h>h <m>m <s>s"`
  rendering with `str()` of integers, with a reader that parses that text back;
- `VisitorLog`: the recorded client address, the keep-the-newest-ten cap, the
  reversed order the dashboard shows, and the count of distinct addresses;
- `Wrappers`: an `Option` for the possibly missing remote address.

Wall-clock time is never read inside the model. Each handler method takes
`now`, in seconds (a real, as `time.time()` returns a float), and the dashboard
visit also takes `clock`, the time of day already formatted as `HH:MM:SS`.

`reset` (app/app.py:454-459) answers "All counters reset successfully"
(app/app.py:461) but does not reset `errors` (app/app.py:22), so
`MetricsStore.Reset` keeps `errors` as it was. No handler changes `errors`,
so it stays 0.

`Metrics.ResetThenStats` is a small client of the store: after a reset,
statistics read within the same second report zero counts, no distinct
visitors, an uptime of 0 and a request rate of 0, so there is no division by
zero.

## Model

| member | source | states |
|---|---|---|
| `Uptime.Truncate` | app/app.py:358 | `int()` of a float truncates toward zero: the result is the float's floor when it is not negative and its ceiling when it is negative |
| `Uptime.Elapsed` | app/app.py:432 | the uptime is the whole number of seconds since the start time, rounded toward zero: within one second below the true difference when the clock reads at or after the start time, within one second above it and never positive when the clock reads earlier |
| `Uptime.Split` | app/app.py:336-339 | minutes and seconds lie in 0..59 and hours*3600 + minutes*60 + seconds gives back the input, including negative inputs, as Python's floor `//` and `%` do; hours are not negative for a non-negative input |
| `Uptime.SplitUnique` | app/app.py:336-339 | any hours/minutes/seconds triple with minutes and seconds in 0..59 that adds back up to the input is the split `format_uptime` computes |
| `Uptime.NatToDecimal` | app/app.py:340 | `str()` of a non-negative integer is a non-empty string of decimal digits with no leading zero, and 0 is written as the single digit "0" |
| `Uptime.DecimalRoundTrip` | app/app.py:340 | reading the digits `str()` writes for a non-negative integer gives back that integer |
| `Uptime.IntToDecimal` | app/app.py:340 | `str()` of an integer is digits alone exactly when it is not negative and starts with a minus sign exactly when it is negative; for a non-negative integer the text is `str()` of the nat, and for a negative one the sign is followed by `str()` of the magnitude |
| `Uptime.IntRoundTrip` | app/app.py:340 | reading the text `str()` writes for any integer, with an optional minus sign, gives back that integer |
| `Uptime.FormatUptime` | app/app.py:336-340 | the rendered `"<h>h <m>m <s>s"` text; its contract is stated by `Uptime.UptimeRoundTrip` and `Uptime.UptimeReadsBack` |
| `Uptime.UptimeRoundTrip` | app/app.py:336-340 | reading back the rendered uptime text gives exactly the hours, minutes and seconds of the split, for every integer |
| `Uptime.UptimeReadsBack` | app/app.py:336-340 | the hours, minutes and seconds read back from the rendered uptime text add up to exactly the number of seconds it was rendered from, for every integer |
| `Uptime.FormatUptimeFields` | app/app.py:340 | the rendered uptime shows minutes and seconds without a sign, and hours without a sign whenever the uptime is not negative |
| `Uptime.FormatUptimeExamples` | app/app.py:336-340 | 3661 seconds render as "1h 1m 1s" and 59 seconds as "0h 0m 59s" |
| `VisitorLog.VisitorIp` | app/app.py:348 | the recorded address is the remote address when it is present and non-empty, and "unknown" otherwise, so it is never empty |
| `VisitorLog.Recent` | app/app.py:356 | the `[-10:]` slice; its contract is stated by `VisitorLog.RecentIsNewestSuffix` |
| `VisitorLog.RecentIsNewestSuffix` | app/app.py:356 | the `[-10:]` slice keeps min(length, 10) entries, and they are the newest ones in their original order |
| `VisitorLog.RecentWithinCap` | app/app.py:356 | a log of at most ten entries is left as it is by the slice |
| `VisitorLog.RecentOfRecent` | app/app.py:356 | slicing, appending more entries and slicing again keeps the same entries as appending first and slicing once |
| `VisitorLog.PushVisitor` | app/app.py:349-356 | the append followed by the slice; its contract is stated by `VisitorLog.PushVisitorKeepsNewest` |
| `VisitorLog.PushBelowCap` | app/app.py:349-356 | while the log holds fewer than ten visitors a visit is simply appended |
| `VisitorLog.PushVisitorKeepsNewest` | app/app.py:349-356 | after a visit the log has min(old length + 1, 10) entries, the new visitor is the last one, and the others are the newest entries of the old log |
| `VisitorLog.ReplayKeepsNewest` | app/app.py:349-356 | any series of visits, starting from a log within the cap, leaves exactly the newest ten of the old log and the new visits taken together |
| `VisitorLog.ReplayFromEmpty` | app/app.py:349-356 | from an empty log, n visits leave min(n, 10) entries, which are the last min(n, 10) visits, the latest one at the end |
| `VisitorLog.Reversed` | app/app.py:370 | the `[::-1]` copy has the same length and holds entry length-1-k at position k |
| `VisitorLog.NewestFirst` | app/app.py:349-370 | the dashboard lists the visitor just recorded first, and while the log is under its cap it lists the oldest retained visitor last |
| `VisitorLog.Addresses` | app/app.py:439 | the set of distinct addresses; its contract is stated by `VisitorLog.AddressesExactly` and `VisitorLog.AddressesBound` |
| `VisitorLog.AddressesAppend` | app/app.py:439 | logging one more visit adds exactly its address to the set of distinct addresses |
| `VisitorLog.AddressesBound` | app/app.py:439 | the number of distinct addresses is at most the number of logged visitors, and at least 1 when the log is not empty |
| `VisitorLog.AddressesExactly` | app/app.py:439 | an address is counted exactly when some logged visitor has it |
| `VisitorLog.TwoAddressesExample` | app/app.py:344-356 | three visits from one address and one from another, starting from an empty log, leave four entries and two distinct addresses |
| `Metrics.RequestsPerMinute` | app/app.py:442 | requests per minute is 0 when the uptime is not positive, and otherwise times the uptime in seconds equals 60 times the request count; it is never negative |
| `Metrics.MetricsStore.constructor` | app/app.py:16-23 | the store starts with every counter at zero, both logs empty and the start time set to the current time |
| `Metrics.MetricsStore.RecordVisit` | app/app.py:344-370 | a dashboard visit adds exactly 1 to the request count, pushes the visitor onto the log with eviction of the oldest past ten, keeps at most ten visitors with non-empty addresses, and changes nothing else; the page shows the new counts, the uptime and its formatting, and the log newest first |
| `Metrics.MetricsStore.RecordApiCall` | app/app.py:377-391 | an `/api` call adds exactly 1 to the request count, appends one timestamp to the call log, reports the old call count plus one, and changes nothing else |
| `Metrics.MetricsStore.RecordHealthCheck` | app/app.py:402-412 | a health check adds exactly 1 to the health-check count and changes nothing else, in particular not the request count |
| `Metrics.MetricsStore.Stats` | app/app.py:431-442 | `/stats` changes nothing and reports the counters, the number of distinct logged addresses (at most the log length, which is at most ten), the uptime and its formatting, and a request rate that is 0 whenever the uptime is not positive |
| `Metrics.MetricsStore.Reset` | app/app.py:454-459 | reset sets both counters to 0, empties both logs, sets the start time to the current time and leaves the error counter as it was |

## Left out

- Flask routing, template rendering, JSON formatting and the inlined HTML, CSS and JavaScript are presentation. The model returns the values a page or response is built from (`Dashboard`, `ApiReport`, `HealthReport`, `Statistics`) and not the rendered text.
- The lock is not modelled. The body of each modelled handler runs under it, so each method is one atomic step. `health` reads the counter and the start time after releasing the lock, and a concurrent update in that gap is not modelled.
- `time.time()`, `datetime.now()`, `socket.gethostname()`, `os.getenv` and the interpreter version are environment reads. Time comes in as the `now` and `clock` parameters. The other values appear only in responses and are not modelled.
- A handler reads the clock several times, microseconds apart: for the visitor's time of day, its timestamp, and the uptime. The model uses one `now` per call for all of them.
- Float rounding of `time.time() - start_time` is not modelled: the difference is exact in `real`.
- `Metrics.RequestsPerMinute`: it is the exact quotient. The float division and `round(..., 2)` of the service are not modelled.
- The random values in the dashboard and in `/api` have no behavioural contract and are not modelled.
- The `/info` endpoint only reads static metadata, and the `__main__` start-up only binds the port. Neither is modelled.
- The `/api` call log grows without bound until a reset, as in the service. The model keeps it as an unbounded sequence.
