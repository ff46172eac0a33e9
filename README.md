# traffic-monitor: the two collectors, modelled in Dafny

traffic-monitor is a small Flask application that samples the host's network
byte counters once a second, stores what it samples in SQLite, and shows
current rates and hourly statistics. The repository has two near-duplicate
designs, and this project models the sampling and aggregation logic of both.

* `app.py`, the per-interface collector. Each tick takes a per-NIC counter
  snapshot (`psutil.net_io_counters(pernic=True)`) and diffs it against
  `last_snapshot`. An interface with no baseline is skipped. For the others,
  `current_rates[iface]` is overwritten with the humanized delta, and the raw
  deltas are added into `hourly_traffic`. That table is keyed by the hour
  string alone, so every interface folds into one bucket per hour. At the end
  of the tick `last_snapshot` becomes the new snapshot. `/api/stats` rebuilds
  48 records from the table: yesterday's 24 hours and then today's. `human`
  picks a base-1024 unit.
* `traffic_monitor.py`, the total-counter collector. Each tick diffs the
  machine-wide counters against `previous` and overwrites `traffic_data`. It
  then appends one row `(timestamp, incoming, outgoing)` to the `traffic` log.
  The statistics page groups one day's rows by hour with SUM and AVG and
  formats them with `format_bps` and `format_bytes`.

There are three modules.

* `DateTimes` (`date_times.dfy`) holds Python datetime values as subset types
  and the decimal renderings `strftime` gives them.
* `App` (`app.dfy`) models `app.py`. Two classes hold the state that changes
  in place:
  * `HourlyTraffic` holds the table as a `map` from hour key to byte pair;
  * `Collector` holds `last_snapshot`, `current_rates` and the table.
  Each state change is proved against a specification function defined on
  values: `RatesTick`, `UpsertTick` and `StatsRecordFor`.
* `TrafficMonitor` (`traffic_monitor.dfy`) models `traffic_monitor.py`.
  * Two classes again: `TrafficTable` holds the log as a `seq`, and `Monitor`
    holds `previous`, `traffic_data` and the table.
  * `LogOf` gives the rows a run of ticks appends.
  * `Grouped` is the result of the `GROUP BY hour` query.
  * `FormatBps` and `FormatBytes` are pure functions.

Snapshots, clock readings and the two days of a report are inputs. A snapshot
is a sequence of (interface name, counters) pairs in the order the dict yields
them. A lookup finds the last entry with a given name, and `Collector.Tick`
requires distinct names, as a dict has.

The code does not clamp negative deltas (app.py:95-96, traffic_monitor.py:40-41):
every delta is the raw difference, which is negative after a counter reset.
`current_rates` is updated one entry at a time inside the loop (app.py:97).

The statistics statement of `traffic_monitor.py` names its last column `to`,
which SQLite does not accept as a bare alias (see "## Findings"). `Grouped` and
`Query` model the statement with that alias renamed. `QueryAsWritten` models the
statement as written.

## Model

| member | source | states |
|---|---|---|
| DateTimes.Decimal | app.py:69 | `%Y` renders a year as at least one digit, and as exactly one digit only below 10 |
| DateTimes.DecimalInjective | app.py:69 | different years render to different `%Y` strings |
| DateTimes.Pad2Injective | app.py:69 | the two-digit `%m`/`%d`/`%H` renderings are equal exactly when the numbers are |
| App.UnitFromIsSmallest | app.py:40-47 | `human`'s unit is the smallest, from a given index on, whose next power of 1024 the number stays below; PB is the fallback; every unit passed over was reached |
| App.HumanizedEnds | app.py:42-47 | a number below 1024, a negative one included, comes back unscaled in B; from 1024^5 on the result is the number over 1024^5 in PB |
| App.HumanStep | app.py:43-46 | one pass of the loop: the value scaled to unit i is below 1024 exactly when unit i is chosen; otherwise one more division gives the value scaled to unit i+1 |
| App.Human | app.py:42-47 | the loop that divides by 1024 returns exactly `Humanized(num)`: the smallest qualifying unit and the number divided by its power |
| App.HumanizedBounds | app.py:43-47 | a unit above B means the scaled value is at least 1; a unit below PB means it is below 1024 |
| App.HumanizedMonotone | app.py:42-47 | a larger number never gets a smaller unit, and within one unit the scaled values keep their order |
| App.HumanizedExamples | app.py:42-47 | 1023 stays 1023 B, 1024 is 1 KB, 1048576 is 1 MB, and -5 is -5 B |
| App.HourKey | app.py:99 | the hour key is the year's digits followed by 15 fixed-width characters |
| App.TruncateToHourKeepsKey | app.py:99 | truncating to the hour is idempotent, stays in the same hour and keeps the key |
| App.HourKeyIdentifiesHour | app.py:99 | two timestamps get the same key if and only if they lie in the same calendar hour |
| App.LookupPresent | app.py:92-93 | `last_snapshot.get(iface)` finds a baseline exactly when an entry of that name exists |
| App.LookupAt | app.py:92 | with distinct names, looking an entry's name up returns that entry's counters |
| App.RatesTickPointwise | app.py:91-97 | after a tick, an interface present in both snapshots has the rate of its raw delta; every other entry keeps its old value, a stale one included; no other name appears |
| App.BaselineRollsOver | app.py:92-108 | a newly seen interface gets no rate on its first tick and its first rate on the next, from the new snapshot's counters; a vanished one is no longer updated |
| App.UpsertedMeaning | app.py:101-105 | the upsert creates the row if it is missing, adds the delta to the old value (0 if absent) and changes no other row |
| App.UpsertedTwice | app.py:101-105 | two additive upserts into one bucket equal one upsert of their sum |
| App.UpsertTickIsOneAdd | app.py:91-106 | one tick adds the summed deltas of the baselined interfaces to the single bucket of the hour; with no baselined interface the table is unchanged |
| App.NoBaselineNoDelta | app.py:92-94 | a tick in which no interface has a baseline sums to a zero delta |
| App.SkipWithoutBaselineDelta | app.py:92-96 | an interface without a baseline adds nothing to the tick's summed delta, wherever it sits in the snapshot |
| App.SkipWithoutBaselineTable | app.py:92-105 | an interface without a baseline writes nothing to the table, wherever it sits in the snapshot |
| App.SkipWithoutBaselineRates | app.py:92-97 | an interface without a baseline gets no rate and changes no other one, wherever it sits in the snapshot |
| App.TickDeltaTelescopes | app.py:95-96 | with the same distinct interfaces in the same order in both snapshots, the tick's summed delta is the new total minus the old total, and every interface has a baseline |
| App.SteadyTick | app.py:91-106 | a tick over the same non-empty list of distinct interfaces, in the same order, adds the new total minus the old total to the hour's bucket |
| App.HourTelescopes | app.py:85-108 | over any run of ticks in one hour with a fixed interface set, the hour's bucket gains the final counter total minus the initial total, and no other row changes |
| App.HourlyTraffic.constructor | app.py:26-32 | `CREATE TABLE IF NOT EXISTS` keeps the existing rows |
| App.HourlyTraffic.UpsertAdd | app.py:101-105 | the table after the INSERT/ON CONFLICT statement is the old table with the key's bucket increased by the delta |
| App.Collector.constructor | app.py:36-37 | the first snapshot is the baseline and `current_rates` starts empty |
| App.Collector.Visit | app.py:92-105 | an interface without a baseline leaves every piece of state unchanged; otherwise its rate is overwritten and its delta upserted under the hour key |
| App.Collector.Tick | app.py:88-108 | for a snapshot with distinct names, as a dict has: after a tick, `last_snapshot` is the new snapshot, and `current_rates` and the table are `RatesTick` and `UpsertTick` of their old values, keyed by the truncated clock reading |
| App.FetchRecord | app.py:68-81 | one record: the hour's key, its totals (0 for a missing row) and the totals over 3600, each humanized |
| App.ApiStats | app.py:62-82 | exactly 48 records: record h is yesterday's hour h and record 24+h is today's hour h |
| App.StatsMissingRowIsZero | app.py:71-74 | an hour without a row is reported with zeros, not omitted |
| App.StatsAverageExample | app.py:79-80 | the average is the total over 3600 however many ticks wrote the row: 3600 bytes average to 1 B |
| App.StatsKeysDistinct | app.py:66-69 | records for different (day, hour) slots carry different keys |
| TrafficMonitor.FormatBpsBands | traffic_monitor.py:52-57 | MB/s exactly from 1024^2, KB/s exactly on [1024, 1024^2), B/s unscaled below 1024; value times the unit's factor is the input; a scaled value is at least 1, and below 1024 for KB/s |
| TrafficMonitor.FormatBytesBands | traffic_monitor.py:59-66 | GB exactly from 1024^3 with no larger unit, MB on [1024^2, 1024^3), KB on [1024, 1024^2), B unscaled below 1024; value times factor is the input; KB and MB values lie in [1, 1024) |
| TrafficMonitor.LogOfRows | traffic_monitor.py:36-48 | a run of ticks logs exactly one row per tick, and row i is tick i's time with its raw difference from the previous reading, the import-time reading for the first tick |
| TrafficMonitor.LogTelescopes | traffic_monitor.py:29-48 | the logged incoming deltas sum to the last recv counter minus the one read at import, and the outgoing deltas likewise for sent |
| TrafficMonitor.TrafficTable.constructor | traffic_monitor.py:15-26 | `CREATE TABLE IF NOT EXISTS` keeps the existing rows |
| TrafficMonitor.TrafficTable.Insert | traffic_monitor.py:45-48 | the INSERT appends the row and leaves earlier rows in place |
| TrafficMonitor.Monitor.constructor | traffic_monitor.py:28-30 | the baseline is read at import and `traffic_data` starts at zero |
| TrafficMonitor.Monitor.UpdateTraffic | traffic_monitor.py:38-48 | after a tick, `previous` is the new reading, `traffic_data` is the raw unclamped difference, and the log has gained exactly that row at its end |
| TrafficMonitor.Monitor.Run | traffic_monitor.py:33-49 | after any number of ticks, the log is the old log followed by `LogOf` the samples, `previous` is the last reading, and `traffic_data` is the last tick's delta |
| TrafficMonitor.HourRowsNonEmpty | traffic_monitor.py:108-117 | an hour of the day has rows exactly when some logged row of that day falls in that hour |
| TrafficMonitor.HourRowsBelong | traffic_monitor.py:108-117 | every row counted for an hour is a logged row of that day and that hour |
| TrafficMonitor.GroupsFromOrdered | traffic_monitor.py:108-117 | the groups come in strictly ascending hour order, and each is the group of an hour that has rows |
| TrafficMonitor.GroupsFromComplete | traffic_monitor.py:108-117 | every hour with rows has a group |
| TrafficMonitor.GroupedAscending | traffic_monitor.py:115-116 | the query's hours ascend strictly |
| TrafficMonitor.GroupedHours | traffic_monitor.py:108-117 | an hour is listed if and only if some row of that day falls in it, so empty hours are omitted |
| TrafficMonitor.GroupedTotals | traffic_monitor.py:110-112 | each group's totals are the sums of its hour's rows, and each average is that sum over their count, which is positive |
| TrafficMonitor.GroupedIgnoresOtherDays | traffic_monitor.py:104-114 | a row outside the chosen day never changes that day's statistics |
| TrafficMonitor.HourLabelShape | traffic_monitor.py:122 | a label is the two-digit hour followed by ":00", and different hours get different labels |
| TrafficMonitor.PresentAll | traffic_monitor.py:119-127 | one entry per fetched group, in order, each the group's label with its averages formatted by `format_bps` and its totals by `format_bytes` |
| TrafficMonitor.Query | traffic_monitor.py:104-128 | with the alias corrected: one entry per group of `Grouped`, in the query's order, each presented as `PresentAll` presents it |
| TrafficMonitor.ParseAliases | traffic_monitor.py:109-112 | the aliases parse exactly when none of them is a reserved keyword in any letter case; a rejected alias is one of them and is reserved |
| TrafficMonitor.StatementFailsAsWritten | traffic_monitor.py:112 | the statement as written stops at the alias `to` |
| TrafficMonitor.CorrectedStatementParses | traffic_monitor.py:112 | with the last alias renamed, the statement parses |
| TrafficMonitor.QueryAsWritten | traffic_monitor.py:108-118 | with the statement as written, `execute` raises an OperationalError near the rejected alias before any row is fetched; if it parsed, the result would be `Query`'s |

## Left out

- Flask routes, `render_template`, `jsonify`, Babel, `select_locale`, `get_lang` and `texts`. They are presentation glue. This includes `index`, `api` and `api_current`, which only pass `traffic_data` through `format_bps` or return `current_rates`.
- `stats()` calling `query(1)` and `query(0)`: the two days are inputs to `Query` and `ApiStats`, since calendar arithmetic on `datetime.now()` and `utcnow()` is not modelled.
- `psutil.net_io_counters`: snapshots and readings are inputs.
- sqlite connections, cursors and commits: the tables are a `map` and a `seq`.
- The `BETWEEN start AND end` filter on stored datetime text is modelled as equality of the row's date with the chosen day. For four-digit years this is the same comparison.
- Threads, `time.sleep` and `while True`. One tick is a method, and a finite stretch of ticks is `Monitor.Run`, or the `App.Run` function for the hour bucket.
- Concurrent reads of `current_rates`, `traffic_data` and the tables by the request handlers, which run on other threads, are not modelled.
- Float `.2f` rendering and Python's float repr are not modelled. A formatted number is the chosen unit and the exact real scaled value.
- SQLite's 64-bit integer overflow is not modelled; counters and sums are unbounded integers.
- `%Y` is rendered as the year's unpadded decimal digits, as the C library on Linux renders it.
- App.TickDeltaTelescopes: assumes the same distinct interfaces in the same order in both snapshots. A reordered snapshot with the same names is not covered. Interfaces that come and go are covered by `UpsertTickIsOneAdd` and the `SkipWithoutBaseline` lemmas instead.
- App.SteadyTick: it has the same same-order assumption as `TickDeltaTelescopes`, and also needs at least one interface.
- App.HourTelescopes: also assumes one interface list in one order throughout, at least one interface, and ticks that all fall in the same hour. The hour key is a parameter of `App.Run`.
- The code has no clamping of negative deltas, no logging of anomalies and no atomic replacement of `current_rates`, so the model has none either.
- `ReservedWords` lists only six of SQLite's reserved keywords. That is enough to decide the five aliases of the statistics statement. The rest of SQLite's grammar is not modelled.
- `Date` does not check month lengths; nothing in the model depends on them.

## Findings

| source | as written | input that shows it | evidently intended | confidence | as-written member | corrected member |
|---|---|---|---|---|---|---|
| traffic_monitor.py:112 | `SUM(outgoing) AS to`: TO is an SQLite keyword that may not fall back to an identifier, so the statement does not parse | any call of `query`, for either day: `execute` raises an OperationalError near "to" and `/stats` renders nothing | a non-keyword alias such as `tot_out`; the Python loop unpacks the columns by position, so the name is not used | not executed; read from SQLite's grammar | TrafficMonitor.QueryAsWritten, TrafficMonitor.StatementFailsAsWritten | TrafficMonitor.Query, TrafficMonitor.CorrectedStatementParses |
