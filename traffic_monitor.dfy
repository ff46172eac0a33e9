/** The total-counter collector of traffic_monitor.py: once a second it diffs
    the machine-wide counters against the previous reading, overwrites
    `traffic_data` with the delta and appends one row to the `traffic` log.
    The statistics page groups one day's rows by hour, and two threshold
    formatters choose the units. */
module TrafficMonitor {
  import opened DateTimes

  const KIB: real := 1024.0
  const MIB: real := 1048576.0
  const GIB: real := 1073741824.0

  // ---------- format_bps / format_bytes -------------------------------

  datatype RateUnit = BPerSec | KBPerSec | MBPerSec

  /** `format_bps`'s result: the scaled number and its suffix. The " B/s" form prints
      the number as it is; the other two print it with two decimals. */
  datatype Rate = Rate(value: real, unit: RateUnit)

  function RateFactor(u: RateUnit): real {
    match u
    case BPerSec => 1.0
    case KBPerSec => KIB
    case MBPerSec => MIB
  }

  function FormatBps(v: real): Rate {
    if v >= MIB then Rate(v / MIB, MBPerSec)
    else if v >= KIB then Rate(v / KIB, KBPerSec)
    else Rate(v, BPerSec)
  }

  /** The unit bands of `format_bps`, and the bounds of the scaled number in each. */
  lemma FormatBpsBands(v: real)
    ensures FormatBps(v).unit == MBPerSec <==> v >= MIB
    ensures FormatBps(v).unit == KBPerSec <==> KIB <= v < MIB
    ensures FormatBps(v).unit == BPerSec <==> v < KIB
    ensures FormatBps(v).value * RateFactor(FormatBps(v).unit) == v
    ensures FormatBps(v).unit != BPerSec ==> FormatBps(v).value >= 1.0
    ensures FormatBps(v).unit == KBPerSec ==> FormatBps(v).value < 1024.0
  {
  }

  datatype SizeUnit = B | KB | MB | GB

  /** `format_bytes`'s result. The " B" form prints the number as it is. */
  datatype Size = Size(value: real, unit: SizeUnit)

  function SizeFactor(u: SizeUnit): real {
    match u
    case B => 1.0
    case KB => KIB
    case MB => MIB
    case GB => GIB
  }

  function FormatBytes(v: real): Size {
    if v >= GIB then Size(v / GIB, GB)
    else if v >= MIB then Size(v / MIB, MB)
    else if v >= KIB then Size(v / KIB, KB)
    else Size(v, B)
  }

  /** The unit bands of `format_bytes`; GB has no upper bound. */
  lemma FormatBytesBands(v: real)
    ensures FormatBytes(v).unit == GB <==> v >= GIB
    ensures FormatBytes(v).unit == MB <==> MIB <= v < GIB
    ensures FormatBytes(v).unit == KB <==> KIB <= v < MIB
    ensures FormatBytes(v).unit == B <==> v < KIB
    ensures FormatBytes(v).value * SizeFactor(FormatBytes(v).unit) == v
    ensures FormatBytes(v).unit != B ==> FormatBytes(v).value >= 1.0
    ensures FormatBytes(v).unit in {KB, MB} ==> FormatBytes(v).value < 1024.0
  {
  }

  // ---------- the collector -------------------------------------------

  /** `net_io_counters()`: the machine-wide byte counters. */
  datatype NetCounters = NetCounters(bytesSent: int, bytesRecv: int)

  /** `traffic_data`: `{'in': ..., 'out': ...}`. */
  datatype Traffic = Traffic(incoming: int, outgoing: int)

  /** One row of `traffic(timestamp, incoming, outgoing)`. */
  datatype Row = Row(timestamp: DateTime, incoming: int, outgoing: int)

  /** What one tick reads: the clock and the counters. */
  datatype Sample = Sample(now: DateTime, counters: NetCounters)

  /** The raw, unclamped difference of two readings. */
  function Delta(prev: NetCounters, cnt: NetCounters): Traffic {
    Traffic(cnt.bytesRecv - prev.bytesRecv, cnt.bytesSent - prev.bytesSent)
  }

  /** The row a tick appends when it reads `s` with `before` as the previous reading. */
  function TickRow(before: NetCounters, s: Sample): Row {
    Row(s.now, Delta(before, s.counters).incoming, Delta(before, s.counters).outgoing)
  }

  /** `previous` after the ticks of `samples`, starting from the reading taken at import. */
  function Baseline(initial: NetCounters, samples: seq<Sample>): NetCounters {
    if samples == [] then initial else samples[|samples| - 1].counters
  }

  /** The rows the ticks of `samples` append, starting from the reading taken at import. */
  function LogOf(initial: NetCounters, samples: seq<Sample>): seq<Row>
    decreases |samples|
  {
    if samples == [] then []
    else
      var init := samples[..|samples| - 1];
      LogOf(initial, init) + [TickRow(Baseline(initial, init), samples[|samples| - 1])]
  }

  function SumIncoming(rows: seq<Row>): int
    decreases |rows|
  {
    if rows == [] then 0 else SumIncoming(rows[..|rows| - 1]) + rows[|rows| - 1].incoming
  }

  function SumOutgoing(rows: seq<Row>): int
    decreases |rows|
  {
    if rows == [] then 0 else SumOutgoing(rows[..|rows| - 1]) + rows[|rows| - 1].outgoing
  }

  lemma SumsSnoc(rows: seq<Row>, r: Row)
    ensures SumIncoming(rows + [r]) == SumIncoming(rows) + r.incoming
    ensures SumOutgoing(rows + [r]) == SumOutgoing(rows) + r.outgoing
  {
    assert (rows + [r])[..|rows|] == rows;
  }

  /** The reading tick `i` of `samples` diffs against: the previous tick's, or for
      the first tick the reading taken at import. */
  function Before(initial: NetCounters, samples: seq<Sample>, i: nat): NetCounters
    requires i < |samples|
  {
    if i == 0 then initial else samples[i - 1].counters
  }

  /** Every tick logs exactly one row, the first tick included: row `i` holds the
      time of tick `i` and its difference from the reading before it. */
  lemma {:induction false} LogOfRows(initial: NetCounters, samples: seq<Sample>)
    ensures |LogOf(initial, samples)| == |samples|
    ensures forall i :: 0 <= i < |samples| ==> LogOf(initial, samples)[i] == TickRow(Before(initial, samples, i), samples[i])
    decreases |samples|
  {
    if samples != [] {
      var n := |samples| - 1;
      var init := samples[..n];
      LogOfRows(initial, init);
      var log := LogOf(initial, samples);
      assert log == LogOf(initial, init) + [log[n]];
      forall i | 0 <= i < |samples|
        ensures log[i] == TickRow(Before(initial, samples, i), samples[i])
      {
        if i < n {
          assert log[i] == LogOf(initial, init)[i];
          assert init[i] == samples[i];
          assert Before(initial, init, i) == Before(initial, samples, i);
        } else {
          assert Before(initial, samples, i) == Baseline(initial, init);
        }
      }
    }
  }

  /** Over any run of ticks the logged deltas add up to the last reading minus the
      one taken at import. */
  lemma {:induction false} LogTelescopes(initial: NetCounters, samples: seq<Sample>)
    ensures SumIncoming(LogOf(initial, samples)) == Baseline(initial, samples).bytesRecv - initial.bytesRecv
    ensures SumOutgoing(LogOf(initial, samples)) == Baseline(initial, samples).bytesSent - initial.bytesSent
    decreases |samples|
  {
    if samples != [] {
      var init := samples[..|samples| - 1];
      LogTelescopes(initial, init);
      SumsSnoc(LogOf(initial, init), TickRow(Baseline(initial, init), samples[|samples| - 1]));
    }
  }

  /** The `traffic` table. */
  class TrafficTable {
    var rows: seq<Row>

    /** `CREATE TABLE IF NOT EXISTS` keeps whatever rows are already stored. */
    constructor (existing: seq<Row>)
      ensures rows == existing
    {
      rows := existing;
    }

    /** `INSERT INTO traffic (timestamp, incoming, outgoing) VALUES (?,?,?)`. */
    method Insert(row: Row)
      modifies this
      ensures rows == old(rows) + [row]
    {
      rows := rows + [row];
    }
  }

  /** The runtime state of traffic_monitor.py: `previous`, `traffic_data` and the table. */
  class Monitor {
    var previous: NetCounters
    var trafficData: Traffic
    const db: TrafficTable

    /** Import time: the baseline is read at once, and `traffic_data` starts at zero. */
    constructor (initial: NetCounters, db: TrafficTable)
      ensures previous == initial && trafficData == Traffic(0, 0) && this.db == db
    {
      previous := initial;
      trafficData := Traffic(0, 0);
      this.db := db;
    }

    /** One pass of `update_traffic`'s loop, with the clock and the counters as inputs. */
    method UpdateTraffic(now: DateTime, cnt: NetCounters)
      modifies this, db
      ensures previous == cnt
      ensures trafficData == Delta(old(previous), cnt)
      ensures db.rows == old(db.rows) + [Row(now, trafficData.incoming, trafficData.outgoing)]
    {
      var inc := cnt.bytesRecv - previous.bytesRecv;
      var out := cnt.bytesSent - previous.bytesSent;
      previous := cnt;
      trafficData := Traffic(inc, out);
      db.Insert(Row(now, inc, out));
    }

    /** A finite stretch of `update_traffic`'s endless loop. */
    method Run(samples: seq<Sample>)
      modifies this, db
      ensures previous == Baseline(old(previous), samples)
      ensures db.rows == old(db.rows) + LogOf(old(previous), samples)
      ensures samples == [] ==> trafficData == old(trafficData)
      ensures samples != [] ==>
        trafficData == Delta(Baseline(old(previous), samples[..|samples| - 1]), samples[|samples| - 1].counters)
    {
      var i := 0;
      while i < |samples|
        invariant 0 <= i <= |samples|
        invariant previous == Baseline(old(previous), samples[..i])
        invariant db.rows == old(db.rows) + LogOf(old(previous), samples[..i])
        invariant i == 0 ==> trafficData == old(trafficData)
        invariant i > 0 ==> trafficData == Delta(Baseline(old(previous), samples[..i - 1]), samples[i - 1].counters)
      {
        assert samples[..i + 1][..i] == samples[..i];
        UpdateTraffic(samples[i].now, samples[i].counters);
        i := i + 1;
      }
      assert samples[..|samples|] == samples;
    }
  }

  // ---------- the hourly statistics -----------------------------------

  /** `timestamp BETWEEN start AND end` for the first and last instant of `day`. */
  predicate OnDay(t: DateTime, day: Date) {
    t.date == day
  }

  /** The rows of hour `h` of `day`, in log order. */
  function HourRows(rows: seq<Row>, day: Date, h: Hour): seq<Row>
    decreases |rows|
  {
    if rows == [] then []
    else
      var r := rows[|rows| - 1];
      HourRows(rows[..|rows| - 1], day, h) + (if OnDay(r.timestamp, day) && r.timestamp.hour == h then [r] else [])
  }

  /** One result row of the `GROUP BY hour` query: AVG and SUM of both columns. */
  datatype HourGroup = HourGroup(hour: Hour, avgIn: real, totIn: int, avgOut: real, totOut: int)

  function GroupOf(rows: seq<Row>, day: Date, h: Hour): HourGroup
    requires |HourRows(rows, day, h)| > 0
  {
    var hr := HourRows(rows, day, h);
    var n := |hr| as real;
    HourGroup(h, SumIncoming(hr) as real / n, SumIncoming(hr), SumOutgoing(hr) as real / n, SumOutgoing(hr))
  }

  /** The groups of the hours from `h` on that have at least one row, in hour order. */
  function GroupsFrom(rows: seq<Row>, day: Date, h: nat): seq<HourGroup>
    requires h <= 24
    decreases 24 - h
  {
    if h == 24 then []
    else (if |HourRows(rows, day, h)| > 0 then [GroupOf(rows, day, h)] else []) + GroupsFrom(rows, day, h + 1)
  }

  /** The result of the statistics query for `day`. */
  function Grouped(rows: seq<Row>, day: Date): seq<HourGroup> {
    GroupsFrom(rows, day, 0)
  }

  /** Some logged row falls in hour `h` of `day`. */
  predicate Logged(rows: seq<Row>, day: Date, h: Hour) {
    exists j :: 0 <= j < |rows| && OnDay(rows[j].timestamp, day) && rows[j].timestamp.hour == h
  }

  /** Some group is the one of hour `h`. */
  predicate Listed(groups: seq<HourGroup>, h: Hour) {
    exists i :: 0 <= i < |groups| && groups[i].hour == h
  }

  /** An hour has rows exactly when some logged row of that day falls in it. */
  lemma {:induction false} HourRowsNonEmpty(rows: seq<Row>, day: Date, h: Hour)
    ensures |HourRows(rows, day, h)| > 0 <==> Logged(rows, day, h)
    decreases |rows|
  {
    if rows != [] {
      var init := rows[..|rows| - 1];
      HourRowsNonEmpty(init, day, h);
      if Logged(init, day, h) {
        var j :| 0 <= j < |init| && OnDay(init[j].timestamp, day) && init[j].timestamp.hour == h;
        assert rows[j] == init[j];
      }
      if Logged(rows, day, h) {
        var j :| 0 <= j < |rows| && OnDay(rows[j].timestamp, day) && rows[j].timestamp.hour == h;
        if j < |init| {
          assert init[j] == rows[j];
        }
      }
    }
  }

  /** Every row in an hour's group lies in that hour of that day. */
  lemma {:induction false} HourRowsBelong(rows: seq<Row>, day: Date, h: Hour)
    ensures forall r :: r in HourRows(rows, day, h) ==> r in rows && OnDay(r.timestamp, day) && r.timestamp.hour == h
    decreases |rows|
  {
    if rows != [] {
      var init := rows[..|rows| - 1];
      HourRowsBelong(init, day, h);
      assert forall r :: r in init ==> r in rows;
    }
  }

  /** The groups from hour `h` on come in strictly ascending hour order, and each is
      the group of an hour that has rows. */
  lemma {:induction false} GroupsFromOrdered(rows: seq<Row>, day: Date, h: nat)
    requires h <= 24
    ensures forall i :: 0 <= i < |GroupsFrom(rows, day, h)| ==> h <= GroupsFrom(rows, day, h)[i].hour
    ensures forall i, j :: 0 <= i < j < |GroupsFrom(rows, day, h)| ==>
      GroupsFrom(rows, day, h)[i].hour < GroupsFrom(rows, day, h)[j].hour
    ensures forall i :: 0 <= i < |GroupsFrom(rows, day, h)| ==>
      var g := GroupsFrom(rows, day, h)[i];
      |HourRows(rows, day, g.hour)| > 0 && g == GroupOf(rows, day, g.hour)
    decreases 24 - h
  {
    if h < 24 {
      GroupsFromOrdered(rows, day, h + 1);
    }
  }

  /** Every hour from `h` on that has rows has a group. */
  lemma {:induction false} GroupsFromComplete(rows: seq<Row>, day: Date, h: nat, k: Hour)
    requires h <= k && |HourRows(rows, day, k)| > 0
    ensures Listed(GroupsFrom(rows, day, h), k)
    decreases 24 - h
  {
    var rest := GroupsFrom(rows, day, h + 1);
    var all := GroupsFrom(rows, day, h);
    if k == h {
      assert all == [GroupOf(rows, day, h)] + rest;
      assert all[0].hour == k;
    } else {
      GroupsFromComplete(rows, day, h + 1, k);
      var i :| 0 <= i < |rest| && rest[i].hour == k;
      var n := |all| - |rest|;
      assert all[n..] == rest;
      assert all[n + i].hour == k;
    }
  }

  /** The query's hours ascend strictly. */
  lemma GroupedAscending(rows: seq<Row>, day: Date)
    ensures forall i, j :: 0 <= i < j < |Grouped(rows, day)| ==> Grouped(rows, day)[i].hour < Grouped(rows, day)[j].hour
  {
    GroupsFromOrdered(rows, day, 0);
  }

  /** The query lists exactly the hours of `day` that have at least one row. */
  lemma GroupedHours(rows: seq<Row>, day: Date, k: Hour)
    ensures Listed(Grouped(rows, day), k) <==> Logged(rows, day, k)
  {
    HourRowsNonEmpty(rows, day, k);
    if Logged(rows, day, k) {
      GroupsFromComplete(rows, day, 0, k);
    }
    if Listed(Grouped(rows, day), k) {
      GroupsFromOrdered(rows, day, 0);
    }
  }

  /** Each group carries the SUM of its hour's rows and the AVG, that sum over their count. */
  lemma GroupedTotals(rows: seq<Row>, day: Date)
    ensures forall i :: 0 <= i < |Grouped(rows, day)| ==>
      var g := Grouped(rows, day)[i];
      var hr := HourRows(rows, day, g.hour);
      |hr| > 0 && g.totIn == SumIncoming(hr) && g.totOut == SumOutgoing(hr)
      && g.avgIn == g.totIn as real / |hr| as real && g.avgOut == g.totOut as real / |hr| as real
  {
    GroupsFromOrdered(rows, day, 0);
  }

  /** A row of another day never changes the statistics of `day`. */
  lemma GroupedIgnoresOtherDays(rows: seq<Row>, r: Row, day: Date)
    requires !OnDay(r.timestamp, day)
    ensures Grouped(rows + [r], day) == Grouped(rows, day)
  {
    forall h: Hour ensures HourRows(rows + [r], day, h) == HourRows(rows, day, h) {
      assert (rows + [r])[..|rows|] == rows;
    }
    GroupsFromEqual(rows + [r], rows, day, 0);
  }

  lemma {:induction false} GroupsFromEqual(a: seq<Row>, b: seq<Row>, day: Date, h: nat)
    requires h <= 24
    requires forall k: Hour :: HourRows(a, day, k) == HourRows(b, day, k)
    ensures GroupsFrom(a, day, h) == GroupsFrom(b, day, h)
    decreases 24 - h
  {
    if h < 24 {
      GroupsFromEqual(a, b, day, h + 1);
    }
  }

  /** `f"{hr}:00"` with `hr` the two-digit `strftime('%H', timestamp)`. */
  function HourLabel(h: Hour): string {
    Pad2(h) + ":00"
  }

  /** A label is the two-digit hour followed by ":00", and different hours get different labels. */
  lemma HourLabelShape(a: Hour, b: Hour)
    ensures |HourLabel(a)| == 5 && HourLabel(a)[..2] == Pad2(a) && HourLabel(a)[2..] == ":00"
    ensures HourLabel(a) == HourLabel(b) <==> a == b
  {
    Pad2Injective(a, b);
    if HourLabel(a) == HourLabel(b) {
      assert Pad2(a) == HourLabel(a)[..2] == HourLabel(b)[..2] == Pad2(b);
    }
  }

  /** One entry of the statistics page. */
  datatype HourStats = HourStats(hour: string, avgIn: Rate, totIn: Size, avgOut: Rate, totOut: Size)

  function Presented(g: HourGroup): HourStats {
    HourStats(HourLabel(g.hour), FormatBps(g.avgIn), FormatBytes(g.totIn as real), FormatBps(g.avgOut), FormatBytes(g.totOut as real))
  }

  /** The loop over the fetched rows: one entry per group, in order, with its label
      and its formatted averages and totals. */
  method PresentAll(fetched: seq<HourGroup>) returns (data: seq<HourStats>)
    ensures |data| == |fetched|
    ensures forall i :: 0 <= i < |data| ==> data[i] == Presented(fetched[i])
  {
    data := [];
    var i := 0;
    while i < |fetched|
      invariant 0 <= i <= |fetched|
      invariant |data| == i
      invariant forall j :: 0 <= j < i ==> data[j] == Presented(fetched[j])
    {
      var g := fetched[i];
      data := data + [HourStats(HourLabel(g.hour), FormatBps(g.avgIn), FormatBytes(g.totIn as real),
                                FormatBps(g.avgOut), FormatBytes(g.totOut as real))];
      i := i + 1;
    }
  }

  /** `query` with the statement's last alias renamed so that it parses (see
      `CorrectedStatementParses`): run the grouping for `day` and format each
      result row in order. */
  method Query(table: TrafficTable, day: Date) returns (data: seq<HourStats>)
    ensures |data| == |Grouped(table.rows, day)|
    ensures forall i :: 0 <= i < |data| ==> data[i] == Presented(Grouped(table.rows, day)[i])
  {
    var fetched := Grouped(table.rows, day);
    data := PresentAll(fetched);
  }

  // ---------- the statement as written -------------------------------

  /** A few of SQLite's keywords that are not among those it lets fall back to an
      identifier, so none of them can stand as a bare column alias. TO is one: it
      belongs to `RENAME TO` and `ROLLBACK TO`. */
  const ReservedWords: set<string> := {"SELECT", "FROM", "WHERE", "GROUP", "ORDER", "TO"}

  /** The column aliases of the statistics statement, in the order it declares them. */
  const StatementAliases: seq<string> := ["hour", "ai", "ti", "ao", "to"]

  /** The same aliases with the last one spelled so that it is not a keyword. */
  const CorrectedAliases: seq<string> := ["hour", "ai", "ti", "ao", "tot_out"]

  function UpperChar(c: char): char {
    if 'a' <= c <= 'z' then (c as int - 32) as char else c
  }

  /** SQLite matches keywords without regard to ASCII case. */
  function Upper(s: string): string {
    seq(|s|, i requires 0 <= i < |s| => UpperChar(s[i]))
  }

  datatype Parse = Parsed | SyntaxErrorNear(word: string)

  /** Whether the aliases parse, and if not, the first one the parser stops at. */
  function ParseAliases(aliases: seq<string>): (r: Parse)
    ensures r.Parsed? <==> forall i :: 0 <= i < |aliases| ==> Upper(aliases[i]) !in ReservedWords
    ensures r.SyntaxErrorNear? ==> r.word in aliases && Upper(r.word) in ReservedWords
    decreases |aliases|
  {
    if aliases == [] then Parsed
    else if Upper(aliases[0]) in ReservedWords then SyntaxErrorNear(aliases[0])
    else ParseAliases(aliases[1..])
  }

  /** The statement as written never parses: it stops at the alias `to`, the only
      one of its aliases that is a keyword. */
  lemma StatementFailsAsWritten()
    ensures ParseAliases(StatementAliases) == SyntaxErrorNear("to")
  {
    var s := StatementAliases;
    assert Upper(s[0]) == "HOUR";
    assert Upper(s[1]) == "AI";
    assert Upper(s[2]) == "TI";
    assert Upper(s[3]) == "AO";
    assert Upper(s[4]) == "TO";
    assert "HOUR" !in ReservedWords && "AI" !in ReservedWords && "TI" !in ReservedWords && "AO" !in ReservedWords;
    var r := ParseAliases(s);
    assert !r.Parsed?;
    var k :| 0 <= k < |s| && s[k] == r.word;
    assert Upper(s[k]) in ReservedWords;
    assert k == 4;
  }

  /** With the last alias renamed, the statement parses. */
  lemma CorrectedStatementParses()
    ensures ParseAliases(CorrectedAliases) == Parsed
  {
    assert Upper("hour") == "HOUR" && Upper("ai") == "AI" && Upper("ti") == "TI" && Upper("ao") == "AO";
    assert Upper("tot_out") == "TOT_OUT";
    assert forall i :: 0 <= i < |CorrectedAliases| ==> Upper(CorrectedAliases[i]) !in ReservedWords;
  }

  datatype QueryResult = Rows(data: seq<HourStats>) | OperationalError(near: string)

  /** `query` with the statement as written: `cur.execute` raises before any row is
      fetched when the statement does not parse; otherwise it returns what `Query` does. */
  method QueryAsWritten(table: TrafficTable, day: Date) returns (r: QueryResult)
    ensures ParseAliases(StatementAliases).SyntaxErrorNear? ==>
      r == OperationalError(ParseAliases(StatementAliases).word)
    ensures ParseAliases(StatementAliases).Parsed? ==>
      r.Rows? && |r.data| == |Grouped(table.rows, day)|
      && forall i :: 0 <= i < |r.data| ==> r.data[i] == Presented(Grouped(table.rows, day)[i])
  {
    var parsed := ParseAliases(StatementAliases);
    if parsed.SyntaxErrorNear? {
      return OperationalError(parsed.word);
    }
    var data := Query(table, day);
    return Rows(data);
  }
}
