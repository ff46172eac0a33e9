/** The per-interface collector of app.py: once a second it diffs a per-NIC
    counter snapshot against the previous one, overwrites the displayed rate of
    every interface that has a baseline, and adds the raw deltas into one
    table row per hour (keyed by the hour string alone, so every interface
    folds into the same row). `/api/stats` rebuilds 48 hourly records from
    that table, and `human` picks a base-1024 unit for each number. */
module App {
  import opened DateTimes

  datatype Option<T> = None | Some(value: T)

  // ---------- human ---------------------------------------------------

  /** UNITS, followed by the "PB" that `human` falls back to. */
  datatype Unit = B | KB | MB | GB | TB | PB

  function UnitAt(k: nat): Unit
    requires k <= 5
  {
    if k == 0 then B else if k == 1 then KB else if k == 2 then MB
    else if k == 3 then GB else if k == 4 then TB else PB
  }

  function Pow1024(k: nat): (p: real)
    ensures p >= 1.0
  {
    if k == 0 then 1.0 else 1024.0 * Pow1024(k - 1)
  }

  /** A number as `human` renders it: the scaled value, kept exact, and its unit. */
  datatype Scaled = Scaled(value: real, unit: Unit)

  /** The index of the first unit, from `k` on, that `num` stays below 1024 of;
      5 ("PB") when none of B..TB does. */
  function UnitFrom(num: real, k: nat): nat
    requires k <= 5
    decreases 5 - k
  {
    if k == 5 || num < Pow1024(k + 1) then k else UnitFrom(num, k + 1)
  }

  /** The chosen unit is the smallest from `k` on that `num` stays below 1024 of; every
      unit passed over on the way was reached. */
  lemma {:induction false} UnitFromIsSmallest(num: real, k: nat)
    requires k <= 5
    ensures k <= UnitFrom(num, k) <= 5
    ensures UnitFrom(num, k) < 5 ==> num < Pow1024(UnitFrom(num, k) + 1)
    ensures forall i :: k < i <= UnitFrom(num, k) ==> num >= Pow1024(i)
    decreases 5 - k
  {
    if k < 5 && num >= Pow1024(k + 1) {
      UnitFromIsSmallest(num, k + 1);
    }
  }

  /** What `human(num)` returns, with the number unformatted. */
  function Humanized(num: real): Scaled {
    var k := UnitFrom(num, 0);
    Scaled(num / Pow1024(k), UnitAt(k))
  }

  /** Below 1024, a negative number included, `human` returns the number itself in B;
      from 1024^5 on it falls through to PB. */
  lemma HumanizedEnds(num: real)
    ensures num < 1024.0 ==> Humanized(num) == Scaled(num, B)
    ensures num >= Pow1024(5) ==> Humanized(num) == Scaled(num / Pow1024(5), PB)
  {
    assert Pow1024(1) == 1024.0;
  }

  /** Division by a positive power keeps comparisons with a constant. */
  lemma DivCompare(x: real, p: real, c: real)
    requires p > 0.0
    ensures x / p < c <==> x < c * p
  {
    var y := x / p;
    assert x == y * p;
    if y < c {
      assert y * p < c * p;
    } else {
      assert y * p >= c * p;
    }
  }

  lemma DivDiv(x: real, p: real)
    requires p > 0.0
    ensures x / (1024.0 * p) == (x / p) / 1024.0
  {
    var y := x / p;
    assert x == y * p;
    assert (y / 1024.0) * (1024.0 * p) == y * p;
  }

  lemma DivMonotone(a: real, b: real, p: real)
    requires p > 0.0 && a <= b
    ensures a / p <= b / p
  {
    assert b / p - a / p == (b - a) / p;
  }

  /** One pass of `human`'s loop: the value scaled to unit `i` is below 1024 exactly
      when unit `i` is the one chosen from `i` on; otherwise one more division
      scales it to unit `i + 1`. */
  lemma HumanStep(num: real, i: nat)
    requires i < 5
    ensures num / Pow1024(i) < 1024.0 ==> UnitFrom(num, i) == i
    ensures num / Pow1024(i) >= 1024.0 ==>
      UnitFrom(num, i) == UnitFrom(num, i + 1) && (num / Pow1024(i)) / 1024.0 == num / Pow1024(i + 1)
  {
    var p := Pow1024(i);
    var q := Pow1024(i + 1);
    assert q == 1024.0 * p;
    assert UnitFrom(num, i) == if num < q then i else UnitFrom(num, i + 1);
    DivCompare(num, p, 1024.0);
    assert num / p < 1024.0 <==> num < q;
    DivDiv(num, p);
    assert num / q == (num / p) / 1024.0;
  }

  /** `human`: divide by 1024 until the value drops below 1024, at most four times. */
  method Human(num: real) returns (h: Scaled)
    ensures h == Humanized(num)
  {
    var n := num;
    var i := 0;
    while i < 5
      invariant 0 <= i <= 5
      invariant n == num / Pow1024(i)
      invariant UnitFrom(num, i) == UnitFrom(num, 0)
    {
      HumanStep(num, i);
      if n < 1024.0 {
        return Scaled(n, UnitAt(i));
      }
      n := n / 1024.0;
      i := i + 1;
    }
    return Scaled(n, PB);
  }

  /** A unit above B means the value reached 1; a unit below PB means it stayed under 1024. */
  lemma HumanizedBounds(num: real)
    ensures Humanized(num).unit != B ==> Humanized(num).value >= 1.0
    ensures Humanized(num).unit != PB ==> Humanized(num).value < 1024.0
  {
    var k := UnitFrom(num, 0);
    var p := Pow1024(k);
    UnitFromIsSmallest(num, 0);
    DivCompare(num, p, 1.0);
    DivCompare(num, p, 1024.0);
    if k > 0 {
      assert num >= Pow1024(k);
    }
  }

  /** A larger number never gets a smaller unit, and within one unit the scaled values keep their order. */
  lemma HumanizedMonotone(a: real, b: real)
    requires a <= b
    ensures UnitFrom(a, 0) <= UnitFrom(b, 0)
    ensures Humanized(a).unit == Humanized(b).unit ==> Humanized(a).value <= Humanized(b).value
  {
    var ka, kb := UnitFrom(a, 0), UnitFrom(b, 0);
    UnitFromIsSmallest(a, 0);
    UnitFromIsSmallest(b, 0);
    if kb < 5 {
      assert a < Pow1024(kb + 1);
    }
    DivMonotone(a, b, Pow1024(ka));
  }

  lemma HumanizedExamples()
    ensures Humanized(1023.0) == Scaled(1023.0, B)
    ensures Humanized(1024.0) == Scaled(1.0, KB)
    ensures Humanized(1048576.0) == Scaled(1.0, MB)
    ensures Humanized(-5.0) == Scaled(-5.0, B)
  {
    assert UnitFrom(1024.0, 0) == 1;
    assert Pow1024(2) == 1048576.0;
    assert UnitFrom(1048576.0, 0) == 2 by {
      assert UnitFrom(1048576.0, 2) == 2;
    }
  }

  // ---------- hour key ------------------------------------------------

  /** `strftime('%Y-%m-%d %H:00:00')`. */
  function HourKey(t: DateTime): (key: string)
    ensures |key| == |Decimal(t.date.year)| + 15
  {
    Decimal(t.date.year) + "-" + Pad2(t.date.month) + "-" + Pad2(t.date.day) + " " + Pad2(t.hour) + ":00:00"
  }

  /** Truncating to the hour is idempotent and does not move the key. */
  lemma TruncateToHourKeepsKey(t: DateTime)
    ensures TruncateToHour(TruncateToHour(t)) == TruncateToHour(t)
    ensures SameHour(TruncateToHour(t), t)
    ensures HourKey(TruncateToHour(t)) == HourKey(t)
  {
  }

  /** Two timestamps share a key exactly when they lie in the same calendar hour. */
  lemma HourKeyIdentifiesHour(a: DateTime, b: DateTime)
    ensures HourKey(a) == HourKey(b) <==> SameHour(a, b)
  {
    if HourKey(a) == HourKey(b) {
      var ka, kb := HourKey(a), HourKey(b);
      var ya, yb := Decimal(a.date.year), Decimal(b.date.year);
      var n := |ya|;
      assert |yb| == n;
      assert ya == ka[..n] == kb[..n] == yb;
      DecimalInjective(a.date.year, b.date.year);
      assert ka[n + 1..n + 3] == Pad2(a.date.month) && kb[n + 1..n + 3] == Pad2(b.date.month);
      Pad2Injective(a.date.month, b.date.month);
      assert ka[n + 4..n + 6] == Pad2(a.date.day) && kb[n + 4..n + 6] == Pad2(b.date.day);
      Pad2Injective(a.date.day, b.date.day);
      assert ka[n + 7..n + 9] == Pad2(a.hour) && kb[n + 7..n + 9] == Pad2(b.hour);
      Pad2Injective(a.hour, b.hour);
    }
  }

  // ---------- snapshots and deltas ------------------------------------

  /** A pair of byte counts: an interface's counters, a delta, or a stored bucket. */
  datatype Bytes = Bytes(sent: int, recv: int)

  function Plus(a: Bytes, b: Bytes): Bytes {
    Bytes(a.sent + b.sent, a.recv + b.recv)
  }

  function Minus(a: Bytes, b: Bytes): Bytes {
    Bytes(a.sent - b.sent, a.recv - b.recv)
  }

  /** `net_io_counters(pernic=True)`: interface names with their counters, in the order the dict yields them. */
  type Snapshot = seq<(string, Bytes)>

  predicate DistinctNames(s: Snapshot) {
    forall i, j :: 0 <= i < j < |s| ==> s[i].0 != s[j].0
  }

  /** The same interfaces, in the same order. */
  predicate SameInterfaces(a: Snapshot, b: Snapshot) {
    |a| == |b| && forall i :: 0 <= i < |a| ==> a[i].0 == b[i].0
  }

  /** `snapshot.get(name)`. The last entry wins, as with a dict built from these items. */
  function Lookup(s: Snapshot, name: string): Option<Bytes>
    decreases |s|
  {
    if s == [] then None
    else if s[|s| - 1].0 == name then Some(s[|s| - 1].1)
    else Lookup(s[..|s| - 1], name)
  }

  lemma {:induction false} LookupPresent(s: Snapshot, name: string)
    ensures Lookup(s, name).Some? <==> exists i :: 0 <= i < |s| && s[i].0 == name
    decreases |s|
  {
    if s != [] {
      var init := s[..|s| - 1];
      LookupPresent(init, name);
      if exists i :: 0 <= i < |init| && init[i].0 == name {
        var i :| 0 <= i < |init| && init[i].0 == name;
        assert s[i].0 == name;
      }
      if exists i :: 0 <= i < |s| && s[i].0 == name {
        var i :| 0 <= i < |s| && s[i].0 == name;
        if i < |s| - 1 {
          assert init[i].0 == name;
        }
      }
    }
  }

  lemma {:induction false} LookupAt(s: Snapshot, i: nat)
    requires DistinctNames(s) && i < |s|
    ensures Lookup(s, s[i].0) == Some(s[i].1)
    decreases |s|
  {
    if i < |s| - 1 {
      var init := s[..|s| - 1];
      assert init[i] == s[i];
      LookupAt(init, i);
    }
  }

  /** The sum of every interface's counters. */
  function Total(s: Snapshot): Bytes
    decreases |s|
  {
    if s == [] then Bytes(0, 0) else Plus(Total(s[..|s| - 1]), s[|s| - 1].1)
  }

  /** Some interface of `snap` has a baseline in `prev`, so the tick writes the table. */
  predicate HasBaseline(prev: Snapshot, snap: Snapshot) {
    exists i :: 0 <= i < |snap| && Lookup(prev, snap[i].0).Some?
  }

  /** The raw deltas of the interfaces of `snap` that have a baseline in `prev`, summed. */
  function TotalDelta(prev: Snapshot, snap: Snapshot): Bytes
    decreases |snap|
  {
    if snap == [] then Bytes(0, 0)
    else
      var last := snap[|snap| - 1];
      var rest := TotalDelta(prev, snap[..|snap| - 1]);
      match Lookup(prev, last.0)
      case None => rest
      case Some(p) => Plus(rest, Minus(last.1, p))
  }

  // ---------- current rates -------------------------------------------

  /** One `current_rates` entry: `{'sent': human(sent_d), 'recv': human(recv_d)}`. */
  datatype RatePair = RatePair(sent: Scaled, recv: Scaled)

  function RateOf(d: Bytes): RatePair {
    RatePair(Humanized(d.sent as real), Humanized(d.recv as real))
  }

  /** `current_rates` after one pass of the collector loop over `snap`. */
  function RatesTick(rates: map<string, RatePair>, prev: Snapshot, snap: Snapshot): map<string, RatePair>
    decreases |snap|
  {
    if snap == [] then rates
    else
      var last := snap[|snap| - 1];
      var r := RatesTick(rates, prev, snap[..|snap| - 1]);
      match Lookup(prev, last.0)
      case None => r
      case Some(p) => r[last.0 := RateOf(Minus(last.1, p))]
  }

  /** An interface with a baseline gets the rate of its raw (unclamped) delta; every
      other entry, a stale one included, keeps its old value; nothing else appears. */
  lemma {:induction false} RatesTickPointwise(rates: map<string, RatePair>, prev: Snapshot, snap: Snapshot, name: string)
    ensures var r := RatesTick(rates, prev, snap);
      && (name in r <==> name in rates || (Lookup(snap, name).Some? && Lookup(prev, name).Some?))
      && (Lookup(snap, name).Some? && Lookup(prev, name).Some? ==>
            r[name] == RateOf(Minus(Lookup(snap, name).value, Lookup(prev, name).value)))
      && (!(Lookup(snap, name).Some? && Lookup(prev, name).Some?) && name in rates ==> r[name] == rates[name])
    decreases |snap|
  {
    if snap != [] {
      RatesTickPointwise(rates, prev, snap[..|snap| - 1], name);
    }
  }

  /** The baseline rolls over to the whole new snapshot. An interface that first
      shows up in `snap` gets no rate from that tick, and its first rate on the next
      tick, from its `snap` counters. An interface missing from `snap` is not updated
      on the next tick: its stale entry, if any, stays. */
  lemma BaselineRollsOver(rates: map<string, RatePair>, prev: Snapshot, snap: Snapshot, next: Snapshot, name: string)
    ensures Lookup(prev, name).None? ==>
      var r := RatesTick(rates, prev, snap);
      (name in r <==> name in rates) && (name in rates ==> r[name] == rates[name])
    ensures Lookup(snap, name).Some? && Lookup(next, name).Some? ==>
      var r := RatesTick(RatesTick(rates, prev, snap), snap, next);
      name in r && r[name] == RateOf(Minus(Lookup(next, name).value, Lookup(snap, name).value))
    ensures Lookup(snap, name).None? ==>
      var r := RatesTick(rates, prev, snap);
      (name in RatesTick(r, snap, next) <==> name in r) && (name in r ==> RatesTick(r, snap, next)[name] == r[name])
  {
    RatesTickPointwise(rates, prev, snap, name);
    RatesTickPointwise(RatesTick(rates, prev, snap), snap, next, name);
  }

  // ---------- hourly table --------------------------------------------

  /** The stored bucket, 0 when the row is absent. */
  function OrZero(rows: map<string, Bytes>, key: string): Bytes {
    if key in rows then rows[key] else Bytes(0, 0)
  }

  /** `INSERT ... ON CONFLICT(hour) DO UPDATE SET bytes_sent = bytes_sent + excluded.bytes_sent, ...`. */
  function Upserted(rows: map<string, Bytes>, key: string, d: Bytes): map<string, Bytes> {
    rows[key := Plus(OrZero(rows, key), d)]
  }

  /** The upsert creates the row if needed, adds to it, and touches no other row. */
  lemma UpsertedMeaning(rows: map<string, Bytes>, key: string, d: Bytes)
    ensures Upserted(rows, key, d).Keys == rows.Keys + {key}
    ensures Upserted(rows, key, d)[key] == Plus(OrZero(rows, key), d)
    ensures forall k :: k in rows && k != key ==> Upserted(rows, key, d)[k] == rows[k]
  {
  }

  /** Two additive upserts into one bucket are one upsert of their sum. */
  lemma UpsertedTwice(rows: map<string, Bytes>, key: string, d1: Bytes, d2: Bytes)
    ensures Upserted(Upserted(rows, key, d1), key, d2) == Upserted(rows, key, Plus(d1, d2))
  {
  }

  /** The table after one pass of the collector loop over `snap`. */
  function UpsertTick(rows: map<string, Bytes>, key: string, prev: Snapshot, snap: Snapshot): map<string, Bytes>
    decreases |snap|
  {
    if snap == [] then rows
    else
      var last := snap[|snap| - 1];
      var r := UpsertTick(rows, key, prev, snap[..|snap| - 1]);
      match Lookup(prev, last.0)
      case None => r
      case Some(p) => Upserted(r, key, Minus(last.1, p))
  }

  /** Whether a snapshot has a baselined interface, read off its last entry and the rest. */
  lemma HasBaselineSnoc(prev: Snapshot, snap: Snapshot)
    requires snap != []
    ensures HasBaseline(prev, snap)
        <==> HasBaseline(prev, snap[..|snap| - 1]) || Lookup(prev, snap[|snap| - 1].0).Some?
  {
    var init := snap[..|snap| - 1];
    if HasBaseline(prev, init) {
      var i :| 0 <= i < |init| && Lookup(prev, init[i].0).Some?;
      assert snap[i] == init[i];
    }
    if HasBaseline(prev, snap) {
      var i :| 0 <= i < |snap| && Lookup(prev, snap[i].0).Some?;
      if i < |init| {
        assert snap[i] == init[i];
      }
    }
  }

  /** One tick adds the summed deltas of the baselined interfaces to the single bucket
      of the hour and leaves every other row alone; with no baselined interface it
      writes nothing, not even an empty row. */
  lemma {:induction false} UpsertTickIsOneAdd(rows: map<string, Bytes>, key: string, prev: Snapshot, snap: Snapshot)
    ensures UpsertTick(rows, key, prev, snap)
         == if HasBaseline(prev, snap) then Upserted(rows, key, TotalDelta(prev, snap)) else rows
    decreases |snap|
  {
    if snap != [] {
      var init := snap[..|snap| - 1];
      var last := snap[|snap| - 1];
      UpsertTickIsOneAdd(rows, key, prev, init);
      HasBaselineSnoc(prev, snap);
      match Lookup(prev, last.0)
      case None =>
      case Some(p) =>
        if HasBaseline(prev, init) {
          UpsertedTwice(rows, key, TotalDelta(prev, init), Minus(last.1, p));
        } else {
          NoBaselineNoDelta(prev, init);
        }
    }
  }

  /** A tick in which no interface has a baseline sums to a zero delta. */
  lemma {:induction false} NoBaselineNoDelta(prev: Snapshot, snap: Snapshot)
    requires !HasBaseline(prev, snap)
    ensures TotalDelta(prev, snap) == Bytes(0, 0)
    decreases |snap|
  {
    if snap != [] {
      HasBaselineSnoc(prev, snap);
      NoBaselineNoDelta(prev, snap[..|snap| - 1]);
    }
  }

  /** The last entry and the rest of `a + [x] + c` and of `a + c`, for a non-empty `c`. */
  lemma SplitLast(a: Snapshot, x: (string, Bytes), c: Snapshot)
    requires c != []
    ensures var s1, s2 := a + [x] + c, a + c;
      && s1[..|s1| - 1] == a + [x] + c[..|c| - 1] && s2[..|s2| - 1] == a + c[..|c| - 1]
      && s1[|s1| - 1] == c[|c| - 1] && s2[|s2| - 1] == c[|c| - 1]
  {
    var s1, s2 := a + [x] + c, a + c;
    assert s1[..|s1| - 1] == a + [x] + c[..|c| - 1];
    assert s2[..|s2| - 1] == a + c[..|c| - 1];
  }

  /** An interface without a baseline adds nothing to a tick's summed delta, wherever
      it sits in the snapshot. */
  lemma {:induction false} SkipWithoutBaselineDelta(prev: Snapshot, a: Snapshot, x: (string, Bytes), c: Snapshot)
    requires Lookup(prev, x.0).None?
    ensures TotalDelta(prev, a + [x] + c) == TotalDelta(prev, a + c)
    decreases |c|
  {
    if c == [] {
      assert (a + [x] + c)[..|a|] == a && a + c == a;
    } else {
      SplitLast(a, x, c);
      SkipWithoutBaselineDelta(prev, a, x, c[..|c| - 1]);
    }
  }

  /** An interface without a baseline writes nothing to the table, wherever it sits in
      the snapshot. */
  lemma {:induction false} SkipWithoutBaselineTable(rows: map<string, Bytes>, key: string, prev: Snapshot,
                                                    a: Snapshot, x: (string, Bytes), c: Snapshot)
    requires Lookup(prev, x.0).None?
    ensures UpsertTick(rows, key, prev, a + [x] + c) == UpsertTick(rows, key, prev, a + c)
    decreases |c|
  {
    if c == [] {
      assert (a + [x] + c)[..|a|] == a && a + c == a;
    } else {
      SplitLast(a, x, c);
      SkipWithoutBaselineTable(rows, key, prev, a, x, c[..|c| - 1]);
    }
  }

  /** An interface without a baseline gets no rate and changes no other rate, wherever
      it sits in the snapshot. */
  lemma {:induction false} SkipWithoutBaselineRates(rates: map<string, RatePair>, prev: Snapshot,
                                                    a: Snapshot, x: (string, Bytes), c: Snapshot)
    requires Lookup(prev, x.0).None?
    ensures RatesTick(rates, prev, a + [x] + c) == RatesTick(rates, prev, a + c)
    decreases |c|
  {
    if c == [] {
      assert (a + [x] + c)[..|a|] == a && a + c == a;
    } else {
      SplitLast(a, x, c);
      SkipWithoutBaselineRates(rates, prev, a, x, c[..|c| - 1]);
    }
  }

  /** With a fixed set of distinct interfaces, one tick's summed delta is the
      difference of the two snapshots' totals. */
  lemma {:induction false} TickDeltaTelescopes(prev: Snapshot, snap: Snapshot)
    requires DistinctNames(prev) && SameInterfaces(prev, snap)
    ensures TotalDelta(prev, snap) == Minus(Total(snap), Total(prev))
    ensures HasBaseline(prev, snap) <==> |snap| > 0
  {
    TelescopePrefix(prev, snap, |snap|);
    assert snap[..|snap|] == snap && prev[..|prev|] == prev;
    if |snap| > 0 {
      LookupAt(prev, 0);
      assert Lookup(prev, snap[0].0).Some?;
    }
  }

  lemma {:induction false} TelescopePrefix(prev: Snapshot, snap: Snapshot, n: nat)
    requires DistinctNames(prev) && SameInterfaces(prev, snap) && n <= |snap|
    ensures TotalDelta(prev, snap[..n]) == Minus(Total(snap[..n]), Total(prev[..n]))
  {
    if n > 0 {
      TelescopePrefix(prev, snap, n - 1);
      assert snap[..n][..n - 1] == snap[..n - 1];
      assert prev[..n][..n - 1] == prev[..n - 1];
      LookupAt(prev, n - 1);
    }
  }

  /** The table after a run of ticks within one hour: `base` is the baseline taken
      at start-up, `ticks` the snapshots of the following ticks. */
  function Run(rows: map<string, Bytes>, key: string, base: Snapshot, ticks: seq<Snapshot>): map<string, Bytes>
    decreases |ticks|
  {
    if ticks == [] then rows
    else
      var init := ticks[..|ticks| - 1];
      UpsertTick(Run(rows, key, base, init), key, LastOr(base, init), ticks[|ticks| - 1])
  }

  function LastOr(base: Snapshot, ticks: seq<Snapshot>): Snapshot {
    if ticks == [] then base else ticks[|ticks| - 1]
  }

  lemma SameInterfacesChain(base: Snapshot, a: Snapshot, b: Snapshot)
    requires DistinctNames(base) && SameInterfaces(base, a) && SameInterfaces(base, b)
    ensures DistinctNames(a) && SameInterfaces(a, b)
  {
  }

  /** A tick over the same non-empty set of distinct interfaces adds the difference
      of the two totals to the bucket. */
  lemma SteadyTick(rows: map<string, Bytes>, key: string, prev: Snapshot, snap: Snapshot)
    requires DistinctNames(prev) && |prev| > 0 && SameInterfaces(prev, snap)
    ensures UpsertTick(rows, key, prev, snap) == Upserted(rows, key, Minus(Total(snap), Total(prev)))
  {
    TickDeltaTelescopes(prev, snap);
    UpsertTickIsOneAdd(rows, key, prev, snap);
  }

  /** Over any number of ticks in one hour with a fixed interface set, the hour's
      bucket gains the final counter total minus the initial one, and no other row
      changes. */
  lemma {:induction false} HourTelescopes(rows: map<string, Bytes>, key: string, base: Snapshot, ticks: seq<Snapshot>)
    requires DistinctNames(base) && |base| > 0 && |ticks| > 0
    requires forall i :: 0 <= i < |ticks| ==> SameInterfaces(base, ticks[i])
    ensures Run(rows, key, base, ticks) == Upserted(rows, key, Minus(Total(ticks[|ticks| - 1]), Total(base)))
    decreases |ticks|
  {
    var init := ticks[..|ticks| - 1];
    var last := ticks[|ticks| - 1];
    assert SameInterfaces(base, last);
    if init == [] {
      SteadyTick(rows, key, base, last);
    } else {
      var prev := ticks[|ticks| - 2];
      assert LastOr(base, init) == prev;
      assert SameInterfaces(base, prev);
      SameInterfacesChain(base, prev, last);
      assert forall i :: 0 <= i < |init| ==> init[i] == ticks[i];
      HourTelescopes(rows, key, base, init);
      var d1, d2 := Minus(Total(prev), Total(base)), Minus(Total(last), Total(prev));
      SteadyTick(Run(rows, key, base, init), key, prev, last);
      UpsertedTwice(rows, key, d1, d2);
      assert Plus(d1, d2) == Minus(Total(last), Total(base));
    }
  }

  /** Extending the processed prefix of a snapshot by one entry. */
  lemma TickSnoc(rates: map<string, RatePair>, rows: map<string, Bytes>, key: string, prev: Snapshot, snap: Snapshot, i: nat)
    requires i < |snap|
    ensures RatesTick(rates, prev, snap[..i + 1])
         == match Lookup(prev, snap[i].0)
            case None => RatesTick(rates, prev, snap[..i])
            case Some(p) => RatesTick(rates, prev, snap[..i])[snap[i].0 := RateOf(Minus(snap[i].1, p))]
    ensures UpsertTick(rows, key, prev, snap[..i + 1])
         == match Lookup(prev, snap[i].0)
            case None => UpsertTick(rows, key, prev, snap[..i])
            case Some(p) => Upserted(UpsertTick(rows, key, prev, snap[..i]), key, Minus(snap[i].1, p))
  {
    assert snap[..i + 1][..i] == snap[..i];
  }

  /** The table: `hourly_traffic(hour TEXT PRIMARY KEY, bytes_sent, bytes_recv)`. */
  class HourlyTraffic {
    var rows: map<string, Bytes>

    /** `CREATE TABLE IF NOT EXISTS` keeps whatever rows are already stored. */
    constructor (existing: map<string, Bytes>)
      ensures rows == existing
    {
      rows := existing;
    }

    method UpsertAdd(key: string, sentD: int, recvD: int)
      modifies this
      ensures rows == Upserted(old(rows), key, Bytes(sentD, recvD))
    {
      var sent := if key in rows then rows[key].sent else 0;
      var recv := if key in rows then rows[key].recv else 0;
      rows := rows[key := Bytes(sent + sentD, recv + recvD)];
    }
  }

  /** The runtime state of app.py: `last_snapshot`, `current_rates` and the table. */
  class Collector {
    var lastSnapshot: Snapshot
    var currentRates: map<string, RatePair>
    const table: HourlyTraffic

    /** Import time: the first snapshot becomes the baseline and no rate is known yet. */
    constructor (initial: Snapshot, table: HourlyTraffic)
      ensures lastSnapshot == initial && currentRates == map[] && this.table == table
    {
      lastSnapshot := initial;
      currentRates := map[];
      this.table := table;
    }

    /** The body of the loop over `snap.items()`: an interface without a baseline is
        skipped; otherwise its rate is overwritten and its delta upserted. */
    method Visit(prev: Snapshot, iface: string, stats: Bytes, hourKey: string)
      modifies this, table
      ensures lastSnapshot == old(lastSnapshot)
      ensures currentRates == match Lookup(prev, iface)
        case None => old(currentRates)
        case Some(p) => old(currentRates)[iface := RateOf(Minus(stats, p))]
      ensures table.rows == match Lookup(prev, iface)
        case None => old(table.rows)
        case Some(p) => Upserted(old(table.rows), hourKey, Minus(stats, p))
    {
      var found := Lookup(prev, iface);
      if found.Some? {
        var p := found.value;
        var sentD := stats.sent - p.sent;
        var recvD := stats.recv - p.recv;
        var sentH := Human(sentD as real);
        var recvH := Human(recvD as real);
        currentRates := currentRates[iface := RatePair(sentH, recvH)];
        table.UpsertAdd(hourKey, sentD, recvD);
      }
    }

    /** One pass of `collector`'s loop, with the snapshot and the clock reading as inputs. */
    method Tick(snap: Snapshot, now: DateTime)
      requires DistinctNames(snap)
      modifies this, table
      ensures lastSnapshot == snap
      ensures currentRates == RatesTick(old(currentRates), old(lastSnapshot), snap)
      ensures table.rows == UpsertTick(old(table.rows), HourKey(TruncateToHour(now)), old(lastSnapshot), snap)
    {
      var prev := lastSnapshot;
      var hourKey := HourKey(TruncateToHour(now));
      var i := 0;
      while i < |snap|
        invariant 0 <= i <= |snap|
        invariant currentRates == RatesTick(old(currentRates), prev, snap[..i])
        invariant table.rows == UpsertTick(old(table.rows), hourKey, prev, snap[..i])
      {
        TickSnoc(old(currentRates), old(table.rows), hourKey, prev, snap, i);
        Visit(prev, snap[i].0, snap[i].1, hourKey);
        i := i + 1;
      }
      assert snap[..|snap|] == snap;
      lastSnapshot := snap;
    }
  }

  // ---------- /api/stats ----------------------------------------------

  /** One record of `/api/stats`: the key and the four humanized numbers. */
  datatype StatsRecord = StatsRecord(hour: string, totalSent: Scaled, totalRecv: Scaled, avgSent: Scaled, avgRecv: Scaled)

  /** The record for hour `h` of day `d`: a missing row reads as 0, and the average
      is the total over 3600 however many ticks wrote the row. */
  function StatsRecordFor(rows: map<string, Bytes>, d: Date, h: Hour): StatsRecord {
    var key := HourKey(StartOfHour(d, h));
    var b := OrZero(rows, key);
    StatsRecord(key, Humanized(b.sent as real), Humanized(b.recv as real),
                Humanized(b.sent as real / 3600.0), Humanized(b.recv as real / 3600.0))
  }

  /** The body of `api_stats`'s inner loop: look the hour's row up and format it. */
  method FetchRecord(table: HourlyTraffic, day: Date, h: Hour) returns (record: StatsRecord)
    ensures record == StatsRecordFor(table.rows, day, h)
  {
    var key := HourKey(StartOfHour(day, h));
    var sent := if key in table.rows then table.rows[key].sent else 0;
    var recv := if key in table.rows then table.rows[key].recv else 0;
    var totalSent := Human(sent as real);
    var totalRecv := Human(recv as real);
    var avgSent := Human(sent as real / 3600.0);
    var avgRecv := Human(recv as real / 3600.0);
    record := StatsRecord(key, totalSent, totalRecv, avgSent, avgRecv);
  }

  /** `api_stats`: yesterday's 24 hours, then today's 24, in hour order. The two days are inputs. */
  method ApiStats(table: HourlyTraffic, yesterday: Date, today: Date) returns (out: seq<StatsRecord>)
    ensures |out| == 48
    ensures forall h: Hour :: out[h] == StatsRecordFor(table.rows, yesterday, h)
    ensures forall h: Hour :: out[24 + h] == StatsRecordFor(table.rows, today, h)
  {
    out := [];
    var days := [yesterday, today];
    var di := 0;
    while di < 2
      invariant 0 <= di <= 2
      invariant |out| == 24 * di
      invariant di >= 1 ==> forall h: Hour :: out[h] == StatsRecordFor(table.rows, yesterday, h)
      invariant di >= 2 ==> forall h: Hour :: out[24 + h] == StatsRecordFor(table.rows, today, h)
    {
      var day := days[di];
      ghost var done := out;
      var h := 0;
      while h < 24
        invariant 0 <= h <= 24
        invariant |out| == |done| + h
        invariant out[..|done|] == done
        invariant forall g: Hour :: g < h ==> out[|done| + g] == StatsRecordFor(table.rows, day, g)
      {
        var record := FetchRecord(table, day, h);
        out := out + [record];
        h := h + 1;
      }
      assert forall g: Hour :: g < |done| ==> out[g] == done[g];
      di := di + 1;
    }
  }

  /** An hour with no row is reported as zero everywhere, not omitted. */
  lemma StatsMissingRowIsZero(rows: map<string, Bytes>, d: Date, h: Hour)
    requires HourKey(StartOfHour(d, h)) !in rows
    ensures StatsRecordFor(rows, d, h)
         == StatsRecord(HourKey(StartOfHour(d, h)), Scaled(0.0, B), Scaled(0.0, B), Scaled(0.0, B), Scaled(0.0, B))
  {
  }

  /** A row holding 3600 bytes sent averages to exactly 1 B per second. */
  lemma StatsAverageExample(rows: map<string, Bytes>, d: Date, h: Hour)
    requires OrZero(rows, HourKey(StartOfHour(d, h))) == Bytes(3600, 7200)
    ensures StatsRecordFor(rows, d, h).avgSent == Scaled(1.0, B)
    ensures StatsRecordFor(rows, d, h).avgRecv == Scaled(2.0, B)
    ensures StatsRecordFor(rows, d, h).totalSent == Scaled(3600.0 / 1024.0, KB)
  {
    assert UnitFrom(3600.0, 0) == 1;
  }

  /** Different (day, hour) slots get different keys, so the 48 records of two
      different days name 48 different rows. */
  lemma StatsKeysDistinct(rows: map<string, Bytes>, d1: Date, h1: Hour, d2: Date, h2: Hour)
    requires d1 != d2 || h1 != h2
    ensures StatsRecordFor(rows, d1, h1).hour != StatsRecordFor(rows, d2, h2).hour
  {
    HourKeyIdentifiesHour(StartOfHour(d1, h1), StartOfHour(d2, h2));
  }
}
