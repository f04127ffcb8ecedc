/** The state store's traffic tables of one node interface, updated in place. */
module TrafficStore {
  import opened Wrappers
  import opened Traffic
  import opened Rollup
  import opened TrafficWindow

  const DEFAULT_POINTS := 250

  // ----- Time order of the tables -----

  predicate RowsAscend(rows: seq<Row>) {
    forall i, j :: 0 <= i < j < |rows| ==> rows[i].ts < rows[j].ts
  }

  /** No table is ahead of the next: five-minute rows, derived rows, raw rows. */
  ghost predicate Ordered(t: Tables) {
    && (forall s :: s in t.raw ==> s.ts >= 0)
    && Ascending(t.raw)
    && (forall r :: r in t.derived ==> r.ts >= 0)
    && RowsAscend(t.derived)
    && (forall b, r :: b in t.rolled && r in t.derived ==> b <= r.ts)
    && (forall b, s :: b in t.rolled && s in t.raw ==> b <= s.ts)
  }

  /** The time is after everything in the tables. */
  predicate Later(t: Tables, ts: int) {
    && ts >= 0
    && (forall s :: s in t.raw ==> s.ts < ts)
    && (forall r :: r in t.derived ==> r.ts < ts)
    && (forall b :: b in t.rolled ==> b < ts)
  }

  lemma RowsAscendRest(rows: seq<Row>)
    requires RowsAscend(rows) && rows != []
    ensures RowsAscend(rows[1..]) && forall r :: r in rows[1..] ==> rows[0].ts < r.ts
  {
  }

  lemma RowsAscendPrepend(first: Row, rest: seq<Row>)
    requires RowsAscend(rest) && forall r :: r in rest ==> first.ts < r.ts
    ensures RowsAscend([first] + rest)
  {
    assert forall i :: 0 <= i < |rest| ==> rest[i] in rest;
  }

  lemma SnapsRest(snaps: seq<Snapshot>)
    requires Ascending(snaps) && snaps != []
    ensures Ascending(snaps[1..]) && forall s :: s in snaps[1..] ==> snaps[0].ts < s.ts
  {
  }

  lemma SnapsPrepend(first: Snapshot, rest: seq<Snapshot>)
    requires Ascending(rest) && forall s :: s in rest ==> first.ts < s.ts
    ensures Ascending([first] + rest)
  {
    assert forall i :: 0 <= i < |rest| ==> rest[i] in rest;
  }

  lemma {:induction false} NewerThanAreThere(snaps: seq<Snapshot>, ts: int)
    ensures forall s :: s in NewerThan(snaps, ts) ==> s in snaps && s.ts > ts
  {
    if snaps != [] {
      NewerThanAreThere(snaps[1..], ts);
    }
  }

  lemma {:induction false} NewerThanAscends(snaps: seq<Snapshot>, ts: int)
    requires Ascending(snaps)
    ensures Ascending(NewerThan(snaps, ts))
    ensures forall s :: s in NewerThan(snaps, ts) ==> s in snaps && s.ts > ts
  {
    NewerThanAreThere(snaps, ts);
    if snaps != [] {
      var rest := NewerThan(snaps[1..], ts);
      NewerThanAreThere(snaps[1..], ts);
      SnapsRest(snaps);
      NewerThanAscends(snaps[1..], ts);
      assert NewerThan(snaps, ts) == rest || NewerThan(snaps, ts) == [snaps[0]] + rest;
      hide *;
      SnapsPrepend(snaps[0], rest);
    }
  }

  lemma {:induction false} ExtendAscends(rows: seq<Row>, snaps: seq<Snapshot>)
    requires RowsAscend(rows) && Ascending(snaps)
    requires forall r, s :: r in rows && s in snaps ==> r.ts < s.ts
    ensures RowsAscend(Extend(rows, snaps))
    ensures forall r :: r in Extend(rows, snaps) ==> r in rows || exists s :: s in snaps && s.ts == r.ts
    decreases |snaps|
  {
    hide Gain, U64Add;
    if snaps != [] {
      var more := rows + [NextRow(LastRow(rows), snaps[0])];
      assert more[|rows|].ts == snaps[0].ts;
      ExtendAscends(more, snaps[1..]);
      assert snaps[0] in snaps;
    }
  }

  lemma {:induction false} RowsFromAreThere(rows: seq<Row>, cutoff: int)
    ensures forall r :: r in RowsFrom(rows, cutoff) ==> r in rows && r.ts >= cutoff
  {
    if rows != [] {
      RowsFromAreThere(rows[1..], cutoff);
    }
  }

  lemma {:induction false} RowsFromAscends(rows: seq<Row>, cutoff: int)
    requires RowsAscend(rows)
    ensures RowsAscend(RowsFrom(rows, cutoff))
    ensures forall r :: r in RowsFrom(rows, cutoff) ==> r in rows && r.ts >= cutoff
  {
    RowsFromAreThere(rows, cutoff);
    if rows != [] {
      var rest := RowsFrom(rows[1..], cutoff);
      RowsFromAreThere(rows[1..], cutoff);
      RowsAscendRest(rows);
      RowsFromAscends(rows[1..], cutoff);
      assert RowsFrom(rows, cutoff) == rest || RowsFrom(rows, cutoff) == [rows[0]] + rest;
      hide *;
      RowsAscendPrepend(rows[0], rest);
    }
  }

  lemma {:induction false} SnapsFromAreThere(snaps: seq<Snapshot>, cutoff: int)
    ensures forall s :: s in SnapsFrom(snaps, cutoff) ==> s in snaps && s.ts >= cutoff
  {
    if snaps != [] {
      SnapsFromAreThere(snaps[1..], cutoff);
    }
  }

  lemma {:induction false} SnapsFromAscends(snaps: seq<Snapshot>, cutoff: int)
    requires Ascending(snaps)
    ensures Ascending(SnapsFrom(snaps, cutoff))
    ensures forall s :: s in SnapsFrom(snaps, cutoff) ==> s in snaps && s.ts >= cutoff
  {
    SnapsFromAreThere(snaps, cutoff);
    if snaps != [] {
      var rest := SnapsFrom(snaps[1..], cutoff);
      SnapsFromAreThere(snaps[1..], cutoff);
      SnapsRest(snaps);
      SnapsFromAscends(snaps[1..], cutoff);
      assert SnapsFrom(snaps, cutoff) == rest || SnapsFrom(snaps, cutoff) == [snaps[0]] + rest;
      hide *;
      SnapsPrepend(snaps[0], rest);
    }
  }

  lemma {:induction false} OlderThanIsOlder(rows: seq<Row>, cutoff: int)
    ensures forall r :: r in OlderThan(rows, cutoff) ==> r in rows && r.ts < cutoff
  {
    if rows != [] {
      OlderThanIsOlder(rows[1..], cutoff);
    }
  }

  lemma UpdatedAscends(t: Tables)
    requires Ordered(t)
    ensures RowsAscend(Updated(t.derived, t.raw))
    ensures forall r :: r in Updated(t.derived, t.raw) ==> r in t.derived || exists s :: s in t.raw && s.ts == r.ts
  {
    hide Extend, NewerThan;
    if t.derived == [] {
      ExtendAscends(t.derived, t.raw);
    } else {
      var last := t.derived[|t.derived| - 1];
      NewerThanAscends(t.raw, last.ts);
      forall r, s | r in t.derived && s in NewerThan(t.raw, last.ts) ensures r.ts < s.ts {
        var i :| 0 <= i < |t.derived| && t.derived[i] == r;
      }
      ExtendAscends(t.derived, NewerThan(t.raw, last.ts));
    }
  }

  lemma UpdateStaysOrdered(t: Tables)
    requires Ordered(t)
    ensures Ordered(After(t, Update))
  {
    UpdatedAscends(t);
    hide Updated, RowsAscend, Ascending;
    forall r | r in Updated(t.derived, t.raw) ensures r.ts >= 0 && forall b :: b in t.rolled ==> b <= r.ts {
      if r !in t.derived {
        var s :| s in t.raw && s.ts == r.ts;
      }
    }
  }

  lemma RollUpStaysOrdered(t: Tables, rawCutoff: int, overallCutoff: int)
    requires Ordered(t)
    ensures Ordered(AfterRollUp(t, rawCutoff, overallCutoff))
  {
    UpdateStaysOrdered(t);
    var derived := Updated(t.derived, t.raw);
    var older := OlderThan(derived, rawCutoff);
    RowsFromAscends(derived, rawCutoff);
    SnapsFromAscends(t.raw, rawCutoff);
    OlderThanIsOlder(derived, rawCutoff);
    hide Updated, RowsFrom, SnapsFrom, OlderThan, RowsAscend, Ascending;
    forall b | b in Merged(t.rolled, older) ensures b in t.rolled || b < rawCutoff { }
    hide Merged;
  }

  // ----- The window in time order -----

  lemma {:induction false} RowPointsAbove(rows: seq<Row>, start: int, end: int, low: int)
    requires forall i :: 0 <= i < |rows| ==> low <= rows[i].ts
    ensures forall i :: 0 <= i < |RowPoints(rows, start, end)| ==> low <= RowPoints(rows, start, end)[i].ts
  {
    if rows != [] {
      RowPointsAbove(rows[1..], start, end, low);
      RowPointsStep(rows, start, end);
      hide RowPoints;
    }
  }

  lemma {:induction false} RowPointsOrdered(rows: seq<Row>, start: int, end: int)
    requires RowsAscend(rows)
    ensures TimeOrdered(RowPoints(rows, start, end))
  {
    if rows != [] {
      var rest := RowPoints(rows[1..], start, end);
      RowPointsOrdered(rows[1..], start, end);
      RowPointsAbove(rows[1..], start, end, rows[0].ts);
      RowPointsStep(rows, start, end);
      hide RowPoints, RowsAscend;
      if start <= rows[0].ts <= end {
        assert RowPoints(rows, start, end) == [RowPoint(rows[0])] + rest;
      } else {
        assert RowPoints(rows, start, end) == rest;
      }
    }
  }

  lemma WindowOrdered(t: Tables, start: int, end: int)
    requires Ordered(t)
    ensures TimeOrdered(Window(t, start, end))
  {
    var keys := RolledKeys(t, start, end);
    var rolled, rows := RolledPoints(t, keys), RowPoints(t.derived, start, end);
    RowPointsOrdered(t.derived, start, end);
    forall i, j | 0 <= i < |rolled| && 0 <= j < |rows| ensures rolled[i].ts <= rows[j].ts {
      assert keys[i] in keys && forall k :: 0 <= k < |t.derived| ==> t.derived[k] in t.derived;
      RowPointsAbove(t.derived, start, end, keys[i]);
    }
    hide RowPoints, RolledKeys;
  }

  lemma RelativeKeepsTimes(points: seq<Point>)
    requires TimeOrdered(points)
    ensures TimeOrdered(Relative(points))
  {
  }

  /** What a summary shows of a window. */
  function Shown(points: seq<Point>, limit: nat): seq<Point>
    requires limit > 0
  {
    if |points| <= limit then points
    else if points[|points| - 1].ts <= points[0].ts then points[..limit]
    else Downsampled(points, limit, 0)
  }

  function Limit(maxPoints: int): nat {
    if maxPoints <= 0 then DEFAULT_POINTS else maxPoints
  }

  function TotalRx(points: seq<Point>): nat {
    if points == [] then 0 else points[|points| - 1].trafficRx
  }

  function TotalTx(points: seq<Point>): nat {
    if points == [] then 0 else points[|points| - 1].trafficTx
  }

  lemma RelativeIsGains(points: seq<Point>, history: seq<Snapshot>, cut: nat, origins: seq<nat>, i: nat)
    requires Traces(points, history, cut, origins) && CountsFit(history) && i < |points|
    ensures origins[0] <= origins[i] < |history|
    ensures Relative(points)[i].trafficRx == Gains(Rx(history), origins[0], origins[i])
    ensures Relative(points)[i].trafficTx == Gains(Tx(history), origins[0], origins[i])
  {
    PairOfWindow(points, history, cut, origins, 0, i);
    hide Traces, CountsFit, Gains;
  }

  /** The points shown keep to the limit and, unless they all share one time, show the same totals. */
  predicate ShowsTotals(points: seq<Point>, limit: nat)
    requires points != [] && limit > 0
  {
    && 1 <= |Shown(points, limit)| <= limit
    && (points[0].ts < points[|points| - 1].ts ==>
        TotalRx(Shown(points, limit)) == TotalRx(points) && TotalTx(Shown(points, limit)) == TotalTx(points))
  }

  /** Downsampling keeps at most `limit` points and the last one's traffic. */
  lemma ShownKeepsTotal(points: seq<Point>, limit: nat)
    requires points != [] && TimeOrdered(points) && limit > 0
    ensures ShowsTotals(points, limit)
  {
    if |points| > limit && points[0].ts < points[|points| - 1].ts {
      DownsampledFits(points, limit, 0);
      IndexGrows(points, limit, 0, 0);
    }
    hide Downsampled, IndexAt;
  }

  /** Tables that hold a history that starts at the epoch are in time order. */
  lemma HistoryIsOrdered(t: Tables, history: seq<Snapshot>, cut: nat)
    requires Inv(t, history, cut, |history|) && FromEpoch(history)
    ensures Ordered(t)
  {
    var derived := DerivedTimes(t, history, cut);
    forall b | b in t.rolled ensures cut < |history| && b < history[cut].ts {
      RolledAreOlder(t, history, cut, b);
    }
    assert t.raw == history[cut..] && Ascending(history);
    hide Inv, BucketOf;
    SuffixInOrder(t, history, cut);
    if t.derived != [] {
      InTimeOrder(t, history[cut].ts);
    } else {
      assert t.raw == [] && t.rolled.Keys == {};
    }
  }

  lemma SuffixInOrder(t: Tables, history: seq<Snapshot>, cut: nat)
    requires Ascending(history) && cut <= |history| && t.raw == history[cut..] && |t.derived| == |t.raw|
    requires forall i :: 0 <= i < |t.derived| ==> t.derived[i].ts == history[cut + i].ts
    ensures Ascending(t.raw) && RowsAscend(t.derived)
    ensures forall i :: 0 <= i < |t.raw| ==> t.raw[i].ts == t.derived[i].ts >= history[cut].ts
  {
  }

  lemma InTimeOrder(t: Tables, low: int)
    requires Ascending(t.raw) && RowsAscend(t.derived) && |t.derived| == |t.raw| && low >= 0
    requires forall i :: 0 <= i < |t.raw| ==> t.raw[i].ts == t.derived[i].ts >= low
    requires forall b :: b in t.rolled ==> b < low
    ensures Ordered(t)
  {
    hide Ascending, RowsAscend;
    forall s | s in t.raw ensures s.ts >= low {
      var i :| 0 <= i < |t.raw| && t.raw[i] == s;
    }
    forall r | r in t.derived ensures r.ts >= low {
      var i :| 0 <= i < |t.derived| && t.derived[i] == r;
    }
  }

  lemma DerivedTimes(t: Tables, history: seq<Snapshot>, cut: nat) returns (derived: seq<Row>)
    requires Inv(t, history, cut, |history|)
    ensures derived == t.derived && |derived| == |history| - cut
    ensures forall i :: 0 <= i < |derived| ==> derived[i].ts == history[cut + i].ts
  {
    hide Accumulated, BucketOf, HoldsLatest;
    assert history[..|history|] == history;
    derived := t.derived;
    forall i | 0 <= i < |derived| ensures derived[i].ts == history[cut + i].ts {
      assert derived[i] == RowAt(history, cut + i);
    }
  }

  /** The first and the last snapshot a window has to show. */
  predicate Bounds(t: Tables, history: seq<Snapshot>, cut: nat, start: int, end: int, first: nat, last: nat)
    requires cut <= |history|
  {
    && first <= last < |history|
    && InWindow(t, history, cut, start, end, first) && InWindow(t, history, cut, start, end, last)
    && forall k: nat :: k < |history| && InWindow(t, history, cut, start, end, k) ==> first <= k <= last
  }

  lemma WindowGains(t: Tables, history: seq<Snapshot>, cut: nat, start: int, end: int)
    returns (first: nat, last: nat)
    requires Inv(t, history, cut, |history|) && FromEpoch(history) && CountsFit(history)
    requires Window(t, start, end) != []
    ensures Bounds(t, history, cut, start, end, first, last)
    ensures var points := Relative(Window(t, start, end));
            && points[0].ts == TimeShown(history, cut, first)
            && points[|points| - 1].ts == TimeShown(history, cut, last)
            && points[|points| - 1].trafficRx == Gains(Rx(history), first, last)
            && points[|points| - 1].trafficTx == Gains(Tx(history), first, last)
  {
    hide *;
    InvIsCut(t, history, cut, |history|);
    var window := Window(t, start, end);
    var origins := WindowTraces(t, history, cut, start, end);
    TracedTimes(window, history, cut, origins);
    TracedBounds(window, t, history, cut, start, end, origins);
    RelativeTimes(window);
    RelativeIsGains(window, history, cut, origins, |window| - 1);
    first, last := origins[0], origins[|window| - 1];
  }

  lemma RelativeTimes(points: seq<Point>)
    ensures forall i :: 0 <= i < |points| ==> Relative(points)[i].ts == points[i].ts
  {
  }

  lemma TracedTimes(points: seq<Point>, history: seq<Snapshot>, cut: nat, origins: seq<nat>)
    requires Traces(points, history, cut, origins)
    ensures |origins| == |points|
    ensures forall i :: 0 <= i < |points| ==>
      origins[i] < |history| && points[i].ts == TimeShown(history, cut, origins[i])
  {
    hide Accumulated, TimeShown;
  }

  lemma TracedBounds(window: seq<Point>, t: Tables, history: seq<Snapshot>, cut: nat, start: int, end: int,
                     origins: seq<nat>)
    requires cut <= |history| && Traces(window, history, cut, origins) && window != []
    requires forall k: nat :: k in origins <==> k < |history| && InWindow(t, history, cut, start, end, k)
    ensures Bounds(t, history, cut, start, end, origins[0], origins[|origins| - 1])
  {
    hide InWindow, TimeShown, Accumulated, Rx, Tx;
    assert origins[0] in origins && origins[|origins| - 1] in origins;
    forall k: nat | k in origins ensures origins[0] <= k <= origins[|origins| - 1] {
      var i :| 0 <= i < |origins| && origins[i] == k;
    }
  }

  /** A window is empty exactly when it has nothing to show. */
  lemma EmptyWindow(t: Tables, history: seq<Snapshot>, cut: nat, start: int, end: int)
    requires Inv(t, history, cut, |history|) && FromEpoch(history)
    ensures Window(t, start, end) == []
            <==> forall k: nat :: k < |history| ==> !InWindow(t, history, cut, start, end, k)
  {
    var origins := WindowTraces(t, history, cut, start, end);
    assert cut <= |history|;
    hide Inv, Window, InWindow;
    assert |origins| == |Window(t, start, end)|;
    assert origins != [] ==> origins[0] in origins;
    hide Traces;
  }

  /** A summary's totals are what the interface gained from the first to the last snapshot the window
      has to show; the points shown are at most `limit`, and unless all points carry the same time the
      last one shown still shows those totals. */
  lemma TotalIsGained(t: Tables, history: seq<Snapshot>, cut: nat, start: int, end: int, limit: nat)
    returns (first: nat, last: nat)
    requires Inv(t, history, cut, |history|) && FromEpoch(history) && CountsFit(history) && limit > 0
    requires Window(t, start, end) != []
    ensures Bounds(t, history, cut, start, end, first, last)
    ensures var points := Relative(Window(t, start, end));
            && points[0].ts == TimeShown(history, cut, first)
            && points[|points| - 1].ts == TimeShown(history, cut, last)
            && TotalRx(points) == Gains(Rx(history), first, last)
            && TotalTx(points) == Gains(Tx(history), first, last)
            && ShowsTotals(points, limit)
  {
    hide *;
    first, last := WindowGains(t, history, cut, start, end);
    HistoryIsOrdered(t, history, cut);
    WindowOrdered(t, start, end);
    RelativeKeepsTimes(Window(t, start, end));
    ShownKeepsTotal(Relative(Window(t, start, end)), limit);
    TotalsOf(Relative(Window(t, start, end)));
  }

  /** The totals of a window are what was gained from its first to its last snapshot. */
  ghost predicate ReportsGains(t: Tables, history: seq<Snapshot>, cut: nat, start: int, end: int, limit: nat)
    requires cut <= |history| && Window(t, start, end) != [] && limit > 0
  {
    var points := Relative(Window(t, start, end));
    ShowsTotals(points, limit)
    && exists first: nat, last: nat ::
         Bounds(t, history, cut, start, end, first, last)
         && TotalRx(points) == Gains(Rx(history), first, last) && TotalTx(points) == Gains(Tx(history), first, last)
  }

  lemma GainsAreReported(t: Tables, history: seq<Snapshot>, cut: nat, start: int, end: int, limit: nat)
    requires Inv(t, history, cut, |history|) && FromEpoch(history) && CountsFit(history) && limit > 0
    requires Window(t, start, end) != []
    ensures ReportsGains(t, history, cut, start, end, limit)
  {
    hide Inv, FromEpoch, CountsFit, Bounds, TotalRx, TotalTx, Gains, ShowsTotals, Window, Relative;
    var first, last := TotalIsGained(t, history, cut, start, end, limit);
  }

  /** Reading a window at the end of a run. The snapshots from `cut` on are still raw. The counters
      read never decrease; what the summary totals is what was gained from the first to the last
      snapshot the window has to show, in the points shown as well; and a recorded snapshot is missing
      from the tables only if a rollup pruned its bucket. */
  lemma ReadingARun(steps: seq<Step>, start: int, end: int, limit: nat) returns (cut: nat)
    requires Proper(steps) && FromEpoch(History(steps)) && CountsFit(History(steps)) && limit > 0
    ensures var history, t := History(steps), After(Run(steps), Update);
            && cut <= |history| && t.raw == history[cut..] && Ordered(t)
            && Kept(t, history, cut, steps)
            && (var window := Window(t, start, end);
                && (forall i, j :: 0 <= i <= j < |window| ==>
                      window[i].accumRx <= window[j].accumRx && window[i].accumTx <= window[j].accumTx)
                && if window == [] then
                     forall k: nat :: k < |history| ==> !InWindow(t, history, cut, start, end, k)
                   else
                     ReportsGains(t, history, cut, start, end, limit))
  {
    var history, t := History(steps), After(Run(steps), Update);
    var n;
    cut, n := RunKeepsInv(steps);
    UpdateKeepsInv(Run(steps), history, cut, n);
    var kept := NothingIsLost(steps);
    SameCut(history, cut, kept);
    HistoryIsOrdered(t, history, cut);
    WindowIsMonotone(t, history, cut, start, end);
    EmptyWindow(t, history, cut, start, end);
    hide *;
    if Window(t, start, end) != [] {
      GainsAreReported(t, history, cut, start, end, limit);
    }
  }

  lemma TotalsOf(points: seq<Point>)
    requires points != []
    ensures TotalRx(points) == points[|points| - 1].trafficRx && TotalTx(points) == points[|points| - 1].trafficTx
  {
  }

  // ----- The store -----

  lemma ExtendStep(rows: seq<Row>, snaps: seq<Snapshot>, i: nat)
    requires i < |snaps|
    ensures Extend(rows, snaps[i..]) == Extend(rows + [NextRow(LastRow(rows), snaps[i])], snaps[i + 1..])
  {
    assert snaps[i..][0] == snaps[i] && snaps[i..][1..] == snaps[i + 1..];
    hide NextRow;
  }

  lemma ExtendNothing(rows: seq<Row>, snaps: seq<Snapshot>)
    requires snaps == []
    ensures Extend(rows, snaps) == rows
  {
  }

  /** The row after p, by the branches of the update. */
  lemma NextRowIs(previous: Option<Row>, snap: Snapshot)
    ensures previous.None? ==>
      NextRow(previous, snap) == Row(snap.ts, snap.rx, snap.tx, snap.rx, snap.tx, snap.rxRate, snap.txRate, false)
    ensures previous.Some? ==>
      var p := previous.value;
      NextRow(previous, snap) ==
        Row(snap.ts, snap.rx, snap.tx,
            U64Add(p.accumRx, if snap.rx < p.rawRx then snap.rx else snap.rx - p.rawRx),
            U64Add(p.accumTx, if snap.tx < p.rawTx then snap.tx else snap.tx - p.rawTx),
            snap.rxRate, snap.txRate, snap.rx < p.rawRx || snap.tx < p.rawTx)
  {
  }

  class Store {
    var raw: seq<Snapshot>
    var derived: seq<Row>
    var rolled: map<int, Bucket>

    ghost function View(): Tables
      reads this
    {
      Tables(raw, derived, rolled)
    }

    ghost predicate Valid()
      reads this
    {
      Ordered(View())
    }

    constructor ()
      ensures Valid() && View() == Run([])
    {
      raw, derived, rolled := [], [], map[];
    }

    method Record(snap: Snapshot)
      requires Valid() && Later(View(), snap.ts)
      modifies this`raw
      ensures Valid() && View() == After(old(View()), Step.Record(snap))
    {
      raw := raw + [snap];
    }

    method UpdateStats()
      requires Valid()
      modifies this`derived
      ensures Valid() && View() == After(old(View()), Update)
    {
      hide Ordered, Updated;
      UpdateStaysOrdered(View());
      derived := Accumulate(derived, raw);
    }

    /** Roll rows older than the raw retention up, and prune rows older than the overall one. */
    method RollupAndClean(now: int, rawRetention: nat, overallRetention: nat)
      requires Valid()
      modifies this
      ensures Valid()
      ensures View() == After(old(View()),
                RollUp(now - (if rawRetention <= overallRetention then rawRetention else overallRetention),
                       now - overallRetention))
      ensures forall b :: b in rolled ==> b >= now - overallRetention
      ensures forall b :: b in old(rolled) && b >= now - overallRetention ==> b in rolled
      ensures forall s :: s in raw <==> s in old(raw) && s.ts >= now - rawRetention && s.ts >= now - overallRetention
      ensures forall r :: r in derived ==> r.ts >= now - rawRetention && r.ts >= now - overallRetention
    {
      hide Ordered, Merged, OlderThan, RowsFrom, SnapsFrom, Updated, BucketsFrom;
      ghost var before := View();
      var retention := rawRetention;
      if retention > overallRetention {
        retention := overallRetention;
      }
      var rawCutoff, overallCutoff := now - retention, now - overallRetention;
      UpdateStats();
      RollUpStaysOrdered(before, rawCutoff, overallCutoff);
      RollUpPrunes(before, rawCutoff, overallCutoff);
      var older := OlderThan(derived, rawCutoff);
      rolled := BucketsFrom(Merged(rolled, older), overallCutoff);
      raw, derived := SnapsFrom(raw, rawCutoff), RowsFrom(derived, rawCutoff);
    }

    /** The points of a window and what was received and sent in it. */
    method ReadTraffic(start: int, end: int, maxPoints: int)
      returns (points: seq<Point>, totalRx: nat, totalTx: nat)
      requires Valid()
      modifies this`derived
      ensures Valid() && View() == After(old(View()), Update)
      ensures var all := Relative(Window(View(), start, end));
              points == Shown(all, Limit(maxPoints)) && totalRx == TotalRx(all) && totalTx == TotalTx(all)
      ensures |points| <= if maxPoints <= 0 then 250 else maxPoints
    {
      UpdateStats();
      hide Ordered, Updated, Relative, Window, TimeOrdered, Shown, TotalRx, TotalTx;
      WindowOrdered(View(), start, end);
      var window := Window(Tables(raw, derived, rolled), start, end);
      points, totalRx, totalTx := Present(window, maxPoints);
    }
  }

  /** All of the points when they are few enough, the first ones when they all carry one time, and otherwise
      at most so many sums of stretches. */
  ghost predicate IsShownOf(shown: seq<Point>, all: seq<Point>, limit: nat)
    requires limit > 0
  {
    && |shown| <= limit
    && (|all| <= limit ==> shown == all)
    && (|all| > limit && all[|all| - 1].ts <= all[0].ts ==> shown == all[..limit])
    && (|all| > limit && all[0].ts < all[|all| - 1].ts ==> exists cuts :: SumUpStretches(shown, all, limit, cuts))
  }

  lemma ShownIs(all: seq<Point>, limit: nat)
    requires TimeOrdered(all) && limit > 0
    ensures IsShownOf(Shown(all, limit), all, limit)
  {
    if all != [] {
      ShownKeepsTotal(all, limit);
    }
    if |all| > limit && all[0].ts < all[|all| - 1].ts {
      var cuts := DownsampledStretches(all, limit, 0);
    }
    hide Downsampled, SumUpStretches, TotalRx, TotalTx;
  }

  /** The totals of a window, and its points downsampled to at most maxPoints. */
  method Present(window: seq<Point>, maxPoints: int) returns (points: seq<Point>, totalRx: nat, totalTx: nat)
    requires TimeOrdered(window)
    ensures var all := Relative(window);
            points == Shown(all, Limit(maxPoints)) && totalRx == TotalRx(all) && totalTx == TotalTx(all)
            && IsShownOf(points, all, if maxPoints <= 0 then 250 else maxPoints)
  {
    if window == [] {
      return window, 0, 0;
    }
    RelativeKeepsTimes(window);
    points := Rebased(window);
    ShownIs(points, Limit(maxPoints));
    hide IsShownOf;
    hide Relative, TimeOrdered, Downsampled;
    totalRx, totalTx := points[|points| - 1].trafficRx, points[|points| - 1].trafficTx;
    var limit := if maxPoints <= 0 then DEFAULT_POINTS else maxPoints;
    if |points| <= limit {
      return;
    }
    if points[|points| - 1].ts - points[0].ts <= 0 {
      points := points[..limit];
    } else {
      points := Downsample(points, limit);
    }
  }

  /** Add a row for every snapshot newer than the last row. */
  method Accumulate(rows: seq<Row>, raw: seq<Snapshot>) returns (derived: seq<Row>)
    ensures derived == Updated(rows, raw)
  {
    hide NextRow, Extend, U64Add, NewerThan;
    derived := rows;
    var hasDerived := derived != [];
    var lastRawRx, lastRawTx, accumRx, accumTx := 0, 0, 0, 0;
    var newSnaps := raw;
    if hasDerived {
      var last := derived[|derived| - 1];
      lastRawRx, lastRawTx, accumRx, accumTx := last.rawRx, last.rawTx, last.accumRx, last.accumTx;
      newSnaps := NewerThan(raw, last.ts);
    }
    assert newSnaps == Unprocessed(derived, raw) && newSnaps[0..] == newSnaps;
    var i := 0;
    while i < |newSnaps|
      invariant 0 <= i <= |newSnaps|
      invariant hasDerived == (derived != [])
      invariant hasDerived ==>
        var last := derived[|derived| - 1];
        last.rawRx == lastRawRx && last.rawTx == lastRawTx && last.accumRx == accumRx && last.accumTx == accumTx
      invariant Extend(derived, newSnaps[i..]) == Extend(rows, newSnaps)
    {
      var snap, resetDetected := newSnaps[i], false;
      NextRowIs(LastRow(derived), snap);
      if !hasDerived {
        accumRx, accumTx := snap.rx, snap.tx;
        hasDerived := true;
      } else {
        if snap.rx < lastRawRx {
          accumRx := U64Add(accumRx, snap.rx);
          resetDetected := true;
        } else {
          accumRx := U64Add(accumRx, snap.rx - lastRawRx);
        }
        if snap.tx < lastRawTx {
          accumTx := U64Add(accumTx, snap.tx);
          resetDetected := true;
        } else {
          accumTx := U64Add(accumTx, snap.tx - lastRawTx);
        }
      }
      lastRawRx, lastRawTx := snap.rx, snap.tx;
      var row := Row(snap.ts, snap.rx, snap.tx, accumRx, accumTx, snap.rxRate, snap.txRate, resetDetected);
      ExtendStep(derived, newSnaps, i);
      derived := derived + [row];
      i := i + 1;
    }
    ExtendNothing(derived, newSnaps[i..]);
  }

  /** Count the traffic of every point from the first one. */
  method Rebased(points: seq<Point>) returns (r: seq<Point>)
    requires points != []
    ensures r == Relative(points)
  {
    var baseRx, baseTx := points[0].accumRx, points[0].accumTx;
    r := [];
    var i := 0;
    while i < |points|
      invariant 0 <= i <= |points| && r == Relative(points)[..i]
    {
      var p := points[i];
      p := p.(trafficRx := 0, trafficTx := 0);
      if p.accumRx >= baseRx {
        p := p.(trafficRx := p.accumRx - baseRx);
      }
      if p.accumTx >= baseTx {
        p := p.(trafficTx := p.accumTx - baseTx);
      }
      r := r + [p];
      i := i + 1;
    }
  }
}
