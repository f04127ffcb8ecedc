/** The points read back from the traffic tables for a time window. */
module TrafficWindow {
  import opened Traffic
  import opened Rollup

  const INT64_MAX := 0x7FFF_FFFF_FFFF_FFFF

  // ----- Reading a window -----

  /** One point of a window: its time, its accumulated counters and its traffic since the start. */
  datatype Point = Point(
    ts: int, rawRx: nat, rawTx: nat, accumRx: nat, accumTx: nat, trafficRx: nat, trafficTx: nat,
    rxRate: real, txRate: real, reset: bool)

  predicate IsMin(s: set<int>, m: int) {
    forall x :: x in s ==> m <= x
  }

  lemma {:induction false} MinExists(s: set<int>) returns (m: int)
    requires |s| > 0
    ensures m in s && IsMin(s, m)
    decreases |s|
  {
    assert (forall a: int :: a !in s) ==> s == {};
    var a: int :| a in s;
    var rest := s - {a};
    if |rest| == 0 {
      m := a;
      assert forall x :: x in s ==> x == a || x in rest;
    } else {
      var least := MinExists(rest);
      m := if a <= least then a else least;
      assert forall x :: x in s ==> x == a || x in rest;
    }
  }

  lemma MinIsThere(s: set<int>)
    requires |s| > 0
    ensures exists m :: m in s && IsMin(s, m)
  {
    var m := MinExists(s);
  }

  lemma LeastFirst(s: set<int>, m: int, rest: seq<int>)
    requires m in s && IsMin(s, m) && forall k :: k in rest <==> k in s - {m}
    requires forall i, j :: 0 <= i < j < |rest| ==> rest[i] < rest[j]
    ensures forall k :: k in [m] + rest <==> k in s
    ensures forall i, j :: 0 <= i < j < |[m] + rest| ==> ([m] + rest)[i] < ([m] + rest)[j]
  {
    forall i | 0 <= i < |rest| ensures m < rest[i] {
      assert rest[i] in rest;
    }
  }

  /** The keys in ascending order. */
  function SortedKeys(s: set<int>): (r: seq<int>)
    ensures forall k :: k in r <==> k in s
    ensures forall i, j :: 0 <= i < j < |r| ==> r[i] < r[j]
    decreases |s|
  {
    if |s| == 0 then []
    else
      MinIsThere(s);
      var m: int :| m in s && IsMin(s, m);
      var rest := SortedKeys(s - {m});
      LeastFirst(s, m, rest);
      [m] + rest
  }

  function RolledPoint(t: Tables, b: int): Point
    requires b in t.rolled
  {
    var r := t.rolled[b];
    Point(b, r.rawRx, r.rawTx, r.accumRx, r.accumTx, 0, 0, r.rxRate, r.txRate, r.reset)
  }

  function RowPoint(r: Row): Point {
    Point(r.ts, r.rawRx, r.rawTx, r.accumRx, r.accumTx, 0, 0, r.rxRate, r.txRate, r.reset)
  }

  /** The time of the oldest derived row; without one, or at time 0, every rolled row is older. */
  function OldestRaw(rows: seq<Row>): int {
    if rows == [] || rows[0].ts == 0 then INT64_MAX else rows[0].ts
  }

  function RolledPoints(t: Tables, keys: seq<int>): (r: seq<Point>)
    requires forall b :: b in keys ==> b in t.rolled
    ensures |r| == |keys| && forall i :: 0 <= i < |r| ==> r[i] == RolledPoint(t, keys[i])
  {
    seq(|keys|, i requires 0 <= i < |keys| => RolledPoint(t, keys[i]))
  }

  function RowPoints(rows: seq<Row>, start: int, end: int): seq<Point> {
    if rows == [] then []
    else (if start <= rows[0].ts <= end then [RowPoint(rows[0])] else []) + RowPoints(rows[1..], start, end)
  }

  function RolledKeys(t: Tables, start: int, end: int): (r: seq<int>)
    ensures forall b :: b in r ==> b in t.rolled
    ensures forall i, j :: 0 <= i < j < |r| ==> r[i] < r[j]
  {
    var oldest := OldestRaw(t.derived);
    if start < oldest then SortedKeys(set b | b in t.rolled && start <= b < oldest && b <= end) else []
  }

  /** Five-minute rows first, then derived rows. */
  function Window(t: Tables, start: int, end: int): seq<Point> {
    RolledPoints(t, RolledKeys(t, start, end)) + RowPoints(t.derived, start, end)
  }

  // ----- What the points of a window show -----

  ghost predicate ShowsRow(p: Point, r: Row) {
    && p.ts == r.ts && p.rawRx == r.rawRx && p.rawTx == r.rawTx && p.accumRx == r.accumRx && p.accumTx == r.accumTx
    && p.rxRate == r.rxRate && p.txRate == r.txRate && p.reset == r.reset
  }

  ghost predicate ShowsBucket(p: Point, b: int, r: Bucket) {
    && p.ts == b && p.rawRx == r.rawRx && p.rawTx == r.rawTx && p.accumRx == r.accumRx && p.accumTx == r.accumTx
    && p.rxRate == r.rxRate && p.txRate == r.txRate && p.reset == r.reset
  }

  lemma {:induction false} RowPointsShow(rows: seq<Row>, start: int, end: int)
    ensures forall p :: p in RowPoints(rows, start, end) ==> exists r :: r in rows && ShowsRow(p, r)
    ensures forall r :: r in rows && start <= r.ts <= end ==>
      exists p :: p in RowPoints(rows, start, end) && ShowsRow(p, r)
  {
    if rows != [] {
      var rest := rows[1..];
      RowPointsShow(rest, start, end);
      assert rows == [rows[0]] + rest;
      assert ShowsRow(RowPoint(rows[0]), rows[0]);
      RowPointsStep(rows, start, end);
      hide ShowsRow, RowPoint, RowPoints;
    }
  }

  /** Before the oldest derived row, a window shows five-minute rows; without derived rows, it shows all
      of its five-minute rows that lie before the end of 64-bit time. */
  lemma RolledKeysAre(t: Tables, start: int, end: int, b: int)
    ensures b in RolledKeys(t, start, end) <==>
            && b in t.rolled && start <= b <= end
            && if t.derived == [] || t.derived[0].ts == 0 then b < 0x7FFF_FFFF_FFFF_FFFF else b < t.derived[0].ts
  {
  }

  /** Every point of a window shows a row of the tables, with its counters, rates and reset, and the rows
      of the window are all shown. */
  lemma WindowShows(t: Tables, start: int, end: int)
    ensures forall p :: p in Window(t, start, end) ==>
      || (exists r :: r in t.derived && ShowsRow(p, r))
      || (exists b :: b in t.rolled && ShowsBucket(p, b, t.rolled[b]))
    ensures forall r :: r in t.derived && start <= r.ts <= end ==>
      exists p :: p in Window(t, start, end) && ShowsRow(p, r)
    ensures forall b :: b in RolledKeys(t, start, end) ==>
      exists p :: p in Window(t, start, end) && ShowsBucket(p, b, t.rolled[b])
  {
    RowPointsShow(t.derived, start, end);
    var keys := RolledKeys(t, start, end);
    var rolled, rows := RolledPoints(t, keys), RowPoints(t.derived, start, end);
    forall i | 0 <= i < |keys| ensures keys[i] in t.rolled && ShowsBucket(rolled[i], keys[i], t.rolled[keys[i]]) {
      assert keys[i] in keys;
    }
    forall b | b in keys ensures exists p :: p in rolled && ShowsBucket(p, b, t.rolled[b]) {
      var i :| 0 <= i < |keys| && keys[i] == b;
      assert rolled[i] in rolled;
    }
    hide RowPoints, ShowsRow, ShowsBucket, RolledKeys, RolledPoints;
  }

  // ----- A window against the whole history -----

  /** When snapshot k is shown: at its own time, or once rolled up at the start of its bucket. */
  function TimeShown(history: seq<Snapshot>, cut: nat, k: nat): int
    requires k < |history|
  {
    if k >= cut then history[k].ts else BucketOf(history[k].ts)
  }

  /** What a window has to show: every raw snapshot of it, and of every rolled-up bucket of it the
      latest rolled-up snapshot. */
  predicate InWindow(t: Tables, history: seq<Snapshot>, cut: nat, start: int, end: int, k: nat)
    requires cut <= |history| && k < |history|
  {
    var time := TimeShown(history, cut, k);
    start <= time <= end && (k < cut ==> time in t.rolled && LatestIn(history, cut, time, k))
  }

  /** Point i of the window shows the counters after snapshot origins[i], in ascending order. */
  ghost predicate Traces(points: seq<Point>, history: seq<Snapshot>, cut: nat, origins: seq<nat>) {
    && |origins| == |points|
    && (forall i :: 0 <= i < |points| ==>
          origins[i] < |history| && points[i].ts == TimeShown(history, cut, origins[i])
          && points[i].accumRx == Accumulated(Rx(history), origins[i])
          && points[i].accumTx == Accumulated(Tx(history), origins[i]))
    && (forall i, j :: 0 <= i < j < |origins| ==> origins[i] < origins[j])
  }

  predicate FromEpoch(history: seq<Snapshot>) {
    forall i :: 0 <= i < |history| ==> history[i].ts >= 0
  }

  lemma {:induction false} RowPointsTrace(history: seq<Snapshot>, cut: nat, start: int, end: int)
    returns (origins: seq<nat>)
    requires cut <= |history|
    ensures Traces(RowPoints(Derive(history)[cut..], start, end), history, cut, origins)
    ensures forall i :: 0 <= i < |origins| ==> origins[i] >= cut
    ensures forall k: nat :: k in origins <==> cut <= k < |history| && start <= history[k].ts <= end
    decreases |history| - cut
  {
    hide *;
    var rows := Derive(history)[cut..];
    RowPointsStep(rows, start, end);
    if cut == |history| {
      assert rows == [];
      TraceNothing(history, cut);
      origins := [];
    } else {
      DeriveTail(history, cut);
      origins := RowPointsTrace(history, cut + 1, start, end);
      var later := RowPoints(rows[1..], start, end);
      TracesFrom(later, history, cut + 1, origins);
      if start <= rows[0].ts <= end {
        TraceOne(history, cut);
        TracesJoin([RowPoint(rows[0])], later, history, cut, [cut], origins);
        origins := [cut] + origins;
      } else {
        assert [] + later == later;
      }
    }
  }

  lemma DeriveTail(history: seq<Snapshot>, cut: nat)
    requires cut < |history|
    ensures Derive(history)[cut..] != [] && Derive(history)[cut..][0] == RowAt(history, cut)
    ensures RowAt(history, cut).ts == history[cut].ts
    ensures Derive(history)[cut..][1..] == Derive(history)[cut + 1..]
  {
    hide Accumulated;
  }

  lemma TraceNothing(history: seq<Snapshot>, cut: nat)
    ensures Traces([], history, cut, [])
  {
  }

  lemma TraceOne(history: seq<Snapshot>, cut: nat)
    requires cut < |history|
    ensures Traces([RowPoint(RowAt(history, cut))], history, cut, [cut])
  {
    hide Accumulated, BucketOf;
  }

  /** Raw snapshots are shown at their own time wherever the raw table starts. */
  lemma TracesFrom(points: seq<Point>, history: seq<Snapshot>, cut: nat, origins: seq<nat>)
    requires Traces(points, history, cut, origins) && cut > 0 && forall i :: 0 <= i < |origins| ==> origins[i] >= cut
    ensures Traces(points, history, cut - 1, origins)
  {
    hide Accumulated, BucketOf, Rx, Tx;
  }

  lemma RowPointsStep(rows: seq<Row>, start: int, end: int)
    ensures RowPoints(rows, start, end)
         == if rows == [] then []
            else (if start <= rows[0].ts <= end then [RowPoint(rows[0])] else []) + RowPoints(rows[1..], start, end)
  {
  }

  lemma {:induction false} RolledPointsTrace(t: Tables, history: seq<Snapshot>, cut: nat, keys: seq<int>)
    returns (origins: seq<nat>)
    requires Ascending(history) && cut <= |history|
    requires forall b :: b in keys ==> b in t.rolled && HoldsLatest(history, cut, b, t.rolled[b])
    requires forall i, j :: 0 <= i < j < |keys| ==> keys[i] < keys[j]
    ensures Traces(RolledPoints(t, keys), history, cut, origins)
    ensures forall i :: 0 <= i < |origins| ==> LatestIn(history, cut, keys[i], origins[i])
  {
    hide Accumulated, BucketOf;
    if keys == [] {
      origins := [];
    } else {
      var earlier, b := keys[..|keys| - 1], keys[|keys| - 1];
      origins := RolledPointsTrace(t, history, cut, earlier);
      assert b in keys;
      var j: nat :| LatestIn(history, cut, b, j) && Holds(history, j, t.rolled[b]);
      forall i | 0 <= i < |origins| ensures origins[i] < j {
        assert keys[i] < b;
        if j <= origins[i] {
          BucketMonotone(history[j].ts, history[origins[i]].ts);
        }
      }
      assert RolledPoints(t, keys) == RolledPoints(t, earlier) + [RolledPoint(t, b)];
      origins := origins + [j];
    }
  }

  lemma LatestIsUnique(history: seq<Snapshot>, cut: nat, b: int, j: nat, k: nat)
    requires Ascending(history) && cut <= |history|
    requires LatestIn(history, cut, b, j) && LatestIn(history, cut, b, k)
    ensures j == k
  {
    var lo, hi := if j <= k then j else k, if j <= k then k else j;
    if lo < hi {
      BucketMonotone(history[lo].ts, history[lo + 1].ts);
      assert history[lo + 1].ts <= history[hi].ts;
      BucketMonotone(history[lo + 1].ts, history[hi].ts);
    }
  }

  /** Every five-minute row lies before the derived rows, so none is left out of a window. */
  lemma RolledAreOlder(t: Tables, history: seq<Snapshot>, cut: nat, b: int)
    requires Inv(t, history, cut, |history|) && FromEpoch(history) && b in t.rolled
    ensures t.derived != [] && b < OldestRaw(t.derived) && t.derived[0].ts == history[cut].ts
  {
    assert history[..|history|] == history;
    assert HoldsLatest(history, cut, b, t.rolled[b]);
    var j: nat :| LatestIn(history, cut, b, j) && Holds(history, j, t.rolled[b]);
    assert t.derived[0] == RowAt(history, cut);
    hide Accumulated, Derive;
    assert b <= history[j].ts < history[cut].ts;
  }

  /** The points of a window are, in ascending order, exactly the snapshots it has to show. */
  lemma WindowTraces(t: Tables, history: seq<Snapshot>, cut: nat, start: int, end: int) returns (origins: seq<nat>)
    requires Inv(t, history, cut, |history|) && FromEpoch(history)
    ensures Traces(Window(t, start, end), history, cut, origins)
    ensures forall k: nat :: k in origins <==> k < |history| && InWindow(t, history, cut, start, end, k)
  {
    hide Accumulated, BucketOf, HoldsLatest, RowPoints, LatestIn;
    var keys := RolledKeys(t, start, end);
    assert forall i :: 0 <= i < |keys| ==> keys[i] in keys;
    var rolled := RolledPointsTrace(t, history, cut, keys);
    var rows := RowPointsTrace(history, cut, start, end);
    assert history[..|history|] == history;
    origins := rolled + rows;
    forall k: nat | k < |history| ensures k in rolled <==> k < cut && InWindow(t, history, cut, start, end, k) {
      RolledInWindow(t, history, cut, start, end, keys, rolled, k);
    }
    RowsInWindow(t, history, cut, start, end, rows);
    assert forall i :: 0 <= i < |rolled| ==> rolled[i] in rolled;
    assert forall i :: 0 <= i < |rows| ==> rows[i] in rows;
    hide RolledPoints, RolledKeys, InWindow, Derive;
    TracesJoin(RolledPoints(t, keys), RowPoints(t.derived, start, end), history, cut, rolled, rows);
  }

  lemma TracesJoin(p: seq<Point>, q: seq<Point>, history: seq<Snapshot>, cut: nat, a: seq<nat>, b: seq<nat>)
    requires Traces(p, history, cut, a) && Traces(q, history, cut, b)
    requires forall i, j :: 0 <= i < |a| && 0 <= j < |b| ==> a[i] < b[j]
    ensures Traces(p + q, history, cut, a + b)
  {
    hide Accumulated, BucketOf, Rx, Tx;
  }

  lemma RowsInWindow(t: Tables, history: seq<Snapshot>, cut: nat, start: int, end: int, rows: seq<nat>)
    requires cut <= |history|
    requires forall k: nat :: k in rows <==> cut <= k < |history| && start <= history[k].ts <= end
    ensures forall k: nat ::
      k in rows <==> k < |history| && k >= cut && InWindow(t, history, cut, start, end, k)
  {
  }

  lemma KeysOfWindow(t: Tables, history: seq<Snapshot>, cut: nat, start: int, end: int, b: int)
    requires Inv(t, history, cut, |history|) && FromEpoch(history)
    ensures b in RolledKeys(t, start, end) <==> b in t.rolled && start <= b <= end
  {
    if b in t.rolled {
      RolledAreOlder(t, history, cut, b);
    }
    hide Inv, OldestRaw;
  }

  lemma RolledInWindow(t: Tables, history: seq<Snapshot>, cut: nat, start: int, end: int, keys: seq<int>,
                       rolled: seq<nat>, k: nat)
    requires Inv(t, history, cut, |history|) && FromEpoch(history) && k < |history|
    requires keys == RolledKeys(t, start, end) && |rolled| == |keys|
    requires forall i :: 0 <= i < |rolled| ==> LatestIn(history, cut, keys[i], rolled[i])
    ensures k in rolled <==> k < cut && InWindow(t, history, cut, start, end, k)
  {
    hide BucketOf, HoldsLatest, RolledKeys;
    KeysOfWindow(t, history, cut, start, end, BucketOf(history[k].ts));
    if k in rolled {
      var i :| 0 <= i < |rolled| && rolled[i] == k;
      assert keys[i] in keys;
    }
    if k < cut && InWindow(t, history, cut, start, end, k) {
      var i :| 0 <= i < |keys| && keys[i] == BucketOf(history[k].ts);
      LatestIsUnique(history, cut, keys[i], rolled[i], k);
    }
  }

  /** The difference of two points is what was gained between their snapshots. */
  lemma PairOfWindow(points: seq<Point>, history: seq<Snapshot>, cut: nat, origins: seq<nat>, i: nat, j: nat)
    requires Traces(points, history, cut, origins) && CountsFit(history) && i <= j < |points|
    ensures origins[i] <= origins[j] < |history|
    ensures points[i].accumRx + Gains(Rx(history), origins[i], origins[j]) == points[j].accumRx
    ensures points[i].accumTx + Gains(Tx(history), origins[i], origins[j]) == points[j].accumTx
  {
    assert i < j ==> origins[i] < origins[j];
    WindowTotal(Rx(history), origins[i], origins[j]);
    WindowTotal(Tx(history), origins[i], origins[j]);
  }

  /** Reading five-minute rows and then derived rows, the counters never decrease. */
  lemma WindowIsMonotone(t: Tables, history: seq<Snapshot>, cut: nat, start: int, end: int)
    requires Inv(t, history, cut, |history|) && FromEpoch(history) && CountsFit(history)
    ensures var points := Window(t, start, end);
            forall i, j :: 0 <= i <= j < |points| ==>
              points[i].accumRx <= points[j].accumRx && points[i].accumTx <= points[j].accumTx
  {
    var origins := WindowTraces(t, history, cut, start, end);
    hide Window, CountsFit, Traces;
    var points := Window(t, start, end);
    forall i, j | 0 <= i <= j < |points|
      ensures points[i].accumRx <= points[j].accumRx && points[i].accumTx <= points[j].accumTx
    {
      PairOfWindow(points, history, cut, origins, i, j);
    }
  }

  // ----- The window of a summary -----

  /** Traffic is counted from the first point. */
  function Relative(points: seq<Point>): (r: seq<Point>)
    ensures |r| == |points|
  {
    seq(|points|, i requires 0 <= i < |points| =>
      var p := points[i];
      p.(trafficRx := if p.accumRx >= points[0].accumRx then p.accumRx - points[0].accumRx else 0,
         trafficTx := if p.accumTx >= points[0].accumTx then p.accumTx - points[0].accumTx else 0))
  }

  predicate TimeOrdered(points: seq<Point>) {
    forall i, j :: 0 <= i <= j < |points| ==> points[i].ts <= points[j].ts
  }

  function SumRxRate(points: seq<Point>): real {
    if points == [] then 0.0 else SumRxRate(points[..|points| - 1]) + points[|points| - 1].rxRate
  }

  function SumTxRate(points: seq<Point>): real {
    if points == [] then 0.0 else SumTxRate(points[..|points| - 1]) + points[|points| - 1].txRate
  }

  predicate AnyReset(points: seq<Point>) {
    points != [] && (AnyReset(points[..|points| - 1]) || points[|points| - 1].reset)
  }

  /** One point for a stretch: the counters of its last point, average rates, any reset. */
  function Summary(points: seq<Point>): Point
    requires points != []
  {
    points[|points| - 1].(
      rxRate := SumRxRate(points) / (|points| as real),
      txRate := SumTxRate(points) / (|points| as real),
      reset := AnyReset(points))
  }

  /** The time window of a point: the span is cut into `limit` windows of equal length, and the
      end of the span belongs to the last one. */
  function WindowIndex(minTs: int, maxTs: int, limit: int, ts: int): int
    requires minTs < maxTs && limit > 0
  {
    if ts >= maxTs then limit - 1 else (ts - minTs) * limit / (maxTs - minTs)
  }

  predicate Spans(points: seq<Point>, limit: int) {
    points != [] && points[0].ts < points[|points| - 1].ts && limit > 0
  }

  function IndexAt(points: seq<Point>, limit: int, i: nat): int
    requires Spans(points, limit) && i < |points|
  {
    WindowIndex(points[0].ts, points[|points| - 1].ts, limit, points[i].ts)
  }

  /** The end of the stretch around point i that starts at point `from`. */
  function StretchEnd(points: seq<Point>, limit: int, from: nat, i: nat): (r: nat)
    requires Spans(points, limit) && from <= i < |points|
    ensures i < r <= |points|
    decreases |points| - i
  {
    if i + 1 < |points| && IndexAt(points, limit, i + 1) == IndexAt(points, limit, from)
    then StretchEnd(points, limit, from, i + 1) else i + 1
  }

  /** One summary per stretch of points of the same time window. */
  function Downsampled(points: seq<Point>, limit: int, from: nat): seq<Point>
    requires Spans(points, limit) && from <= |points|
    decreases |points| - from
  {
    if from == |points| then []
    else
      var to := StretchEnd(points, limit, from, from);
      [Summary(points[from..to])] + Downsampled(points, limit, to)
  }

  function BucketEnd(minTs: int, maxTs: int, limit: int, i: int): real
    requires limit > 0
  {
    if i == limit - 1 then maxTs as real + 1.0
    else minTs as real + (i + 1) as real * ((maxTs - minTs) as real / limit as real)
  }

  lemma FloorBelow(a: int, b: int, i: int)
    requires b > 0
    ensures a / b <= i <==> a < (i + 1) * b
  {
    if a / b <= i {
      assert (a / b) * b <= i * b;
    } else {
      assert (a / b) * b >= (i + 1) * b;
    }
  }

  lemma ScaleReal(a: int, b: int, limit: int)
    requires limit > 0
    ensures a as real < b as real / limit as real <==> a * limit < b
  {
    var q := b as real / limit as real;
    assert q * limit as real == b as real;
    assert (a * limit) as real == a as real * limit as real;
    if a as real < q {
      assert a as real * limit as real < q * limit as real;
    } else {
      assert a as real * limit as real >= q * limit as real;
    }
  }

  lemma BucketEndReal(minTs: int, span: int, limit: int, i: int)
    requires limit > 0
    ensures minTs as real + (i + 1) as real * (span as real / limit as real)
            == minTs as real + ((i + 1) * span) as real / limit as real
  {
    assert ((i + 1) * span) as real == (i + 1) as real * span as real;
  }

  lemma ProductGrows(a: int, b: int, c: int)
    requires a < b && c > 0
    ensures a * c < b * c && c * a < c * b
  {
  }

  lemma BeforeLastEnd(minTs: int, maxTs: int, limit: int, ts: int)
    requires minTs <= ts <= maxTs && minTs < maxTs && limit > 0
    ensures WindowIndex(minTs, maxTs, limit, ts) <= limit - 1
  {
    if ts < maxTs {
      ProductGrows(ts - minTs, maxTs - minTs, limit);
      FloorBelow((ts - minTs) * limit, maxTs - minTs, limit - 1);
    }
  }

  lemma BeforeInnerEnd(minTs: int, maxTs: int, limit: int, ts: int, i: int)
    requires minTs <= ts <= maxTs && minTs < maxTs && 0 <= i < limit - 1
    ensures ts as real < BucketEnd(minTs, maxTs, limit, i) <==> (ts - minTs) * limit < (i + 1) * (maxTs - minTs)
  {
    var span := maxTs - minTs;
    BucketEndReal(minTs, span, limit, i);
    ScaleReal(ts - minTs, (i + 1) * span, limit);
    assert ts as real - minTs as real == (ts - minTs) as real;
    assert BucketEnd(minTs, maxTs, limit, i) == minTs as real + ((i + 1) * span) as real / limit as real;
  }

  /** The loop's real bucket ends cut the time span into the same windows. */
  lemma BeforeEnd(minTs: int, maxTs: int, limit: int, ts: int, i: int)
    requires minTs <= ts <= maxTs && minTs < maxTs && 0 <= i < limit
    ensures ts as real < BucketEnd(minTs, maxTs, limit, i) <==> WindowIndex(minTs, maxTs, limit, ts) <= i
  {
    if i == limit - 1 {
      BeforeLastEnd(minTs, maxTs, limit, ts);
    } else {
      BeforeInnerEnd(minTs, maxTs, limit, ts, i);
      hide BucketEnd;
      FloorBelow((ts - minTs) * limit, maxTs - minTs, i);
      if ts == maxTs {
        ProductGrows(i + 1, limit, maxTs - minTs);
      }
    }
  }

  lemma DivisionGrows(a: int, b: int, d: int)
    requires a <= b && d > 0
    ensures a / d <= b / d
  {
    if a / d > b / d {
      FloorBelow(b, d, a / d - 1);
      FloorBelow(a, d, a / d - 1);
    }
  }

  lemma IndexGrows(points: seq<Point>, limit: int, i: nat, j: nat)
    requires Spans(points, limit) && TimeOrdered(points) && i <= j < |points|
    ensures 0 <= IndexAt(points, limit, i) <= IndexAt(points, limit, j) < limit
  {
    var minTs, maxTs := points[0].ts, points[|points| - 1].ts;
    assert minTs <= points[i].ts <= points[j].ts <= maxTs;
    BeforeLastEnd(minTs, maxTs, limit, points[i].ts);
    BeforeLastEnd(minTs, maxTs, limit, points[j].ts);
    NotNegative(points[i].ts - minTs, limit);
    DivisionGrows(0, (points[i].ts - minTs) * limit, maxTs - minTs);
    if points[j].ts < maxTs {
      if points[i].ts < points[j].ts {
        ProductGrows(points[i].ts - minTs, points[j].ts - minTs, limit);
      }
      DivisionGrows((points[i].ts - minTs) * limit, (points[j].ts - minTs) * limit, maxTs - minTs);
    }
  }

  lemma NotNegative(a: int, b: int)
    requires a >= 0 && b >= 0
    ensures a * b >= 0
  {
  }

  lemma {:induction false} StretchEndIs(points: seq<Point>, limit: int, from: nat, i: nat, to: nat)
    requires Spans(points, limit) && from <= i < to <= |points|
    requires forall k :: from <= k < to ==> IndexAt(points, limit, k) == IndexAt(points, limit, from)
    requires to < |points| ==> IndexAt(points, limit, to) != IndexAt(points, limit, from)
    ensures StretchEnd(points, limit, from, i) == to
    decreases |points| - i
  {
    hide IndexAt;
    if i + 1 < to {
      StretchEndIs(points, limit, from, i + 1, to);
    }
  }

  /** The averages of one stretch. */
  method Summarize(points: seq<Point>, startIdx: nat, endIdx: nat) returns (p: Point)
    requires startIdx < endIdx <= |points|
    ensures p == Summary(points[startIdx..endIdx])
  {
    var sumRxRate, sumTxRate, anyReset := 0.0, 0.0, false;
    var j := startIdx;
    while j < endIdx
      invariant startIdx <= j <= endIdx
      invariant sumRxRate == SumRxRate(points[startIdx..j]) && sumTxRate == SumTxRate(points[startIdx..j])
      invariant anyReset == AnyReset(points[startIdx..j])
    {
      assert points[startIdx..j + 1][..j - startIdx] == points[startIdx..j];
      sumRxRate := sumRxRate + points[j].rxRate;
      sumTxRate := sumTxRate + points[j].txRate;
      if points[j].reset {
        anyReset := true;
      }
      j := j + 1;
    }
    var count := (endIdx - startIdx) as real;
    p := points[endIdx - 1].(rxRate := sumRxRate / count, txRate := sumTxRate / count, reset := anyReset);
  }

  /** The points of the next window. */
  method TakeWindow(points: seq<Point>, limit: int, i: int, ptIdx: nat) returns (endIdx: nat)
    requires Spans(points, limit) && TimeOrdered(points) && 0 <= i < limit && ptIdx <= |points|
    requires forall k :: ptIdx <= k < |points| ==> IndexAt(points, limit, k) >= i
    ensures ptIdx <= endIdx <= |points|
    ensures forall k :: ptIdx <= k < endIdx ==> IndexAt(points, limit, k) == i
    ensures forall k :: endIdx <= k < |points| ==> IndexAt(points, limit, k) > i
  {
    var minTs, maxTs := points[0].ts, points[|points| - 1].ts;
    var bucketEnd := BucketEnd(minTs, maxTs, limit, i);
    endIdx := ptIdx;
    while endIdx < |points| && points[endIdx].ts as real < bucketEnd
      invariant ptIdx <= endIdx <= |points|
      invariant forall k :: ptIdx <= k < endIdx ==> IndexAt(points, limit, k) == i
    {
      BeforeEnd(minTs, maxTs, limit, points[endIdx].ts, i);
      endIdx := endIdx + 1;
    }
    hide BucketEnd;
    if endIdx < |points| {
      BeforeEnd(minTs, maxTs, limit, points[endIdx].ts, i);
      forall k | endIdx <= k < |points| ensures IndexAt(points, limit, k) > i {
        IndexGrows(points, limit, endIdx, k);
      }
    }
  }

  method Downsample(points: seq<Point>, limit: int) returns (r: seq<Point>)
    requires Spans(points, limit) && TimeOrdered(points)
    ensures r == Downsampled(points, limit, 0)
  {
    hide IndexAt, Summary;
    forall k | 0 <= k < |points| ensures 0 <= IndexAt(points, limit, k) < limit {
      IndexGrows(points, limit, k, k);
    }
    r := [];
    var ptIdx, i := 0, 0;
    while i < limit && ptIdx < |points|
      invariant 0 <= i <= limit && 0 <= ptIdx <= |points|
      invariant r + Downsampled(points, limit, ptIdx) == Downsampled(points, limit, 0)
      invariant forall k :: ptIdx <= k < |points| ==> IndexAt(points, limit, k) >= i
      decreases limit - i
    {
      var startIdx := ptIdx;
      ptIdx := TakeWindow(points, limit, i, ptIdx);
      if startIdx < ptIdx {
        StretchEndIs(points, limit, startIdx, startIdx, ptIdx);
        var p := Summarize(points, startIdx, ptIdx);
        assert Downsampled(points, limit, startIdx) == [p] + Downsampled(points, limit, ptIdx);
        r := r + [p];
      }
      i := i + 1;
    }
    NoneLeft(points, limit, i, ptIdx);
  }

  /** Window numbers stay below the limit, so no point is left after the last window. */
  lemma NoneLeft(points: seq<Point>, limit: int, i: int, ptIdx: nat)
    requires Spans(points, limit) && TimeOrdered(points) && ptIdx <= |points|
    requires i >= limit || ptIdx == |points|
    requires forall k :: ptIdx <= k < |points| ==> IndexAt(points, limit, k) >= i
    ensures ptIdx == |points|
  {
    if ptIdx < |points| {
      IndexGrows(points, limit, ptIdx, ptIdx);
    }
  }

  function PointRxRates(points: seq<Point>): (r: seq<real>)
    ensures |r| == |points| && forall i :: 0 <= i < |r| ==> r[i] == points[i].rxRate
  {
    seq(|points|, i requires 0 <= i < |points| => points[i].rxRate)
  }

  function PointTxRates(points: seq<Point>): (r: seq<real>)
    ensures |r| == |points| && forall i :: 0 <= i < |r| ==> r[i] == points[i].txRate
  {
    seq(|points|, i requires 0 <= i < |points| => points[i].txRate)
  }

  lemma {:induction false} RateSums(points: seq<Point>)
    ensures SumRxRate(points) == Total(PointRxRates(points)) && SumTxRate(points) == Total(PointTxRates(points))
  {
    if points != [] {
      var earlier, last := points[..|points| - 1], points[|points| - 1];
      RateSums(earlier);
      TotalLast(PointRxRates(earlier), last.rxRate);
      TotalLast(PointTxRates(earlier), last.txRate);
      assert PointRxRates(points) == PointRxRates(earlier) + [last.rxRate];
      assert PointTxRates(points) == PointTxRates(earlier) + [last.txRate];
      hide Total;
    }
  }

  lemma {:induction false} AnyResetIs(points: seq<Point>)
    ensures AnyReset(points) <==> exists p :: p in points && p.reset
  {
    if points != [] {
      var earlier, last := points[..|points| - 1], points[|points| - 1];
      AnyResetIs(earlier);
      assert points == earlier + [last];
    }
  }

  /** The point keeps the time, counters and traffic of the last of the points, and shows their average
      rates and any reset. */
  ghost predicate SumsUp(s: Point, points: seq<Point>)
    requires points != []
  {
    var last := points[|points| - 1];
    && s.ts == last.ts && s.rawRx == last.rawRx && s.rawTx == last.rawTx
    && s.accumRx == last.accumRx && s.accumTx == last.accumTx
    && s.trafficRx == last.trafficRx && s.trafficTx == last.trafficTx
    && s.rxRate * (|points| as real) == Total(PointRxRates(points))
    && s.txRate * (|points| as real) == Total(PointTxRates(points))
    && (s.reset <==> exists p :: p in points && p.reset)
  }

  lemma SummaryIs(points: seq<Point>)
    requires points != []
    ensures SumsUp(Summary(points), points)
  {
    RateSums(points);
    AnyResetIs(points);
    TimesCount(SumRxRate(points), |points|);
    TimesCount(SumTxRate(points), |points|);
    hide SumRxRate, SumTxRate, AnyReset, Total, PointRxRates, PointTxRates;
  }

  /** s sums up the stretch of the points from..to, which are all from one time window and all of it. */
  ghost predicate SumsUpStretch(s: Point, points: seq<Point>, limit: int, from: nat, to: nat)
    requires Spans(points, limit)
  {
    && from < to <= |points| && SumsUp(s, points[from..to])
    && (forall i :: from <= i < to ==> IndexAt(points, limit, i) == IndexAt(points, limit, from))
    && (to < |points| ==> IndexAt(points, limit, to) != IndexAt(points, limit, from))
  }

  /** The points shown sum up, one after the other, stretches that together are all points. */
  ghost predicate SumUpStretches(shown: seq<Point>, points: seq<Point>, limit: int, cuts: seq<nat>)
    requires Spans(points, limit)
  {
    && |cuts| == |shown| + 1 && cuts[|shown|] == |points|
    && forall k :: 0 <= k < |shown| ==> SumsUpStretch(shown[k], points, limit, cuts[k], cuts[k + 1])
  }

  lemma StretchFirst(s: Point, shown: seq<Point>, points: seq<Point>, limit: int, from: nat, cuts: seq<nat>)
    requires Spans(points, limit) && SumUpStretches(shown, points, limit, cuts)
    requires SumsUpStretch(s, points, limit, from, cuts[0])
    ensures SumUpStretches([s] + shown, points, limit, [from] + cuts)
  {
    hide SumsUpStretch;
  }

  lemma {:induction false} StretchIsOne(points: seq<Point>, limit: int, from: nat, i: nat)
    requires Spans(points, limit) && from <= i < |points|
    requires IndexAt(points, limit, i) == IndexAt(points, limit, from)
    ensures forall k :: i <= k < StretchEnd(points, limit, from, i) ==>
      IndexAt(points, limit, k) == IndexAt(points, limit, from)
    decreases |points| - i
  {
    hide IndexAt;
    if i + 1 < |points| && IndexAt(points, limit, i + 1) == IndexAt(points, limit, from) {
      StretchIsOne(points, limit, from, i + 1);
    }
  }

  /** Downsampling sums up the points window by window. */
  lemma {:induction false} DownsampledStretches(points: seq<Point>, limit: int, from: nat) returns (cuts: seq<nat>)
    requires Spans(points, limit) && from <= |points|
    ensures SumUpStretches(Downsampled(points, limit, from), points, limit, cuts) && cuts[0] == from
    decreases |points| - from
  {
    if from == |points| {
      cuts := [from];
    } else {
      var to := StretchEnd(points, limit, from, from);
      var rest := DownsampledStretches(points, limit, to);
      StretchIsOne(points, limit, from, from);
      StretchEndStops(points, limit, from, from);
      SummaryIs(points[from..to]);
      hide IndexAt, SumsUp, Summary, SumUpStretches;
      StretchFirst(Summary(points[from..to]), Downsampled(points, limit, to), points, limit, from, rest);
      cuts := [from] + rest;
    }
  }

  /** At most `limit` points, and the last one keeps the counters and traffic of the window's last. */
  lemma {:induction false} DownsampledFits(points: seq<Point>, limit: int, from: nat)
    requires Spans(points, limit) && TimeOrdered(points) && from < |points|
    ensures var r := Downsampled(points, limit, from);
            1 <= |r| <= limit - IndexAt(points, limit, from)
            && r[|r| - 1].ts == points[|points| - 1].ts
            && r[|r| - 1].trafficRx == points[|points| - 1].trafficRx
            && r[|r| - 1].trafficTx == points[|points| - 1].trafficTx
    decreases |points| - from
  {
    var to := StretchEnd(points, limit, from, from);
    IndexGrows(points, limit, from, from);
    if to < |points| {
      StretchEndStops(points, limit, from, from);
      IndexGrows(points, limit, from, to);
      DownsampledFits(points, limit, to);
    }
    hide IndexAt, TimeOrdered, StretchEnd;
  }

  lemma {:induction false} StretchEndStops(points: seq<Point>, limit: int, from: nat, i: nat)
    requires Spans(points, limit) && from <= i < |points|
    ensures var to := StretchEnd(points, limit, from, i);
            to < |points| ==> IndexAt(points, limit, to) != IndexAt(points, limit, from)
    decreases |points| - i
  {
    if i + 1 < |points| && IndexAt(points, limit, i + 1) == IndexAt(points, limit, from) {
      StretchEndStops(points, limit, from, i + 1);
    }
  }
}
