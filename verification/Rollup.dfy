/** The traffic tables of one node interface over time: recording, updating, rolling old rows up
    into five-minute rows, and reading a window back. */
module Rollup {
  import opened Wrappers
  import opened Traffic

  const BUCKET := 300

  datatype Bucket = Bucket(
    rawRx: nat, rawTx: nat, accumRx: nat, accumTx: nat, rxRate: real, txRate: real, reset: bool)

  /** The database divides towards zero. */
  function BucketOf(ts: int): int {
    (if ts >= 0 then ts / BUCKET else -(-ts / BUCKET)) * BUCKET
  }

  lemma BucketMonotone(s: int, t: int)
    requires s <= t
    ensures BucketOf(s) <= BucketOf(t)
  {
  }

  // ----- The grouping query -----

  function Max(a: nat, b: nat): nat {
    if a >= b then a else b
  }

  function SumRx(rows: seq<Row>): real {
    if rows == [] then 0.0 else SumRx(rows[..|rows| - 1]) + rows[|rows| - 1].rxRate
  }

  function SumTx(rows: seq<Row>): real {
    if rows == [] then 0.0 else SumTx(rows[..|rows| - 1]) + rows[|rows| - 1].txRate
  }

  /** The maxima and averages of a group. */
  function Summarize(rows: seq<Row>): Bucket
    requires rows != []
  {
    var b := Maxima(rows);
    b.(rxRate := SumRx(rows) / (|rows| as real), txRate := SumTx(rows) / (|rows| as real))
  }

  function Maxima(rows: seq<Row>): Bucket
    requires rows != []
  {
    var r := rows[|rows| - 1];
    if |rows| == 1 then Bucket(r.rawRx, r.rawTx, r.accumRx, r.accumTx, 0.0, 0.0, r.reset)
    else
      var b := Maxima(rows[..|rows| - 1]);
      Bucket(Max(b.rawRx, r.rawRx), Max(b.rawTx, r.rawTx), Max(b.accumRx, r.accumRx), Max(b.accumTx, r.accumTx),
             0.0, 0.0, b.reset || r.reset)
  }

  function Group(rows: seq<Row>, b: int): seq<Row> {
    if rows == [] then []
    else Group(rows[..|rows| - 1], b) + if BucketOf(rows[|rows| - 1].ts) == b then [rows[|rows| - 1]] else []
  }

  function OlderThan(rows: seq<Row>, cutoff: int): seq<Row> {
    if rows == [] then []
    else (if rows[0].ts < cutoff then [rows[0]] else []) + OlderThan(rows[1..], cutoff)
  }

  function RowsFrom(rows: seq<Row>, cutoff: int): seq<Row> {
    if rows == [] then []
    else (if rows[0].ts >= cutoff then [rows[0]] else []) + RowsFrom(rows[1..], cutoff)
  }

  function SnapsFrom(snaps: seq<Snapshot>, cutoff: int): seq<Snapshot> {
    if snaps == [] then []
    else (if snaps[0].ts >= cutoff then [snaps[0]] else []) + SnapsFrom(snaps[1..], cutoff)
  }

  /** Insert or replace one row per bucket of the rows. */
  function Merged(table: map<int, Bucket>, rows: seq<Row>): map<int, Bucket> {
    table + map b | b in (set r | r in rows :: BucketOf(r.ts)) && Group(rows, b) != [] :: Summarize(Group(rows, b))
  }

  function BucketsFrom(table: map<int, Bucket>, cutoff: int): map<int, Bucket> {
    map b | b in table && b >= cutoff :: table[b]
  }

  // ----- The tables and their steps -----

  datatype Tables = Tables(raw: seq<Snapshot>, derived: seq<Row>, rolled: map<int, Bucket>)

  datatype Step =
    | Record(snap: Snapshot)
    | Update
    | RollUp(rawCutoff: int, overallCutoff: int)

  function AfterRollUp(t: Tables, rawCutoff: int, overallCutoff: int): Tables {
    var derived := Updated(t.derived, t.raw);
    var merged := Merged(t.rolled, OlderThan(derived, rawCutoff));
    Tables(SnapsFrom(t.raw, rawCutoff), RowsFrom(derived, rawCutoff),
           BucketsFrom(merged, overallCutoff))
  }

  function After(t: Tables, step: Step): Tables {
    match step
    case Record(snap) => t.(raw := t.raw + [snap])
    case Update => t.(derived := Updated(t.derived, t.raw))
    case RollUp(rawCutoff, overallCutoff) => AfterRollUp(t, rawCutoff, overallCutoff)
  }

  // ----- The tables against the whole history -----

  predicate CountsFit(history: seq<Snapshot>) {
    Counted(Rx(history)) < U64_LIMIT && Counted(Tx(history)) < U64_LIMIT
  }

  /** Snapshot j is the latest of the first `cut` that falls into bucket b. */
  predicate LatestIn(history: seq<Snapshot>, cut: nat, b: int, j: nat)
    requires cut <= |history|
  {
    j < cut && BucketOf(history[j].ts) == b && (j + 1 < cut ==> BucketOf(history[j + 1].ts) != b)
  }

  ghost predicate HoldsLatest(history: seq<Snapshot>, cut: nat, b: int, row: Bucket)
    requires cut <= |history|
  {
    exists j: nat :: LatestIn(history, cut, b, j) && Holds(history, j, row)
  }

  /** The first `cut` snapshots are rolled up, the rows of the first n are derived. */
  ghost predicate Inv(t: Tables, history: seq<Snapshot>, cut: nat, n: nat) {
    && Ascending(history)
    && (cut < n <= |history| || cut == n == 0)
    && t.raw == history[cut..]
    && t.derived == Derive(history[..n])[cut..]
    && forall b :: b in t.rolled ==> HoldsLatest(history, cut, b, t.rolled[b])
  }

  lemma AccumulatedAscends(counters: seq<nat>, i: nat, j: nat)
    requires i <= j < |counters| && Counted(counters) < U64_LIMIT
    ensures Accumulated(counters, i) <= Accumulated(counters, j)
  {
    WindowTotal(counters, i, j);
  }

  /** Where an ascending history passes the cutoff. */
  lemma CutPoint(history: seq<Snapshot>, cut: nat, cutoff: int) returns (cut': nat)
    requires Ascending(history) && cut <= |history|
    ensures cut <= cut' <= |history|
    ensures forall k :: cut <= k < cut' ==> history[k].ts < cutoff
    ensures forall k :: cut' <= k < |history| ==> history[k].ts >= cutoff
  {
    cut' := cut;
    while cut' < |history| && history[cut'].ts < cutoff
      invariant cut <= cut' <= |history|
      invariant forall k :: cut <= k < cut' ==> history[k].ts < cutoff
    {
      cut' := cut' + 1;
    }
  }

  lemma {:induction false} OlderIsPrefix(rows: seq<Row>, m: nat, cutoff: int)
    requires m <= |rows|
    requires forall k :: 0 <= k < m ==> rows[k].ts < cutoff
    requires forall k :: m <= k < |rows| ==> rows[k].ts >= cutoff
    ensures OlderThan(rows, cutoff) == rows[..m]
  {
    if rows != [] {
      var m' := if m == 0 then 0 else m - 1;
      OlderIsPrefix(rows[1..], m', cutoff);
      assert m > 0 ==> rows[..m] == [rows[0]] + rows[1..][..m'];
    }
  }

  lemma {:induction false} NewerIsRest(rows: seq<Row>, m: nat, cutoff: int)
    requires m <= |rows|
    requires forall k :: 0 <= k < m ==> rows[k].ts < cutoff
    requires forall k :: m <= k < |rows| ==> rows[k].ts >= cutoff
    ensures RowsFrom(rows, cutoff) == rows[m..]
  {
    if rows != [] {
      NewerIsRest(rows[1..], if m == 0 then 0 else m - 1, cutoff);
    }
  }

  lemma {:induction false} SnapsSplit(snaps: seq<Snapshot>, m: nat, cutoff: int)
    requires m <= |snaps|
    requires forall k :: 0 <= k < m ==> snaps[k].ts < cutoff
    requires forall k :: m <= k < |snaps| ==> snaps[k].ts >= cutoff
    ensures SnapsFrom(snaps, cutoff) == snaps[m..]
  {
    if snaps != [] {
      SnapsSplit(snaps[1..], if m == 0 then 0 else m - 1, cutoff);
    }
  }

  predicate Holds(history: seq<Snapshot>, j: nat, row: Bucket)
    requires j < |history|
  {
    row.accumRx == Accumulated(Rx(history), j) && row.accumTx == Accumulated(Tx(history), j)
  }

  lemma GroupGrows(rows: seq<Row>, row: Row, b: int)
    ensures Group(rows + [row], b) == Group(rows, b) + if BucketOf(row.ts) == b then [row] else []
  {
    assert (rows + [row])[..|rows|] == rows;
  }

  /** g summarizes bucket b of the snapshots cut..cut', of which j is the latest. */
  ghost predicate GroupFits(history: seq<Snapshot>, cut: nat, cut': nat, b: int, g: seq<Row>, j: nat)
    requires cut <= cut' <= |history|
  {
    if g == [] then forall k :: cut <= k < cut' ==> BucketOf(history[k].ts) != b
    else cut <= j && LatestIn(history, cut', b, j) && Holds(history, j, Maxima(g))
  }

  lemma GroupStep(history: seq<Snapshot>, cut: nat, last: nat, b: int, g: seq<Row>, j: nat)
    requires cut <= last < |history| && CountsFit(history)
    requires GroupFits(history, cut, last, b, g, j)
    ensures if BucketOf(history[last].ts) == b
            then GroupFits(history, cut, last + 1, b, g + [RowAt(history, last)], last)
            else GroupFits(history, cut, last + 1, b, g, j)
  {
    var row := RowAt(history, last);
    if g != [] {
      AccumulatedAscends(Rx(history), j, last);
      AccumulatedAscends(Tx(history), j, last);
    }
    hide BucketOf, Maxima, Accumulated, Counted;
  }

  /** The summary of a bucket's rows holds the accumulated counters of the latest of them. */
  lemma {:induction false} GroupHoldsLatest(history: seq<Snapshot>, cut: nat, cut': nat, b: int) returns (j: nat)
    requires cut <= cut' <= |history| && CountsFit(history)
    ensures GroupFits(history, cut, cut', b, Group(Derive(history)[cut..cut'], b), j)
    decreases cut' - cut
  {
    j := 0;
    if cut < cut' {
      var last := cut' - 1;
      var rows, row := Derive(history)[cut..last], RowAt(history, last);
      assert Derive(history)[cut..cut'] == rows + [row];
      GroupGrows(rows, row, b);
      j := GroupHoldsLatest(history, cut, last, b);
      GroupStep(history, cut, last, b, Group(rows, b), j);
      assert Group(rows, b) + [] == Group(rows, b);
      hide GroupFits, Group, BucketOf, CountsFit;
      if BucketOf(row.ts) == b {
        j := last;
      }
    }
  }

  lemma MergedHoldsLatest(table: map<int, Bucket>, history: seq<Snapshot>, cut: nat, cut': nat, b: int)
    requires Ascending(history) && cut <= cut' <= |history| && CountsFit(history)
    requires forall b :: b in table ==> HoldsLatest(history, cut, b, table[b])
    requires b in Merged(table, Derive(history)[cut..cut'])
    ensures HoldsLatest(history, cut', b, Merged(table, Derive(history)[cut..cut'])[b])
  {
    var rows := Derive(history)[cut..cut'];
    var j := GroupHoldsLatest(history, cut, cut', b);
    if Group(rows, b) != [] {
      assert rows[j - cut] in rows && BucketOf(rows[j - cut].ts) == b;
    } else {
      var j: nat :| LatestIn(history, cut, b, j) && Holds(history, j, table[b]);
      assert LatestIn(history, cut', b, j);
    }
  }

  /** The step may happen: snapshots arrive in time order, and no rollup empties the derived rows. */
  predicate Allowed(t: Tables, history: seq<Snapshot>, step: Step) {
    match step
    case Record(snap) => forall k :: 0 <= k < |history| ==> history[k].ts < snap.ts
    case Update => true
    case RollUp(rawCutoff, _) =>
      var derived := Updated(t.derived, t.raw);
      derived != [] ==> RowsFrom(derived, rawCutoff) != []
  }

  function Extended(history: seq<Snapshot>, step: Step): seq<Snapshot> {
    if step.Record? then history + [step.snap] else history
  }

  lemma RecordKeepsInv(t: Tables, history: seq<Snapshot>, cut: nat, n: nat, snap: Snapshot)
    requires Inv(t, history, cut, n) && Allowed(t, history, Record(snap))
    ensures Inv(After(t, Record(snap)), history + [snap], cut, n)
  {
    var longer := history + [snap];
    assert longer[..n] == history[..n] && longer[cut..] == history[cut..] + [snap];
    forall b | b in t.rolled ensures HoldsLatest(longer, cut, b, t.rolled[b]) {
      var j: nat :| LatestIn(history, cut, b, j) && Holds(history, j, t.rolled[b]);
      assert longer[..|history|] == history;
      RowAtPrefix(longer, |history|, j);
      assert LatestIn(longer, cut, b, j);
    }
  }

  lemma RowsOfHistory(history: seq<Snapshot>, cut: nat, cut': nat, cutoff: int)
    requires cut <= cut' <= |history|
    requires forall k :: cut <= k < cut' ==> history[k].ts < cutoff
    requires forall k :: cut' <= k < |history| ==> history[k].ts >= cutoff
    ensures OlderThan(Derive(history)[cut..], cutoff) == Derive(history)[cut..cut']
    ensures RowsFrom(Derive(history)[cut..], cutoff) == Derive(history)[cut'..]
  {
    hide Accumulated, OlderThan, RowsFrom;
    OlderIsPrefix(Derive(history)[cut..], cut' - cut, cutoff);
    NewerIsRest(Derive(history)[cut..], cut' - cut, cutoff);
  }

  lemma SnapsOfHistory(history: seq<Snapshot>, cut: nat, cut': nat, cutoff: int)
    requires cut <= cut' <= |history|
    requires forall k :: cut <= k < cut' ==> history[k].ts < cutoff
    requires forall k :: cut' <= k < |history| ==> history[k].ts >= cutoff
    ensures SnapsFrom(history[cut..], cutoff) == history[cut'..]
  {
    hide SnapsFrom;
    SnapsSplit(history[cut..], cut' - cut, cutoff);
  }

  /** What a rollup leaves of the tables of a history. */
  lemma RollUpOfHistory(t: Tables, history: seq<Snapshot>, cut: nat, n: nat, rawCutoff: int) returns (cut': nat)
    requires Inv(t, history, cut, n)
    ensures cut <= cut' <= |history|
    ensures var derived := Updated(t.derived, t.raw);
            derived == Derive(history)[cut..]
            && OlderThan(derived, rawCutoff) == Derive(history)[cut..cut']
            && RowsFrom(derived, rawCutoff) == Derive(history)[cut'..]
            && SnapsFrom(t.raw, rawCutoff) == history[cut'..]
  {
    UpdateCatchesUp(history, cut, n);
    hide Updated, OlderThan, RowsFrom, SnapsFrom, Derive, HoldsLatest;
    cut' := CutPoint(history, cut, rawCutoff);
    RowsOfHistory(history, cut, cut', rawCutoff);
    SnapsOfHistory(history, cut, cut', rawCutoff);
  }

  lemma RollUpKeepsInv(t: Tables, history: seq<Snapshot>, cut: nat, n: nat, rawCutoff: int, overallCutoff: int)
    returns (cut': nat)
    requires Inv(t, history, cut, n) && Allowed(t, history, RollUp(rawCutoff, overallCutoff)) && CountsFit(history)
    ensures Inv(AfterRollUp(t, rawCutoff, overallCutoff), history, cut', |history|)
  {
    cut' := RollUpOfHistory(t, history, cut, n, rawCutoff);
    hide Updated, OlderThan, RowsFrom, SnapsFrom, CountsFit;
    assert history[..|history|] == history;
    forall b | b in Merged(t.rolled, Derive(history)[cut..cut'])
      ensures HoldsLatest(history, cut', b, Merged(t.rolled, Derive(history)[cut..cut'])[b])
    {
      MergedHoldsLatest(t.rolled, history, cut, cut', b);
    }
    hide Merged, HoldsLatest, Derive;
  }

  // ----- Runs -----

  function Run(steps: seq<Step>): Tables {
    if steps == [] then Tables([], [], map[]) else After(Run(steps[..|steps| - 1]), steps[|steps| - 1])
  }

  function History(steps: seq<Step>): seq<Snapshot> {
    if steps == [] then [] else Extended(History(steps[..|steps| - 1]), steps[|steps| - 1])
  }

  /** Every step of the run was allowed when it happened. */
  predicate Proper(steps: seq<Step>) {
    steps == [] ||
    (Proper(steps[..|steps| - 1])
     && Allowed(Run(steps[..|steps| - 1]), History(steps[..|steps| - 1]), steps[|steps| - 1]))
  }

  lemma CountsOfPrefix(history: seq<Snapshot>, snap: Snapshot)
    requires CountsFit(history + [snap])
    ensures CountsFit(history)
  {
    var longer := history + [snap];
    if history != [] {
      var n := |history|;
      GainsOfPrefix(Rx(longer), n, n - 1);
      GainsOfPrefix(Tx(longer), n, n - 1);
      assert Rx(longer)[..n] == Rx(history) && Tx(longer)[..n] == Tx(history);
      GainsSplit(Rx(longer), 0, n - 1, n);
      GainsSplit(Tx(longer), 0, n - 1, n);
    }
  }

  lemma {:induction false} GainsOfPrefix(counters: seq<nat>, n: nat, j: nat)
    requires j < n <= |counters|
    ensures Gains(counters[..n], 0, j) == Gains(counters, 0, j)
  {
    if j > 0 {
      GainsOfPrefix(counters, n, j - 1);
    }
  }

  /** Whatever the cutoffs, inside buckets or not, every five-minute row holds the latest
      accumulated counters of everything ever rolled into its bucket. */
  lemma {:induction false} RunKeepsInv(steps: seq<Step>) returns (cut: nat, n: nat)
    requires Proper(steps) && CountsFit(History(steps))
    ensures Inv(Run(steps), History(steps), cut, n)
  {
    if steps == [] {
      cut, n := 0, 0;
    } else {
      var earlier, step := steps[..|steps| - 1], steps[|steps| - 1];
      var t, history := Run(earlier), History(earlier);
      if step.Record? {
        CountsOfPrefix(history, step.snap);
      }
      hide CountsFit, Proper;
      assert Allowed(t, history, step) by { ProperStep(steps); }
      cut, n := RunKeepsInv(earlier);
      match step {
        case Record(snap) =>
          RecordKeepsInv(t, history, cut, n, snap);
        case Update =>
          UpdateKeepsInv(t, history, cut, n);
          n := |history|;
        case RollUp(rawCutoff, overallCutoff) =>
          cut := RollUpKeepsInv(t, history, cut, n, rawCutoff, overallCutoff);
          n := |history|;
      }
    }
  }

  lemma ProperStep(steps: seq<Step>)
    requires Proper(steps) && steps != []
    ensures Proper(steps[..|steps| - 1])
    ensures Allowed(Run(steps[..|steps| - 1]), History(steps[..|steps| - 1]), steps[|steps| - 1])
  {
  }

  lemma UpdateKeepsInv(t: Tables, history: seq<Snapshot>, cut: nat, n: nat)
    requires Inv(t, history, cut, n)
    ensures Inv(After(t, Update), history, cut, |history|)
  {
    UpdateCatchesUp(history, cut, n);
    assert history[..|history|] == history;
    hide Updated, Derive, HoldsLatest;
  }

  // ----- Nothing is lost -----

  /** Some rollup of the run pruned the five-minute rows up to bucket b. */
  predicate Pruned(steps: seq<Step>, b: int) {
    exists i :: 0 <= i < |steps| && steps[i].RollUp? && b < steps[i].overallCutoff
  }

  predicate KeptAt(table: map<int, Bucket>, steps: seq<Step>, b: int) {
    b in table || Pruned(steps, b)
  }

  /** The first `cut` snapshots all show in a five-minute row that no rollup pruned. */
  ghost predicate Kept(t: Tables, history: seq<Snapshot>, cut: nat, steps: seq<Step>)
    requires cut <= |history|
  {
    forall k :: 0 <= k < cut ==> KeptAt(t.rolled, steps, BucketOf(history[k].ts))
  }

  lemma {:induction false} InGroup(rows: seq<Row>, k: nat)
    requires k < |rows|
    ensures Group(rows, BucketOf(rows[k].ts)) != []
  {
    if k < |rows| - 1 {
      InGroup(rows[..|rows| - 1], k);
    }
  }

  lemma PrunedStays(earlier: seq<Step>, step: Step, b: int)
    requires Pruned(earlier, b)
    ensures Pruned(earlier + [step], b)
  {
    var i :| 0 <= i < |earlier| && earlier[i].RollUp? && b < earlier[i].overallCutoff;
    assert (earlier + [step])[i] == earlier[i];
  }

  lemma PruningIsSeen(earlier: seq<Step>, step: Step, b: int)
    requires step.RollUp? && b < step.overallCutoff
    ensures Pruned(earlier + [step], b)
  {
    assert (earlier + [step])[|earlier|] == step;
  }

  lemma MergedHas(table: map<int, Bucket>, rows: seq<Row>, k: nat)
    requires k < |rows|
    ensures BucketOf(rows[k].ts) in Merged(table, rows)
  {
    InGroup(rows, k);
    assert rows[k] in rows;
    hide BucketOf, Group;
  }

  lemma MergedKeeps(table: map<int, Bucket>, rows: seq<Row>, b: int)
    requires b in table
    ensures b in Merged(table, rows)
  {
  }

  lemma RollUpKeepsOne(t: Tables, earlier: seq<Step>, step: Step, b: int)
    requires step.RollUp?
    requires b in Merged(t.rolled, OlderThan(Updated(t.derived, t.raw), step.rawCutoff)) || Pruned(earlier, b)
    ensures KeptAt(After(t, step).rolled, earlier + [step], b)
  {
    hide Merged, OlderThan, Updated, RowsFrom, SnapsFrom;
    if Pruned(earlier, b) {
      PrunedStays(earlier, step, b);
    } else if b < step.overallCutoff {
      PruningIsSeen(earlier, step, b);
    }
  }

  lemma RollUpKeepsSnapshot(t: Tables, history: seq<Snapshot>, cut: nat, earlier: seq<Step>, step: Step, cut': nat,
                            k: nat)
    requires step.RollUp? && cut <= cut' <= |history| && k < cut'
    requires OlderThan(Updated(t.derived, t.raw), step.rawCutoff) == Derive(history)[cut..cut']
    requires k < cut ==> KeptAt(t.rolled, earlier, BucketOf(history[k].ts))
    ensures KeptAt(After(t, step).rolled, earlier + [step], BucketOf(history[k].ts))
  {
    hide After, BucketOf, Pruned, Updated, OlderThan, RowAt, Merged;
    var rows := Derive(history)[cut..cut'];
    if BucketOf(history[k].ts) in t.rolled {
      MergedKeeps(t.rolled, rows, BucketOf(history[k].ts));
    }
    if k >= cut {
      assert rows[k - cut] == RowAt(history, k);
      assert rows[k - cut].ts == history[k].ts by {
        DerivedTime(history, k);
      }
      MergedHas(t.rolled, rows, k - cut);
    }
    RollUpKeepsOne(t, earlier, step, BucketOf(history[k].ts));
  }

  lemma DerivedTime(history: seq<Snapshot>, k: nat)
    requires k < |history|
    ensures RowAt(history, k).ts == history[k].ts
  {
  }

  lemma RollUpKeeps(t: Tables, history: seq<Snapshot>, cut: nat, earlier: seq<Step>, step: Step, cut': nat)
    requires step.RollUp? && cut <= cut' <= |history|
    requires OlderThan(Updated(t.derived, t.raw), step.rawCutoff) == Derive(history)[cut..cut']
    requires Kept(t, history, cut, earlier)
    ensures Kept(After(t, step), history, cut', earlier + [step])
  {
    hide After, BucketOf, KeptAt, Updated, OlderThan, Derive;
    forall k | 0 <= k < cut' ensures KeptAt(After(t, step).rolled, earlier + [step], BucketOf(history[k].ts)) {
      RollUpKeepsSnapshot(t, history, cut, earlier, step, cut', k);
    }
  }

  lemma OtherStepKeeps(t: Tables, history: seq<Snapshot>, cut: nat, earlier: seq<Step>, step: Step)
    requires !step.RollUp? && cut <= |history| && Kept(t, history, cut, earlier)
    ensures Kept(After(t, step), Extended(history, step), cut, earlier + [step])
  {
    hide Updated, Pruned, BucketOf;
    forall k | 0 <= k < cut ensures KeptAt(t.rolled, earlier + [step], BucketOf(history[k].ts)) {
      assert KeptAt(t.rolled, earlier, BucketOf(history[k].ts));
      if Pruned(earlier, BucketOf(history[k].ts)) {
        PrunedStays(earlier, step, BucketOf(history[k].ts));
      }
    }
  }

  lemma SameCut<T>(s: seq<T>, a: nat, b: nat)
    requires a <= |s| && b <= |s| && s[a..] == s[b..]
    ensures a == b
  {
    assert |s[a..]| == |s| - a && |s[b..]| == |s| - b;
  }

  /** Over any run, every snapshot is still in the raw table, shows in the five-minute row of its
      bucket, or lies before the cutoff of a rollup that pruned that row. */
  lemma {:induction false} NothingIsLost(steps: seq<Step>) returns (cut: nat)
    requires Proper(steps) && CountsFit(History(steps))
    ensures cut <= |History(steps)| && Run(steps).raw == History(steps)[cut..]
    ensures Kept(Run(steps), History(steps), cut, steps)
  {
    if steps == [] {
      cut := 0;
    } else {
      var earlier, step := steps[..|steps| - 1], steps[|steps| - 1];
      RunUnfolds(steps);
      ProperStep(steps);
      assert steps == earlier + [step];
      hide *;
      var n;
      cut, n := RunKeepsInv(earlier);
      var cut1 := NothingIsLost(earlier);
      InvIsCut(Run(earlier), History(earlier), cut, n);
      SameCut(History(earlier), cut, cut1);
      cut := StepKeeps(Run(earlier), History(earlier), cut, n, earlier, step);
    }
  }

  lemma RunUnfolds(steps: seq<Step>)
    requires steps != []
    ensures var earlier, step := steps[..|steps| - 1], steps[|steps| - 1];
            && Run(steps) == After(Run(earlier), step) && History(steps) == Extended(History(earlier), step)
            && (CountsFit(History(steps)) ==> CountsFit(History(earlier)))
  {
    var earlier, step := steps[..|steps| - 1], steps[|steps| - 1];
    if step.Record? && CountsFit(History(steps)) {
      assert History(steps) == History(earlier) + [step.snap];
      hide *;
      CountsOfPrefix(History(earlier), step.snap);
    }
    hide After, CountsFit;
  }

  lemma InvIsCut(t: Tables, history: seq<Snapshot>, cut: nat, n: nat)
    requires Inv(t, history, cut, n)
    ensures cut <= |history| && t.raw == history[cut..]
  {
    hide HoldsLatest, Derive;
  }

  lemma StepKeeps(t: Tables, history: seq<Snapshot>, cut: nat, n: nat, earlier: seq<Step>, step: Step)
    returns (cut': nat)
    requires Inv(t, history, cut, n) && cut <= |history| && Kept(t, history, cut, earlier)
    ensures cut' <= |Extended(history, step)| && After(t, step).raw == Extended(history, step)[cut'..]
    ensures Kept(After(t, step), Extended(history, step), cut', earlier + [step])
  {
    hide Kept, Updated, Merged, OlderThan, RowsFrom, SnapsFrom, Derive;
    if step.RollUp? {
      cut' := RollUpOfHistory(t, history, cut, n, step.rawCutoff);
      RollUpKeeps(t, history, cut, earlier, step, cut');
    } else {
      cut' := cut;
      OtherStepKeeps(t, history, cut, earlier, step);
    }
  }

  // ----- What a five-minute row says about its rows -----

  function Total(xs: seq<real>): real {
    if xs == [] then 0.0 else xs[0] + Total(xs[1..])
  }

  function RxRates(rows: seq<Row>): (r: seq<real>)
    ensures |r| == |rows| && forall i :: 0 <= i < |r| ==> r[i] == rows[i].rxRate
  {
    seq(|rows|, i requires 0 <= i < |rows| => rows[i].rxRate)
  }

  function TxRates(rows: seq<Row>): (r: seq<real>)
    ensures |r| == |rows| && forall i :: 0 <= i < |r| ==> r[i] == rows[i].txRate
  {
    seq(|rows|, i requires 0 <= i < |rows| => rows[i].txRate)
  }

  lemma {:induction false} TotalLast(xs: seq<real>, x: real)
    ensures Total(xs + [x]) == Total(xs) + x
  {
    if xs == [] {
      assert [] + [x] == [x] && [x][1..] == [];
    } else {
      assert (xs + [x])[1..] == xs[1..] + [x];
      TotalLast(xs[1..], x);
    }
  }

  lemma {:induction false} SumsAreTotals(rows: seq<Row>)
    ensures SumRx(rows) == Total(RxRates(rows)) && SumTx(rows) == Total(TxRates(rows))
  {
    if rows != [] {
      var earlier, last := rows[..|rows| - 1], rows[|rows| - 1];
      SumsAreTotals(earlier);
      TotalLast(RxRates(earlier), last.rxRate);
      TotalLast(TxRates(earlier), last.txRate);
      assert RxRates(rows) == RxRates(earlier) + [last.rxRate] && TxRates(rows) == TxRates(earlier) + [last.txRate];
    }
  }

  /** x is the largest of the values. */
  predicate IsMax(xs: seq<nat>, x: nat) {
    x in xs && forall y :: y in xs ==> y <= x
  }

  function RawRxs(rows: seq<Row>): (r: seq<nat>)
    ensures |r| == |rows| && forall i :: 0 <= i < |r| ==> r[i] == rows[i].rawRx
  {
    seq(|rows|, i requires 0 <= i < |rows| => rows[i].rawRx)
  }

  function RawTxs(rows: seq<Row>): (r: seq<nat>)
    ensures |r| == |rows| && forall i :: 0 <= i < |r| ==> r[i] == rows[i].rawTx
  {
    seq(|rows|, i requires 0 <= i < |rows| => rows[i].rawTx)
  }

  function AccumRxs(rows: seq<Row>): (r: seq<nat>)
    ensures |r| == |rows| && forall i :: 0 <= i < |r| ==> r[i] == rows[i].accumRx
  {
    seq(|rows|, i requires 0 <= i < |rows| => rows[i].accumRx)
  }

  function AccumTxs(rows: seq<Row>): (r: seq<nat>)
    ensures |r| == |rows| && forall i :: 0 <= i < |r| ==> r[i] == rows[i].accumTx
  {
    seq(|rows|, i requires 0 <= i < |rows| => rows[i].accumTx)
  }

  lemma MaxGrows(xs: seq<nat>, x: nat, longer: seq<nat>, y: nat)
    requires xs == [] || IsMax(xs, x)
    requires longer == xs + [y]
    ensures IsMax(longer, if xs == [] then y else Max(x, y))
  {
  }

  lemma {:induction false} MaximaAre(rows: seq<Row>)
    requires rows != []
    ensures var b := Maxima(rows);
            && IsMax(RawRxs(rows), b.rawRx) && IsMax(RawTxs(rows), b.rawTx)
            && IsMax(AccumRxs(rows), b.accumRx) && IsMax(AccumTxs(rows), b.accumTx)
            && (b.reset <==> exists r :: r in rows && r.reset)
  {
    var earlier, last := rows[..|rows| - 1], rows[|rows| - 1];
    var b := if earlier == [] then Maxima(rows) else Maxima(earlier);
    if earlier != [] {
      MaximaAre(earlier);
    }
    AnyLast(earlier, rows, last);
    hide IsMax;
    MaxGrows(RawRxs(earlier), b.rawRx, RawRxs(rows), last.rawRx);
    MaxGrows(RawTxs(earlier), b.rawTx, RawTxs(rows), last.rawTx);
    MaxGrows(AccumRxs(earlier), b.accumRx, AccumRxs(rows), last.accumRx);
    MaxGrows(AccumTxs(earlier), b.accumTx, AccumTxs(rows), last.accumTx);
  }

  lemma AnyLast(earlier: seq<Row>, rows: seq<Row>, last: Row)
    requires rows == earlier + [last]
    ensures (exists r :: r in rows && r.reset) <==> (exists r :: r in earlier && r.reset) || last.reset
  {
  }

  /** The rows of a bucket are those whose time falls into it, as often as they are there. */
  lemma {:induction false} GroupIs(rows: seq<Row>, b: int, r: Row)
    ensures multiset(Group(rows, b))[r] == if BucketOf(r.ts) == b then multiset(rows)[r] else 0
  {
    hide BucketOf;
    if rows != [] {
      var earlier, last := rows[..|rows| - 1], rows[|rows| - 1];
      GroupIs(earlier, b, r);
      assert rows == earlier + [last];
    }
  }

  /** The row holds the largest counters, the average rates and any reset of the rows. */
  ghost predicate IsSummary(row: Bucket, g: seq<Row>) {
    && row.rxRate * (|g| as real) == Total(RxRates(g)) && row.txRate * (|g| as real) == Total(TxRates(g))
    && IsMax(RawRxs(g), row.rawRx) && IsMax(RawTxs(g), row.rawTx)
    && IsMax(AccumRxs(g), row.accumRx) && IsMax(AccumTxs(g), row.accumTx)
    && (row.reset <==> exists r :: r in g && r.reset)
  }

  lemma SummaryIs(g: seq<Row>)
    requires g != []
    ensures IsSummary(Summarize(g), g)
  {
    MaximaAre(g);
    SumsAreTotals(g);
    TimesCount(SumRx(g), |g|);
    TimesCount(SumTx(g), |g|);
    hide IsMax, Maxima, SumRx, SumTx, Total, RawRxs, RawTxs, AccumRxs, AccumTxs, RxRates, TxRates;
  }

  /** After a rollup, the five-minute row of a bucket sums up the rows rolled into it together; without
      such rows it stays. */
  lemma BucketSummary(table: map<int, Bucket>, rows: seq<Row>, b: int)
    ensures Group(rows, b) == [] ==>
      (b in Merged(table, rows) <==> b in table) && (b in table ==> Merged(table, rows)[b] == table[b])
    ensures Group(rows, b) != [] ==>
      b in Merged(table, rows) && IsSummary(Merged(table, rows)[b], Group(rows, b))
  {
    var g := Group(rows, b);
    if g != [] {
      GroupIs(rows, b, g[0]);
      assert g[0] in multiset(g) && g[0] in multiset(rows) && g[0] in rows;
      SummaryIs(g);
    }
    hide IsSummary, Group, Summarize, BucketOf;
  }

  lemma TimesCount(x: real, n: nat)
    requires n > 0
    ensures x / (n as real) * (n as real) == x
  {
  }

  // ----- What a rollup removes -----

  /** The bucket of a time is the five minutes around it that start at a multiple of 300 seconds. */
  lemma BucketIs(ts: int)
    requires ts >= 0
    ensures BucketOf(ts) <= ts < BucketOf(ts) + 300 && BucketOf(ts) % 300 == 0
  {
  }

  lemma {:induction false} RowsFromIs(rows: seq<Row>, cutoff: int)
    ensures forall r :: r in RowsFrom(rows, cutoff) <==> r in rows && r.ts >= cutoff
  {
    if rows != [] {
      RowsFromIs(rows[1..], cutoff);
      assert rows == [rows[0]] + rows[1..];
    }
  }

  lemma {:induction false} SnapsFromIs(snaps: seq<Snapshot>, cutoff: int)
    ensures forall s :: s in SnapsFrom(snaps, cutoff) <==> s in snaps && s.ts >= cutoff
  {
    if snaps != [] {
      SnapsFromIs(snaps[1..], cutoff);
      assert snaps == [snaps[0]] + snaps[1..];
    }
  }

  lemma {:induction false} OlderThanIs(rows: seq<Row>, cutoff: int)
    ensures forall r :: r in OlderThan(rows, cutoff) <==> r in rows && r.ts < cutoff
  {
    if rows != [] {
      OlderThanIs(rows[1..], cutoff);
      assert rows == [rows[0]] + rows[1..];
    }
  }

  lemma MergedIs(table: map<int, Bucket>, rows: seq<Row>, b: int)
    ensures b in Merged(table, rows) <==> b in table || exists r :: r in rows && BucketOf(r.ts) == b
  {
    hide BucketOf;
    if r :| r in rows && BucketOf(r.ts) == b {
      var k :| 0 <= k < |rows| && rows[k] == r;
      InGroup(rows, k);
    }
  }

  /** Some derived row of the bucket is older than the cutoff. */
  ghost predicate HasOlder(rows: seq<Row>, cutoff: int, b: int) {
    exists r :: r in rows && r.ts < cutoff && BucketOf(r.ts) == b
  }

  /** A rollup keeps exactly the raw snapshots and derived rows from the raw cutoff on, and exactly the
      five-minute rows from the overall cutoff on, of those that were there or that it has added. */
  lemma RollUpPrunes(t: Tables, rawCutoff: int, overallCutoff: int)
    ensures var r, derived := AfterRollUp(t, rawCutoff, overallCutoff), Updated(t.derived, t.raw);
            && (forall s :: s in r.raw <==> s in t.raw && s.ts >= rawCutoff)
            && (forall row :: row in r.derived <==> row in derived && row.ts >= rawCutoff)
            && (forall b :: b in r.rolled <==> b >= overallCutoff && (b in t.rolled || HasOlder(derived, rawCutoff, b)))
  {
    var derived := Updated(t.derived, t.raw);
    SnapsFromIs(t.raw, rawCutoff);
    RowsFromIs(derived, rawCutoff);
    OlderThanIs(derived, rawCutoff);
    var older := OlderThan(derived, rawCutoff);
    hide Updated, SnapsFrom, RowsFrom, OlderThan, BucketOf, Merged;
    forall b ensures b in Merged(t.rolled, older) <==> b in t.rolled || HasOlder(derived, rawCutoff, b) {
      MergedIs(t.rolled, older, b);
    }
  }

  /** The step rolls a snapshot that is still raw into bucket b. */
  ghost predicate RollsInto(raw: seq<Snapshot>, step: Step, b: int) {
    step.RollUp? && exists s :: s in raw && s.ts < step.rawCutoff && BucketOf(s.ts) == b
  }

  /** Some step rolled a snapshot into bucket b, and since then, itself included, none pruned it. */
  ghost predicate RolledInto(steps: seq<Step>, b: int) {
    exists i :: 0 <= i < |steps| && RollsInto(Run(steps[..i]).raw, steps[i], b) && NonePrunes(steps, i, b)
  }

  predicate NonePrunes(steps: seq<Step>, i: nat, b: int) {
    forall j :: i <= j < |steps| && steps[j].RollUp? ==> b >= steps[j].overallCutoff
  }

  /** Under the invariant, the derived rows older than a cutoff are those of the raw snapshots. */
  lemma OlderIsRaw(t: Tables, history: seq<Snapshot>, cut: nat, n: nat, cutoff: int, b: int)
    requires Inv(t, history, cut, n)
    ensures HasOlder(Updated(t.derived, t.raw), cutoff, b) <==> RollsInto(t.raw, RollUp(cutoff, 0), b)
  {
    UpdateCatchesUp(history, cut, n);
    SuffixTimes(history, cut);
    InvIsCut(t, history, cut, n);
    hide *;
    OlderAtSameTimes(Derive(history)[cut..], t.raw, cutoff, b);
  }

  lemma SuffixTimes(history: seq<Snapshot>, cut: nat)
    requires cut <= |history|
    ensures |Derive(history)[cut..]| == |history[cut..]|
    ensures forall k :: 0 <= k < |history[cut..]| ==> Derive(history)[cut..][k].ts == history[cut..][k].ts
  {
    hide Accumulated;
  }

  lemma OlderAtSameTimes(rows: seq<Row>, raw: seq<Snapshot>, cutoff: int, b: int)
    requires |rows| == |raw| && forall k :: 0 <= k < |raw| ==> rows[k].ts == raw[k].ts
    ensures HasOlder(rows, cutoff, b) <==> RollsInto(raw, RollUp(cutoff, 0), b)
  {
    hide BucketOf;
    if HasOlder(rows, cutoff, b) {
      var r :| r in rows && r.ts < cutoff && BucketOf(r.ts) == b;
      var k :| 0 <= k < |rows| && rows[k] == r;
      assert raw[k] in raw;
    }
    if RollsInto(raw, RollUp(cutoff, 0), b) {
      var s :| s in raw && s.ts < cutoff && BucketOf(s.ts) == b;
      var k :| 0 <= k < |raw| && raw[k] == s;
      assert rows[k] in rows;
    }
  }

  lemma PrefixesStay(earlier: seq<Step>, step: Step, i: nat)
    requires i <= |earlier|
    ensures (earlier + [step])[..i] == earlier[..i]
    ensures (earlier + [step])[i] == if i < |earlier| then earlier[i] else step
  {
  }

  lemma RolledIntoLast(earlier: seq<Step>, step: Step, b: int)
    ensures RolledInto(earlier + [step], b) <==>
            (RolledInto(earlier, b) || RollsInto(Run(earlier).raw, step, b))
            && (step.RollUp? ==> b >= step.overallCutoff)
  {
    if RolledInto(earlier + [step], b) {
      LastOfLonger(earlier, step, b);
    }
    if step.RollUp? ==> b >= step.overallCutoff {
      LongerOfLast(earlier, step, b);
    }
    hide RolledInto, RollsInto, Run;
  }

  lemma LastOfLonger(earlier: seq<Step>, step: Step, b: int)
    requires RolledInto(earlier + [step], b)
    ensures RolledInto(earlier, b) || RollsInto(Run(earlier).raw, step, b)
    ensures step.RollUp? ==> b >= step.overallCutoff
  {
    hide Run, RollsInto;
    var steps := earlier + [step];
    var i :| 0 <= i < |steps| && RollsInto(Run(steps[..i]).raw, steps[i], b) && NonePrunes(steps, i, b);
    PrefixesStay(earlier, step, i);
    assert steps[|earlier|] == step;
    assert earlier[..|earlier|] == earlier;
    if i < |earlier| {
      assert forall j :: i <= j < |earlier| ==> earlier[j] == steps[j];
      assert NonePrunes(earlier, i, b);
    }
  }

  lemma LongerOfLast(earlier: seq<Step>, step: Step, b: int)
    requires step.RollUp? ==> b >= step.overallCutoff
    ensures RolledInto(earlier, b) || RollsInto(Run(earlier).raw, step, b) ==> RolledInto(earlier + [step], b)
  {
    hide Run, RollsInto;
    var steps := earlier + [step];
    if RolledInto(earlier, b) {
      var i :| 0 <= i < |earlier| && RollsInto(Run(earlier[..i]).raw, earlier[i], b) && NonePrunes(earlier, i, b);
      PrefixesStay(earlier, step, i);
      assert NonePrunes(steps, i, b);
    } else if RollsInto(Run(earlier).raw, step, b) {
      PrefixesStay(earlier, step, |earlier|);
      assert earlier[..|earlier|] == earlier;
      assert NonePrunes(steps, |earlier|, b);
    }
  }

  /** Over any run, there is a five-minute row exactly for the buckets into which a rollup put a
      snapshot and that neither this rollup nor a later one pruned. */
  lemma {:induction false} RolledExactly(steps: seq<Step>, b: int)
    requires Proper(steps) && CountsFit(History(steps))
    ensures b in Run(steps).rolled <==> RolledInto(steps, b)
  {
    if steps != [] {
      var earlier, step := steps[..|steps| - 1], steps[|steps| - 1];
      RunUnfolds(steps);
      ProperStep(steps);
      assert steps == earlier + [step];
      hide *;
      RolledExactly(earlier, b);
      RolledIntoLast(earlier, step, b);
      var cut, n := RunKeepsInv(earlier);
      RolledByStep(Run(earlier), History(earlier), cut, n, step, b);
    }
  }

  lemma RolledByStep(t: Tables, history: seq<Snapshot>, cut: nat, n: nat, step: Step, b: int)
    requires Inv(t, history, cut, n)
    ensures b in After(t, step).rolled <==>
            (b in t.rolled || RollsInto(t.raw, step, b)) && (step.RollUp? ==> b >= step.overallCutoff)
  {
    hide Inv, Updated, AfterRollUp, HasOlder;
    if step.RollUp? {
      RollUpPrunes(t, step.rawCutoff, step.overallCutoff);
      OlderIsRaw(t, history, cut, n, step.rawCutoff, b);
    }
  }

  // ----- When a rollup empties the derived rows -----

  /** The next counter after the derived rows were emptied. */
  function RestartedRows(t: Tables, rawCutoff: int, overallCutoff: int, snap: Snapshot): seq<Row> {
    After(After(After(t, RollUp(rawCutoff, overallCutoff)), Record(snap)), Update).derived
  }

  lemma RestartedRow(t: Tables, history: seq<Snapshot>, cut: nat, n: nat, rawCutoff: int, overallCutoff: int, snap: Snapshot)
    requires Inv(t, history, cut, n) && RowsFrom(Updated(t.derived, t.raw), rawCutoff) == []
    ensures RestartedRows(t, rawCutoff, overallCutoff, snap) == [NextRow(None, snap)]
  {
    var cut' := RollUpOfHistory(t, history, cut, n, rawCutoff);
    hide Inv, Updated, Merged, RowsFrom, SnapsFrom, OlderThan, NextRow, RowAt;
    assert |Derive(history)[cut'..]| == |history| - cut';
    var t1 := After(t, RollUp(rawCutoff, overallCutoff));
    assert t1.raw == [] && t1.derived == [];
    UpdateFromNothing(snap);
    assert [] + [snap] == [snap];
  }

  lemma UpdateFromNothing(snap: Snapshot)
    ensures Updated([], [snap]) == [NextRow(None, snap)]
  {
    hide NextRow;
    assert Unprocessed([], [snap]) == [snap];
    assert Extend([], [snap]) == Extend([] + [NextRow(None, snap)], []);
  }

  lemma {:induction false} GainsReach(counters: seq<nat>, j: nat)
    requires j < |counters|
    ensures counters[0] + Gains(counters, 0, j) >= counters[j]
  {
    if j > 0 {
      GainsReach(counters, j - 1);
    }
  }

  lemma AtLeastRaw(counters: seq<nat>, j: nat)
    requires j < |counters| && Counted(counters) < U64_LIMIT
    ensures Accumulated(counters, j) >= counters[j]
  {
    GainsReach(counters, j);
    WindowTotal(counters, 0, j);
    hide Gains, Gain;
  }

  /** The reading continues the count exactly when no reset was ever counted before. */
  lemma RestartMatches(counters: seq<nat>, last: nat)
    requires last + 2 == |counters| && Counted(counters) < U64_LIMIT
    ensures counters[last + 1] == Accumulated(counters, last + 1) <==>
            counters[last + 1] >= counters[last] && Accumulated(counters, last) == counters[last]
  {
    WindowTotal(counters, last, last + 1);
    AtLeastRaw(counters, last);
    assert Gains(counters, last, last + 1) == Gain(counters[last], counters[last + 1]);
    hide Accumulated, Gains;
  }

  /** The new reading is the true count. */
  predicate ContinuesCount(before: seq<nat>, reading: nat)
    requires before != []
  {
    reading == Accumulated(before + [reading], |before|)
  }

  /** No reset was counted so far, and the new reading is none. */
  predicate NeverReset(before: seq<nat>, reading: nat)
    requires before != []
  {
    var last := |before| - 1;
    reading >= before[last] && Accumulated(before, last) == before[last]
  }

  lemma RestartedCount(before: seq<nat>, reading: nat)
    requires before != [] && Counted(before + [reading]) < U64_LIMIT
    ensures ContinuesCount(before, reading) <==> NeverReset(before, reading)
  {
    var all, last := before + [reading], |before| - 1;
    assert all[..|before|] == before && all[last] == before[last] && all[last + 1] == reading;
    hide Accumulated, Counted;
    RestartMatches(all, last);
    AccumulatedPrefix(all, |before|, last);
  }

  lemma CountersGrow(history: seq<Snapshot>, snap: Snapshot)
    ensures Rx(history + [snap]) == Rx(history) + [snap.rx] && Tx(history + [snap]) == Tx(history) + [snap.tx]
  {
  }

  /** After a rollup that empties the derived rows, the next row continues either count exactly when
      no reset was ever counted: the count still equals the reading, and the reading grew. */
  lemma EmptiedRowsRestart(t: Tables, history: seq<Snapshot>, cut: nat, n: nat,
                           rawCutoff: int, overallCutoff: int, snap: Snapshot)
    requires Inv(t, history, cut, n) && history != [] && CountsFit(history + [snap])
    requires RowsFrom(Updated(t.derived, t.raw), rawCutoff) == []
    ensures var rows := RestartedRows(t, rawCutoff, overallCutoff, snap);
            && |rows| == 1 && rows[0].accumRx == snap.rx && rows[0].accumTx == snap.tx
            && Rx(history) != [] && (ContinuesCount(Rx(history), snap.rx) <==> NeverReset(Rx(history), snap.rx))
            && Tx(history) != [] && (ContinuesCount(Tx(history), snap.tx) <==> NeverReset(Tx(history), snap.tx))
  {
    RestartedRow(t, history, cut, n, rawCutoff, overallCutoff, snap);
    assert NextRow(None, snap).accumRx == snap.rx && NextRow(None, snap).accumTx == snap.tx;
    CountersGrow(history, snap);
    assert |Rx(history)| == |Tx(history)| == |history|;
    assert Counted(Rx(history) + [snap.rx]) < U64_LIMIT && Counted(Tx(history) + [snap.tx]) < U64_LIMIT;
    hide *;
    RestartedCount(Rx(history), snap.rx);
    RestartedCount(Tx(history), snap.tx);
  }

  /** Rolling up all rows of readings 100 and 50 and then reading 60: the true count is 160. */
  lemma RestartExample()
    ensures var history := [Snapshot(300, 100, 0, 0.0, 0.0), Snapshot(310, 50, 0, 0.0, 0.0)];
            var snap := Snapshot(320, 60, 0, 0.0, 0.0);
            var t := Tables(history, [], map[]);
            Inv(t, history, 0, 0)
            && Accumulated(Rx(history + [snap]), 2) == 160
            && |RestartedRows(t, 315, 0, snap)| == 1 && RestartedRows(t, 315, 0, snap)[0].accumRx == 60
  {
    var s0, s1 := Snapshot(300, 100, 0, 0.0, 0.0), Snapshot(310, 50, 0, 0.0, 0.0);
    var history, snap := [s0, s1], Snapshot(320, 60, 0, 0.0, 0.0);
    var t := Tables(history, [], map[]);
    assert history[..0] == [] && Derive([])[0..] == [] && history[0..] == history;
    var rx := Rx(history + [snap]);
    assert Accumulated(rx, 0) == 100 && Accumulated(rx, 1) == 150 && Accumulated(rx, 2) == 160;
    assert RowsFrom(Updated([], history), 315) == [] by {
      var row0 := NextRow(None, s0);
      var row1 := NextRow(Some(row0), s1);
      assert history[1..] == [s1] && [s1][1..] == [];
      assert Extend([], history) == Extend([] + [row0], [s1]) == Extend([row0] + [row1], []);
      assert [row0] + [row1] == [row0, row1] && [row0, row1][1..] == [row1];
      assert RowsFrom([row1], 315) == [] + RowsFrom([row1][1..], 315);
    }
    RestartedRow(t, history, 0, 0, 315, 0, snap);
  }
}
