/** The derived traffic table of one node interface: counters accumulated over resets. */
module Traffic {
  import opened Wrappers

  const U64_LIMIT := 0x1_0000_0000_0000_0000

  datatype Snapshot = Snapshot(ts: int, rx: nat, tx: nat, rxRate: real, txRate: real)

  datatype Row = Row(
    ts: int, rawRx: nat, rawTx: nat, accumRx: nat, accumTx: nat, rxRate: real, txRate: real, reset: bool)

  // ----- One step of the accumulation -----

  /** What a counter gained between two readings; after a reset, the whole new reading. */
  function Gain(previous: nat, current: nat): nat {
    if current < previous then current else current - previous
  }

  /** Counters are unsigned 64-bit and wrap around. */
  function U64Add(a: nat, b: nat): nat {
    (a + b) % U64_LIMIT
  }

  function NextRow(previous: Option<Row>, snap: Snapshot): Row {
    match previous
    case None => Row(snap.ts, snap.rx, snap.tx, snap.rx, snap.tx, snap.rxRate, snap.txRate, false)
    case Some(p) =>
      Row(snap.ts, snap.rx, snap.tx,
          U64Add(p.accumRx, Gain(p.rawRx, snap.rx)), U64Add(p.accumTx, Gain(p.rawTx, snap.tx)),
          snap.rxRate, snap.txRate, snap.rx < p.rawRx || snap.tx < p.rawTx)
  }

  function LastRow(rows: seq<Row>): Option<Row> {
    if rows == [] then None else Some(rows[|rows| - 1])
  }

  function Extend(rows: seq<Row>, snaps: seq<Snapshot>): seq<Row>
    decreases |snaps|
  {
    if snaps == [] then rows else Extend(rows + [NextRow(LastRow(rows), snaps[0])], snaps[1..])
  }

  // ----- One pass over all snapshots -----

  function Rx(snaps: seq<Snapshot>): (r: seq<nat>)
    ensures |r| == |snaps| && forall i :: 0 <= i < |r| ==> r[i] == snaps[i].rx
  {
    seq(|snaps|, i requires 0 <= i < |snaps| => snaps[i].rx)
  }

  function Tx(snaps: seq<Snapshot>): (r: seq<nat>)
    ensures |r| == |snaps| && forall i :: 0 <= i < |r| ==> r[i] == snaps[i].tx
  {
    seq(|snaps|, i requires 0 <= i < |snaps| => snaps[i].tx)
  }

  function Accumulated(counters: seq<nat>, j: nat): nat
    requires j < |counters|
  {
    if j == 0 then counters[0] else U64Add(Accumulated(counters, j - 1), Gain(counters[j - 1], counters[j]))
  }

  function RowAt(snaps: seq<Snapshot>, j: nat): Row
    requires j < |snaps|
  {
    var s := snaps[j];
    Row(s.ts, s.rx, s.tx, Accumulated(Rx(snaps), j), Accumulated(Tx(snaps), j), s.rxRate, s.txRate,
        j > 0 && (s.rx < snaps[j - 1].rx || s.tx < snaps[j - 1].tx))
  }

  /** The derived table of a whole history, in one pass. */
  function Derive(snaps: seq<Snapshot>): (r: seq<Row>)
    ensures |r| == |snaps| && forall j :: 0 <= j < |r| ==> r[j] == RowAt(snaps, j)
  {
    seq(|snaps|, j requires 0 <= j < |snaps| => RowAt(snaps, j))
  }

  /** A derived row shows its snapshot, and a reset when a counter fell below the snapshot before. */
  lemma RowShows(snaps: seq<Snapshot>, j: nat)
    requires j < |snaps|
    ensures var r, s := Derive(snaps)[j], snaps[j];
            && r.ts == s.ts && r.rawRx == s.rx && r.rawTx == s.tx && r.rxRate == s.rxRate && r.txRate == s.txRate
            && (r.reset <==> j > 0 && (s.rx < snaps[j - 1].rx || s.tx < snaps[j - 1].tx))
  {
    hide Accumulated;
  }

  lemma {:induction false} AccumulatedPrefix(counters: seq<nat>, n: nat, j: nat)
    requires j < n <= |counters|
    ensures Accumulated(counters[..n], j) == Accumulated(counters, j)
  {
    if j > 0 {
      AccumulatedPrefix(counters, n, j - 1);
    }
  }

  lemma RowAtPrefix(snaps: seq<Snapshot>, n: nat, j: nat)
    requires j < n <= |snaps|
    ensures RowAt(snaps[..n], j) == RowAt(snaps, j)
  {
    assert Rx(snaps[..n]) == Rx(snaps)[..n] && Tx(snaps[..n]) == Tx(snaps)[..n];
    AccumulatedPrefix(Rx(snaps), n, j);
    AccumulatedPrefix(Tx(snaps), n, j);
  }

  /** The next row after a prefix of the history is the next row of the history. */
  lemma NextOfPrefix(snaps: seq<Snapshot>, cut: nat, n: nat)
    requires n < |snaps| && (cut < n || cut == n == 0)
    ensures NextRow(LastRow(Derive(snaps[..n])[cut..]), snaps[n]) == RowAt(snaps, n)
  {
    hide U64Add, Gain;
    if n > 0 {
      RowAtPrefix(snaps, n, n - 1);
      assert Derive(snaps[..n])[cut..][n - 1 - cut] == RowAt(snaps[..n], n - 1);
    }
  }

  lemma DerivePrefix(snaps: seq<Snapshot>, cut: nat, n: nat)
    requires cut <= n <= |snaps|
    ensures Derive(snaps[..n])[cut..] == Derive(snaps)[cut..n]
  {
    forall j | 0 <= j < n ensures RowAt(snaps[..n], j) == RowAt(snaps, j) {
      RowAtPrefix(snaps, n, j);
    }
  }

  /** Extending what one pass gives for a prefix gives what one pass gives for everything, also
      when the oldest rows are gone. */
  lemma {:induction false} ExtendIsDerive(snaps: seq<Snapshot>, cut: nat, n: nat)
    requires cut < n <= |snaps| || cut == n == 0
    ensures Extend(Derive(snaps[..n])[cut..], snaps[n..]) == Derive(snaps)[cut..]
    decreases |snaps| - n
  {
    DerivePrefix(snaps, cut, n);
    if n < |snaps| {
      NextOfPrefix(snaps, cut, n);
      DerivePrefix(snaps, cut, n + 1);
      hide RowAt;
      assert Derive(snaps)[cut..n] + [RowAt(snaps, n)] == Derive(snaps)[cut..n + 1];
      assert snaps[n..][0] == snaps[n] && snaps[n..][1..] == snaps[n + 1..];
      ExtendIsDerive(snaps, cut, n + 1);
    }
  }

  // ----- Updating from the raw table -----

  ghost predicate Ascending(snaps: seq<Snapshot>) {
    forall i, j :: 0 <= i < j < |snaps| ==> snaps[i].ts < snaps[j].ts
  }

  function NewerThan(snaps: seq<Snapshot>, ts: int): seq<Snapshot> {
    if snaps == [] then []
    else (if snaps[0].ts > ts then [snaps[0]] else []) + NewerThan(snaps[1..], ts)
  }

  lemma {:induction false} NewerIsSuffix(snaps: seq<Snapshot>, n: nat, ts: int)
    requires n <= |snaps|
    requires forall i :: 0 <= i < n ==> snaps[i].ts <= ts
    requires forall i :: n <= i < |snaps| ==> snaps[i].ts > ts
    ensures NewerThan(snaps, ts) == snaps[n..]
  {
    if snaps != [] {
      NewerIsSuffix(snaps[1..], if n == 0 then 0 else n - 1, ts);
    }
  }

  /** The snapshots an update still has to process. */
  function Unprocessed(rows: seq<Row>, raw: seq<Snapshot>): seq<Snapshot> {
    match LastRow(rows)
    case None => raw
    case Some(r) => NewerThan(raw, r.ts)
  }

  function Updated(rows: seq<Row>, raw: seq<Snapshot>): seq<Row> {
    Extend(rows, Unprocessed(rows, raw))
  }

  /** An update of a table that holds a prefix of the history, possibly without its oldest rows. */
  lemma UpdateCatchesUp(snaps: seq<Snapshot>, cut: nat, n: nat)
    requires Ascending(snaps) && (cut < n <= |snaps| || cut == n == 0)
    ensures Updated(Derive(snaps[..n])[cut..], snaps[cut..]) == Derive(snaps)[cut..]
  {
    ExtendIsDerive(snaps, cut, n);
    hide Extend;
    var rows := Derive(snaps[..n])[cut..];
    if n > 0 {
      assert rows[|rows| - 1] == RowAt(snaps[..n], n - 1);
      NewerIsSuffix(snaps[cut..], n - cut, snaps[n - 1].ts);
      assert snaps[cut..][n - cut..] == snaps[n..];
    }
  }

  /** The table after updates at the given history lengths. */
  function UpdatedAt(snaps: seq<Snapshot>, lengths: seq<nat>): seq<Row>
    requires forall i :: 0 <= i < |lengths| ==> lengths[i] <= |snaps|
  {
    if lengths == [] then []
    else Updated(UpdatedAt(snaps, lengths[..|lengths| - 1]), snaps[..lengths[|lengths| - 1]])
  }

  /** However the history is split into batches, the table is the one of a single pass. */
  lemma {:induction false} BatchesDoNotMatter(snaps: seq<Snapshot>, lengths: seq<nat>)
    requires Ascending(snaps)
    requires forall i :: 0 <= i < |lengths| ==> lengths[i] <= |snaps|
    requires forall i, j :: 0 <= i < j < |lengths| ==> lengths[i] <= lengths[j]
    ensures lengths != [] ==> UpdatedAt(snaps, lengths) == Derive(snaps[..lengths[|lengths| - 1]])
  {
    if lengths != [] {
      var earlier := lengths[..|lengths| - 1];
      var m := lengths[|lengths| - 1];
      BatchesDoNotMatter(snaps, earlier);
      var n := if earlier == [] then 0 else earlier[|earlier| - 1];
      assert snaps[..m][..n] == snaps[..n];
      assert UpdatedAt(snaps, earlier) == Derive(snaps[..n]);
      UpdateCatchesUp(snaps[..m], 0, n);
      assert Derive(snaps[..n])[0..] == Derive(snaps[..n]);
      assert Derive(snaps[..m])[0..] == Derive(snaps[..m]);
      assert snaps[..m][0..] == snaps[..m];
    }
  }

  // ----- Counters over time -----

  /** The sum of the gains of the steps first + 1 .. last. */
  function Gains(counters: seq<nat>, first: nat, last: nat): nat
    requires first <= last < |counters|
  {
    if first == last then 0 else Gains(counters, first, last - 1) + Gain(counters[last - 1], counters[last])
  }

  /** Everything ever counted, without wrap-around. */
  function Counted(counters: seq<nat>): nat {
    if counters == [] then 0 else counters[0] + Gains(counters, 0, |counters| - 1)
  }

  lemma WrapOnce(a: nat, b: nat)
    ensures (a % U64_LIMIT + b) % U64_LIMIT == (a + b) % U64_LIMIT
  {
    var q := a / U64_LIMIT;
    assert a + b == U64_LIMIT * q + (a % U64_LIMIT + b);
  }

  lemma {:induction false} AccumulatedIsCounted(counters: seq<nat>, j: nat)
    requires j < |counters| && counters[0] < U64_LIMIT
    ensures Accumulated(counters, j) == (counters[0] + Gains(counters, 0, j)) % 0x1_0000_0000_0000_0000
  {
    if j > 0 {
      AccumulatedIsCounted(counters, j - 1);
      WrapOnce(counters[0] + Gains(counters, 0, j - 1), Gain(counters[j - 1], counters[j]));
      hide Gain;
    }
  }

  lemma {:induction false} GainsSplit(counters: seq<nat>, i: nat, j: nat, k: nat)
    requires i <= j <= k < |counters|
    ensures Gains(counters, i, k) == Gains(counters, i, j) + Gains(counters, j, k)
  {
    if j < k {
      GainsSplit(counters, i, j, k - 1);
    }
  }

  ghost predicate NeverDecreases(counters: seq<nat>) {
    forall j :: 0 < j < |counters| ==> Accumulated(counters, j - 1) <= Accumulated(counters, j)
  }

  /** While less than 2^64 has been counted, a window's total is the sum of the gains inside it. */
  lemma WindowTotal(counters: seq<nat>, i: nat, j: nat)
    requires i <= j < |counters| && Counted(counters) < U64_LIMIT
    ensures Accumulated(counters, i) + Gains(counters, i, j) == Accumulated(counters, j)
  {
    GainsSplit(counters, 0, i, j);
    GainsSplit(counters, 0, j, |counters| - 1);
    AccumulatedIsCounted(counters, i);
    AccumulatedIsCounted(counters, j);
  }

  /** Across resets the accumulated counter never decreases, exactly while it never wraps around. */
  lemma {:induction false} MonotoneUntilWrap(counters: seq<nat>)
    requires forall c :: c in counters ==> c < U64_LIMIT
    ensures NeverDecreases(counters) <==> Counted(counters) < 0x1_0000_0000_0000_0000
  {
    if Counted(counters) < U64_LIMIT {
      forall j | 0 < j < |counters| ensures Accumulated(counters, j - 1) <= Accumulated(counters, j) {
        WindowTotal(counters, j - 1, j);
      }
    } else {
      var j := FirstWrap(counters);
      assert Accumulated(counters, j - 1) > Accumulated(counters, j);
    }
  }

  lemma FirstWrap(counters: seq<nat>) returns (j: nat)
    requires forall c :: c in counters ==> c < U64_LIMIT
    requires Counted(counters) >= U64_LIMIT
    ensures 0 < j < |counters| && Accumulated(counters, j - 1) > Accumulated(counters, j)
  {
    j := |counters| - 1;
    assert counters[0] in counters;
    assert Gains(counters, 0, 0) == 0;
    while counters[0] + Gains(counters, 0, j - 1) >= U64_LIMIT
      invariant 0 < j < |counters|
      invariant counters[0] + Gains(counters, 0, j) >= U64_LIMIT
      decreases j
    {
      j := j - 1;
    }
    AccumulatedIsCounted(counters, j - 1);
    AccumulatedIsCounted(counters, j);
    var before := counters[0] + Gains(counters, 0, j - 1);
    var gain := Gain(counters[j - 1], counters[j]);
    assert counters[j] in counters && gain < U64_LIMIT;
    assert (before + gain) % U64_LIMIT == before + gain - U64_LIMIT;
  }
}
