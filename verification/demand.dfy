/**
 * The demand model: how attractive a region is as a cruising destination.
 *  - static: a per-region frequency read at startup, 1 for an unknown region
 *    (the AM fleet manager also records the unknown region in absentRegions);
 *  - temporal: 1 plus a 0.8-decayed look-ahead over the next K prediction
 *    buckets of pickups minus Lambda times drop-offs, reset to 1 when
 *    negative or when either series is missing.
 * It also holds the pure per-row step of loading a prediction matrix.
 */
module Demand {
  import opened Basics
  import opened GlobalParameters
  import opened Ranking
  import RegionIndex

  /** Base of the look-ahead decay, `Math.pow(0.8, i - timeIndex)`. */
  const Decay: real := 0.8

  function Pow(b: real, n: nat): real {
    if n == 0 then 1.0 else b * Pow(b, n - 1)
  }

  lemma {:induction false} PowPositive(b: real, n: nat)
    requires b > 0.0
    ensures Pow(b, n) > 0.0
  {
    if n > 0 {
      PowPositive(b, n - 1);
    }
  }

  /** RandomDestinationFleetManager.getRegionWeight: the stored frequency, else 1. */
  function RegionWeight(frequency: map<Cell, real>, c: Cell): (w: real)
    ensures c in frequency ==> w == frequency[c]
    ensures c !in frequency ==> w == 1.0
  {
    GetOr(frequency, c, 1.0)
  }

  /**
   * AMFleetManager.getRegionWeight: the stored integer frequency, else 1
   * with the region recorded as absent. The absent set only grows.
   */
  function RegionWeightAM(frequency: map<Cell, int>, absent: set<Cell>, c: Cell): (r: (int, set<Cell>))
    ensures absent <= r.1
    ensures c in frequency ==> r.0 == frequency[c] && r.1 == absent
    ensures c !in frequency ==> r.0 == 1 && r.1 == absent + {c}
  {
    if c in frequency then (frequency[c], absent) else (1, absent + {c})
  }

  /**
   * The AM weight loop over the candidate regions: one weight per
   * candidate, in order, and every candidate without a stored frequency
   * added to the absent set.
   */
  function WeightsAM(frequency: map<Cell, int>, absent: set<Cell>, cands: seq<Cell>)
    : (r: (seq<Keyed<Cell>>, set<Cell>))
    ensures |r.0| == |cands|
    ensures forall i :: 0 <= i < |cands| ==>
      r.0[i].item == cands[i] && r.0[i].key == (if cands[i] in frequency then frequency[cands[i]] else 1) as real
    ensures r.1 == absent + (set c | c in cands && c !in frequency)
    decreases |cands|
  {
    if |cands| == 0 then ([], absent)
    else
      var (w, absent1) := RegionWeightAM(frequency, absent, cands[0]);
      var (rest, absent2) := WeightsAM(frequency, absent1, cands[1..]);
      assert forall c :: c in cands <==> c == cands[0] || c in cands[1..];
      ([Keyed(cands[0], w as real)] + rest, absent2)
  }

  /**
   * The first `n` buckets of the window from `idx` can be read: every
   * bucket i the loop reads (those with i < |pickups|) is a valid index of
   * both series. Otherwise the source's `get(i)` throws.
   */
  predicate Readable(pickups: seq<int>, dropoffs: seq<int>, idx: int, n: nat) {
    n == 0 || (Readable(pickups, dropoffs, idx, n - 1) && BucketReadable(pickups, dropoffs, idx + n - 1))
  }

  /** Bucket `i` is either skipped (past the pickups) or a valid index of both series. */
  predicate BucketReadable(pickups: seq<int>, dropoffs: seq<int>, i: int) {
    i < |pickups| ==> 0 <= i < |dropoffs|
  }

  /** Readability, bucket by bucket. */
  lemma {:induction false} ReadableIff(p: seq<int>, d: seq<int>, idx: int, n: nat)
    ensures Readable(p, d, idx, n) <==> forall i :: idx <= i < idx + n ==> BucketReadable(p, d, i)
  {
    if n > 0 {
      ReadableIff(p, d, idx, n - 1);
    }
  }

  /** A window that cannot be read cannot be read when it is longer either. */
  lemma {:induction false} UnreadableExtends(p: seq<int>, d: seq<int>, idx: int, n: nat, m: nat)
    requires n <= m
    requires !Readable(p, d, idx, n)
    ensures !Readable(p, d, idx, m)
    decreases m - n
  {
    if n < m {
      UnreadableExtends(p, d, idx, n + 1, m);
    }
  }

  /** Past the end of the pickup series nothing is read. */
  lemma {:induction false} ReadableBeyondSeries(p: seq<int>, d: seq<int>, idx: int, n: nat)
    requires |p| <= idx
    ensures Readable(p, d, idx, n)
  {
    if n > 0 {
      ReadableBeyondSeries(p, d, idx, n - 1);
    }
  }

  /**
   * Σ over the first `n` buckets from `idx` that exist in the pickup series
   * of 0.8^(i-idx) * (pickups[i] - Lambda * dropoffs[i]).
   */
  function Lookahead(pickups: seq<int>, dropoffs: seq<int>, idx: int, n: nat): real
    requires n <= K && Readable(pickups, dropoffs, idx, n)
  {
    if n == 0 then 0.0
    else
      var i := idx + n - 1;
      Lookahead(pickups, dropoffs, idx, n - 1)
        + (if i < |pickups| then Pow(Decay, n - 1) * (pickups[i] as real - Lambda * dropoffs[i] as real) else 0.0)
  }

  /**
   * getRegionWeightTemporal, stated as the decayed-sum formula; `None` when
   * the source throws because a bucket it reads is missing from a series.
   */
  function TemporalWeight(pickups: map<Cell, seq<int>>, dropoffs: map<Cell, seq<int>>, c: Cell, idx: int)
    : (w: Option<real>)
    ensures w.Some? ==> w.value >= 0.0
    ensures c !in pickups || c !in dropoffs ==> w == Some(1.0)
    ensures c in pickups && c in dropoffs ==> (w.Some? <==> Readable(pickups[c], dropoffs[c], idx, K))
    ensures c in pickups && c in dropoffs && Readable(pickups[c], dropoffs[c], idx, K) ==>
      var raw := 1.0 + Lookahead(pickups[c], dropoffs[c], idx, K);
      w == Some(if raw < 0.0 then 1.0 else raw)
  {
    if c !in pickups || c !in dropoffs then Some(1.0)
    else if !Readable(pickups[c], dropoffs[c], idx, K) then None
    else
      var raw := 1.0 + Lookahead(pickups[c], dropoffs[c], idx, K);
      Some(if raw < 0.0 then 1.0 else raw)
  }

  /**
   * The source's loop for getRegionWeightTemporal, bucket by bucket,
   * stopping with `None` at the first bucket it cannot read; it computes
   * exactly the decayed-sum formula.
   */
  method RegionWeightTemporal(pickups: map<Cell, seq<int>>, dropoffs: map<Cell, seq<int>>, c: Cell, idx: int)
    returns (w: Option<real>)
    ensures w == TemporalWeight(pickups, dropoffs, c, idx)
  {
    if c !in pickups || c !in dropoffs {
      return Some(1.0);
    }
    var p, d := pickups[c], dropoffs[c];
    var weight := 1.0;
    var i := idx;
    while i < idx + K
      invariant idx <= i <= idx + K
      invariant Readable(p, d, idx, i - idx)
      invariant weight == 1.0 + Lookahead(p, d, idx, i - idx)
    {
      if i < |p| {
        if i < 0 || i >= |d| {
          UnreadableExtends(p, d, idx, i - idx + 1, K);
          return None;
        }
        weight := weight + Pow(Decay, i - idx) * (p[i] as real - Lambda * d[i] as real);
      }
      LookaheadStep(p, d, idx, i - idx);
      i := i + 1;
    }
    if weight < 0.0 {
      weight := 1.0;
    }
    w := Some(weight);
  }

  /** One more readable bucket adds its decayed term to the look-ahead. */
  lemma LookaheadStep(p: seq<int>, d: seq<int>, idx: int, n: nat)
    requires n < K && Readable(p, d, idx, n)
    requires idx + n < |p| ==> 0 <= idx + n < |d|
    ensures Readable(p, d, idx, n + 1)
    ensures Lookahead(p, d, idx, n + 1) == Lookahead(p, d, idx, n)
      + (if idx + n < |p| then Pow(Decay, n) * (p[idx + n] as real - Lambda * d[idx + n] as real) else 0.0)
  {
  }

  /** Past the end of the predictions the look-ahead is empty. */
  lemma {:induction false} LookaheadBeyondSeries(p: seq<int>, d: seq<int>, idx: int, n: nat)
    requires n <= K && |p| <= idx
    ensures Readable(p, d, idx, n) && Lookahead(p, d, idx, n) == 0.0
  {
    ReadableBeyondSeries(p, d, idx, n);
    if n > 0 {
      LookaheadBeyondSeries(p, d, idx, n - 1);
    }
  }

  /** When no bucket in the window predicts more drop-off pressure than pickups, the look-ahead is not negative. */
  lemma {:induction false} LookaheadNonNegative(p: seq<int>, d: seq<int>, idx: int, n: nat)
    requires n <= K && Readable(p, d, idx, n)
    requires forall i :: idx <= i < idx + K && 0 <= i < |p| && i < |d| ==> p[i] as real >= Lambda * d[i] as real
    ensures Lookahead(p, d, idx, n) >= 0.0
  {
    if n > 0 {
      LookaheadNonNegative(p, d, idx, n - 1);
      var i := idx + n - 1;
      if i < |p| {
        assert BucketReadable(p, d, i);
        assert p[i] as real - Lambda * d[i] as real >= 0.0;
        PowPositive(Decay, n - 1);
        ProductNonNegative(Pow(Decay, n - 1), p[i] as real - Lambda * d[i] as real);
      }
    }
  }

  lemma ProductNonNegative(a: real, b: real)
    requires a >= 0.0 && b >= 0.0
    ensures a * b >= 0.0
  {
  }

  /** Such a region weighs at least 1 whenever its window can be read. */
  lemma TemporalWeightAtLeastOne(pickups: map<Cell, seq<int>>, dropoffs: map<Cell, seq<int>>, c: Cell, idx: int)
    requires c in pickups && c in dropoffs
    requires forall i :: idx <= i < idx + K && 0 <= i < |pickups[c]| && i < |dropoffs[c]| ==>
      pickups[c][i] as real >= Lambda * dropoffs[c][i] as real
    ensures TemporalWeight(pickups, dropoffs, c, idx).Some? ==> TemporalWeight(pickups, dropoffs, c, idx).value >= 1.0
  {
    if Readable(pickups[c], dropoffs[c], idx, K) {
      LookaheadNonNegative(pickups[c], dropoffs[c], idx, K);
    }
  }

  /** A region whose pickup series ends before the window weighs exactly 1, and nothing throws. */
  lemma TemporalWeightBeyondSeries(pickups: map<Cell, seq<int>>, dropoffs: map<Cell, seq<int>>, c: Cell, idx: int)
    requires c in pickups && |pickups[c]| <= idx
    ensures TemporalWeight(pickups, dropoffs, c, idx) == Some(1.0)
  {
    if c in dropoffs {
      LookaheadBeyondSeries(pickups[c], dropoffs[c], idx, K);
    }
  }

  /** The values of `row` in columns `from ..` that go to region `c`: column i feeds regionList[i]. */
  function Column(regionList: seq<Cell>, row: seq<int>, c: Cell, from: nat): seq<int>
    decreases |row| - from
  {
    if from >= |row| || from >= |regionList| then []
    else (if regionList[from] == c then [row[from]] else []) + Column(regionList, row, c, from + 1)
  }

  /**
   * One row of readPickupMatrix / readDropOffMatrix (RandomDestination
   * variant), from column `i` on: column i is appended to the series of
   * regionList[i]; columns beyond the region list are skipped.
   */
  function DistributeFrom(series: map<Cell, seq<int>>, regionList: seq<Cell>, row: seq<int>, i: nat)
    : (r: map<Cell, seq<int>>)
    requires forall j :: 0 <= j < |regionList| ==> regionList[j] in series
    ensures r.Keys == series.Keys
    ensures forall c :: c in r ==> r[c] == series[c] + Column(regionList, row, c, i)
    decreases |row| - i
  {
    if i >= |row| then series
    else if i < |regionList| then
      var next := RegionIndex.AppendAt(series, regionList[i], row[i]);
      assert next.Keys == series.Keys;
      var r := DistributeFrom(next, regionList, row, i + 1);
      forall c | c in r
        ensures r[c] == series[c] + Column(regionList, row, c, i)
      {
        var head := if regionList[i] == c then [row[i]] else [];
        assert next[c] == series[c] + head;
        assert Column(regionList, row, c, i) == head + Column(regionList, row, c, i + 1);
        RegionIndex.ConcatAssoc(series[c], head, Column(regionList, row, c, i + 1));
      }
      r
    else DistributeFrom(series, regionList, row, i + 1)
  }

  /** Appending one row of a prediction matrix. */
  function DistributeRow(series: map<Cell, seq<int>>, regionList: seq<Cell>, row: seq<int>): (r: map<Cell, seq<int>>)
    requires forall j :: 0 <= j < |regionList| ==> regionList[j] in series
    ensures r.Keys == series.Keys
    ensures forall c :: c in r ==> r[c] == series[c] + Column(regionList, row, c, 0)
  {
    DistributeFrom(series, regionList, row, 0)
  }

  lemma {:induction false} ColumnIgnoresExcess(regionList: seq<Cell>, row: seq<int>, c: Cell, from: nat)
    requires |regionList| < |row|
    ensures Column(regionList, row, c, from) == Column(regionList, row[..|regionList|], c, from)
    decreases |row| - from
  {
    if from < |regionList| {
      ColumnIgnoresExcess(regionList, row, c, from + 1);
    }
  }

  /** Columns beyond the region list change nothing: the row might as well have been cut. */
  lemma ExcessColumnsIgnored(series: map<Cell, seq<int>>, regionList: seq<Cell>, row: seq<int>)
    requires forall j :: 0 <= j < |regionList| ==> regionList[j] in series
    requires |regionList| < |row|
    ensures DistributeRow(series, regionList, row) == DistributeRow(series, regionList, row[..|regionList|])
  {
    var a := DistributeRow(series, regionList, row);
    var b := DistributeRow(series, regionList, row[..|regionList|]);
    forall c | c in a
      ensures a[c] == b[c]
    {
      ColumnIgnoresExcess(regionList, row, c, 0);
    }
  }

  /** With distinct region names, region j receives exactly column j of the row. */
  lemma {:induction false} ColumnOfDistinct(regionList: seq<Cell>, row: seq<int>, j: nat, from: nat)
    requires forall a, b :: 0 <= a < b < |regionList| ==> regionList[a] != regionList[b]
    requires from <= j < |regionList| && j < |row|
    ensures Column(regionList, row, regionList[j], from) == [row[j]]
    decreases |row| - from
  {
    if from < j {
      ColumnOfDistinct(regionList, row, j, from + 1);
    } else {
      ColumnAbsent(regionList, row, regionList[j], j + 1);
    }
  }

  /** No later column names a region that does not occur later in the list. */
  lemma {:induction false} ColumnAbsent(regionList: seq<Cell>, row: seq<int>, c: Cell, from: nat)
    requires forall k :: from <= k < |regionList| ==> regionList[k] != c
    ensures Column(regionList, row, c, from) == []
    decreases |row| - from
  {
    if from < |row| && from < |regionList| {
      ColumnAbsent(regionList, row, c, from + 1);
    }
  }
}
