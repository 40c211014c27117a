/**
 * The cruising router: where an agent without a resource drives next.
 * From the agent's cell it gathers candidate regions (the indexed 1-ring,
 * or rings of radius 2, 6, 18, ... when its own cell is not indexed),
 * weighs each by demand over distance, normalises the weights into
 * probabilities, samples one region by inverse CDF over the candidates in
 * ascending probability, and picks an intersection inside it. The random
 * draws arrive as a `Dice` value.
 */
module Cruising {
  import opened Basics
  import opened GlobalParameters
  import opened Environment
  import opened Ranking
  import opened RegionIndex
  import opened Demand

  /**
   * The random draws of one planning step: the uniform draw of
   * sample_regions (in [0, 1)), the index drawn inside the chosen region,
   * and the index drawn by the agent's own Random for the random route.
   * Indices are reduced modulo the list size, so every value nextInt can
   * return is reachable.
   */
  datatype Dice = Dice(uniform: real, regionPick: nat, destinationPick: nat)

  /** The region data of the RandomDestination fleet manager. */
  datatype RegionData = RegionData(
    index: Index,
    frequency: map<Cell, real>,
    pickups: map<Cell, seq<int>>,
    dropoffs: map<Cell, seq<int>>)

  /** The cells of `ring` that are indexed, other than `hex`, in ring order. */
  function IndexedNeighbours(ring: seq<Cell>, hex: Cell, index: Index): (r: seq<Cell>)
    ensures forall c :: c in r <==> c in ring && c != hex && c in index
    ensures |r| <= |ring|
  {
    if |ring| == 0 then []
    else (if ring[0] != hex && ring[0] in index then [ring[0]] else []) + IndexedNeighbours(ring[1..], hex, index)
  }

  /** The cells of `ring` other than `hex` that are not indexed (AM's absent regions). */
  function AbsentNeighbours(ring: seq<Cell>, hex: Cell, index: Index): set<Cell> {
    set c | c in ring && c != hex && c !in index
  }

  /** The search radius after `j` enlargements `radius += 2 * radius`, from 2. */
  function Radius(j: nat): nat {
    if j == 0 then 2 else 3 * Radius(j - 1)
  }

  /** The indexed cells other than `hex` found by the `j`-th round of the search. */
  function Ring(env: Env, index: Index, hex: Cell, j: nat): seq<Cell> {
    IndexedNeighbours(env.kRing(hex, Radius(j)), hex, index)
  }

  /**
   * The do-while radius search from round `j`, allowed `fuel` further
   * rounds: the first round that finds an indexed cell gives the
   * candidates; with every round empty the result is empty.
   */
  function ExpandFrom(env: Env, index: Index, hex: Cell, j: nat, fuel: nat): (r: seq<Cell>)
    ensures forall c :: c in r ==> c != hex && c in index
    ensures |r| == 0 <==> forall i :: j <= i <= j + fuel ==> |Ring(env, index, hex, i)| == 0
    decreases fuel
  {
    var found := Ring(env, index, hex, j);
    if |found| > 0 || fuel == 0 then found
    else ExpandFrom(env, index, hex, j + 1, fuel - 1)
  }

  /** Rounds `j` up to (not including) `i` of the search all found no indexed cell. */
  ghost predicate EmptyRounds(env: Env, index: Index, hex: Cell, j: nat, i: nat) {
    forall i' :: j <= i' < i ==> |Ring(env, index, hex, i')| == 0
  }

  /** The round at which the search from round `j` with `fuel` stops. */
  function StopRound(env: Env, index: Index, hex: Cell, j: nat, fuel: nat): (i: nat)
    ensures j <= i <= j + fuel
    decreases fuel
  {
    if |Ring(env, index, hex, j)| > 0 || fuel == 0 then j
    else StopRound(env, index, hex, j + 1, fuel - 1)
  }

  /**
   * The search result is the ring of the round where it stops, and every
   * earlier round found no indexed cell.
   */
  lemma ExpandFromFirstRing(env: Env, index: Index, hex: Cell, j: nat, fuel: nat)
    ensures ExpandFrom(env, index, hex, j, fuel) == Ring(env, index, hex, StopRound(env, index, hex, j, fuel))
    ensures EmptyRounds(env, index, hex, j, StopRound(env, index, hex, j, fuel))
  {
    StopRoundRing(env, index, hex, j, fuel);
    StopRoundFirst(env, index, hex, j, fuel);
  }

  /** The search hands out the ring of its stopping round. */
  lemma {:induction false} StopRoundRing(env: Env, index: Index, hex: Cell, j: nat, fuel: nat)
    ensures ExpandFrom(env, index, hex, j, fuel) == Ring(env, index, hex, StopRound(env, index, hex, j, fuel))
    decreases fuel
  {
    if |Ring(env, index, hex, j)| == 0 && fuel > 0 {
      StopRoundRing(env, index, hex, j + 1, fuel - 1);
    }
  }

  /** Every round before the stopping round found no indexed cell. */
  lemma {:induction false} StopRoundFirst(env: Env, index: Index, hex: Cell, j: nat, fuel: nat)
    ensures EmptyRounds(env, index, hex, j, StopRound(env, index, hex, j, fuel))
    decreases fuel
  {
    if |Ring(env, index, hex, j)| == 0 && fuel > 0 {
      StopRoundFirst(env, index, hex, j + 1, fuel - 1);
      assert EmptyRounds(env, index, hex, j, StopRound(env, index, hex, j + 1, fuel - 1));
    }
  }

  /**
   * The candidate regions around `hex`: the indexed 1-ring when `hex` is
   * indexed, otherwise the radius search. The agent's own cell is never a
   * candidate, and every candidate is indexed.
   */
  function CandidateRegions(env: Env, index: Index, hex: Cell, fuel: nat): (r: seq<Cell>)
    ensures forall c :: c in r ==> c != hex && c in index
    ensures hex in index ==> forall c :: c in r <==> c in env.kRing(hex, 1) && c != hex && c in index
    ensures hex !in index && (exists j :: 0 <= j <= fuel && |Ring(env, index, hex, j)| > 0) ==> |r| > 0
  {
    if hex in index then IndexedNeighbours(env.kRing(hex, 1), hex, index)
    else ExpandFrom(env, index, hex, 0, fuel)
  }

  /** No element occurs twice. */
  ghost predicate Distinct<T>(s: seq<T>) {
    forall i, j :: 0 <= i < j < |s| ==> s[i] != s[j]
  }

  /** The keys of the HashMap filled from a list, in first-occurrence order. */
  function Dedup<T(==,!new)>(s: seq<T>): (r: seq<T>)
    ensures forall x :: x in r <==> x in s
    ensures Distinct(r)
    ensures |r| <= |s|
  {
    if |s| == 0 then []
    else
      var d := Dedup(s[..|s| - 1]);
      assert forall x :: x in s <==> x in s[..|s| - 1] || x == s[|s| - 1] by {
        assert s == s[..|s| - 1] + [s[|s| - 1]];
      }
      if s[|s| - 1] in d then d else d + [s[|s| - 1]]
  }

  /** Static frequency weights of the candidates (getFrequencyRoute). */
  function StaticWeights(frequency: map<Cell, real>, cands: seq<Cell>): (r: seq<Keyed<Cell>>)
    ensures |r| == |cands|
    ensures forall i :: 0 <= i < |cands| ==> r[i] == Keyed(cands[i], RegionWeight(frequency, cands[i]))
  {
    seq(|cands|, i requires 0 <= i < |cands| => Keyed(cands[i], RegionWeight(frequency, cands[i])))
  }

  /** getRegionWeightTemporal throws for none of the candidates at bucket `idx`. */
  ghost predicate TemporalDefined(rd: RegionData, cands: seq<Cell>, idx: int) {
    forall c :: c in cands ==> TemporalWeight(rd.pickups, rd.dropoffs, c, idx).Some?
  }

  /** Temporal weights of the candidates at bucket `idx` (getFrequencyTemporalRoute). */
  function TemporalWeights(rd: RegionData, cands: seq<Cell>, idx: int): (r: seq<Keyed<Cell>>)
    requires TemporalDefined(rd, cands, idx)
    ensures |r| == |cands|
    ensures forall i :: 0 <= i < |cands| ==>
      Some(r[i].key) == TemporalWeight(rd.pickups, rd.dropoffs, cands[i], idx) && r[i].item == cands[i]
    ensures NonNegative(r)
  {
    seq(|cands|, i requires 0 <= i < |cands| => Keyed(cands[i], TemporalWeight(rd.pickups, rd.dropoffs, cands[i], idx).value))
  }

  /** The topological distance used as decay denominator; 1 when H3 cannot tell. */
  function DistanceOr1(env: Env, source: Cell, c: Cell): nat {
    match env.h3Distance(source, c)
    case Some(d) => d
    case None => 1
  }

  /** The net values weight / (distance + 1) of calculate_probabilities' first loop. */
  function NetValues(env: Env, source: Cell, weights: seq<Keyed<Cell>>): (r: seq<Keyed<Cell>>)
    ensures |r| == |weights|
    ensures forall i :: 0 <= i < |weights| ==>
      r[i].item == weights[i].item && r[i].key == weights[i].key / (DistanceOr1(env, source, weights[i].item) + 1) as real
    ensures NonNegative(weights) ==> NonNegative(r)
    ensures Positive(weights) ==> Positive(r)
  {
    seq(|weights|, i requires 0 <= i < |weights| =>
      Keyed(weights[i].item, weights[i].key / (DistanceOr1(env, source, weights[i].item) + 1) as real))
  }

  /** Every key divided by `s`. */
  function Scale(xs: seq<Keyed<Cell>>, s: real): (r: seq<Keyed<Cell>>)
    requires s != 0.0
    ensures |r| == |xs|
    ensures forall i :: 0 <= i < |xs| ==> r[i] == Keyed(xs[i].item, xs[i].key / s)
  {
    seq(|xs|, i requires 0 <= i < |xs| => Keyed(xs[i].item, xs[i].key / s))
  }

  lemma {:induction false} TotalScale(xs: seq<Keyed<Cell>>, s: real)
    requires s != 0.0
    ensures Total(Scale(xs, s)) == Total(xs) / s
  {
    if |xs| > 0 {
      TotalScale(xs[1..], s);
      assert Scale(xs, s)[1..] == Scale(xs[1..], s);
      DivDistributes(xs[0].key, Total(xs[1..]), s);
    }
  }

  lemma DivDistributes(a: real, b: real, s: real)
    requires s != 0.0
    ensures a / s + b / s == (a + b) / s
  {
  }

  lemma {:induction false} TotalNonNegative<T>(xs: seq<Keyed<T>>)
    requires NonNegative(xs)
    ensures Total(xs) >= 0.0
  {
    if |xs| > 0 {
      TotalNonNegative(xs[1..]);
    }
  }

  lemma {:induction false} TotalPositive<T>(xs: seq<Keyed<T>>)
    requires Positive(xs) && |xs| > 0
    ensures Total(xs) > 0.0
  {
    if |xs| > 1 {
      TotalPositive(xs[1..]);
    }
  }

  /**
   * calculate_probabilities: each candidate's net value over the sum of
   * all net values. The probabilities sum to one, and are non-negative
   * when the weights are.
   */
  function CalculateProbabilities(env: Env, source: Cell, weights: seq<Keyed<Cell>>): (r: seq<Keyed<Cell>>)
    requires Total(NetValues(env, source, weights)) != 0.0
    ensures |r| == |weights|
    ensures forall i :: 0 <= i < |weights| ==> (r[i].item == weights[i].item
                                               && r[i].key == NetValues(env, source, weights)[i].key / Total(NetValues(env, source, weights)))
    ensures Total(r) == 1.0
    ensures NonNegative(weights) ==> NonNegative(r)
  {
    var nets := NetValues(env, source, weights);
    ScaleByTotal(nets);
    Scale(nets, Total(nets))
  }

  /** Dividing by the total makes the values sum to one, keeping non-negative values so. */
  lemma ScaleByTotal(nets: seq<Keyed<Cell>>)
    requires Total(nets) != 0.0
    ensures Total(Scale(nets, Total(nets))) == 1.0
    ensures NonNegative(nets) ==> NonNegative(Scale(nets, Total(nets)))
  {
    var sum := Total(nets);
    TotalScale(nets, sum);
    DivSelf(sum);
    if NonNegative(nets) {
      TotalNonNegative(nets);
      assert sum > 0.0;
    }
  }

  lemma DivSelf(s: real)
    requires s != 0.0
    ensures s / s == 1.0
  {
  }

  /**
   * sample_regions: stable-sort the candidates by ascending probability and
   * return the first whose running total reaches the draw; None (the
   * source's null) when no running total does.
   */
  function SampleRegions(probs: seq<Keyed<Cell>>, draw: real): (r: Option<Cell>)
    ensures r.None? <==> NoneReachesWithin(Sort(probs), |probs|, draw)
    ensures r.Some? ==> exists i :: 0 <= i < |probs| && probs[i].item == r.value
    ensures r.Some? ==> exists n :: (0 <= n < |probs| && Sort(probs)[n].item == r.value
                                     && Total(Sort(probs)[..n + 1]) >= draw && NoneReachesWithin(Sort(probs), n, draw))
  {
    var sorted := Sort(probs);
    match WalkFrom(sorted, draw, 0, 0.0)
    case None => None
    case Some(n) =>
      assert sorted[n] in multiset(probs);
      Some(sorted[n].item)
  }

  /**
   * With non-negative probabilities the walk fails exactly when even the
   * full total stays below the draw; in particular probabilities summing
   * to one and a draw in [0, 1) always select a region.
   */
  lemma SampleNoneIff(probs: seq<Keyed<Cell>>, draw: real)
    requires NonNegative(probs)
    ensures SampleRegions(probs, draw).None? <==> Total(probs) < draw || |probs| == 0
  {
    var sorted := Sort(probs);
    TotalSort(probs);
    assert sorted[..|sorted|] == sorted;
    assert NonNegative(sorted) by {
      forall i | 0 <= i < |sorted|
        ensures sorted[i].key >= 0.0
      {
        assert sorted[i] in multiset(probs);
      }
    }
    if Total(probs) < draw {
      forall n | 0 < n <= |sorted|
        ensures Total(sorted[..n]) < draw
      {
        PrefixMonotone(sorted, n, |sorted|);
      }
    }
  }

  lemma SampleAlwaysSelects(probs: seq<Keyed<Cell>>, draw: real)
    requires NonNegative(probs) && |probs| > 0
    requires Total(probs) == 1.0 && 0.0 <= draw < 1.0
    ensures SampleRegions(probs, draw).Some?
  {
    SampleNoneIff(probs, draw);
  }

  /**
   * Two candidates of demand 10 and 2, both at distance 1: the
   * probabilities are 10/12 and 2/12, the walk visits the smaller first,
   * and a draw of 0.5 is first reached at the larger one.
   */
  lemma TwoRegionScenario(env: Env, source: Cell, x: Cell, y: Cell)
    requires env.h3Distance(source, x) == Some(1) && env.h3Distance(source, y) == Some(1)
    ensures var weights := [Keyed(x, 10.0), Keyed(y, 2.0)];
      && Total(NetValues(env, source, weights)) != 0.0
      && CalculateProbabilities(env, source, weights) == [Keyed(x, 10.0 / 12.0), Keyed(y, 2.0 / 12.0)]
      && SampleRegions(CalculateProbabilities(env, source, weights), 0.5) == Some(x)
  {
    TwoRegionProbabilities(env, source, x, y);
    SampleOfPair(x, y);
  }

  lemma TwoRegionProbabilities(env: Env, source: Cell, x: Cell, y: Cell)
    requires env.h3Distance(source, x) == Some(1) && env.h3Distance(source, y) == Some(1)
    ensures var weights := [Keyed(x, 10.0), Keyed(y, 2.0)];
      && Total(NetValues(env, source, weights)) == 6.0
      && CalculateProbabilities(env, source, weights) == [Keyed(x, 10.0 / 12.0), Keyed(y, 2.0 / 12.0)]
  {
    var weights := [Keyed(x, 10.0), Keyed(y, 2.0)];
    var nets := NetValues(env, source, weights);
    assert nets == [Keyed(x, 5.0), Keyed(y, 1.0)];
    TotalOfPair(x, 5.0, y, 1.0);
    var probs := CalculateProbabilities(env, source, weights);
    assert probs[0] == Keyed(x, 5.0 / 6.0) && probs[1] == Keyed(y, 1.0 / 6.0);
  }

  /** Probabilities 10/12 and 2/12 are walked smaller first; a draw of 0.5 is reached at the larger. */
  lemma SampleOfPair(x: Cell, y: Cell)
    ensures SampleRegions([Keyed(x, 10.0 / 12.0), Keyed(y, 2.0 / 12.0)], 0.5) == Some(x)
  {
    SortPair(Keyed(x, 10.0 / 12.0), Keyed(y, 2.0 / 12.0));
    WalkPair([Keyed(y, 2.0 / 12.0), Keyed(x, 10.0 / 12.0)]);
  }

  lemma TotalOfPair(x: Cell, a: real, y: Cell, b: real)
    ensures Total([Keyed(x, a), Keyed(y, b)]) == a + b
  {
    var s := [Keyed(x, a), Keyed(y, b)];
    assert s[1..] == [Keyed(y, b)];
    assert s[1..][1..] == [];
    assert Total(s[1..]) == b + Total(s[1..][1..]);
  }

  /** Two entries whose second key is smaller swap places under the sort. */
  lemma SortPair(p: Keyed<Cell>, q: Keyed<Cell>)
    requires q.key < p.key
    ensures Sort([p, q]) == [q, p]
  {
    var s := [p, q];
    assert s[1..] == [q];
    assert s[1..][1..] == [];
    assert Sort(s[1..]) == [q];
    assert InsertByKey(p, [q]) == [q] + InsertByKey(p, []);
  }

  lemma WalkPair(sorted: seq<Keyed<Cell>>)
    requires |sorted| == 2 && sorted[0].key == 2.0 / 12.0 && sorted[1].key == 10.0 / 12.0
    ensures WalkFrom(sorted, 0.5, 0, 0.0) == Some(1)
  {
    assert sorted[..0] == [];
    assert sorted[..1] == [sorted[0]];
    assert sorted[..1][1..] == [];
    assert Total(sorted[..1]) == 2.0 / 12.0;
    TotalPrefixStep(sorted, 1);
    assert WalkFrom(sorted, 0.5, 0, 0.0) == WalkFrom(sorted, 0.5, 1, 2.0 / 12.0);
  }

  /**
   * selectIntersection: an intersection of the chosen region, or None when
   * no region was chosen or it is not indexed.
   */
  function SelectIntersection(env: Env, index: Index, chosen: Option<Cell>, pick: nat): (r: Option<Intersection>)
    requires NonEmptyLists(index)
    ensures r.Some? <==> chosen.Some? && chosen.value in index
    ensures r.Some? ==> r.value in index[chosen.value]
  {
    if chosen.Some? && chosen.value in index then
      var list := index[chosen.value];
      Some(list[pick % |list|])
    else None
  }

  /** Every weight positive, at least one candidate, and a draw in [0, 1). */
  ghost predicate Live(weights: seq<Keyed<Cell>>, dice: Dice) {
    |weights| > 0 && Positive(weights) && 0.0 <= dice.uniform < 1.0
  }

  /**
   * From candidate weights to a destination intersection. A zero sum of
   * net values makes every float probability NaN in the source, so no
   * running total reaches the draw and no region is chosen.
   */
  function CruiseTarget(env: Env, index: Index, hex: Cell, weights: seq<Keyed<Cell>>, dice: Dice): (r: Option<Intersection>)
    requires NonEmptyLists(index)
    requires forall i :: 0 <= i < |weights| ==> weights[i].item in index
    ensures r.Some? ==> exists i :: 0 <= i < |weights| && r.value in index[weights[i].item]
    ensures NonNegative(weights) && Total(NetValues(env, hex, weights)) != 0.0 && 0.0 <= dice.uniform < 1.0 ==> r.Some?
    ensures Live(weights, dice) ==> r.Some?
  {
    assert Live(weights, dice) ==> Total(NetValues(env, hex, weights)) > 0.0 by {
      if Live(weights, dice) {
        TotalPositive(NetValues(env, hex, weights));
      }
    }
    if Total(NetValues(env, hex, weights)) == 0.0 then None
    else
      var probs := CalculateProbabilities(env, hex, weights);
      var chosen := SampleRegions(probs, dice.uniform);
      assert NonNegative(weights) && 0.0 <= dice.uniform < 1.0 ==> chosen.Some? by {
        if NonNegative(weights) && 0.0 <= dice.uniform < 1.0 {
          SampleAlwaysSelects(probs, dice.uniform);
        }
      }
      SelectIntersection(env, index, chosen, dice.regionPick)
  }

  /** `t` is an intersection listed for an indexed region among `cands`. */
  ghost predicate InCandidateRegion(index: Index, cands: seq<Cell>, t: Intersection) {
    exists c :: c in cands && c in index && t in index[c]
  }

  /**
   * `r` is the shortest path from `from` to an intersection of one of the
   * candidate regions, without its first `hops` intersections.
   */
  ghost predicate RouteToCandidate(env: Env, index: Index, cands: seq<Cell>, from: Intersection, hops: nat,
                                   r: seq<Intersection>) {
    exists t :: InCandidateRegion(index, cands, t) && r == Poll(env.shortestTravelTimePath(from, t), hops)
  }

  /**
   * The route part shared by the frequency routes of both managers: sample
   * a target from the weighted candidates, plan to it from the end of the
   * agent's road, drop `hops` leading intersections.
   */
  function RouteVia(env: Env, index: Index, hex: Cell, cands: seq<Cell>, weights: seq<Keyed<Cell>>,
                    from: Intersection, dice: Dice, hops: nat): (r: seq<Intersection>)
    requires NonEmptyLists(index)
    requires forall i :: 0 <= i < |weights| ==> weights[i].item in index && weights[i].item in cands
    ensures r != [] ==> RouteToCandidate(env, index, cands, from, hops, r)
    ensures Live(weights, dice) ==> RouteToCandidate(env, index, cands, from, hops, r)
  {
    match CruiseTarget(env, index, hex, weights, dice)
    case None => []
    case Some(target) =>
      TargetInCandidates(index, cands, weights, target);
      Poll(env.shortestTravelTimePath(from, target), hops)
  }

  /** A target drawn from the weighted candidates lies in a candidate region. */
  lemma TargetInCandidates(index: Index, cands: seq<Cell>, weights: seq<Keyed<Cell>>, t: Intersection)
    requires forall i :: 0 <= i < |weights| ==> weights[i].item in index && weights[i].item in cands
    requires exists i :: 0 <= i < |weights| && t in index[weights[i].item]
    ensures InCandidateRegion(index, cands, t)
  {
    var i :| 0 <= i < |weights| && t in index[weights[i].item];
    assert weights[i].item in cands;
  }

  /** The weighted candidates of the RandomDestination frequency routes. */
  function FrequencyWeights(env: Env, rd: RegionData, hex: Cell, temporal: bool, time: int, fuel: nat)
    : (r: seq<Keyed<Cell>>)
    requires temporal ==> TemporalDefined(rd, CandidateRegions(env, rd.index, hex, fuel), env.timeIntervalIndex(time))
    ensures forall i :: 0 <= i < |r| ==> r[i].item in rd.index && r[i].item != hex
    ensures forall i :: 0 <= i < |r| ==> r[i].item in CandidateRegions(env, rd.index, hex, fuel)
    ensures forall c :: c in CandidateRegions(env, rd.index, hex, fuel) <==> exists i :: 0 <= i < |r| && r[i].item == c
    ensures Distinct(r)
  {
    var cands := Dedup(CandidateRegions(env, rd.index, hex, fuel));
    var ws := if temporal then TemporalWeights(rd, cands, env.timeIntervalIndex(time)) else StaticWeights(rd.frequency, cands);
    assert forall i :: 0 <= i < |ws| ==> ws[i].item == cands[i];
    ws
  }

  /** Static weights are live when some region is a candidate and every stored frequency is positive. */
  lemma StaticWeightsLive(env: Env, rd: RegionData, hex: Cell, time: int, dice: Dice, fuel: nat)
    requires |CandidateRegions(env, rd.index, hex, fuel)| > 0
    requires forall c :: c in rd.frequency ==> rd.frequency[c] > 0.0
    requires 0.0 <= dice.uniform < 1.0
    ensures Live(FrequencyWeights(env, rd, hex, false, time, fuel), dice)
  {
    var cands := CandidateRegions(env, rd.index, hex, fuel);
    var ws := FrequencyWeights(env, rd, hex, false, time, fuel);
    assert cands[0] in cands;
    assert ws == StaticWeights(rd.frequency, Dedup(cands));
  }

  /** The temporal weights of the RandomDestination candidates are all defined at `time`. */
  ghost predicate TemporalDefinedAt(env: Env, rd: RegionData, loc: LocationOnRoad, time: int, fuel: nat) {
    var hex := env.cellOfLocation(loc, RandomDestinationResolution);
    TemporalDefined(rd, CandidateRegions(env, rd.index, hex, fuel), env.timeIntervalIndex(time))
  }

  /**
   * getFrequencyRoute (static weights; the path loses two leading hops) and
   * getFrequencyTemporalRoute (temporal weights; it loses one): a route,
   * when there is one, runs to an intersection of an indexed candidate
   * region, which is never the agent's own cell.
   */
  function FrequencyRoute(env: Env, rd: RegionData, loc: LocationOnRoad, time: int, temporal: bool, dice: Dice, fuel: nat)
    : (r: seq<Intersection>)
    requires NonEmptyLists(rd.index)
    requires temporal ==> TemporalDefinedAt(env, rd, loc, time, fuel)
    ensures var hex := env.cellOfLocation(loc, RandomDestinationResolution);
      var cands := CandidateRegions(env, rd.index, hex, fuel);
      && (r != [] ==> RouteToCandidate(env, rd.index, cands, loc.road.to, if temporal then 1 else 2, r))
      && (Live(FrequencyWeights(env, rd, hex, temporal, time, fuel), dice) ==>
            RouteToCandidate(env, rd.index, cands, loc.road.to, if temporal then 1 else 2, r))
  {
    var hex := env.cellOfLocation(loc, RandomDestinationResolution);
    var cands := CandidateRegions(env, rd.index, hex, fuel);
    RouteVia(env, rd.index, hex, cands, FrequencyWeights(env, rd, hex, temporal, time, fuel),
             loc.road.to, dice, if temporal then 1 else 2)
  }

  /**
   * The uniform destination of getRandomRoute: the drawn intersection, or
   * the end of the first road out of the source when the draw hits the
   * source itself.
   */
  function RandomDestination(env: Env, source: Intersection, pick: nat): (r: Intersection)
    requires |env.intersections| > 0
    ensures r == source ==> env.firstRoadFrom(source).to == source
    ensures r in env.intersections || r == env.firstRoadFrom(source).to
  {
    var drawn := env.intersections[pick % |env.intersections|];
    if drawn == source then env.firstRoadFrom(source).to else drawn
  }

  /** Every intersection other than the source is drawn for some pick. */
  lemma RandomDestinationReaches(env: Env, source: Intersection, x: Intersection)
    requires x in env.intersections && x != source
    ensures exists pick: nat :: RandomDestination(env, source, pick) == x
  {
    var pick :| 0 <= pick < |env.intersections| && env.intersections[pick] == x;
    assert pick % |env.intersections| == pick;
    assert RandomDestination(env, source, pick) == x;
  }

  /**
   * `d` is a destination getRandomRoute can settle on from `source`: an
   * intersection of the map or the end of the source's first road, and
   * the source itself only when that road loops back to it.
   */
  ghost predicate RandomTarget(env: Env, source: Intersection, d: Intersection) {
    && (d in env.intersections || d == env.firstRoadFrom(source).to)
    && (d == source ==> env.firstRoadFrom(source).to == source)
  }

  /** `r` is `path` without its first intersection (and empty when `path` is). */
  ghost predicate DropsFirst(path: seq<Intersection>, r: seq<Intersection>) {
    && (|path| > 0 ==> [path[0]] + r == path)
    && (|path| == 0 ==> r == [])
  }

  /**
   * getRandomRoute: the shortest path from the end of the agent's road to
   * a random destination, first intersection dropped.
   */
  function RandomRoute(env: Env, loc: LocationOnRoad, dice: Dice): (r: seq<Intersection>)
    requires |env.intersections| > 0
    ensures exists d :: RandomTarget(env, loc.road.to, d) && DropsFirst(env.shortestTravelTimePath(loc.road.to, d), r)
  {
    var d := RandomDestination(env, loc.road.to, dice.destinationPick);
    var path := env.shortestTravelTimePath(loc.road.to, d);
    var r := Poll(path, 1);
    assert RandomTarget(env, loc.road.to, d);
    assert DropsFirst(path, r);
    r
  }

  /**
   * The absent set after the AM manager plans from `hex`: the earlier
   * absent regions, the non-indexed 1-ring neighbours when `hex` is
   * indexed, and the candidates without a stored frequency; nothing else.
   */
  ghost predicate AbsentAfterAM(env: Env, index: Index, frequency: map<Cell, int>, hex: Cell, fuel: nat,
                                absent: set<Cell>, after: set<Cell>) {
    forall c :: c in after <==>
      || c in absent
      || (hex in index && c in env.kRing(hex, 1) && c != hex && c !in index)
      || (c in CandidateRegions(env, index, hex, fuel) && c !in frequency)
  }

  /**
   * AMFleetManager.getRandomRoute: the frequency route at the AM
   * resolution with integer weights, one leading hop dropped. The absent
   * set gains exactly the non-indexed 1-ring neighbours (when the agent's
   * cell is indexed) and the candidates without a stored frequency.
   */
  function CruiseRouteAM(env: Env, index: Index, frequency: map<Cell, int>, absent: set<Cell>,
                         loc: LocationOnRoad, dice: Dice, fuel: nat): (r: (seq<Intersection>, set<Cell>))
    requires NonEmptyLists(index)
    ensures AbsentAfterAM(env, index, frequency, env.cellOfLocation(loc, AMResolution), fuel, absent, r.1)
    ensures var hex := env.cellOfLocation(loc, AMResolution);
      var cands := CandidateRegions(env, index, hex, fuel);
      && (r.0 != [] ==> RouteToCandidate(env, index, cands, loc.road.to, 1, r.0))
      && (|cands| > 0 && (forall c :: c in frequency ==> frequency[c] > 0) && 0.0 <= dice.uniform < 1.0 ==>
            RouteToCandidate(env, index, cands, loc.road.to, 1, r.0))
  {
    var hex := env.cellOfLocation(loc, AMResolution);
    var (cands, absent1) := CandidatesAM(env, index, hex, absent, fuel);
    var (weights, absent2) := WeightsAM(frequency, absent1, Dedup(cands));
    AMWeightsFacts(index, frequency, absent1, cands, dice);
    (RouteVia(env, index, hex, cands, weights, loc.road.to, dice, 1), absent2)
  }

  /** The AM weights range over the candidates, and are live when every stored frequency is positive. */
  lemma AMWeightsFacts(index: Index, frequency: map<Cell, int>, absent: set<Cell>, cands: seq<Cell>, dice: Dice)
    requires forall c :: c in cands ==> c in index
    ensures var w := WeightsAM(frequency, absent, Dedup(cands)).0;
      && (forall i :: 0 <= i < |w| ==> w[i].item in index && w[i].item in cands)
      && (|cands| > 0 && (forall c :: c in frequency ==> frequency[c] > 0) && 0.0 <= dice.uniform < 1.0 ==> Live(w, dice))
  {
    var w := WeightsAM(frequency, absent, Dedup(cands)).0;
    forall i | 0 <= i < |w|
      ensures w[i].item in index && w[i].item in cands
    {
      assert w[i].item == Dedup(cands)[i] && Dedup(cands)[i] in cands;
    }
    if |cands| > 0 {
      assert cands[0] in Dedup(cands);
    }
  }

  /**
   * The AM candidate regions around `hex` and the absent set after
   * looking for them: the absent set gains exactly the non-indexed 1-ring
   * neighbours when `hex` is indexed, and nothing during the radius search.
   */
  function CandidatesAM(env: Env, index: Index, hex: Cell, absent: set<Cell>, fuel: nat): (r: (seq<Cell>, set<Cell>))
    ensures r.0 == CandidateRegions(env, index, hex, fuel)
    ensures forall c :: c in r.1 <==>
      c in absent || (hex in index && c in env.kRing(hex, 1) && c != hex && c !in index)
  {
    if hex in index then
      var ring := env.kRing(hex, 1);
      (IndexedNeighbours(ring, hex, index), absent + AbsentNeighbours(ring, hex, index))
    else (ExpandFrom(env, index, hex, 0, fuel), absent)
  }

  /** The RandomDestination static weights and the AM weights agree on the same frequencies. */
  lemma {:induction false} StaticWeightsAreAMWeights(freq: map<Cell, real>, frequency: map<Cell, int>,
                                                     absent: set<Cell>, cands: seq<Cell>)
    requires freq.Keys == frequency.Keys
    requires forall c :: c in frequency ==> freq[c] == frequency[c] as real
    ensures StaticWeights(freq, cands) == WeightsAM(frequency, absent, cands).0
  {
    var a := StaticWeights(freq, cands);
    var b := WeightsAM(frequency, absent, cands).0;
    forall i | 0 <= i < |cands|
      ensures a[i] == b[i]
    {
    }
  }

  /** Dropping one more hop of the sampled path is polling the shorter route once more. */
  lemma RouteViaExtraHop(env: Env, index: Index, hex: Cell, cands: seq<Cell>, weights: seq<Keyed<Cell>>,
                         from: Intersection, dice: Dice)
    requires NonEmptyLists(index)
    requires forall i :: 0 <= i < |weights| ==> weights[i].item in index && weights[i].item in cands
    ensures RouteVia(env, index, hex, cands, weights, from, dice, 2)
         == Poll(RouteVia(env, index, hex, cands, weights, from, dice, 1), 1)
  {
  }

  /**
   * The two managers' static frequency routes agree up to one hop: with
   * the same index, the same frequencies and the agent in the same cell at
   * both resolutions, the RandomDestination route is the AM route with one
   * more leading intersection dropped.
   */
  lemma StaticRouteIsAMRouteLessOneHop(env: Env, rd: RegionData, frequency: map<Cell, int>, absent: set<Cell>,
                                        loc: LocationOnRoad, time: int, dice: Dice, fuel: nat)
    requires NonEmptyLists(rd.index)
    requires rd.frequency.Keys == frequency.Keys
    requires forall c :: c in frequency ==> rd.frequency[c] == frequency[c] as real
    requires env.cellOfLocation(loc, RandomDestinationResolution) == env.cellOfLocation(loc, AMResolution)
    ensures FrequencyRoute(env, rd, loc, time, false, dice, fuel)
         == Poll(CruiseRouteAM(env, rd.index, frequency, absent, loc, dice, fuel).0, 1)
  {
    var hex := env.cellOfLocation(loc, AMResolution);
    var cands := CandidateRegions(env, rd.index, hex, fuel);
    var absent1 := CandidatesAM(env, rd.index, hex, absent, fuel).1;
    var ws := FrequencyWeights(env, rd, hex, false, time, fuel);
    assert ws == StaticWeights(rd.frequency, Dedup(cands));
    StaticWeightsAreAMWeights(rd.frequency, frequency, absent1, Dedup(cands));
    RouteViaExtraHop(env, rd.index, hex, cands, ws, loc.road.to, dice);
  }
}
