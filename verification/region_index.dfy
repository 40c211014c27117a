/**
 * The spatial region index: for every H3 cell that holds at least one
 * intersection, the list of those intersections (regionIntersectionMap),
 * and the AM fleet manager's per-cell lists of agents
 * (regionAvailableAgentMap). Both are grown by the same append-or-create
 * step and never lose a cell.
 */
module RegionIndex {
  import opened Basics
  import opened Environment

  /** regionIntersectionMap: cell -> intersections inside it, in map order. */
  type Index = map<Cell, seq<Intersection>>

  /** Every listed cell holds at least one entry (lists are created with one). */
  ghost predicate NonEmptyLists<V>(m: map<Cell, seq<V>>) {
    forall c :: c in m ==> |m[c]| > 0
  }

  /**
   * `if (m.containsKey(c)) m.get(c).add(v); else m.put(c, [v]);`
   * The list at `c` grows by `v` at its end; no other cell changes.
   */
  function AppendAt<V>(m: map<Cell, seq<V>>, c: Cell, v: V): (r: map<Cell, seq<V>>)
    ensures r.Keys == m.Keys + {c}
    ensures r[c] == GetOr(m, c, []) + [v]
    ensures forall d :: d in m && d != c ==> r[d] == m[d]
    ensures NonEmptyLists(m) ==> NonEmptyLists(r)
  {
    if c in m then m[c := m[c] + [v]] else m[c := [v]]
  }

  /** The intersections of `xs` whose cell (at resolution `res`) is `c`, in order. */
  function InCell(env: Env, res: nat, xs: seq<Intersection>, c: Cell): (r: seq<Intersection>)
    ensures forall x :: x in r <==> x in xs && env.cellOfIntersection(x, res) == c
  {
    if |xs| == 0 then []
    else (if env.cellOfIntersection(xs[0], res) == c then [xs[0]] else []) + InCell(env, res, xs[1..], c)
  }

  /** The cells of the intersections in `xs`. */
  function CellsOf(env: Env, res: nat, xs: seq<Intersection>): set<Cell> {
    if |xs| == 0 then {} else {env.cellOfIntersection(xs[0], res)} + CellsOf(env, res, xs[1..])
  }

  /** The populate loop resumed with the map built so far. */
  function PopulateFrom(env: Env, res: nat, index: Index, xs: seq<Intersection>): Index
    decreases |xs|
  {
    if |xs| == 0 then index
    else PopulateFrom(env, res, AppendAt(index, env.cellOfIntersection(xs[0], res), xs[0]), xs[1..])
  }

  /**
   * Each remaining intersection is appended to its own cell's list and to
   * no other, and no cell is ever removed.
   */
  lemma PopulateFromSpec(env: Env, res: nat, index: Index, xs: seq<Intersection>)
    ensures PopulateFrom(env, res, index, xs).Keys == index.Keys + CellsOf(env, res, xs)
    ensures forall c :: c in PopulateFrom(env, res, index, xs) ==>
      PopulateFrom(env, res, index, xs)[c] == GetOr(index, c, []) + InCell(env, res, xs, c)
    ensures NonEmptyLists(index) ==> NonEmptyLists(PopulateFrom(env, res, index, xs))
  {
    PopulateKeys(env, res, index, xs);
    PopulateLists(env, res, index, xs);
    PopulateNonEmpty(env, res, index, xs);
  }

  /** The cells after populating are those before plus those of the remaining intersections. */
  lemma {:induction false} PopulateKeys(env: Env, res: nat, index: Index, xs: seq<Intersection>)
    ensures PopulateFrom(env, res, index, xs).Keys == index.Keys + CellsOf(env, res, xs)
    decreases |xs|
  {
    if |xs| > 0 {
      var c := env.cellOfIntersection(xs[0], res);
      var next := AppendAt(index, c, xs[0]);
      PopulateKeys(env, res, next, xs[1..]);
      assert CellsOf(env, res, xs) == {c} + CellsOf(env, res, xs[1..]);
    }
  }

  /** Each cell's list grows by exactly the remaining intersections inside it, in order. */
  lemma {:induction false} PopulateLists(env: Env, res: nat, index: Index, xs: seq<Intersection>)
    ensures forall c :: c in PopulateFrom(env, res, index, xs) ==>
      PopulateFrom(env, res, index, xs)[c] == GetOr(index, c, []) + InCell(env, res, xs, c)
    decreases |xs|
  {
    if |xs| > 0 {
      var next := AppendAt(index, env.cellOfIntersection(xs[0], res), xs[0]);
      PopulateLists(env, res, next, xs[1..]);
      var r := PopulateFrom(env, res, next, xs[1..]);
      assert r == PopulateFrom(env, res, index, xs);
      forall d | d in r
        ensures r[d] == GetOr(index, d, []) + InCell(env, res, xs, d)
      {
        PopulateStepAt(env, res, index, xs, d);
      }
    }
  }

  /** Populating keeps every listed cell non-empty. */
  lemma {:induction false} PopulateNonEmpty(env: Env, res: nat, index: Index, xs: seq<Intersection>)
    ensures NonEmptyLists(index) ==> NonEmptyLists(PopulateFrom(env, res, index, xs))
    decreases |xs|
  {
    if |xs| > 0 {
      var next := AppendAt(index, env.cellOfIntersection(xs[0], res), xs[0]);
      PopulateNonEmpty(env, res, next, xs[1..]);
    }
  }

  lemma ConcatAssoc<T>(a: seq<T>, b: seq<T>, c: seq<T>)
    ensures (a + b) + c == a + (b + c)
  {
  }

  /**
   * populateRegionIntersecitonMap at resolution `res`, starting from an
   * empty map: the cells listed are exactly those of the map's
   * intersections, and each cell lists exactly its own intersections in
   * map order.
   */
  function PopulateRegionIntersectionMap(env: Env, res: nat): (r: Index)
    ensures r.Keys == CellsOf(env, res, env.intersections)
    ensures forall c :: c in r ==> r[c] == InCell(env, res, env.intersections, c)
    ensures NonEmptyLists(r)
  {
    var r := PopulateFrom(env, res, map[], env.intersections);
    PopulateFromSpec(env, res, map[], env.intersections);
    assert forall c :: c in r ==> r[c] == InCell(env, res, env.intersections, c) by {
      forall c | c in r
        ensures r[c] == InCell(env, res, env.intersections, c)
      {
        var own := InCell(env, res, env.intersections, c);
        assert GetOr(map[], c, []) + own == own;
      }
    }
    r
  }

  /** Each intersection of the map is listed under its own cell and under no other. */
  lemma ListedExactlyInOwnCell(env: Env, res: nat, x: Intersection, c: Cell)
    requires c in PopulateRegionIntersectionMap(env, res)
    ensures x in PopulateRegionIntersectionMap(env, res)[c]
        <==> x in env.intersections && env.cellOfIntersection(x, res) == c
  {
  }

  /** Populating never forgets a cell already present. */
  lemma PopulateKeepsCells(env: Env, res: nat, index: Index, xs: seq<Intersection>)
    ensures index.Keys <= PopulateFrom(env, res, index, xs).Keys
    ensures forall c :: c in index ==> index[c] <= PopulateFrom(env, res, index, xs)[c]
  {
    PopulateFromSpec(env, res, index, xs);
  }

  /** One append step, seen from cell `d`: the head joins `d`'s list exactly when it lies in `d`. */
  lemma PopulateStepAt(env: Env, res: nat, index: Index, xs: seq<Intersection>, d: Cell)
    requires |xs| > 0
    ensures var next := AppendAt(index, env.cellOfIntersection(xs[0], res), xs[0]);
      GetOr(next, d, []) + InCell(env, res, xs[1..], d) == GetOr(index, d, []) + InCell(env, res, xs, d)
  {
    var c := env.cellOfIntersection(xs[0], res);
    var next := AppendAt(index, c, xs[0]);
    var head := if c == d then [xs[0]] else [];
    var tail := InCell(env, res, xs[1..], d);
    assert GetOr(next, d, []) == GetOr(index, d, []) + head;
    assert InCell(env, res, xs, d) == head + tail;
    ConcatAssoc(GetOr(index, d, []), head, tail);
  }

  /**
   * AMFleetManager.addAgentToLeafNode: append the agent to the list of
   * the cell (at the AM resolution) containing its position.
   */
  function AddAgentToLeafNode(env: Env, agents: map<Cell, seq<AgentId>>, agentId: AgentId, loc: LocationOnRoad)
    : (r: map<Cell, seq<AgentId>>)
    ensures var c := env.cellOfLocation(loc, AMResolution);
      && r.Keys == agents.Keys + {c}
      && r[c] == GetOr(agents, c, []) + [agentId]
      && forall d :: d in agents && d != c ==> r[d] == agents[d]
  {
    AppendAt(agents, env.cellOfLocation(loc, AMResolution), agentId)
  }
}
