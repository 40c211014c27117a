/**
 * Route planning and the route cursor. An agent's planned route is a queue
 * of intersections; each time the agent reaches an intersection the head
 * is handed out and the agent is recorded at the start of the road towards
 * it. An empty queue is first refilled: towards the assigned resource's
 * pickup, or by the manager's cruising policy.
 */
module RouteCursor {
  import opened Basics
  import opened GlobalParameters
  import opened Environment
  import opened OrderedSets
  import opened RegionIndex
  import opened Demand
  import opened Cruising
  import opened Dispatch

  /** The cruising configuration of each fleet manager. */
  datatype Planner =
    | RandomDestinationPlanner(rd: RegionData, direction: DirectionalPolicy)
    | AMPlanner(index: Index, frequency: map<Cell, int>)

  /**
   * What planning at `time` needs from the configuration: every indexed
   * region lists an intersection (populate only creates non-empty lists),
   * the map has an intersection to draw for the random policy, and for
   * the temporal one no candidate region around `loc` makes
   * getRegionWeightTemporal read past a prediction series.
   */
  ghost predicate Ready(env: Env, planner: Planner, loc: LocationOnRoad, time: int, fuel: nat) {
    match planner
    case RandomDestinationPlanner(rd, direction) =>
      && NonEmptyLists(rd.index)
      && (direction == Random ==> |env.intersections| > 0)
      && (direction == TemporalFrequency ==> TemporalDefinedAt(env, rd, loc, time, fuel))
    case AMPlanner(index, _) => NonEmptyLists(index)
  }

  /**
   * planRouteToTarget: the shortest path from the end of the source's road
   * to the start of the destination's road, without its first
   * intersection (the one the agent is already heading to).
   */
  function PlanRouteToTarget(env: Env, source: LocationOnRoad, destination: LocationOnRoad): (r: seq<Intersection>)
    ensures DropsFirst(env.shortestTravelTimePath(source.road.to, destination.road.from), r)
  {
    Poll(env.shortestTravelTimePath(source.road.to, destination.road.from), 1)
  }

  /** The agent holds a (non-null) assigned resource. */
  predicate HasAssignment(f: Fleet, agent: AgentId) {
    agent in f.assignment && f.assignment[agent].Some?
  }

  /**
   * The manager's cruising route when the agent holds no resource: to a
   * random destination, or to an intersection of a candidate region with
   * one hop (two for the static RandomDestination policy) dropped. Only
   * the AM manager records absent regions.
   */
  function CruiseRoute(env: Env, planner: Planner, absent: set<Cell>, loc: LocationOnRoad, time: int,
                       dice: Dice, fuel: nat): (r: (seq<Intersection>, set<Cell>))
    requires Ready(env, planner, loc, time, fuel)
    ensures absent <= r.1
    ensures planner.RandomDestinationPlanner? ==> r.1 == absent
    ensures planner.RandomDestinationPlanner? && planner.direction == Random ==>
      exists d :: RandomTarget(env, loc.road.to, d) && DropsFirst(env.shortestTravelTimePath(loc.road.to, d), r.0)
    ensures planner.RandomDestinationPlanner? && planner.direction != Random && r.0 != [] ==>
      var hex := env.cellOfLocation(loc, RandomDestinationResolution);
      RouteToCandidate(env, planner.rd.index, CandidateRegions(env, planner.rd.index, hex, fuel), loc.road.to,
                       if planner.direction == TemporalFrequency then 1 else 2, r.0)
    ensures planner.AMPlanner? && r.0 != [] ==>
      var hex := env.cellOfLocation(loc, AMResolution);
      RouteToCandidate(env, planner.index, CandidateRegions(env, planner.index, hex, fuel), loc.road.to, 1, r.0)
    ensures planner.AMPlanner? ==>
      AbsentAfterAM(env, planner.index, planner.frequency, env.cellOfLocation(loc, AMResolution), fuel, absent, r.1)
  {
    match planner
    case RandomDestinationPlanner(rd, direction) =>
      var route := match direction
        case Random => RandomRoute(env, loc, dice)
        case FixedFrequency => FrequencyRoute(env, rd, loc, time, false, dice, fuel)
        case TemporalFrequency => FrequencyRoute(env, rd, loc, time, true, dice, fuel);
      (route, absent)
    case AMPlanner(index, frequency) =>
      CruiseRouteAM(env, index, frequency, absent, loc, dice, fuel)
  }

  /**
   * planRoute: towards the assigned resource's pickup when there is one
   * (without touching the absent regions), otherwise the cruising route.
   */
  function PlanRoute(env: Env, planner: Planner, f: Fleet, absent: set<Cell>, agent: AgentId,
                     loc: LocationOnRoad, time: int, dice: Dice, fuel: nat): (r: (seq<Intersection>, set<Cell>))
    requires Ready(env, planner, loc, time, fuel)
    ensures absent <= r.1
    ensures HasAssignment(f, agent) ==>
      r == (PlanRouteToTarget(env, loc, f.assignment[agent].value.pickupLoc), absent)
    ensures !HasAssignment(f, agent) ==> r == CruiseRoute(env, planner, absent, loc, time, dice, fuel)
  {
    if HasAssignment(f, agent) then
      (PlanRouteToTarget(env, loc, f.assignment[agent].value.pickupLoc), absent)
    else CruiseRoute(env, planner, absent, loc, time, dice, fuel)
  }

  /** The cursor's effect: the next state, the absent regions and the intersection handed out. */
  datatype Step = Step(fleet: Fleet, absent: set<Cell>, next: Option<Intersection>)

  /**
   * The common cursor step once the queue is known: hand out its head,
   * keep its tail, and record the agent at the start of the road to the
   * head. An empty queue hands out nothing and leaves the location alone
   * (the source dereferences the null it polls).
   */
  function Advance(env: Env, f: Fleet, agent: AgentId, loc: LocationOnRoad, queue: seq<Intersection>)
    : (g: (Fleet, Option<Intersection>))
    ensures agent in g.0.routes
    ensures g.1.Some? <==> |queue| > 0
    ensures g.1.Some? ==> (agent in g.0.lastLocation
                           && g.0.lastLocation[agent] == FromRoadStart(env.roadTo(loc.road.to, g.1.value)))
    ensures g.1.Some? ==> ([g.1.value] + g.0.routes[agent] == queue
                           && g.0.lastLocation == f.lastLocation[agent := FromRoadStart(env.roadTo(loc.road.to, g.1.value))])
    ensures g.1.None? ==> g.0.routes == f.routes[agent := []] && g.0.lastLocation == f.lastLocation
    ensures g.0.routes == f.routes[agent := g.0.routes[agent]]
    ensures g.0.(routes := f.routes, lastLocation := f.lastLocation) == f
  {
    if |queue| == 0 then (f.(routes := f.routes[agent := []]), None)
    else
      var next := queue[0];
      (f.(routes := f.routes[agent := queue[1..]],
          lastLocation := f.lastLocation[agent := FromRoadStart(env.roadTo(loc.road.to, next))]),
       Some(next))
  }

  /**
   * onReachIntersection (both managers): the agent's time is recorded; a
   * non-empty queue is advanced without planning, an empty one is first
   * replaced by a fresh plan.
   */
  function OnReachIntersection(env: Env, planner: Planner, f: Fleet, absent: set<Cell>, agent: AgentId,
                               time: int, loc: LocationOnRoad, dice: Dice, fuel: nat): (s: Step)
    requires Wf(f)
    requires Ready(env, planner, loc, time, fuel)
    ensures Wf(s.fleet)
    ensures agent in s.fleet.routes
    ensures absent <= s.absent
    ensures s.fleet.lastTime == f.lastTime[agent := time]
    ensures var queue := GetOr(f.routes, agent, []);
      |queue| > 0 ==> s.absent == absent && s.next == Some(queue[0]) && s.fleet.routes[agent] == queue[1..]
    ensures var queue := GetOr(f.routes, agent, []);
      var plan := PlanRoute(env, planner, f.(lastTime := f.lastTime[agent := time]), absent, agent, loc, time, dice, fuel);
      |queue| == 0 ==> (&& s.absent == plan.1
                        && (s.next.Some? <==> |plan.0| > 0)
                        && (s.next.Some? ==> [s.next.value] + s.fleet.routes[agent] == plan.0))
    ensures s.next.Some? ==> agent in s.fleet.lastLocation
    ensures s.next.Some? ==> s.fleet.lastLocation[agent] == FromRoadStart(env.roadTo(loc.road.to, s.next.value))
    ensures s.fleet.(routes := f.routes, lastLocation := f.lastLocation, lastTime := f.lastTime) == f
  {
    var f1 := f.(lastTime := f.lastTime[agent := time]);
    var queue := GetOr(f.routes, agent, []);
    if |queue| > 0 then
      var g := Advance(env, f1, agent, loc, queue);
      Step(g.0, absent, g.1)
    else
      var plan := PlanRoute(env, planner, f1, absent, agent, loc, time, dice, fuel);
      var g := Advance(env, f1, agent, loc, plan.0);
      Step(g.0, plan.1, g.1)
  }

  /**
   * RandomDestinationFleetManager.onReachIntersectionWithResource: as the
   * cruising cursor, but an empty queue is refilled with the path from the
   * resource's pickup location (not the agent's own position) to its
   * drop-off.
   */
  function OnReachIntersectionWithResource(env: Env, f: Fleet, agent: AgentId, time: int, loc: LocationOnRoad,
                                           resource: Resource): (g: (Fleet, Option<Intersection>))
    requires Wf(f)
    ensures Wf(g.0)
    ensures agent in g.0.routes
    ensures g.0.lastTime == f.lastTime[agent := time]
    ensures var queue := GetOr(f.routes, agent, []);
      var plan := PlanRouteToTarget(env, resource.pickupLoc, resource.dropOffLoc);
      var route := if |queue| == 0 then plan else queue;
      && (g.1.Some? <==> |route| > 0)
      && (g.1.Some? ==> [g.1.value] + g.0.routes[agent] == route)
    ensures g.1.Some? ==> g.0.lastLocation == f.lastLocation[agent := FromRoadStart(env.roadTo(loc.road.to, g.1.value))]
    ensures g.1.None? ==> g.0.lastLocation == f.lastLocation
    ensures g.0.(routes := f.routes, lastLocation := f.lastLocation, lastTime := f.lastTime) == f
  {
    var f1 := f.(lastTime := f.lastTime[agent := time]);
    var queue := GetOr(f.routes, agent, []);
    var route := if |queue| == 0 then PlanRouteToTarget(env, resource.pickupLoc, resource.dropOffLoc) else queue;
    Advance(env, f1, agent, loc, route)
  }

  /**
   * AMFleetManager.onReachIntersectionWithResource: stateless; the second
   * intersection of the shortest path from the end of the agent's road to
   * the start of the drop-off road, or nothing when the path is shorter.
   */
  function OnReachIntersectionWithResourceAM(env: Env, loc: LocationOnRoad, resource: Resource)
    : (next: Option<Intersection>)
    ensures var path := env.shortestTravelTimePath(loc.road.to, resource.dropOffLoc.road.from);
      && (next.Some? <==> |path| >= 2)
      && (next.Some? ==> next.value == path[1])
  {
    var route := PlanRouteToTarget(env, loc, resource.dropOffLoc);
    if |route| > 0 then Some(route[0]) else None
  }

  /**
   * The two managers steer a carrying agent alike when the RandomDestination
   * queue is empty and the agent's road ends where the pickup road does.
   */
  lemma WithResourceManagersAgree(env: Env, f: Fleet, agent: AgentId, time: int, loc: LocationOnRoad, resource: Resource)
    requires Wf(f)
    requires GetOr(f.routes, agent, []) == []
    requires loc.road.to == resource.pickupLoc.road.to
    ensures OnReachIntersectionWithResource(env, f, agent, time, loc, resource).1
         == OnReachIntersectionWithResourceAM(env, loc, resource)
  {
  }

  /** Reaching an intersection keeps idle agents unassigned: only the cursor fields change. */
  lemma ReachKeepsNoIdleAssigned(env: Env, planner: Planner, f: Fleet, absent: set<Cell>, agent: AgentId,
                                 time: int, loc: LocationOnRoad, dice: Dice, fuel: nat)
    requires Wf(f) && NoIdleAssigned(f)
    requires Ready(env, planner, loc, time, fuel)
    ensures NoIdleAssigned(OnReachIntersection(env, planner, f, absent, agent, time, loc, dice, fuel).fleet)
  {
  }
}
