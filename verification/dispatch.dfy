/**
 * The dispatcher state machine shared by RandomDestinationFleetManager and
 * AMFleetManager: the idle agents, the waiting resources, the assignment
 * of each agent, its planned route, its ride history and where and when it
 * was last seen. Each notification is a pure step from one `Fleet` to the
 * next together with the action handed back to the simulator.
 */
module Dispatch {
  import opened Basics
  import opened GlobalParameters
  import opened Environment
  import opened OrderedSets
  import opened Ranking
  import opened Selection

  /** Which fleet manager is dispatching, with the RandomDestination policy. */
  datatype Manager = RandomDestination(policy: AssignmentPolicy) | AM

  datatype Fleet = Fleet(
    /** availableAgent: idle agents, a TreeSet ordered by id. */
    available: seq<AgentId>,
    /** waitingResources: unassigned resources, a TreeSet ordered by resource id. */
    waiting: seq<Resource>,
    /** resourceAssignment; a stored `null` is `None`. */
    assignment: map<AgentId, Option<Resource>>,
    /** agentRoutes: the intersections still to visit. */
    routes: map<AgentId, seq<Intersection>>,
    /** agentResourceHistory: the resources each agent was assigned on AVAILABLE. */
    history: map<AgentId, seq<Resource>>,
    /** agentLastLocation. */
    lastLocation: map<AgentId, LocationOnRoad>,
    /** agentLastAppearTime. */
    lastTime: map<AgentId, int>)

  /** A notification's effect: the next state and the action returned. */
  datatype Outcome = Outcome(fleet: Fleet, action: Action)

  /** The waiting set's ordering key. */
  function ResId(r: Resource): int { r.id }

  /**
   * The two TreeSets are ordered by id, and every agent with a last
   * location also has a last appearance time (both are always written
   * together), so the current-location lookup never meets a missing time.
   */
  ghost predicate Wf(f: Fleet) {
    && Ascending(f.available, Id)
    && Ascending(f.waiting, ResId)
    && f.lastLocation.Keys <= f.lastTime.Keys
  }

  /** The state of a freshly constructed fleet manager. */
  const Initial: Fleet := Fleet([], [], map[], map[], map[], map[], map[])

  lemma InitialWf()
    ensures Wf(Initial)
  {
  }

  /**
   * onAgentIntroduced: the agent is recorded at its location and time and
   * becomes idle; nothing else changes.
   */
  function OnAgentIntroduced(f: Fleet, agent: AgentId, loc: LocationOnRoad, time: int): (g: Fleet)
    requires Wf(f)
    ensures Wf(g)
    ensures forall a :: a in g.available <==> a in f.available || a == agent
    ensures g.lastLocation == f.lastLocation[agent := loc] && g.lastTime == f.lastTime[agent := time]
    ensures g.(available := f.available, lastLocation := f.lastLocation, lastTime := f.lastTime) == f
  {
    f.(available := Add(f.available, agent, Id),
       lastLocation := f.lastLocation[agent := loc],
       lastTime := f.lastTime[agent := time])
  }

  /** The agent has been seen somewhere. */
  predicate Located(f: Fleet, id: AgentId) {
    id in f.lastLocation && id in f.lastTime
  }

  /**
   * When the agent would reach the resource's pickup point: its
   * interpolated current position, then the static travel time.
   */
  function Arrival(env: Env, f: Fleet, r: Resource, time: int, id: AgentId): int
    requires Located(f, id)
  {
    env.travelTimeBetween(env.currentLocation(f.lastTime[id], f.lastLocation[id], time), r.pickupLoc) + time
  }

  /** The agent is located and would arrive no later than the resource expires. */
  predicate CanReach(env: Env, f: Fleet, r: Resource, time: int, id: AgentId) {
    Located(f, id) && Arrival(env, f, r, time, id) <= r.expirationTime
  }

  function Reachable(env: Env, f: Fleet, r: Resource, time: int): AgentId -> bool {
    (id: AgentId) => CanReach(env, f, r, time, id)
  }

  function IsLocated(f: Fleet): AgentId -> bool {
    (id: AgentId) => Located(f, id)
  }

  /** numberOfRides: 1 under Nearest; the ride-history length (0 if none) under Fair. */
  function Rides(policy: AssignmentPolicy, f: Fleet, id: AgentId): (n: nat)
    ensures policy == Nearest ==> n == 1
    ensures policy == Fair ==> n == |GetOr(f.history, id, [])|
  {
    match policy
    case Nearest => 1
    case Fair => |GetOr(f.history, id, [])|
  }

  /** The arrival time as a ranking key (the AM scan's `earliest`). */
  function ArrivalScore(env: Env, f: Fleet, r: Resource, time: int): AgentId -> real {
    (id: AgentId) => if Located(f, id) then Arrival(env, f, r, time, id) as real else 0.0
  }

  /** The RandomDestination sort key: arrival time times number of rides. */
  function PolicyScore(env: Env, f: Fleet, r: Resource, time: int, policy: AssignmentPolicy): AgentId -> real {
    (id: AgentId) => if Located(f, id) then (Arrival(env, f, r, time, id) * Rides(policy, f, id)) as real else 0.0
  }

  /** The key each manager ranks eligible agents by. */
  function ManagerScore(env: Env, mgr: Manager, f: Fleet, r: Resource, time: int): AgentId -> real {
    match mgr
    case RandomDestination(policy) => PolicyScore(env, f, r, time, policy)
    case AM => ArrivalScore(env, f, r, time)
  }

  /**
   * RandomDestinationFleetManager.getNearestAvailableAgent: the idle
   * agents that can reach the pickup in time, in id order, stable-sorted by
   * the policy key; the head is taken. The result is the lowest-id agent
   * among those of least key, and null exactly when no idle agent can make
   * it in time.
   */
  function NearestRandomDestination(env: Env, f: Fleet, r: Resource, time: int, policy: AssignmentPolicy)
    : (a: Option<AgentId>)
    requires Wf(f)
    ensures a.None? <==> forall id :: id in f.available ==> !CanReach(env, f, r, time, id)
    ensures a.Some? ==> FirstBest(f.available, Reachable(env, f, r, time), PolicyScore(env, f, r, time, policy), Id, a.value)
  {
    SortedHeadIsFirstBest(f.available, Reachable(env, f, r, time), PolicyScore(env, f, r, time, policy), Id);
    SortedHead(f.available, Reachable(env, f, r, time), PolicyScore(env, f, r, time, policy))
  }

  /**
   * AMFleetManager.getNearestAvailableAgent: the located idle agent of
   * earliest arrival (first in id order on ties), returned only if that
   * arrival is not after the resource's expiration.
   */
  function NearestAM(env: Env, f: Fleet, r: Resource, time: int): (a: Option<AgentId>)
    requires Wf(f)
    ensures a.None? <==> forall id :: id in f.available ==> !CanReach(env, f, r, time, id)
    ensures a.Some? ==> FirstBest(f.available, Reachable(env, f, r, time), ArrivalScore(env, f, r, time), Id, a.value)
  {
    var c := Filter(f.available, IsLocated(f), ArrivalScore(env, f, r, time));
    FilterMembers(f.available, IsLocated(f), ArrivalScore(env, f, r, time));
    if |c| == 0 then
      assert forall id :: id in f.available ==> !CanReach(env, f, r, time, id) by {
        assert Items(c) == [];
      }
      None
    else
      var m := ArgMin(c);
      AMScanMeaning(env, f, r, time, m);
      if c[m].key <= r.expirationTime as real then Some(c[m].item) else None
  }

  /**
   * Why the AM scan agrees with the deadline filter: the earliest located
   * agent is eligible iff any agent is, and then it is the first best among
   * the eligible ones.
   */
  lemma AMScanMeaning(env: Env, f: Fleet, r: Resource, time: int, m: nat)
    requires Wf(f)
    requires IsFirstMin(Filter(f.available, IsLocated(f), ArrivalScore(env, f, r, time)), m)
    ensures var w := Filter(f.available, IsLocated(f), ArrivalScore(env, f, r, time))[m];
      && (w.key <= r.expirationTime as real ==> FirstBest(f.available, Reachable(env, f, r, time), ArrivalScore(env, f, r, time), Id, w.item))
      && (w.key > r.expirationTime as real ==> forall id :: id in f.available ==> !CanReach(env, f, r, time, id))
  {
    var score := ArrivalScore(env, f, r, time);
    var c := Filter(f.available, IsLocated(f), score);
    FirstMinIsFirstBest(f.available, IsLocated(f), score, Id, m);
    var w := c[m];
    assert Located(f, w.item) && w.key == Arrival(env, f, r, time, w.item) as real;
  }

  /** The agent the manager assigns to a newly available resource. */
  function ChooseAgent(env: Env, mgr: Manager, f: Fleet, r: Resource, time: int): (a: Option<AgentId>)
    requires Wf(f)
    ensures a.None? <==> forall id :: id in f.available ==> !CanReach(env, f, r, time, id)
    ensures a.Some? ==> FirstBest(f.available, Reachable(env, f, r, time), ManagerScore(env, mgr, f, r, time), Id, a.value)
  {
    match mgr
    case RandomDestination(policy) => NearestRandomDestination(env, f, r, time, policy)
    case AM => NearestAM(env, f, r, time)
  }

  /**
   * Under the Nearest policy the RandomDestination manager's
   * filter-then-sort and the AM manager's scan-then-check pick the same
   * agent for every state and resource.
   */
  lemma ManagersAgreeUnderNearest(env: Env, f: Fleet, r: Resource, time: int)
    requires Wf(f)
    ensures NearestRandomDestination(env, f, r, time, Nearest) == NearestAM(env, f, r, time)
  {
    var rd := NearestRandomDestination(env, f, r, time, Nearest);
    var am := NearestAM(env, f, r, time);
    if rd.Some? && am.Some? {
      SameFirstBest(env, f, r, time, rd.value, am.value);
    }
  }

  lemma SameFirstBest(env: Env, f: Fleet, r: Resource, time: int, x: AgentId, y: AgentId)
    requires Wf(f)
    requires FirstBest(f.available, Reachable(env, f, r, time), PolicyScore(env, f, r, time, Nearest), Id, x)
    requires FirstBest(f.available, Reachable(env, f, r, time), ArrivalScore(env, f, r, time), Id, y)
    ensures x == y
  {
    var keep := Reachable(env, f, r, time);
    var score := ArrivalScore(env, f, r, time);
    var policyScore := PolicyScore(env, f, r, time, Nearest);
    forall id
      ensures policyScore(id) == score(id)
    {
      if Located(f, id) {
        assert Rides(Nearest, f, id) == 1;
        assert Arrival(env, f, r, time, id) * 1 == Arrival(env, f, r, time, id);
      }
    }
    FirstBestSameScores(f.available, keep, policyScore, score, Id, x);
    FirstBestUnique(f.available, keep, score, Id, x, y);
  }

  /** The rescan's test: the pickup is reachable by its expiration from `loc`. */
  function ReachableFrom(env: Env, loc: LocationOnRoad, time: int): Resource -> bool {
    (res: Resource) => time + env.travelTimeBetween(loc, res.pickupLoc) <= res.expirationTime
  }

  function ArrivalFrom(env: Env, loc: LocationOnRoad, time: int): Resource -> real {
    (res: Resource) => (time + env.travelTimeBetween(loc, res.pickupLoc)) as real
  }

  /**
   * The AVAILABLE branch. If some idle agent can reach the pickup in time,
   * the manager's choice is assigned: it stops being idle, is mapped to the
   * resource, gets an empty route and the resource is appended to its
   * history. Otherwise the resource joins the waiting set (a no-op when a
   * resource of the same id waits already).
   */
  function OnAvailable(env: Env, mgr: Manager, f: Fleet, r: Resource, time: int): (o: Outcome)
    requires Wf(f)
    ensures Wf(o.fleet)
    ensures o.action.AssignTo? <==> exists id :: id in f.available && CanReach(env, f, r, time, id)
    ensures o.action.AssignTo? ==>
      var a := o.action.agent;
      && o.action.resource == r.id
      && FirstBest(f.available, Reachable(env, f, r, time), ManagerScore(env, mgr, f, r, time), Id, a)
      && (forall b :: b in o.fleet.available <==> b in f.available && b != a)
      && o.fleet.assignment == f.assignment[a := Some(r)]
      && o.fleet.routes == f.routes[a := []]
      && o.fleet.history == f.history[a := GetOr(f.history, a, []) + [r]]
      && o.fleet.waiting == f.waiting
    ensures o.action.DoNothing? ==>
      && (forall x :: x in o.fleet.waiting <==> x in f.waiting || (x == r && !HasKey(f.waiting, ResId, r.id)))
      && HasKey(o.fleet.waiting, ResId, r.id)
      && o.fleet.(waiting := f.waiting) == f
    ensures o.fleet.lastLocation == f.lastLocation && o.fleet.lastTime == f.lastTime
  {
    match ChooseAgent(env, mgr, f, r, time)
    case None =>
      var w := Add(f.waiting, r, ResId);
      assert r in w ==> HasKey(w, ResId, r.id) by {
        if r in w {
          var i :| 0 <= i < |w| && w[i] == r;
        }
      }
      Outcome(f.(waiting := w), DoNothing)
    case Some(a) =>
      Outcome(f.(assignment := f.assignment[a := Some(r)],
                 routes := f.routes[a := []],
                 available := Remove(f.available, a, Id),
                 history := f.history[a := GetOr(f.history, a, []) + [r]]),
              AssignTo(a, r.id))
  }

  /**
   * The DROPPED_OFF branch, for the agent that delivered `r` at `loc`. The
   * waiting resource it can reach soonest (lowest id on ties) among those
   * reachable by their expiration is taken out of the waiting set and
   * assigned; with none, the agent becomes idle. Either way the agent's
   * assignment becomes that resource (or null), and its location and time
   * are recorded. Its route and ride history are left as they are.
   */
  function OnDroppedOff(env: Env, f: Fleet, r: Resource, loc: LocationOnRoad, time: int): (o: Outcome)
    requires Wf(f)
    ensures Wf(o.fleet)
    ensures var a := r.assignedAgentId;
      && o.fleet.lastLocation == f.lastLocation[a := loc]
      && o.fleet.lastTime == f.lastTime[a := time]
      && o.fleet.routes == f.routes && o.fleet.history == f.history
      && a in o.fleet.assignment
      && o.fleet.assignment == f.assignment[a := o.fleet.assignment[a]]
    ensures var a := r.assignedAgentId; var best := o.fleet.assignment[a];
      && (best.None? <==> forall x :: x in f.waiting ==> !ReachableFrom(env, loc, time)(x))
      && (best.None? ==> o.action == DoNothing && o.fleet.waiting == f.waiting
                         && forall b :: b in o.fleet.available <==> b in f.available || b == a)
      && (best.Some? ==>
            && FirstBest(f.waiting, ReachableFrom(env, loc, time), ArrivalFrom(env, loc, time), ResId, best.value)
            && o.action == AssignTo(a, best.value.id)
            && o.fleet.available == f.available
            && forall x :: x in o.fleet.waiting <==> x in f.waiting && x.id != best.value.id)
  {
    var a := r.assignedAgentId;
    var best := PickFirstBest(f.waiting, ReachableFrom(env, loc, time), ArrivalFrom(env, loc, time), ResId);
    var g := f.(assignment := f.assignment[a := best],
                lastLocation := f.lastLocation[a := loc],
                lastTime := f.lastTime[a := time]);
    match best
    case Some(b) => Outcome(g.(waiting := Remove(f.waiting, b.id, ResId)), AssignTo(a, b.id))
    case None =>
      AddId(f.available, a);
      Outcome(g.(available := Add(f.available, a, Id)), DoNothing)
  }

  /**
   * The EXPIRED branch: the resource leaves the waiting set; if an agent
   * was assigned to it, that agent's route is cleared, it becomes idle and
   * its assignment entry is removed.
   */
  function OnExpired(f: Fleet, r: Resource): (o: Outcome)
    requires Wf(f)
    ensures Wf(o.fleet)
    ensures o.action == DoNothing
    ensures forall x :: x in o.fleet.waiting <==> x in f.waiting && x.id != r.id
    ensures var a := r.assignedAgentId;
      && (a != NoAgent ==>
            && o.fleet.routes == f.routes[a := []]
            && (forall b :: b in o.fleet.available <==> b in f.available || b == a)
            && o.fleet.assignment == f.assignment - {a})
      && (a == NoAgent ==> o.fleet.routes == f.routes && o.fleet.available == f.available
                           && o.fleet.assignment == f.assignment)
    ensures o.fleet.history == f.history && o.fleet.lastLocation == f.lastLocation && o.fleet.lastTime == f.lastTime
  {
    var g := f.(waiting := Remove(f.waiting, r.id, ResId));
    var a := r.assignedAgentId;
    if a != NoAgent then
      Outcome(g.(routes := f.routes[a := []],
                 available := Add(f.available, a, Id),
                 assignment := f.assignment - {a}),
              DoNothing)
    else Outcome(g, DoNothing)
  }

  /** The PICKED_UP branch: the carrying agent's route is cleared, nothing else changes. */
  function OnPickedUp(f: Fleet, r: Resource): (o: Outcome)
    ensures o.action == DoNothing
    ensures o.fleet.routes == f.routes[r.assignedAgentId := []]
    ensures o.fleet.(routes := f.routes) == f
  {
    Outcome(f.(routes := f.routes[r.assignedAgentId := []]), DoNothing)
  }

  /** onResourceAvailabilityChange: one branch per notified state. */
  function OnResourceAvailabilityChange(env: Env, mgr: Manager, f: Fleet, r: Resource, state: ResourceState,
                                        loc: LocationOnRoad, time: int): (o: Outcome)
    requires Wf(f)
    ensures Wf(o.fleet)
    ensures o.action.AssignTo? ==> state == Available || state == DroppedOff
    ensures state != Available ==> o.fleet.history == f.history
  {
    match state
    case Available => OnAvailable(env, mgr, f, r, time)
    case DroppedOff => OnDroppedOff(env, f, r, loc, time)
    case Expired => OnExpired(f, r)
    case PickedUp => OnPickedUp(f, r)
  }

  /** No idle agent is mapped to a resource. */
  ghost predicate NoIdleAssigned(f: Fleet) {
    forall a :: a in f.available && a in f.assignment ==> f.assignment[a].None?
  }

  /**
   * Every notification keeps idle agents unassigned, provided the agent
   * delivering a resource is not itself idle (the simulator only reports a
   * drop-off by the agent carrying the resource).
   */
  lemma ChangeKeepsNoIdleAssigned(env: Env, mgr: Manager, f: Fleet, r: Resource, state: ResourceState,
                                  loc: LocationOnRoad, time: int)
    requires Wf(f) && NoIdleAssigned(f)
    requires state == DroppedOff ==> r.assignedAgentId !in f.available
    ensures NoIdleAssigned(OnResourceAvailabilityChange(env, mgr, f, r, state, loc, time).fleet)
  {
    match state
    case Available => AvailableKeepsNoIdleAssigned(env, mgr, f, r, time);
    case DroppedOff => DroppedOffKeepsNoIdleAssigned(env, f, r, loc, time);
    case Expired => ExpiredKeepsNoIdleAssigned(f, r);
    case PickedUp => assert OnPickedUp(f, r).fleet.(routes := f.routes) == f;
  }

  /** The AVAILABLE branch takes the agent it assigns out of the idle set. */
  lemma AvailableKeepsNoIdleAssigned(env: Env, mgr: Manager, f: Fleet, r: Resource, time: int)
    requires Wf(f) && NoIdleAssigned(f)
    ensures NoIdleAssigned(OnAvailable(env, mgr, f, r, time).fleet)
  {
    var o := OnAvailable(env, mgr, f, r, time);
    if o.action.AssignTo? {
      var a := o.action.agent;
      assert forall b :: b in o.fleet.available ==> b != a && b in f.available;
    }
  }

  /** The DROPPED_OFF branch makes the delivering agent idle only with a null assignment. */
  lemma DroppedOffKeepsNoIdleAssigned(env: Env, f: Fleet, r: Resource, loc: LocationOnRoad, time: int)
    requires Wf(f) && NoIdleAssigned(f)
    requires r.assignedAgentId !in f.available
    ensures NoIdleAssigned(OnDroppedOff(env, f, r, loc, time).fleet)
  {
  }

  /** The EXPIRED branch frees the assigned agent and drops its assignment entry. */
  lemma ExpiredKeepsNoIdleAssigned(f: Fleet, r: Resource)
    requires Wf(f) && NoIdleAssigned(f)
    ensures NoIdleAssigned(OnExpired(f, r).fleet)
  {
  }

  /** Introducing an agent that holds no resource keeps idle agents unassigned. */
  lemma IntroducedKeepsNoIdleAssigned(f: Fleet, agent: AgentId, loc: LocationOnRoad, time: int)
    requires Wf(f) && NoIdleAssigned(f)
    requires agent !in f.assignment || f.assignment[agent].None?
    ensures NoIdleAssigned(OnAgentIntroduced(f, agent, loc, time))
  {
  }

  /** The agents among `s` whose ride history has length `n`. */
  ghost function AgentsWith(history: map<AgentId, seq<Resource>>, s: set<AgentId>, n: int): set<AgentId> {
    set b | b in s && b in history && |history[b]| == n
  }

  /** Counting one more agent adds it to its own length's group only. */
  lemma AgentsWithStep(history: map<AgentId, seq<Resource>>, s: set<AgentId>, a: AgentId, n: int)
    requires a in history && a !in s
    ensures |history[a]| == n ==> AgentsWith(history, s + {a}, n) == AgentsWith(history, s, n) + {a}
    ensures |history[a]| != n ==> AgentsWith(history, s + {a}, n) == AgentsWith(history, s, n)
    ensures a !in AgentsWith(history, s, n)
  {
  }

  /** `stats` counts, for each history length, the agents of `s` having it. */
  ghost predicate Counts(stats: map<int, int>, history: map<AgentId, seq<Resource>>, s: set<AgentId>) {
    && (forall n :: n in stats <==> AgentsWith(history, s, n) != {})
    && (forall n :: n in stats ==> stats[n] == |AgentsWith(history, s, n)|)
  }

  /** One more agent with `len` rides: its count goes up by one, starting from 1. */
  function Bump(stats: map<int, int>, len: int): (r: map<int, int>)
    ensures r.Keys == stats.Keys + {len}
    ensures r[len] == (if len in stats then stats[len] + 1 else 1)
    ensures forall n :: n in stats && n != len ==> r[n] == stats[n]
  {
    if len in stats then stats[len := stats[len] + 1] else stats[len := 1]
  }

  /** The loop body's update keeps the count exact for one more agent. */
  lemma CountsStep(stats: map<int, int>, history: map<AgentId, seq<Resource>>, s: set<AgentId>, a: AgentId)
    requires Counts(stats, history, s)
    requires a in history && a !in s
    ensures Counts(Bump(stats, |history[a]|), history, s + {a})
  {
    var len := |history[a]|;
    forall n
      ensures len == n ==> AgentsWith(history, s + {a}, n) == AgentsWith(history, s, n) + {a}
      ensures len != n ==> AgentsWith(history, s + {a}, n) == AgentsWith(history, s, n)
      ensures a !in AgentsWith(history, s, n)
    {
      AgentsWithStep(history, s, a, n);
    }
  }

  /**
   * getStats: how many agents have each ride-history length. A length is
   * listed iff some agent has it, with the number of such agents. `order`
   * is the key set's iteration order, which does not affect the result.
   */
  method GetStats(history: map<AgentId, seq<Resource>>, order: seq<AgentId>) returns (stats: map<int, int>)
    requires forall a :: a in order <==> a in history
    requires forall i, j :: 0 <= i < j < |order| ==> order[i] != order[j]
    ensures forall n :: n in stats <==> AgentsWith(history, history.Keys, n) != {}
    ensures forall n :: n in stats ==> stats[n] == |AgentsWith(history, history.Keys, n)|
  {
    stats := map[];
    var k := 0;
    while k < |order|
      invariant 0 <= k <= |order|
      invariant Counts(stats, history, Prefix(order, k))
    {
      var a := order[k];
      PrefixStep(order, k);
      CountsStep(stats, history, Prefix(order, k), a);
      stats := Bump(stats, |history[a]|);
      k := k + 1;
    }
    PrefixAll(order, history);
  }

  /** The first `k` keys visited. */
  ghost function Prefix(order: seq<AgentId>, k: nat): set<AgentId>
    requires k <= |order|
  {
    set i | 0 <= i < k :: order[i]
  }

  lemma PrefixStep(order: seq<AgentId>, k: nat)
    requires k < |order|
    requires forall i, j :: 0 <= i < j < |order| ==> order[i] != order[j]
    ensures Prefix(order, k + 1) == Prefix(order, k) + {order[k]}
    ensures order[k] !in Prefix(order, k)
  {
    assert forall a :: a in Prefix(order, k + 1) <==> a in Prefix(order, k) + {order[k]};
  }

  /** A complete visit covers the key set. */
  lemma PrefixAll<V>(order: seq<AgentId>, m: map<AgentId, V>)
    requires forall a :: a in order <==> a in m
    ensures Prefix(order, |order|) == m.Keys
  {
    forall a | a in m
      ensures a in Prefix(order, |order|)
    {
      var i :| 0 <= i < |order| && order[i] == a;
    }
    forall a | a in Prefix(order, |order|)
      ensures a in m
    {
      var i :| 0 <= i < |order| && order[i] == a;
    }
    assert forall a :: a in Prefix(order, |order|) <==> a in m.Keys;
  }
}
