/**
 * The simulator's resource lifecycle event. A resource event is created
 * when a trip request appears; triggered in state AVAILABLE it joins the
 * waiting set and reschedules itself for its expiration time, triggered in
 * state EXPIRED it leaves the waiting set and is charged the maximum
 * lifetime as wait. Pickup and drop-off are reported through it, and the
 * older direct-assignment handler scans the empty agents for the earliest
 * arrival. The simulator's counters are a record of integers.
 */
module ResourceEvents {
  import opened Basics
  import opened Environment
  import opened Ranking

  /** Why the event is scheduled (BECOME_AVAILABLE or EXPIRED). */
  datatype Cause = BecomeAvailable | ExpiredCause

  /** ResourceEvent.State. */
  datatype EventState = StateAvailable | StateAssigned | StateExpired

  datatype ResourceEvent = ResourceEvent(
    id: ResourceId,
    /** The time the event is scheduled for. */
    time: int,
    pickupLoc: LocationOnRoad,
    dropoffLoc: LocationOnRoad,
    availableTime: int,
    expirationTime: int,
    pickupTime: int,
    /** The agent event that picked the resource up, if any. */
    agentEvent: Option<AgentId>,
    cause: Cause,
    state: EventState,
    tripTime: int)

  /** An agent without a passenger, as the simulator's empty-agent collection holds it. */
  datatype EmptyAgent = EmptyAgent(
    id: AgentId,
    /** The time the agent reaches the end of its current road. */
    time: int,
    loc: LocationOnRoad,
    startSearchTime: int)

  /** The simulator state a resource event reads and writes. */
  datatype Sim = Sim(
    maxLifeTime: int,
    totalResources: int,
    expiredResources: int,
    totalResourceWaitTime: int,
    totalResourceTripTime: int,
    totalAssignments: int,
    totalAgentCruiseTime: int,
    totalAgentApproachTime: int,
    totalAgentSearchTime: int,
    waiting: set<ResourceId>,
    /** The empty agents in the collection's iteration order. */
    emptyAgents: seq<EmptyAgent>)

  /** The state a fleet manager is told about; WAITING is only ever sent by the simulator. */
  datatype NoticeState = Waiting | Changed(state: ResourceState)

  /** One onResourceAvailabilityChange call. */
  datatype Notice = Notice(
    resource: ResourceId,
    state: NoticeState,
    agent: AgentId,
    loc: Option<LocationOnRoad>,
    time: int,
    expiration: int)

  /** The event handed back to the event queue. */
  datatype Next =
    | Reschedule(event: ResourceEvent)
      /** The assigned agent, told where and when it was assigned, set to drop off at `time` at `loc`. */
    | DropOffAt(agent: AgentId, from: LocationOnRoad, assignedAt: int, time: int, loc: LocationOnRoad)

  /** What firing an event does. `released` is the agent told its resource expired. */
  datatype Fired = Fired(
    event: ResourceEvent,
    sim: Sim,
    notice: Option<Notice>,
    released: Option<AgentId>,
    next: Option<Next>)

  /** The lifetime bound every event carries: it expires `maxLifeTime` after it appears. */
  predicate Lives(e: ResourceEvent, sim: Sim) {
    e.expirationTime == e.availableTime + sim.maxLifeTime
  }

  /** The search-time total is the cruise total plus the approach total. */
  predicate SearchSplits(sim: Sim) {
    sim.totalAgentSearchTime == sim.totalAgentCruiseTime + sim.totalAgentApproachTime
  }

  /** The ResourceEvent constructor. */
  function Create(env: Env, sim: Sim, id: ResourceId, pickup: LocationOnRoad, dropoff: LocationOnRoad,
                  availableTime: int): (e: ResourceEvent)
    ensures Lives(e, sim)
    ensures e.time == e.availableTime == availableTime
    ensures e.state == StateAvailable && e.cause == BecomeAvailable && e.agentEvent.None?
    ensures e.id == id && e.pickupLoc == pickup && e.dropoffLoc == dropoff
    ensures e.tripTime == env.travelTimeBetween(pickup, dropoff)
  {
    ResourceEvent(id, availableTime, pickup, dropoff, availableTime, availableTime + sim.maxLifeTime,
                  0, None, BecomeAvailable, StateAvailable, env.travelTimeBetween(pickup, dropoff))
  }

  /**
   * available(): the resource is counted and joins the waiting set, and the
   * event comes back at its expiration time in state EXPIRED.
   */
  function Available(e: ResourceEvent, sim: Sim): (r: Fired)
    ensures r.sim.totalResources == sim.totalResources + 1
    ensures r.sim.waiting == sim.waiting + {e.id}
    ensures r.sim.(totalResources := sim.totalResources, waiting := sim.waiting) == sim
    ensures r.event == e.(time := e.expirationTime, state := StateExpired)
    ensures r.next == Some(Reschedule(r.event))
    ensures r.notice == Some(Notice(e.id, Waiting, NoAgent, Some(e.pickupLoc), e.expirationTime, e.expirationTime))
    ensures r.released.None?
  {
    var e1 := e.(time := e.expirationTime, state := StateExpired);
    Fired(e1, sim.(totalResources := sim.totalResources + 1, waiting := sim.waiting + {e.id}),
          Some(Notice(e.id, Waiting, NoAgent, Some(e.pickupLoc), e1.time, e.expirationTime)),
          None, Some(Reschedule(e1)))
  }

  /**
   * expire(): the resource is counted as expired, charged the maximum
   * lifetime as wait and removed from the waiting set; the picking agent,
   * if any, is told. Nothing is rescheduled.
   */
  function Expire(e: ResourceEvent, sim: Sim): (r: Fired)
    ensures r.sim.expiredResources == sim.expiredResources + 1
    ensures r.sim.totalResourceWaitTime == sim.totalResourceWaitTime + sim.maxLifeTime
    ensures e.id !in r.sim.waiting && r.sim.waiting == sim.waiting - {e.id}
    ensures r.sim.(expiredResources := sim.expiredResources, totalResourceWaitTime := sim.totalResourceWaitTime,
                   waiting := sim.waiting) == sim
    ensures r.event == e && r.next.None?
    ensures r.released == e.agentEvent
    ensures r.notice.Some? && r.notice.value.state == Changed(Expired) && r.notice.value.time == e.time
    ensures r.notice.value.agent == (if e.agentEvent.Some? then e.agentEvent.value else NoAgent)
  {
    var agent := if e.agentEvent.Some? then e.agentEvent.value else NoAgent;
    Fired(e, sim.(expiredResources := sim.expiredResources + 1,
                  totalResourceWaitTime := sim.totalResourceWaitTime + sim.maxLifeTime,
                  waiting := sim.waiting - {e.id}),
          Some(Notice(e.id, Changed(Expired), agent, None, e.time, e.expirationTime)),
          e.agentEvent, None)
  }

  /** trigger(): dispatch on the state; an ASSIGNED event does nothing and returns nothing. */
  function Trigger(e: ResourceEvent, sim: Sim): (r: Fired)
    ensures e.state == StateAvailable ==> r == Available(e, sim)
    ensures e.state == StateExpired ==> r == Expire(e, sim)
    ensures e.state == StateAssigned ==> r == Fired(e, sim, None, None, None)
  {
    match e.state
    case StateAvailable => Available(e, sim)
    case StateExpired => Expire(e, sim)
    case StateAssigned => Fired(e, sim, None, None, None)
  }

  /** No firing moves an event into ASSIGNED: the source never sets that state. */
  lemma TriggerNeverAssigns(e: ResourceEvent, sim: Sim)
    requires e.state != StateAssigned
    ensures Trigger(e, sim).event.state != StateAssigned
    ensures Trigger(e, sim).event.state == StateExpired
  {
  }

  /**
   * assignedTo: the pickup time and the picking agent are recorded and the
   * manager is told PICKED_UP with the drop-off location. The state is left
   * as it was.
   */
  function AssignedTo(e: ResourceEvent, agent: AgentId, pickupTime: int): (r: (ResourceEvent, Notice))
    ensures r.0.agentEvent == Some(agent) && r.0.pickupTime == pickupTime
    ensures r.0.state == e.state
    ensures r.0.(agentEvent := e.agentEvent, pickupTime := e.pickupTime) == e
    ensures r.1 == Notice(e.id, Changed(PickedUp), agent, Some(e.dropoffLoc), pickupTime, e.expirationTime)
  {
    (e.(pickupTime := pickupTime, agentEvent := Some(agent)),
     Notice(e.id, Changed(PickedUp), agent, Some(e.dropoffLoc), pickupTime, e.expirationTime))
  }

  /**
   * dropOff: the time from appearance to pickup is added to the wait total,
   * the time from pickup to drop-off to the trip total, and one assignment
   * is counted; the manager is told DROPPED_OFF.
   */
  function DropOff(e: ResourceEvent, sim: Sim, agent: AgentId, dropOffTime: int): (r: (Sim, Notice))
    ensures r.0.totalResourceWaitTime - sim.totalResourceWaitTime == e.pickupTime - e.availableTime
    ensures r.0.totalResourceTripTime - sim.totalResourceTripTime == dropOffTime - e.pickupTime
    ensures r.0.totalAssignments == sim.totalAssignments + 1
    ensures r.0.(totalResourceWaitTime := sim.totalResourceWaitTime, totalResourceTripTime := sim.totalResourceTripTime,
                 totalAssignments := sim.totalAssignments) == sim
    ensures r.1 == Notice(e.id, Changed(DroppedOff), agent, None, dropOffTime, e.expirationTime)
  {
    var waitTime := e.pickupTime - e.availableTime;
    var tripTime := dropOffTime - e.pickupTime;
    (sim.(totalResourceWaitTime := sim.totalResourceWaitTime + waitTime,
          totalResourceTripTime := sim.totalResourceTripTime + tripTime,
          totalAssignments := sim.totalAssignments + 1),
     Notice(e.id, Changed(DroppedOff), agent, None, dropOffTime, e.expirationTime))
  }

  /**
   * A served resource never waits longer on the books than an expired one:
   * picked up by its expiration time, its drop-off adds at most the
   * maximum lifetime that expiry adds.
   */
  lemma DropOffWaitAtMostExpiry(e: ResourceEvent, sim: Sim, agent: AgentId, dropOffTime: int)
    requires Lives(e, sim)
    requires e.pickupTime <= e.expirationTime
    ensures DropOff(e, sim, agent, dropOffTime).0.totalResourceWaitTime
         <= Expire(e, sim).sim.totalResourceWaitTime
  {
  }

  /**
   * The whole life of a resource nobody serves: created, triggered once
   * (it starts waiting and comes back at its expiration time), triggered
   * again (it expires). It is counted once as a resource and once as
   * expired, charged the maximum lifetime, and no longer waits.
   */
  lemma {:induction false} UnservedLifecycle(env: Env, sim: Sim, id: ResourceId, pickup: LocationOnRoad,
                                             dropoff: LocationOnRoad, availableTime: int)
    ensures var e := Create(env, sim, id, pickup, dropoff, availableTime);
      var first := Trigger(e, sim);
      var second := Trigger(first.next.value.event, first.sim);
      && first.next.Some? && first.next.value.Reschedule?
      && first.next.value.event.time == availableTime + sim.maxLifeTime
      && id in first.sim.waiting
      && second.next.None?
      && second.sim.totalResources == sim.totalResources + 1
      && second.sim.expiredResources == sim.expiredResources + 1
      && second.sim.totalResourceWaitTime == sim.totalResourceWaitTime + sim.maxLifeTime
      && second.sim.waiting == sim.waiting - {id}
      && second.notice.value.time == availableTime + sim.maxLifeTime
  {
    var e := Create(env, sim, id, pickup, dropoff, availableTime);
    var first := Available(e, sim);
    var second := Expire(first.event, first.sim);
    assert first.sim.waiting - {id} == sim.waiting - {id};
  }

  /** expireHandler: the counter effect of expire(), without notifying anyone. */
  function ExpireHandler(e: ResourceEvent, sim: Sim): (r: Sim)
    ensures r.expiredResources == sim.expiredResources + 1
    ensures r.totalResourceWaitTime == sim.totalResourceWaitTime + sim.maxLifeTime
    ensures r.waiting == sim.waiting - {e.id}
    ensures r.(expiredResources := sim.expiredResources, totalResourceWaitTime := sim.totalResourceWaitTime,
               waiting := sim.waiting) == sim
  {
    sim.(expiredResources := sim.expiredResources + 1,
         totalResourceWaitTime := sim.totalResourceWaitTime + sim.maxLifeTime,
         waiting := sim.waiting - {e.id})
  }

  /** The two expiry paths leave the simulator in the same state. */
  lemma ExpireHandlerMatchesExpire(e: ResourceEvent, sim: Sim)
    ensures ExpireHandler(e, sim) == Expire(e, sim).sim
  {
  }

  /**
   * Where an empty agent is at `now`: on its road, `agent.time - now` short
   * of the road's end.
   */
  function PositionOf(a: EmptyAgent, now: int): (l: LocationOnRoad)
    ensures l.road == a.loc.road
    ensures l.travelTimeFromStart + (a.time - now) == a.loc.road.travelTime
  {
    LocationOnRoad(a.loc.road, a.loc.road.travelTime - (a.time - now))
  }

  /** When an empty agent could reach the pickup, leaving its position at the event's time. */
  function ArrivalOf(env: Env, e: ResourceEvent, a: EmptyAgent): (t: int)
    ensures t - e.time == env.travelTimeBetween(PositionOf(a, e.time), e.pickupLoc)
  {
    env.travelTimeBetween(PositionOf(a, e.time), e.pickupLoc) + e.time
  }

  /** Every empty agent keyed by its arrival, in iteration order. */
  function Arrivals(env: Env, e: ResourceEvent, agents: seq<EmptyAgent>): (r: seq<Keyed<EmptyAgent>>)
    ensures |r| == |agents|
    ensures forall i :: 0 <= i < |r| ==> r[i].item == agents[i]
    ensures forall i :: 0 <= i < |r| ==> r[i].key == ArrivalOf(env, e, agents[i]) as real
  {
    seq(|agents|, i requires 0 <= i < |agents| => Keyed(agents[i], ArrivalOf(env, e, agents[i]) as real))
  }

  /**
   * The scan of becomeAvailableHandler: the first empty agent of earliest
   * arrival (strict `<`), with that arrival. The Long.MAX_VALUE sentinel is
   * an absent best agent here.
   */
  method BestAgent(env: Env, e: ResourceEvent, agents: seq<EmptyAgent>) returns (best: Option<nat>, earliest: int)
    ensures best.None? <==> |agents| == 0
    ensures best.Some? ==> (&& best.value < |agents|
                            && IsFirstMin(Arrivals(env, e, agents), best.value)
                            && earliest == ArrivalOf(env, e, agents[best.value]))
    ensures best.Some? ==> best.value == ArgMin(Arrivals(env, e, agents))
  {
    var keyed := Arrivals(env, e, agents);
    best, earliest := None, 0;
    var i := 0;
    while i < |agents|
      invariant 0 <= i <= |agents|
      invariant best.None? <==> i == 0
      invariant best.Some? ==> (&& best.value < i
                                && FirstMinWithin(keyed, i, best.value)
                                && earliest == ArrivalOf(env, e, agents[best.value]))
    {
      var arrive := ArrivalOf(env, e, agents[i]);
      if best.None? || arrive < earliest {
        best, earliest := Some(i), arrive;
      }
      i := i + 1;
    }
    if best.Some? {
      FirstMinUnique(keyed, best.value, ArgMin(keyed));
    }
  }

  /** The empty agents without the one at position `i`. */
  function RemoveAt<T>(s: seq<T>, i: nat): (r: seq<T>)
    requires i < |s|
    ensures |r| == |s| - 1
    ensures multiset(r) == multiset(s) - multiset{s[i]}
  {
    assert s == s[..i] + [s[i]] + s[i + 1..];
    s[..i] + s[i + 1..]
  }

  /**
   * becomeAvailableHandler. The resource is counted. If no empty agent can
   * arrive by its expiration time, it joins the waiting set and the event
   * comes back `maxLifeTime` later as an expiry. Otherwise the earliest
   * agent is assigned: its cruise time (since it started searching), its
   * approach time, their sum as search time, the resource's wait (appearance
   * to arrival) and its trip time are added to the totals, the agent leaves
   * the empty agents, and it is scheduled to drop off `tripTime` after it
   * arrives.
   */
  function BecomeAvailableHandler(env: Env, e: ResourceEvent, sim: Sim): (r: Fired)
    ensures r.sim.totalResources == sim.totalResources + 1
    ensures r.notice.None? && r.released.None? && r.next.Some?
    ensures r.next.value.Reschedule? <==>
      forall i :: 0 <= i < |sim.emptyAgents| ==> ArrivalOf(env, e, sim.emptyAgents[i]) > e.availableTime + sim.maxLifeTime
    ensures r.next.value.Reschedule? ==> r == Defer(e, sim.(totalResources := sim.totalResources + 1))
    ensures r.next.value.DropOffAt? ==>
      |sim.emptyAgents| > 0 && r == Assign(env, e, sim.(totalResources := sim.totalResources + 1), ArgMin(Arrivals(env, e, sim.emptyAgents)))
    ensures r.sim.maxLifeTime == sim.maxLifeTime && r.sim.expiredResources == sim.expiredResources
    ensures SearchSplits(sim) ==> SearchSplits(r.sim)
  {
    var agents := sim.emptyAgents;
    var deadline := e.availableTime + sim.maxLifeTime;
    var counted := sim.(totalResources := sim.totalResources + 1);
    if |agents| == 0 || ArrivalOf(env, e, agents[ArgMin(Arrivals(env, e, agents))]) > deadline then
      assert forall i :: 0 <= i < |agents| ==> ArrivalOf(env, e, agents[i]) > deadline by {
        if |agents| > 0 {
          ArgMinIsEarliest(env, e, agents);
        }
      }
      Defer(e, counted)
    else
      var m := ArgMin(Arrivals(env, e, agents));
      assert !(ArrivalOf(env, e, agents[m]) > deadline);
      Assign(env, e, counted, m)
  }

  /** The no-agent branch: the resource waits and its event returns `maxLifeTime` later as an expiry. */
  function Defer(e: ResourceEvent, sim: Sim): (r: Fired)
    ensures r.notice.None? && r.released.None? && r.next.Some? && r.next.value.Reschedule?
    ensures r.sim == sim.(waiting := sim.waiting + {e.id})
    ensures r.event == e.(time := e.time + sim.maxLifeTime, cause := ExpiredCause) && r.next.value.event == r.event
  {
    var e1 := e.(time := e.time + sim.maxLifeTime, cause := ExpiredCause);
    Fired(e1, sim.(waiting := sim.waiting + {e.id}), None, None, Some(Reschedule(e1)))
  }

  /** The assignment branch: agent `m` takes the resource and the statistics are charged. */
  function Assign(env: Env, e: ResourceEvent, sim: Sim, m: nat): (r: Fired)
    requires m < |sim.emptyAgents|
    ensures r.notice.None? && r.released.None? && r.next.Some? && r.next.value.DropOffAt?
    ensures var best := sim.emptyAgents[m];
      var earliest := ArrivalOf(env, e, best);
      && r.event == e
      && r.next.value == DropOffAt(best.id, PositionOf(best, e.time), e.time, earliest + e.tripTime, e.dropoffLoc)
      && r.sim.totalAgentCruiseTime - sim.totalAgentCruiseTime == e.time - best.startSearchTime
      && r.sim.totalAgentApproachTime - sim.totalAgentApproachTime == earliest - e.time
      && r.sim.totalResourceWaitTime - sim.totalResourceWaitTime == earliest - e.availableTime
      && r.sim.totalResourceTripTime - sim.totalResourceTripTime == e.tripTime
      && r.sim.totalAssignments == sim.totalAssignments + 1
      && multiset(r.sim.emptyAgents) == multiset(sim.emptyAgents) - multiset{best}
    ensures && r.sim.totalResources == sim.totalResources && r.sim.expiredResources == sim.expiredResources
            && r.sim.maxLifeTime == sim.maxLifeTime && r.sim.waiting == sim.waiting
    ensures SearchSplits(sim) ==> SearchSplits(r.sim)
  {
    var agents := sim.emptyAgents;
    var best := agents[m];
    var earliest := ArrivalOf(env, e, best);
    var cruiseTime := e.time - best.startSearchTime;
    var approachTime := earliest - e.time;
    var searchTime := cruiseTime + approachTime;
    var waitTime := earliest - e.availableTime;
    Fired(e,
          sim.(totalAgentCruiseTime := sim.totalAgentCruiseTime + cruiseTime,
               totalAgentApproachTime := sim.totalAgentApproachTime + approachTime,
               totalAgentSearchTime := sim.totalAgentSearchTime + searchTime,
               totalResourceWaitTime := sim.totalResourceWaitTime + waitTime,
               totalResourceTripTime := sim.totalResourceTripTime + e.tripTime,
               totalAssignments := sim.totalAssignments + 1,
               emptyAgents := RemoveAt(agents, m)),
          None, None,
          Some(DropOffAt(best.id, PositionOf(best, e.time), e.time, earliest + e.tripTime, e.dropoffLoc)))
  }

  /**
   * Position `m` holds the first empty agent of earliest arrival: no agent
   * arrives sooner, and every agent ahead of it arrives strictly later.
   */
  ghost predicate EarliestAt(env: Env, e: ResourceEvent, agents: seq<EmptyAgent>, m: int) {
    && 0 <= m < |agents|
    && (forall i :: 0 <= i < |agents| ==> ArrivalOf(env, e, agents[m]) <= ArrivalOf(env, e, agents[i]))
    && (forall i :: 0 <= i < m ==> ArrivalOf(env, e, agents[m]) < ArrivalOf(env, e, agents[i]))
  }

  lemma ArgMinIsEarliest(env: Env, e: ResourceEvent, agents: seq<EmptyAgent>)
    requires |agents| > 0
    ensures EarliestAt(env, e, agents, ArgMin(Arrivals(env, e, agents)))
  {
    var keyed := Arrivals(env, e, agents);
    var m := ArgMin(keyed);
    assert forall i :: 0 <= i < |agents| ==> keyed[m].key <= keyed[i].key;
    assert forall i :: 0 <= i < m ==> keyed[m].key < keyed[i].key;
  }

  /**
   * The handler's assignment is the earliest arrival, made by the
   * deadline, and a resource appearing at the event's time is charged at
   * most its lifetime as wait.
   */
  lemma HandlerPicksEarliest(env: Env, e: ResourceEvent, sim: Sim)
    requires BecomeAvailableHandler(env, e, sim).next.value.DropOffAt?
    ensures |sim.emptyAgents| > 0
    ensures var d := BecomeAvailableHandler(env, e, sim).next.value;
      var agents := sim.emptyAgents;
      var m := ArgMin(Arrivals(env, e, agents));
      && EarliestAt(env, e, agents, m)
      && d.agent == agents[m].id
      && d.time == ArrivalOf(env, e, agents[m]) + e.tripTime
      && ArrivalOf(env, e, agents[m]) <= e.availableTime + sim.maxLifeTime
    ensures BecomeAvailableHandler(env, e, sim).sim.totalResourceWaitTime - sim.totalResourceWaitTime
         <= sim.maxLifeTime
  {
    var agents := sim.emptyAgents;
    ArgMinIsEarliest(env, e, agents);
    EarliestWithinDeadline(env, e, agents, ArgMin(Arrivals(env, e, agents)), e.availableTime + sim.maxLifeTime);
  }

  /** When some agent makes the deadline, so does the earliest one. */
  lemma EarliestWithinDeadline(env: Env, e: ResourceEvent, agents: seq<EmptyAgent>, m: int, deadline: int)
    requires EarliestAt(env, e, agents, m)
    requires !(forall i :: 0 <= i < |agents| ==> ArrivalOf(env, e, agents[i]) > deadline)
    ensures ArrivalOf(env, e, agents[m]) <= deadline
  {
  }

  /**
   * A resource the handler could not place ends its life through the
   * expiry handler: it is counted once, expires once, is charged its
   * lifetime and no longer waits.
   */
  lemma UnplacedThenExpired(env: Env, e: ResourceEvent, sim: Sim)
    requires BecomeAvailableHandler(env, e, sim).next.value.Reschedule?
    ensures var r := BecomeAvailableHandler(env, e, sim);
      var s := ExpireHandler(r.event, r.sim);
      && r.event.cause == ExpiredCause
      && s.totalResources == sim.totalResources + 1
      && s.expiredResources == sim.expiredResources + 1
      && s.totalResourceWaitTime == sim.totalResourceWaitTime + sim.maxLifeTime
      && s.waiting == sim.waiting - {e.id}
      && s.emptyAgents == sim.emptyAgents
  {
    var r := BecomeAvailableHandler(env, e, sim);
    assert r.sim.waiting - {e.id} == sim.waiting - {e.id};
  }

  /** Every simulator update keeps search time split into cruise and approach time. */
  lemma SearchSplitsPreserved(env: Env, e: ResourceEvent, sim: Sim, agent: AgentId, t: int)
    requires SearchSplits(sim)
    ensures SearchSplits(Trigger(e, sim).sim)
    ensures SearchSplits(DropOff(e, sim, agent, t).0)
    ensures SearchSplits(ExpireHandler(e, sim))
    ensures SearchSplits(BecomeAvailableHandler(env, e, sim).sim)
  {
  }
}
