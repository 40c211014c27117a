/**
 * Value types shared by every component of the dispatcher model: optional
 * values (the source's nullable references), identifiers, road positions,
 * the fleet manager's view of a trip request, and the actions a fleet
 * manager hands back to the simulator.
 */
module Basics {

  /** A nullable reference: `None` plays the part of Java's `null`. */
  datatype Option<+T> = None | Some(value: T)

  /** Agents and resources are identified by Java `long` ids. */
  type AgentId = int
  type ResourceId = int

  /** An intersection of the road network, identified by its id. */
  type Intersection = int

  /** An H3 cell address (a hexagonal region of the map). */
  type Cell = string

  /** The agent id a resource carries while no agent is assigned to it. */
  const NoAgent: AgentId := -1

  /** A directed road segment and its static travel time. */
  datatype Road = Road(from: Intersection, to: Intersection, travelTime: int)

  /** A position on a road, measured as travel time from the road's start. */
  datatype LocationOnRoad = LocationOnRoad(road: Road, travelTimeFromStart: int)

  /** The position at the very start of a road (LocationOnRoad.createFromRoadStart). */
  function FromRoadStart(road: Road): (l: LocationOnRoad)
    ensures l.road == road && l.travelTimeFromStart == 0
  {
    LocationOnRoad(road, 0)
  }

  /** What the fleet manager is told about a trip request. */
  datatype Resource = Resource(
    id: ResourceId,
    pickupLoc: LocationOnRoad,
    dropOffLoc: LocationOnRoad,
    expirationTime: int,
    assignedAgentId: AgentId)

  /** The state change a fleet manager is notified of. */
  datatype ResourceState = Available | PickedUp | DroppedOff | Expired

  /** AgentAction: assign an agent to a resource, or do nothing. */
  datatype Action = AssignTo(agent: AgentId, resource: ResourceId) | DoNothing

  /**
   * `n` calls of LinkedList.poll on a path: the first `n` hops are dropped,
   * and polling an empty list changes nothing.
   */
  function Poll<T>(path: seq<T>, n: nat): (r: seq<T>)
    ensures |path| >= n ==> r == path[n..]
    ensures |path| < n ==> r == []
  {
    if |path| >= n then path[n..] else []
  }

  /** Keys of a map looked up with a default, as `getOrDefault` does. */
  function GetOr<K, V>(m: map<K, V>, k: K, default: V): (v: V)
    ensures k in m ==> v == m[k]
    ensures k !in m ==> v == default
  {
    if k in m then m[k] else default
  }
}
