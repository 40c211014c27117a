/**
 * The collaborators the fleet managers consult but do not own: the road
 * map oracle, the H3 hexagonal grid, the prediction calendar and the
 * position interpolation of FleetManager. Each is an uninterpreted total
 * function supplied by the caller.
 */
module Environment {
  import opened Basics

  /** H3 resolutions used by the two fleet managers. */
  const RandomDestinationResolution: nat := 3
  const AMResolution: nat := 8

  datatype Env = Env(
    /** CityMap.intersections(), in the map's iteration order. */
    intersections: seq<Intersection>,
    /** CityMap.travelTimeBetween (static, speed-limit based). */
    travelTimeBetween: (LocationOnRoad, LocationOnRoad) -> int,
    /** CityMap.shortestTravelTimePath, starting with its source intersection. */
    shortestTravelTimePath: (Intersection, Intersection) -> seq<Intersection>,
    /** Intersection.roadTo: the road from the first intersection to the second. */
    roadTo: (Intersection, Intersection) -> Road,
    /** The first road leaving an intersection (roadsMapFrom.values()[0]). */
    firstRoadFrom: Intersection -> Road,
    /** FleetManager.getCurrentLocation(lastAppearTime, lastLocation, now). */
    currentLocation: (int, LocationOnRoad, int) -> LocationOnRoad,
    /** The H3 cell of an intersection's coordinates at a resolution. */
    cellOfIntersection: (Intersection, nat) -> Cell,
    /** The H3 cell of a road position (getLocationLatLon, then geoToH3Address). */
    cellOfLocation: (LocationOnRoad, nat) -> Cell,
    /** H3 kRing: the cells within a radius, the origin included. */
    kRing: (Cell, nat) -> seq<Cell>,
    /** H3 h3Distance; None when the library throws DistanceUndefinedException. */
    h3Distance: (Cell, Cell) -> Option<nat>,
    /** TemporalUtils.findTimeIntervalIndex. */
    timeIntervalIndex: int -> int)
}
