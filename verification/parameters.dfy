/**
 * The configuration constants the dispatcher and the cruising router read
 * (the `GlobalParameters` class), and the two policy switches.
 */
module GlobalParameters {

  /** Width of one prediction time bucket, and the look-ahead horizon, in minutes. */
  const TimeInterval: int := 5
  const TimeHorizon: int := 20

  /** Number of time buckets in the temporal look-ahead: 20 / 5 = 4. */
  const K: int := TimeHorizon / TimeInterval

  /** Weight of predicted drop-offs against predicted pickups. */
  const Lambda: real := 0.8

  /** How an idle agent is chosen for a new resource. */
  datatype AssignmentPolicy = Nearest | Fair

  /** Where an idle agent without a resource cruises to. */
  datatype DirectionalPolicy = Random | FixedFrequency | TemporalFrequency

  /** The policies the repository is configured with. */
  const DefaultAssignment: AssignmentPolicy := Nearest
  const DefaultDirection: DirectionalPolicy := FixedFrequency
}
