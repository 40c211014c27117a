# Fleet dispatch and cruising for the COMSET simulator, in Dafny

This project models the decision core of two fleet managers of the COMSET
ride-hailing simulator (GISCUP 2020): `RandomDestinationFleetManager` and
`AMFleetManager`. It also models the simulator's `ResourceEvent` lifecycle.
A fleet manager is told about agents (vehicles) and resources (trip
requests). It decides which idle agent serves a new resource and which
waiting resource a freed agent serves next. It also decides where an agent
without a resource cruises: it samples a nearby H3 region, weighted by
predicted demand over distance, and drives to an intersection inside it.

Modules:

- `Basics`: shared value types. These are optional values for Java's `null`, roads, positions, `Resource`, `Action`, `Poll` and `GetOr`.
- `GlobalParameters`: the planning constants and the two policy switches.
- `Environment`: the collaborators the managers consult, as total functions supplied by the caller. These are the city map, the H3 grid, the prediction calendar and the position interpolation.
- `OrderedSets`: the id-ordered `TreeSet`s, as strictly increasing sequences.
- `Ranking`: three ways of choosing.
  - The strict-`<` "earliest" scan.
  - A stable ascending sort, as `List.sort` does, whose head is taken.
  - The inverse-CDF walk of `sample_regions`.
- `Selection`: "the first kept member of least score in id order". This is the declarative meaning of both agent searches and of the drop-off rescan.
- `RegionIndex`: the cell-to-intersections map, and AM's cell-to-agents map.
- `Demand`: static and temporal region weights, and the per-row step of loading a prediction matrix.
- `Cruising`: candidate regions, probabilities, sampling, intersection choice, and the random, frequency and AM cruising routes.
- `Dispatch`: the dispatcher state (`Fleet`) and every notification handler as a pure step. It also holds the ride-history statistics.
- `RouteCursor`: route planning and the per-intersection route cursor of both managers.
- `ResourceEvents`: the `ResourceEvent` lifecycle and the simulator counters it updates.

Behaviour kept exactly as the code has it:

- The Fair assignment key is arrival time times the ride-history length. That length is 0 for an agent with no history, so such an agent's key is 0.
- A drop-off that reassigns the agent neither extends its ride history nor clears its route.
- RandomDestination plans a carrying agent's route from the resource's pickup location, not from the agent's position.
- AM's agent search takes the global earliest located agent first, and only then checks the deadline. The model proves this agrees with "earliest among those who can make it". Under exact arithmetic it also proves both managers choose alike under Nearest (see "## Left out" for `float` keys).
- `getFrequencyRoute` drops two leading hops of the path, while the temporal variant and the random route drop one.
- In `getFrequencyRoute` the radius search is the `else` branch of the "own cell indexed" test. A comment line sits between `else` and `if (nearest_h3.size() == 0)`, so the search runs only when the agent's own cell is not indexed. When the own cell is indexed but none of its neighbours is, no region is sampled. The model follows this control flow, not the indentation.
- `ResourceEvent.assignedTo` never sets the ASSIGNED state. An event in that state does nothing when triggered, and no operation of the model reaches it.
- Java's `float` and `double` values are exact reals here. With non-negative weights the sum of net values is 0 only when every net value is 0; then every probability is 0/0, NaN in Java, so no region is sampled. The model returns "no target" whenever the sum is 0.

## Model

| member | source | states |
|---|---|---|
| Basics.Poll | src/UserExamples/RandomDestinationFleetManager.java:659-660 | Polling `n` times drops exactly the first `n` hops; polling an empty list leaves it empty. |
| OrderedSets.Add | src/UserExamples/RandomDestinationFleetManager.java:25-26 | TreeSet.add by id: the result holds x iff x was there or x is new; an existing id is left as is; id order is kept. |
| OrderedSets.Insert | src/UserExamples/RandomDestinationFleetManager.java:25-26 | Inserting a new id keeps the set ordered and adds exactly that element. |
| OrderedSets.Remove | src/UserExamples/RandomDestinationFleetManager.java:233-234 | TreeSet.remove by id: exactly the members with another id stay, in order, and the id is gone. |
| OrderedSets.TailAscending | src/UserExamples/RandomDestinationFleetManager.java:25-26 | Under an ascending id order, the tail of a TreeSet is ascending and lies above its head. |
| OrderedSets.ConsAscending | src/UserExamples/RandomDestinationFleetManager.java:25-26 | An element below every member may be placed first without breaking id order. |
| OrderedSets.HasKeyCons | src/UserExamples/RandomDestinationFleetManager.java:25-26 | `contains` holds for a non-empty set iff the head has the id or the tail contains it. |
| OrderedSets.AddId | src/UserExamples/RandomDestinationFleetManager.java:148 | Adding an agent id to the idle set makes it a member and keeps every other member. |
| Ranking.ArgMin | src/COMSETsystem/AMFleetManager.java:200-226 | The strict-`<` scan returns the first entry of least key. |
| Ranking.FirstMinUnique | src/COMSETsystem/AMFleetManager.java:200-226 | At most one position is the first of least key. |
| Ranking.InsertByKey | src/UserExamples/RandomDestinationFleetManager.java:340-351 | Insertion into a sorted list keeps it sorted and is a permutation. |
| Ranking.ConsSorted | src/UserExamples/RandomDestinationFleetManager.java:340-351 | An entry no larger than the head of a sorted list may go in front of it. |
| Ranking.TailSorted | src/UserExamples/RandomDestinationFleetManager.java:340-351 | The tail of a sorted list is sorted and does not start below the head. |
| Ranking.Sort | src/UserExamples/RandomDestinationFleetManager.java:340-351 | The sort is a sorted permutation of its input of the same length; its stability is stated by `Ranking.SortStable`. |
| Ranking.InsertOfKey | src/UserExamples/RandomDestinationFleetManager.java:465-478 | An inserted entry goes ahead of every entry of its own key and changes no other key's entries. |
| Ranking.SortStable | src/UserExamples/RandomDestinationFleetManager.java:465-478 | The sort is stable: for every key, its entries appear in the output in their input order (the tie order `sample_regions` walks). |
| Ranking.SortHead | src/UserExamples/RandomDestinationFleetManager.java:339-353 | The head of the stable sort is the first entry of least key, which is what the scan finds. |
| Ranking.FirstMinCons | src/COMSETsystem/AMFleetManager.java:200-226 | The first entry of least key is the head when its key is at most the tail's least key, else the tail's first least entry. |
| Ranking.TotalAppend | src/UserExamples/RandomDestinationFleetManager.java:482-488 | The sum of a concatenation is the sum of the sums. |
| Ranking.TotalSort | src/UserExamples/RandomDestinationFleetManager.java:465-488 | Sorting does not change the total of the probabilities. |
| Ranking.WalkFrom | src/UserExamples/RandomDestinationFleetManager.java:480-489 | The cumulative walk returns the first position whose running total reaches the draw, and none iff no prefix reaches it. |
| Ranking.PrefixMonotone | src/UserExamples/RandomDestinationFleetManager.java:482-488 | With non-negative probabilities, running totals never decrease. |
| Selection.Filter | src/UserExamples/RandomDestinationFleetManager.java:313-338 | The eligible list keeps only passing members, each keyed by its score. |
| Selection.FilterMembers | src/UserExamples/RandomDestinationFleetManager.java:313-338 | The eligible list holds exactly the members that pass the test. |
| Selection.FilterAscending | src/UserExamples/RandomDestinationFleetManager.java:313-338 | Filtering an id-ordered set keeps id order. |
| Selection.FirstBestUnique | src/UserExamples/RandomDestinationFleetManager.java:307-357 | In an id-ordered set the first best member is unique. |
| Selection.FirstBestSameScores | src/UserExamples/RandomDestinationFleetManager.java:316-329 | Scores that agree everywhere pick the same member (the Nearest key `arrival * 1`). |
| Selection.FirstMinIsFirstBest | src/COMSETsystem/AMFleetManager.java:200-226 | The scan's winner over the kept members is the kept member of least score, and strictly better than every kept member of lower id. |
| Selection.PickFirstBest | src/UserExamples/RandomDestinationFleetManager.java:206-221 | The rescan over waiting resources finds none iff none passes the test; otherwise it finds the first best. |
| Selection.SortedHead | src/UserExamples/RandomDestinationFleetManager.java:339-356 | Sorting and taking the head yields none iff nothing is eligible, and otherwise an eligible member. |
| Selection.SortedHeadIsFirstBest | src/UserExamples/RandomDestinationFleetManager.java:335-356 | Sort-then-head and scan pick the same member. |
| RegionIndex.AppendAt | src/UserExamples/RandomDestinationFleetManager.java:37-44 | Append-or-create grows only the target cell's list by one element at its end. |
| RegionIndex.InCell | src/UserExamples/RandomDestinationFleetManager.java:31-46 | An intersection is listed for a cell iff it is on the map and lies in that cell. |
| RegionIndex.PopulateFromSpec | src/UserExamples/RandomDestinationFleetManager.java:31-46 | The populate loop adds exactly the cells of the remaining intersections. Each list gains exactly its own intersections, in order. No list becomes empty. |
| RegionIndex.PopulateKeys | src/UserExamples/RandomDestinationFleetManager.java:31-46 | Populating lists exactly the cells already present plus those of the remaining intersections. |
| RegionIndex.PopulateLists | src/UserExamples/RandomDestinationFleetManager.java:31-46 | Each cell's list grows by exactly the remaining intersections inside it, in order. |
| RegionIndex.PopulateNonEmpty | src/UserExamples/RandomDestinationFleetManager.java:37-44 | Populating never produces an empty list. |
| RegionIndex.PopulateStepAt | src/UserExamples/RandomDestinationFleetManager.java:37-44 | One append step adds the intersection to its own cell's list and to no other. |
| RegionIndex.PopulateRegionIntersectionMap | src/UserExamples/RandomDestinationFleetManager.java:31-46 | The index lists exactly the cells holding an intersection. Each list is exactly that cell's intersections in map order, and none is empty. |
| RegionIndex.ListedExactlyInOwnCell | src/COMSETsystem/AMFleetManager.java:113-128 | Every map intersection is listed under its own cell and under no other. |
| RegionIndex.PopulateKeepsCells | src/COMSETsystem/AMFleetManager.java:113-128 | Populating never removes a cell or shortens a list. |
| RegionIndex.AddAgentToLeafNode | src/COMSETsystem/AMFleetManager.java:166-178 | The agent is appended to the list of its position's cell at resolution 8. No other cell changes. |
| Demand.PowPositive | src/UserExamples/RandomDestinationFleetManager.java:514-515 | The decay factor 0.8^n is positive. |
| Demand.RegionWeight | src/UserExamples/RandomDestinationFleetManager.java:409-417 | The stored frequency, or 1 for a region without one. |
| Demand.RegionWeightAM | src/COMSETsystem/AMFleetManager.java:406-415 | The stored frequency, or 1 with the region recorded as absent. The absent set only grows. |
| Demand.WeightsAM | src/COMSETsystem/AMFleetManager.java:454-459 | One weight per candidate, in order. The absent set gains exactly the candidates without a frequency. |
| Demand.TemporalWeight | src/UserExamples/RandomDestinationFleetManager.java:504-523 | No weight (the source throws) exactly when a bucket the loop reads lies below 0 or past the drop-off series. Otherwise the weight is non-negative: 1 when a series is missing, else 1 plus the decayed look-ahead, reset to 1 when that is negative. |
| Demand.ReadableIff | src/UserExamples/RandomDestinationFleetManager.java:515-518 | The window can be read iff every bucket before the end of the pickup series is an index of both series. |
| Demand.UnreadableExtends | src/UserExamples/RandomDestinationFleetManager.java:515-518 | A window that fails at some bucket fails for every longer window too. |
| Demand.ReadableBeyondSeries | src/UserExamples/RandomDestinationFleetManager.java:515-518 | A window that starts past the pickup series reads nothing, so it never throws. |
| Demand.RegionWeightTemporal | src/UserExamples/RandomDestinationFleetManager.java:504-523 | The bucket loop stops with no weight at the first bucket it cannot read, and otherwise computes exactly the decayed-sum weight. |
| Demand.LookaheadBeyondSeries | src/UserExamples/RandomDestinationFleetManager.java:513-516 | Past the end of the pickup series the window is readable and no bucket contributes. |
| Demand.LookaheadNonNegative | src/UserExamples/RandomDestinationFleetManager.java:513-516 | If no bucket read has more drop-off pressure than pickups, the look-ahead is non-negative. |
| Demand.TemporalWeightAtLeastOne | src/UserExamples/RandomDestinationFleetManager.java:504-523 | Under that condition a region whose window can be read weighs at least 1. |
| Demand.TemporalWeightBeyondSeries | src/UserExamples/RandomDestinationFleetManager.java:504-523 | A time bucket beyond the pickup predictions gives weight exactly 1, and nothing throws, whatever the drop-off series holds. |
| Demand.DistributeFrom | src/UserExamples/RandomDestinationFleetManager.java:81-90 | Reading one matrix row appends column i to region i's series. No region is added or removed. |
| Demand.DistributeRow | src/UserExamples/RandomDestinationFleetManager.java:75-91 | A whole row is distributed column by column to the regions. |
| Demand.ColumnIgnoresExcess | src/UserExamples/RandomDestinationFleetManager.java:81-90 | Columns past the region list contribute nothing to any region. |
| Demand.ExcessColumnsIgnored | src/UserExamples/RandomDestinationFleetManager.java:77-90 | A row longer than the region list loads as if it had been cut to the list's length. |
| Demand.ColumnOfDistinct | src/UserExamples/RandomDestinationFleetManager.java:81-85 | With distinct region names, region j receives exactly column j. |
| Demand.ColumnAbsent | src/UserExamples/RandomDestinationFleetManager.java:81-85 | A region named by no column receives nothing. |
| Cruising.IndexedNeighbours | src/UserExamples/RandomDestinationFleetManager.java:553-566 | A ring cell is a candidate iff it is not the agent's cell and is indexed. |
| Cruising.ExpandFrom | src/UserExamples/RandomDestinationFleetManager.java:569-581 | The radius search returns only indexed cells other than the agent's. It is empty iff every round within the fuel is empty. |
| Cruising.ExpandFromFirstRing | src/UserExamples/RandomDestinationFleetManager.java:569-581 | The search result is the ring of the round where it stops (radius 2, 6, 18, ...), and every earlier round found no indexed cell. |
| Cruising.StopRoundRing | src/UserExamples/RandomDestinationFleetManager.java:569-581 | The search hands out the ring found in its stopping round. |
| Cruising.StopRoundFirst | src/UserExamples/RandomDestinationFleetManager.java:569-581 | Every round before the stopping round found no indexed cell. |
| Cruising.CandidateRegions | src/UserExamples/RandomDestinationFleetManager.java:553-582 | An indexed own cell gives exactly its indexed 1-ring neighbours. Otherwise the radius search runs, which finds cells when some round has any. The own cell is never a candidate. |
| Cruising.Dedup | src/UserExamples/RandomDestinationFleetManager.java:583-587 | The HashMap keys: the same members as the candidate list, each once. |
| Cruising.StaticWeights | src/UserExamples/RandomDestinationFleetManager.java:643-647 | Each candidate is paired with its static weight, in order. |
| Cruising.TemporalWeights | src/UserExamples/RandomDestinationFleetManager.java:583-587 | Each candidate is paired, in order, with its temporal weight, and all weights are non-negative. Only the candidates' windows need to be readable. |
| Cruising.NetValues | src/UserExamples/RandomDestinationFleetManager.java:422-435 | Each net value is the weight over (H3 distance + 1), with distance 1 when undefined. Non-negative weights give non-negative net values. Positive weights give positive net values. |
| Cruising.TotalScale | src/UserExamples/RandomDestinationFleetManager.java:437-440 | Dividing every value by s divides the sum by s. |
| Cruising.ScaleByTotal | src/UserExamples/RandomDestinationFleetManager.java:437-440 | Dividing each value by the non-zero total makes the values sum to 1, and non-negative values stay non-negative. |
| Cruising.TotalNonNegative | src/UserExamples/RandomDestinationFleetManager.java:432-433 | A sum of non-negative values is non-negative. |
| Cruising.TotalPositive | src/UserExamples/RandomDestinationFleetManager.java:432-433 | A non-empty sum of positive values is positive. |
| Cruising.CalculateProbabilities | src/UserExamples/RandomDestinationFleetManager.java:419-442 | Each probability is its net value over the sum of net values. The probabilities sum to 1 and are non-negative for non-negative weights. |
| Cruising.SampleRegions | src/UserExamples/RandomDestinationFleetManager.java:458-490 | Over the ascending stable sort, the chosen region is the first whose running total reaches the draw. None iff no running total does. |
| Cruising.SampleNoneIff | src/UserExamples/RandomDestinationFleetManager.java:458-490 | With non-negative probabilities, nothing is sampled iff the total is below the draw or there are no candidates. |
| Cruising.SampleAlwaysSelects | src/UserExamples/RandomDestinationFleetManager.java:458-490 | Probabilities that sum to 1 and a draw in [0, 1) always select a region. |
| Cruising.TwoRegionScenario | src/UserExamples/RandomDestinationFleetManager.java:419-490 | Demands 10 and 2, both at distance 1, give probabilities 10/12 and 2/12. A draw of 0.5 selects the first region. |
| Cruising.TwoRegionProbabilities | src/UserExamples/RandomDestinationFleetManager.java:419-442 | Demands 10 and 2 at distance 1 give net values summing to 6 and probabilities 10/12 and 2/12. |
| Cruising.SampleOfPair | src/UserExamples/RandomDestinationFleetManager.java:458-490 | Over probabilities 10/12 and 2/12, a draw of 0.5 selects the region of 10/12: 2/12 alone stays below the draw, and the second running total reaches it. |
| Cruising.SelectIntersection | src/UserExamples/RandomDestinationFleetManager.java:492-502 | An intersection is returned iff a region was chosen and is indexed, and it lies in that region. |
| Cruising.CruiseTarget | src/UserExamples/RandomDestinationFleetManager.java:589-593 | A target lies in some candidate region. With non-negative weights, a non-zero net sum and a draw in [0, 1), there always is one; so there is with positive weights over at least one candidate. |
| Cruising.FrequencyWeights | src/UserExamples/RandomDestinationFleetManager.java:547-587 | The weighted candidates are exactly the candidate regions, each once, indexed and never the agent's own cell. The temporal branch needs only the candidates' windows to be readable. |
| Cruising.StaticWeightsLive | src/UserExamples/RandomDestinationFleetManager.java:643-647 | With some candidate and every stored frequency positive, every static weight is positive. |
| Cruising.RouteVia | src/UserExamples/RandomDestinationFleetManager.java:589-600 | A non-empty route is the shortest path from the end of the agent's road to an intersection of a candidate region, minus its first `hops` intersections. Positive weights over some candidate and a draw in [0, 1) always give such a route. |
| Cruising.FrequencyRoute | src/UserExamples/RandomDestinationFleetManager.java:547-663 | A non-empty route is the shortest path to an intersection of an indexed candidate region (never the agent's own cell), without its first two (static) or one (temporal) intersections. Positive weights over some candidate and a draw in [0, 1) always give such a route. |
| Cruising.RandomDestination | src/UserExamples/RandomDestinationFleetManager.java:525-540 | The destination is a map intersection or the end of the source's first road. It equals the source only when that road loops back. |
| Cruising.RandomDestinationReaches | src/UserExamples/RandomDestinationFleetManager.java:525-540 | Every intersection of the map other than the source is the destination for some draw. |
| Cruising.RandomRoute | src/UserExamples/RandomDestinationFleetManager.java:525-545 | The route is the shortest path to a map intersection, or to the end of the first road when the draw hits the source, without its first intersection. The destination is the source only when that road loops back. |
| Cruising.CruiseRouteAM | src/COMSETsystem/AMFleetManager.java:417-474 | The absent set gains exactly the non-indexed 1-ring neighbours (when the own cell is indexed) and the candidates without a frequency. A non-empty route is the shortest path to an intersection of an indexed candidate region, without its first intersection. With some candidate and every frequency positive there always is such a route. |
| Cruising.CandidatesAM | src/COMSETsystem/AMFleetManager.java:420-453 | The candidates are the candidate regions. The absent set gains exactly the non-indexed 1-ring neighbours other than the own cell when that cell is indexed, and nothing during the radius search. |
| Cruising.StaticWeightsAreAMWeights | src/COMSETsystem/AMFleetManager.java:406-415 | On the same frequencies the RandomDestination static weights equal the AM weights. |
| Cruising.RouteViaExtraHop | src/UserExamples/RandomDestinationFleetManager.java:657-660 | Polling the sampled path twice is polling the once-polled route once more. |
| Cruising.StaticRouteIsAMRouteLessOneHop | src/COMSETsystem/AMFleetManager.java:417-474 | With the same index and frequencies, and the agent in the same cell at both resolutions, the RandomDestination static route is the AM route with one more intersection dropped. |
| Dispatch.InitialWf | src/UserExamples/RandomDestinationFleetManager.java:665-678 | A new manager satisfies the fleet invariant. |
| Dispatch.OnAgentIntroduced | src/UserExamples/RandomDestinationFleetManager.java:146-150 | The agent is idle and recorded at its location and time, the invariant holds, and nothing else changes. |
| Dispatch.Rides | src/UserExamples/RandomDestinationFleetManager.java:318-329 | The number of rides is 1 under Nearest and the history length (0 without history) under Fair. |
| Dispatch.NearestRandomDestination | src/UserExamples/RandomDestinationFleetManager.java:307-357 | Null iff no idle agent can reach the pickup by expiration. Otherwise the lowest-id eligible agent of least arrival × rides. |
| Dispatch.NearestAM | src/COMSETsystem/AMFleetManager.java:200-226 | Null iff no idle agent can reach the pickup in time. Otherwise the lowest-id eligible agent of earliest arrival. |
| Dispatch.AMScanMeaning | src/COMSETsystem/AMFleetManager.java:218-225 | Checking the deadline after the global minimum equals filtering first: past the deadline means nobody is eligible. |
| Dispatch.ChooseAgent | src/COMSETsystem/AMFleetManager.java:246-248 | Either manager's choice is none iff no idle agent can make it, else the first best under its key. |
| Dispatch.ManagersAgreeUnderNearest | src/UserExamples/RandomDestinationFleetManager.java:307-357 | Under the Nearest policy both managers choose the same agent for every state and resource. |
| Dispatch.SameFirstBest | src/COMSETsystem/AMFleetManager.java:200-226 | First bests under the Nearest key and the arrival key coincide. |
| Dispatch.OnAvailable | src/UserExamples/RandomDestinationFleetManager.java:186-202 | Assigns iff some idle agent can make it, and then assigns the first best. The agent leaves the idle set, gets the resource, an empty route and one more history entry. Otherwise the resource waits. |
| Dispatch.OnDroppedOff | src/UserExamples/RandomDestinationFleetManager.java:203-232 | The freed agent gets the first waiting resource it reaches soonest by its expiration, which leaves the waiting set. With none, the agent becomes idle. Its location and time are recorded; route and history are unchanged. |
| Dispatch.OnExpired | src/UserExamples/RandomDestinationFleetManager.java:233-239 | The resource leaves the waiting set. An assigned agent becomes idle with an empty route and no assignment. |
| Dispatch.OnPickedUp | src/UserExamples/RandomDestinationFleetManager.java:240-242 | Only the carrying agent's route is cleared. |
| Dispatch.OnResourceAvailabilityChange | src/COMSETsystem/AMFleetManager.java:239-306 | The invariant is kept. Only AVAILABLE and DROPPED_OFF assign, and only AVAILABLE touches the history. |
| Dispatch.ChangeKeepsNoIdleAssigned | src/UserExamples/RandomDestinationFleetManager.java:177-245 | No idle agent is ever mapped to a resource after any notification. |
| Dispatch.AvailableKeepsNoIdleAssigned | src/UserExamples/RandomDestinationFleetManager.java:186-202 | The AVAILABLE branch takes the agent it assigns out of the idle set. |
| Dispatch.DroppedOffKeepsNoIdleAssigned | src/UserExamples/RandomDestinationFleetManager.java:203-232 | The DROPPED_OFF branch makes the delivering agent idle only with a null assignment. |
| Dispatch.ExpiredKeepsNoIdleAssigned | src/UserExamples/RandomDestinationFleetManager.java:233-239 | The EXPIRED branch frees the assigned agent and removes its assignment entry. |
| Dispatch.IntroducedKeepsNoIdleAssigned | src/UserExamples/RandomDestinationFleetManager.java:146-150 | Introducing an unassigned agent keeps idle agents unassigned. |
| Dispatch.CountsStep | src/UserExamples/RandomDestinationFleetManager.java:154-159 | One loop step keeps the per-length agent counts exact. |
| Dispatch.GetStats | src/UserExamples/RandomDestinationFleetManager.java:152-162 | A history length is listed iff some agent has it, with the number of such agents. |
| RouteCursor.PlanRouteToTarget | src/UserExamples/RandomDestinationFleetManager.java:384-391 | The path from the end of the source road to the start of the destination road, without its first intersection. |
| RouteCursor.CruiseRoute | src/UserExamples/RandomDestinationFleetManager.java:369-381 | Only AM records absent regions, exactly as its route search does. The random policy drives to a map intersection, minus one hop. Every other non-empty cruise route ends at an intersection of an indexed candidate region other than the agent's own cell. |
| RouteCursor.PlanRoute | src/UserExamples/RandomDestinationFleetManager.java:359-382 | An assigned agent is routed to its pickup without touching the absent set; otherwise the manager's cruising route is used. |
| RouteCursor.Advance | src/UserExamples/RandomDestinationFleetManager.java:272-276 | The head is handed out and the tail kept. The agent is placed at the start of the road to the head. Nothing is handed out iff the queue is empty. |
| RouteCursor.OnReachIntersection | src/UserExamples/RandomDestinationFleetManager.java:259-277 | The time is recorded and the invariant kept. A non-empty queue is advanced without planning; an empty one is replaced by a fresh plan first. |
| RouteCursor.OnReachIntersectionWithResource | src/UserExamples/RandomDestinationFleetManager.java:289-305 | A carrying agent's empty queue is refilled with the path from the pickup to the drop-off, then advanced. The agent is recorded at the start of the road to the handed-out intersection; with nothing handed out its location is unchanged. |
| RouteCursor.OnReachIntersectionWithResourceAM | src/COMSETsystem/AMFleetManager.java:546-549 | The second intersection of the path to the drop-off road, or none when the path is shorter. |
| RouteCursor.WithResourceManagersAgree | src/COMSETsystem/AMFleetManager.java:546-549 | With an empty queue, and the agent's road ending where the pickup road does, both managers steer a carrying agent alike. |
| RouteCursor.ReachKeepsNoIdleAssigned | src/COMSETsystem/AMFleetManager.java:516-531 | Reaching an intersection never assigns an idle agent. |
| ResourceEvents.Create | src/COMSETsystem/ResourceEvent.java:61-70 | A new event is AVAILABLE, caused by BECOME_AVAILABLE, scheduled at its appearance. It expires one maximum lifetime later and carries the map's pickup-to-drop-off trip time. |
| ResourceEvents.Available | src/COMSETsystem/ResourceEvent.java:121-129 | The resource is counted once and joins the waiting set. The event returns at its expiration time in state EXPIRED after a WAITING notice with no agent. |
| ResourceEvents.Expire | src/COMSETsystem/ResourceEvent.java:131-141 | One more expiry, charged the maximum lifetime as wait. The resource leaves the waiting set. The manager is told EXPIRED with the picking agent or -1, that agent is released, and nothing is rescheduled. |
| ResourceEvents.Trigger | src/COMSETsystem/ResourceEvent.java:84-101 | AVAILABLE fires available(), EXPIRED fires expire(), and ASSIGNED changes nothing and returns nothing. |
| ResourceEvents.TriggerNeverAssigns | src/COMSETsystem/ResourceEvent.java:84-141 | Firing a non-ASSIGNED event always leaves it EXPIRED, never ASSIGNED. |
| ResourceEvents.AssignedTo | src/COMSETsystem/ResourceEvent.java:103-107 | Pickup time and agent are recorded, the state is unchanged, and PICKED_UP is notified with the drop-off location. |
| ResourceEvents.DropOff | src/COMSETsystem/ResourceEvent.java:109-119 | Wait grows by pickup − appearance and trip by drop-off − pickup; one more assignment is counted. DROPPED_OFF is notified. |
| ResourceEvents.DropOffWaitAtMostExpiry | src/COMSETsystem/ResourceEvent.java:109-141 | A resource picked up by its expiration is charged no more wait than expiry would charge. |
| ResourceEvents.UnservedLifecycle | src/COMSETsystem/ResourceEvent.java:61-141 | Created, triggered and triggered again, a resource is counted once and expired once. It is charged the maximum lifetime, waits in between and no longer waits at the end. |
| ResourceEvents.ExpireHandler | src/COMSETsystem/ResourceEvent.java:223-229 | One more expiry, charged the maximum lifetime, and the resource leaves the waiting set. |
| ResourceEvents.ExpireHandlerMatchesExpire | src/COMSETsystem/ResourceEvent.java:131-229 | Both expiry paths leave the simulator counters in the same state. |
| ResourceEvents.PositionOf | src/COMSETsystem/ResourceEvent.java:163-165 | An empty agent sits on its road, (agent.time − now) short of the road's end. |
| ResourceEvents.ArrivalOf | src/COMSETsystem/ResourceEvent.java:166-167 | The arrival is the event time plus the travel time from that position to the pickup. |
| ResourceEvents.BestAgent | src/COMSETsystem/ResourceEvent.java:151-173 | The strict-`<` loop finds no agent iff there are none, else the first agent of earliest arrival and that arrival. |
| ResourceEvents.RemoveAt | src/COMSETsystem/ResourceEvent.java:200 | Removing the assigned agent takes exactly one copy of it out of the empty agents. |
| ResourceEvents.BecomeAvailableHandler | src/COMSETsystem/ResourceEvent.java:146-218 | The resource is counted once. There is no assignment iff every empty agent arrives after the deadline; the result is then the deferral. Otherwise it is the assignment to the first agent of earliest arrival. The search total stays cruise plus approach. |
| ResourceEvents.Defer | src/COMSETsystem/ResourceEvent.java:175-180 | The resource joins the waiting set and the event returns one maximum lifetime later as an expiry. No other counter changes. |
| ResourceEvents.Assign | src/COMSETsystem/ResourceEvent.java:181-216 | Cruise time since the search started, approach time, resource wait and trip time are added, and one more assignment is counted. Exactly one copy of the agent leaves the empty agents. The agent drops off a trip time after it arrives. |
| ResourceEvents.HandlerPicksEarliest | src/COMSETsystem/ResourceEvent.java:150-205 | The assigned agent arrives by the deadline, no later than any empty agent, and strictly earlier than those before it. The wait charged is at most the maximum lifetime. |
| ResourceEvents.ArgMinIsEarliest | src/COMSETsystem/ResourceEvent.java:154-173 | The loop's winner arrives no later than any empty agent and strictly earlier than every agent ahead of it. |
| ResourceEvents.EarliestWithinDeadline | src/COMSETsystem/ResourceEvent.java:175 | If any agent makes the deadline, so does the earliest one. |
| ResourceEvents.UnplacedThenExpired | src/COMSETsystem/ResourceEvent.java:175-229 | A resource the handler could not place is counted once, expired once, charged its lifetime, and no longer waits. |
| ResourceEvents.SearchSplitsPreserved | src/COMSETsystem/ResourceEvent.java:183-193 | Every counter update keeps total search time equal to total cruise plus approach time. |

## Left out

- File reading is left out: `readRegionList`, `readPickupMatrix`, `readDropOffMatrix` and `readRegionFrequencyFile`, with their BufferedReader I/O and exception printing. Only the pure per-row step of the matrix readers is modelled (`Demand.DistributeRow`). The RandomDestination readers stop at the region list's length. The AM pickup reader has no such guard and would throw on a longer row; that exception is not modelled.
- Logging, `System.out` output, and the per-notification printing of `getStats` have no effect on the decisions and are not modelled.
- The map, H3 and calendar collaborators are uninterpreted functions in `Env`. These are travel times, shortest paths, roads, cells, rings, H3 distance, time buckets and `getCurrentLocation`.
- Randomness is a `Dice` parameter: the uniform draw, the index inside a region and the per-agent `Random` index. Each index is reduced modulo the list size. The seeding of `ThreadLocalRandom` and `new Random(agentId)` is not modelled.
- HashMap iteration order is modelled as first-occurrence order of the candidate list. The source's order is unspecified.
- `float` and `double` arithmetic is exact `real` arithmetic, and `long` is unbounded `int`. Rounding, overflow and the `Long.MAX_VALUE` sentinel are not modelled; an absent best candidate takes the sentinel's place.
- Cruising.ExpandFrom: the `do`-`while` radius search is bounded by a `fuel` parameter. An unbounded search that never finds an indexed cell does not terminate in the source.
- RouteCursor.Advance: when a planned route is empty, the source polls `null` and dereferences it. The model hands out nothing and leaves the location unchanged.
- Cruising.CruiseTarget: when `sample_regions` returns null (no candidates, every net value zero, or a `float` running sum that ends below the draw), `selectIntersection(null)` prints a warning and returns null (RandomDestinationFleetManager.java:499-500), and that null reaches the path search (RandomDestinationFleetManager.java:596 and 657, AMFleetManager.java:468). The model returns no target and an empty route instead of following the null into the map.
- Cruising.SampleAlwaysSelects: the source's `float` running sum (RandomDestinationFleetManager.java:481-484) can end just below 1, so a draw close to 1 selects nothing. The lemma, and the liveness clauses of `CruiseTarget` and the routes, hold for exact sums only.
- Dispatch.ManagersAgreeUnderNearest: the RandomDestination key is a `float` (RandomDestinationFleetManager.java:336, 446). At epoch-scale arrival times `float` values are 128 s apart, so arrivals that close tie and the lowest id wins, while AM compares `long`s exactly. The two managers agree under exact arithmetic only.
- Demand.TemporalWeight: a bucket index below 0, or past the end of the drop-off series while still inside the pickup series, makes `get(i)` throw (RandomDestinationFleetManager.java:517). The model gives no weight there. The temporal route requires instead that no candidate region's window fails (`Cruising.TemporalDefinedAt`); it does not model the exception leaving the manager.
- Demand.RegionWeightTemporal: the RandomDestination constructor never creates `temporalUtils` and never loads the pickup, drop-off or region-list data (RandomDestinationFleetManager.java:674-677 are commented out), so as configured the TemporalFrequency policy dereferences null at line 505. The model takes a configured `RegionData` and the time bucket from `Env`.
- AM's `getRegionWeightTemporal` is never called by the AM manager and is not modelled separately. It equals the RandomDestination formula without the missing-series check.
- Dispatch.GetStats takes the key set's iteration order as an explicit list of the history's keys. Its result does not depend on that order.
- ResourceEvents: the simulator's event queue (`events.remove`) and the `AgentEvent` internals (`assignedTo`, `setEvent`, `resourceExpired`) are outside this model. Their effects are returned as values: the scheduled drop-off, the released agent, the notice sent.
- The agent event and the `FleetManager.ResourceState.WAITING` value are not part of this model, beyond the notice records `ResourceEvents` returns.
