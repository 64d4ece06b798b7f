# Collision stage of the CARLA traffic manager, in Dafny

The traffic manager drives simulated vehicles through a pipeline of stages.
The collision stage sits between the localization stage and the motion
planner. On every tick it receives a localization frame: one entry per
managed vehicle, holding the vehicle and its buffer of upcoming waypoints.
It decides for each vehicle whether it must yield to some other vehicle
nearby. The resulting hazard flags are written into one of two hazard frames
and handed to the motion planner.

The model covers:

- **Footprints** (`boundary.dfy`, module `Boundary`):
  - the oriented bounding rectangle of a vehicle (`GetBoundary`);
  - the speed-dependent extension length, with its highway override;
  - the walk along the path buffer that yields one left and one right offset point per step;
  - the geodesic boundary `reverse(right) + corners + left` (`GetGeodesicBoundary`).
- **The pairwise decision** (`negotiation.dfy`, module `Negotiation`):
  - the ground-plane ring of a boundary (`GetPolygon`);
  - the overlap test over the pieces of a polygon intersection (`CheckOverlap`);
  - the yield rule (`NegotiateCollision`). Two vehicles less than 2 m apart in height whose geodesic boundaries overlap are compared by clearance. The vehicle whose rectangle is strictly farther from the other's path yields.
- **The stage's tables** (`registry.dfy`, module `Registry`):
  - the id-to-index map that `DataReceiver` fills;
  - the periodic scan of the world for vehicles the traffic manager does not drive, whose table holds handles to them;
  - the refresh that drops dead ones from the table and the vicinity grid.
  
  Each is specified as a function of the old table.
- **The stage object** (`stage.dfy`, module `Stage`): the class `CollisionStage` with:
  - its double-buffered hazard frames;
  - the frame selector, tables, clock reading and messenger versions;
  - the constructor, `Action` for one worker's inclusive index range, `DataReceiver` and `DataSender`.

  In `Action` each vehicle of the range is placed in the vicinity grid
  before the grid is queried for it. So managed vehicles meet each other as
  candidates, just as unmanaged ones do. A managed candidate is read from the
  frame. An unmanaged candidate is read through its handle, as its current
  state in `poses`. Reading one that has left the world throws, and the
  candidate loop catches the throw and skips the candidate.

The computational geometry library is passed in as a value of type
`GeometryLib`, with four function fields: square root, polygon intersection,
polygon area and polygon distance. Only the square root is constrained: it
must be the non-negative square root. The intersection, area and distance
are left uninterpreted. Floats are modelled as reals.

Three behaviours of the code are kept as written:

- **The id-to-index map is never cleared.** `DataReceiver` inserts with a non-overwriting `insert` (`CollisionStage.cpp:138-141`). So entries of vehicles that left the frame persist, and an id keeps the position where it was first seen (`Registry.StaleEntriesPersist`, `Registry.ReorderedFrameKeepsOldPositions`).
- **The first waypoint is read unconditionally.** `front()` of the buffer is read with no emptiness check (`CollisionStage.cpp:241`), so a non-empty buffer is a precondition of the geodesic boundary.
- **The walk lags one waypoint behind.** Step `j` of the walk stands on waypoint `max(j-1, 0)` (`CollisionStage.cpp:241-260`). When the walk takes at least two steps, the first waypoint is used twice. When it takes as many steps as the buffer is long and the buffer holds at least two waypoints, the last waypoint is never used (`Boundary.WalkWaypoint`).

## Model

| member | source | states |
|---|---|---|
| `Types.Length` | TrafficManager/source/pipeline/CollisionStage.cpp:228 | the length of a vector is non-negative and its square is the squared length |
| `Types.MakeUnitVector` | TrafficManager/source/pipeline/CollisionStage.cpp:255 | a vector of positive length, made a unit vector, has squared length one and a projection on the original equal to the original's length, so it is the original divided by its length |
| `Boundary.PerpendicularIsOrthogonal` | TrafficManager/source/pipeline/CollisionStage.cpp:287-289 | the perpendicular `(-h.y, h.x, 0)` is flat, orthogonal to the heading and as long as the heading's ground-plane part |
| `Boundary.GetBoundary` | TrafficManager/source/pipeline/CollisionStage.cpp:281-301 | exactly four corners; both diagonals `c0,c2` and `c1,c3` have the vehicle's location as midpoint |
| `Boundary.BoundarySides` | TrafficManager/source/pipeline/CollisionStage.cpp:293-300 | opposite sides are equal and parallel: twice the half-length along the heading, twice the half-width across it; all corners at the vehicle's height |
| `Boundary.BoundaryIsRectangle` | TrafficManager/source/pipeline/CollisionStage.cpp:287-300 | the length and width axes are orthogonal, so adjacent sides of the corner list meet at a right angle |
| `Boundary.LowSpeedExtension` | TrafficManager/source/pipeline/CollisionStage.cpp:229-231 | the additive extension formula is at least `3 * 1.5 = 4.5` |
| `Boundary.ExtensionLength` | TrafficManager/source/pipeline/CollisionStage.cpp:228-233 | above highway speed `50/3.6` the extension is `5.0 * v`, otherwise the additive formula |
| `Boundary.LowSpeedExtensionMonotone` | TrafficManager/source/pipeline/CollisionStage.cpp:229-231 | the additive formula is at least 4.5 and non-decreasing in speed |
| `Boundary.ExtensionLengthMonotone` | TrafficManager/source/pipeline/CollisionStage.cpp:228-233 | the extension length is non-decreasing in speed, across the highway switch too |
| `Boundary.OffsetPointsStraddleWaypoint` | TrafficManager/source/pipeline/CollisionStage.cpp:252-259 | the left and right points mirror each other through the waypoint, each `width` away from it, across the heading; the left point is the one offset along the perpendicular `(-h.y, h.x, 0)`, by `width` times its length |
| `Boundary.LeftPoint` | TrafficManager/source/pipeline/CollisionStage.cpp:257-258 | the left offset point of a waypoint stays at the waypoint's height; its side of the path is stated by `OffsetPointsStraddleWaypoint` |
| `Boundary.RightPoint` | TrafficManager/source/pipeline/CollisionStage.cpp:257-259 | the right offset point of a waypoint stays at the waypoint's height; it mirrors the left point through the waypoint (`OffsetPointsStraddleWaypoint`) |
| `Boundary.WalkWaypoint` | TrafficManager/source/pipeline/CollisionStage.cpp:241-260 | the waypoint under walk step `j` is one of the buffer's: the first waypoint for steps 0 and 1, waypoint `j-1` from step 1 on |
| `Boundary.StopIndex` | TrafficManager/source/pipeline/CollisionStage.cpp:247-250 | the walk's number of steps lies between its start and the buffer size |
| `Boundary.StopIndexIsFirstExit` | TrafficManager/source/pipeline/CollisionStage.cpp:247-250 | the walk takes steps exactly while the waypoint reached is closer than the extension length to the start, stopping at the first that is not or at the buffer size |
| `Boundary.EdgesGrow` | TrafficManager/source/pipeline/CollisionStage.cpp:257-259 | each step appends one left and one right point |
| `Boundary.SandwichLayout` | TrafficManager/source/pipeline/CollisionStage.cpp:269-272 | in `reverse(right) + middle + left` with `k` points per edge, the middle sits at `k`, left point `j` at `k+|middle|+j`, right point `j` at `k-1-j` |
| `Boundary.ManagedLayout` | TrafficManager/source/pipeline/CollisionStage.cpp:264-272 | the assembled boundary after `k` steps has `2k + |middle|` points, the rectangle in the middle, and each step's offset points at mirrored positions |
| `Boundary.GeodesicBoundary` | TrafficManager/source/pipeline/CollisionStage.cpp:222-279 | the buffer lookup throws (`None`) exactly for a managed actor whose recorded index is outside the frame; an unmanaged actor gets its rectangle unchanged; every result has an even number of points, at least four |
| `Boundary.GeodesicBoundaryLayout` | TrafficManager/source/pipeline/CollisionStage.cpp:224-274 | for a managed actor with a valid index, the result has `2k + 4` points for a walk of `k` steps, with the four corners at `k..k+4` and the offset points of walk step `j` at `k+4+j` (left) and `k-1-j` (right) |
| `Boundary.WalkPath` | TrafficManager/source/pipeline/CollisionStage.cpp:236-261 | the loop's left and right lists are the left and right edges of the first `StopIndex` walk steps |
| `Boundary.GetGeodesicBoundary` | TrafficManager/source/pipeline/CollisionStage.cpp:222-279 | the method computes the geodesic boundary function, `None` where the buffer lookup throws |
| `Negotiation.GetPolygon` | TrafficManager/source/pipeline/CollisionStage.cpp:208-220 | the ring is the ground-plane projection of the boundary, closed by repeating its first point |
| `Negotiation.PolygonIgnoresHeight` | TrafficManager/source/pipeline/CollisionStage.cpp:210-214 | boundaries that agree in `x` and `y` give the same ring |
| `Negotiation.CheckOverlap` | TrafficManager/source/pipeline/CollisionStage.cpp:185-206 | true iff both boundaries are non-empty and some intersection piece has area above 0.0001; the early exit does not change the answer |
| `Negotiation.Overlap` | TrafficManager/source/pipeline/CollisionStage.cpp:185-206 | boundaries overlap only when both are non-empty |
| `Negotiation.NegotiationOutcome` | TrafficManager/source/pipeline/CollisionStage.cpp:153-183 | vehicles 2 m or more apart in height get `false` without any boundary being computed; a throw (`None`) comes only from a stale index of one of the two vehicles |
| `Negotiation.NegotiateCollision` | TrafficManager/source/pipeline/CollisionStage.cpp:153-183 | the method's answer is the negotiation outcome: height gate, then overlap and strict clearance comparison, `None` when a boundary lookup throws |
| `Negotiation.VerticallySeparatedNeverYield` | TrafficManager/source/pipeline/CollisionStage.cpp:157-159 | vehicles 2 m or more apart in height never yield, in either order |
| `Negotiation.AtMostOneYields` | TrafficManager/source/pipeline/CollisionStage.cpp:171-179 | of two vehicles, at most one has to yield to the other |
| `Negotiation.TieNeitherYields` | TrafficManager/source/pipeline/CollisionStage.cpp:171-179 | with equal clearances neither vehicle yields |
| `Negotiation.NeverYieldsToItself` | TrafficManager/source/pipeline/CollisionStage.cpp:171-179 | a vehicle never yields to itself |
| `Negotiation.YieldMeansOverlap` | TrafficManager/source/pipeline/CollisionStage.cpp:159-179 | yielding implies closeness in height, existing and overlapping geodesic boundaries, and a strictly larger clearance |
| `Negotiation.NegotiationFailsOnStaleIndex` | TrafficManager/source/pipeline/CollisionStage.cpp:226-234 | the negotiation throws exactly when the vehicles are close in height and one of them has a recorded index outside the frame |
| `Negotiation.UnmanagedActorUsesRectangle` | TrafficManager/source/pipeline/CollisionStage.cpp:275-277 | against an actor missing from `id_to_index`, the decision uses that actor's rectangle as its path footprint |
| `Registry.FrameIds` | TrafficManager/source/pipeline/CollisionStage.cpp:139-140 | one id per frame entry, in frame order |
| `Registry.Register` | TrafficManager/source/pipeline/CollisionStage.cpp:138-141 | after the insertions every id of the frame is a key, no other key is added, and existing entries keep their index |
| `Registry.RegisterStep` | TrafficManager/source/pipeline/CollisionStage.cpp:140 | one more insertion adds the id at its position only when the id is absent |
| `Registry.RegisterFirstOccurrence` | TrafficManager/source/pipeline/CollisionStage.cpp:138-141 | an id absent before receipt maps to its first 0-based position in the frame |
| `Registry.RegisterFreshFrame` | TrafficManager/source/pipeline/CollisionStage.cpp:138-141 | into an empty map, a frame with distinct ids registers each vehicle at its frame position |
| `Registry.StaleEntriesPersist` | TrafficManager/source/pipeline/CollisionStage.cpp:138-141 | an illustration of `Register`'s second ensures: after frames `[7, 8]` and `[8]`, vehicle 7 is still mapped and vehicle 8 keeps index 1, outside the new frame |
| `Registry.ReorderedFrameKeepsOldPositions` | TrafficManager/source/pipeline/CollisionStage.cpp:138-141 | an illustration of `Register`'s second ensures: after frames `[7, 8]` and `[8, 7]` both vehicles keep their first positions, which no longer match the frame |
| `Registry.Scan` | TrafficManager/source/pipeline/CollisionStage.cpp:59-66 | the table gains exactly the world ids absent from `id_to_index`; existing entries are never replaced; every new entry is a world actor with that id |
| `Registry.ScanKeepsFirstListed` | TrafficManager/source/pipeline/CollisionStage.cpp:60-65 | among world actors sharing an id, the first listed is the one inserted |
| `Registry.ScanAddsOnlyUnmanaged` | TrafficManager/source/pipeline/CollisionStage.cpp:62-64 | a scan never adds an id the traffic manager drives |
| `Registry.ScanIdempotent` | TrafficManager/source/pipeline/CollisionStage.cpp:59-66 | scanning the same world twice is the same as scanning it once |
| `Registry.RefreshTable` | TrafficManager/source/pipeline/CollisionStage.cpp:70-82 | exactly the alive entries remain, with their actors unchanged |
| `Registry.RefreshGrid` | TrafficManager/source/pipeline/CollisionStage.cpp:72-79 | an unregistered actor is tracked by the grid after the refresh iff it is alive; other ids are untouched |
| `Stage.Resolve` | TrafficManager/source/pipeline/CollisionStage.cpp:103-110 | a managed id resolves to the frame's actor at its index, and throws when the index is outside the frame; an id of the unregistered table resolves to the actor's current state, and throws when the actor is no longer in the world; with consistent states that actor carries the id looked up; an id in neither map is unknown (a null handle) |
| `Stage.VehicleHazard` | TrafficManager/source/pipeline/CollisionStage.cpp:94-122 | the flag is true iff some candidate other than the vehicle itself resolves, lies within squared distance 400 and negotiates true; throwing candidates are skipped; the early exit does not change the result |
| `Stage.SelfIsNoHazard` | TrafficManager/source/pipeline/CollisionStage.cpp:101 | a vicinity holding only the vehicle itself gives no hazard |
| `Stage.UnregisteredCandidateUsesRectangle` | TrafficManager/source/pipeline/CollisionStage.cpp:106-112 | an unregistered candidate that resolves is the actor with that id, its path footprint is its bounding rectangle, and a hazard from it means the ego's geodesic boundary overlaps that rectangle |
| `Stage.DeadUnregisteredIsNoHazard` | TrafficManager/source/pipeline/CollisionStage.cpp:106-120 | an unregistered candidate no longer in the world throws on the read of its location; the throw is caught and it is never a hazard |
| `Stage.EgoIdsContains` | TrafficManager/source/pipeline/CollisionStage.cpp:86-93 | every vehicle the range has reached, the querying one included, is tracked by the grid when it is queried |
| `Stage.EgoIdsOnlyRange` | TrafficManager/source/pipeline/CollisionStage.cpp:86-93 | the vehicle loop adds to the grid nothing but the vehicles of its range |
| `Stage.FlagVehicle` | TrafficManager/source/pipeline/CollisionStage.cpp:88-125 | the vehicle's slot gets its hazard flag against the candidates of its grid query; no other slot changes |
| `Stage.FlagRange` | TrafficManager/source/pipeline/CollisionStage.cpp:86-127 | each vehicle of the inclusive range is placed in the grid before its query; its slot gets its hazard flag against the grid holding the vehicles reached so far; the grid left behind tracks the whole range; no other slot changes |
| `Stage.ScanWorld` | TrafficManager/source/pipeline/CollisionStage.cpp:59-66 | the scan loop computes `Scan` of the old table and the world's vehicles |
| `Stage.ScanIfDue` | TrafficManager/source/pipeline/CollisionStage.cpp:54-68 | the table is scanned when more than 0.5 s have passed since the last scan, and left alone otherwise |
| `Stage.IndexFrame` | TrafficManager/source/pipeline/CollisionStage.cpp:138-141 | the insertion loop computes `Register` of the old map and the frame's ids |
| `Stage.CollisionStage.CurrentFrame` | TrafficManager/source/pipeline/CollisionStage.cpp:49 | the frame written is one of the two hazard frames |
| `Stage.CollisionStage.constructor` | TrafficManager/source/pipeline/CollisionStage.cpp:17-43 | two fresh, distinct, cleared hazard frames of one slot per vehicle, frame A selected, empty tables, the clock reading stored, the planner version one behind |
| `Stage.CollisionStage.ScanUnregistered` | TrafficManager/source/pipeline/CollisionStage.cpp:53-68 | after more than 0.5 s the table becomes its scan and the scan time is recorded; otherwise nothing changes |
| `Stage.CollisionStage.RefreshUnregistered` | TrafficManager/source/pipeline/CollisionStage.cpp:70-82 | the table and grid become their refreshed versions, with dead ids erased after the pass; the grid stays within the known actors |
| `Stage.CollisionStage.Action` | TrafficManager/source/pipeline/CollisionStage.cpp:47-128 | the worker at index 0 scans and refreshes first; every vehicle of `[start, end]` is placed in the grid, and its slot of the current frame gets its hazard flag against the refreshed tables, the actors' current states and the grid holding the vehicles reached so far; the grid ends up tracking the whole range; no other slot and no other field changes |
| `Stage.CollisionStage.DataReceiver` | TrafficManager/source/pipeline/CollisionStage.cpp:130-142 | the frame and version are stored and `id_to_index` becomes `Register` of its old value and the frame's ids |
| `Stage.CollisionStage.DataSender` | TrafficManager/source/pipeline/CollisionStage.cpp:144-151 | the frame written this tick is sent under the current planner version; the selector flips to the other frame; the returned version is stored |

## Left out

- Boost.Geometry intersection, area and distance are foreign floating-point geometry. They are uninterpreted fields of `GeometryLib`, so no symmetry of the overlap test is claimed.
- `GetPolygon` goes through a WKT string built with `std::to_string` (six decimals) and `bg::read_wkt`. The model keeps the ring itself and not the rounding to six decimals.
- Float arithmetic and its rounding are modelled as real arithmetic. `std::sqrt` is an abstract non-negative square root.
- `Boundary.ExtensionLength`: the C++ constants are `float` (`50 / 3.6f`). The model uses the exact real `50.0 / 3.6`.
- Concurrency is not modelled. This covers the worker thread pool, the partitioning of index ranges and the `PipelineStage` base class. It also covers the unsynchronised sharing of the tables between the index-0 worker and the others. One worker runs sequentially.
- Messenger hand-shakes are not modelled: `ReceiveData`, `SendData` and `GetState` block. The versions they return are parameters: `packet.id` for `DataReceiver`, `nextState` for `DataSender`, and the constructor's two states.
- The system clock is a `now` parameter holding seconds.
- Four parts of the simulator are inputs:
  - `world.GetActors()->Filter("vehicle.*")` is the sequence `world`;
  - `IsAlive` is the set `alive`;
  - the states read through actor handles of the unregistered table are the map `poses`, which holds the current state of every actor still in the world. Each state carries the id it is stored under (`Stage.PosesConsistent`), as a handle reads its own actor;
  - the vicinity grid is the set of ids it tracks, and its neighbourhood query is the function `neighbours`. `VicinityGrid.cpp` is not part of this model. Its query `GetActors(ego)` is modelled as first placing the querying vehicle in the grid, as `UpdateGrid` does, and then returning only tracked ids (`Stage.QueryWithinGrid`). Which tracked ids count as near is left to `neighbours`.
- `Stage.Resolve`: managed vehicles are read from the frame as it was received, not through their live handles. A handle of the unregistered table whose actor has left the world is modelled as a throwing read; the C++ exception type is not modelled.
- `Stage.CollisionStage.Action`: a candidate found in neither table is dereferenced as a null handle, which is undefined behaviour. The model excludes it, by invariant: the grid only tracks ids one of the tables knows (`Valid`). The refresh keeps that invariant, and the vehicle loop does too, since every vehicle of the frame is registered in `id_to_index` on receipt.
- `Stage.CollisionStage.Action`: the range `[start, end]` must lie inside the frame and the hazard frame. The out-of-range `at()` of the vehicle loop itself is not modelled as an exception.
- `Boundary.GetGeodesicBoundary`: every waypoint buffer of the frame must be non-empty, and every heading must have a non-zero ground-plane part. The code reads `front()` of an empty buffer, and a zero heading gives a NaN unit vector in the C++; neither is modelled.
- The exception path of `at()` on a stale index is modelled as `None`, or as a skipped candidate. The warning messages it logs are left out.
- `DrawBoundary` is debug drawing and is left out.
- The destructor is empty and is left out.
