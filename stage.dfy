/**
 * The collision stage itself: the state it keeps between ticks, the
 * per-tick work of one worker over an inclusive range of vehicles, and the
 * hand-over of frames with the neighbouring pipeline stages.
 */
module Stage {
  import opened Types
  import opened Boundary
  import opened Negotiation
  import opened Registry

  /** What reading a candidate id against the two actor tables gives. */
  datatype Lookup = Found(actor: Actor) | Throws | Unknown

  /**
   * The current states read through actor handles: the state read through
   * the handle of actor `id` is that same actor's, so it carries `id`.
   */
  predicate PosesConsistent(poses: map<ActorId, Actor>) {
    forall id :: id in poses ==> poses[id].id == id
  }

  /**
   * A managed id is read from the frame at its recorded index, which throws
   * when the index lies outside the frame. Any other id is looked up in the
   * unregistered-actor table; the table holds handles, and the state read
   * through one is the actor's current state in `poses`, a read that throws
   * for an actor no longer in the world. An id in neither table leaves the
   * actor handle null.
   */
  function Resolve(idToIndex: map<ActorId, nat>, frame: seq<LocalizationData>, table: map<ActorId, Actor>,
                   poses: map<ActorId, Actor>, id: ActorId): (l: Lookup)
    ensures l.Unknown? <==> id !in idToIndex && id !in table
    ensures l.Throws? <==> if id in idToIndex then idToIndex[id] >= |frame| else id in table && id !in poses
    ensures l.Found? && id in idToIndex ==> l.actor == frame[idToIndex[id]].actor
    ensures l.Found? && id !in idToIndex ==> l.actor == poses[id]
    ensures l.Found? && id !in idToIndex && PosesConsistent(poses) ==> l.actor.id == id
  {
    if id in idToIndex then
      if idToIndex[id] < |frame| then Found(frame[idToIndex[id]].actor) else Throws
    else if id in table then
      if id in poses then Found(poses[id]) else Throws
    else
      Unknown
  }

  /**
   * Candidate `id` is a hazard for `ego`: it is another actor, it resolves,
   * it lies within `SearchRadius` of the ego vehicle, and the negotiation
   * says the ego vehicle yields to it.
   */
  ghost predicate CandidateHazard(lib: GeometryLib, idToIndex: map<ActorId, nat>, frame: seq<LocalizationData>,
                                  table: map<ActorId, Actor>, poses: map<ActorId, Actor>, ego: Actor, id: ActorId)
    requires ValidLib(lib) && FrameWellFormed(frame)
  {
    && id != ego.id
    && match Resolve(idToIndex, frame, table, poses, id)
       case Found(other) =>
         && DistanceSquared(ego.location, other.location) <= SearchRadius * SearchRadius
         && NegotiationOutcome(lib, idToIndex, frame, ego, other) == Some(true)
       case _ => false
  }

  /** The hazard flag of a vehicle: some candidate of its vicinity is a hazard for it. */
  ghost predicate EgoHazard(lib: GeometryLib, idToIndex: map<ActorId, nat>, frame: seq<LocalizationData>,
                            table: map<ActorId, Actor>, poses: map<ActorId, Actor>, ego: Actor, candidates: seq<ActorId>)
    requires ValidLib(lib) && FrameWellFormed(frame)
  {
    exists k :: 0 <= k < |candidates| && CandidateHazard(lib, idToIndex, frame, table, poses, ego, candidates[k])
  }

  /** Every candidate other than the ego vehicle is in one of the two tables. */
  predicate Resolvable(idToIndex: map<ActorId, nat>, table: map<ActorId, Actor>, ego: Actor, candidates: seq<ActorId>) {
    forall k :: 0 <= k < |candidates| && candidates[k] != ego.id ==> candidates[k] in idToIndex || candidates[k] in table
  }

  /**
   * The candidate loop of `Action` for one vehicle: it stops at the first
   * hazard; a candidate whose lookup or negotiation throws is skipped.
   */
  method VehicleHazard(lib: GeometryLib, idToIndex: map<ActorId, nat>, frame: seq<LocalizationData>,
                       table: map<ActorId, Actor>, poses: map<ActorId, Actor>, ego: Actor, candidates: seq<ActorId>)
      returns (hazard: bool)
    requires ValidLib(lib) && FrameWellFormed(frame) && PosesConsistent(poses)
    requires Resolvable(idToIndex, table, ego, candidates)
    ensures hazard == EgoHazard(lib, idToIndex, frame, table, poses, ego, candidates)
  {
    hazard := false;
    var k := 0;
    while k < |candidates| && !hazard
      invariant 0 <= k <= |candidates|
      invariant hazard <==> exists m :: 0 <= m < k && CandidateHazard(lib, idToIndex, frame, table, poses, ego, candidates[m])
    {
      var id := candidates[k];
      if id != ego.id {
        match Resolve(idToIndex, frame, table, poses, id)
        case Found(other) =>
          var squaredDistance := DistanceSquared(ego.location, other.location);
          if squaredDistance <= SearchRadius * SearchRadius {
            var negotiated := NegotiateCollision(lib, idToIndex, frame, ego, other);
            if negotiated == Some(true) {
              hazard := true;
            }
          }
        case Throws =>
        case Unknown =>
          assert false;
      }
      k := k + 1;
    }
  }

  /**
   * An unregistered candidate that resolves is judged by its own rectangle:
   * its id is not in `idToIndex`, so its geodesic boundary is its bounding
   * box, and a hazard from it means the ego vehicle's path overlaps that box.
   */
  lemma UnregisteredCandidateUsesRectangle(lib: GeometryLib, idToIndex: map<ActorId, nat>, frame: seq<LocalizationData>,
                                           table: map<ActorId, Actor>, poses: map<ActorId, Actor>, ego: Actor, id: ActorId)
    requires ValidLib(lib) && FrameWellFormed(frame) && PosesConsistent(poses)
    requires id !in idToIndex && Resolve(idToIndex, frame, table, poses, id).Found?
    ensures var other := Resolve(idToIndex, frame, table, poses, id).actor;
            && other.id == id
            && GeodesicBoundary(lib, idToIndex, frame, other) == Some(GetBoundary(other))
    ensures CandidateHazard(lib, idToIndex, frame, table, poses, ego, id) ==>
              var other := Resolve(idToIndex, frame, table, poses, id).actor;
              var egoGeodesic := GeodesicBoundary(lib, idToIndex, frame, ego);
              egoGeodesic.Some? && Overlap(lib, egoGeodesic.value, GetBoundary(other))
  {
    var other := Resolve(idToIndex, frame, table, poses, id).actor;
    if CandidateHazard(lib, idToIndex, frame, table, poses, ego, id) {
      YieldMeansOverlap(lib, idToIndex, frame, ego, other);
    }
  }

  /** An ego vehicle never counts itself as a hazard, whatever the vicinity returns. */
  lemma SelfIsNoHazard(lib: GeometryLib, idToIndex: map<ActorId, nat>, frame: seq<LocalizationData>,
                       table: map<ActorId, Actor>, poses: map<ActorId, Actor>, ego: Actor, candidates: seq<ActorId>)
    requires ValidLib(lib) && FrameWellFormed(frame)
    requires forall k :: 0 <= k < |candidates| ==> candidates[k] == ego.id
    ensures !EgoHazard(lib, idToIndex, frame, table, poses, ego, candidates)
  {
  }

  /**
   * A vicinity query returns only ids the grid tracks. The query of the
   * vicinity grid is made after the querying vehicle has been placed in it.
   */
  ghost predicate QueryWithinGrid(neighbours: (set<ActorId>, Actor) -> seq<ActorId>) {
    forall grid, ego, k :: 0 <= k < |neighbours(grid, ego)| ==> neighbours(grid, ego)[k] in grid
  }

  /** Every vehicle of the frame has an entry in `idToIndex`. */
  predicate FrameRegistered(idToIndex: map<ActorId, nat>, frame: seq<LocalizationData>) {
    forall i :: 0 <= i < |frame| ==> frame[i].actor.id in idToIndex
  }

  /** The ids of the vehicles at positions `lo` up to, but excluding, `hi` of the frame. */
  function EgoIds(frame: seq<LocalizationData>, lo: nat, hi: nat): set<ActorId>
    decreases hi
  {
    if hi <= lo then {}
    else EgoIds(frame, lo, hi - 1) + (if hi - 1 < |frame| then {frame[hi - 1].actor.id} else {})
  }

  /** The ids of a registered frame are keys of `idToIndex`. */
  lemma {:induction false} EgoIdsRegistered(idToIndex: map<ActorId, nat>, frame: seq<LocalizationData>, lo: nat, hi: nat)
    requires FrameRegistered(idToIndex, frame)
    ensures EgoIds(frame, lo, hi) <= idToIndex.Keys
    decreases hi
  {
    if lo < hi {
      EgoIdsRegistered(idToIndex, frame, lo, hi - 1);
    }
  }

  /**
   * Every vehicle at a position from `lo` up to `hi` of the frame is in
   * `EgoIds`, so the vehicles a worker has already placed, and the querying
   * vehicle itself, are tracked when the grid is queried.
   */
  lemma {:induction false} EgoIdsContains(frame: seq<LocalizationData>, lo: nat, hi: nat, j: nat)
    requires lo <= j < hi && j < |frame|
    ensures frame[j].actor.id in EgoIds(frame, lo, hi)
    decreases hi
  {
    if j < hi - 1 {
      EgoIdsContains(frame, lo, hi - 1, j);
    }
  }

  /** `EgoIds` holds nothing but the ids of vehicles at positions from `lo` up to `hi`. */
  lemma {:induction false} EgoIdsOnlyRange(frame: seq<LocalizationData>, lo: nat, hi: nat, id: ActorId)
    requires id in EgoIds(frame, lo, hi)
    ensures exists j :: lo <= j < hi && j < |frame| && frame[j].actor.id == id
    decreases hi
  {
    if id in EgoIds(frame, lo, hi - 1) {
      EgoIdsOnlyRange(frame, lo, hi - 1, id);
    } else {
      assert frame[hi - 1].actor.id == id;
    }
  }

  /**
   * An unregistered candidate that is no longer in the world reads as a
   * throw, which the candidate loop catches: it is never a hazard.
   */
  lemma DeadUnregisteredIsNoHazard(lib: GeometryLib, idToIndex: map<ActorId, nat>, frame: seq<LocalizationData>,
                                   table: map<ActorId, Actor>, poses: map<ActorId, Actor>, ego: Actor, id: ActorId)
    requires ValidLib(lib) && FrameWellFormed(frame)
    requires id !in idToIndex && id in table && id !in poses
    ensures !CandidateHazard(lib, idToIndex, frame, table, poses, ego, id)
  {
  }

  /** A query of a grid that tracks only known actors returns only resolvable candidates. */
  lemma QueryResolvable(neighbours: (set<ActorId>, Actor) -> seq<ActorId>, grid: set<ActorId>, ego: Actor,
                        idToIndex: map<ActorId, nat>, table: map<ActorId, Actor>)
    requires QueryWithinGrid(neighbours) && grid <= idToIndex.Keys + table.Keys
    ensures Resolvable(idToIndex, table, ego, neighbours(grid, ego))
  {
    var candidates := neighbours(grid, ego);
    forall k | 0 <= k < |candidates|
      ensures candidates[k] in idToIndex || candidates[k] in table
    {
      assert candidates[k] in grid;
    }
  }

  /** The flag the vehicle loop writes for position `i` of a range that starts at `startIndex`. */
  ghost predicate SlotHazard(lib: GeometryLib, idToIndex: map<ActorId, nat>, frame: seq<LocalizationData>,
                             table: map<ActorId, Actor>, poses: map<ActorId, Actor>, grid: set<ActorId>,
                             neighbours: (set<ActorId>, Actor) -> seq<ActorId>, startIndex: nat, i: nat)
    requires ValidLib(lib) && FrameWellFormed(frame) && i < |frame|
  {
    EgoHazard(lib, idToIndex, frame, table, poses, frame[i].actor,
              neighbours(grid + EgoIds(frame, startIndex, i + 1), frame[i].actor))
  }

  /** One pass of the vehicle loop: query the grid for the vehicle at `i` and write its hazard flag to slot `i`. */
  method FlagVehicle(out: array<bool>, i: nat, lib: GeometryLib,
                     idToIndex: map<ActorId, nat>, frame: seq<LocalizationData>, table: map<ActorId, Actor>,
                     poses: map<ActorId, Actor>, grid: set<ActorId>, neighbours: (set<ActorId>, Actor) -> seq<ActorId>)
    requires ValidLib(lib) && FrameWellFormed(frame) && PosesConsistent(poses)
    requires QueryWithinGrid(neighbours) && grid <= idToIndex.Keys + table.Keys
    requires i < |frame| && i < out.Length
    modifies out
    ensures out[i] == EgoHazard(lib, idToIndex, frame, table, poses, frame[i].actor, neighbours(grid, frame[i].actor))
    ensures forall j :: 0 <= j < out.Length && j != i ==> out[j] == old(out[j])
  {
    var ego := frame[i].actor;
    var candidates := neighbours(grid, ego);
    QueryResolvable(neighbours, grid, ego, idToIndex, table);
    var hazard := VehicleHazard(lib, idToIndex, frame, table, poses, ego, candidates);
    out[i] := hazard;
  }

  /**
   * The vehicle loop of `Action`: for every index of the inclusive range, the
   * vehicle at that position of the frame is placed in the vicinity grid, the
   * grid is queried for its candidates, and its hazard flag is written to
   * the same slot of `out`; no other slot changes. The grid the loop leaves
   * behind tracks every vehicle of the range.
   */
  method FlagRange(out: array<bool>, startIndex: nat, endIndex: nat, lib: GeometryLib,
                   idToIndex: map<ActorId, nat>, frame: seq<LocalizationData>, table: map<ActorId, Actor>,
                   poses: map<ActorId, Actor>, grid: set<ActorId>, neighbours: (set<ActorId>, Actor) -> seq<ActorId>)
      returns (tracked: set<ActorId>)
    requires ValidLib(lib) && FrameWellFormed(frame) && FrameRegistered(idToIndex, frame)
    requires PosesConsistent(poses)
    requires QueryWithinGrid(neighbours) && grid <= idToIndex.Keys + table.Keys
    requires startIndex <= endIndex ==> endIndex < |frame| && endIndex < out.Length
    modifies out
    ensures tracked == grid + EgoIds(frame, startIndex, endIndex + 1)
    ensures forall i :: startIndex <= i <= endIndex ==>
              out[i] == EgoHazard(lib, idToIndex, frame, table, poses, frame[i].actor,
                                  neighbours(grid + EgoIds(frame, startIndex, i + 1), frame[i].actor))
    ensures forall i :: 0 <= i < out.Length && !(startIndex <= i <= endIndex) ==> out[i] == old(out[i])
  {
    tracked := grid;
    EgoIdsRegistered(idToIndex, frame, startIndex, endIndex + 1);
    var i := startIndex;
    while i <= endIndex
      invariant startIndex <= i && (i == startIndex || i <= endIndex + 1)
      invariant tracked == grid + EgoIds(frame, startIndex, i)
      invariant forall j :: startIndex <= j < i ==>
                  out[j] == SlotHazard(lib, idToIndex, frame, table, poses, grid, neighbours, startIndex, j)
      invariant forall j :: 0 <= j < out.Length && !(startIndex <= j < i) ==> out[j] == old(out[j])
      decreases endIndex + 1 - i
    {
      var ego := frame[i].actor;
      EgoIdsRegistered(idToIndex, frame, startIndex, i + 1);
      tracked := tracked + {ego.id};
      assert tracked == grid + EgoIds(frame, startIndex, i + 1);
      FlagVehicle(out, i, lib, idToIndex, frame, table, poses, tracked, neighbours);
      i := i + 1;
    }
  }

  /**
   * The scan loop of `Action`: every world vehicle whose id is in neither
   * table is inserted under its id, so the first one listed with an id wins.
   */
  method ScanWorld(table: map<ActorId, Actor>, idToIndex: map<ActorId, nat>, world: seq<Actor>)
      returns (r: map<ActorId, Actor>)
    ensures r == Scan(table, idToIndex, world)
  {
    r := table;
    var k := 0;
    while k < |world|
      invariant 0 <= k <= |world|
      invariant r == Scan(table, idToIndex, world[..k])
    {
      var actor := world[k];
      ScanStep(table, idToIndex, world, k);
      if actor.id !in idToIndex && actor.id !in r {
        r := r[actor.id := actor];
      }
      k := k + 1;
    }
    assert world[..|world|] == world;
  }

  /**
   * The insertion loop of `DataReceiver`: each vehicle's position in the
   * frame is inserted under its id, and an insertion under an id already
   * present changes nothing.
   */
  method IndexFrame(idToIndex: map<ActorId, nat>, frame: seq<LocalizationData>) returns (m: map<ActorId, nat>)
    ensures m == Register(idToIndex, FrameIds(frame))
  {
    var ids := FrameIds(frame);
    m := idToIndex;
    var index := 0;
    while index < |frame|
      invariant 0 <= index <= |frame|
      invariant m == Register(idToIndex, ids[..index])
    {
      var id := frame[index].actor.id;
      RegisterStep(idToIndex, ids, index);
      if id !in m {
        m := m[id := index];
      }
      index := index + 1;
    }
    assert ids[..|ids|] == ids;
  }

  /** The unregistered-actor table after the periodic scan, which runs when more than `UnregisteredScanInterval` seconds have passed since the last one. */
  function ScanIfDue(table: map<ActorId, Actor>, idToIndex: map<ActorId, nat>, world: seq<Actor>,
                     now: real, lastPass: real): (r: map<ActorId, Actor>)
    ensures now - lastPass > UnregisteredScanInterval ==> r == Scan(table, idToIndex, world)
    ensures now - lastPass <= UnregisteredScanInterval ==> r == table
  {
    if now - lastPass > UnregisteredScanInterval then Scan(table, idToIndex, world) else table
  }

  /** The hand-over from the localization stage: a frame and its messenger version. */
  datatype LocalizationPacket = LocalizationPacket(id: int, frame: seq<LocalizationData>)

  /** The hand-over to the motion planner: the messenger version and one of the two hazard frames. */
  datatype PlannerPacket = PlannerPacket(id: int, frame: array<bool>)

  class CollisionStage {
    /** Which of the two hazard frames the stage writes: `plannerFrameA` when true. */
    var frameSelector: bool
    const plannerFrameA: array<bool>
    const plannerFrameB: array<bool>
    const numberOfVehicle: nat
    var idToIndex: map<ActorId, nat>
    var unregisteredActors: map<ActorId, Actor>
    /** The ids the vicinity grid tracks. */
    var vicinityGrid: set<ActorId>
    var localizationFrame: seq<LocalizationData>
    var lastWorldActorsPass: real
    var localizationMessengerState: int
    var plannerMessengerState: int

    /**
     * Two distinct hazard frames with one slot per vehicle, every vehicle of
     * the frame registered in `idToIndex`, and a grid that tracks only actors
     * one of the two tables knows.
     */
    ghost predicate Valid()
      reads this
    {
      && plannerFrameA != plannerFrameB
      && plannerFrameA.Length == numberOfVehicle && plannerFrameB.Length == numberOfVehicle
      && FrameRegistered(idToIndex, localizationFrame)
      && vicinityGrid <= idToIndex.Keys + unregisteredActors.Keys
    }

    /** The hazard frame the stage writes in the current tick. */
    function CurrentFrame(): (f: array<bool>)
      reads this
      ensures f == plannerFrameA || f == plannerFrameB
    {
      if frameSelector then plannerFrameA else plannerFrameB
    }

    /**
     * A stage with two fresh hazard frames of `numberOfVehicle` cleared
     * slots, writing frame A first, with empty tables, the clock reading of
     * its creation as the last world scan, and a planner messenger version
     * one behind, so that the first send goes ahead.
     */
    constructor(numberOfVehicle: nat, now: real, localizationState: int, plannerState: int)
      ensures Valid()
      ensures fresh(plannerFrameA) && fresh(plannerFrameB)
      ensures frameSelector && CurrentFrame() == plannerFrameA
      ensures this.numberOfVehicle == numberOfVehicle
      ensures forall i :: 0 <= i < numberOfVehicle ==> !plannerFrameA[i] && !plannerFrameB[i]
      ensures idToIndex == map[] && unregisteredActors == map[] && vicinityGrid == {} && localizationFrame == []
      ensures lastWorldActorsPass == now
      ensures localizationMessengerState == localizationState && plannerMessengerState == plannerState - 1
    {
      this.numberOfVehicle := numberOfVehicle;
      lastWorldActorsPass := now;
      frameSelector := true;
      plannerFrameA := new bool[numberOfVehicle](_ => false);
      plannerFrameB := new bool[numberOfVehicle](_ => false);
      idToIndex := map[];
      unregisteredActors := map[];
      vicinityGrid := {};
      localizationFrame := [];
      localizationMessengerState := localizationState;
      plannerMessengerState := plannerState - 1;
    }

    /**
     * The periodic scan of the world's vehicles: when more than
     * `UnregisteredScanInterval` seconds have passed since the last one,
     * every vehicle new to both tables joins the unregistered-actor table
     * and the scan time is recorded.
     */
    method ScanUnregistered(now: real, world: seq<Actor>)
      requires Valid()
      modifies this
      ensures Valid()
      ensures unregisteredActors == ScanIfDue(old(unregisteredActors), idToIndex, world, now, old(lastWorldActorsPass))
      ensures lastWorldActorsPass ==
                if now - old(lastWorldActorsPass) > UnregisteredScanInterval then now else old(lastWorldActorsPass)
      ensures frameSelector == old(frameSelector) && idToIndex == old(idToIndex)
      ensures vicinityGrid == old(vicinityGrid) && localizationFrame == old(localizationFrame)
      ensures localizationMessengerState == old(localizationMessengerState)
      ensures plannerMessengerState == old(plannerMessengerState)
    {
      if now - lastWorldActorsPass > UnregisteredScanInterval {
        unregisteredActors := ScanWorld(unregisteredActors, idToIndex, world);
        lastWorldActorsPass := now;
      }
    }

    /**
     * The refresh of the unregistered actors: each alive one is placed in
     * the grid, each dead one is erased from the grid and collected, and the
     * collected ids are removed from the table after the pass.
     */
    method RefreshUnregistered(alive: set<ActorId>)
      requires Valid()
      modifies this
      ensures Valid()
      ensures unregisteredActors == RefreshTable(old(unregisteredActors), alive)
      ensures vicinityGrid == RefreshGrid(old(vicinityGrid), old(unregisteredActors), alive)
      ensures frameSelector == old(frameSelector) && idToIndex == old(idToIndex)
      ensures localizationFrame == old(localizationFrame) && lastWorldActorsPass == old(lastWorldActorsPass)
      ensures localizationMessengerState == old(localizationMessengerState)
      ensures plannerMessengerState == old(plannerMessengerState)
    {
      var grid := vicinityGrid;
      var idsToErase: seq<ActorId> := [];
      var pending := unregisteredActors.Keys;
      ghost var visited: set<ActorId> := {};
      while pending != {}
        invariant pending + visited == unregisteredActors.Keys && pending !! visited
        invariant grid == (vicinityGrid - (visited - alive)) + (visited * alive)
        invariant forall id :: id in idsToErase <==> id in visited && id !in alive
        decreases pending
      {
        var id :| id in pending;
        if id in alive {
          grid := grid + {id};
        } else {
          grid := grid - {id};
          idsToErase := idsToErase + [id];
        }
        pending := pending - {id};
        visited := visited + {id};
      }
      var table := unregisteredActors;
      var e := 0;
      while e < |idsToErase|
        invariant 0 <= e <= |idsToErase|
        invariant forall id :: id in table <==> id in unregisteredActors && id !in idsToErase[..e]
        invariant forall id :: id in table ==> table[id] == unregisteredActors[id]
      {
        assert idsToErase[..e + 1] == idsToErase[..e] + [idsToErase[e]];
        table := table - {idsToErase[e]};
        e := e + 1;
      }
      assert idsToErase[..|idsToErase|] == idsToErase;
      unregisteredActors := table;
      vicinityGrid := grid;
    }

    /**
     * `Action(start, end)` of one worker: the worker owning index 0 first
     * scans and refreshes the unregistered actors; then every vehicle of the
     * inclusive range is placed in the vicinity grid, which is queried for
     * its candidates, and its hazard flag, computed against the refreshed
     * tables and the actors' current states `poses`, is written to its slot
     * of the current hazard frame.
     */
    method Action(startIndex: nat, endIndex: nat, now: real, world: seq<Actor>, alive: set<ActorId>,
                  poses: map<ActorId, Actor>, neighbours: (set<ActorId>, Actor) -> seq<ActorId>, lib: GeometryLib)
      requires Valid() && ValidLib(lib) && FrameWellFormed(localizationFrame)
      requires QueryWithinGrid(neighbours) && PosesConsistent(poses)
      requires startIndex <= endIndex ==> endIndex < |localizationFrame| && endIndex < numberOfVehicle
      modifies this, CurrentFrame()
      ensures Valid()
      ensures frameSelector == old(frameSelector) && idToIndex == old(idToIndex)
      ensures localizationFrame == old(localizationFrame)
      ensures localizationMessengerState == old(localizationMessengerState)
      ensures plannerMessengerState == old(plannerMessengerState)
      ensures var scanned := ScanIfDue(old(unregisteredActors), idToIndex, world, now, old(lastWorldActorsPass));
              && unregisteredActors == (if startIndex == 0 then RefreshTable(scanned, alive) else old(unregisteredActors))
              && lastWorldActorsPass == (if startIndex == 0 && now - old(lastWorldActorsPass) > UnregisteredScanInterval
                                         then now else old(lastWorldActorsPass))
      ensures var scanned := ScanIfDue(old(unregisteredActors), idToIndex, world, now, old(lastWorldActorsPass));
              var refreshed := if startIndex == 0 then RefreshGrid(old(vicinityGrid), scanned, alive) else old(vicinityGrid);
              && vicinityGrid == refreshed + EgoIds(localizationFrame, startIndex, endIndex + 1)
              && forall i :: startIndex <= i <= endIndex ==>
                   CurrentFrame()[i] ==
                     EgoHazard(lib, idToIndex, localizationFrame, unregisteredActors, poses, localizationFrame[i].actor,
                               neighbours(refreshed + EgoIds(localizationFrame, startIndex, i + 1),
                                          localizationFrame[i].actor))
      ensures forall i :: 0 <= i < CurrentFrame().Length && !(startIndex <= i <= endIndex) ==>
                CurrentFrame()[i] == old(CurrentFrame()[i])
    {
      var currentPlannerFrame := CurrentFrame();
      if startIndex == 0 {
        ScanUnregistered(now, world);
        RefreshUnregistered(alive);
      }
      var tracked := FlagRange(currentPlannerFrame, startIndex, endIndex, lib, idToIndex, localizationFrame,
                               unregisteredActors, poses, vicinityGrid, neighbours);
      EgoIdsRegistered(idToIndex, localizationFrame, startIndex, endIndex + 1);
      vicinityGrid := tracked;
    }

    /**
     * `DataReceiver`: stores the received frame and its version, then
     * inserts every vehicle's position in the frame into `idToIndex`, which
     * is never cleared and keeps an index it already holds.
     */
    method DataReceiver(packet: LocalizationPacket)
      requires Valid()
      modifies this
      ensures Valid()
      ensures localizationFrame == packet.frame && localizationMessengerState == packet.id
      ensures idToIndex == Register(old(idToIndex), FrameIds(packet.frame))
      ensures frameSelector == old(frameSelector) && unregisteredActors == old(unregisteredActors)
      ensures vicinityGrid == old(vicinityGrid) && lastWorldActorsPass == old(lastWorldActorsPass)
      ensures plannerMessengerState == old(plannerMessengerState)
    {
      localizationFrame := packet.frame;
      localizationMessengerState := packet.id;
      idToIndex := IndexFrame(idToIndex, packet.frame);
      assert FrameRegistered(idToIndex, localizationFrame) by {
        forall i | 0 <= i < |packet.frame|
          ensures packet.frame[i].actor.id in idToIndex
        {
          assert FrameIds(packet.frame)[i] == packet.frame[i].actor.id;
        }
      }
    }

    /**
     * `DataSender`: hands the current hazard frame to the motion planner
     * under the current planner version, then switches to the other frame
     * and stores the version the messenger returns.
     */
    method DataSender(nextState: int) returns (packet: PlannerPacket)
      requires Valid()
      modifies this
      ensures Valid()
      ensures packet == PlannerPacket(old(plannerMessengerState), old(CurrentFrame()))
      ensures frameSelector == !old(frameSelector) && plannerMessengerState == nextState
      ensures CurrentFrame() != packet.frame
      ensures idToIndex == old(idToIndex) && unregisteredActors == old(unregisteredActors)
      ensures vicinityGrid == old(vicinityGrid) && localizationFrame == old(localizationFrame)
      ensures lastWorldActorsPass == old(lastWorldActorsPass)
      ensures localizationMessengerState == old(localizationMessengerState)
    {
      packet := PlannerPacket(plannerMessengerState, if frameSelector then plannerFrameA else plannerFrameB);
      frameSelector := !frameSelector;
      plannerMessengerState := nextState;
    }
  }
}
