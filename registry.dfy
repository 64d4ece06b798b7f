/**
 * The two actor tables of the collision stage. `idToIndex` maps the id of
 * every vehicle the traffic manager has seen in a localization frame to that
 * vehicle's position in the frame; the unregistered-actor table holds the
 * vehicles of the world the traffic manager does not drive. Both are
 * specified here as functions of the table before the update.
 */
module Registry {
  import opened Types

  /** The ids of the vehicles of a localization frame, in frame order. */
  function FrameIds(frame: seq<LocalizationData>): (ids: seq<ActorId>)
    ensures |ids| == |frame|
    ensures forall i :: 0 <= i < |frame| ==> ids[i] == frame[i].actor.id
  {
    seq(|frame|, i requires 0 <= i < |frame| => frame[i].actor.id)
  }

  /**
   * The map after inserting `(ids[i], i)` for every `i` in order, where an
   * insertion leaves a key already present untouched: existing entries are
   * kept, and a new id gets the position of its first occurrence.
   */
  function Register(m: map<ActorId, nat>, ids: seq<ActorId>): (r: map<ActorId, nat>)
    ensures r.Keys == m.Keys + (set id | id in ids)
    ensures forall id :: id in m ==> r[id] == m[id]
    decreases |ids|
  {
    if |ids| == 0 then
      m
    else
      var prefix := ids[..|ids| - 1];
      var id := ids[|ids| - 1];
      assert ids == prefix + [id];
      var previous := Register(m, prefix);
      if id in previous then previous else previous[id := |ids| - 1]
  }

  /** Registering one more id of a sequence is one guarded insertion at that id's position. */
  lemma RegisterStep(m: map<ActorId, nat>, ids: seq<ActorId>, n: nat)
    requires n < |ids|
    ensures var previous := Register(m, ids[..n]);
            Register(m, ids[..n + 1]) == if ids[n] in previous then previous else previous[ids[n] := n]
  {
    assert ids[..n + 1][..n] == ids[..n];
  }

  /**
   * An id new to the map is recorded at the position of its first
   * occurrence in `ids`.
   */
  lemma {:induction false} RegisterFirstOccurrence(m: map<ActorId, nat>, ids: seq<ActorId>, id: ActorId)
    requires id in Register(m, ids) && id !in m
    ensures var k := Register(m, ids)[id];
            k < |ids| && ids[k] == id && forall j :: 0 <= j < k ==> ids[j] != id
    decreases |ids|
  {
    var prefix := ids[..|ids| - 1];
    assert ids == prefix + [ids[|ids| - 1]];
    if id in Register(m, prefix) {
      RegisterFirstOccurrence(m, prefix, id);
    }
  }

  /**
   * Registering the ids of a frame without repeated ids into an empty map
   * gives each vehicle its position in the frame.
   */
  lemma RegisterFreshFrame(ids: seq<ActorId>)
    requires forall i, j :: 0 <= i < j < |ids| ==> ids[i] != ids[j]
    ensures var r := Register(map[], ids);
            && r.Keys == (set id | id in ids)
            && forall i :: 0 <= i < |ids| ==> r[ids[i]] == i
  {
    var r := Register(map[], ids);
    forall i | 0 <= i < |ids|
      ensures r[ids[i]] == i
    {
      assert ids[i] in r;
      RegisterFirstOccurrence(map[], ids, ids[i]);
      var k := r[ids[i]];
      assert ids[k] == ids[i];
    }
  }

  /**
   * Entries are never removed or overwritten: once the map has seen a
   * frame `[7, 8]`, a later frame holding only vehicle 8 still maps 8 to
   * position 1, outside the new frame, and still maps 7.
   */
  lemma StaleEntriesPersist()
    ensures Register(Register(map[], [7, 8]), [8]) == map[7 := 0, 8 := 1]
  {
    var first := Register(map[], [7, 8]);
    assert [7, 8][..1] == [7];
    assert Register(map[], [7]) == map[7 := 0] by {
      assert [7][..0] == [];
    }
    assert first == map[7 := 0, 8 := 1];
    assert [8][..0] == [];
  }

  /**
   * When a later frame lists the same vehicles in another order, the map
   * keeps the old positions, so position 0 of the new frame is recorded for
   * the vehicle that now sits at position 1.
   */
  lemma ReorderedFrameKeepsOldPositions()
    ensures Register(Register(map[], [7, 8]), [8, 7]) == map[7 := 0, 8 := 1]
  {
    var first := Register(map[], [7, 8]);
    assert [7, 8][..1] == [7];
    assert Register(map[], [7]) == map[7 := 0] by {
      assert [7][..0] == [];
    }
    assert first == map[7 := 0, 8 := 1];
    assert [8, 7][..1] == [8];
    assert Register(first, [8]) == first by {
      assert [8][..0] == [];
    }
  }

  /** The ids of a list of actors. */
  function ActorIds(actors: seq<Actor>): set<ActorId> {
    set a | a in actors :: a.id
  }

  /** Appending an actor adds its id. */
  lemma ActorIdsSnoc(actors: seq<Actor>, actor: Actor)
    ensures ActorIds(actors + [actor]) == ActorIds(actors) + {actor.id}
  {
    assert forall a :: a in actors + [actor] <==> a in actors || a == actor;
  }

  /**
   * The unregistered-actor table after a scan of the world's vehicles: every
   * vehicle whose id is neither registered nor already in the table is
   * inserted, the first vehicle listed with an id winning.
   */
  function Scan(table: map<ActorId, Actor>, idToIndex: map<ActorId, nat>, world: seq<Actor>): (r: map<ActorId, Actor>)
    ensures r.Keys == table.Keys + (ActorIds(world) - idToIndex.Keys)
    ensures forall id :: id in table ==> r[id] == table[id]
    ensures forall id :: id in r && id !in table ==> r[id] in world && r[id].id == id
    decreases |world|
  {
    if |world| == 0 then
      table
    else
      var prefix := world[..|world| - 1];
      var actor := world[|world| - 1];
      assert world == prefix + [actor];
      ActorIdsSnoc(prefix, actor);
      var previous := Scan(table, idToIndex, prefix);
      if actor.id !in idToIndex && actor.id !in previous then previous[actor.id := actor] else previous
  }

  /** Scanning one more world actor is one guarded insertion of that actor. */
  lemma ScanStep(table: map<ActorId, Actor>, idToIndex: map<ActorId, nat>, world: seq<Actor>, n: nat)
    requires n < |world|
    ensures var previous := Scan(table, idToIndex, world[..n]);
            Scan(table, idToIndex, world[..n + 1])
            == if world[n].id !in idToIndex && world[n].id !in previous then previous[world[n].id := world[n]] else previous
  {
    assert world[..n + 1][..n] == world[..n];
  }

  /**
   * When several world actors share an id, the table keeps the first one
   * listed: a later actor with the same id finds the id present and is
   * skipped.
   */
  lemma {:induction false} ScanKeepsFirstListed(table: map<ActorId, Actor>, idToIndex: map<ActorId, nat>,
                                                world: seq<Actor>, i: nat)
    requires i < |world| && world[i].id !in table && world[i].id !in idToIndex
    requires forall j :: 0 <= j < i ==> world[j].id != world[i].id
    ensures Scan(table, idToIndex, world)[world[i].id] == world[i]
    decreases |world|
  {
    var prefix := world[..|world| - 1];
    assert world == prefix + [world[|world| - 1]];
    if i < |prefix| {
      ScanKeepsFirstListed(table, idToIndex, prefix, i);
    } else {
      assert world[i].id !in ActorIds(prefix) by {
        forall a | a in prefix
          ensures a.id != world[i].id
        {
          var j :| 0 <= j < |prefix| && prefix[j] == a;
          assert world[j] == a;
        }
      }
    }
  }

  /** A scan never adds a vehicle the traffic manager drives. */
  lemma ScanAddsOnlyUnmanaged(table: map<ActorId, Actor>, idToIndex: map<ActorId, nat>, world: seq<Actor>)
    ensures forall id :: id in Scan(table, idToIndex, world) && id !in table ==> id !in idToIndex
  {
  }

  /** Scanning the same world twice changes nothing the first scan did not. */
  lemma {:induction false} ScanIdempotent(table: map<ActorId, Actor>, idToIndex: map<ActorId, nat>, world: seq<Actor>)
    ensures Scan(Scan(table, idToIndex, world), idToIndex, world) == Scan(table, idToIndex, world)
  {
    var once := Scan(table, idToIndex, world);
    var twice := Scan(once, idToIndex, world);
    assert twice.Keys == once.Keys;
    forall id | id in twice
      ensures twice[id] == once[id]
    {
    }
  }

  /** The unregistered-actor table after dropping the actors that are no longer alive. */
  function RefreshTable(table: map<ActorId, Actor>, alive: set<ActorId>): (r: map<ActorId, Actor>)
    ensures forall id :: id in r <==> id in table && id in alive
    ensures forall id :: id in r ==> r[id] == table[id]
  {
    map id | id in table.Keys * alive :: table[id]
  }

  /**
   * The ids the vicinity grid tracks after the refresh: an unregistered
   * actor is tracked exactly when it is alive, and the tracking of every
   * other id is left as it was.
   */
  function RefreshGrid(grid: set<ActorId>, table: map<ActorId, Actor>, alive: set<ActorId>): (r: set<ActorId>)
    ensures forall id :: id in table ==> (id in r <==> id in alive)
    ensures forall id :: id !in table ==> (id in r <==> id in grid)
  {
    (grid - (table.Keys - alive)) + (table.Keys * alive)
  }
}
