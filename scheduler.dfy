/**
 The behaviour classifier of the bot's scheduler. Every turn the scheduler
 gets a matching of ships to target cells (computed elsewhere by an
 assignment solver and taken here as a list of (row, column) pairs), first
 lets ships with little cargo leave the persistent set of ships that are
 returning to the shipyard, and then classifies each matched pair as
 returning, mining or relocating, in that order of priority.

 Thresholds are fractions of the ship capacity MAX; they are stated exactly
 by multiplying through: cargo > 0.75 MAX is 4 c > 3 MAX, cargo < 0.25 MAX
 is 4 c < MAX, halite > 0.05 MAX is 20 h > MAX and 0.2 h > c is h > 5 c.
 */
module ShipScheduler {
  import opened Grid

  datatype Ship = Ship(id: nat, position: Pos, cargo: nat)

  /** One call of the schedule's assign: a ship and the cell it is sent to. */
  datatype Assignment = Assignment(ship: Ship, target: Pos)

  datatype Behaviour = Return | Mine | Relocate

  /**
   What the classifier reads from the game in one turn: the map extents,
   the ship capacity, the halite of every cell (by index) and the position
   of the player's shipyard.
   */
  datatype World = World(h: Extent, w: Extent, maxHalite: int, halite: seq<nat>, shipyard: Pos)

  predicate WellFormed(world: World)
  {
    world.maxHalite >= 1 && |world.halite| == world.h * world.w
  }

  predicate ShipsInGrid(world: World, ships: seq<Ship>)
  {
    forall i :: 0 <= i < |ships| ==> InGrid(world.h, world.w, ships[i].position)
  }

  /** Every pair names one of the ships and one cell of the map. */
  predicate ValidPairs(world: World, ships: seq<Ship>, pairs: seq<(nat, nat)>)
  {
    forall k :: 0 <= k < |pairs| ==> pairs[k].0 < |ships| && pairs[k].1 < world.h * world.w
  }

  /** No two ships of the player share an id. */
  predicate DistinctIds(ships: seq<Ship>)
  {
    forall a, b :: 0 <= a < |ships| && 0 <= b < |ships| && ships[a].id == ships[b].id ==> a == b
  }

  // ---------------------------------------------------------------------
  // The three predicates of the classifier

  /** A ship returns when it carries more than three quarters of the capacity or is already returning. */
  function Returning(ship: Ship, returningIds: set<nat>, maxHalite: int): (b: bool)
    ensures b <==>
      (ship.cargo as real > 0.75 * maxHalite as real || ship.id in returningIds)
  {
    4 * ship.cargo > 3 * maxHalite || ship.id in returningIds
  }

  /** A ship mines where it stands when the cell is rich, or rich compared to what it carries. */
  function Mining(ship: Ship, localHalite: nat, maxHalite: int): (b: bool)
    ensures b <==>
      (localHalite as real > 0.05 * maxHalite as real || 0.2 * localHalite as real > ship.cargo as real)
  {
    20 * localHalite > maxHalite || localHalite > 5 * ship.cargo
  }

  /** A ship with less than a quarter of the capacity leaves the returning set. */
  function LowCargo(ship: Ship, maxHalite: int): (b: bool)
    ensures b <==> ship.cargo as real < 0.25 * maxHalite as real
  {
    4 * ship.cargo < maxHalite
  }

  /** A ship with more than three quarters of the capacity returns whatever the set holds. */
  function HighCargo(ship: Ship, maxHalite: int): (b: bool)
    ensures b <==> ship.cargo as real > 0.75 * maxHalite as real
  {
    4 * ship.cargo > 3 * maxHalite
  }

  /**
   The step distance between two positions from their directional counts.
   It is never more than half of each extent, and zero from a cell to itself.
   */
  function CalcShortestDist(h: Extent, w: Extent, origin: Pos, destination: Pos): (d: int)
    ensures 2 * d <= h + w
    ensures origin == destination ==> d == 0
  {
    var ds := CalcDistances(h, w, origin, destination);
    Min(ds.north, ds.south) + Min(ds.east, ds.west)
  }

  /**
   On cells of the grid this distance is the step distance between their
   indices; so it is symmetric and zero only from a cell to itself.
   */
  lemma CalcShortestDistAgrees(h: Extent, w: Extent, origin: Pos, destination: Pos)
    requires InGrid(h, w, origin) && InGrid(h, w, destination)
    ensures CalcShortestDist(h, w, origin, destination)
         == SimpleDistance(h, w, CellToIndex(w, origin), CellToIndex(w, destination))
    ensures CalcShortestDist(h, w, origin, destination) == CalcShortestDist(h, w, destination, origin)
    ensures CalcShortestDist(h, w, origin, destination) == 0 <==> origin == destination
  {
    var a, b := CellToIndex(w, origin), CellToIndex(w, destination);
    CellToIndexRoundTrip(h, w, origin);
    CellToIndexRoundTrip(h, w, destination);
    SimpleDistanceIsMinOfDirections(h, w, a, b);
    SimpleDistanceIsMinOfDirections(h, w, b, a);
    SimpleDistanceMetric(h, w, a, b);
  }

  // ---------------------------------------------------------------------
  // Specification of one turn

  /** The halite of the cell a ship stands on. */
  function LocalHalite(world: World, ship: Ship): (halite: nat)
    requires WellFormed(world) && InGrid(world.h, world.w, ship.position)
    ensures halite in world.halite
    ensures forall i :: 0 <= i < |world.halite| && IndexToCell(world.w, i) == ship.position ==> halite == world.halite[i]
  {
    CellToIndexRoundTrip(world.h, world.w, ship.position);
    assert forall i :: 0 <= i < |world.halite| && IndexToCell(world.w, i) == ship.position ==> i == CellToIndex(world.w, ship.position) by {
      forall i | 0 <= i < |world.halite| && IndexToCell(world.w, i) == ship.position ensures i == CellToIndex(world.w, ship.position) {
        IndexToCellRoundTrip(world.h, world.w, i);
      }
    }
    world.halite[CellToIndex(world.w, ship.position)]
  }

  /** The behaviour of a ship given the current returning set, in priority order. */
  function Classify(world: World, returningIds: set<nat>, ship: Ship): (b: Behaviour)
    requires WellFormed(world) && InGrid(world.h, world.w, ship.position)
    ensures b == Return <==> Returning(ship, returningIds, world.maxHalite)
    ensures b == Mine <==>
      !Returning(ship, returningIds, world.maxHalite) && Mining(ship, LocalHalite(world, ship), world.maxHalite)
  {
    if Returning(ship, returningIds, world.maxHalite) then Return
    else if Mining(ship, LocalHalite(world, ship), world.maxHalite) then Mine
    else Relocate
  }

  /** Where a behaviour sends a ship matched with cell j. */
  function TargetFor(world: World, ship: Ship, j: int, b: Behaviour): (target: Pos)
    ensures b == Return ==> target == world.shipyard
    ensures b == Mine ==> target == ship.position
    ensures b == Relocate ==> target == IndexToCell(world.w, j)
  {
    match b
    case Return => world.shipyard
    case Mine => ship.position
    case Relocate => IndexToCell(world.w, j)
  }

  /** The ids of the given ships that leave the returning set. */
  function LowCargoIds(ships: seq<Ship>, maxHalite: int): (ids: set<nat>)
    ensures forall i :: 0 <= i < |ships| && LowCargo(ships[i], maxHalite) ==> ships[i].id in ids
    ensures forall id :: id in ids ==> exists i :: 0 <= i < |ships| && ships[i].id == id && LowCargo(ships[i], maxHalite)
  {
    set s | s in ships && LowCargo(s, maxHalite) :: s.id
  }

  /** The ids of matched ships whose cargo alone makes them return. */
  function HighCargoMatched(ships: seq<Ship>, pairs: seq<(nat, nat)>, maxHalite: int): (ids: set<nat>)
    ensures forall k :: (0 <= k < |pairs| && pairs[k].0 < |ships| && HighCargo(ships[pairs[k].0], maxHalite)
      ==> ships[pairs[k].0].id in ids)
    ensures forall id :: id in ids ==>
      exists k :: 0 <= k < |pairs| && pairs[k].0 < |ships| && ships[pairs[k].0].id == id && HighCargo(ships[pairs[k].0], maxHalite)
  {
    set p | p in pairs && p.0 < |ships| && HighCargo(ships[p.0], maxHalite) :: ships[p.0].id
  }

  /**
   The classification of the matched pairs in order, threading the returning
   set: the final set, which only grows, and the assignments made, one per pair.
   */
  function Classified(world: World, ships: seq<Ship>, returningIds: set<nat>, pairs: seq<(nat, nat)>)
    : (r: (set<nat>, seq<Assignment>))
    requires WellFormed(world) && ShipsInGrid(world, ships) && ValidPairs(world, ships, pairs)
    ensures returningIds <= r.0
    ensures |r.1| == |pairs|
    decreases |pairs|
  {
    if pairs == [] then (returningIds, [])
    else
      var ship := ships[pairs[0].0];
      var b := Classify(world, returningIds, ship);
      var ids := if b == Return then returningIds + {ship.id} else returningIds;
      var rest := Classified(world, ships, ids, pairs[1..]);
      (rest.0, [Assignment(ship, TargetFor(world, ship, pairs[0].1, b))] + rest.1)
  }

  /** One step of the classification: the first pair, then the rest against the updated set. */
  lemma ClassifiedStep(world: World, ships: seq<Ship>, returningIds: set<nat>, pairs: seq<(nat, nat)>)
    requires WellFormed(world) && ShipsInGrid(world, ships) && ValidPairs(world, ships, pairs)
    requires pairs != []
    ensures var ship := ships[pairs[0].0];
      var b := Classify(world, returningIds, ship);
      var ids := if b == Return then returningIds + {ship.id} else returningIds;
      var rest := Classified(world, ships, ids, pairs[1..]);
      Classified(world, ships, returningIds, pairs)
        == (rest.0, [Assignment(ship, TargetFor(world, ship, pairs[0].1, b))] + rest.1)
  {
  }

  /** The outcome of a whole turn: the exit step, then the classification. */
  function TurnOutcome(world: World, ships: seq<Ship>, returningIds: set<nat>, pairs: seq<(nat, nat)>)
    : (r: (set<nat>, seq<Assignment>))
    requires WellFormed(world) && ShipsInGrid(world, ships) && ValidPairs(world, ships, pairs)
    ensures |r.1| == |pairs|
  {
    Classified(world, ships, returningIds - LowCargoIds(ships, world.maxHalite), pairs)
  }

  // ---------------------------------------------------------------------
  // Properties of the classification

  lemma HighCargoMatchedConcat(ships: seq<Ship>, a: seq<(nat, nat)>, b: seq<(nat, nat)>, maxHalite: int)
    ensures HighCargoMatched(ships, a + b, maxHalite)
         == HighCargoMatched(ships, a, maxHalite) + HighCargoMatched(ships, b, maxHalite)
  {
    var ab := a + b;
    forall p ensures p in ab <==> p in a || p in b {
      if p in ab {
        var k :| 0 <= k < |ab| && ab[k] == p;
        if k >= |a| { assert b[k - |a|] == p; }
      }
    }
  }

  /**
   Adding a pair's ship when it returns gives the same set as adding it only
   for high cargo: a ship that returns without high cargo is already in it.
   */
  lemma StepSet(world: World, ships: seq<Ship>, returningIds: set<nat>, p: (nat, nat), rest: set<nat>)
    requires WellFormed(world) && ShipsInGrid(world, ships) && p.0 < |ships|
    ensures var ship := ships[p.0];
      (if Classify(world, returningIds, ship) == Return then returningIds + {ship.id} else returningIds) + rest
      == returningIds + HighCargoMatched(ships, [p], world.maxHalite) + rest
  {
    var ship := ships[p.0];
    if HighCargo(ship, world.maxHalite) {
      assert ship.id in HighCargoMatched(ships, [p], world.maxHalite);
    }
  }

  /** The final set is the starting set plus the ids of matched ships with high cargo. */
  lemma {:induction false} ClassifiedSet(world: World, ships: seq<Ship>, returningIds: set<nat>, pairs: seq<(nat, nat)>)
    requires WellFormed(world) && ShipsInGrid(world, ships) && ValidPairs(world, ships, pairs)
    ensures Classified(world, ships, returningIds, pairs).0
         == returningIds + HighCargoMatched(ships, pairs, world.maxHalite)
    decreases |pairs|
  {
    if pairs != [] {
      var ship := ships[pairs[0].0];
      var b := Classify(world, returningIds, ship);
      var ids := if b == Return then returningIds + {ship.id} else returningIds;
      ClassifiedStep(world, ships, returningIds, pairs);
      ClassifiedSet(world, ships, ids, pairs[1..]);
      SetBeforePair(world, ships, returningIds, pairs, |pairs|);
      assert pairs[..|pairs|] == pairs && pairs[1..][..|pairs| - 1] == pairs[1..];
    }
  }

  /** The set before pair k + 1, seen from the tail of the pairs after the first has been classified. */
  lemma SetBeforePair(world: World, ships: seq<Ship>, returningIds: set<nat>, pairs: seq<(nat, nat)>, k: int)
    requires WellFormed(world) && ShipsInGrid(world, ships) && ValidPairs(world, ships, pairs)
    requires 0 < k <= |pairs|
    ensures var ship := ships[pairs[0].0];
      var ids := if Classify(world, returningIds, ship) == Return then returningIds + {ship.id} else returningIds;
      ids + HighCargoMatched(ships, pairs[1..][..k - 1], world.maxHalite)
      == returningIds + HighCargoMatched(ships, pairs[..k], world.maxHalite)
  {
    assert pairs[..k] == [pairs[0]] + pairs[1..][..k - 1];
    HighCargoMatchedConcat(ships, [pairs[0]], pairs[1..][..k - 1], world.maxHalite);
    StepSet(world, ships, returningIds, pairs[0], HighCargoMatched(ships, pairs[1..][..k - 1], world.maxHalite));
  }

  /** The assignment the classification makes for pair k, given the set it sees there. */
  ghost predicate AssignedAt(world: World, ships: seq<Ship>, returningIds: set<nat>, pairs: seq<(nat, nat)>,
                             schedule: seq<Assignment>, k: int)
    requires WellFormed(world) && ShipsInGrid(world, ships) && ValidPairs(world, ships, pairs)
    requires 0 <= k < |pairs| && |schedule| == |pairs|
  {
    var ship := ships[pairs[k].0];
    schedule[k] == Assignment(ship, TargetFor(world, ship, pairs[k].1,
      Classify(world, returningIds + HighCargoMatched(ships, pairs[..k], world.maxHalite), ship)))
  }

  /**
   The assignment made for pair k: the ship of its row, sent where the
   behaviour chosen against the set as it stands at that pair sends it (the
   starting set plus the high-cargo ships of the earlier pairs).
   */
  lemma {:induction false} ClassifiedAssignments(world: World, ships: seq<Ship>, returningIds: set<nat>, pairs: seq<(nat, nat)>)
    requires WellFormed(world) && ShipsInGrid(world, ships) && ValidPairs(world, ships, pairs)
    ensures forall k :: 0 <= k < |pairs| ==>
      AssignedAt(world, ships, returningIds, pairs, Classified(world, ships, returningIds, pairs).1, k)
    decreases |pairs|
  {
    if pairs != [] {
      var r := Classified(world, ships, returningIds, pairs);
      var ship0 := ships[pairs[0].0];
      var b := Classify(world, returningIds, ship0);
      var ids := if b == Return then returningIds + {ship0.id} else returningIds;
      var rest := Classified(world, ships, ids, pairs[1..]);
      assert r.1 == [Assignment(ship0, TargetFor(world, ship0, pairs[0].1, b))] + rest.1;
      ClassifiedAssignments(world, ships, ids, pairs[1..]);
      forall k | 0 <= k < |pairs| ensures AssignedAt(world, ships, returningIds, pairs, r.1, k) {
        if k == 0 {
          assert pairs[..0] == [];
        } else {
          assert AssignedAt(world, ships, ids, pairs[1..], rest.1, k - 1);
          SetBeforePair(world, ships, returningIds, pairs, k);
        }
      }
    }
  }

  /**
   After a turn the returning set is the old set, without the ships that
   carry less than a quarter of the capacity, plus the matched ships that
   carry more than three quarters.
   */
  lemma FinalReturningSet(world: World, ships: seq<Ship>, returningIds: set<nat>, pairs: seq<(nat, nat)>)
    requires WellFormed(world) && ShipsInGrid(world, ships) && ValidPairs(world, ships, pairs)
    ensures TurnOutcome(world, ships, returningIds, pairs).0
         == (returningIds - LowCargoIds(ships, world.maxHalite)) + HighCargoMatched(ships, pairs, world.maxHalite)
  {
    ClassifiedSet(world, ships, returningIds - LowCargoIds(ships, world.maxHalite), pairs);
  }

  /** Ids that belong to none of the player's ships are left as they were. */
  lemma OtherIdsUntouched(world: World, ships: seq<Ship>, returningIds: set<nat>, pairs: seq<(nat, nat)>, id: nat)
    requires WellFormed(world) && ShipsInGrid(world, ships) && ValidPairs(world, ships, pairs)
    requires forall i :: 0 <= i < |ships| ==> ships[i].id != id
    ensures id in TurnOutcome(world, ships, returningIds, pairs).0 <==> id in returningIds
  {
    FinalReturningSet(world, ships, returningIds, pairs);
  }

  /**
   Classification priority over a whole turn: pair k sends its ship where
   the behaviour chosen against the set at that pair sends it, that set being
   the set after the exit step plus the high-cargo ships of the earlier pairs.
   */
  lemma TurnTargetAt(world: World, ships: seq<Ship>, returningIds: set<nat>, pairs: seq<(nat, nat)>, k: int)
    requires WellFormed(world) && ShipsInGrid(world, ships) && ValidPairs(world, ships, pairs)
    requires 0 <= k < |pairs|
    ensures var ship := ships[pairs[k].0];
      var seen := (returningIds - LowCargoIds(ships, world.maxHalite)) + HighCargoMatched(ships, pairs[..k], world.maxHalite);
      TurnOutcome(world, ships, returningIds, pairs).1[k]
        == Assignment(ship, TargetFor(world, ship, pairs[k].1, Classify(world, seen, ship)))
  {
    var start := returningIds - LowCargoIds(ships, world.maxHalite);
    ClassifiedAssignments(world, ships, start, pairs);
    assert AssignedAt(world, ships, start, pairs, TurnOutcome(world, ships, returningIds, pairs).1, k);
  }

  /** With distinct ids, a low-cargo ship is in none of the sets the classification sees. */
  lemma LowCargoNotSeen(world: World, ships: seq<Ship>, returningIds: set<nat>, pairs: seq<(nat, nat)>, i: int, k: int)
    requires WellFormed(world) && ValidPairs(world, ships, pairs)
    requires DistinctIds(ships) && 0 <= i < |ships| && LowCargo(ships[i], world.maxHalite)
    requires 0 <= k <= |pairs|
    ensures ships[i].id !in (returningIds - LowCargoIds(ships, world.maxHalite)) + HighCargoMatched(ships, pairs[..k], world.maxHalite)
  {
    var earlier := pairs[..k];
    forall l | 0 <= l < |earlier| && earlier[l].0 < |ships| && ships[earlier[l].0].id == ships[i].id
      ensures !HighCargo(ships[earlier[l].0], world.maxHalite)
    {
      assert earlier[l].0 == i;
    }
  }

  /**
   Hysteresis, low end: with distinct ids, a ship with less than a quarter
   of the capacity is not in the set after the turn and is never sent by the
   returning branch.
   */
  lemma LowCargoNeverReturns(world: World, ships: seq<Ship>, returningIds: set<nat>, pairs: seq<(nat, nat)>, i: int)
    requires WellFormed(world) && ShipsInGrid(world, ships) && ValidPairs(world, ships, pairs)
    requires DistinctIds(ships) && 0 <= i < |ships| && LowCargo(ships[i], world.maxHalite)
    ensures ships[i].id !in TurnOutcome(world, ships, returningIds, pairs).0
    ensures forall k :: 0 <= k < |pairs| && pairs[k].0 == i ==>
      TurnOutcome(world, ships, returningIds, pairs).1[k].target
        == if Mining(ships[i], LocalHalite(world, ships[i]), world.maxHalite) then ships[i].position
           else IndexToCell(world.w, pairs[k].1)
  {
    FinalReturningSet(world, ships, returningIds, pairs);
    LowCargoNotSeen(world, ships, returningIds, pairs, i, |pairs|);
    assert pairs[..|pairs|] == pairs;
    forall k | 0 <= k < |pairs| && pairs[k].0 == i
      ensures TurnOutcome(world, ships, returningIds, pairs).1[k].target
        == if Mining(ships[i], LocalHalite(world, ships[i]), world.maxHalite) then ships[i].position
           else IndexToCell(world.w, pairs[k].1)
    {
      TurnTargetAt(world, ships, returningIds, pairs, k);
      LowCargoNotSeen(world, ships, returningIds, pairs, i, k);
    }
  }

  /**
   Hysteresis, high end: a matched ship with more than three quarters of the
   capacity is in the set after the turn and is sent to the shipyard.
   */
  lemma HighCargoReturns(world: World, ships: seq<Ship>, returningIds: set<nat>, pairs: seq<(nat, nat)>, k: int)
    requires WellFormed(world) && ShipsInGrid(world, ships) && ValidPairs(world, ships, pairs)
    requires 0 <= k < |pairs| && HighCargo(ships[pairs[k].0], world.maxHalite)
    ensures ships[pairs[k].0].id in TurnOutcome(world, ships, returningIds, pairs).0
    ensures TurnOutcome(world, ships, returningIds, pairs).1[k].target == world.shipyard
  {
    FinalReturningSet(world, ships, returningIds, pairs);
    TurnTargetAt(world, ships, returningIds, pairs, k);
  }

  /**
   Hysteresis, middle: with distinct ids, a ship already returning that has
   not dropped below a quarter of the capacity stays in the set, and every
   pair of it sends it to the shipyard.
   */
  lemma ReturningShipKeepsReturning(world: World, ships: seq<Ship>, returningIds: set<nat>, pairs: seq<(nat, nat)>, i: int)
    requires WellFormed(world) && ShipsInGrid(world, ships) && ValidPairs(world, ships, pairs)
    requires DistinctIds(ships) && 0 <= i < |ships|
    requires ships[i].id in returningIds && !LowCargo(ships[i], world.maxHalite)
    ensures ships[i].id in TurnOutcome(world, ships, returningIds, pairs).0
    ensures forall k :: 0 <= k < |pairs| && pairs[k].0 == i ==>
      TurnOutcome(world, ships, returningIds, pairs).1[k].target == world.shipyard
  {
    var start := returningIds - LowCargoIds(ships, world.maxHalite);
    assert ships[i].id in start;
    FinalReturningSet(world, ships, returningIds, pairs);
    forall k | 0 <= k < |pairs| && pairs[k].0 == i
      ensures TurnOutcome(world, ships, returningIds, pairs).1[k].target == world.shipyard
    {
      TurnTargetAt(world, ships, returningIds, pairs, k);
    }
  }

  /**
   When every ship's row occurs in exactly one pair and ids are distinct,
   every ship receives exactly one assignment.
   */
  lemma OneAssignmentPerShip(world: World, ships: seq<Ship>, returningIds: set<nat>, pairs: seq<(nat, nat)>, i: int)
    requires WellFormed(world) && ShipsInGrid(world, ships) && ValidPairs(world, ships, pairs)
    requires DistinctIds(ships) && 0 <= i < |ships|
    requires exists k :: 0 <= k < |pairs| && pairs[k].0 == i
    requires forall k, l :: 0 <= k < |pairs| && 0 <= l < |pairs| && pairs[k].0 == i && pairs[l].0 == i ==> k == l
    ensures var schedule := TurnOutcome(world, ships, returningIds, pairs).1;
      exists k :: 0 <= k < |schedule| && schedule[k].ship == ships[i]
        && forall l :: 0 <= l < |schedule| && schedule[l].ship == ships[i] ==> l == k
  {
    var schedule := TurnOutcome(world, ships, returningIds, pairs).1;
    var k :| 0 <= k < |pairs| && pairs[k].0 == i;
    TurnTargetAt(world, ships, returningIds, pairs, k);
    forall l | 0 <= l < |schedule| && schedule[l].ship == ships[i] ensures l == k {
      TurnTargetAt(world, ships, returningIds, pairs, l);
      assert ships[pairs[l].0].id == ships[i].id;
    }
  }

  // ---------------------------------------------------------------------
  // The persistent set and the scheduler

  /** The module-level set of ids of ships that are returning to the shipyard; it outlives a turn. */
  class ReturningSet {
    var ids: set<nat>

    constructor()
      ensures ids == {}
    {
      ids := {};
    }

    method Discard(id: nat)
      modifies this
      ensures ids == old(ids) - {id}
    {
      ids := ids - {id};
    }

    method Add(id: nat)
      modifies this
      ensures ids == old(ids) + {id}
    {
      ids := ids + {id};
    }
  }

  /** The scheduler of one turn: the player's ships, the map, and the schedule being built. */
  class Scheduler {
    const world: World
    const ships: seq<Ship>
    const returningToShipyard: ReturningSet
    var schedule: seq<Assignment>

    constructor(world: World, ships: seq<Ship>, returningToShipyard: ReturningSet)
      requires WellFormed(world) && ShipsInGrid(world, ships)
      ensures Valid()
      ensures this.world == world && this.ships == ships
      ensures this.returningToShipyard == returningToShipyard
      ensures schedule == []
    {
      this.world := world;
      this.ships := ships;
      this.returningToShipyard := returningToShipyard;
      schedule := [];
    }

    predicate Valid()
    {
      WellFormed(world) && ShipsInGrid(world, ships)
    }

    /** Records that a ship is sent to a target. */
    method Assign(ship: Ship, target: Pos)
      modifies this
      ensures schedule == old(schedule) + [Assignment(ship, target)]
    {
      schedule := schedule + [Assignment(ship, target)];
    }

    /** The exit step: every ship with less than a quarter of the capacity leaves the returning set. */
    method DiscardLowCargo()
      modifies returningToShipyard
      ensures returningToShipyard.ids == old(returningToShipyard.ids) - LowCargoIds(ships, world.maxHalite)
    {
      var i := 0;
      while i < |ships|
        invariant 0 <= i <= |ships|
        invariant returningToShipyard.ids == old(returningToShipyard.ids) - LowCargoIds(ships[..i], world.maxHalite)
      {
        assert ships[..i + 1] == ships[..i] + [ships[i]];
        if LowCargo(ships[i], world.maxHalite) {
          returningToShipyard.Discard(ships[i].id);
        }
        i := i + 1;
      }
      assert ships[..|ships|] == ships;
    }

    /**
     Classifies one matched pair: a returning ship joins the set and is sent
     to the shipyard, a mining ship stays where it is, any other ship goes to
     its matched cell j.
     */
    method ClassifyPair(row: nat, j: nat)
      requires Valid() && row < |ships|
      modifies this, returningToShipyard
      ensures var ship := ships[row];
        var b := Classify(world, old(returningToShipyard.ids), ship);
        && returningToShipyard.ids == (if b == Return then old(returningToShipyard.ids) + {ship.id} else old(returningToShipyard.ids))
        && schedule == old(schedule) + [Assignment(ship, TargetFor(world, ship, j, b))]
    {
      var ship := ships[row];
      var target;
      if Returning(ship, returningToShipyard.ids, world.maxHalite) {
        returningToShipyard.Add(ship.id);
        target := world.shipyard;
      } else if Mining(ship, LocalHalite(world, ship), world.maxHalite) {
        target := ship.position;
      } else {
        target := IndexToCell(world.w, j);
      }
      Assign(ship, target);
    }

    /** Classifies each matched pair in order and assigns its ship a target. */
    method ClassifyMatches(pairs: seq<(nat, nat)>)
      requires Valid() && ValidPairs(world, ships, pairs)
      modifies this, returningToShipyard
      ensures var outcome := Classified(world, ships, old(returningToShipyard.ids), pairs);
        returningToShipyard.ids == outcome.0 && schedule == old(schedule) + outcome.1
    {
      ghost var outcome := Classified(world, ships, returningToShipyard.ids, pairs);
      var k := 0;
      while k < |pairs|
        invariant 0 <= k <= |pairs|
        invariant var rest := Classified(world, ships, returningToShipyard.ids, pairs[k..]);
          rest.0 == outcome.0 && schedule + rest.1 == old(schedule) + outcome.1
      {
        ClassifiedStep(world, ships, returningToShipyard.ids, pairs[k..]);
        assert pairs[k..][1..] == pairs[k + 1..];
        ClassifyPair(pairs[k].0, pairs[k].1);
        k := k + 1;
      }
    }

    /**
     One turn of the classifier: the exit step, then the classification of
     the matched pairs; returns the schedule.
     */
    method ToDestination(pairs: seq<(nat, nat)>) returns (s: seq<Assignment>)
      requires Valid() && ValidPairs(world, ships, pairs)
      modifies this, returningToShipyard
      ensures returningToShipyard.ids == TurnOutcome(world, ships, old(returningToShipyard.ids), pairs).0
      ensures schedule == old(schedule) + TurnOutcome(world, ships, old(returningToShipyard.ids), pairs).1
      ensures s == schedule
    {
      DiscardLowCargo();
      ClassifyMatches(pairs);
      s := schedule;
    }
  }
}
