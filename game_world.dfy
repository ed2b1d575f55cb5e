/**
 * `World` (src/game/world.rs): the shared game state that the tick loop and
 * the connections mutate. The class keeps the struct's fields; each method
 * is proved against the function on `WorldState` that specifies it.
 */
module GameWorld {
  import opened Wrappers
  import opened RealMath
  import opened Config
  import opened Players
  import opened Pickups
  import opened SeqOps
  import opened WorldStates
  import Movement
  import Feeding
  import Combat
  import VirusPop
  import Merging
  import Upkeep
  import Actions
  import Leaderboard
  import Ticks

  /** `add_player` spawns a new player this far from every edge. */
  const SPAWN_MARGIN: real := 200.0

  /** A spawn point `rng.gen_range(margin..WORLD_SIZE - margin)` can produce. */
  predicate SpawnPointOk(x: real, y: real) {
    SPAWN_MARGIN <= x < WORLD_SIZE - SPAWN_MARGIN && SPAWN_MARGIN <= y < WORLD_SIZE - SPAWN_MARGIN
  }

  // ---------------------------------------------------------------- the operations as functions

  /** `World::new`: FOOD_COUNT random pellets, VIRUS_COUNT random viruses, no players, ids from 1. */
  function Initial(foodPool: seq<Food>, virusPool: seq<Virus>): (r: WorldState)
    requires Upkeep.FoodPoolOk(foodPool) && Upkeep.VirusPoolOk(virusPool)
    ensures Inv(r)
    ensures r.players == map[] && r.ejected == [] && r.nextPlayerId == 1
    ensures |r.food| == FOOD_COUNT && forall i :: 0 <= i < |r.food| ==> r.food[i] == foodPool[i]
    ensures |r.viruses| == VIRUS_COUNT && forall i :: 0 <= i < |r.viruses| ==> r.viruses[i] == virusPool[i]
  {
    WorldState(map[], foodPool[..FOOD_COUNT], virusPool[..VIRUS_COUNT], [], 1)
  }

  /** `add_player`: the next id goes to a fresh player at the spawn point; the counter moves on. */
  function Joined(s: WorldState, name: string, userId: Option<int>, x: real, y: real, color: string): WorldState {
    var id := s.nextPlayerId;
    s.(players := s.players[id := NewPlayer(id, name, userId, x, y, color)], nextPlayerId := id + 1)
  }

  /**
   * Joining keeps the invariant; the id handed out is new (no current player
   * has it, it is at least 1) and every later one is larger; the newcomer is
   * alive, with the account it joined under, a palette colour and one
   * STARTING_MASS cell inside the spawn margin; nobody else changes.
   */
  lemma {:induction false} JoinedProperties(s: WorldState, name: string, userId: Option<int>, x: real, y: real, color: string)
    requires Inv(s) && SpawnPointOk(x, y) && color in PLAYER_COLORS
    ensures var r := Joined(s, name, userId, x, y, color);
      var id := s.nextPlayerId;
      && Inv(r)
      && id >= 1 && id !in s.players
      && (forall other :: other in s.players ==> other < id)
      && r.nextPlayerId == id + 1
      && r.players.Keys == s.players.Keys + {id}
      && (forall other :: other in s.players ==> r.players[other] == s.players[other])
      && r.players[id].alive && r.players[id].id == id && r.players[id].name == name
      && r.players[id].userId == userId && r.players[id].color in PLAYER_COLORS
      && |r.players[id].cells| == 1 && r.players[id].cells[0].mass == STARTING_MASS
      && SpawnPointOk(r.players[id].cells[0].x, r.players[id].cells[0].y)
      && r.food == s.food && r.viruses == s.viruses && r.ejected == s.ejected
  {
  }

  /** One connection's join request: the name, the account and the random spawn data. */
  datatype JoinRequest = JoinRequest(name: string, userId: Option<int>, x: real, y: real, color: string)

  /** The world after a run of joins, and the ids handed out, in order. */
  function JoinAll(s: WorldState, joins: seq<JoinRequest>): (WorldState, seq<nat>)
    decreases |joins|
  {
    if |joins| == 0 then (s, [])
    else
      var j := joins[|joins| - 1];
      var (before, ids) := JoinAll(s, joins[..|joins| - 1]);
      (Joined(before, j.name, j.userId, j.x, j.y, j.color), ids + [before.nextPlayerId])
  }

  /** Ids are handed out consecutively from the counter; from a fresh world that is 1, 2, 3, ... */
  lemma {:induction false} JoinAllIds(s: WorldState, joins: seq<JoinRequest>)
    ensures var (r, ids) := JoinAll(s, joins);
      && |ids| == |joins|
      && r.nextPlayerId == s.nextPlayerId + |joins|
      && (forall k :: 0 <= k < |ids| ==> ids[k] == s.nextPlayerId + k)
    decreases |joins|
  {
    if |joins| > 0 {
      JoinAllIds(s, joins[..|joins| - 1]);
    }
  }

  /** `remove_player`: the player leaves; absent ids are a no-op. */
  function Left(s: WorldState, id: nat): WorldState {
    s.(players := s.players - {id})
  }

  /** Leaving keeps the invariant, drops exactly that player, and keeps the counter, so the id is never reused. */
  lemma {:induction false} LeftProperties(s: WorldState, id: nat)
    requires Inv(s)
    ensures var r := Left(s, id);
      && Inv(r)
      && r.players.Keys == s.players.Keys - {id}
      && (forall other :: other in r.players ==> r.players[other] == s.players[other])
      && r.nextPlayerId == s.nextPlayerId && (id in s.players ==> id < r.nextPlayerId)
      && (id !in s.players ==> r == s)
  {
  }

  /** `get_killer_name`: no kill is ever recorded, so the name is always empty. */
  function KillerName(victimId: nat): (name: string)
    ensures name == ""
  {
    ""
  }

  // ---------------------------------------------------------------- the world object

  class World {
    /** Square root, cosine and sine of the platform's `f64`. */
    const sqrt: real -> real
    const cos: real -> real
    const sin: real -> real

    var players: map<nat, Player>
    var food: seq<Food>
    var viruses: seq<Virus>
    var ejected: seq<EjectedMass>
    var nextPlayerId: nat

    function State(): WorldState
      reads this
    {
      WorldState(players, food, viruses, ejected, nextPlayerId)
    }

    ghost predicate Valid()
      reads this
    {
      IsSqrt(sqrt) && Inv(State())
    }

    /** `World::new`, with the random pellets and viruses drawn from the pools. */
    constructor (sqrt: real -> real, cos: real -> real, sin: real -> real, foodPool: seq<Food>, virusPool: seq<Virus>)
      requires IsSqrt(sqrt) && Upkeep.FoodPoolOk(foodPool) && Upkeep.VirusPoolOk(virusPool)
      ensures Valid() && State() == Initial(foodPool, virusPool)
      ensures this.sqrt == sqrt && this.cos == cos && this.sin == sin
    {
      var f: seq<Food> := [];
      for i := 0 to FOOD_COUNT
        invariant f == foodPool[..i]
      {
        f := f + [foodPool[i]];
      }
      var v: seq<Virus> := [];
      for i := 0 to VIRUS_COUNT
        invariant v == virusPool[..i]
      {
        v := v + [virusPool[i]];
      }
      this.sqrt := sqrt;
      this.cos := cos;
      this.sin := sin;
      players := map[];
      food := f;
      viruses := v;
      ejected := [];
      nextPlayerId := 1;
    }

    /** `add_player`, with the random spawn point and the random palette colour as parameters. */
    method AddPlayer(name: string, userId: Option<int>, x: real, y: real, color: string) returns (id: nat)
      requires Valid() && SpawnPointOk(x, y) && color in PLAYER_COLORS
      modifies this
      ensures Valid() && State() == Joined(old(State()), name, userId, x, y, color)
      ensures id == old(nextPlayerId) && id !in old(players) && id in players
    {
      JoinedProperties(State(), name, userId, x, y, color);
      id := nextPlayerId;
      nextPlayerId := nextPlayerId + 1;
      var player := NewPlayer(id, name, userId, x, y, color);
      players := players[id := player];
    }

    method RemovePlayer(id: nat)
      requires Valid()
      modifies this
      ensures Valid() && State() == Left(old(State()), id)
    {
      LeftProperties(State(), id);
      players := players - {id};
    }

    // ---------------------------------------------------------------- the tick phases

    method MovePlayers(dt: real)
      requires Valid()
      modifies this
      ensures Valid() && State() == Movement.PlayersMoved(sqrt, old(State()), dt)
      ensures players.Keys == old(players).Keys
    {
      Movement.PlayersMovedKeepsInv(sqrt, State(), dt);
      players := Movement.MoveAll(sqrt, players, dt);
    }

    method MoveEjected(dt: real)
      requires Valid()
      modifies this
      ensures Valid() && State() == Movement.BlobsMoved(sqrt, old(State()), dt)
    {
      Movement.BlobsMovedKeepsInv(sqrt, State(), dt);
      ejected := Movement.MoveBlobs(sqrt, ejected, dt);
    }

    method CheckFoodEating()
      requires Valid()
      modifies this
      ensures Valid() && State() == Feeding.FoodEatingDone(sqrt, old(State()))
      ensures players.Keys == old(players).Keys
    {
      ghost var s := State();
      Feeding.FoodEatingDoneProperties(sqrt, s);
      players, food := Feeding.EatFood(sqrt, State());
    }

    method CheckEjectedEating()
      requires Valid()
      modifies this
      ensures Valid() && State() == Feeding.BlobEatingDone(sqrt, old(State()))
      ensures players.Keys == old(players).Keys
    {
      ghost var s := State();
      Feeding.BlobEatingDoneProperties(sqrt, s);
      players, ejected := Feeding.EatBlobs(sqrt, State());
    }

    /** `check_player_eating`; `ids` is the key order the map happened to hand out. */
    method CheckPlayerEating() returns (ghost ids: seq<nat>)
      requires Valid()
      modifies this
      ensures IsKeyOrder(ids, old(players))
      ensures Valid() && State() == Combat.PlayerEatingDone(sqrt, old(State()), ids)
    {
      ghost var s := State();
      var keys := KeyList(players);
      Combat.PlayerEatingDoneKeepsInv(sqrt, s, keys);
      players := Combat.EatPlayers(sqrt, State(), keys);
      ids := keys;
    }

    method CheckVirusEating()
      requires Valid()
      modifies this
      ensures Valid() && State() == VirusPop.VirusEatingDone(sqrt, cos, sin, old(State()))
    {
      ghost var s := State();
      VirusPop.VirusEatingDoneProperties(sqrt, cos, sin, s);
      players, viruses := VirusPop.PopViruses(sqrt, cos, sin, State());
    }

    method UpdateMergeTimers(dt: real)
      requires Valid()
      modifies this
      ensures Valid() && State() == Merging.TimersTicked(old(State()), dt)
    {
      Merging.TimersTickedKeepsInv(State(), dt);
      players := Merging.TickAllTimers(players, dt);
    }

    method MergeCells()
      requires Valid()
      modifies this
      ensures Valid() && State() == Merging.MergingDone(sqrt, old(State()))
    {
      Merging.MergingDoneProperties(sqrt, State());
      players := Merging.MergeAll(sqrt, players);
    }

    method DecayMass(dt: real)
      requires Valid()
      modifies this
      ensures Valid() && State() == Upkeep.DecayDone(old(State()), dt)
    {
      Upkeep.DecayDoneProperties(State(), dt);
      players := Upkeep.DecayAll(players, dt);
    }

    method ReplenishFood(pool: seq<Food>)
      requires Valid() && Upkeep.FoodPoolOk(pool)
      modifies this
      ensures State() == Upkeep.FoodReplenished(old(State()), pool)
      ensures Valid() && |food| == FOOD_COUNT
    {
      Upkeep.RefilledProperties(food, pool, FOOD_COUNT);
      food := Upkeep.Refill(food, pool, FOOD_COUNT);
      forall i | 0 <= i < |food| ensures FoodSpawnOk(food[i]) {
        if i >= |old(food)| {
          assert food[i] == pool[i - |old(food)|];
        } else {
          assert food[i] == old(food)[i];
        }
      }
    }

    method ReplenishViruses(pool: seq<Virus>)
      requires Valid() && Upkeep.VirusPoolOk(pool)
      modifies this
      ensures State() == Upkeep.VirusesReplenished(old(State()), pool)
      ensures Valid() && |viruses| == VIRUS_COUNT
    {
      Upkeep.RefilledProperties(viruses, pool, VIRUS_COUNT);
      viruses := Upkeep.Refill(viruses, pool, VIRUS_COUNT);
      forall i | 0 <= i < |viruses| ensures VirusSpawnOk(viruses[i]) {
        if i >= |old(viruses)| {
          assert viruses[i] == pool[i - |old(viruses)|];
        } else {
          assert viruses[i] == old(viruses)[i];
        }
      }
    }

    method PushApartOwnCells()
      requires Valid()
      modifies this
      ensures Valid() && State() == Upkeep.PushApartDone(sqrt, old(State()))
    {
      Upkeep.PushApartDoneKeepsInv(sqrt, State());
      players := Upkeep.PushAll(sqrt, players);
    }

    method UpdateScores()
      requires Valid()
      modifies this
      ensures Valid() && State() == Upkeep.ScoresUpdated(old(State()))
    {
      Upkeep.ScoresUpdatedProperties(State());
      players := Upkeep.UpdateAllScores(players);
    }

    /**
     * `tick`: the twelve phases in order, then the score update. The pools
     * supply the pellets and viruses spawned by the replenishing phases.
     */
    method Tick(dt: real, foodPool: seq<Food>, virusPool: seq<Virus>) returns (ghost ids: seq<nat>)
      requires Valid() && Upkeep.FoodPoolOk(foodPool) && Upkeep.VirusPoolOk(virusPool)
      modifies this
      ensures Valid() && IsKeyOrder(ids, old(players))
      ensures State() == Ticks.Tick(sqrt, cos, sin, old(State()), dt, ids, foodPool, virusPool)
    {
      ghost var s0 := State();
      MovePlayers(dt);
      MoveEjected(dt);
      CheckFoodEating();
      CheckEjectedEating();
      ids := CheckPlayerEating();
      Ticks.KeyOrderSameKeys(ids, players, s0.players);
      CheckVirusEating();
      UpdateMergeTimers(dt);
      MergeCells();
      DecayMass(dt);
      ReplenishFood(foodPool);
      ReplenishViruses(virusPool);
      PushApartOwnCells();
      UpdateScores();
    }

    // ---------------------------------------------------------------- player actions

    method SplitPlayer(id: nat)
      requires Valid()
      modifies this
      ensures Valid() && State() == Actions.SplitDone(sqrt, old(State()), id)
    {
      Actions.SplitDoneProperties(sqrt, State(), id);
      if id in players && players[id].alive && CanSplit(players[id]) {
        var p := players[id];
        var cells := Actions.SplitPlayerCells(sqrt, p);
        players := players[id := p.(cells := cells)];
      }
    }

    method EjectMass(id: nat)
      requires Valid()
      modifies this
      ensures Valid() && State() == Actions.EjectDone(sqrt, old(State()), id)
    {
      ghost var s := State();
      Actions.EjectDoneProperties(sqrt, s, id);
      players, ejected := Actions.EjectFromPlayer(sqrt, State(), id);
    }

    // ---------------------------------------------------------------- queries

    /**
     * `get_leaderboard`: at most ten living players, highest score first,
     * each with its name and truncated total mass.
     */
    method GetLeaderboard() returns (board: seq<Leaderboard.Entry>, ghost ids: seq<nat>)
      requires Valid()
      ensures IsKeyOrder(ids, players) && board == Leaderboard.Board(players, ids)
      ensures |board| <= Leaderboard.LEADERBOARD_SIZE && Leaderboard.SortedByScore(board)
      ensures forall j :: 0 <= j < |board| ==> Leaderboard.IsLivingEntry(players, board[j])
    {
      var keys := KeyList(players);
      Leaderboard.LeaderboardEntries(players, keys);
      board := Leaderboard.Board(players, keys);
      ids := keys;
    }

  }
}
