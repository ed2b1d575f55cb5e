/**
 * The world's state as a value (the fields of `World` in src/game/world.rs)
 * and the invariant every operation keeps.
 */
module WorldStates {
  import opened Config
  import opened Players
  import opened Pickups

  datatype WorldState = WorldState(
    players: map<nat, Player>,
    food: seq<Food>,
    viruses: seq<Virus>,
    ejected: seq<EjectedMass>,
    nextPlayerId: nat)

  /** Every player of the map is well formed. */
  predicate AllWellFormed(ps: map<nat, Player>) {
    forall id :: id in ps ==> WellFormed(ps[id])
  }

  /** Each player is stored under its own id, and ids are below the counter (so fresh ones never clash). */
  predicate IdsConsistent(ps: map<nat, Player>, nextPlayerId: nat) {
    forall id :: id in ps ==> 1 <= id < nextPlayerId && ps[id].id == id
  }

  predicate FoodOk(food: seq<Food>) {
    |food| <= FOOD_COUNT && forall i :: 0 <= i < |food| ==> FoodSpawnOk(food[i])
  }

  predicate VirusesOk(viruses: seq<Virus>) {
    |viruses| <= VIRUS_COUNT && forall i :: 0 <= i < |viruses| ==> VirusSpawnOk(viruses[i])
  }

  predicate EjectedOk(ejected: seq<EjectedMass>) {
    forall i :: 0 <= i < |ejected| ==> ejected[i].mass == EJECT_MASS
  }

  /**
   * The world invariant: ids start at 1 and are fresh, every player is well
   * formed (alive exactly while it has cells, at most 16 cells, none below
   * the mass floor), food and viruses never exceed their targets and stay in
   * their spawn ranges, and every ejected blob has mass EJECT_MASS.
   */
  predicate Inv(s: WorldState) {
    && s.nextPlayerId >= 1
    && IdsConsistent(s.players, s.nextPlayerId)
    && AllWellFormed(s.players)
    && FoodOk(s.food)
    && VirusesOk(s.viruses)
    && EjectedOk(s.ejected)
  }

  /** `ids` lists the keys of `ps` once each: one possible `HashMap` iteration order. */
  predicate IsKeyOrder(ids: seq<nat>, ps: map<nat, Player>) {
    && (forall i, j :: 0 <= i < j < |ids| ==> ids[i] != ids[j])
    && (forall k :: 0 <= k < |ids| ==> ids[k] in ps)
    && (forall id :: id in ps ==> id in ids)
  }

  /** `self.players.keys().cloned().collect()`: the keys in some order, each once. */
  method KeyList(ps: map<nat, Player>) returns (ids: seq<nat>)
    ensures IsKeyOrder(ids, ps)
  {
    ids := [];
    var todo := ps.Keys;
    while todo != {}
      invariant todo <= ps.Keys
      invariant forall i, j :: 0 <= i < j < |ids| ==> ids[i] != ids[j]
      invariant forall k :: 0 <= k < |ids| ==> ids[k] in ps && ids[k] !in todo
      invariant forall id :: id in ps ==> id in todo || id in ids
      decreases |todo|
    {
      var id :| id in todo;
      ids := ids + [id];
      todo := todo - {id};
    }
  }
}
