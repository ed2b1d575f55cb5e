/**
 * `World::tick` (src/game/world.rs) as a function of the world: the twelve
 * phases in their fixed order, then every player's score update.
 */
module Ticks {
  import opened RealMath
  import opened Config
  import opened Players
  import opened Pickups
  import opened WorldStates
  import Movement
  import Feeding
  import Combat
  import CombatOrder
  import VirusPop
  import Merging
  import Upkeep

  /**
   * One tick. `ids` is the order in which the player map hands out its keys,
   * `cos` and `sin` stand for the trigonometry of the fragment launch, and
   * the pools hold the random pellets and viruses spawned on replenishing.
   */
  function Tick(sqrt: real -> real, cos: real -> real, sin: real -> real, s: WorldState, dt: real, ids: seq<nat>,
                foodPool: seq<Food>, virusPool: seq<Virus>): (r: WorldState)
    requires IsSqrt(sqrt) && Inv(s) && Upkeep.FoodPoolOk(foodPool) && Upkeep.VirusPoolOk(virusPool)
  {
    Movement.PlayersMovedKeepsInv(sqrt, s, dt);
    var s1 := Movement.PlayersMoved(sqrt, s, dt);
    Movement.BlobsMovedKeepsInv(sqrt, s1, dt);
    var s2 := Movement.BlobsMoved(sqrt, s1, dt);
    Feeding.FoodEatingDoneProperties(sqrt, s2);
    var s3 := Feeding.FoodEatingDone(sqrt, s2);
    Feeding.BlobEatingDoneProperties(sqrt, s3);
    var s4 := Feeding.BlobEatingDone(sqrt, s3);
    Combat.PlayerEatingDoneKeepsInv(sqrt, s4, ids);
    var s5 := Combat.PlayerEatingDone(sqrt, s4, ids);
    VirusPop.VirusEatingDoneProperties(sqrt, cos, sin, s5);
    var s6 := VirusPop.VirusEatingDone(sqrt, cos, sin, s5);
    Merging.TimersTickedKeepsInv(s6, dt);
    var s7 := Merging.TimersTicked(s6, dt);
    Merging.MergingDoneProperties(sqrt, s7);
    var s8 := Merging.MergingDone(sqrt, s7);
    Upkeep.DecayDoneProperties(s8, dt);
    var s9 := Upkeep.DecayDone(s8, dt);
    Upkeep.ReplenishedProperties(s9, foodPool, virusPool);
    var s10 := Upkeep.VirusesReplenished(Upkeep.FoodReplenished(s9, foodPool), virusPool);
    Upkeep.PushApartDoneKeepsInv(sqrt, s10);
    var s11 := Upkeep.PushApartDone(sqrt, s10);
    Upkeep.ScoresUpdated(s11)
  }

  /** Whether `ids` lists the keys of `ps` depends on the keys alone. */
  lemma {:induction false} KeyOrderSameKeys(ids: seq<nat>, ps: map<nat, Player>, qs: map<nat, Player>)
    requires IsKeyOrder(ids, ps) && ps.Keys == qs.Keys
    ensures IsKeyOrder(ids, qs)
  {
    assert forall id :: id in ps <==> id in qs;
  }

  /**
   * A tick keeps the world invariant and the set of players, leaves exactly
   * FOOD_COUNT pellets and VIRUS_COUNT viruses, and leaves every score at
   * least the player's floored total mass.
   */
  lemma {:induction false} TickProperties(sqrt: real -> real, cos: real -> real, sin: real -> real, s: WorldState, dt: real, ids: seq<nat>,
                       foodPool: seq<Food>, virusPool: seq<Virus>)
    requires IsSqrt(sqrt) && Inv(s) && Upkeep.FoodPoolOk(foodPool) && Upkeep.VirusPoolOk(virusPool)
    ensures var r := Tick(sqrt, cos, sin, s, dt, ids, foodPool, virusPool);
      && Inv(r)
      && r.players.Keys == s.players.Keys
      && |r.food| == FOOD_COUNT && |r.viruses| == VIRUS_COUNT
      && (forall id :: id in r.players ==> r.players[id].score >= U64(TotalMass(r.players[id].cells)))
  {
    Movement.PlayersMovedKeepsInv(sqrt, s, dt);
    var s1 := Movement.PlayersMoved(sqrt, s, dt);
    Movement.BlobsMovedKeepsInv(sqrt, s1, dt);
    var s2 := Movement.BlobsMoved(sqrt, s1, dt);
    Feeding.FoodEatingDoneProperties(sqrt, s2);
    var s3 := Feeding.FoodEatingDone(sqrt, s2);
    Feeding.BlobEatingDoneProperties(sqrt, s3);
    var s4 := Feeding.BlobEatingDone(sqrt, s3);
    Combat.PlayerEatingDoneKeepsInv(sqrt, s4, ids);
    var s5 := Combat.PlayerEatingDone(sqrt, s4, ids);
    VirusPop.VirusEatingDoneProperties(sqrt, cos, sin, s5);
    var s6 := VirusPop.VirusEatingDone(sqrt, cos, sin, s5);
    Merging.TimersTickedKeepsInv(s6, dt);
    var s7 := Merging.TimersTicked(s6, dt);
    Merging.MergingDoneProperties(sqrt, s7);
    var s8 := Merging.MergingDone(sqrt, s7);
    Upkeep.DecayDoneProperties(s8, dt);
    var s9 := Upkeep.DecayDone(s8, dt);
    Upkeep.ReplenishedProperties(s9, foodPool, virusPool);
    var s10 := Upkeep.VirusesReplenished(Upkeep.FoodReplenished(s9, foodPool), virusPool);
    Upkeep.PushApartDoneKeepsInv(sqrt, s10);
    var s11 := Upkeep.PushApartDone(sqrt, s10);
    Upkeep.ScoresUpdatedProperties(s11);
    var r := Upkeep.ScoresUpdated(s11);
    assert r == Tick(sqrt, cos, sin, s, dt, ids, foodPool, virusPool);
    forall id | id in r.players ensures r.players[id].score >= U64(TotalMass(r.players[id].cells)) {
      assert r.players[id].cells == s11.players[id].cells;
    }
  }

  /**
   * The order in which the player map is iterated does not change the tick:
   * any two key orders give the same world.
   */
  lemma {:induction false} TickOrderIndependent(sqrt: real -> real, cos: real -> real, sin: real -> real, s: WorldState, dt: real,
                             ids1: seq<nat>, ids2: seq<nat>, foodPool: seq<Food>, virusPool: seq<Virus>)
    requires IsSqrt(sqrt) && Inv(s) && Upkeep.FoodPoolOk(foodPool) && Upkeep.VirusPoolOk(virusPool)
    requires IsKeyOrder(ids1, s.players) && IsKeyOrder(ids2, s.players)
    ensures Tick(sqrt, cos, sin, s, dt, ids1, foodPool, virusPool) == Tick(sqrt, cos, sin, s, dt, ids2, foodPool, virusPool)
  {
    Movement.PlayersMovedKeepsInv(sqrt, s, dt);
    var s1 := Movement.PlayersMoved(sqrt, s, dt);
    Movement.BlobsMovedKeepsInv(sqrt, s1, dt);
    var s2 := Movement.BlobsMoved(sqrt, s1, dt);
    Feeding.FoodEatingDoneProperties(sqrt, s2);
    var s3 := Feeding.FoodEatingDone(sqrt, s2);
    Feeding.BlobEatingDoneProperties(sqrt, s3);
    var s4 := Feeding.BlobEatingDone(sqrt, s3);
    KeyOrderSameKeys(ids1, s.players, s4.players);
    KeyOrderSameKeys(ids2, s.players, s4.players);
    CombatOrder.PlayerEatingOrderIndependent(sqrt, s4, ids1, ids2);
  }
}
