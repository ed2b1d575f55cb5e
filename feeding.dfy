/**
 * Pellet eating (`check_food_eating`, `check_ejected_eating` in
 * src/game/world.rs). Every cell of every living player scans the whole list
 * and grows by each item it can reach, using its mass as it grows; an item
 * reached by anyone is removed once, after all players have fed.
 */
module Feeding {
  import opened RealMath
  import opened Config
  import opened Physics
  import opened Players
  import opened Pickups
  import opened SeqOps
  import opened WorldStates

  // ---------------------------------------------------------------- food

  /** Whether a cell of the given (current) mass reaches a food pellet. */
  predicate ReachesFood(sqrt: real -> real, c: Cell, f: Food) {
    CanEatFood(sqrt, c.x, c.y, c.mass, f.x, f.y)
  }

  /** A cell after scanning `food[..n]`, growing by FOOD_MASS for every pellet it reaches. */
  function FedOnFood(sqrt: real -> real, c: Cell, food: seq<Food>, n: nat): (r: Cell)
    requires n <= |food|
    ensures r == c.(mass := r.mass)
    ensures r.mass >= c.mass
  {
    if n == 0 then c
    else
      var prev := FedOnFood(sqrt, c, food, n - 1);
      if ReachesFood(sqrt, prev, food[n - 1]) then prev.(mass := prev.mass + FOOD_MASS) else prev
  }

  /** The positions among `food[..n]` that the cell reaches during that scan. */
  function FoodReachedBy(sqrt: real -> real, c: Cell, food: seq<Food>, n: nat): (r: set<nat>)
    requires n <= |food|
    ensures forall i :: i in r ==> i < n
  {
    if n == 0 then {}
    else
      var prev := FedOnFood(sqrt, c, food, n - 1);
      FoodReachedBy(sqrt, c, food, n - 1) + (if ReachesFood(sqrt, prev, food[n - 1]) then {n - 1} else {})
  }

  /** A cell gains exactly FOOD_MASS for every pellet it reaches, and nothing else changes. */
  lemma {:induction false} FedOnFoodGain(sqrt: real -> real, c: Cell, food: seq<Food>, n: nat)
    requires n <= |food|
    ensures FedOnFood(sqrt, c, food, n) == c.(mass := c.mass + |FoodReachedBy(sqrt, c, food, n)| as real * FOOD_MASS)
  {
    if n > 0 {
      FedOnFoodGain(sqrt, c, food, n - 1);
      var prev := FedOnFood(sqrt, c, food, n - 1);
      var before := FoodReachedBy(sqrt, c, food, n - 1);
      if ReachesFood(sqrt, prev, food[n - 1]) {
        assert n - 1 !in before;
        assert |before + {n - 1}| == |before| + 1;
      }
    }
  }

  /** A player's cells after the food scan; each cell scans the full list. */
  function FedCells(sqrt: real -> real, cells: seq<Cell>, food: seq<Food>): (r: seq<Cell>)
    ensures |r| == |cells|
    ensures forall k :: 0 <= k < |r| ==> r[k] == FedOnFood(sqrt, cells[k], food, |food|)
  {
    seq(|cells|, k requires 0 <= k < |cells| => FedOnFood(sqrt, cells[k], food, |food|))
  }

  /** Whether some of the cells reaches pellet `i`. */
  predicate SomeCellReachesFood(sqrt: real -> real, cells: seq<Cell>, food: seq<Food>, i: nat) {
    exists k :: 0 <= k < |cells| && i in FoodReachedBy(sqrt, cells[k], food, |food|)
  }

  /** The pellets any of the cells reaches. */
  function FoodEatenByCells(sqrt: real -> real, cells: seq<Cell>, food: seq<Food>): set<nat> {
    set i: nat | i < |food| && SomeCellReachesFood(sqrt, cells, food, i)
  }

  function FedPlayer(sqrt: real -> real, p: Player, food: seq<Food>): (r: Player)
    ensures r == p.(cells := r.cells)
  {
    if !p.alive then p else p.(cells := FedCells(sqrt, p.cells, food))
  }

  function FoodEatenByPlayer(sqrt: real -> real, p: Player, food: seq<Food>): set<nat> {
    if !p.alive then {} else FoodEatenByCells(sqrt, p.cells, food)
  }

  predicate SomePlayerEatsFood(sqrt: real -> real, ps: map<nat, Player>, food: seq<Food>, i: nat) {
    exists id :: id in ps && i in FoodEatenByPlayer(sqrt, ps[id], food)
  }

  /** The pellets some living player reaches. */
  function FoodEaten(sqrt: real -> real, ps: map<nat, Player>, food: seq<Food>): set<nat> {
    set i: nat | i < |food| && SomePlayerEatsFood(sqrt, ps, food, i)
  }

  /**
   * The world after `check_food_eating`: every living player fed, then the
   * eaten pellets removed with `swap_remove` from the highest index down.
   */
  function FoodEatingDone(sqrt: real -> real, s: WorldState): (r: WorldState)
    ensures r == s.(players := r.players, food := r.food)
  {
    var eaten := FoodEaten(sqrt, s.players, s.food);
    s.(players := map id | id in s.players :: FedPlayer(sqrt, s.players[id], s.food),
       food := SwapRemoveAll(s.food, DescendingMembers(eaten, |s.food|)))
  }

  /**
   * Food eating keeps the invariant; each eaten pellet leaves the list exactly
   * once (the survivors plus the eaten ones are the old list), and every cell
   * grows by FOOD_MASS per pellet it reached.
   */
  lemma {:induction false} FoodEatingDoneProperties(sqrt: real -> real, s: WorldState)
    requires Inv(s)
    ensures var r := FoodEatingDone(sqrt, s);
      var idx := DescendingMembers(FoodEaten(sqrt, s.players, s.food), |s.food|);
      && Inv(r)
      && r.players.Keys == s.players.Keys
      && |r.food| == |s.food| - |FoodEaten(sqrt, s.players, s.food)|
      && multiset(r.food) + multiset(ItemsAt(s.food, idx)) == multiset(s.food)
  {
    var r := FoodEatingDone(sqrt, s);
    var E := FoodEaten(sqrt, s.players, s.food);
    var idx := DescendingMembers(E, |s.food|);
    SwapRemoveAllRemovesExactly(s.food, idx);
    CountDescendingMembers(E, |s.food|);
    forall id | id in s.players ensures WellFormed(r.players[id]) {
      var p := s.players[id];
      assert r.players[id] == FedPlayer(sqrt, p, s.food);
      forall k | 0 <= k < |r.players[id].cells| ensures r.players[id].cells[k].mass >= MIN_MASS {
        assert r.players[id].cells[k].mass >= p.cells[k].mass;
      }
    }
    forall i | 0 <= i < |r.food| ensures FoodSpawnOk(r.food[i]) {
      assert r.food[i] in multiset(r.food);
      assert r.food[i] in multiset(s.food);
    }
  }

  /** For every living cell and every pellet: a cell's growth is FOOD_MASS per pellet reached. */
  lemma {:induction false} FedPlayerGain(sqrt: real -> real, p: Player, food: seq<Food>, k: nat)
    requires p.alive && k < |p.cells|
    ensures FedPlayer(sqrt, p, food).cells[k].mass ==
      p.cells[k].mass + |FoodReachedBy(sqrt, p.cells[k], food, |food|)| as real * FOOD_MASS
  {
    FedOnFoodGain(sqrt, p.cells[k], food, |food|);
  }

  /** The food scan of one cell, `for (fi, food) in self.food.iter().enumerate()`. */
  method FeedCellOnFood(sqrt: real -> real, c: Cell, food: seq<Food>, eaten: seq<nat>) returns (r: Cell, eaten': seq<nat>)
    requires Distinct(eaten) && AllBelow(eaten, |food|)
    ensures r == FedOnFood(sqrt, c, food, |food|)
    ensures Distinct(eaten') && AllBelow(eaten', |food|)
    ensures forall i :: i in eaten' <==> i in eaten || i in FoodReachedBy(sqrt, c, food, |food|)
  {
    r := c;
    eaten' := eaten;
    for fi := 0 to |food|
      invariant r == FedOnFood(sqrt, c, food, fi)
      invariant Distinct(eaten') && AllBelow(eaten', |food|)
      invariant forall i :: i in eaten' <==> i in eaten || i in FoodReachedBy(sqrt, c, food, fi)
    {
      if CanEatFood(sqrt, r.x, r.y, r.mass, food[fi].x, food[fi].y) {
        r := r.(mass := r.mass + FOOD_MASS);
        if fi !in eaten' {
          eaten' := eaten' + [fi];
        }
      }
    }
  }

  /** `for cell in &mut player.cells { ... }` over the food list, recording each reached index once. */
  method FeedCellsOnFood(sqrt: real -> real, cells: seq<Cell>, food: seq<Food>, eaten: seq<nat>) returns (out: seq<Cell>, eaten': seq<nat>)
    requires Distinct(eaten) && AllBelow(eaten, |food|)
    ensures out == FedCells(sqrt, cells, food)
    ensures Distinct(eaten') && AllBelow(eaten', |food|)
    ensures forall i :: i in eaten' <==> i in eaten || i in FoodEatenByCells(sqrt, cells, food)
  {
    out := cells;
    eaten' := eaten;
    for k := 0 to |cells|
      invariant |out| == |cells|
      invariant forall j :: 0 <= j < k ==> out[j] == FedOnFood(sqrt, cells[j], food, |food|)
      invariant forall j :: k <= j < |cells| ==> out[j] == cells[j]
      invariant Distinct(eaten') && AllBelow(eaten', |food|)
      invariant forall i :: i in eaten' <==>
        (i in eaten || (i < |food| && exists j :: 0 <= j < k && i in FoodReachedBy(sqrt, cells[j], food, |food|)))
    {
      var fed;
      fed, eaten' := FeedCellOnFood(sqrt, out[k], food, eaten');
      out := out[k := fed];
    }
  }

  // ---------------------------------------------------------------- ejected mass

  /** Whether a cell reaches a blob: the blob must be at rest and within the food reach. */
  predicate ReachesBlob(sqrt: real -> real, c: Cell, e: EjectedMass) {
    AtRest(e) && CanEatFood(sqrt, c.x, c.y, c.mass, e.x, e.y)
  }

  /** A cell after scanning `ejected[..n]`, growing by the mass of every blob it reaches. */
  function FedOnBlobs(sqrt: real -> real, c: Cell, ejected: seq<EjectedMass>, n: nat): (r: Cell)
    requires n <= |ejected|
    ensures r == c.(mass := r.mass)
  {
    if n == 0 then c
    else
      var prev := FedOnBlobs(sqrt, c, ejected, n - 1);
      if ReachesBlob(sqrt, prev, ejected[n - 1]) then prev.(mass := prev.mass + ejected[n - 1].mass) else prev
  }

  function BlobsReachedBy(sqrt: real -> real, c: Cell, ejected: seq<EjectedMass>, n: nat): (r: set<nat>)
    requires n <= |ejected|
    ensures forall i :: i in r ==> i < n
  {
    if n == 0 then {}
    else
      var prev := FedOnBlobs(sqrt, c, ejected, n - 1);
      BlobsReachedBy(sqrt, c, ejected, n - 1) + (if ReachesBlob(sqrt, prev, ejected[n - 1]) then {n - 1} else {})
  }

  /** With every blob of mass EJECT_MASS, a cell gains EJECT_MASS per blob it reaches. */
  lemma {:induction false} FedOnBlobsGain(sqrt: real -> real, c: Cell, ejected: seq<EjectedMass>, n: nat)
    requires n <= |ejected| && EjectedOk(ejected)
    ensures FedOnBlobs(sqrt, c, ejected, n) == c.(mass := c.mass + |BlobsReachedBy(sqrt, c, ejected, n)| as real * EJECT_MASS)
  {
    if n > 0 {
      FedOnBlobsGain(sqrt, c, ejected, n - 1);
      var prev := FedOnBlobs(sqrt, c, ejected, n - 1);
      var before := BlobsReachedBy(sqrt, c, ejected, n - 1);
      if ReachesBlob(sqrt, prev, ejected[n - 1]) {
        assert n - 1 !in before;
        assert |before + {n - 1}| == |before| + 1;
      }
    }
  }

  /** A blob still moving (a component at least 5) is never eaten, however close. */
  lemma {:induction false} MovingBlobNotReached(sqrt: real -> real, c: Cell, ejected: seq<EjectedMass>, n: nat, i: nat)
    requires n <= |ejected| && i < n && !AtRest(ejected[i])
    ensures i !in BlobsReachedBy(sqrt, c, ejected, n)
  {
    if i < n - 1 {
      MovingBlobNotReached(sqrt, c, ejected, n - 1, i);
    }
  }

  function FedCellsOnBlobs(sqrt: real -> real, cells: seq<Cell>, ejected: seq<EjectedMass>): (r: seq<Cell>)
    ensures |r| == |cells|
    ensures forall k :: 0 <= k < |r| ==> r[k] == FedOnBlobs(sqrt, cells[k], ejected, |ejected|)
  {
    seq(|cells|, k requires 0 <= k < |cells| => FedOnBlobs(sqrt, cells[k], ejected, |ejected|))
  }

  predicate SomeCellReachesBlob(sqrt: real -> real, cells: seq<Cell>, ejected: seq<EjectedMass>, i: nat) {
    exists k :: 0 <= k < |cells| && i in BlobsReachedBy(sqrt, cells[k], ejected, |ejected|)
  }

  function BlobsEatenByCells(sqrt: real -> real, cells: seq<Cell>, ejected: seq<EjectedMass>): set<nat> {
    set i: nat | i < |ejected| && SomeCellReachesBlob(sqrt, cells, ejected, i)
  }

  function BlobFedPlayer(sqrt: real -> real, p: Player, ejected: seq<EjectedMass>): (r: Player)
    ensures r == p.(cells := r.cells)
  {
    if !p.alive then p else p.(cells := FedCellsOnBlobs(sqrt, p.cells, ejected))
  }

  function BlobsEatenByPlayer(sqrt: real -> real, p: Player, ejected: seq<EjectedMass>): set<nat> {
    if !p.alive then {} else BlobsEatenByCells(sqrt, p.cells, ejected)
  }

  predicate SomePlayerEatsBlob(sqrt: real -> real, ps: map<nat, Player>, ejected: seq<EjectedMass>, i: nat) {
    exists id :: id in ps && i in BlobsEatenByPlayer(sqrt, ps[id], ejected)
  }

  function BlobsEaten(sqrt: real -> real, ps: map<nat, Player>, ejected: seq<EjectedMass>): set<nat> {
    set i: nat | i < |ejected| && SomePlayerEatsBlob(sqrt, ps, ejected, i)
  }

  /** The world after `check_ejected_eating`. */
  function BlobEatingDone(sqrt: real -> real, s: WorldState): (r: WorldState)
    ensures r == s.(players := r.players, ejected := r.ejected)
  {
    var eaten := BlobsEaten(sqrt, s.players, s.ejected);
    s.(players := map id | id in s.players :: BlobFedPlayer(sqrt, s.players[id], s.ejected),
       ejected := SwapRemoveAll(s.ejected, DescendingMembers(eaten, |s.ejected|)))
  }

  /** Helper: feeding on blobs never shrinks a cell. */
  lemma {:induction false} FedOnBlobsGrows(sqrt: real -> real, c: Cell, ejected: seq<EjectedMass>, n: nat)
    requires n <= |ejected| && EjectedOk(ejected)
    ensures FedOnBlobs(sqrt, c, ejected, n).mass >= c.mass
  {
    FedOnBlobsGain(sqrt, c, ejected, n);
  }

  /** Blob eating keeps the invariant and removes each eaten blob exactly once. */
  lemma {:induction false} BlobEatingDoneProperties(sqrt: real -> real, s: WorldState)
    requires Inv(s)
    ensures var r := BlobEatingDone(sqrt, s);
      var idx := DescendingMembers(BlobsEaten(sqrt, s.players, s.ejected), |s.ejected|);
      && Inv(r)
      && r.players.Keys == s.players.Keys
      && |r.ejected| == |s.ejected| - |BlobsEaten(sqrt, s.players, s.ejected)|
      && multiset(r.ejected) + multiset(ItemsAt(s.ejected, idx)) == multiset(s.ejected)
  {
    var r := BlobEatingDone(sqrt, s);
    var E := BlobsEaten(sqrt, s.players, s.ejected);
    var idx := DescendingMembers(E, |s.ejected|);
    SwapRemoveAllRemovesExactly(s.ejected, idx);
    CountDescendingMembers(E, |s.ejected|);
    forall id | id in s.players ensures WellFormed(r.players[id]) {
      var p := s.players[id];
      assert r.players[id] == BlobFedPlayer(sqrt, p, s.ejected);
      forall k | 0 <= k < |r.players[id].cells| ensures r.players[id].cells[k].mass >= MIN_MASS {
        if p.alive {
          FedOnBlobsGrows(sqrt, p.cells[k], s.ejected, |s.ejected|);
        }
      }
    }
    forall i | 0 <= i < |r.ejected| ensures r.ejected[i].mass == EJECT_MASS {
      assert r.ejected[i] in multiset(r.ejected);
      assert r.ejected[i] in multiset(s.ejected);
    }
  }

  method FeedCellOnBlobs(sqrt: real -> real, c: Cell, ejected: seq<EjectedMass>, eaten: seq<nat>) returns (r: Cell, eaten': seq<nat>)
    requires Distinct(eaten) && AllBelow(eaten, |ejected|)
    ensures r == FedOnBlobs(sqrt, c, ejected, |ejected|)
    ensures Distinct(eaten') && AllBelow(eaten', |ejected|)
    ensures forall i :: i in eaten' <==> i in eaten || i in BlobsReachedBy(sqrt, c, ejected, |ejected|)
  {
    r := c;
    eaten' := eaten;
    for ei := 0 to |ejected|
      invariant r == FedOnBlobs(sqrt, c, ejected, ei)
      invariant Distinct(eaten') && AllBelow(eaten', |ejected|)
      invariant forall i :: i in eaten' <==> i in eaten || i in BlobsReachedBy(sqrt, c, ejected, ei)
    {
      var ej := ejected[ei];
      if Abs(ej.vx) < 5.0 && Abs(ej.vy) < 5.0 {
        if CanEatFood(sqrt, r.x, r.y, r.mass, ej.x, ej.y) {
          r := r.(mass := r.mass + ej.mass);
          if ei !in eaten' {
            eaten' := eaten' + [ei];
          }
        }
      }
    }
  }

  method FeedCellsOnBlobs(sqrt: real -> real, cells: seq<Cell>, ejected: seq<EjectedMass>, eaten: seq<nat>) returns (out: seq<Cell>, eaten': seq<nat>)
    requires Distinct(eaten) && AllBelow(eaten, |ejected|)
    ensures out == FedCellsOnBlobs(sqrt, cells, ejected)
    ensures Distinct(eaten') && AllBelow(eaten', |ejected|)
    ensures forall i :: i in eaten' <==> i in eaten || i in BlobsEatenByCells(sqrt, cells, ejected)
  {
    out := cells;
    eaten' := eaten;
    for k := 0 to |cells|
      invariant |out| == |cells|
      invariant forall j :: 0 <= j < k ==> out[j] == FedOnBlobs(sqrt, cells[j], ejected, |ejected|)
      invariant forall j :: k <= j < |cells| ==> out[j] == cells[j]
      invariant Distinct(eaten') && AllBelow(eaten', |ejected|)
      invariant forall i :: i in eaten' <==>
        (i in eaten || (i < |ejected| && exists j :: 0 <= j < k && i in BlobsReachedBy(sqrt, cells[j], ejected, |ejected|)))
    {
      var fed;
      fed, eaten' := FeedCellOnBlobs(sqrt, out[k], ejected, eaten');
      out := out[k := fed];
    }
  }

  // ---------------------------------------------------------------- whole world

  /**
   * The player loop of `check_food_eating`: every living player fed on the
   * same pellet list, each reached index recorded once.
   */
  method FeedAllOnFood(sqrt: real -> real, ps: map<nat, Player>, food: seq<Food>) returns (out: map<nat, Player>, eaten: seq<nat>)
    ensures out.Keys == ps.Keys
    ensures forall id :: id in ps ==> out[id] == FedPlayer(sqrt, ps[id], food)
    ensures Distinct(eaten) && AllBelow(eaten, |food|)
    ensures forall i :: i in eaten <==> i in FoodEaten(sqrt, ps, food) && i < |food|
  {
    out := ps;
    eaten := [];
    var todo := ps.Keys;
    while todo != {}
      invariant todo <= ps.Keys && out.Keys == ps.Keys
      invariant forall id :: id in todo ==> out[id] == ps[id]
      invariant forall id :: id in ps && id !in todo ==> out[id] == FedPlayer(sqrt, ps[id], food)
      invariant Distinct(eaten) && AllBelow(eaten, |food|)
      invariant forall i :: i in eaten <==>
        (i < |food| && exists id :: id in ps && id !in todo && i in FoodEatenByPlayer(sqrt, ps[id], food))
      decreases |todo|
    {
      var id :| id in todo;
      var p := out[id];
      if p.alive {
        var cells;
        cells, eaten := FeedCellsOnFood(sqrt, p.cells, food, eaten);
        out := out[id := p.(cells := cells)];
      }
      todo := todo - {id};
    }
  }

  /** The player loop of `check_ejected_eating`. */
  method FeedAllOnBlobs(sqrt: real -> real, ps: map<nat, Player>, ejected: seq<EjectedMass>) returns (out: map<nat, Player>, eaten: seq<nat>)
    ensures out.Keys == ps.Keys
    ensures forall id :: id in ps ==> out[id] == BlobFedPlayer(sqrt, ps[id], ejected)
    ensures Distinct(eaten) && AllBelow(eaten, |ejected|)
    ensures forall i :: i in eaten <==> i in BlobsEaten(sqrt, ps, ejected) && i < |ejected|
  {
    out := ps;
    eaten := [];
    var todo := ps.Keys;
    while todo != {}
      invariant todo <= ps.Keys && out.Keys == ps.Keys
      invariant forall id :: id in todo ==> out[id] == ps[id]
      invariant forall id :: id in ps && id !in todo ==> out[id] == BlobFedPlayer(sqrt, ps[id], ejected)
      invariant Distinct(eaten) && AllBelow(eaten, |ejected|)
      invariant forall i :: i in eaten <==>
        (i < |ejected| && exists id :: id in ps && id !in todo && i in BlobsEatenByPlayer(sqrt, ps[id], ejected))
      decreases |todo|
    {
      var id :| id in todo;
      var p := out[id];
      if p.alive {
        var cells;
        cells, eaten := FeedCellsOnBlobs(sqrt, p.cells, ejected, eaten);
        out := out[id := p.(cells := cells)];
      }
      todo := todo - {id};
    }
  }

  /** `check_food_eating` on the player map and the pellet list: feed, then swap-remove the eaten pellets highest index first. */
  method EatFood(sqrt: real -> real, s: WorldState) returns (ps: map<nat, Player>, food: seq<Food>)
    ensures ps == FoodEatingDone(sqrt, s).players && food == FoodEatingDone(sqrt, s).food
  {
    var eaten;
    ps, eaten := FeedAllOnFood(sqrt, s.players, s.food);
    SortedIndicesAreDescendingMembers(eaten, FoodEaten(sqrt, s.players, s.food), |s.food|);
    food := SwapRemoveEach(s.food, SortDesc(eaten));
  }

  /** `check_ejected_eating` on the player map and the blob list. */
  method EatBlobs(sqrt: real -> real, s: WorldState) returns (ps: map<nat, Player>, ejected: seq<EjectedMass>)
    ensures ps == BlobEatingDone(sqrt, s).players && ejected == BlobEatingDone(sqrt, s).ejected
  {
    var eaten;
    ps, eaten := FeedAllOnBlobs(sqrt, s.players, s.ejected);
    SortedIndicesAreDescendingMembers(eaten, BlobsEaten(sqrt, s.players, s.ejected), |s.ejected|);
    ejected := SwapRemoveEach(s.ejected, SortDesc(eaten));
  }
}
