/**
 * The rest of the tick: `decay_mass`, `replenish_food`,
 * `replenish_viruses`, `push_apart_own_cells` and the score update.
 */
module Upkeep {
  import opened RealMath
  import opened Config
  import opened Physics
  import opened Players
  import opened Pickups
  import opened WorldStates

  // ---------------------------------------------------------------- decay

  /** A cell's mass after `dt` seconds of decay: only above DECAY_MIN_MASS, never below MIN_MASS. */
  function DecayedMass(m: real, dt: real): real {
    if m > DECAY_MIN_MASS then
      var d := m - m * DECAY_RATE * dt;
      if d < MIN_MASS then MIN_MASS else d
    else m
  }

  /**
   * Decay leaves light cells alone, never takes a cell below MIN_MASS, never
   * adds mass for a non-negative `dt`, and otherwise takes the fraction
   * `DECAY_RATE * dt` of the mass.
   */
  lemma {:induction false} DecayedMassProperties(m: real, dt: real)
    ensures m <= DECAY_MIN_MASS ==> DecayedMass(m, dt) == m
    ensures m >= MIN_MASS ==> DecayedMass(m, dt) >= MIN_MASS
    ensures 0.0 <= dt && m >= MIN_MASS ==> DecayedMass(m, dt) <= m
    ensures m > DECAY_MIN_MASS && DecayedMass(m, dt) > MIN_MASS ==> m - DecayedMass(m, dt) == m * DECAY_RATE * dt
  {
    if m > DECAY_MIN_MASS && 0.0 <= dt {
      NonNegMul(m * DECAY_RATE, dt);
    }
  }

  function DecayedCells(cells: seq<Cell>, dt: real): (r: seq<Cell>)
    ensures |r| == |cells|
    ensures forall k :: 0 <= k < |r| ==> r[k] == cells[k].(mass := DecayedMass(cells[k].mass, dt))
  {
    seq(|cells|, k requires 0 <= k < |cells| => cells[k].(mass := DecayedMass(cells[k].mass, dt)))
  }

  /** The world after `decay_mass`: every player's cells, dead or alive. */
  function DecayDone(s: WorldState, dt: real): (r: WorldState)
    ensures r == s.(players := r.players)
  {
    s.(players := map id | id in s.players :: s.players[id].(cells := DecayedCells(s.players[id].cells, dt)))
  }

  /** Decay keeps the invariant, the number of cells, and for `dt >= 0` never raises a total. */
  lemma {:induction false} DecayDoneProperties(s: WorldState, dt: real)
    requires Inv(s)
    ensures var r := DecayDone(s, dt);
      && Inv(r)
      && r.players.Keys == s.players.Keys
      && (forall id :: id in s.players ==> |r.players[id].cells| == |s.players[id].cells|)
      && (0.0 <= dt ==> forall id :: id in s.players ==> TotalMass(r.players[id].cells) <= TotalMass(s.players[id].cells))
  {
    var r := DecayDone(s, dt);
    forall id | id in s.players
      ensures WellFormed(r.players[id])
      ensures 0.0 <= dt ==> TotalMass(r.players[id].cells) <= TotalMass(s.players[id].cells)
    {
      var cells := s.players[id].cells;
      forall k | 0 <= k < |cells| ensures r.players[id].cells[k].mass >= MIN_MASS {
        DecayedMassProperties(cells[k].mass, dt);
      }
      if 0.0 <= dt {
        forall k | 0 <= k < |cells| ensures r.players[id].cells[k].mass <= cells[k].mass {
          DecayedMassProperties(cells[k].mass, dt);
        }
        LighterCellsLighterTotal(r.players[id].cells, cells);
      }
    }
  }

  /** `for cell in &mut player.cells`: the decay update. */
  method DecayCells(cells: seq<Cell>, dt: real) returns (out: seq<Cell>)
    ensures out == DecayedCells(cells, dt)
  {
    out := cells;
    for k := 0 to |cells|
      invariant |out| == |cells|
      invariant forall j :: 0 <= j < k ==> out[j] == cells[j].(mass := DecayedMass(cells[j].mass, dt))
      invariant forall j :: k <= j < |cells| ==> out[j] == cells[j]
    {
      if out[k].mass > DECAY_MIN_MASS {
        var m := out[k].mass - out[k].mass * DECAY_RATE * dt;
        if m < MIN_MASS {
          m := MIN_MASS;
        }
        out := out[k := out[k].(mass := m)];
      }
    }
  }

  // ---------------------------------------------------------------- replenishing

  /**
   * `while xs.len() < target { xs.push(random()) }`, with the random items
   * drawn in order from `pool`.
   */
  function Refilled<T>(xs: seq<T>, pool: seq<T>, target: nat): (r: seq<T>)
    requires |pool| >= target
  {
    if |xs| >= target then xs else xs + pool[..target - |xs|]
  }

  /** A refill reaches the target, keeps what was there, and appends only pool items, in order. */
  lemma {:induction false} RefilledProperties<T>(xs: seq<T>, pool: seq<T>, target: nat)
    requires |pool| >= target
    ensures var r := Refilled(xs, pool, target);
      && |r| == (if |xs| >= target then |xs| else target)
      && r[..|xs|] == xs
      && (forall k :: |xs| <= k < |r| ==> r[k] == pool[k - |xs|])
  {
  }

  method Refill<T>(xs: seq<T>, pool: seq<T>, target: nat) returns (out: seq<T>)
    requires |pool| >= target
    ensures out == Refilled(xs, pool, target)
  {
    out := xs;
    var next := 0;
    while |out| < target
      invariant |xs| <= |out| && (|xs| >= target ==> out == xs)
      invariant |out| < target ==> next == |out| - |xs|
      invariant |xs| < target ==> |out| <= target && next == |out| - |xs| && out == xs + pool[..next]
      decreases target - |out|
    {
      out := out + [pool[next]];
      next := next + 1;
    }
  }

  /** Every item of the pool is one `Food::random` could produce. */
  predicate FoodPoolOk(pool: seq<Food>) {
    |pool| >= FOOD_COUNT && forall i :: 0 <= i < |pool| ==> FoodSpawnOk(pool[i])
  }

  predicate VirusPoolOk(pool: seq<Virus>) {
    |pool| >= VIRUS_COUNT && forall i :: 0 <= i < |pool| ==> VirusSpawnOk(pool[i])
  }

  function FoodReplenished(s: WorldState, pool: seq<Food>): (r: WorldState)
    requires FoodPoolOk(pool)
    ensures r == s.(food := r.food)
  {
    s.(food := Refilled(s.food, pool, FOOD_COUNT))
  }

  function VirusesReplenished(s: WorldState, pool: seq<Virus>): (r: WorldState)
    requires VirusPoolOk(pool)
    ensures r == s.(viruses := r.viruses)
  {
    s.(viruses := Refilled(s.viruses, pool, VIRUS_COUNT))
  }

  /** After replenishing, the world holds exactly FOOD_COUNT pellets and VIRUS_COUNT viruses. */
  lemma {:induction false} ReplenishedProperties(s: WorldState, foodPool: seq<Food>, virusPool: seq<Virus>)
    requires Inv(s) && FoodPoolOk(foodPool) && VirusPoolOk(virusPool)
    ensures var r := VirusesReplenished(FoodReplenished(s, foodPool), virusPool);
      && Inv(r)
      && |r.food| == FOOD_COUNT && r.food[..|s.food|] == s.food
      && |r.viruses| == VIRUS_COUNT && r.viruses[..|s.viruses|] == s.viruses
  {
    RefilledProperties(s.food, foodPool, FOOD_COUNT);
    RefilledProperties(s.viruses, virusPool, VIRUS_COUNT);
    var r := VirusesReplenished(FoodReplenished(s, foodPool), virusPool);
    forall i | 0 <= i < |r.food| ensures FoodSpawnOk(r.food[i]) {
      if i < |s.food| {
        assert r.food[i] == r.food[..|s.food|][i];
      }
    }
    forall i | 0 <= i < |r.viruses| ensures VirusSpawnOk(r.viruses[i]) {
      if i < |s.viruses| {
        assert r.viruses[i] == r.viruses[..|s.viruses|][i];
      }
    }
  }

  // ---------------------------------------------------------------- pushing apart

  /** Two cells overlap while one of them still waits on its merge timer. */
  predicate Repels(sqrt: real -> real, a: Cell, b: Cell) {
    && (a.mergeTime > 0.0 || b.mergeTime > 0.0)
    && var d := Distance(sqrt, a.x, a.y, b.x, b.y);
       d < Radius(sqrt, a) + Radius(sqrt, b) && d > 0.01
  }

  /** Half the overlap, along the unit vector from `a` to `b`. */
  function PushOffset(sqrt: real -> real, a: Cell, b: Cell): (real, real) {
    var d := Distance(sqrt, a.x, a.y, b.x, b.y);
    var push := (Radius(sqrt, a) + Radius(sqrt, b) - d) * 0.5;
    var n := Normalize(sqrt, b.x - a.x, b.y - a.y);
    (n.0 * push, n.1 * push)
  }

  /** Cell `i` moves back by `(dx, dy)` and cell `j` forward by it. */
  function Shifted(cells: seq<Cell>, i: nat, j: nat, dx: real, dy: real): (r: seq<Cell>)
    requires i < j < |cells|
    ensures |r| == |cells|
  {
    cells[i := cells[i].(x := cells[i].x - dx, y := cells[i].y - dy)]
         [j := cells[j].(x := cells[j].x + dx, y := cells[j].y + dy)]
  }

  /** Opposite shifts keep the coordinate sums and change nothing but the two positions. */
  lemma {:induction false} ShiftedProperties(cells: seq<Cell>, i: nat, j: nat, dx: real, dy: real)
    requires i < j < |cells|
    ensures var r := Shifted(cells, i, j, dx, dy);
      && SumX(r) == SumX(cells) && SumY(r) == SumY(cells)
      && (forall k :: 0 <= k < |cells| ==> r[k] == cells[k].(x := r[k].x, y := r[k].y))
      && (forall k :: 0 <= k < |cells| && k != i && k != j ==> r[k] == cells[k])
  {
    var u := cells[i := cells[i].(x := cells[i].x - dx, y := cells[i].y - dy)];
    SumsUpdate(cells, i, cells[i].(x := cells[i].x - dx, y := cells[i].y - dy));
    SumsUpdate(u, j, cells[j].(x := cells[j].x + dx, y := cells[j].y + dy));
  }

  /** The pair `(i, j)` pushed apart when it repels. */
  function PushedPair(sqrt: real -> real, cells: seq<Cell>, i: nat, j: nat): (r: seq<Cell>)
    requires i < j < |cells|
    ensures |r| == |cells|
  {
    if Repels(sqrt, cells[i], cells[j]) then
      var off := PushOffset(sqrt, cells[i], cells[j]);
      Shifted(cells, i, j, off.0, off.1)
    else cells
  }

  /** `for i in 0..len { for j in (i + 1)..len { ... } }` from position `(i, j)`. */
  function PushFrom(sqrt: real -> real, cells: seq<Cell>, i: nat, j: nat): (r: seq<Cell>)
    requires i < j
    ensures |r| == |cells|
    decreases |cells| - i, |cells| - j
  {
    if i >= |cells| then cells
    else if j >= |cells| then PushFrom(sqrt, cells, i + 1, i + 2)
    else PushFrom(sqrt, PushedPair(sqrt, cells, i, j), i, j + 1)
  }

  function PushedApart(sqrt: real -> real, cells: seq<Cell>): (r: seq<Cell>)
    ensures |r| == |cells|
  {
    if |cells| <= 1 then cells else PushFrom(sqrt, cells, 0, 1)
  }

  /** The sum of the cells' `x` (resp. `y`) coordinates. */
  function SumX(cells: seq<Cell>): real {
    if |cells| == 0 then 0.0 else SumX(cells[..|cells| - 1]) + cells[|cells| - 1].x
  }

  function SumY(cells: seq<Cell>): real {
    if |cells| == 0 then 0.0 else SumY(cells[..|cells| - 1]) + cells[|cells| - 1].y
  }

  lemma {:induction false} SumsUpdate(cells: seq<Cell>, i: nat, c: Cell)
    requires i < |cells|
    ensures SumX(cells[i := c]) == SumX(cells) - cells[i].x + c.x
    ensures SumY(cells[i := c]) == SumY(cells) - cells[i].y + c.y
  {
    if i < |cells| - 1 {
      assert cells[i := c][..|cells| - 1] == cells[..|cells| - 1][i := c];
      SumsUpdate(cells[..|cells| - 1], i, c);
    } else {
      assert cells[i := c][..|cells| - 1] == cells[..|cells| - 1];
    }
  }

  /**
   * One push moves the two cells by opposite offsets, so the coordinate sums
   * are kept, and it changes nothing but positions.
   */
  lemma {:induction false} PushedPairProperties(sqrt: real -> real, cells: seq<Cell>, i: nat, j: nat)
    requires i < j < |cells|
    ensures var r := PushedPair(sqrt, cells, i, j);
      && SumX(r) == SumX(cells) && SumY(r) == SumY(cells)
      && (forall k :: 0 <= k < |cells| ==> r[k] == cells[k].(x := r[k].x, y := r[k].y))
      && (forall k :: 0 <= k < |cells| && k != i && k != j ==> r[k] == cells[k])
      && (!Repels(sqrt, cells[i], cells[j]) ==> r == cells)
  {
    if Repels(sqrt, cells[i], cells[j]) {
      var off := PushOffset(sqrt, cells[i], cells[j]);
      ShiftedProperties(cells, i, j, off.0, off.1);
    }
  }

  /** Pushing apart moves cells and nothing else: masses, timers and velocities stay, and so do the coordinate sums. */
  lemma {:induction false} PushFromProperties(sqrt: real -> real, cells: seq<Cell>, i: nat, j: nat)
    requires i < j
    ensures var r := PushFrom(sqrt, cells, i, j);
      && SumX(r) == SumX(cells) && SumY(r) == SumY(cells)
      && (forall k :: 0 <= k < |cells| ==> r[k] == cells[k].(x := r[k].x, y := r[k].y))
    decreases |cells| - i, |cells| - j
  {
    if i >= |cells| {
    } else if j >= |cells| {
      PushFromProperties(sqrt, cells, i + 1, i + 2);
    } else {
      PushedPairProperties(sqrt, cells, i, j);
      PushFromProperties(sqrt, PushedPair(sqrt, cells, i, j), i, j + 1);
    }
  }

  /** Cells that have all run out their merge timers are not pushed at all. */
  lemma {:induction false} AllReadyNotPushed(sqrt: real -> real, cells: seq<Cell>, i: nat, j: nat)
    requires i < j && forall k :: 0 <= k < |cells| ==> cells[k].mergeTime <= 0.0
    ensures PushFrom(sqrt, cells, i, j) == cells
    decreases |cells| - i, |cells| - j
  {
    if i >= |cells| {
    } else if j >= |cells| {
      AllReadyNotPushed(sqrt, cells, i + 1, i + 2);
    } else {
      PushedPairProperties(sqrt, cells, i, j);
      AllReadyNotPushed(sqrt, cells, i, j + 1);
    }
  }

  /** The world after `push_apart_own_cells`. */
  function PushApartDone(sqrt: real -> real, s: WorldState): (r: WorldState)
    ensures r == s.(players := r.players)
  {
    s.(players := map id | id in s.players :: s.players[id].(cells := PushedApart(sqrt, s.players[id].cells)))
  }

  lemma {:induction false} PushApartDoneKeepsInv(sqrt: real -> real, s: WorldState)
    requires Inv(s)
    ensures var r := PushApartDone(sqrt, s);
      && Inv(r)
      && r.players.Keys == s.players.Keys
      && (forall id :: id in s.players ==> TotalMass(r.players[id].cells) == TotalMass(s.players[id].cells))
  {
    var r := PushApartDone(sqrt, s);
    forall id | id in s.players
      ensures WellFormed(r.players[id]) && TotalMass(r.players[id].cells) == TotalMass(s.players[id].cells)
    {
      var cells := s.players[id].cells;
      if |cells| > 1 {
        PushFromProperties(sqrt, cells, 0, 1);
      }
      SameMassesSameTotal(r.players[id].cells, cells);
    }
  }

  /** The body of the inner loop: push the pair apart when it repels. */
  method PushPair(sqrt: real -> real, cells: seq<Cell>, i: nat, j: nat) returns (out: seq<Cell>)
    requires i < j < |cells|
    ensures out == PushedPair(sqrt, cells, i, j)
  {
    out := cells;
    if cells[i].mergeTime > 0.0 || cells[j].mergeTime > 0.0 {
      var dist := Distance(sqrt, cells[i].x, cells[i].y, cells[j].x, cells[j].y);
      var r1 := Radius(sqrt, cells[i]);
      var r2 := Radius(sqrt, cells[j]);
      var minDist := r1 + r2;
      if dist < minDist && dist > 0.01 {
        var overlap := minDist - dist;
        var n := Normalize(sqrt, cells[j].x - cells[i].x, cells[j].y - cells[i].y);
        var push := overlap * 0.5;
        assert PushOffset(sqrt, cells[i], cells[j]).0 == n.0 * push;
        assert PushOffset(sqrt, cells[i], cells[j]).1 == n.1 * push;
        out := out[i := out[i].(x := out[i].x - n.0 * push, y := out[i].y - n.1 * push)];
        out := out[j := out[j].(x := out[j].x + n.0 * push, y := out[j].y + n.1 * push)];
      }
    }
  }

  /** `push_apart_own_cells` for one player: both `for` loops over a fixed length. */
  method PushApart(sqrt: real -> real, cells: seq<Cell>) returns (out: seq<Cell>)
    ensures out == PushedApart(sqrt, cells)
  {
    out := cells;
    var len := |cells|;
    if len <= 1 {
      return;
    }
    for i := 0 to len
      invariant |out| == len
      invariant PushFrom(sqrt, out, i, i + 1) == PushFrom(sqrt, cells, 0, 1)
    {
      for j := i + 1 to len
        invariant |out| == len
        invariant PushFrom(sqrt, out, i, j) == PushFrom(sqrt, cells, 0, 1)
      {
        out := PushPair(sqrt, out, i, j);
      }
    }
  }

  // ---------------------------------------------------------------- scores

  /** The world after `player.update_score()` for every player. */
  function ScoresUpdated(s: WorldState): (r: WorldState)
    ensures r == s.(players := r.players)
  {
    s.(players := map id | id in s.players :: UpdateScore(s.players[id]))
  }

  /** Every score becomes the high-water mark of itself and the truncated total mass; nothing else changes. */
  lemma {:induction false} ScoresUpdatedProperties(s: WorldState)
    requires Inv(s)
    ensures var r := ScoresUpdated(s);
      && Inv(r)
      && r.players.Keys == s.players.Keys
      && (forall id :: id in s.players ==>
            && r.players[id] == s.players[id].(score := r.players[id].score)
            && r.players[id].score >= s.players[id].score
            && r.players[id].score >= U64(TotalMass(s.players[id].cells)))
  {
    forall id | id in s.players {
      UpdateScoreIsHighWaterMark(s.players[id]);
    }
  }

  /** The player loop of `decay_mass`, dead players included. */
  method DecayAll(ps: map<nat, Player>, dt: real) returns (out: map<nat, Player>)
    ensures out.Keys == ps.Keys
    ensures forall id :: id in ps ==> out[id] == ps[id].(cells := DecayedCells(ps[id].cells, dt))
  {
    out := ps;
    var todo := ps.Keys;
    while todo != {}
      invariant todo <= ps.Keys && out.Keys == ps.Keys
      invariant forall id :: id in todo ==> out[id] == ps[id]
      invariant forall id :: id in ps && id !in todo ==> out[id] == ps[id].(cells := DecayedCells(ps[id].cells, dt))
      decreases |todo|
    {
      var id :| id in todo;
      var p := out[id];
      var cells := DecayCells(p.cells, dt);
      out := out[id := p.(cells := cells)];
      todo := todo - {id};
    }
  }

  /** The player loop of `push_apart_own_cells`. */
  method PushAll(sqrt: real -> real, ps: map<nat, Player>) returns (out: map<nat, Player>)
    ensures out.Keys == ps.Keys
    ensures forall id :: id in ps ==> out[id] == ps[id].(cells := PushedApart(sqrt, ps[id].cells))
  {
    out := ps;
    var todo := ps.Keys;
    while todo != {}
      invariant todo <= ps.Keys && out.Keys == ps.Keys
      invariant forall id :: id in todo ==> out[id] == ps[id]
      invariant forall id :: id in ps && id !in todo ==> out[id] == ps[id].(cells := PushedApart(sqrt, ps[id].cells))
      decreases |todo|
    {
      var id :| id in todo;
      var p := out[id];
      var cells := PushApart(sqrt, p.cells);
      out := out[id := p.(cells := cells)];
      todo := todo - {id};
    }
  }

  /** `for player in self.players.values_mut() { player.update_score(); }` */
  method UpdateAllScores(ps: map<nat, Player>) returns (out: map<nat, Player>)
    ensures out.Keys == ps.Keys
    ensures forall id :: id in ps ==> out[id] == UpdateScore(ps[id])
  {
    out := ps;
    var todo := ps.Keys;
    while todo != {}
      invariant todo <= ps.Keys && out.Keys == ps.Keys
      invariant forall id :: id in todo ==> out[id] == ps[id]
      invariant forall id :: id in ps && id !in todo ==> out[id] == UpdateScore(ps[id])
      decreases |todo|
    {
      var id :| id in todo;
      var p := out[id];
      var mass := U64(TotalMass(p.cells));
      if mass > p.score {
        out := out[id := p.(score := mass)];
      }
      todo := todo - {id};
    }
  }
}
