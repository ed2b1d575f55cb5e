/**
 * Movement phases of a tick (`move_players`, `move_ejected` in
 * src/game/world.rs): each cell coasts or steers, each blob glides, and both
 * are clamped into the world.
 */
module Movement {
  import opened RealMath
  import opened Config
  import opened Physics
  import opened Players
  import opened Pickups
  import opened WorldStates

  /** Whether a cell still carries launch momentum (either component above 1). */
  predicate Coasting(c: Cell) {
    Abs(c.vx) > 1.0 || Abs(c.vy) > 1.0
  }

  /** The length of the vector (x, y). */
  function Length(sqrt: real -> real, x: real, y: real): real {
    sqrt(x * x + y * y)
  }

  /** Whether the target is more than 5 units from the cell's centre. */
  predicate FarFromTarget(sqrt: real -> real, c: Cell, tx: real, ty: real) {
    Length(sqrt, tx - c.x, ty - c.y) > 5.0
  }

  /**
   * The unclamped step of one cell: a coasting cell moves by its velocity and
   * the velocity decays by SPLIT_DECEL; any other cell loses its velocity
   * and, when more than 5 units from the target, moves towards it at the
   * speed of its mass.
   */
  function SteeredCell(sqrt: real -> real, c: Cell, tx: real, ty: real, dt: real): (r: Cell)
    requires IsSqrt(sqrt) && 0.0 < c.mass
    ensures r.mass == c.mass && r.mergeTime == c.mergeTime
  {
    if Coasting(c) then
      c.(x := c.x + c.vx * dt, y := c.y + c.vy * dt, vx := c.vx * SPLIT_DECEL, vy := c.vy * SPLIT_DECEL)
    else
      var still := c.(vx := 0.0, vy := 0.0);
      if FarFromTarget(sqrt, c, tx, ty) then
        var speed := SpeedForMass(sqrt, c.mass) * dt;
        var (nx, ny) := Normalize(sqrt, tx - c.x, ty - c.y);
        still.(x := c.x + nx * speed, y := c.y + ny * speed)
      else
        still
  }

  /** One cell's movement for the tick: the step above, then the clamp for its radius. */
  function MovedCell(sqrt: real -> real, c: Cell, tx: real, ty: real, dt: real): (r: Cell)
    requires IsSqrt(sqrt) && 0.0 < c.mass
    ensures r.mass == c.mass && r.mergeTime == c.mergeTime
    ensures r.vx == SteeredCell(sqrt, c, tx, ty, dt).vx && r.vy == SteeredCell(sqrt, c, tx, ty, dt).vy
    ensures Clamped(r.x, r.y, Radius(sqrt, r))
  {
    var s := SteeredCell(sqrt, c, tx, ty, dt);
    var rad := Radius(sqrt, s);
    ClampToWorldProperties(s.x, s.y, rad);
    var (cx, cy) := ClampToWorld(s.x, s.y, rad);
    s.(x := cx, y := cy)
  }

  /**
   * Coasting never speeds a cell up; a cell that is not coasting loses its
   * velocity, and stays put when within 5 units of its target.
   */
  lemma {:induction false} SteeredCellVelocity(sqrt: real -> real, c: Cell, tx: real, ty: real, dt: real)
    requires IsSqrt(sqrt) && 0.0 < c.mass
    ensures var r := SteeredCell(sqrt, c, tx, ty, dt);
      && (Coasting(c) ==> Abs(r.vx) <= Abs(c.vx) && Abs(r.vy) <= Abs(c.vy))
      && (!Coasting(c) ==> r.vx == 0.0 && r.vy == 0.0)
    ensures !Coasting(c) && !FarFromTarget(sqrt, c, tx, ty) ==>
      SteeredCell(sqrt, c, tx, ty, dt).x == c.x && SteeredCell(sqrt, c, tx, ty, dt).y == c.y
  {
  }

  /**
   * The move from (x0, y0) to (x1, y1) is exactly `step` long, lies on the
   * line to (tx, ty) and points towards it (positive dot product).
   */
  predicate HeadsStraightAt(x0: real, y0: real, x1: real, y1: real, tx: real, ty: real, step: real) {
    && (x1 - x0) * (x1 - x0) + (y1 - y0) * (y1 - y0) == step * step
    && (x1 - x0) * (ty - y0) == (y1 - y0) * (tx - x0)
    && 0.0 < (x1 - x0) * (tx - x0) + (y1 - y0) * (ty - y0)
  }

  /**
   * A cell that is not coasting and is more than 5 units from its target
   * moves by `speed * dt` along the normalised direction to the target
   * (before the clamp) and loses its velocity. For a positive time step that
   * move heads straight at the target and is exactly as long as the speed of
   * its mass times the time step.
   */
  lemma {:induction false} SteersTowardsTarget(sqrt: real -> real, c: Cell, tx: real, ty: real, dt: real)
    requires IsSqrt(sqrt) && 0.0 < c.mass
    requires !Coasting(c) && FarFromTarget(sqrt, c, tx, ty)
    ensures var r := SteeredCell(sqrt, c, tx, ty, dt);
      var n := Normalize(sqrt, tx - c.x, ty - c.y);
      var speed := SpeedForMass(sqrt, c.mass) * dt;
      r.x == c.x + n.0 * speed && r.y == c.y + n.1 * speed && r.vx == 0.0 && r.vy == 0.0
    ensures 0.0 < dt ==>
      var r := SteeredCell(sqrt, c, tx, ty, dt);
      HeadsStraightAt(c.x, c.y, r.x, r.y, tx, ty, SpeedForMass(sqrt, c.mass) * dt)
  {
    if 0.0 < dt {
      SteerHeadsStraightAt(sqrt, c, tx, ty, dt);
    }
  }

  /** The geometric half of the lemma above, for a positive time step. */
  lemma {:induction false} SteerHeadsStraightAt(sqrt: real -> real, c: Cell, tx: real, ty: real, dt: real)
    requires IsSqrt(sqrt) && 0.0 < c.mass && 0.0 < dt
    requires !Coasting(c) && FarFromTarget(sqrt, c, tx, ty)
    ensures var r := SteeredCell(sqrt, c, tx, ty, dt);
      HeadsStraightAt(c.x, c.y, r.x, r.y, tx, ty, SpeedForMass(sqrt, c.mass) * dt)
  {
    var r := SteeredCell(sqrt, c, tx, ty, dt);
    var n := Normalize(sqrt, tx - c.x, ty - c.y);
    var speed := SpeedForMass(sqrt, c.mass) * dt;
    NormalizeFar(sqrt, tx - c.x, ty - c.y);
    PosMul(SpeedForMass(sqrt, c.mass), dt);
    StepTowards(c.x, c.y, r.x, r.y, n.0, n.1, speed, tx, ty);
  }

  /** A positive multiple of a unit vector pointing at the target heads straight at it. */
  lemma {:induction false} StepTowards(cx: real, cy: real, rx: real, ry: real, nx: real, ny: real, speed: real, tx: real, ty: real)
    requires rx == cx + nx * speed && ry == cy + ny * speed
    requires UnitTowards(nx, ny, tx - cx, ty - cy)
    requires 0.0 < speed
    ensures HeadsStraightAt(cx, cy, rx, ry, tx, ty, speed)
  {
    assert rx - cx == nx * speed && ry - cy == ny * speed;
    ScaledStepPointsAtTarget(nx, ny, speed, tx - cx, ty - cy);
  }

  /** (nx, ny) is a unit vector pointing along (dx, dy): parallel to it and the same way round. */
  predicate UnitTowards(nx: real, ny: real, dx: real, dy: real) {
    nx * nx + ny * ny == 1.0 && nx * dy == ny * dx && 0.0 < nx * dx + ny * dy
  }

  /** The direction to a target more than 5 units away is a unit vector pointing at it. */
  lemma {:induction false} NormalizeFar(sqrt: real -> real, x: real, y: real)
    requires IsSqrt(sqrt) && Length(sqrt, x, y) > 5.0
    ensures UnitTowards(Normalize(sqrt, x, y).0, Normalize(sqrt, x, y).1, x, y)
  {
    NormalizeProperties(sqrt, x, y);
  }

  /** The unit vector scaled by a positive speed still points at the target. */
  lemma {:induction false} ScaledStepPointsAtTarget(nx: real, ny: real, speed: real, dx: real, dy: real)
    requires UnitTowards(nx, ny, dx, dy)
    requires 0.0 < speed
    ensures (nx * speed) * (nx * speed) + (ny * speed) * (ny * speed) == speed * speed
    ensures (nx * speed) * dy == (ny * speed) * dx
    ensures 0.0 < (nx * speed) * dx + (ny * speed) * dy
  {
    assert (nx * speed) * (nx * speed) + (ny * speed) * (ny * speed) == (nx * nx + ny * ny) * (speed * speed);
    assert (nx * speed) * dy == (nx * dy) * speed;
    assert (ny * speed) * dx == (ny * dx) * speed;
    assert (nx * speed) * dx + (ny * speed) * dy == (nx * dx + ny * dy) * speed;
    PosMul(nx * dx + ny * dy, speed);
  }

  /**
   * A coasting cell keeps moving on its launch velocity, which decays; a
   * resting one clears it. Either way no velocity component grows through a
   * tick's movement, clamp included.
   */
  lemma {:induction false} MovedCellVelocity(sqrt: real -> real, c: Cell, tx: real, ty: real, dt: real)
    requires IsSqrt(sqrt) && 0.0 < c.mass
    ensures var r := MovedCell(sqrt, c, tx, ty, dt);
      && (Coasting(c) ==> r.vx == c.vx * SPLIT_DECEL && r.vy == c.vy * SPLIT_DECEL)
      && (!Coasting(c) ==> r.vx == 0.0 && r.vy == 0.0)
      && Abs(r.vx) <= Abs(c.vx) && Abs(r.vy) <= Abs(c.vy)
  {
    SteeredCellVelocity(sqrt, c, tx, ty, dt);
  }

  /** The cells of a player after the movement phase (same count, same masses). */
  function MovedCells(sqrt: real -> real, cells: seq<Cell>, tx: real, ty: real, dt: real): (r: seq<Cell>)
    requires IsSqrt(sqrt) && MassesAtLeastFloor(cells)
    ensures |r| == |cells|
    ensures forall k :: 0 <= k < |r| ==> r[k] == MovedCell(sqrt, cells[k], tx, ty, dt)
  {
    seq(|cells|, k requires 0 <= k < |cells| => MovedCell(sqrt, cells[k], tx, ty, dt))
  }

  /** `for cell in &mut player.cells { ... }`: one cell at a time, in place. */
  method MoveCells(sqrt: real -> real, cells: seq<Cell>, tx: real, ty: real, dt: real) returns (out: seq<Cell>)
    requires IsSqrt(sqrt) && MassesAtLeastFloor(cells)
    ensures out == MovedCells(sqrt, cells, tx, ty, dt)
  {
    out := cells;
    for k := 0 to |cells|
      invariant |out| == |cells|
      invariant forall i :: 0 <= i < k ==> out[i] == MovedCell(sqrt, cells[i], tx, ty, dt)
      invariant forall i :: k <= i < |out| ==> out[i] == cells[i]
    {
      out := out[k := MovedCell(sqrt, out[k], tx, ty, dt)];
    }
  }

  function MovedPlayer(sqrt: real -> real, p: Player, dt: real): (r: Player)
    requires IsSqrt(sqrt) && WellFormed(p)
    ensures r == p.(cells := r.cells)
  {
    if !p.alive then p else p.(cells := MovedCells(sqrt, p.cells, p.targetX, p.targetY, dt))
  }

  /** The world after `move_players`: every living player moved, dead ones untouched. */
  function PlayersMoved(sqrt: real -> real, s: WorldState, dt: real): (r: WorldState)
    requires IsSqrt(sqrt) && AllWellFormed(s.players)
    ensures r == s.(players := r.players)
  {
    s.(players := map id | id in s.players :: MovedPlayer(sqrt, s.players[id], dt))
  }

  /**
   * Moving keeps every player's cell count and masses (so the invariant),
   * and leaves every cell of a living player clamped into the world.
   */
  lemma {:induction false} PlayersMovedKeepsInv(sqrt: real -> real, s: WorldState, dt: real)
    requires IsSqrt(sqrt) && Inv(s)
    ensures var r := PlayersMoved(sqrt, s, dt);
      && Inv(r)
      && r.players.Keys == s.players.Keys
      && (forall id :: id in s.players ==>
            |r.players[id].cells| == |s.players[id].cells|
            && (forall k :: 0 <= k < |s.players[id].cells| ==> r.players[id].cells[k].mass == s.players[id].cells[k].mass))
      && (forall id, k :: id in r.players && r.players[id].alive && 0 <= k < |r.players[id].cells| ==>
            var c := r.players[id].cells[k];
            Clamped(c.x, c.y, Radius(sqrt, c)))
  {
    var r := PlayersMoved(sqrt, s, dt);
    forall id | id in s.players ensures WellFormed(r.players[id]) {
      var p := s.players[id];
      assert r.players[id] == MovedPlayer(sqrt, p, dt);
    }
  }

  /** One blob's glide: move by its velocity, decay the velocity by EJECT_DECEL, clamp. */
  function MovedBlob(sqrt: real -> real, e: EjectedMass, dt: real): (r: EjectedMass)
    ensures r.mass == e.mass && r.color == e.color
    ensures r.vx == e.vx * EJECT_DECEL && r.vy == e.vy * EJECT_DECEL
    ensures Clamped(r.x, r.y, MassToRadius(sqrt, e.mass))
  {
    var x := e.x + e.vx * dt;
    var y := e.y + e.vy * dt;
    var rad := MassToRadius(sqrt, e.mass);
    ClampToWorldProperties(x, y, rad);
    var (cx, cy) := ClampToWorld(x, y, rad);
    e.(x := cx, y := cy, vx := e.vx * EJECT_DECEL, vy := e.vy * EJECT_DECEL)
  }

  /** The blobs after `move_ejected`, in the same order. */
  function BlobsMoved(sqrt: real -> real, s: WorldState, dt: real): (r: WorldState)
    ensures r == s.(ejected := r.ejected)
    ensures |r.ejected| == |s.ejected|
    ensures forall i :: 0 <= i < |s.ejected| ==> r.ejected[i] == MovedBlob(sqrt, s.ejected[i], dt)
  {
    s.(ejected := seq(|s.ejected|, i requires 0 <= i < |s.ejected| => MovedBlob(sqrt, s.ejected[i], dt)))
  }

  /**
   * Gliding keeps the invariant and every blob's mass and colour, and blobs
   * only ever slow down, so a blob that is at rest stays at rest.
   */
  lemma {:induction false} BlobsMovedKeepsInv(sqrt: real -> real, s: WorldState, dt: real)
    requires Inv(s)
    ensures var r := BlobsMoved(sqrt, s, dt);
      && Inv(r)
      && (forall i :: 0 <= i < |s.ejected| ==>
            Abs(r.ejected[i].vx) <= Abs(s.ejected[i].vx) && Abs(r.ejected[i].vy) <= Abs(s.ejected[i].vy)
            && (AtRest(s.ejected[i]) ==> AtRest(r.ejected[i])))
  {
  }

  /** `move_players`: each living player's cells moved in turn, keyed as before. */
  method MoveAll(sqrt: real -> real, ps: map<nat, Player>, dt: real) returns (out: map<nat, Player>)
    requires IsSqrt(sqrt) && AllWellFormed(ps)
    ensures out.Keys == ps.Keys
    ensures forall id :: id in ps ==> out[id] == MovedPlayer(sqrt, ps[id], dt)
  {
    out := ps;
    var todo := ps.Keys;
    while todo != {}
      invariant todo <= ps.Keys && out.Keys == ps.Keys
      invariant forall id :: id in todo ==> out[id] == ps[id]
      invariant forall id :: id in ps && id !in todo ==> out[id] == MovedPlayer(sqrt, ps[id], dt)
      decreases |todo|
    {
      var id :| id in todo;
      var p := out[id];
      if p.alive {
        var cells := MoveCells(sqrt, p.cells, p.targetX, p.targetY, dt);
        out := out[id := p.(cells := cells)];
      }
      todo := todo - {id};
    }
  }

  /** `move_ejected`: every blob glides, in place. */
  method MoveBlobs(sqrt: real -> real, ejected: seq<EjectedMass>, dt: real) returns (out: seq<EjectedMass>)
    ensures |out| == |ejected|
    ensures forall i :: 0 <= i < |ejected| ==> out[i] == MovedBlob(sqrt, ejected[i], dt)
  {
    out := ejected;
    for i := 0 to |ejected|
      invariant |out| == |ejected|
      invariant forall j :: 0 <= j < i ==> out[j] == MovedBlob(sqrt, ejected[j], dt)
      invariant forall j :: i <= j < |out| ==> out[j] == ejected[j]
    {
      out := out[i := MovedBlob(sqrt, out[i], dt)];
    }
  }
}
