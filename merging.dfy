/**
 * `update_merge_timers` and `merge_cells`: split-off cells wait out their
 * merge timer, then a ready cell absorbs every ready sibling whose centre
 * lies inside the larger of the two radii.
 */
module Merging {
  import opened RealMath
  import opened Config
  import opened Physics
  import opened Players
  import opened SeqOps
  import opened WorldStates

  // ---------------------------------------------------------------- merge timers

  /** One cell's timer after `dt` seconds: it only runs while positive. */
  function TickedTimer(t: real, dt: real): (r: real)
    ensures t > 0.0 ==> r == t - dt
    ensures t <= 0.0 ==> r == t
  {
    if t > 0.0 then t - dt else t
  }

  /** The timer after `k` ticks of `dt`. */
  function TickedTimerN(t: real, dt: real, k: nat): real {
    if k == 0 then t else TickedTimer(TickedTimerN(t, dt, k - 1), dt)
  }

  /** With a positive tick length a timer of `t` seconds has run out after `k` ticks once `t <= k * dt`. */
  lemma {:induction false} TimerRunsOut(t: real, dt: real, k: nat)
    requires dt > 0.0 && t <= k as real * dt
    ensures TickedTimerN(t, dt, k) <= 0.0
  {
    if k > 0 {
      var prev := TickedTimerN(t, dt, k - 1);
      if prev > 0.0 {
        TimerCountsDown(t, dt, k - 1);
      } else {
        assert TickedTimerN(t, dt, k) == prev;
      }
    }
  }

  /** While a timer stays positive each tick takes exactly `dt` off. */
  lemma {:induction false} TimerCountsDown(t: real, dt: real, k: nat)
    requires dt > 0.0 && TickedTimerN(t, dt, k) > 0.0
    ensures TickedTimerN(t, dt, k) == t - k as real * dt
  {
    if k > 0 {
      TimerCountsDown(t, dt, k - 1);
    }
  }

  function TickedCells(cells: seq<Cell>, dt: real): (r: seq<Cell>)
    ensures |r| == |cells|
    ensures forall k :: 0 <= k < |r| ==> r[k] == cells[k].(mergeTime := TickedTimer(cells[k].mergeTime, dt))
  {
    seq(|cells|, k requires 0 <= k < |cells| => cells[k].(mergeTime := TickedTimer(cells[k].mergeTime, dt)))
  }

  /** The world after `update_merge_timers`: every player's cells, dead or alive. */
  function TimersTicked(s: WorldState, dt: real): (r: WorldState)
    ensures r == s.(players := r.players)
  {
    s.(players := map id | id in s.players :: s.players[id].(cells := TickedCells(s.players[id].cells, dt)))
  }

  /** The timer phase keeps the invariant and touches nothing but timers. */
  lemma {:induction false} TimersTickedKeepsInv(s: WorldState, dt: real)
    requires Inv(s)
    ensures var r := TimersTicked(s, dt);
      && Inv(r)
      && r.players.Keys == s.players.Keys
      && (forall id :: id in s.players ==>
            && |r.players[id].cells| == |s.players[id].cells|
            && TotalMass(r.players[id].cells) == TotalMass(s.players[id].cells))
  {
    var r := TimersTicked(s, dt);
    forall id | id in s.players
      ensures WellFormed(r.players[id]) && TotalMass(r.players[id].cells) == TotalMass(s.players[id].cells)
    {
      SameMassesSameTotal(s.players[id].cells, r.players[id].cells);
    }
  }

  /** `for cell in &mut player.cells`: the timer update. */
  method TickTimers(cells: seq<Cell>, dt: real) returns (out: seq<Cell>)
    ensures out == TickedCells(cells, dt)
  {
    out := cells;
    for k := 0 to |cells|
      invariant |out| == |cells|
      invariant forall j :: 0 <= j < k ==> out[j] == cells[j].(mergeTime := TickedTimer(cells[j].mergeTime, dt))
      invariant forall j :: k <= j < |cells| ==> out[j] == cells[j]
    {
      if out[k].mergeTime > 0.0 {
        out := out[k := out[k].(mergeTime := out[k].mergeTime - dt)];
      }
    }
  }

  // ---------------------------------------------------------------- merging

  /** A cell whose merge timer has run out. */
  predicate Ready(c: Cell) {
    c.mergeTime <= 0.0
  }

  /** The centres are closer than the larger radius. */
  predicate Close(sqrt: real -> real, a: Cell, b: Cell) {
    Distance(sqrt, a.x, a.y, b.x, b.y) < Max(Radius(sqrt, a), Radius(sqrt, b))
  }

  predicate Fuses(sqrt: real -> real, a: Cell, b: Cell) {
    Ready(a) && Ready(b) && Close(sqrt, a, b)
  }

  /** Cell `i` absorbs cell `j`: `cells[i].mass += cells[j].mass; cells.remove(j)`. */
  function Absorbed(cells: seq<Cell>, i: nat, j: nat): (r: seq<Cell>)
    requires i < j < |cells|
    ensures |r| == |cells| - 1
  {
    RemoveAt(cells[i := cells[i].(mass := cells[i].mass + cells[j].mass)], j)
  }

  /**
   * The two loops of `merge_cells` from position `(i, j)`: after an
   * absorption `j` stays put, otherwise it moves on; when `j` runs off the
   * end, `i` moves on and `j` restarts just after it.
   */
  function MergeFrom(sqrt: real -> real, cells: seq<Cell>, i: nat, j: nat): (r: seq<Cell>)
    requires i < j
    decreases |cells| - i, |cells| - j
  {
    if i >= |cells| then cells
    else if j >= |cells| then MergeFrom(sqrt, cells, i + 1, i + 2)
    else if Fuses(sqrt, cells[i], cells[j]) then MergeFrom(sqrt, Absorbed(cells, i, j), i, j)
    else MergeFrom(sqrt, cells, i, j + 1)
  }

  /** A player's cells after `merge_cells`; a single cell is skipped. */
  function Merged(sqrt: real -> real, cells: seq<Cell>): seq<Cell> {
    if |cells| <= 1 then cells else MergeFrom(sqrt, cells, 0, 1)
  }

  /** The cells still waiting on their timer, in order. */
  function Waiting(cells: seq<Cell>): (r: seq<Cell>)
    ensures forall k :: 0 <= k < |r| ==> !Ready(r[k])
  {
    if |cells| == 0 then []
    else Waiting(cells[..|cells| - 1]) + (if Ready(cells[|cells| - 1]) then [] else [cells[|cells| - 1]])
  }

  lemma {:induction false} WaitingAppend(a: seq<Cell>, b: seq<Cell>)
    ensures Waiting(a + b) == Waiting(a) + Waiting(b)
    decreases |b|
  {
    if |b| == 0 {
      assert a + b == a;
    } else {
      assert (a + b)[..|a + b| - 1] == a + b[..|b| - 1];
      WaitingAppend(a, b[..|b| - 1]);
    }
  }

  lemma {:induction false} WaitingSingle(c: Cell)
    ensures Waiting([c]) == if Ready(c) then [] else [c]
  {
    assert [c][..0] == [];
  }

  /** Replacing a ready cell by a ready cell leaves the waiting cells alone. */
  lemma {:induction false} WaitingUpdate(cells: seq<Cell>, i: nat, c: Cell)
    requires i < |cells| && Ready(cells[i]) && Ready(c)
    ensures Waiting(cells[i := c]) == Waiting(cells)
  {
    var u := cells[i := c];
    assert cells == cells[..i] + [cells[i]] + cells[i + 1..];
    assert u == cells[..i] + [c] + cells[i + 1..];
    WaitingAppend(cells[..i] + [cells[i]], cells[i + 1..]);
    WaitingAppend(cells[..i] + [c], cells[i + 1..]);
    WaitingAppend(cells[..i], [cells[i]]);
    WaitingAppend(cells[..i], [c]);
    WaitingSingle(c);
    WaitingSingle(cells[i]);
  }

  /** Dropping a ready cell leaves the waiting cells alone. */
  lemma {:induction false} WaitingRemove(cells: seq<Cell>, j: nat)
    requires j < |cells| && Ready(cells[j])
    ensures Waiting(RemoveAt(cells, j)) == Waiting(cells)
  {
    assert cells == cells[..j] + [cells[j]] + cells[j + 1..];
    WaitingAppend(cells[..j] + [cells[j]], cells[j + 1..]);
    WaitingAppend(cells[..j], [cells[j]]);
    WaitingAppend(cells[..j], cells[j + 1..]);
    WaitingSingle(cells[j]);
  }

  lemma {:induction false} WaitingAbsorbed(cells: seq<Cell>, i: nat, j: nat)
    requires i < j < |cells| && Ready(cells[i]) && Ready(cells[j])
    ensures Waiting(Absorbed(cells, i, j)) == Waiting(cells)
  {
    var c := cells[i].(mass := cells[i].mass + cells[j].mass);
    WaitingUpdate(cells, i, c);
    WaitingRemove(cells[i := c], j);
  }

  /** An absorption keeps the total mass and the mass floor, and drops exactly one cell. */
  lemma {:induction false} AbsorbedMass(cells: seq<Cell>, i: nat, j: nat)
    requires i < j < |cells| && MassesAtLeastFloor(cells)
    ensures TotalMass(Absorbed(cells, i, j)) == TotalMass(cells)
    ensures MassesAtLeastFloor(Absorbed(cells, i, j))
  {
    var c := cells[i].(mass := cells[i].mass + cells[j].mass);
    var u := cells[i := c];
    TotalMassUpdate(cells, i, c);
    TotalMassRemove(u, j);
  }

  /**
   * Merging keeps the total mass and the mass floor, never adds a cell and
   * never removes the last one, and leaves every cell still waiting on its
   * timer exactly as it was, in order: only ready cells fuse.
   */
  lemma {:induction false} MergeFromProperties(sqrt: real -> real, cells: seq<Cell>, i: nat, j: nat)
    requires i < j && MassesAtLeastFloor(cells)
    ensures var r := MergeFrom(sqrt, cells, i, j);
      && TotalMass(r) == TotalMass(cells)
      && MassesAtLeastFloor(r)
      && |r| <= |cells|
      && (|cells| > 0 ==> |r| > 0)
      && Waiting(r) == Waiting(cells)
    decreases |cells| - i, |cells| - j
  {
    if i >= |cells| {
    } else if j >= |cells| {
      MergeFromProperties(sqrt, cells, i + 1, i + 2);
    } else if Fuses(sqrt, cells[i], cells[j]) {
      AbsorbedMass(cells, i, j);
      WaitingAbsorbed(cells, i, j);
      MergeFromProperties(sqrt, Absorbed(cells, i, j), i, j);
    } else {
      MergeFromProperties(sqrt, cells, i, j + 1);
    }
  }

  /** The world after `merge_cells`. */
  function MergingDone(sqrt: real -> real, s: WorldState): (r: WorldState)
    ensures r == s.(players := r.players)
  {
    s.(players := map id | id in s.players :: s.players[id].(cells := Merged(sqrt, s.players[id].cells)))
  }

  /** Merging keeps the invariant, every player's total mass and waiting cells, and never grows a player. */
  lemma {:induction false} MergingDoneProperties(sqrt: real -> real, s: WorldState)
    requires Inv(s)
    ensures var r := MergingDone(sqrt, s);
      && Inv(r)
      && r.players.Keys == s.players.Keys
      && (forall id :: id in s.players ==>
            && TotalMass(r.players[id].cells) == TotalMass(s.players[id].cells)
            && |r.players[id].cells| <= |s.players[id].cells|
            && Waiting(r.players[id].cells) == Waiting(s.players[id].cells))
  {
    var r := MergingDone(sqrt, s);
    forall id | id in s.players
      ensures WellFormed(r.players[id])
      ensures TotalMass(r.players[id].cells) == TotalMass(s.players[id].cells)
      ensures |r.players[id].cells| <= |s.players[id].cells|
      ensures Waiting(r.players[id].cells) == Waiting(s.players[id].cells)
    {
      var cells := s.players[id].cells;
      if |cells| > 1 {
        MergeFromProperties(sqrt, cells, 0, 1);
      }
    }
  }

  /** `merge_cells` for one player: the two `while` loops, with `continue` after an absorption. */
  method MergeCells(sqrt: real -> real, cells: seq<Cell>) returns (out: seq<Cell>)
    ensures out == Merged(sqrt, cells)
  {
    out := cells;
    if |out| <= 1 {
      return;
    }
    var i := 0;
    while i < |out|
      invariant MergeFrom(sqrt, out, i, i + 1) == MergeFrom(sqrt, cells, 0, 1)
      decreases |out| - i
    {
      var j := i + 1;
      ghost var start := |out|;
      while j < |out|
        invariant i < j && i < |out| <= start
        invariant MergeFrom(sqrt, out, i, j) == MergeFrom(sqrt, cells, 0, 1)
        decreases |out| - j
      {
        if out[i].mergeTime <= 0.0 && out[j].mergeTime <= 0.0 {
          var dist := Distance(sqrt, out[i].x, out[i].y, out[j].x, out[j].y);
          var r1 := Radius(sqrt, out[i]);
          var r2 := Radius(sqrt, out[j]);
          if dist < Max(r1, r2) {
            out := out[i := out[i].(mass := out[i].mass + out[j].mass)];
            out := out[..j] + out[j + 1..];
            continue;
          }
        }
        j := j + 1;
      }
      i := i + 1;
    }
  }

  /** The player loop of `update_merge_timers`, dead players included. */
  method TickAllTimers(ps: map<nat, Player>, dt: real) returns (out: map<nat, Player>)
    ensures out.Keys == ps.Keys
    ensures forall id :: id in ps ==> out[id] == ps[id].(cells := TickedCells(ps[id].cells, dt))
  {
    out := ps;
    var todo := ps.Keys;
    while todo != {}
      invariant todo <= ps.Keys && out.Keys == ps.Keys
      invariant forall id :: id in todo ==> out[id] == ps[id]
      invariant forall id :: id in ps && id !in todo ==> out[id] == ps[id].(cells := TickedCells(ps[id].cells, dt))
      decreases |todo|
    {
      var id :| id in todo;
      var p := out[id];
      var cells := TickTimers(p.cells, dt);
      out := out[id := p.(cells := cells)];
      todo := todo - {id};
    }
  }

  /** The player loop of `merge_cells`. */
  method MergeAll(sqrt: real -> real, ps: map<nat, Player>) returns (out: map<nat, Player>)
    ensures out.Keys == ps.Keys
    ensures forall id :: id in ps ==> out[id] == ps[id].(cells := Merged(sqrt, ps[id].cells))
  {
    out := ps;
    var todo := ps.Keys;
    while todo != {}
      invariant todo <= ps.Keys && out.Keys == ps.Keys
      invariant forall id :: id in todo ==> out[id] == ps[id]
      invariant forall id :: id in ps && id !in todo ==> out[id] == ps[id].(cells := Merged(sqrt, ps[id].cells))
      decreases |todo|
    {
      var id :| id in todo;
      var p := out[id];
      var cells := MergeCells(sqrt, p.cells);
      out := out[id := p.(cells := cells)];
      todo := todo - {id};
    }
  }
}
