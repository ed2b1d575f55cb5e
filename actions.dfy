/**
 * The two player commands that change the world outside the tick:
 * `split_player` and `eject_mass`.
 */
module Actions {
  import opened Wrappers
  import opened RealMath
  import opened Config
  import opened Physics
  import opened Players
  import opened Pickups
  import opened WorldStates

  // ---------------------------------------------------------------- split

  /** The cell split off `c` (as it was before halving), launched towards the target. */
  function Sibling(sqrt: real -> real, c: Cell, tx: real, ty: real): (r: Cell)
    ensures r.x == c.x && r.y == c.y && r.mass == c.mass / 2.0 && r.mergeTime == MERGE_TIME_SECS
  {
    var n := Normalize(sqrt, tx - c.x, ty - c.y);
    NewCell(c.x, c.y, c.mass / 2.0).(vx := n.0 * SPLIT_LAUNCH_SPEED, vy := n.1 * SPLIT_LAUNCH_SPEED,
                                      mergeTime := MERGE_TIME_SECS)
  }

  /** The parent after the split: half the mass and a fresh merge timer. */
  function Halved(c: Cell): (r: Cell)
    ensures r == c.(mass := r.mass, mergeTime := MERGE_TIME_SECS) && r.mass == c.mass / 2.0
  {
    c.(mass := c.mass / 2.0, mergeTime := MERGE_TIME_SECS)
  }

  /** The cells scanned so far and the indices of those that split, in scan order. */
  datatype SplitResult = SplitResult(kept: seq<Cell>, parents: seq<nat>)

  /** The `for cell in player.cells.iter_mut()` scan over the first `n` cells. */
  function SplitScan(cells: seq<Cell>, n: nat): (r: SplitResult)
    requires n <= |cells|
    ensures |r.kept| == n
  {
    if n == 0 then SplitResult([], [])
    else
      var prev := SplitScan(cells, n - 1);
      var c := cells[n - 1];
      if c.mass >= SPLIT_MIN_MASS && |prev.parents| + |cells| < MAX_CELLS_PER_PLAYER then
        SplitResult(prev.kept + [Halved(c)], prev.parents + [n - 1])
      else
        SplitResult(prev.kept + [c], prev.parents)
  }

  /** The new cells: one sibling per parent, in the parents' order. */
  function Siblings(sqrt: real -> real, cells: seq<Cell>, parents: seq<nat>, tx: real, ty: real): (r: seq<Cell>)
    requires forall b :: 0 <= b < |parents| ==> parents[b] < |cells|
    ensures |r| == |parents|
    ensures forall b :: 0 <= b < |parents| ==> r[b] == Sibling(sqrt, cells[parents[b]], tx, ty)
    ensures forall b :: 0 <= b < |parents| ==> r[b].mass == cells[parents[b]].mass / 2.0
  {
    seq(|parents|, b requires 0 <= b < |parents| => Sibling(sqrt, cells[parents[b]], tx, ty))
  }

  /** One more parent adds its sibling at the end. */
  lemma {:induction false} SiblingsAppend(sqrt: real -> real, cells: seq<Cell>, parents: seq<nat>, k: nat, tx: real, ty: real)
    requires forall b :: 0 <= b < |parents| ==> parents[b] < |cells|
    requires k < |cells|
    ensures Siblings(sqrt, cells, parents + [k], tx, ty)
         == Siblings(sqrt, cells, parents, tx, ty) + [Sibling(sqrt, cells[k], tx, ty)]
  {
  }

  /**
   * The scan halves exactly the cells listed as parents, in increasing index
   * order, each of at least SPLIT_MIN_MASS, and keeps every other cell.
   */
  lemma {:induction false} SplitScanParents(cells: seq<Cell>, n: nat)
    requires n <= |cells|
    ensures var r := SplitScan(cells, n);
      && (forall a, b :: 0 <= a < b < |r.parents| ==> r.parents[a] < r.parents[b])
      && (forall b :: 0 <= b < |r.parents| ==> r.parents[b] < n && cells[r.parents[b]].mass >= SPLIT_MIN_MASS)
      && (forall k :: 0 <= k < n ==> r.kept[k] == if k in r.parents then Halved(cells[k]) else cells[k])
  {
    if n > 0 {
      SplitScanParents(cells, n - 1);
      var prev := SplitScan(cells, n - 1);
      var c := cells[n - 1];
      assert n - 1 !in prev.parents;
      if c.mass >= SPLIT_MIN_MASS && |prev.parents| + |cells| < MAX_CELLS_PER_PLAYER {
        var kept := prev.kept + [Halved(c)];
        var parents := prev.parents + [n - 1];
        assert SplitScan(cells, n) == SplitResult(kept, parents);
        forall a, b | 0 <= a < b < |parents| ensures parents[a] < parents[b] {
          assert parents[a] == prev.parents[a];
          if b < |prev.parents| { assert parents[b] == prev.parents[b]; }
        }
        forall b | 0 <= b < |parents| ensures parents[b] < n && cells[parents[b]].mass >= SPLIT_MIN_MASS {
          if b < |prev.parents| { assert parents[b] == prev.parents[b]; }
        }
        forall k | 0 <= k < n ensures kept[k] == if k in parents then Halved(cells[k]) else cells[k] {
          if k < n - 1 {
            assert kept[k] == prev.kept[k];
            assert k in parents <==> k in prev.parents;
          }
        }
      } else {
        var kept := prev.kept + [c];
        assert SplitScan(cells, n) == SplitResult(kept, prev.parents);
        forall k | 0 <= k < n ensures kept[k] == if k in prev.parents then Halved(cells[k]) else cells[k] {
          if k < n - 1 {
            assert kept[k] == prev.kept[k];
          }
        }
      }
    }
  }

  /**
   * The new cells fit within MAX_CELLS_PER_PLAYER, a full player gets none,
   * and a heavy cell is passed over only once the player has filled up.
   */
  lemma {:induction false} SplitScanRoom(cells: seq<Cell>, n: nat)
    requires n <= |cells|
    ensures var r := SplitScan(cells, n);
      && (|cells| < MAX_CELLS_PER_PLAYER ==> |r.parents| + |cells| <= MAX_CELLS_PER_PLAYER)
      && (|cells| >= MAX_CELLS_PER_PLAYER ==> r.parents == [])
      && (forall k :: 0 <= k < n && k !in r.parents && cells[k].mass >= SPLIT_MIN_MASS ==>
            |r.parents| + |cells| >= MAX_CELLS_PER_PLAYER)
  {
    if n > 0 {
      SplitScanRoom(cells, n - 1);
    }
  }

  /** Every parent of the scan over `n` cells is one of those `n`. */
  lemma {:induction false} SplitScanBelow(cells: seq<Cell>, n: nat)
    requires n <= |cells|
    ensures forall b :: 0 <= b < |SplitScan(cells, n).parents| ==> SplitScan(cells, n).parents[b] < n
  {
    if n > 0 {
      SplitScanBelow(cells, n - 1);
    }
  }

  /** Half the mass of each listed parent, summed. */
  function HalfMasses(cells: seq<Cell>, parents: seq<nat>): real
    requires forall b :: 0 <= b < |parents| ==> parents[b] < |cells|
  {
    if |parents| == 0 then 0.0
    else HalfMasses(cells, parents[..|parents| - 1]) + cells[parents[|parents| - 1]].mass / 2.0
  }

  /** The siblings weigh half of what their parents weighed. */
  lemma {:induction false} SiblingsMass(sqrt: real -> real, cells: seq<Cell>, parents: seq<nat>, tx: real, ty: real)
    requires forall b :: 0 <= b < |parents| ==> parents[b] < |cells|
    ensures TotalMass(Siblings(sqrt, cells, parents, tx, ty)) == HalfMasses(cells, parents)
  {
    var r := Siblings(sqrt, cells, parents, tx, ty);
    if |parents| > 0 {
      var init := parents[..|parents| - 1];
      SiblingsMass(sqrt, cells, init, tx, ty);
      SameMassesSameTotal(r[..|r| - 1], Siblings(sqrt, cells, init, tx, ty));
    }
  }

  /** One more parent adds half its mass. */
  lemma {:induction false} HalfMassesLast(cells: seq<Cell>, parents: seq<nat>, i: nat)
    requires (forall b :: 0 <= b < |parents| ==> parents[b] < |cells|) && i < |cells|
    ensures HalfMasses(cells, parents + [i]) == HalfMasses(cells, parents) + cells[i].mass / 2.0
  {
    assert (parents + [i])[..|parents|] == parents;
  }

  /** The scan's bookkeeping: the kept cells and half of each parent weigh what the scanned cells weighed. */
  lemma {:induction false} SplitScanHalves(cells: seq<Cell>, n: nat)
    requires n <= |cells|
    ensures var r := SplitScan(cells, n);
      (forall b :: 0 <= b < |r.parents| ==> r.parents[b] < n) &&
      TotalMass(r.kept) + HalfMasses(cells, r.parents) == TotalMass(cells[..n])
  {
    SplitScanBelow(cells, n);
    if n > 0 {
      SplitScanHalves(cells, n - 1);
      SplitScanHalvesStep(cells, n);
    }
  }

  /** One step of the scan keeps the bookkeeping of `SplitScanHalves`. */
  lemma {:induction false} SplitScanHalvesStep(cells: seq<Cell>, n: nat)
    requires 0 < n <= |cells|
    requires var prev := SplitScan(cells, n - 1);
      (forall b :: 0 <= b < |prev.parents| ==> prev.parents[b] < n - 1) &&
      TotalMass(prev.kept) + HalfMasses(cells, prev.parents) == TotalMass(cells[..n - 1])
    ensures var r := SplitScan(cells, n);
      (forall b :: 0 <= b < |r.parents| ==> r.parents[b] < |cells|) &&
      TotalMass(r.kept) + HalfMasses(cells, r.parents) == TotalMass(cells[..n])
  {
    SplitScanBelow(cells, n);
    var prev := SplitScan(cells, n - 1);
    var c := cells[n - 1];
    assert TotalMass(cells[..n]) == TotalMass(cells[..n - 1]) + c.mass by {
      assert cells[..n][..n - 1] == cells[..n - 1];
    }
    if c.mass >= SPLIT_MIN_MASS && |prev.parents| + |cells| < MAX_CELLS_PER_PLAYER {
      TotalMassAppend(prev.kept, [Halved(c)]);
      TotalMassSingle(Halved(c));
      HalfMassesLast(cells, prev.parents, n - 1);
    } else {
      TotalMassAppend(prev.kept, [c]);
      TotalMassSingle(c);
    }
  }

  /** The halves add up: the scanned cells and the siblings weigh what the scanned cells weighed. */
  lemma {:induction false} SplitScanMass(sqrt: real -> real, cells: seq<Cell>, tx: real, ty: real, n: nat)
    requires n <= |cells|
    ensures var r := SplitScan(cells, n);
      (forall b :: 0 <= b < |r.parents| ==> r.parents[b] < |cells|) &&
      TotalMass(r.kept) + TotalMass(Siblings(sqrt, cells, r.parents, tx, ty)) == TotalMass(cells[..n])
  {
    var r := SplitScan(cells, n);
    SplitScanHalves(cells, n);
    SiblingsMass(sqrt, cells, r.parents, tx, ty);
  }

  /** A player that can split gets at least one new cell. */
  lemma {:induction false} CanSplitSplits(p: Player)
    requires CanSplit(p)
    ensures |SplitScan(p.cells, |p.cells|).parents| > 0
  {
    var cells := p.cells;
    SplitScanRoom(cells, |cells|);
    var k :| 0 <= k < |cells| && cells[k].mass >= SPLIT_MIN_MASS;
  }

  /** The player's cells after `split_player`: the scanned cells, then the new ones. */
  function SplitCells(sqrt: real -> real, p: Player): seq<Cell> {
    var r := SplitScan(p.cells, |p.cells|);
    SplitScanParents(p.cells, |p.cells|);
    r.kept + Siblings(sqrt, p.cells, r.parents, p.targetX, p.targetY)
  }

  /** The world after `split_player(id)`: no change for a missing or dead player or one that cannot split. */
  function SplitDone(sqrt: real -> real, s: WorldState, id: nat): (r: WorldState)
    ensures r == s.(players := r.players)
  {
    if id !in s.players || !s.players[id].alive || !CanSplit(s.players[id]) then s
    else s.(players := s.players[id := s.players[id].(cells := SplitCells(sqrt, s.players[id]))])
  }

  /** Every cell after a split is still at least MIN_MASS: halves of SPLIT_MIN_MASS are. */
  lemma {:induction false} SplitCellsFloor(sqrt: real -> real, p: Player)
    requires MassesAtLeastFloor(p.cells)
    ensures MassesAtLeastFloor(SplitCells(sqrt, p))
  {
    var sr := SplitScan(p.cells, |p.cells|);
    SplitScanParents(p.cells, |p.cells|);
    var born := Siblings(sqrt, p.cells, sr.parents, p.targetX, p.targetY);
    assert MassesAtLeastFloor(sr.kept);
    assert MassesAtLeastFloor(born);
    FloorAppend(sr.kept, born);
  }

  lemma {:induction false} FloorAppend(a: seq<Cell>, b: seq<Cell>)
    requires MassesAtLeastFloor(a) && MassesAtLeastFloor(b)
    ensures MassesAtLeastFloor(a + b)
  {
    forall k | 0 <= k < |a + b| ensures (a + b)[k].mass >= MIN_MASS {
      if k >= |a| { assert (a + b)[k] == b[k - |a|]; }
    }
  }

  /** A split keeps a living player well formed and its total mass, and adds at least one cell. */
  lemma {:induction false} SplitCellsProperties(sqrt: real -> real, p: Player)
    requires WellFormed(p) && p.alive && CanSplit(p)
    ensures WellFormed(p.(cells := SplitCells(sqrt, p)))
    ensures TotalMass(SplitCells(sqrt, p)) == TotalMass(p.cells)
    ensures |SplitCells(sqrt, p)| > |p.cells|
  {
    var sr := SplitScan(p.cells, |p.cells|);
    SplitScanRoom(p.cells, |p.cells|);
    SplitScanMass(sqrt, p.cells, p.targetX, p.targetY, |p.cells|);
    CanSplitSplits(p);
    SplitCellsFloor(sqrt, p);
    assert p.cells[..|p.cells|] == p.cells;
    TotalMassAppend(sr.kept, Siblings(sqrt, p.cells, sr.parents, p.targetX, p.targetY));
  }

  /**
   * A split keeps the invariant and the player's total mass, never touches
   * another player, and gives a player that can split at least one new cell.
   */
  lemma {:induction false} SplitDoneProperties(sqrt: real -> real, s: WorldState, id: nat)
    requires Inv(s)
    ensures var r := SplitDone(sqrt, s, id);
      && Inv(r)
      && r.players.Keys == s.players.Keys
      && (forall other :: other in s.players && other != id ==> r.players[other] == s.players[other])
      && (id in s.players ==>
            && r.players[id] == s.players[id].(cells := r.players[id].cells)
            && TotalMass(r.players[id].cells) == TotalMass(s.players[id].cells))
      && (id in s.players && s.players[id].alive && CanSplit(s.players[id]) ==>
            |r.players[id].cells| > |s.players[id].cells|)
      && (!(id in s.players && s.players[id].alive && CanSplit(s.players[id])) ==> r == s)
  {
    if id in s.players && s.players[id].alive && CanSplit(s.players[id]) {
      SplitCellsProperties(sqrt, s.players[id]);
    }
  }

  /** One step of the scan on the cells updated in place so far. */
  lemma {:induction false} SplitScanStep(cells: seq<Cell>, out: seq<Cell>, k: nat)
    requires k < |cells| == |out|
    requires out[..k] == SplitScan(cells, k).kept
    requires forall j :: k <= j < |cells| ==> out[j] == cells[j]
    ensures var c := cells[k];
      var out' := if c.mass >= SPLIT_MIN_MASS && |SplitScan(cells, k).parents| + |cells| < MAX_CELLS_PER_PLAYER
                  then out[k := Halved(c)] else out;
      && out'[..k + 1] == SplitScan(cells, k + 1).kept
      && (forall j :: k + 1 <= j < |cells| ==> out'[j] == cells[j])
  {
    var c := cells[k];
    var out' := if c.mass >= SPLIT_MIN_MASS && |SplitScan(cells, k).parents| + |cells| < MAX_CELLS_PER_PLAYER
                then out[k := Halved(c)] else out;
    var r := SplitScan(cells, k + 1);
    if c.mass >= SPLIT_MIN_MASS && |SplitScan(cells, k).parents| + |cells| < MAX_CELLS_PER_PLAYER {
      assert r.kept == SplitScan(cells, k).kept + [Halved(c)];
      assert out'[..k] == out[..k];
    } else {
      assert r.kept == SplitScan(cells, k).kept + [c];
    }
    assert out'[..k + 1] == out'[..k] + [out'[k]];
  }

  /** `split_player` on one player's cells: halve in place, collect the new cells, push them at the end. */
  method SplitPlayerCells(sqrt: real -> real, p: Player) returns (out: seq<Cell>)
    ensures out == SplitCells(sqrt, p)
  {
    var cells := p.cells;
    var (tx, ty) := (p.targetX, p.targetY);
    var newCells: seq<Cell> := [];
    var currentCount := |cells|;
    out := cells;
    for k := 0 to |cells|
      invariant |out| == |cells|
      invariant forall b :: 0 <= b < |SplitScan(cells, k).parents| ==> SplitScan(cells, k).parents[b] < k
      invariant out[..k] == SplitScan(cells, k).kept
      invariant newCells == Siblings(sqrt, cells, SplitScan(cells, k).parents, tx, ty)
      invariant forall j :: k <= j < |cells| ==> out[j] == cells[j]
    {
      ghost var r := SplitScan(cells, k);
      SplitScanBelow(cells, k + 1);
      SplitScanStep(cells, out, k);
      var c := out[k];
      if c.mass >= SPLIT_MIN_MASS && |newCells| + currentCount < MAX_CELLS_PER_PLAYER {
        SiblingsAppend(sqrt, cells, r.parents, k, tx, ty);
        out := out[k := Halved(c)];
        newCells := newCells + [Sibling(sqrt, c, tx, ty)];
      }
    }
    assert out[..|cells|] == out;
    out := out + newCells;
  }

  // ---------------------------------------------------------------- eject

  /** The first cell of at least EJECT_MIN_MASS from index `from` on. */
  function FirstEjector(cells: seq<Cell>, from: nat): (r: Option<nat>)
    requires from <= |cells|
    ensures r.Some? ==> from <= r.value < |cells| && cells[r.value].mass >= EJECT_MIN_MASS
    ensures r.Some? ==> forall k :: from <= k < r.value ==> cells[k].mass < EJECT_MIN_MASS
    ensures r.None? <==> forall k :: from <= k < |cells| ==> cells[k].mass < EJECT_MIN_MASS
    decreases |cells| - from
  {
    if from == |cells| then None
    else if cells[from].mass >= EJECT_MIN_MASS then Some(from)
    else FirstEjector(cells, from + 1)
  }

  /** The blob thrown by cell `c` (already lightened), on its rim and flying towards the target. */
  function Blob(sqrt: real -> real, c: Cell, tx: real, ty: real, color: string): (e: EjectedMass)
    ensures e.mass == EJECT_MASS && e.color == color
  {
    var n := Normalize(sqrt, tx - c.x, ty - c.y);
    var r := Radius(sqrt, c);
    EjectedMass(c.x + n.0 * r, c.y + n.1 * r, EJECT_MASS, n.0 * EJECT_SPEED, n.1 * EJECT_SPEED, color)
  }

  /** The world after `eject_mass(id)`: the first heavy enough cell loses EJECT_MASS, which becomes a blob. */
  function EjectDone(sqrt: real -> real, s: WorldState, id: nat): (r: WorldState)
    ensures r == s.(players := r.players, ejected := r.ejected)
  {
    if id !in s.players || !s.players[id].alive || !CanEject(s.players[id]) then s
    else
      var p := s.players[id];
      match FirstEjector(p.cells, 0)
      case None => s
      case Some(k) =>
        var c := p.cells[k].(mass := p.cells[k].mass - EJECT_MASS);
        s.(players := s.players[id := p.(cells := p.cells[k := c])],
           ejected := s.ejected + [Blob(sqrt, c, p.targetX, p.targetY, p.color)])
  }

  /**
   * Ejecting keeps the invariant; a player that can eject loses exactly
   * EJECT_MASS from one cell and exactly one blob of that mass, in its own
   * colour, joins the list; otherwise nothing changes.
   */
  lemma {:induction false} EjectDoneProperties(sqrt: real -> real, s: WorldState, id: nat)
    requires Inv(s)
    ensures var r := EjectDone(sqrt, s, id);
      && Inv(r)
      && r.players.Keys == s.players.Keys
      && (forall other :: other in s.players && other != id ==> r.players[other] == s.players[other])
      && (id in s.players && s.players[id].alive && CanEject(s.players[id]) ==>
            && |r.ejected| == |s.ejected| + 1
            && r.ejected[..|s.ejected|] == s.ejected
            && r.ejected[|s.ejected|].color == s.players[id].color
            && |r.players[id].cells| == |s.players[id].cells|
            && TotalMass(r.players[id].cells) == TotalMass(s.players[id].cells) - EJECT_MASS)
      && (!(id in s.players && s.players[id].alive && CanEject(s.players[id])) ==> r == s)
  {
    if id in s.players && s.players[id].alive && CanEject(s.players[id]) {
      var p := s.players[id];
      var j :| 0 <= j < |p.cells| && p.cells[j].mass >= EJECT_MIN_MASS;
      var k := FirstEjector(p.cells, 0).value;
      EjectKeepsInv(sqrt, s, id, k);
      EjectEffect(sqrt, s, id, k);
    }
  }

  /** What ejecting from cell `k`, the first heavy enough one, does to the world. */
  lemma {:induction false} EjectEffect(sqrt: real -> real, s: WorldState, id: nat, k: nat)
    requires id in s.players && s.players[id].alive && CanEject(s.players[id])
    requires FirstEjector(s.players[id].cells, 0) == Some(k)
    ensures var p := s.players[id];
      var c := p.cells[k].(mass := p.cells[k].mass - EJECT_MASS);
      var r := EjectDone(sqrt, s, id);
      && r == s.(players := s.players[id := p.(cells := p.cells[k := c])],
                 ejected := s.ejected + [Blob(sqrt, c, p.targetX, p.targetY, p.color)])
      && |r.ejected| == |s.ejected| + 1
      && r.ejected[..|s.ejected|] == s.ejected
      && r.ejected[|s.ejected|].color == p.color
      && |r.players[id].cells| == |p.cells|
      && TotalMass(r.players[id].cells) == TotalMass(p.cells) - EJECT_MASS
  {
    var p := s.players[id];
    var c := p.cells[k].(mass := p.cells[k].mass - EJECT_MASS);
    TotalMassUpdate(p.cells, k, c);
    var e := s.ejected + [Blob(sqrt, c, p.targetX, p.targetY, p.color)];
    assert e[..|s.ejected|] == s.ejected;
  }

  /** Lightening one cell of at least EJECT_MIN_MASS and appending its blob keeps the world invariant. */
  lemma {:induction false} EjectKeepsInv(sqrt: real -> real, s: WorldState, id: nat, k: nat)
    requires Inv(s) && id in s.players && s.players[id].alive
    requires k < |s.players[id].cells| && s.players[id].cells[k].mass >= EJECT_MIN_MASS
    ensures var p := s.players[id];
      var c := p.cells[k].(mass := p.cells[k].mass - EJECT_MASS);
      Inv(s.(players := s.players[id := p.(cells := p.cells[k := c])],
             ejected := s.ejected + [Blob(sqrt, c, p.targetX, p.targetY, p.color)]))
  {
    var p := s.players[id];
    var c := p.cells[k].(mass := p.cells[k].mass - EJECT_MASS);
    var q := p.(cells := p.cells[k := c]);
    assert WellFormed(q) by {
      assert forall i :: 0 <= i < |q.cells| ==> q.cells[i].mass >= MIN_MASS by {
        forall i | 0 <= i < |q.cells| ensures q.cells[i].mass >= MIN_MASS {
          if i != k { assert q.cells[i] == p.cells[i]; }
        }
      }
    }
    var e := s.ejected + [Blob(sqrt, c, p.targetX, p.targetY, p.color)];
    assert EjectedOk(e) by {
      forall i | 0 <= i < |e| ensures e[i].mass == EJECT_MASS {
        if i < |s.ejected| { assert e[i] == s.ejected[i]; }
      }
    }
    var ps := s.players[id := q];
    assert AllWellFormed(ps) && IdsConsistent(ps, s.nextPlayerId) by {
      forall other | other in ps ensures WellFormed(ps[other]) && 1 <= other < s.nextPlayerId && ps[other].id == other {
        if other != id { assert ps[other] == s.players[other]; }
      }
    }
  }

  /** `eject_mass` on one player: the first heavy enough cell loses mass and throws a blob, then `break`. */
  method EjectFromCells(sqrt: real -> real, cells: seq<Cell>, tx: real, ty: real, color: string) returns (out: seq<Cell>, blob: Option<EjectedMass>)
    ensures match FirstEjector(cells, 0)
      case None => out == cells && blob == None
      case Some(k) =>
        var c := cells[k].(mass := cells[k].mass - EJECT_MASS);
        out == cells[k := c] && blob == Some(Blob(sqrt, c, tx, ty, color))
  {
    out := cells;
    blob := None;
    for k := 0 to |cells|
      invariant FirstEjector(cells, 0) == FirstEjector(cells, k)
    {
      if cells[k].mass >= EJECT_MIN_MASS {
        assert FirstEjector(cells, k) == Some(k);
        var c := cells[k].(mass := cells[k].mass - EJECT_MASS);
        out := cells[k := c];
        var n := Normalize(sqrt, tx - c.x, ty - c.y);
        var r := Radius(sqrt, c);
        blob := Some(EjectedMass(c.x + n.0 * r, c.y + n.1 * r, EJECT_MASS, n.0 * EJECT_SPEED, n.1 * EJECT_SPEED, color));
        assert blob.value.x == Blob(sqrt, c, tx, ty, color).x && blob.value.y == Blob(sqrt, c, tx, ty, color).y;
        assert blob.value.vx == Blob(sqrt, c, tx, ty, color).vx && blob.value.vy == Blob(sqrt, c, tx, ty, color).vy;
        return;
      }
    }
  }

  /** `eject_mass` on the player map and the blob list. */
  method EjectFromPlayer(sqrt: real -> real, s: WorldState, id: nat) returns (ps: map<nat, Player>, ejected: seq<EjectedMass>)
    ensures ps == EjectDone(sqrt, s, id).players && ejected == EjectDone(sqrt, s, id).ejected
  {
    ps, ejected := s.players, s.ejected;
    if id in s.players && s.players[id].alive && CanEject(s.players[id]) {
      var p := s.players[id];
      var cells, blob := EjectFromCells(sqrt, p.cells, p.targetX, p.targetY, p.color);
      if blob.Some? {
        ps := ps[id := p.(cells := cells)];
        ejected := ejected + [blob.value];
      }
    }
  }
}
