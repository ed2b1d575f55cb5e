/**
 * `build_state_for_player` (src/game/engine.rs): what one viewer is sent each
 * tick. Everything is culled against a square around the viewer's centre of
 * mass; the comparisons are strict, so something that only touches the
 * border is left out. Ejected blobs are never sent.
 */
module Engine {
  import opened Wrappers
  import opened RealMath
  import opened Config
  import opened Players
  import opened Pickups
  import opened WorldStates
  import Leaderboard
  import P = Protocol

  /** The view rectangle: the x range (left, right) and the y range (top, bottom). */
  datatype View = View(left: real, right: real, top: real, bottom: real)

  /** The viewer's centre, plus and minus BASE_VIEWPORT_SIZE times its viewport scale. */
  function ViewOf(sqrt: real -> real, p: Player): (v: View)
    requires IsSqrt(sqrt)
    ensures var (cx, cy) := Center(p.cells);
      var half := v.right - cx;
      && cx - v.left == half && v.bottom - cy == half && cy - v.top == half
      && half >= BASE_VIEWPORT_SIZE
      && (half == BASE_VIEWPORT_SIZE <==> TotalMass(p.cells) <= STARTING_MASS)
  {
    ViewportScaleProperties(sqrt, p);
    var (cx, cy) := Center(p.cells);
    var size := BASE_VIEWPORT_SIZE * ViewportScale(sqrt, p);
    View(cx - size, cx + size, cy - size, cy + size)
  }

  /** A box of half-size `pad` around (x, y) overlaps the view with positive area. */
  predicate BoxOverlaps(x: real, y: real, pad: real, v: View) {
    x + pad > v.left && x - pad < v.right && y + pad > v.top && y - pad < v.bottom
  }

  predicate CellInView(sqrt: real -> real, c: Cell, v: View) {
    BoxOverlaps(c.x, c.y, Radius(sqrt, c), v)
  }

  /** `p.cells.iter().any(...)`, scanned from the front. */
  function AnyCellInView(sqrt: real -> real, cells: seq<Cell>, v: View): bool {
    if |cells| == 0 then false
    else CellInView(sqrt, cells[0], v) || AnyCellInView(sqrt, cells[1..], v)
  }

  /** A player is shown when it is alive and one of its cells' boxes overlaps the view. */
  predicate PlayerInView(sqrt: real -> real, p: Player, v: View) {
    p.alive && exists k :: 0 <= k < |p.cells| && CellInView(sqrt, p.cells[k], v)
  }

  /** A pellet is shown when its point lies strictly inside the view. */
  predicate FoodInView(f: Food, v: View) {
    v.left < f.x < v.right && v.top < f.y < v.bottom
  }

  /** A virus is shown when its VIRUS_RADIUS box overlaps the view. */
  predicate VirusInView(vi: Virus, v: View) {
    BoxOverlaps(vi.x, vi.y, VIRUS_RADIUS, v)
  }

  /** `any` finds a cell exactly when some cell overlaps the view. */
  lemma {:induction false} AnyCellInViewIff(sqrt: real -> real, cells: seq<Cell>, v: View)
    ensures AnyCellInView(sqrt, cells, v) <==> exists k :: 0 <= k < |cells| && CellInView(sqrt, cells[k], v)
  {
    if |cells| > 0 {
      AnyCellInViewIff(sqrt, cells[1..], v);
      if AnyCellInView(sqrt, cells[1..], v) {
        var k :| 0 <= k < |cells[1..]| && CellInView(sqrt, cells[1..][k], v);
        assert cells[k + 1] == cells[1..][k];
      }
      if exists k :: 0 <= k < |cells| && CellInView(sqrt, cells[k], v) {
        var k :| 0 <= k < |cells| && CellInView(sqrt, cells[k], v);
        if k > 0 {
          assert cells[1..][k - 1] == cells[k];
        }
      }
    }
  }

  // ---------------------------------------------------------------- projections

  /** Every cell of a player, each with its radius. */
  function CellStates(sqrt: real -> real, cells: seq<Cell>): (r: seq<P.CellState>)
    ensures |r| == |cells|
    ensures forall k :: 0 <= k < |r| ==> r[k] == P.CellState(cells[k].x, cells[k].y, MassToRadius(sqrt, cells[k].mass))
  {
    seq(|cells|, k requires 0 <= k < |cells| => P.CellState(cells[k].x, cells[k].y, Radius(sqrt, cells[k])))
  }

  function PlayerStateOf(sqrt: real -> real, p: Player): P.PlayerState {
    P.PlayerState(p.id, p.name, SkinUrl(p), CellStates(sqrt, p.cells))
  }

  function FoodStateOf(f: Food): P.FoodState {
    P.FoodState(f.x, f.y, f.color)
  }

  function VirusStateOf(vi: Virus): P.VirusState {
    P.VirusState(vi.x, vi.y, VIRUS_RADIUS)
  }

  /** The players filter over the map's values in key order `ids`. */
  function VisiblePlayers(sqrt: real -> real, ps: map<nat, Player>, ids: seq<nat>, v: View): (r: seq<P.PlayerState>)
    requires forall k :: 0 <= k < |ids| ==> ids[k] in ps
    ensures |r| <= |ids|
  {
    if |ids| == 0 then []
    else
      var p := ps[ids[|ids| - 1]];
      VisiblePlayers(sqrt, ps, ids[..|ids| - 1], v) + (if p.alive && AnyCellInView(sqrt, p.cells, v) then [PlayerStateOf(sqrt, p)] else [])
  }

  /** The food filter, in list order. */
  function VisibleFood(food: seq<Food>, v: View): (r: seq<P.FoodState>)
    ensures |r| <= |food|
  {
    if |food| == 0 then []
    else VisibleFood(food[..|food| - 1], v) + (if FoodInView(food[|food| - 1], v) then [FoodStateOf(food[|food| - 1])] else [])
  }

  /** The indices the food filter keeps, in increasing order. */
  function FoodIndices(food: seq<Food>, v: View): seq<nat> {
    if |food| == 0 then []
    else FoodIndices(food[..|food| - 1], v) + (if FoodInView(food[|food| - 1], v) then [|food| - 1] else [])
  }

  /** The virus filter, in list order. */
  function VisibleViruses(viruses: seq<Virus>, v: View): (r: seq<P.VirusState>)
    ensures |r| <= |viruses|
  {
    if |viruses| == 0 then []
    else VisibleViruses(viruses[..|viruses| - 1], v) + (if VirusInView(viruses[|viruses| - 1], v) then [VirusStateOf(viruses[|viruses| - 1])] else [])
  }

  function VirusIndices(viruses: seq<Virus>, v: View): seq<nat> {
    if |viruses| == 0 then []
    else VirusIndices(viruses[..|viruses| - 1], v) + (if VirusInView(viruses[|viruses| - 1], v) then [|viruses| - 1] else [])
  }

  /** `get_leaderboard()` turned into wire entries, in the same order. */
  function BoardEntries(board: seq<Leaderboard.Entry>): (r: seq<P.LeaderboardEntry>)
    ensures |r| == |board|
    ensures forall j :: 0 <= j < |r| ==> r[j].name == board[j].0 && r[j].score == board[j].1
  {
    seq(|board|, j requires 0 <= j < |board| => P.LeaderboardEntry(board[j].0, board[j].1))
  }

  /**
   * The state message for `viewer`, with `ids` the map's iteration order;
   * nothing when the viewer is gone or dead. The leaderboard does not depend
   * on the viewer at all.
   */
  function BuildState(sqrt: real -> real, s: WorldState, viewer: nat, ids: seq<nat>): (r: Option<P.ServerMessage>)
    requires IsSqrt(sqrt)
    requires forall k :: 0 <= k < |ids| ==> ids[k] in s.players
    ensures r.None? <==> viewer !in s.players || !s.players[viewer].alive
    ensures r.Some? ==> r.value.State? && r.value.leaderboard == BoardEntries(Leaderboard.Board(s.players, ids))
    ensures r.Some? ==>
      var v := ViewOf(sqrt, s.players[viewer]);
      && r.value.players == VisiblePlayers(sqrt, s.players, ids, v)
      && r.value.food == VisibleFood(s.food, v)
      && r.value.viruses == VisibleViruses(s.viruses, v)
  {
    if viewer !in s.players || !s.players[viewer].alive then None
    else
      var v := ViewOf(sqrt, s.players[viewer]);
      Some(P.State(VisiblePlayers(sqrt, s.players, ids, v), VisibleFood(s.food, v), VisibleViruses(s.viruses, v),
                   BoardEntries(Leaderboard.Board(s.players, ids))))
  }

  // ---------------------------------------------------------------- what is shown

  /** The players filter keeps exactly the states of the players in view. */
  lemma {:induction false} VisiblePlayersContents(sqrt: real -> real, ps: map<nat, Player>, ids: seq<nat>, v: View)
    requires forall k :: 0 <= k < |ids| ==> ids[k] in ps
    ensures forall st :: st in VisiblePlayers(sqrt, ps, ids, v) <==>
      exists k :: 0 <= k < |ids| && PlayerInView(sqrt, ps[ids[k]], v) && st == PlayerStateOf(sqrt, ps[ids[k]])
  {
    if |ids| > 0 {
      var front := ids[..|ids| - 1];
      var p := ps[ids[|ids| - 1]];
      VisiblePlayersContents(sqrt, ps, front, v);
      AnyCellInViewIff(sqrt, p.cells, v);
      forall st ensures st in VisiblePlayers(sqrt, ps, ids, v) <==>
        exists k :: 0 <= k < |ids| && PlayerInView(sqrt, ps[ids[k]], v) && st == PlayerStateOf(sqrt, ps[ids[k]])
      {
        if exists k :: 0 <= k < |ids| && PlayerInView(sqrt, ps[ids[k]], v) && st == PlayerStateOf(sqrt, ps[ids[k]]) {
          var k :| 0 <= k < |ids| && PlayerInView(sqrt, ps[ids[k]], v) && st == PlayerStateOf(sqrt, ps[ids[k]]);
          if k < |front| {
            assert front[k] == ids[k];
          }
        }
        if st in VisiblePlayers(sqrt, ps, front, v) {
          var k :| 0 <= k < |front| && PlayerInView(sqrt, ps[front[k]], v) && st == PlayerStateOf(sqrt, ps[front[k]]);
          assert ids[k] == front[k];
        }
      }
    }
  }

  /**
   * For a living viewer and a key order of the map: a player appears in the
   * message exactly when it is in view, and then with its id, name, skin and
   * all of its cells (not only the visible ones), each with its radius.
   */
  lemma {:induction false} BuildStatePlayers(sqrt: real -> real, s: WorldState, viewer: nat, ids: seq<nat>)
    requires IsSqrt(sqrt) && Inv(s) && IsKeyOrder(ids, s.players)
    requires viewer in s.players && s.players[viewer].alive
    ensures var v := ViewOf(sqrt, s.players[viewer]);
      var shown := BuildState(sqrt, s, viewer, ids).value.players;
      && (forall id :: id in s.players ==>
            ((exists j :: 0 <= j < |shown| && shown[j].id == id) <==> PlayerInView(sqrt, s.players[id], v)))
      && (forall j :: 0 <= j < |shown| ==>
            && shown[j].id in s.players
            && var p := s.players[shown[j].id];
            && shown[j].name == p.name && shown[j].skin == SkinUrl(p)
            && |shown[j].cells| == |p.cells|
            && (forall k :: 0 <= k < |p.cells| ==>
                  shown[j].cells[k] == P.CellState(p.cells[k].x, p.cells[k].y, MassToRadius(sqrt, p.cells[k].mass))))
  {
    var v := ViewOf(sqrt, s.players[viewer]);
    var shown := BuildState(sqrt, s, viewer, ids).value.players;
    assert shown == VisiblePlayers(sqrt, s.players, ids, v);
    VisiblePlayersContents(sqrt, s.players, ids, v);
    forall id | id in s.players
      ensures (exists j :: 0 <= j < |shown| && shown[j].id == id) <==> PlayerInView(sqrt, s.players[id], v)
    {
      if PlayerInView(sqrt, s.players[id], v) {
        var k :| 0 <= k < |ids| && ids[k] == id;
        var st := PlayerStateOf(sqrt, s.players[id]);
        assert st in shown;
        var j :| 0 <= j < |shown| && shown[j] == st;
        assert shown[j].id == id;
      }
      if exists j :: 0 <= j < |shown| && shown[j].id == id {
        var j :| 0 <= j < |shown| && shown[j].id == id;
        assert shown[j] in shown;
        var k :| 0 <= k < |ids| && PlayerInView(sqrt, s.players[ids[k]], v) && shown[j] == PlayerStateOf(sqrt, s.players[ids[k]]);
        assert s.players[ids[k]].id == ids[k];
      }
    }
    forall j | 0 <= j < |shown|
      ensures shown[j].id in s.players && shown[j] == PlayerStateOf(sqrt, s.players[shown[j].id])
    {
      assert shown[j] in shown;
      var k :| 0 <= k < |ids| && PlayerInView(sqrt, s.players[ids[k]], v) && shown[j] == PlayerStateOf(sqrt, s.players[ids[k]]);
      assert s.players[ids[k]].id == ids[k];
    }
  }

  /**
   * The food filter is an order-preserving selection: the kept indices are
   * increasing, and an index is kept exactly when that pellet is in view.
   */
  lemma {:induction false} VisibleFoodSelection(food: seq<Food>, v: View)
    ensures var r := VisibleFood(food, v);
      var idx := FoodIndices(food, v);
      && |r| == |idx|
      && (forall j :: 0 <= j < |idx| ==> idx[j] < |food| && r[j] == FoodStateOf(food[idx[j]]))
      && (forall j, k :: 0 <= j < k < |idx| ==> idx[j] < idx[k])
      && (forall i :: 0 <= i < |food| ==> (i in idx <==> FoodInView(food[i], v)))
  {
    if |food| > 0 {
      var front := food[..|food| - 1];
      VisibleFoodSelection(front, v);
      var idx := FoodIndices(food, v);
      var idx' := FoodIndices(front, v);
      assert forall j :: 0 <= j < |idx'| ==> idx[j] == idx'[j];
      forall i | 0 <= i < |food| ensures i in idx <==> FoodInView(food[i], v) {
        if i < |front| {
          assert front[i] == food[i];
          assert i in idx' <==> i in idx;
        }
      }
    }
  }

  /** The same for viruses. */
  lemma {:induction false} VisibleVirusesSelection(viruses: seq<Virus>, v: View)
    ensures var r := VisibleViruses(viruses, v);
      var idx := VirusIndices(viruses, v);
      && |r| == |idx|
      && (forall j :: 0 <= j < |idx| ==> idx[j] < |viruses| && r[j] == VirusStateOf(viruses[idx[j]]))
      && (forall j, k :: 0 <= j < k < |idx| ==> idx[j] < idx[k])
      && (forall i :: 0 <= i < |viruses| ==> (i in idx <==> VirusInView(viruses[i], v)))
  {
    if |viruses| > 0 {
      var front := viruses[..|viruses| - 1];
      VisibleVirusesSelection(front, v);
      var idx := VirusIndices(viruses, v);
      var idx' := VirusIndices(front, v);
      assert forall j :: 0 <= j < |idx'| ==> idx[j] == idx'[j];
      forall i | 0 <= i < |viruses| ensures i in idx <==> VirusInView(viruses[i], v) {
        if i < |front| {
          assert front[i] == viruses[i];
          assert i in idx' <==> i in idx;
        }
      }
    }
  }

  /** A viewer made of a single cell always sees itself: the view is centred on that cell. */
  lemma {:induction false} OneCellViewerSeesItself(sqrt: real -> real, s: WorldState, viewer: nat, ids: seq<nat>)
    requires IsSqrt(sqrt) && Inv(s) && IsKeyOrder(ids, s.players)
    requires viewer in s.players && s.players[viewer].alive && |s.players[viewer].cells| == 1
    ensures var shown := BuildState(sqrt, s, viewer, ids).value.players;
      exists j :: 0 <= j < |shown| && shown[j].id == viewer
  {
    var p := s.players[viewer];
    var c := p.cells[0];
    CenterWithinCells(p.cells, c.x, c.x, c.y, c.y);
    RadiusSquared(sqrt, c.mass);
    var v := ViewOf(sqrt, p);
    assert CellInView(sqrt, p.cells[0], v);
    BuildStatePlayers(sqrt, s, viewer, ids);
  }
}
