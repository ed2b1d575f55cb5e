/**
 * `check_virus_eating`: a living cell of at least VIRUS_SPLIT_MIN_MASS that
 * reaches a virus bursts into up to eight fragments flung outwards, and the
 * virus leaves the world.
 */
module VirusPop {
  import opened Wrappers
  import opened RealMath
  import opened Config
  import opened Physics
  import opened Players
  import opened Pickups
  import opened SeqOps
  import opened WorldStates

  /** `std::f64::consts::TAU`, as the decimal the compiler rounds to. */
  const TAU: real := 6.283185307179586

  /** Whether cell `c` bursts on virus `v`. */
  predicate CanPop(sqrt: real -> real, c: Cell, v: Virus) {
    c.mass >= VIRUS_SPLIT_MIN_MASS && CanEatFood(sqrt, c.x, c.y, c.mass, v.x, v.y)
  }

  /** The first cell from index `from` on that bursts on `v`: the cell scan with its `break`. */
  function FirstPopper(sqrt: real -> real, cells: seq<Cell>, v: Virus, from: nat): (r: Option<nat>)
    requires from <= |cells|
    ensures r.Some? ==> from <= r.value < |cells| && CanPop(sqrt, cells[r.value], v)
    ensures r.Some? ==> forall k :: from <= k < r.value ==> !CanPop(sqrt, cells[k], v)
    ensures r.None? ==> forall k :: from <= k < |cells| ==> !CanPop(sqrt, cells[k], v)
    decreases |cells| - from
  {
    if from == |cells| then None
    else if CanPop(sqrt, cells[from], v) then Some(from)
    else FirstPopper(sqrt, cells, v, from + 1)
  }

  /** Whether any of the cells would burst on `v`. */
  predicate SomeCellPops(sqrt: real -> real, cells: seq<Cell>, v: Virus) {
    exists k :: 0 <= k < |cells| && CanPop(sqrt, cells[k], v)
  }

  /** `(MAX_CELLS_PER_PLAYER - cells.len()).min(8)`: no more fragments than the free slots. */
  function PopCount(n: nat): (r: nat)
    requires n <= MAX_CELLS_PER_PLAYER
    ensures r <= 8 && n + r <= MAX_CELLS_PER_PLAYER
    ensures r == 0 <==> n == MAX_CELLS_PER_PLAYER
  {
    if MAX_CELLS_PER_PLAYER - n < 8 then MAX_CELLS_PER_PLAYER - n else 8
  }

  /** The launch angle of fragment `i` of `count`: the fragments fan out evenly. */
  function LaunchAngle(i: nat, count: nat): (a: real)
    requires 0 < count
    ensures i < count ==> 0.0 <= a < TAU
  {
    (i as real / count as real) * TAU
  }

  /** Fragment `i` of `count`, launched at `LaunchAngle(i, count)`. */
  function Fragment(cos: real -> real, sin: real -> real, x: real, y: real, mass: real, i: nat, count: nat): (c: Cell)
    requires 0 < count
    ensures c.x == x && c.y == y && c.mass == mass && c.mergeTime == MERGE_TIME_SECS
  {
    var angle := LaunchAngle(i, count);
    NewCell(x, y, mass).(vx := cos(angle) * SPLIT_LAUNCH_SPEED, vy := sin(angle) * SPLIT_LAUNCH_SPEED,
                         mergeTime := MERGE_TIME_SECS)
  }

  /** The first `n` of `count` fragments, in the order they are pushed. */
  function Fragments(cos: real -> real, sin: real -> real, x: real, y: real, mass: real, count: nat, n: nat): (r: seq<Cell>)
    requires n <= count
    ensures |r| == n
    ensures forall i :: 0 <= i < n ==> r[i] == Fragment(cos, sin, x, y, mass, i, count)
  {
    if n == 0 then [] else Fragments(cos, sin, x, y, mass, count, n - 1) + [Fragment(cos, sin, x, y, mass, n - 1, count)]
  }

  lemma {:induction false} FragmentsMass(cos: real -> real, sin: real -> real, x: real, y: real, mass: real, count: nat, n: nat)
    requires n <= count
    ensures TotalMass(Fragments(cos, sin, x, y, mass, count, n)) == n as real * mass
  {
    var r := Fragments(cos, sin, x, y, mass, count, n);
    assert forall k :: 0 <= k < |r| ==> r[k].mass == mass;
    UniformTotalMass(r, mass);
  }

  /** The cells after cell `ci` bursts: it keeps one share, the fragments take the rest. */
  function PoppedCells(cos: real -> real, sin: real -> real, cells: seq<Cell>, ci: nat): (r: seq<Cell>)
    requires ci < |cells| <= MAX_CELLS_PER_PLAYER
    ensures |r| == |cells| + PopCount(|cells|) <= MAX_CELLS_PER_PLAYER
  {
    var count := PopCount(|cells|);
    if count == 0 then cells
    else
      var c := cells[ci];
      var massPer := c.mass / (count as real + 1.0);
      cells[ci := c.(mass := massPer)] + Fragments(cos, sin, c.x, c.y, massPer, count, count)
  }

  /**
   * A burst changes only the bursting cell's mass, to one share in
   * `count + 1`; the fragments sit on it, each with one share. A full player
   * keeps its cells.
   */
  lemma {:induction false} PoppedCellsShape(cos: real -> real, sin: real -> real, cells: seq<Cell>, ci: nat)
    requires ci < |cells| <= MAX_CELLS_PER_PLAYER
    ensures var r := PoppedCells(cos, sin, cells, ci);
      var count := PopCount(|cells|);
      var massPer := cells[ci].mass / (count as real + 1.0);
      && (count == 0 ==> r == cells)
      && (count > 0 ==>
            && r[ci] == cells[ci].(mass := massPer)
            && (forall k :: 0 <= k < |cells| && k != ci ==> r[k] == cells[k])
            && (forall i :: 0 <= i < count ==> r[|cells| + i] == Fragment(cos, sin, cells[ci].x, cells[ci].y, massPer, i, count)))
  {
  }

  /** A burst keeps the total mass: one share stays, `count` shares fly off. */
  lemma {:induction false} PoppedCellsMass(cos: real -> real, sin: real -> real, cells: seq<Cell>, ci: nat)
    requires ci < |cells| <= MAX_CELLS_PER_PLAYER
    ensures TotalMass(PoppedCells(cos, sin, cells, ci)) == TotalMass(cells)
  {
    var count := PopCount(|cells|);
    if count > 0 {
      var c := cells[ci];
      var massPer := c.mass / (count as real + 1.0);
      var frags := Fragments(cos, sin, c.x, c.y, massPer, count, count);
      FragmentsMass(cos, sin, c.x, c.y, massPer, count, count);
      SharesAddUp(c.mass, count, massPer);
      BurstTotal(cells, ci, massPer, count, frags);
    }
  }

  lemma {:induction false} BurstTotal(cells: seq<Cell>, ci: nat, share: real, count: nat, frags: seq<Cell>)
    requires ci < |cells|
    requires TotalMass(frags) == count as real * share && share + count as real * share == cells[ci].mass
    ensures TotalMass(cells[ci := cells[ci].(mass := share)] + frags) == TotalMass(cells)
  {
    TotalMassAppend(cells[ci := cells[ci].(mass := share)], frags);
    TotalMassUpdate(cells, ci, cells[ci].(mass := share));
  }

  lemma {:induction false} SharesAddUp(m: real, count: nat, share: real)
    requires share == m / (count as real + 1.0)
    ensures share + count as real * share == m
  {
    var k := count as real + 1.0;
    assert share * k == m;
  }

  /** A cell heavy enough to burst leaves every share above the mass floor. */
  lemma {:induction false} PoppedCellsFloor(cos: real -> real, sin: real -> real, cells: seq<Cell>, ci: nat)
    requires ci < |cells| <= MAX_CELLS_PER_PLAYER
    requires MassesAtLeastFloor(cells) && cells[ci].mass >= VIRUS_SPLIT_MIN_MASS
    ensures MassesAtLeastFloor(PoppedCells(cos, sin, cells, ci))
  {
    var count := PopCount(|cells|);
    PoppedCellsShape(cos, sin, cells, ci);
    if count > 0 {
      ShareAboveFloor(cells[ci].mass, count);
    }
  }

  lemma {:induction false} ShareAboveFloor(m: real, count: nat)
    requires m >= VIRUS_SPLIT_MIN_MASS && 0 < count <= 8
    ensures m / (count as real + 1.0) >= MIN_MASS
  {
    var k := count as real + 1.0;
    assert MIN_MASS * k <= 90.0;
    assert (m / k) * k == m;
  }

  /** The player's cells after the viruses `0..n` have been tried in order. */
  function PopScan(sqrt: real -> real, cos: real -> real, sin: real -> real, cells: seq<Cell>, viruses: seq<Virus>, n: nat): (r: seq<Cell>)
    requires n <= |viruses| && |cells| <= MAX_CELLS_PER_PLAYER
    ensures |cells| <= |r| <= MAX_CELLS_PER_PLAYER
  {
    if n == 0 then cells else PopStep(sqrt, cos, sin, PopScan(sqrt, cos, sin, cells, viruses, n - 1), viruses[n - 1])
  }

  /** The cells after virus `v` has been tried: the first cell that reaches it bursts. */
  function PopStep(sqrt: real -> real, cos: real -> real, sin: real -> real, cells: seq<Cell>, v: Virus): (r: seq<Cell>)
    requires |cells| <= MAX_CELLS_PER_PLAYER
    ensures |cells| <= |r| <= MAX_CELLS_PER_PLAYER
  {
    match FirstPopper(sqrt, cells, v, 0)
    case None => cells
    case Some(ci) => PoppedCells(cos, sin, cells, ci)
  }

  /** Existing cells keep everything but their mass, which does not grow. */
  predicate OnlyMassesFell(before: seq<Cell>, after: seq<Cell>) {
    && |before| <= |after|
    && forall k :: 0 <= k < |before| ==> after[k] == before[k].(mass := after[k].mass) && after[k].mass <= before[k].mass
  }

  /** What a burst keeps, on the cell index alone. */
  lemma {:induction false} BurstProperties(cos: real -> real, sin: real -> real, cells: seq<Cell>, ci: nat)
    requires ci < |cells| <= MAX_CELLS_PER_PLAYER
    requires MassesAtLeastFloor(cells) && cells[ci].mass >= VIRUS_SPLIT_MIN_MASS
    ensures var r := PoppedCells(cos, sin, cells, ci);
      MassesAtLeastFloor(r) && TotalMass(r) == TotalMass(cells) && OnlyMassesFell(cells, r)
  {
    PoppedCellsShape(cos, sin, cells, ci);
    PoppedCellsMass(cos, sin, cells, ci);
    PoppedCellsFloor(cos, sin, cells, ci);
    if PopCount(|cells|) > 0 {
      ShareBelowWhole(cells[ci].mass, PopCount(|cells|));
    }
  }

  lemma {:induction false} PopStepProperties(sqrt: real -> real, cos: real -> real, sin: real -> real, cells: seq<Cell>, v: Virus)
    requires |cells| <= MAX_CELLS_PER_PLAYER && MassesAtLeastFloor(cells)
    ensures var r := PopStep(sqrt, cos, sin, cells, v);
      MassesAtLeastFloor(r) && TotalMass(r) == TotalMass(cells) && OnlyMassesFell(cells, r)
  {
    match FirstPopper(sqrt, cells, v, 0)
    case None =>
    case Some(ci) =>
      assert cells[ci].mass >= VIRUS_SPLIT_MIN_MASS;
      BurstProperties(cos, sin, cells, ci);
  }

  /** Whether virus `vi` is burst by one of the cells, as they stand when its turn comes. */
  predicate PopsAt(sqrt: real -> real, cos: real -> real, sin: real -> real, cells: seq<Cell>, viruses: seq<Virus>, vi: nat)
    requires vi < |viruses| && |cells| <= MAX_CELLS_PER_PLAYER
  {
    FirstPopper(sqrt, PopScan(sqrt, cos, sin, cells, viruses, vi), viruses[vi], 0).Some?
  }

  function VirusesPoppedByCells(sqrt: real -> real, cos: real -> real, sin: real -> real, cells: seq<Cell>, viruses: seq<Virus>): set<nat>
    requires |cells| <= MAX_CELLS_PER_PLAYER
  {
    set vi: nat | vi < |viruses| && PopsAt(sqrt, cos, sin, cells, viruses, vi)
  }

  /**
   * The scan keeps the mass floor and the total mass, never drops a cell,
   * and changes nothing of an existing cell but its mass, which only falls.
   */
  lemma {:induction false} PopScanProperties(sqrt: real -> real, cos: real -> real, sin: real -> real, cells: seq<Cell>, viruses: seq<Virus>, n: nat)
    requires n <= |viruses| && |cells| <= MAX_CELLS_PER_PLAYER && MassesAtLeastFloor(cells)
    ensures var r := PopScan(sqrt, cos, sin, cells, viruses, n);
      MassesAtLeastFloor(r) && TotalMass(r) == TotalMass(cells) && OnlyMassesFell(cells, r)
  {
    if n > 0 {
      var cs := PopScan(sqrt, cos, sin, cells, viruses, n - 1);
      PopScanProperties(sqrt, cos, sin, cells, viruses, n - 1);
      PopStepProperties(sqrt, cos, sin, cs, viruses[n - 1]);
    }
  }

  lemma {:induction false} ShareBelowWhole(m: real, count: nat)
    requires m >= 0.0
    ensures m / (count as real + 1.0) <= m
  {
  }

  /** A player already at MAX_CELLS_PER_PLAYER keeps its cells unchanged. */
  lemma {:induction false} FullPlayerUnchanged(sqrt: real -> real, cos: real -> real, sin: real -> real, cells: seq<Cell>, viruses: seq<Virus>, n: nat)
    requires n <= |viruses| && |cells| == MAX_CELLS_PER_PLAYER
    ensures PopScan(sqrt, cos, sin, cells, viruses, n) == cells
  {
    if n > 0 {
      FullPlayerUnchanged(sqrt, cos, sin, cells, viruses, n - 1);
      FullPlayerStep(sqrt, cos, sin, cells, viruses[n - 1]);
    }
  }

  /** A full player still consumes every virus one of its cells reaches. */
  lemma {:induction false} FullPlayerStillConsumes(sqrt: real -> real, cos: real -> real, sin: real -> real, cells: seq<Cell>, viruses: seq<Virus>, vi: nat)
    requires vi < |viruses| && |cells| == MAX_CELLS_PER_PLAYER
    ensures PopsAt(sqrt, cos, sin, cells, viruses, vi) <==> SomeCellPops(sqrt, cells, viruses[vi])
  {
    FullPlayerUnchanged(sqrt, cos, sin, cells, viruses, vi);
    FullPlayerStep(sqrt, cos, sin, cells, viruses[vi]);
  }

  lemma {:induction false} FullPlayerStep(sqrt: real -> real, cos: real -> real, sin: real -> real, cells: seq<Cell>, v: Virus)
    requires |cells| == MAX_CELLS_PER_PLAYER
    ensures PopStep(sqrt, cos, sin, cells, v) == cells
    ensures FirstPopper(sqrt, cells, v, 0).Some? <==> SomeCellPops(sqrt, cells, v)
  {
    if FirstPopper(sqrt, cells, v, 0).None? {
      assert forall k :: 0 <= k < |cells| ==> !CanPop(sqrt, cells[k], v);
    }
  }

  // ---------------------------------------------------------------- the phase

  function PoppedPlayer(sqrt: real -> real, cos: real -> real, sin: real -> real, p: Player, viruses: seq<Virus>): (r: Player)
    requires |p.cells| <= MAX_CELLS_PER_PLAYER
    ensures r == p.(cells := r.cells)
  {
    if !p.alive then p else p.(cells := PopScan(sqrt, cos, sin, p.cells, viruses, |viruses|))
  }

  function VirusesPoppedByPlayer(sqrt: real -> real, cos: real -> real, sin: real -> real, p: Player, viruses: seq<Virus>): set<nat>
    requires |p.cells| <= MAX_CELLS_PER_PLAYER
  {
    if !p.alive then {} else VirusesPoppedByCells(sqrt, cos, sin, p.cells, viruses)
  }

  predicate SomePlayerPops(sqrt: real -> real, cos: real -> real, sin: real -> real, ps: map<nat, Player>, viruses: seq<Virus>, vi: nat) {
    exists id :: id in ps && |ps[id].cells| <= MAX_CELLS_PER_PLAYER && vi in VirusesPoppedByPlayer(sqrt, cos, sin, ps[id], viruses)
  }

  /** Every virus some player bursts: `virus_eaten` as a set. */
  function VirusesPopped(sqrt: real -> real, cos: real -> real, sin: real -> real, ps: map<nat, Player>, viruses: seq<Virus>): set<nat> {
    set vi: nat | vi < |viruses| && SomePlayerPops(sqrt, cos, sin, ps, viruses, vi)
  }

  /**
   * The world after `check_virus_eating`: every living player's cells burst
   * on the viruses, then the consumed viruses removed with `swap_remove`
   * from the highest index down.
   */
  function VirusEatingDone(sqrt: real -> real, cos: real -> real, sin: real -> real, s: WorldState): (r: WorldState)
    requires AllWellFormed(s.players)
    ensures r == s.(players := r.players, viruses := r.viruses)
  {
    var popped := VirusesPopped(sqrt, cos, sin, s.players, s.viruses);
    s.(players := map id | id in s.players :: PoppedPlayer(sqrt, cos, sin, s.players[id], s.viruses),
       viruses := SwapRemoveAll(s.viruses, DescendingMembers(popped, |s.viruses|)))
  }

  /**
   * Virus eating keeps the invariant and every player's total mass; each
   * consumed virus leaves the list exactly once.
   */
  lemma {:induction false} VirusEatingDoneProperties(sqrt: real -> real, cos: real -> real, sin: real -> real, s: WorldState)
    requires Inv(s)
    ensures var r := VirusEatingDone(sqrt, cos, sin, s);
      var popped := VirusesPopped(sqrt, cos, sin, s.players, s.viruses);
      var idx := DescendingMembers(popped, |s.viruses|);
      && Inv(r)
      && r.players.Keys == s.players.Keys
      && (forall id :: id in s.players ==>
            TotalMass(r.players[id].cells) == TotalMass(s.players[id].cells) && r.players[id].alive == s.players[id].alive)
      && |r.viruses| == |s.viruses| - |popped|
      && multiset(r.viruses) + multiset(ItemsAt(s.viruses, idx)) == multiset(s.viruses)
  {
    var r := VirusEatingDone(sqrt, cos, sin, s);
    var popped := VirusesPopped(sqrt, cos, sin, s.players, s.viruses);
    var idx := DescendingMembers(popped, |s.viruses|);
    SwapRemoveAllRemovesExactly(s.viruses, idx);
    CountDescendingMembers(popped, |s.viruses|);
    forall id | id in s.players
      ensures WellFormed(r.players[id]) && TotalMass(r.players[id].cells) == TotalMass(s.players[id].cells)
    {
      var p := s.players[id];
      if p.alive {
        PopScanProperties(sqrt, cos, sin, p.cells, s.viruses, |s.viruses|);
      }
    }
    forall i | 0 <= i < |r.viruses| ensures VirusSpawnOk(r.viruses[i]) {
      assert r.viruses[i] in multiset(r.viruses);
      assert r.viruses[i] in multiset(s.viruses);
    }
  }

  // ---------------------------------------------------------------- the loops

  /** The burst of cell `ci`: its mass set to one share, then `for i in 0..split_count` pushes a fragment. */
  method PopCell(cos: real -> real, sin: real -> real, cells: seq<Cell>, ci: nat) returns (out: seq<Cell>)
    requires ci < |cells| <= MAX_CELLS_PER_PLAYER
    ensures out == PoppedCells(cos, sin, cells, ci)
  {
    var count := PopCount(|cells|);
    out := cells;
    if count > 0 {
      var massPer := cells[ci].mass / (count as real + 1.0);
      out := out[ci := out[ci].(mass := massPer)];
      var cx := out[ci].x;
      var cy := out[ci].y;
      for i := 0 to count
        invariant out == cells[ci := cells[ci].(mass := massPer)] + Fragments(cos, sin, cx, cy, massPer, count, i)
      {
        var angle := LaunchAngle(i, count);
        var fragment := NewCell(cx, cy, massPer);
        fragment := fragment.(vx := cos(angle) * SPLIT_LAUNCH_SPEED, vy := sin(angle) * SPLIT_LAUNCH_SPEED);
        fragment := fragment.(mergeTime := MERGE_TIME_SECS);
        out := out + [fragment];
      }
    }
  }

  /** `for ci in 0..player.cells.len()` for one virus: the first cell that reaches it bursts, then `break`. */
  method TryVirus(sqrt: real -> real, cos: real -> real, sin: real -> real, cells: seq<Cell>, v: Virus)
    returns (out: seq<Cell>, hit: bool)
    requires |cells| <= MAX_CELLS_PER_PLAYER
    ensures out == PopStep(sqrt, cos, sin, cells, v)
    ensures hit <==> FirstPopper(sqrt, cells, v, 0).Some?
  {
    out := cells;
    hit := false;
    var ci := 0;
    while ci < |cells|
      invariant ci <= |cells|
      invariant FirstPopper(sqrt, cells, v, 0) == FirstPopper(sqrt, cells, v, ci)
    {
      if cells[ci].mass >= VIRUS_SPLIT_MIN_MASS && CanEatFood(sqrt, cells[ci].x, cells[ci].y, cells[ci].mass, v.x, v.y) {
        hit := true;
        out := PopCell(cos, sin, cells, ci);
        return;
      }
      ci := ci + 1;
    }
  }

  /** One player's virus scan, recording each consumed virus index once. */
  method PopCellsOnViruses(sqrt: real -> real, cos: real -> real, sin: real -> real, cells: seq<Cell>, viruses: seq<Virus>, popped: seq<nat>)
    returns (out: seq<Cell>, popped': seq<nat>)
    requires |cells| <= MAX_CELLS_PER_PLAYER && Distinct(popped) && AllBelow(popped, |viruses|)
    ensures out == PopScan(sqrt, cos, sin, cells, viruses, |viruses|)
    ensures Distinct(popped') && AllBelow(popped', |viruses|)
    ensures forall i :: i in popped' <==> i in popped || i in VirusesPoppedByCells(sqrt, cos, sin, cells, viruses)
  {
    out := cells;
    popped' := popped;
    for vi := 0 to |viruses|
      invariant out == PopScan(sqrt, cos, sin, cells, viruses, vi)
      invariant Distinct(popped') && AllBelow(popped', |viruses|)
      invariant forall i: nat :: i in popped' <==> i in popped || (i < vi && PopsAt(sqrt, cos, sin, cells, viruses, i))
    {
      out, popped' := PopVirus(sqrt, cos, sin, cells, viruses, popped, vi, out, popped');
    }
  }

  /** The body of the virus loop for virus `vi`: try it, and record it if it burst a cell. */
  method PopVirus(sqrt: real -> real, cos: real -> real, sin: real -> real, cells: seq<Cell>, viruses: seq<Virus>,
                  popped: seq<nat>, vi: nat, out: seq<Cell>, popped': seq<nat>)
    returns (out2: seq<Cell>, popped2: seq<nat>)
    requires vi < |viruses| && |cells| <= MAX_CELLS_PER_PLAYER
    requires out == PopScan(sqrt, cos, sin, cells, viruses, vi)
    requires Distinct(popped') && AllBelow(popped', |viruses|)
    requires forall i: nat :: i in popped' <==> i in popped || (i < vi && PopsAt(sqrt, cos, sin, cells, viruses, i))
    ensures out2 == PopScan(sqrt, cos, sin, cells, viruses, vi + 1)
    ensures Distinct(popped2) && AllBelow(popped2, |viruses|)
    ensures forall i: nat :: i in popped2 <==> i in popped || (i < vi + 1 && PopsAt(sqrt, cos, sin, cells, viruses, i))
  {
    var hit;
    out2, hit := TryVirus(sqrt, cos, sin, out, viruses[vi]);
    assert hit == PopsAt(sqrt, cos, sin, cells, viruses, vi);
    popped2 := popped';
    if hit && vi !in popped' {
      popped2 := popped' + [vi];
      DistinctAppend(popped', vi);
    }
    assert forall i :: i in popped2 <==> i in popped' || (hit && i == vi);
  }

  /** The player loop of `check_virus_eating`, collecting `virus_eaten` once per index. */
  method PopAll(sqrt: real -> real, cos: real -> real, sin: real -> real, ps: map<nat, Player>, viruses: seq<Virus>)
    returns (out: map<nat, Player>, popped: seq<nat>)
    requires AllWellFormed(ps)
    ensures out.Keys == ps.Keys
    ensures forall id :: id in ps ==> out[id] == PoppedPlayer(sqrt, cos, sin, ps[id], viruses)
    ensures Distinct(popped) && AllBelow(popped, |viruses|)
    ensures forall i :: i in popped <==> i in VirusesPopped(sqrt, cos, sin, ps, viruses) && i < |viruses|
  {
    out := ps;
    popped := [];
    var todo := ps.Keys;
    while todo != {}
      invariant todo <= ps.Keys && out.Keys == ps.Keys
      invariant forall id :: id in todo ==> out[id] == ps[id]
      invariant forall id :: id in ps && id !in todo ==> out[id] == PoppedPlayer(sqrt, cos, sin, ps[id], viruses)
      invariant Distinct(popped) && AllBelow(popped, |viruses|)
      invariant forall i :: i in popped <==>
        (i < |viruses| && exists id :: id in ps && id !in todo && |ps[id].cells| <= MAX_CELLS_PER_PLAYER
                                      && i in VirusesPoppedByPlayer(sqrt, cos, sin, ps[id], viruses))
      decreases |todo|
    {
      var id :| id in todo;
      var p := out[id];
      if p.alive {
        var cells;
        cells, popped := PopCellsOnViruses(sqrt, cos, sin, p.cells, viruses, popped);
        out := out[id := p.(cells := cells)];
      }
      todo := todo - {id};
    }
  }

  /** `check_virus_eating` on the player map and the virus list: pop, then swap-remove the popped viruses highest index first. */
  method PopViruses(sqrt: real -> real, cos: real -> real, sin: real -> real, s: WorldState)
    returns (ps: map<nat, Player>, viruses: seq<Virus>)
    requires AllWellFormed(s.players)
    ensures ps == VirusEatingDone(sqrt, cos, sin, s).players && viruses == VirusEatingDone(sqrt, cos, sin, s).viruses
  {
    var popped;
    ps, popped := PopAll(sqrt, cos, sin, s.players, s.viruses);
    SortedIndicesAreDescendingMembers(popped, VirusesPopped(sqrt, cos, sin, s.players, s.viruses), |s.viruses|);
    viruses := SwapRemoveEach(s.viruses, SortDesc(popped));
  }
}
