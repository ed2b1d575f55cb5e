/**
 * Player-versus-player eating (`check_player_eating` in src/game/world.rs).
 *
 * The scan over every ordered pair of distinct living players records one
 * kill per (eater cell, victim cell) pair that can eat; only afterwards are
 * the kills tallied per victim (cell indices) and per eater (summed mass), the
 * gains credited to each eater's largest cell and the victims' cells removed.
 */
module Combat {
  import opened RealMath
  import opened Config
  import opened Physics
  import opened Players
  import opened SeqOps
  import opened WorldStates

  /** `(eater_id, victim_id, victim_cell_idx, mass)` */
  datatype Kill = Kill(eater: nat, victim: nat, cellIdx: nat, mass: real)

  predicate Eats(sqrt: real -> real, a: Cell, b: Cell) {
    CanEat(sqrt, a.x, a.y, a.mass, b.x, b.y, b.mass)
  }

  predicate Living(ps: map<nat, Player>, id: nat) {
    id in ps && ps[id].alive
  }

  // ---------------------------------------------------------------- the scan

  /** Kills of cell `c1` against `cells2[..n]`, in index order. */
  function CellKills(sqrt: real -> real, eater: nat, c1: Cell, victim: nat, cells2: seq<Cell>, n: nat): seq<Kill>
    requires n <= |cells2|
  {
    if n == 0 then []
    else
      CellKills(sqrt, eater, c1, victim, cells2, n - 1)
      + (if Eats(sqrt, c1, cells2[n - 1]) then [Kill(eater, victim, n - 1, cells2[n - 1].mass)] else [])
  }

  /** Kills of `cells1[..m]` against all of `cells2`: `for c1 in &p1.cells { for (ci2, c2) in ... } }`. */
  function PairKills(sqrt: real -> real, eater: nat, cells1: seq<Cell>, victim: nat, cells2: seq<Cell>, m: nat): seq<Kill>
    requires m <= |cells1|
  {
    if m == 0 then []
    else PairKills(sqrt, eater, cells1, victim, cells2, m - 1) + CellKills(sqrt, eater, cells1[m - 1], victim, cells2, |cells2|)
  }

  /** One ordered pair of the scan: skipped unless the ids differ and both players are alive. */
  function CheckedPairKills(sqrt: real -> real, ps: map<nat, Player>, id1: nat, id2: nat): seq<Kill> {
    if id1 == id2 || !Living(ps, id1) || !Living(ps, id2) then []
    else PairKills(sqrt, id1, ps[id1].cells, id2, ps[id2].cells, |ps[id1].cells|)
  }

  /** Eater `id1` against `ids[..n]`. */
  function RowKills(sqrt: real -> real, ps: map<nat, Player>, id1: nat, ids: seq<nat>, n: nat): seq<Kill>
    requires n <= |ids|
  {
    if n == 0 then []
    else RowKills(sqrt, ps, id1, ids, n - 1) + CheckedPairKills(sqrt, ps, id1, ids[n - 1])
  }

  /** Eaters `ids[..n]` against all of `ids`: the whole kill list, for the key order `ids`. */
  function AllKills(sqrt: real -> real, ps: map<nat, Player>, ids: seq<nat>, n: nat): seq<Kill>
    requires n <= |ids|
  {
    if n == 0 then []
    else AllKills(sqrt, ps, ids, n - 1) + RowKills(sqrt, ps, ids[n - 1], ids, |ids|)
  }

  /** Some cell of `cells1` can eat `c2`. */
  predicate EatenBy(sqrt: real -> real, cells1: seq<Cell>, c2: Cell) {
    exists j :: 0 <= j < |cells1| && Eats(sqrt, cells1[j], c2)
  }

  /**
   * What a recorded kill means: two different living players, an existing
   * victim cell whose mass is recorded, and some eater cell that can eat it.
   */
  predicate KillInRange(ps: map<nat, Player>, k: Kill) {
    && Living(ps, k.eater) && Living(ps, k.victim) && k.eater != k.victim
    && k.cellIdx < |ps[k.victim].cells|
    && k.mass == ps[k.victim].cells[k.cellIdx].mass
  }

  predicate KillOk(sqrt: real -> real, ps: map<nat, Player>, k: Kill) {
    KillInRange(ps, k) && EatenBy(sqrt, ps[k.eater].cells, ps[k.victim].cells[k.cellIdx])
  }

  predicate AllKillsOk(sqrt: real -> real, ps: map<nat, Player>, kills: seq<Kill>) {
    forall t :: 0 <= t < |kills| ==> KillOk(sqrt, ps, kills[t])
  }

  /** The kill list holds a kill of victim cell `ci` of `v` by `e`. */
  predicate Recorded(kills: seq<Kill>, e: nat, v: nat, ci: nat) {
    exists t :: 0 <= t < |kills| && kills[t].eater == e && kills[t].victim == v && kills[t].cellIdx == ci
  }

  lemma {:induction false} RecordedConcat(a: seq<Kill>, b: seq<Kill>, e: nat, v: nat, ci: nat)
    ensures Recorded(a + b, e, v, ci) <==> Recorded(a, e, v, ci) || Recorded(b, e, v, ci)
  {
    if Recorded(a + b, e, v, ci) {
      var t :| 0 <= t < |a + b| && (a + b)[t].eater == e && (a + b)[t].victim == v && (a + b)[t].cellIdx == ci;
      if t >= |a| {
        assert b[t - |a|] == (a + b)[t];
      }
    }
    if Recorded(a, e, v, ci) {
      var t :| 0 <= t < |a| && a[t].eater == e && a[t].victim == v && a[t].cellIdx == ci;
      assert (a + b)[t] == a[t];
    }
    if Recorded(b, e, v, ci) {
      var t :| 0 <= t < |b| && b[t].eater == e && b[t].victim == v && b[t].cellIdx == ci;
      assert (a + b)[t + |a|] == b[t];
    }
  }

  lemma {:induction false} CellKillsSound(sqrt: real -> real, eater: nat, c1: Cell, victim: nat, cells2: seq<Cell>, n: nat)
    requires n <= |cells2|
    ensures forall t :: 0 <= t < |CellKills(sqrt, eater, c1, victim, cells2, n)| ==>
      var k := CellKills(sqrt, eater, c1, victim, cells2, n)[t];
      k.eater == eater && k.victim == victim && k.cellIdx < n
      && k.mass == cells2[k.cellIdx].mass && Eats(sqrt, c1, cells2[k.cellIdx])
  {
    if n > 0 {
      CellKillsSound(sqrt, eater, c1, victim, cells2, n - 1);
    }
  }

  lemma {:induction false} PairKillsSound(sqrt: real -> real, eater: nat, cells1: seq<Cell>, victim: nat, cells2: seq<Cell>, m: nat)
    requires m <= |cells1|
    ensures forall t :: 0 <= t < |PairKills(sqrt, eater, cells1, victim, cells2, m)| ==>
      var k := PairKills(sqrt, eater, cells1, victim, cells2, m)[t];
      k.eater == eater && k.victim == victim && k.cellIdx < |cells2|
      && k.mass == cells2[k.cellIdx].mass && EatenBy(sqrt, cells1, cells2[k.cellIdx])
  {
    if m > 0 {
      PairKillsSound(sqrt, eater, cells1, victim, cells2, m - 1);
      CellKillsSound(sqrt, eater, cells1[m - 1], victim, cells2, |cells2|);
      var a: seq<Kill> := PairKills(sqrt, eater, cells1, victim, cells2, m - 1);
      var b: seq<Kill> := CellKills(sqrt, eater, cells1[m - 1], victim, cells2, |cells2|);
      forall t | |a| <= t < |a + b|
        ensures EatenBy(sqrt, cells1, cells2[(a + b)[t].cellIdx])
      {
        assert (a + b)[t] == b[t - |a|];
        assert Eats(sqrt, cells1[m - 1], cells2[b[t - |a|].cellIdx]);
      }
    }
  }

  lemma {:induction false} CheckedPairKillsSound(sqrt: real -> real, ps: map<nat, Player>, id1: nat, id2: nat)
    ensures AllKillsOk(sqrt, ps, CheckedPairKills(sqrt, ps, id1, id2))
    ensures forall t :: 0 <= t < |CheckedPairKills(sqrt, ps, id1, id2)| ==>
      CheckedPairKills(sqrt, ps, id1, id2)[t].eater == id1 && CheckedPairKills(sqrt, ps, id1, id2)[t].victim == id2
  {
    if !(id1 == id2 || !Living(ps, id1) || !Living(ps, id2)) {
      PairKillsSound(sqrt, id1, ps[id1].cells, id2, ps[id2].cells, |ps[id1].cells|);
    }
  }

  lemma {:induction false} RowKillsSound(sqrt: real -> real, ps: map<nat, Player>, id1: nat, ids: seq<nat>, n: nat)
    requires n <= |ids|
    ensures AllKillsOk(sqrt, ps, RowKills(sqrt, ps, id1, ids, n))
    ensures forall t :: 0 <= t < |RowKills(sqrt, ps, id1, ids, n)| ==> RowKills(sqrt, ps, id1, ids, n)[t].eater == id1
  {
    if n > 0 {
      RowKillsSound(sqrt, ps, id1, ids, n - 1);
      CheckedPairKillsSound(sqrt, ps, id1, ids[n - 1]);
    }
  }

  /** Every kill of a row has the row's eater. */
  lemma {:induction false} RowKillsEater(sqrt: real -> real, ps: map<nat, Player>, id1: nat, ids: seq<nat>, n: nat)
    requires n <= |ids|
    ensures forall t :: 0 <= t < |RowKills(sqrt, ps, id1, ids, n)| ==> RowKills(sqrt, ps, id1, ids, n)[t].eater == id1
  {
    RowKillsSound(sqrt, ps, id1, ids, n);
  }

  /** Every recorded kill is a genuine one (see `KillOk`). */
  lemma {:induction false} AllKillsSound(sqrt: real -> real, ps: map<nat, Player>, ids: seq<nat>, n: nat)
    requires n <= |ids|
    ensures AllKillsOk(sqrt, ps, AllKills(sqrt, ps, ids, n))
  {
    ScanRowsFlatten(sqrt, ps, ids, n);
    ScanRowsAre(sqrt, ps, ids, n);
    var rows := ScanRows(sqrt, ps, ids, n);
    forall i | 0 <= i < |rows| ensures AllKillsOk(sqrt, ps, rows[i]) {
      RowKillsSound(sqrt, ps, ids[i], ids, |ids|);
    }
    RowsSound(sqrt, ps, rows);
  }

  /** Rows of genuine kills, laid end to end, are genuine kills. */
  lemma {:induction false} RowsSound(sqrt: real -> real, ps: map<nat, Player>, rows: seq<seq<Kill>>)
    requires forall i :: 0 <= i < |rows| ==> AllKillsOk(sqrt, ps, rows[i])
    ensures AllKillsOk(sqrt, ps, Flatten(rows))
  {
    if |rows| > 0 {
      var k := |rows| - 1;
      assert forall i :: 0 <= i < k ==> rows[..k][i] == rows[i];
      RowsSound(sqrt, ps, rows[..k]);
      var a, b := Flatten(rows[..k]), rows[k];
      forall t | 0 <= t < |a + b| ensures KillOk(sqrt, ps, (a + b)[t]) {
        if t >= |a| { assert (a + b)[t] == b[t - |a|]; }
      }
    }
  }

  lemma {:induction false} CellKillsComplete(sqrt: real -> real, eater: nat, c1: Cell, victim: nat, cells2: seq<Cell>, n: nat, ci: nat)
    requires ci < n <= |cells2| && Eats(sqrt, c1, cells2[ci])
    ensures Recorded(CellKills(sqrt, eater, c1, victim, cells2, n), eater, victim, ci)
  {
    var a := CellKills(sqrt, eater, c1, victim, cells2, n - 1);
    var b := if Eats(sqrt, c1, cells2[n - 1]) then [Kill(eater, victim, n - 1, cells2[n - 1].mass)] else [];
    RecordedConcat(a, b, eater, victim, ci);
    if ci < n - 1 {
      CellKillsComplete(sqrt, eater, c1, victim, cells2, n - 1, ci);
    } else {
      assert b[0].cellIdx == ci;
    }
  }

  lemma {:induction false} PairKillsComplete(sqrt: real -> real, eater: nat, cells1: seq<Cell>, victim: nat, cells2: seq<Cell>, m: nat, j: nat, ci: nat)
    requires j < m <= |cells1| && ci < |cells2| && Eats(sqrt, cells1[j], cells2[ci])
    ensures Recorded(PairKills(sqrt, eater, cells1, victim, cells2, m), eater, victim, ci)
  {
    var a := PairKills(sqrt, eater, cells1, victim, cells2, m - 1);
    var b := CellKills(sqrt, eater, cells1[m - 1], victim, cells2, |cells2|);
    RecordedConcat(a, b, eater, victim, ci);
    if j < m - 1 {
      PairKillsComplete(sqrt, eater, cells1, victim, cells2, m - 1, j, ci);
    } else {
      CellKillsComplete(sqrt, eater, cells1[m - 1], victim, cells2, |cells2|, ci);
    }
  }

  lemma {:induction false} RowKillsComplete(sqrt: real -> real, ps: map<nat, Player>, e: nat, ids: seq<nat>, n: nat, b: nat, ci: nat)
    requires b < n <= |ids|
    requires Living(ps, e) && Living(ps, ids[b]) && e != ids[b]
    requires ci < |ps[ids[b]].cells| && EatenBy(sqrt, ps[e].cells, ps[ids[b]].cells[ci])
    ensures Recorded(RowKills(sqrt, ps, e, ids, n), e, ids[b], ci)
  {
    var v := ids[b];
    var x := RowKills(sqrt, ps, e, ids, n - 1);
    var y := CheckedPairKills(sqrt, ps, e, ids[n - 1]);
    RecordedConcat(x, y, e, v, ci);
    if b < n - 1 {
      RowKillsComplete(sqrt, ps, e, ids, n - 1, b, ci);
    } else {
      var j :| 0 <= j < |ps[e].cells| && Eats(sqrt, ps[e].cells[j], ps[v].cells[ci]);
      PairKillsComplete(sqrt, e, ps[e].cells, v, ps[v].cells, |ps[e].cells|, j, ci);
    }
  }

  /**
   * The scan misses nothing: whenever a living player has a cell that can eat
   * a cell of another living player, that victim cell is recorded against it.
   */
  lemma {:induction false} AllKillsComplete(sqrt: real -> real, ps: map<nat, Player>, ids: seq<nat>, n: nat, a: nat, b: nat, ci: nat)
    requires a < n <= |ids| && b < |ids|
    requires Living(ps, ids[a]) && Living(ps, ids[b]) && ids[a] != ids[b]
    requires ci < |ps[ids[b]].cells| && EatenBy(sqrt, ps[ids[a]].cells, ps[ids[b]].cells[ci])
    ensures Recorded(AllKills(sqrt, ps, ids, n), ids[a], ids[b], ci)
  {
    ScanRowsFlatten(sqrt, ps, ids, n);
    ScanRowsAre(sqrt, ps, ids, n);
    RowKillsComplete(sqrt, ps, ids[a], ids, |ids|, b, ci);
    RecordedInRow(ScanRows(sqrt, ps, ids, n), a, ids[a], ids[b], ci);
  }

  /** A kill recorded in one row is recorded in the rows laid end to end. */
  lemma {:induction false} RecordedInRow(rows: seq<seq<Kill>>, p: nat, e: nat, v: nat, ci: nat)
    requires p < |rows| && Recorded(rows[p], e, v, ci)
    ensures Recorded(Flatten(rows), e, v, ci)
  {
    var k := |rows| - 1;
    RecordedConcat(Flatten(rows[..k]), rows[k], e, v, ci);
    if p < k {
      assert rows[..k][p] == rows[p];
      RecordedInRow(rows[..k], p, e, v, ci);
    }
  }

  // ---------------------------------------------------------------- the scan as rows

  /** Kill lists laid end to end, as the scan lays its rows. */
  function Flatten(rows: seq<seq<Kill>>): seq<Kill> {
    if |rows| == 0 then [] else Flatten(rows[..|rows| - 1]) + rows[|rows| - 1]
  }

  /** Row `i` holds only kills by `owners[i]`. */
  predicate RowsOwned(rows: seq<seq<Kill>>, owners: seq<nat>) {
    && |rows| == |owners|
    && forall i :: 0 <= i < |rows| ==> forall t :: 0 <= t < |rows[i]| ==> rows[i][t].eater == owners[i]
  }

  lemma {:induction false} RowsOwnedPrefix(rows: seq<seq<Kill>>, owners: seq<nat>, k: nat)
    requires RowsOwned(rows, owners) && k <= |rows|
    ensures RowsOwned(rows[..k], owners[..k])
  {
    forall i | 0 <= i < k ensures rows[..k][i] == rows[i] && owners[..k][i] == owners[i] { }
  }

  /** Rows none of whose owners is `e` give `e` no gain. */
  lemma {:induction false} NoGainInRows(rows: seq<seq<Kill>>, owners: seq<nat>, e: nat)
    requires RowsOwned(rows, owners) && forall i :: 0 <= i < |owners| ==> owners[i] != e
    ensures GainOf(Flatten(rows), e) == 0.0
  {
    if |rows| > 0 {
      var k := |rows| - 1;
      RowsOwnedPrefix(rows, owners, k);
      NoGainInRows(rows[..k], owners[..k], e);
      GainOfConcat(Flatten(rows[..k]), rows[k], e);
      GainOfAbsent(rows[k], e);
    }
  }

  /** When the owners are all different, an owner's gain over all rows is its gain in its own row. */
  lemma {:induction false} GainInOwnRow(rows: seq<seq<Kill>>, owners: seq<nat>, p: nat)
    requires RowsOwned(rows, owners) && Distinct(owners) && p < |rows|
    ensures GainOf(Flatten(rows), owners[p]) == GainOf(rows[p], owners[p])
  {
    var k := |rows| - 1;
    RowsOwnedPrefix(rows, owners, k);
    GainOfConcat(Flatten(rows[..k]), rows[k], owners[p]);
    if p == k {
      NoGainInRows(rows[..k], owners[..k], owners[p]);
    } else {
      assert Distinct(owners[..k]) by {
        assert forall i :: 0 <= i < k ==> owners[..k][i] == owners[i];
      }
      GainInOwnRow(rows[..k], owners[..k], p);
      GainOfAbsent(rows[k], owners[p]);
    }
  }

  /** One more row goes at the end. */
  lemma {:induction false} FlattenLast(rows: seq<seq<Kill>>, row: seq<Kill>)
    ensures Flatten(rows + [row]) == Flatten(rows) + row
  {
    assert (rows + [row])[..|rows|] == rows;
  }

  /** The scan's rows for the eaters `ids[..n]`. */
  function ScanRows(sqrt: real -> real, ps: map<nat, Player>, ids: seq<nat>, n: nat): seq<seq<Kill>>
    requires n <= |ids|
  {
    if n == 0 then [] else ScanRows(sqrt, ps, ids, n - 1) + [RowKills(sqrt, ps, ids[n - 1], ids, |ids|)]
  }

  /** Row `i` of the scan is eater `ids[i]`'s. */
  lemma {:induction false} ScanRowsAre(sqrt: real -> real, ps: map<nat, Player>, ids: seq<nat>, n: nat)
    requires n <= |ids|
    ensures |ScanRows(sqrt, ps, ids, n)| == n
    ensures forall i :: 0 <= i < n ==> ScanRows(sqrt, ps, ids, n)[i] == RowKills(sqrt, ps, ids[i], ids, |ids|)
  {
    if n > 0 {
      ScanRowsAre(sqrt, ps, ids, n - 1);
    }
  }

  /** The whole kill list is the scan's rows laid end to end. */
  lemma {:induction false} ScanRowsFlatten(sqrt: real -> real, ps: map<nat, Player>, ids: seq<nat>, n: nat)
    requires n <= |ids|
    ensures AllKills(sqrt, ps, ids, n) == Flatten(ScanRows(sqrt, ps, ids, n))
  {
    if n > 0 {
      ScanRowsFlatten(sqrt, ps, ids, n - 1);
      var prev := ScanRows(sqrt, ps, ids, n - 1);
      var row := RowKills(sqrt, ps, ids[n - 1], ids, |ids|);
      assert Flatten(ScanRows(sqrt, ps, ids, n)) == Flatten(prev) + row by {
        FlattenLast(prev, row);
      }
    }
  }

  /** Row `i` of the scan holds only kills by eater `ids[i]`. */
  lemma {:induction false} ScanRowsOwned(sqrt: real -> real, ps: map<nat, Player>, ids: seq<nat>, n: nat)
    requires n <= |ids|
    ensures RowsOwned(ScanRows(sqrt, ps, ids, n), ids[..n])
  {
    ScanRowsAre(sqrt, ps, ids, n);
    var rows: seq<seq<Kill>> := ScanRows(sqrt, ps, ids, n);
    forall i | 0 <= i < n ensures forall t :: 0 <= t < |rows[i]| ==> rows[i][t].eater == ids[..n][i] {
      RowKillsEater(sqrt, ps, ids[i], ids, |ids|);
    }
  }

  /** Whether cell `ci` of living player `v` can be eaten by a cell of some other living player. */
  predicate CellEatenByOther(sqrt: real -> real, ps: map<nat, Player>, v: nat, ci: nat)
    requires v in ps && ci < |ps[v].cells|
  {
    Living(ps, v) && exists e :: e in ps && ps[e].alive && e != v && EatenBy(sqrt, ps[e].cells, ps[v].cells[ci])
  }

  /** The cells of `v` that some other living player can eat: defined without any iteration order. */
  function EatenCells(sqrt: real -> real, ps: map<nat, Player>, v: nat): set<nat>
    requires v in ps
  {
    set ci: nat | ci < |ps[v].cells| && CellEatenByOther(sqrt, ps, v, ci)
  }

  /** The victim of some kill lost that cell to another living player. */
  predicate VictimCellRecorded(kills: seq<Kill>, v: nat, ci: nat) {
    exists t :: 0 <= t < |kills| && kills[t].victim == v && kills[t].cellIdx == ci
  }

  /** For any key order, a victim cell is recorded exactly when it is in `EatenCells`. */
  lemma {:induction false} RecordedIffEaten(sqrt: real -> real, ps: map<nat, Player>, ids: seq<nat>, v: nat, ci: nat)
    requires IsKeyOrder(ids, ps) && v in ps
    ensures VictimCellRecorded(AllKills(sqrt, ps, ids, |ids|), v, ci) <==> ci in EatenCells(sqrt, ps, v)
  {
    var kills := AllKills(sqrt, ps, ids, |ids|);
    if ci in EatenCells(sqrt, ps, v) {
      EatenIsRecorded(sqrt, ps, ids, v, ci);
    }
    if VictimCellRecorded(kills, v, ci) {
      RecordedIsEaten(sqrt, ps, ids, v, ci);
    }
  }

  lemma {:induction false} EatenIsRecorded(sqrt: real -> real, ps: map<nat, Player>, ids: seq<nat>, v: nat, ci: nat)
    requires IsKeyOrder(ids, ps) && v in ps && ci in EatenCells(sqrt, ps, v)
    ensures VictimCellRecorded(AllKills(sqrt, ps, ids, |ids|), v, ci)
  {
    var kills := AllKills(sqrt, ps, ids, |ids|);
    assert CellEatenByOther(sqrt, ps, v, ci);
    var e :| e in ps && ps[e].alive && e != v && EatenBy(sqrt, ps[e].cells, ps[v].cells[ci]);
    var a :| 0 <= a < |ids| && ids[a] == e;
    var b :| 0 <= b < |ids| && ids[b] == v;
    AllKillsComplete(sqrt, ps, ids, |ids|, a, b, ci);
    var t :| 0 <= t < |kills| && kills[t].eater == e && kills[t].victim == v && kills[t].cellIdx == ci;
  }

  lemma {:induction false} RecordedIsEaten(sqrt: real -> real, ps: map<nat, Player>, ids: seq<nat>, v: nat, ci: nat)
    requires v in ps && VictimCellRecorded(AllKills(sqrt, ps, ids, |ids|), v, ci)
    ensures ci in EatenCells(sqrt, ps, v)
  {
    AllKillsSound(sqrt, ps, ids, |ids|);
    SoundKillIsEaten(sqrt, ps, AllKills(sqrt, ps, ids, |ids|), v, ci);
  }

  lemma {:induction false} SoundKillIsEaten(sqrt: real -> real, ps: map<nat, Player>, kills: seq<Kill>, v: nat, ci: nat)
    requires v in ps && AllKillsOk(sqrt, ps, kills) && VictimCellRecorded(kills, v, ci)
    ensures ci in EatenCells(sqrt, ps, v)
  {
    var t :| 0 <= t < |kills| && kills[t].victim == v && kills[t].cellIdx == ci;
    var k := kills[t];
    assert KillOk(sqrt, ps, k);
    assert CellEatenByOther(sqrt, ps, v, ci);
  }

  // ---------------------------------------------------------------- the tally

  /** `dead_cells.entry(victim).or_default().push(idx)` over the kill list. */
  function DeadCells(kills: seq<Kill>): map<nat, seq<nat>> {
    if |kills| == 0 then map[]
    else
      var d := DeadCells(kills[..|kills| - 1]);
      var k := kills[|kills| - 1];
      d[k.victim := (if k.victim in d then d[k.victim] else []) + [k.cellIdx]]
  }

  /** `*mass_gains.entry(eater).or_insert(0.0) += mass` over the kill list. */
  function MassGains(kills: seq<Kill>): map<nat, real> {
    if |kills| == 0 then map[]
    else
      var g := MassGains(kills[..|kills| - 1]);
      var k := kills[|kills| - 1];
      g[k.eater := (if k.eater in g then g[k.eater] else 0.0) + k.mass]
  }

  /** Reference definition of an eater's gain: the masses of all its kills, summed. */
  function GainOf(kills: seq<Kill>, e: nat): real {
    if |kills| == 0 then 0.0
    else GainOf(kills[..|kills| - 1], e) + (if kills[|kills| - 1].eater == e then kills[|kills| - 1].mass else 0.0)
  }

  /**
   * The tally lists, for each victim, exactly the indices recorded against
   * it, and it has an entry exactly for the victims of some kill.
   */
  lemma {:induction false} DeadCellsContents(kills: seq<Kill>)
    ensures forall v :: v in DeadCells(kills) <==> exists t :: 0 <= t < |kills| && kills[t].victim == v
    ensures forall v, x :: v in DeadCells(kills) ==>
      (x in DeadCells(kills)[v] <==> exists t :: 0 <= t < |kills| && kills[t].victim == v && kills[t].cellIdx == x)
  {
    if |kills| > 0 {
      var pre := kills[..|kills| - 1];
      DeadCellsContents(pre);
      forall t | 0 <= t < |pre| ensures pre[t] == kills[t] { }
    }
  }

  /** The tally credits each eater with exactly the summed mass of its kills. */
  lemma {:induction false} MassGainsContents(kills: seq<Kill>)
    ensures forall e :: e in MassGains(kills) <==> exists t :: 0 <= t < |kills| && kills[t].eater == e
    ensures forall e :: e in MassGains(kills) ==> MassGains(kills)[e] == GainOf(kills, e)
  {
    if |kills| > 0 {
      var pre := kills[..|kills| - 1];
      MassGainsContents(pre);
      forall t | 0 <= t < |pre| ensures pre[t] == kills[t] { }
      forall e | e !in MassGains(pre) ensures GainOf(pre, e) == 0.0 {
        GainOfAbsent(pre, e);
      }
    }
  }

  lemma {:induction false} GainOfAbsent(kills: seq<Kill>, e: nat)
    requires forall t :: 0 <= t < |kills| ==> kills[t].eater != e
    ensures GainOf(kills, e) == 0.0
  {
    if |kills| > 0 {
      GainOfAbsent(kills[..|kills| - 1], e);
    }
  }

  /** Kills of masses at least the floor give non-negative gains. */
  lemma {:induction false} GainOfNonNeg(kills: seq<Kill>, e: nat)
    requires forall t :: 0 <= t < |kills| ==> kills[t].mass >= 0.0
    ensures GainOf(kills, e) >= 0.0
  {
    if |kills| > 0 {
      GainOfNonNeg(kills[..|kills| - 1], e);
    }
  }

  lemma {:induction false} GainOfConcat(a: seq<Kill>, b: seq<Kill>, e: nat)
    ensures GainOf(a + b, e) == GainOf(a, e) + GainOf(b, e)
    decreases |b|
  {
    if |b| > 0 {
      var b' := b[..|b| - 1];
      assert (a + b)[..|a + b| - 1] == a + b';
      GainOfConcat(a, b', e);
    } else {
      assert a + b == a;
    }
  }

  /** `for (eater, victim, idx, mass) in &kills { ... }`. */
  method TallyKills(kills: seq<Kill>) returns (dead: map<nat, seq<nat>>, gains: map<nat, real>)
    ensures dead == DeadCells(kills) && gains == MassGains(kills)
  {
    dead := map[];
    gains := map[];
    for t := 0 to |kills|
      invariant dead == DeadCells(kills[..t]) && gains == MassGains(kills[..t])
    {
      assert kills[..t + 1][..t] == kills[..t];
      var k := kills[t];
      var list := if k.victim in dead then dead[k.victim] else [];
      dead := dead[k.victim := list + [k.cellIdx]];
      var sum := if k.eater in gains then gains[k.eater] else 0.0;
      gains := gains[k.eater := sum + k.mass];
    }
    assert kills[..|kills|] == kills;
  }

  /** `for c1 in &p1.cells { for (ci2, c2) in p2.cells.iter().enumerate() { ... } }` */
  method ScanPair(sqrt: real -> real, eater: nat, cells1: seq<Cell>, victim: nat, cells2: seq<Cell>) returns (kills: seq<Kill>)
    ensures kills == PairKills(sqrt, eater, cells1, victim, cells2, |cells1|)
  {
    kills := [];
    for m := 0 to |cells1|
      invariant kills == PairKills(sqrt, eater, cells1, victim, cells2, m)
    {
      var c1 := cells1[m];
      ghost var before := kills;
      for ci2 := 0 to |cells2|
        invariant kills == before + CellKills(sqrt, eater, c1, victim, cells2, ci2)
      {
        var c2 := cells2[ci2];
        if CanEat(sqrt, c1.x, c1.y, c1.mass, c2.x, c2.y, c2.mass) {
          kills := kills + [Kill(eater, victim, ci2, c2.mass)];
        }
      }
    }
  }

  /** One eater's row of the scan: `for &id2 in &ids { ... }`. */
  method ScanRow(sqrt: real -> real, ps: map<nat, Player>, id1: nat, ids: seq<nat>) returns (row: seq<Kill>)
    ensures row == RowKills(sqrt, ps, id1, ids, |ids|)
  {
    row := [];
    for b := 0 to |ids|
      invariant row == RowKills(sqrt, ps, id1, ids, b)
    {
      var id2 := ids[b];
      if id1 != id2 && id1 in ps && ps[id1].alive && id2 in ps && ps[id2].alive {
        var pairKills := ScanPair(sqrt, id1, ps[id1].cells, id2, ps[id2].cells);
        row := row + pairKills;
      }
    }
  }

  /** The kill scan of `check_player_eating` over the collected key list `ids`. */
  method ScanKills(sqrt: real -> real, ps: map<nat, Player>, ids: seq<nat>) returns (kills: seq<Kill>)
    ensures kills == AllKills(sqrt, ps, ids, |ids|)
  {
    kills := [];
    for a := 0 to |ids|
      invariant kills == AllKills(sqrt, ps, ids, a)
    {
      var row := ScanRow(sqrt, ps, ids[a], ids);
      kills := kills + row;
    }
  }

  // ---------------------------------------------------------------- applying the kills

  /**
   * `iter_mut().max_by(mass)` over `cells[..n]`: the index of a heaviest cell,
   * the last one when several tie.
   */
  function LargestCellIndex(cells: seq<Cell>, n: nat): (i: nat)
    requires 0 < n <= |cells|
    ensures i < n
    ensures forall j :: 0 <= j < n ==> cells[j].mass <= cells[i].mass
    ensures forall j :: i < j < n ==> cells[j].mass < cells[i].mass
  {
    if n == 1 then 0
    else
      var m := LargestCellIndex(cells, n - 1);
      if cells[m].mass <= cells[n - 1].mass then n - 1 else m
  }

  /** The eater's whole gain goes to its largest cell (the last of equal maxima). */
  function ApplyGain(p: Player, gained: real): (r: Player)
    ensures r == p.(cells := r.cells) && |r.cells| == |p.cells|
  {
    if |p.cells| == 0 then p
    else
      var i := LargestCellIndex(p.cells, |p.cells|);
      p.(cells := p.cells[i := p.cells[i].(mass := p.cells[i].mass + gained)])
  }

  /**
   * A victim's recorded indices sorted descending and deduplicated, then
   * removed one by one with `Vec::remove`; the player dies if nothing is left.
   */
  function ApplyDeaths(p: Player, indices: seq<nat>): (r: Player)
    ensures r == p.(cells := r.cells, alive := r.alive)
  {
    var order := Dedup(SortDesc(indices));
    var rest := RemoveAllDescending(p.cells, order);
    p.(cells := rest, alive := if |rest| == 0 then false else p.alive)
  }

  /** A player after the gain loop: credited if it ate anything. */
  function Gained(p: Player, id: nat, gains: map<nat, real>): Player {
    if id in gains then ApplyGain(p, gains[id]) else p
  }

  /** One player after the gains and then the removals that concern it. */
  function Settled(p: Player, id: nat, gains: map<nat, real>, dead: map<nat, seq<nat>>): Player {
    var gainedP := Gained(p, id, gains);
    if id in dead then ApplyDeaths(gainedP, dead[id]) else gainedP
  }

  /** The world after `check_player_eating`, for the key order `ids`. */
  function PlayerEatingDone(sqrt: real -> real, s: WorldState, ids: seq<nat>): (r: WorldState)
    ensures r == s.(players := r.players)
  {
    var kills := AllKills(sqrt, s.players, ids, |ids|);
    var gains := MassGains(kills);
    var dead := DeadCells(kills);
    s.(players := map id | id in s.players :: Settled(s.players[id], id, gains, dead))
  }

  /**
   * The body of `check_player_eating` on the player map: scan for kills in
   * the key order `ids`, tally them, credit the gains, then remove the eaten
   * cells.
   */
  method EatPlayers(sqrt: real -> real, s: WorldState, ids: seq<nat>) returns (ps: map<nat, Player>)
    ensures ps == PlayerEatingDone(sqrt, s, ids).players
  {
    var kills := ScanKills(sqrt, s.players, ids);
    var dead, gains := TallyKills(kills);
    var credited := CreditGains(s.players, gains);
    ps := RemoveDead(credited, dead);
    forall id | id in ps ensures ps[id] == Settled(s.players[id], id, gains, dead) {
      assert credited[id] == Gained(s.players[id], id, gains);
    }
  }

  /** `for (eater_id, gained) in &mass_gains { ... }`: each eater still present is credited. */
  method CreditGains(ps: map<nat, Player>, gains: map<nat, real>) returns (out: map<nat, Player>)
    ensures out.Keys == ps.Keys
    ensures forall id :: id in ps ==> out[id] == Gained(ps[id], id, gains)
  {
    out := ps;
    var todo := gains.Keys;
    while todo != {}
      invariant todo <= gains.Keys && out.Keys == ps.Keys
      invariant forall id :: id in ps && (id !in gains || id in todo) ==> out[id] == ps[id]
      invariant forall id :: id in ps && id in gains && id !in todo ==> out[id] == ApplyGain(ps[id], gains[id])
      decreases |todo|
    {
      var e :| e in todo;
      if e in out {
        out := out[e := ApplyGain(out[e], gains[e])];
      }
      todo := todo - {e};
    }
  }

  /**
   * `for (victim_id, mut indices) in dead_cells { ... }`: each victim still
   * present loses the recorded cells, highest index first, and dies when none
   * is left.
   */
  method RemoveDead(ps: map<nat, Player>, dead: map<nat, seq<nat>>) returns (out: map<nat, Player>)
    ensures out.Keys == ps.Keys
    ensures forall id :: id in ps ==> out[id] == if id in dead then ApplyDeaths(ps[id], dead[id]) else ps[id]
  {
    out := ps;
    var todo := dead.Keys;
    while todo != {}
      invariant todo <= dead.Keys && out.Keys == ps.Keys
      invariant forall id :: id in ps && (id !in dead || id in todo) ==> out[id] == ps[id]
      invariant forall id :: id in ps && id in dead && id !in todo ==> out[id] == ApplyDeaths(ps[id], dead[id])
      decreases |todo|
    {
      var v :| v in todo;
      var order := Dedup(SortDesc(dead[v]));
      if v in out {
        var p := out[v];
        var rest := RemoveEach(p.cells, order);
        p := p.(cells := rest);
        if |rest| == 0 {
          p := p.(alive := false);
        }
        out := out[v := p];
      }
      todo := todo - {v};
    }
  }

  /** The gain lands on one heaviest cell (none later ties it) and no other cell changes. */
  lemma {:induction false} ApplyGainProperties(p: Player, gained: real)
    requires |p.cells| > 0
    ensures var i := LargestCellIndex(p.cells, |p.cells|);
      var r := ApplyGain(p, gained);
      && (forall j :: 0 <= j < |p.cells| ==> p.cells[j].mass <= p.cells[i].mass)
      && (forall j :: i < j < |p.cells| ==> p.cells[j].mass < p.cells[i].mass)
      && r.cells[i] == p.cells[i].(mass := p.cells[i].mass + gained)
      && (forall j :: 0 <= j < |p.cells| && j != i ==> r.cells[j] == p.cells[j])
  {
  }

  /** Sorting and deduplicating in-range indices lists each index once, from the top. */
  lemma {:induction false} SortDedupIsDescendingMembers(indices: seq<nat>, n: nat)
    requires AllBelow(indices, n)
    ensures Dedup(SortDesc(indices)) == DescendingMembers(set k | 0 <= k < |indices| :: indices[k], n)
  {
    var S := set k | 0 <= k < |indices| :: indices[k];
    var sorted := SortDesc(indices);
    var order := Dedup(sorted);
    forall x ensures x in order <==> x in DescendingMembers(S, n) {
      assert x in sorted <==> x in multiset(sorted);
      assert x in indices <==> x in multiset(indices);
      if x in indices {
        var k :| 0 <= k < |indices| && indices[k] == x;
      }
    }
    StrictlyDescendingUnique(order, DescendingMembers(S, n));
  }

  /**
   * A victim loses exactly its distinct recorded cells, the survivors keep
   * their order, and the player is alive afterwards exactly when it was and
   * still has cells.
   */
  lemma {:induction false} ApplyDeathsProperties(p: Player, indices: seq<nat>)
    requires AllBelow(indices, |p.cells|)
    ensures var r := ApplyDeaths(p, indices);
      && r.cells == Without(p.cells, set k | 0 <= k < |indices| :: indices[k])
      && |r.cells| == |p.cells| - |set k | 0 <= k < |indices| :: indices[k]|
      && (r.alive <==> p.alive && |r.cells| > 0)
  {
    var S := set k | 0 <= k < |indices| :: indices[k];
    var order := Dedup(SortDesc(indices));
    SortDedupIsDescendingMembers(indices, |p.cells|);
    RemoveAllDescendingIsWithout(p.cells, order);
    var D := set k | 0 <= k < |order| :: order[k];
    assert D == S by {
      forall x ensures x in D <==> x in S {
        if x in D { var k :| 0 <= k < |order| && order[k] == x; }
        if x in S { assert x in order; var k :| 0 <= k < |order| && order[k] == x; }
      }
    }
    WithoutKeepsOthers(p.cells, S);
    assert (set k | 0 <= k < |p.cells| && k in S) == S;
  }

  /** Applying a non-negative gain and in-range removals keeps a player well formed. */
  lemma {:induction false} SettledWellFormed(p: Player, id: nat, gains: map<nat, real>, dead: map<nat, seq<nat>>)
    requires WellFormed(p)
    requires id in gains ==> gains[id] >= 0.0
    requires id in dead ==> AllBelow(dead[id], |p.cells|)
    ensures WellFormed(Settled(p, id, gains, dead))
  {
    var g := Gained(p, id, gains);
    if id in gains && |p.cells| > 0 {
      ApplyGainProperties(p, gains[id]);
    }
    assert WellFormed(g);
    if id in dead {
      ApplyDeathsProperties(g, dead[id]);
      var r := ApplyDeaths(g, dead[id]);
      forall k | 0 <= k < |r.cells| ensures r.cells[k].mass >= MIN_MASS {
        assert r.cells[k] in g.cells;
      }
    }
  }

  /** What the tally of a sound kill list guarantees: in-range indices and non-negative gains. */
  lemma {:induction false} TallyOfSoundKills(sqrt: real -> real, ps: map<nat, Player>, kills: seq<Kill>)
    requires AllWellFormed(ps) && AllKillsOk(sqrt, ps, kills)
    ensures forall v :: v in DeadCells(kills) ==> v in ps && AllBelow(DeadCells(kills)[v], |ps[v].cells|)
    ensures forall e :: e in MassGains(kills) ==> MassGains(kills)[e] >= 0.0
  {
    assert forall t :: 0 <= t < |kills| ==> KillInRange(ps, kills[t]);
    DeadCellsInRange(ps, kills);
    GainsNonNeg(ps, kills);
  }

  lemma {:induction false} GainsNonNeg(ps: map<nat, Player>, kills: seq<Kill>)
    requires AllWellFormed(ps) && forall t :: 0 <= t < |kills| ==> KillInRange(ps, kills[t])
    ensures forall e :: e in MassGains(kills) ==> MassGains(kills)[e] >= 0.0
  {
    MassGainsContents(kills);
    forall t | 0 <= t < |kills| ensures kills[t].mass >= 0.0 {
      assert KillInRange(ps, kills[t]);
      assert WellFormed(ps[kills[t].victim]);
    }
    forall e | e in MassGains(kills) ensures MassGains(kills)[e] >= 0.0 {
      GainOfNonNeg(kills, e);
    }
  }

  lemma {:induction false} DeadCellsInRange(ps: map<nat, Player>, kills: seq<Kill>)
    requires forall t :: 0 <= t < |kills| ==> KillInRange(ps, kills[t])
    ensures forall v :: v in DeadCells(kills) ==> v in ps && AllBelow(DeadCells(kills)[v], |ps[v].cells|)
  {
    DeadCellsContents(kills);
    forall v | v in DeadCells(kills) ensures v in ps && AllBelow(DeadCells(kills)[v], |ps[v].cells|) {
      var t :| 0 <= t < |kills| && kills[t].victim == v;
      assert KillInRange(ps, kills[t]);
      forall k | 0 <= k < |DeadCells(kills)[v]| ensures DeadCells(kills)[v][k] < |ps[v].cells| {
        var x := DeadCells(kills)[v][k];
        assert x in DeadCells(kills)[v];
        var t' :| 0 <= t' < |kills| && kills[t'].victim == v && kills[t'].cellIdx == x;
        assert KillInRange(ps, kills[t']);
      }
    }
  }

  /** Player eating, whatever the key order, keeps the world invariant and the set of players. */
  lemma {:induction false} PlayerEatingDoneKeepsInv(sqrt: real -> real, s: WorldState, ids: seq<nat>)
    requires Inv(s)
    ensures Inv(PlayerEatingDone(sqrt, s, ids))
    ensures PlayerEatingDone(sqrt, s, ids).players.Keys == s.players.Keys
  {
    var kills := AllKills(sqrt, s.players, ids, |ids|);
    AllKillsSound(sqrt, s.players, ids, |ids|);
    TallyOfSoundKills(sqrt, s.players, kills);
    var r := PlayerEatingDone(sqrt, s, ids);
    forall id | id in s.players ensures WellFormed(r.players[id]) && r.players[id].id == id {
      SettledWellFormed(s.players[id], id, MassGains(kills), DeadCells(kills));
    }
  }

  /**
   * Each victim loses exactly the cells some other living player can eat,
   * whatever the key order: its cells after the phase are its (credited)
   * cells without `EatenCells`, survivors in their original order, and it is
   * alive exactly when some cell is left.
   */
  lemma {:induction false} PlayerEatingDoneVictims(sqrt: real -> real, s: WorldState, ids: seq<nat>, v: nat)
    requires Inv(s) && IsKeyOrder(ids, s.players) && v in s.players
    ensures var kills := AllKills(sqrt, s.players, ids, |ids|);
      var before := Gained(s.players[v], v, MassGains(kills));
      var after := PlayerEatingDone(sqrt, s, ids).players[v];
      && after.cells == Without(before.cells, EatenCells(sqrt, s.players, v))
      && |after.cells| == |s.players[v].cells| - |EatenCells(sqrt, s.players, v)|
      && (after.alive <==> |after.cells| > 0)
  {
    var ps := s.players;
    var kills := AllKills(sqrt, ps, ids, |ids|);
    var D := DeadCells(kills);
    var before := Gained(ps[v], v, MassGains(kills));
    var E := EatenCells(sqrt, ps, v);
    PlayerEatingDoneKeepsInv(sqrt, s, ids);
    assert WellFormed(PlayerEatingDone(sqrt, s, ids).players[v]);
    DeadListIsEatenCells(sqrt, s, ids, v);
    if v in D {
      AllKillsSound(sqrt, ps, ids, |ids|);
      TallyOfSoundKills(sqrt, ps, kills);
      ApplyDeathsProperties(before, D[v]);
    } else {
      WithoutNone(before.cells, E);
      WithoutKeepsOthers(before.cells, E);
    }
  }

  /** The tally's index list for a victim, as a set, is its `EatenCells`; no entry means none. */
  lemma {:induction false} DeadListIsEatenCells(sqrt: real -> real, s: WorldState, ids: seq<nat>, v: nat)
    requires IsKeyOrder(ids, s.players) && v in s.players
    ensures var D := DeadCells(AllKills(sqrt, s.players, ids, |ids|));
      && (v in D ==> (set k | 0 <= k < |D[v]| :: D[v][k]) == EatenCells(sqrt, s.players, v))
      && (v !in D ==> EatenCells(sqrt, s.players, v) == {})
  {
    var ps := s.players;
    var kills := AllKills(sqrt, ps, ids, |ids|);
    var D := DeadCells(kills);
    var E := EatenCells(sqrt, ps, v);
    DeadCellsContents(kills);
    if v in D {
      var S := set k | 0 <= k < |D[v]| :: D[v][k];
      forall x: nat ensures x in S <==> x in E {
        RecordedIffEaten(sqrt, ps, ids, v, x);
        assert x in D[v] <==> VictimCellRecorded(kills, v, x);
        if x in S {
          var k :| 0 <= k < |D[v]| && D[v][k] == x;
        }
        if x in E {
          assert x in D[v];
          var k :| 0 <= k < |D[v]| && D[v][k] == x;
        }
      }
    } else {
      forall x | x in E ensures false {
        RecordedIffEaten(sqrt, ps, ids, v, x);
      }
    }
  }
}
