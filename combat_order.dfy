/**
 * The key order of the player map does not matter to player eating: the
 * order of `HashMap` iteration changes the order of the kill list, but not
 * which cells die or how much each eater gains.
 */
module CombatOrder {
  import opened Players
  import opened SeqOps
  import opened WorldStates
  import opened Combat

  /** What eater `e` gains from its pair with `v`. */
  function PairGain(sqrt: real -> real, ps: map<nat, Player>, e: nat, v: nat): real {
    GainOf(CheckedPairKills(sqrt, ps, e, v), e)
  }

  /** Sum of `f` over the list, in list order. */
  function SumOf(f: nat -> real, vs: seq<nat>): real {
    if |vs| == 0 then 0.0 else SumOf(f, vs[..|vs| - 1]) + f(vs[|vs| - 1])
  }

  /** Sum of `PairGain` over the victims `vs`. */
  function PairGainSum(sqrt: real -> real, ps: map<nat, Player>, e: nat, vs: seq<nat>): real {
    SumOf((v: nat) => PairGain(sqrt, ps, e, v), vs)
  }

  lemma {:induction false} SumOfConcat(f: nat -> real, a: seq<nat>, b: seq<nat>)
    ensures SumOf(f, a + b) == SumOf(f, a) + SumOf(f, b)
    decreases |b|
  {
    if |b| == 0 {
      assert a + b == a;
    } else {
      var b' := b[..|b| - 1];
      assert (a + b)[..|a + b| - 1] == a + b';
      SumOfConcat(f, a, b');
    }
  }

  /** Summing over two repeat-free lists with the same members gives the same total. */
  lemma {:induction false} SumOfPermutation(f: nat -> real, a: seq<nat>, b: seq<nat>)
    requires Distinct(a) && Distinct(b)
    requires forall x :: x in a <==> x in b
    ensures SumOf(f, a) == SumOf(f, b)
    decreases |a|
  {
    if |a| == 0 {
      if b != [] {
        FirstIsMember(b);
      }
    } else {
      var x := a[|a| - 1];
      assert x in b;
      var p :| 0 <= p < |b| && b[p] == x;
      assert b == b[..p] + [x] + b[p + 1..];
      SumOfConcat(f, b[..p] + [x], b[p + 1..]);
      SumOfConcat(f, b[..p], [x]);
      SumOfConcat(f, b[..p], b[p + 1..]);
      assert SumOf(f, [x]) == f(x) by {
        assert [x][..0] == [];
      }
      DropBoth(a, b, p, a[..|a| - 1], b[..p] + b[p + 1..]);
      SumOfPermutation(f, a[..|a| - 1], b[..p] + b[p + 1..]);
    }
  }

  /** An eater's gain from its row of the scan is the sum of its pair gains. */
  lemma {:induction false} RowGainIsPairGainSum(sqrt: real -> real, ps: map<nat, Player>, e: nat, ids: seq<nat>, n: nat)
    requires n <= |ids|
    ensures GainOf(RowKills(sqrt, ps, e, ids, n), e) == PairGainSum(sqrt, ps, e, ids[..n])
  {
    if n > 0 {
      RowGainIsPairGainSum(sqrt, ps, e, ids, n - 1);
      GainOfConcat(RowKills(sqrt, ps, e, ids, n - 1), CheckedPairKills(sqrt, ps, e, ids[n - 1]), e);
      assert ids[..n][..n - 1] == ids[..n - 1];
      assert PairGainSum(sqrt, ps, e, ids[..n]) ==
        PairGainSum(sqrt, ps, e, ids[..n - 1]) + PairGain(sqrt, ps, e, ids[n - 1]);
    }
  }

  /** Only the eater's own row of the scan contributes to its gain. */
  lemma {:induction false} AllGainIsRowGain(sqrt: real -> real, ps: map<nat, Player>, ids: seq<nat>, n: nat, p: nat)
    requires p < n <= |ids| && Distinct(ids)
    ensures GainOf(AllKills(sqrt, ps, ids, n), ids[p]) == GainOf(RowKills(sqrt, ps, ids[p], ids, |ids|), ids[p])
  {
    ScanRowsFlatten(sqrt, ps, ids, n);
    ScanRowsAre(sqrt, ps, ids, n);
    ScanRowsOwned(sqrt, ps, ids, n);
    assert Distinct(ids[..n]) by {
      assert forall i :: 0 <= i < n ==> ids[..n][i] == ids[i];
    }
    GainInOwnRow(ScanRows(sqrt, ps, ids, n), ids[..n], p);
    assert ids[..n][p] == ids[p];
  }

  /** An eater's total gain is its pair gains summed over the key order; by the lemma above, over any key order. */
  lemma {:induction false} GainForKeyOrder(sqrt: real -> real, ps: map<nat, Player>, ids: seq<nat>, e: nat)
    requires IsKeyOrder(ids, ps) && e in ps
    ensures GainOf(AllKills(sqrt, ps, ids, |ids|), e) == PairGainSum(sqrt, ps, e, ids)
  {
    var p := IndexOf(ids, e);
    AllGainIsRowGain(sqrt, ps, ids, |ids|, p);
    assert ids[..|ids|] == ids;
    RowGainIsPairGainSum(sqrt, ps, e, ids, |ids|);
  }

  /** Whether `e` has a kill in the list. */
  predicate HasKill(kills: seq<Kill>, e: nat) {
    exists t :: 0 <= t < |kills| && kills[t].eater == e
  }

  /** Whether an eater has a kill does not depend on the key order. */
  lemma {:induction false} HasKillForKeyOrders(sqrt: real -> real, ps: map<nat, Player>, ids1: seq<nat>, ids2: seq<nat>, e: nat)
    requires IsKeyOrder(ids1, ps) && IsKeyOrder(ids2, ps)
    requires HasKill(AllKills(sqrt, ps, ids1, |ids1|), e)
    ensures HasKill(AllKills(sqrt, ps, ids2, |ids2|), e)
  {
    var kills1 := AllKills(sqrt, ps, ids1, |ids1|);
    AllKillsSound(sqrt, ps, ids1, |ids1|);
    var t :| 0 <= t < |kills1| && kills1[t].eater == e;
    var k := kills1[t];
    assert KillOk(sqrt, ps, k);
    var a :| 0 <= a < |ids2| && ids2[a] == e;
    var b :| 0 <= b < |ids2| && ids2[b] == k.victim;
    AllKillsComplete(sqrt, ps, ids2, |ids2|, a, b, k.cellIdx);
  }

  /** `ApplyDeaths` only depends on which indices are listed. */
  lemma {:induction false} ApplyDeathsSameMembers(p: Player, l1: seq<nat>, l2: seq<nat>)
    requires AllBelow(l1, |p.cells|) && AllBelow(l2, |p.cells|)
    requires (set k | 0 <= k < |l1| :: l1[k]) == (set k | 0 <= k < |l2| :: l2[k])
    ensures ApplyDeaths(p, l1) == ApplyDeaths(p, l2)
  {
    SortDedupIsDescendingMembers(l1, |p.cells|);
    SortDedupIsDescendingMembers(l2, |p.cells|);
  }

  /** Whether a victim has an entry in the tally does not depend on the key order. */
  lemma {:induction false} DeadEntryForKeyOrder(sqrt: real -> real, s: WorldState, ids: seq<nat>, v: nat)
    requires IsKeyOrder(ids, s.players) && v in s.players
    ensures v in DeadCells(AllKills(sqrt, s.players, ids, |ids|)) <==> EatenCells(sqrt, s.players, v) != {}
  {
    var kills := AllKills(sqrt, s.players, ids, |ids|);
    DeadListIsEatenCells(sqrt, s, ids, v);
    DeadCellsContents(kills);
    if v in DeadCells(kills) {
      var t :| 0 <= t < |kills| && kills[t].victim == v;
      RecordedIffEaten(sqrt, s.players, ids, v, kills[t].cellIdx);
    }
  }

  /**
   * Player eating gives the same world for every order in which the player
   * map can be iterated.
   */
  lemma {:induction false} PlayerEatingOrderIndependent(sqrt: real -> real, s: WorldState, ids1: seq<nat>, ids2: seq<nat>)
    requires Inv(s) && IsKeyOrder(ids1, s.players) && IsKeyOrder(ids2, s.players)
    ensures PlayerEatingDone(sqrt, s, ids1) == PlayerEatingDone(sqrt, s, ids2)
  {
    var ps := s.players;
    var r1 := PlayerEatingDone(sqrt, s, ids1);
    var r2 := PlayerEatingDone(sqrt, s, ids2);
    forall id | id in ps ensures r1.players[id] == r2.players[id] {
      SettledSame(sqrt, s, ids1, ids2, id);
    }
    assert r1.players == r2.players;
  }

  /** Whether an eater gains anything does not depend on the key order. */
  lemma {:induction false} GainEntrySame(sqrt: real -> real, ps: map<nat, Player>, ids1: seq<nat>, ids2: seq<nat>, id: nat)
    requires IsKeyOrder(ids1, ps) && IsKeyOrder(ids2, ps)
    ensures id in MassGains(AllKills(sqrt, ps, ids1, |ids1|)) <==> id in MassGains(AllKills(sqrt, ps, ids2, |ids2|))
  {
    var k1 := AllKills(sqrt, ps, ids1, |ids1|);
    var k2 := AllKills(sqrt, ps, ids2, |ids2|);
    MassGainsContents(k1);
    MassGainsContents(k2);
    if HasKill(k1, id) { HasKillForKeyOrders(sqrt, ps, ids1, ids2, id); }
    if HasKill(k2, id) { HasKillForKeyOrders(sqrt, ps, ids2, ids1, id); }
  }

  /** How much an eater gains does not depend on the key order. */
  lemma {:induction false} GainValueSame(sqrt: real -> real, ps: map<nat, Player>, ids1: seq<nat>, ids2: seq<nat>, id: nat)
    requires IsKeyOrder(ids1, ps) && IsKeyOrder(ids2, ps) && id in ps
    ensures GainOf(AllKills(sqrt, ps, ids1, |ids1|), id) == GainOf(AllKills(sqrt, ps, ids2, |ids2|), id)
  {
    GainForKeyOrder(sqrt, ps, ids1, id);
    GainForKeyOrder(sqrt, ps, ids2, id);
    assert Distinct(ids1) && Distinct(ids2);
    SumOfPermutation((v: nat) => PairGain(sqrt, ps, id, v), ids1, ids2);
  }

  /** The gain an eater receives does not depend on the key order. */
  lemma {:induction false} GainedSame(sqrt: real -> real, ps: map<nat, Player>, ids1: seq<nat>, ids2: seq<nat>, id: nat)
    requires IsKeyOrder(ids1, ps) && IsKeyOrder(ids2, ps) && id in ps
    ensures Gained(ps[id], id, MassGains(AllKills(sqrt, ps, ids1, |ids1|))) ==
      Gained(ps[id], id, MassGains(AllKills(sqrt, ps, ids2, |ids2|)))
  {
    var k1 := AllKills(sqrt, ps, ids1, |ids1|);
    var k2 := AllKills(sqrt, ps, ids2, |ids2|);
    GainEntrySame(sqrt, ps, ids1, ids2, id);
    if id in MassGains(k1) {
      MassGainsContents(k1);
      MassGainsContents(k2);
      GainValueSame(sqrt, ps, ids1, ids2, id);
    }
  }

  /** The cells a victim loses do not depend on the key order. */
  lemma {:induction false} DeathsSame(sqrt: real -> real, s: WorldState, ids1: seq<nat>, ids2: seq<nat>, id: nat, g: Player)
    requires Inv(s) && IsKeyOrder(ids1, s.players) && IsKeyOrder(ids2, s.players) && id in s.players
    requires |g.cells| == |s.players[id].cells|
    ensures var D1 := DeadCells(AllKills(sqrt, s.players, ids1, |ids1|));
      var D2 := DeadCells(AllKills(sqrt, s.players, ids2, |ids2|));
      (id in D1 <==> id in D2) && (id in D1 ==> ApplyDeaths(g, D1[id]) == ApplyDeaths(g, D2[id]))
  {
    var ps := s.players;
    var k1 := AllKills(sqrt, ps, ids1, |ids1|);
    var k2 := AllKills(sqrt, ps, ids2, |ids2|);
    DeadEntryForKeyOrder(sqrt, s, ids1, id);
    DeadEntryForKeyOrder(sqrt, s, ids2, id);
    if id in DeadCells(k1) {
      DeadListIsEatenCells(sqrt, s, ids1, id);
      DeadListIsEatenCells(sqrt, s, ids2, id);
      AllKillsSound(sqrt, ps, ids1, |ids1|);
      AllKillsSound(sqrt, ps, ids2, |ids2|);
      TallyOfSoundKills(sqrt, ps, k1);
      TallyOfSoundKills(sqrt, ps, k2);
      ApplyDeathsSameMembers(g, DeadCells(k1)[id], DeadCells(k2)[id]);
    }
  }

  lemma {:induction false} SettledSame(sqrt: real -> real, s: WorldState, ids1: seq<nat>, ids2: seq<nat>, id: nat)
    requires Inv(s) && IsKeyOrder(ids1, s.players) && IsKeyOrder(ids2, s.players) && id in s.players
    ensures var k1 := AllKills(sqrt, s.players, ids1, |ids1|);
      var k2 := AllKills(sqrt, s.players, ids2, |ids2|);
      Settled(s.players[id], id, MassGains(k1), DeadCells(k1)) == Settled(s.players[id], id, MassGains(k2), DeadCells(k2))
  {
    var ps := s.players;
    GainedSame(sqrt, ps, ids1, ids2, id);
    var g := Gained(ps[id], id, MassGains(AllKills(sqrt, ps, ids1, |ids1|)));
    DeathsSame(sqrt, s, ids1, ids2, id, g);
  }
}
