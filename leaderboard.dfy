/**
 * `get_leaderboard` (src/game/world.rs): the living players' names and
 * floored total masses, sorted by score from high to low with a stable sort,
 * cut to the first ten.
 */
module Leaderboard {
  import opened RealMath
  import opened Players
  import opened SeqOps
  import opened WorldStates

  const LEADERBOARD_SIZE: nat := 10

  /** A leaderboard line: the player's name and its score. */
  type Entry = (string, nat)

  function EntryOf(p: Player): Entry {
    (p.name, U64(TotalMass(p.cells)))
  }

  /** The living players' entries, in the key order `ids` (the `filter`/`map`/`collect` chain). */
  function Entries(ps: map<nat, Player>, ids: seq<nat>): seq<Entry>
    requires forall k :: 0 <= k < |ids| ==> ids[k] in ps
  {
    if |ids| == 0 then []
    else
      var id := ids[|ids| - 1];
      Entries(ps, ids[..|ids| - 1]) + (if ps[id].alive then [EntryOf(ps[id])] else [])
  }

  /** The scores of a list of entries, in order. */
  function Scores(xs: seq<Entry>): (r: seq<nat>)
    ensures |r| == |xs| && forall i :: 0 <= i < |xs| ==> r[i] == xs[i].1
  {
    seq(|xs|, i requires 0 <= i < |xs| => xs[i].1)
  }

  /**
   * Insert `x` before the first entry that does not score more than it: the
   * insertion step of a stable sort from high to low, for `x` taken from in
   * front of `ys`.
   */
  function InsertByScore(x: Entry, ys: seq<Entry>): (r: seq<Entry>)
    ensures multiset(r) == multiset(ys) + multiset{x}
  {
    if |ys| == 0 || ys[0].1 <= x.1 then [x] + ys
    else
      assert ys == [ys[0]] + ys[1..];
      [ys[0]] + InsertByScore(x, ys[1..])
  }

  /** `sort_by(|a, b| b.1.cmp(&a.1))`: stable, from the highest score down. */
  function SortByScore(xs: seq<Entry>): (r: seq<Entry>)
    ensures multiset(r) == multiset(xs)
  {
    if |xs| == 0 then []
    else
      assert xs == [xs[0]] + xs[1..];
      InsertByScore(xs[0], SortByScore(xs[1..]))
  }

  /** `truncate(10)`. */
  function Take<T>(xs: seq<T>, n: nat): (r: seq<T>)
    ensures |r| == if |xs| < n then |xs| else n
    ensures r == xs[..|r|]
  {
    if |xs| <= n then xs else xs[..n]
  }

  /** The leaderboard when the player map is iterated in the key order `ids`. */
  function Board(ps: map<nat, Player>, ids: seq<nat>): seq<Entry>
    requires forall k :: 0 <= k < |ids| ==> ids[k] in ps
  {
    Take(SortByScore(Entries(ps, ids)), LEADERBOARD_SIZE)
  }

  // ---------------------------------------------------------------- entries

  /** `e` is the entry of a living player listed in `ids`. */
  predicate FromLiving(ps: map<nat, Player>, ids: seq<nat>, e: Entry) {
    exists k :: 0 <= k < |ids| && ids[k] in ps && ps[ids[k]].alive && e == EntryOf(ps[ids[k]])
  }

  lemma {:induction false} FromLivingExtend(ps: map<nat, Player>, ids: seq<nat>, e: Entry)
    requires |ids| > 0 && FromLiving(ps, ids[..|ids| - 1], e)
    ensures FromLiving(ps, ids, e)
  {
    var ids' := ids[..|ids| - 1];
    var k :| 0 <= k < |ids'| && ids'[k] in ps && ps[ids'[k]].alive && e == EntryOf(ps[ids'[k]]);
    assert ids[k] == ids'[k];
  }

  /** The entries are exactly those of the living players of the key order. */
  lemma {:induction false} EntriesMembers(ps: map<nat, Player>, ids: seq<nat>)
    requires forall k :: 0 <= k < |ids| ==> ids[k] in ps
    ensures forall j :: 0 <= j < |Entries(ps, ids)| ==> FromLiving(ps, ids, Entries(ps, ids)[j])
    ensures forall k :: 0 <= k < |ids| && ps[ids[k]].alive ==> EntryOf(ps[ids[k]]) in Entries(ps, ids)
  {
    if |ids| == 0 {
      assert Entries(ps, ids) == [];
    } else {
      var ids' := ids[..|ids| - 1];
      EntriesMembers(ps, ids');
      var id := ids[|ids| - 1];
      var es := Entries(ps, ids);
      var es' := Entries(ps, ids');
      assert es == es' + (if ps[id].alive then [EntryOf(ps[id])] else []);
      forall j | 0 <= j < |es| ensures FromLiving(ps, ids, es[j]) {
        if j < |es'| {
          assert es[j] == es'[j];
          assert FromLiving(ps, ids', es'[j]);
          FromLivingExtend(ps, ids, es[j]);
        } else {
          assert ps[ids[|ids| - 1]].alive && es[j] == EntryOf(ps[ids[|ids| - 1]]);
        }
      }
      forall k | 0 <= k < |ids| && ps[ids[k]].alive ensures EntryOf(ps[ids[k]]) in es {
        if k < |ids'| {
          assert ids[k] == ids'[k];
        }
      }
    }
  }

  lemma {:induction false} EntriesConcat(ps: map<nat, Player>, a: seq<nat>, b: seq<nat>)
    requires forall k :: 0 <= k < |a| ==> a[k] in ps
    requires forall k :: 0 <= k < |b| ==> b[k] in ps
    ensures Entries(ps, a + b) == Entries(ps, a) + Entries(ps, b)
    decreases |b|
  {
    if |b| == 0 {
      assert a + b == a;
    } else {
      assert (a + b)[..|a + b| - 1] == a + b[..|b| - 1];
      EntriesConcat(ps, a, b[..|b| - 1]);
    }
  }

  /** Two repeat-free key lists with the same members give the same entries, up to order. */
  lemma {:induction false} EntriesPermutation(ps: map<nat, Player>, a: seq<nat>, b: seq<nat>)
    requires Distinct(a) && Distinct(b)
    requires forall x :: x in a <==> x in b
    requires forall k :: 0 <= k < |a| ==> a[k] in ps
    ensures forall k :: 0 <= k < |b| ==> b[k] in ps
    ensures multiset(Entries(ps, a)) == multiset(Entries(ps, b))
    decreases |a|
  {
    assert forall k :: 0 <= k < |b| ==> b[k] in a;
    if |a| == 0 {
      if b != [] {
        FirstIsMember(b);
      }
    } else {
      var x := a[|a| - 1];
      assert x in b;
      var p :| 0 <= p < |b| && b[p] == x;
      var a', b' := a[..|a| - 1], b[..p] + b[p + 1..];
      assert forall k :: 0 <= k < |b| ==> b[k] in ps;
      DropBoth(a, b, p, a', b');
      EntriesPermutation(ps, a', b');
      EntriesDropAt(ps, a, |a| - 1);
      assert a[..|a| - 1] + a[|a|..] == a';
      EntriesDropAt(ps, b, p);
    }
  }

  /** Dropping the `p`-th key drops its entry, if any, from the multiset of entries. */
  lemma {:induction false} EntriesDropAt(ps: map<nat, Player>, b: seq<nat>, p: nat)
    requires forall k :: 0 <= k < |b| ==> b[k] in ps
    requires p < |b|
    ensures multiset(Entries(ps, b)) == multiset(Entries(ps, b[..p] + b[p + 1..])) + multiset(Entries(ps, [b[p]]))
  {
    EntriesSplitAt(ps, b, p);
    EntriesConcat(ps, b[..p], b[p + 1..]);
  }

  /** The entries of a key list around its `p`-th key. */
  lemma {:induction false} EntriesSplitAt(ps: map<nat, Player>, b: seq<nat>, p: nat)
    requires forall k :: 0 <= k < |b| ==> b[k] in ps
    requires p < |b|
    ensures Entries(ps, b) == Entries(ps, b[..p]) + Entries(ps, [b[p]]) + Entries(ps, b[p + 1..])
  {
    assert b == b[..p] + [b[p]] + b[p + 1..];
    EntriesConcat(ps, b[..p] + [b[p]], b[p + 1..]);
    EntriesConcat(ps, b[..p], [b[p]]);
  }

  // ---------------------------------------------------------------- sorting

  predicate SortedByScore(xs: seq<Entry>) {
    forall i, j :: 0 <= i < j < |xs| ==> xs[i].1 >= xs[j].1
  }

  lemma {:induction false} InsertByScoreSorted(x: Entry, ys: seq<Entry>)
    requires SortedByScore(ys)
    ensures SortedByScore(InsertByScore(x, ys))
  {
    if |ys| > 0 && ys[0].1 > x.1 {
      InsertByScoreSorted(x, ys[1..]);
      var t := InsertByScore(x, ys[1..]);
      forall j | 0 <= j < |t| ensures ys[0].1 >= t[j].1 {
        assert t[j] in multiset(ys[1..]) + multiset{x};
        if t[j] != x {
          assert t[j] in ys[1..];
        }
      }
    }
  }

  /** The sort orders from high to low and keeps the entries (a permutation). */
  lemma {:induction false} SortByScoreSorted(xs: seq<Entry>)
    ensures SortedByScore(SortByScore(xs))
    ensures multiset(SortByScore(xs)) == multiset(xs)
  {
    if |xs| > 0 {
      SortByScoreSorted(xs[1..]);
      InsertByScoreSorted(xs[0], SortByScore(xs[1..]));
    }
  }

  lemma {:induction false} ScoresConcat(a: seq<Entry>, b: seq<Entry>)
    ensures Scores(a + b) == Scores(a) + Scores(b)
  {
  }

  /** Lists that are permutations of each other have the same scores, up to order. */
  lemma {:induction false} ScoresPermutation(a: seq<Entry>, b: seq<Entry>)
    requires multiset(a) == multiset(b)
    ensures multiset(Scores(a)) == multiset(Scores(b))
    decreases |a|
  {
    if |a| == 0 {
      assert |b| == |multiset(b)| == 0;
      assert |Scores(a)| == 0 && |Scores(b)| == 0;
    } else {
      var p := IndexOf(b, a[0]);
      var b' := b[..p] + b[p + 1..];
      assert multiset(a[1..]) == multiset(b') by {
        MultisetOfTail(a);
        MultisetRemoveAt(b, p);
      }
      ScoresPermutation(a[1..], b');
      ScoresOfTail(a);
      ScoresRemoveAt(b, p);
    }
  }

  lemma {:induction false} ScoresOfTail(s: seq<Entry>)
    requires |s| > 0
    ensures multiset(Scores(s)) == multiset(Scores(s[1..])) + multiset{s[0].1}
  {
    assert Scores(s) == [s[0].1] + Scores(s[1..]);
  }

  /** Removing the entry at `p` removes its score from the multiset of scores. */
  lemma {:induction false} ScoresRemoveAt(s: seq<Entry>, p: nat)
    requires p < |s|
    ensures multiset(Scores(s)) == multiset(Scores(s[..p] + s[p + 1..])) + multiset{s[p].1}
  {
    var rest := s[..p] + s[p + 1..];
    assert Scores(rest) == Scores(s)[..p] + Scores(s)[p + 1..];
    MultisetRemoveAt(Scores(s), p);
  }

  /** Two lists of numbers sorted from high to low with the same members are equal. */
  lemma {:induction false} DescendingUnique(a: seq<nat>, b: seq<nat>)
    requires Descending(a) && Descending(b)
    requires multiset(a) == multiset(b)
    ensures a == b
    decreases |a|
  {
    if |a| == 0 {
      assert |b| == |multiset(b)| == 0;
    } else {
      assert |b| > 0 && a[0] == b[0] by {
        assert a[0] in multiset(b);
        DescendingHeadIsMax(b, a[0]);
        assert b[0] in multiset(a);
        DescendingHeadIsMax(a, b[0]);
      }
      assert multiset(a[1..]) == multiset(b[1..]) by {
        MultisetOfTail(a);
        MultisetOfTail(b);
      }
      DescendingTail(a);
      DescendingTail(b);
      DescendingUnique(a[1..], b[1..]);
      SameHeadSameTail(a, b);
    }
  }

  lemma {:induction false} DescendingTail(a: seq<nat>)
    requires Descending(a) && |a| > 0
    ensures Descending(a[1..])
  {
    forall i, j | 0 <= i < j < |a| - 1 ensures a[1..][i] >= a[1..][j] {
      assert a[1..][i] == a[i + 1] && a[1..][j] == a[j + 1];
    }
  }

  /** The head of a list sorted from high to low is at least every member. */
  lemma {:induction false} DescendingHeadIsMax(a: seq<nat>, x: nat)
    requires Descending(a) && x in multiset(a)
    ensures |a| > 0 && a[0] >= x
  {
    var p :| 0 <= p < |a| && a[p] == x;
  }

  // ---------------------------------------------------------------- the board

  /** `e` is the name and floored total mass of some living player. */
  predicate IsLivingEntry(ps: map<nat, Player>, e: Entry) {
    exists id :: id in ps && ps[id].alive && e == (ps[id].name, U64(TotalMass(ps[id].cells)))
  }

  /** What the sort puts out is the entry of some living player. */
  lemma {:induction false} SortedEntryIsLiving(ps: map<nat, Player>, ids: seq<nat>, e: Entry)
    requires forall k :: 0 <= k < |ids| ==> ids[k] in ps
    requires e in multiset(SortByScore(Entries(ps, ids)))
    ensures IsLivingEntry(ps, e)
  {
    var es := Entries(ps, ids);
    var i := IndexOf(es, e);
    EntriesMembers(ps, ids);
    assert FromLiving(ps, ids, es[i]);
    var k :| 0 <= k < |ids| && ids[k] in ps && ps[ids[k]].alive && es[i] == EntryOf(ps[ids[k]]);
    assert ids[k] in ps && ps[ids[k]].alive && e == (ps[ids[k]].name, U64(TotalMass(ps[ids[k]].cells)));
  }

  /**
   * The leaderboard holds at most ten entries, sorted from high to low, and
   * each is a living player's name and floored total mass.
   */
  lemma {:induction false} LeaderboardEntries(ps: map<nat, Player>, ids: seq<nat>)
    requires IsKeyOrder(ids, ps)
    ensures var r := Board(ps, ids);
      && |r| <= LEADERBOARD_SIZE
      && SortedByScore(r)
      && (forall j :: 0 <= j < |r| ==> IsLivingEntry(ps, r[j]))
  {
    var sorted := SortByScore(Entries(ps, ids));
    var r := Board(ps, ids);
    assert r == sorted[..|r|];
    assert SortedByScore(r) by {
      SortByScoreSorted(Entries(ps, ids));
      forall i, j | 0 <= i < j < |r| ensures r[i].1 >= r[j].1 {
        assert r[i] == sorted[i] && r[j] == sorted[j];
      }
    }
    forall j | 0 <= j < |r| ensures IsLivingEntry(ps, r[j]) {
      assert r[j] == sorted[j];
      assert r[j] in multiset(sorted);
      SortedEntryIsLiving(ps, ids, r[j]);
    }
  }

  /** A living player is on the board, or the board is full of entries scoring at least as much. */
  lemma {:induction false} LivingOnBoardOrBelow(ps: map<nat, Player>, ids: seq<nat>, id: nat)
    requires IsKeyOrder(ids, ps) && id in ps && ps[id].alive
    ensures var r := Board(ps, ids);
      || (ps[id].name, U64(TotalMass(ps[id].cells))) in r
      || (|r| == LEADERBOARD_SIZE && forall j :: 0 <= j < |r| ==> r[j].1 >= U64(TotalMass(ps[id].cells)))
  {
    var es := Entries(ps, ids);
    var sorted := SortByScore(es);
    var r := Board(ps, ids);
    var e := EntryOf(ps[id]);
    assert e in es by {
      EntriesMembers(ps, ids);
      var k :| 0 <= k < |ids| && ids[k] == id;
    }
    assert e in multiset(sorted);
    var i := IndexOf(sorted, e);
    assert r == sorted[..|r|];
    if i < |r| {
      assert r[i] == e;
    } else {
      SortByScoreSorted(es);
      forall j | 0 <= j < |r| ensures r[j].1 >= e.1 {
        assert r[j] == sorted[j];
      }
    }
  }

  /** Every living player is on the leaderboard or scores no more than everyone on a full one. */
  lemma {:induction false} LeaderboardIsTop(ps: map<nat, Player>, ids: seq<nat>)
    requires IsKeyOrder(ids, ps)
    ensures var r := Board(ps, ids);
      forall id :: id in ps && ps[id].alive ==>
        || (ps[id].name, U64(TotalMass(ps[id].cells))) in r
        || (|r| == LEADERBOARD_SIZE && forall j :: 0 <= j < |r| ==> r[j].1 >= U64(TotalMass(ps[id].cells)))
  {
    forall id | id in ps && ps[id].alive
      ensures var r := Board(ps, ids);
        || (ps[id].name, U64(TotalMass(ps[id].cells))) in r
        || (|r| == LEADERBOARD_SIZE && forall j :: 0 <= j < |r| ==> r[j].1 >= U64(TotalMass(ps[id].cells)))
    {
      LivingOnBoardOrBelow(ps, ids, id);
    }
  }

  /**
   * The key order decides at most which of several equal scores get the
   * last places: the sorted entries are the same up to order, and the
   * board's scores are the same list, for any two key orders.
   */
  lemma {:induction false} LeaderboardOrderIndependent(ps: map<nat, Player>, ids1: seq<nat>, ids2: seq<nat>)
    requires IsKeyOrder(ids1, ps) && IsKeyOrder(ids2, ps)
    ensures multiset(SortByScore(Entries(ps, ids1))) == multiset(SortByScore(Entries(ps, ids2)))
    ensures Scores(Board(ps, ids1)) == Scores(Board(ps, ids2))
  {
    var s1 := SortByScore(Entries(ps, ids1));
    var s2 := SortByScore(Entries(ps, ids2));
    EntriesPermutation(ps, ids1, ids2);
    SortByScoreSorted(Entries(ps, ids1));
    SortByScoreSorted(Entries(ps, ids2));
    ScoresPermutation(s1, s2);
    DescendingUnique(Scores(s1), Scores(s2));
    var r1 := Board(ps, ids1);
    var r2 := Board(ps, ids2);
    assert |s1| == |s2|;
    assert |r1| == |r2|;
    forall j | 0 <= j < |r1| ensures Scores(r1)[j] == Scores(r2)[j] {
      assert r1[j] == s1[j] && r2[j] == s2[j];
      assert Scores(s1)[j] == Scores(s2)[j];
    }
  }
}
