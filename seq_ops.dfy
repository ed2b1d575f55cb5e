/**
 * The `Vec` operations the world's rules are built from: `swap_remove`,
 * `remove`, a descending sort and `dedup`, with the facts about removing a
 * list of indices in descending order.
 */
module SeqOps {

  /** `Vec::swap_remove(i)`: the last element takes the place of element `i`. */
  function SwapRemove<T>(s: seq<T>, i: nat): (r: seq<T>)
    requires i < |s|
    ensures |r| == |s| - 1
    ensures forall k :: 0 <= k < i ==> r[k] == s[k]
    ensures multiset(r) + multiset{s[i]} == multiset(s)
  {
    var last := |s| - 1;
    assert s == s[..last] + [s[last]];
    if i == last then s[..last]
    else
      var r := s[i := s[last]][..last];
      assert s[..last] == s[..i] + [s[i]] + s[i + 1..last];
      assert r == s[..i] + [s[last]] + s[i + 1..last];
      r
  }

  /** `Vec::remove(i)`: the elements after `i` shift down by one, keeping their order. */
  function RemoveAt<T>(s: seq<T>, i: nat): (r: seq<T>)
    requires i < |s|
    ensures |r| == |s| - 1
    ensures forall k :: 0 <= k < i ==> r[k] == s[k]
    ensures forall k :: i <= k < |r| ==> r[k] == s[k + 1]
  {
    s[..i] + s[i + 1..]
  }

  predicate StrictlyDescending(xs: seq<nat>) {
    forall i, j :: 0 <= i < j < |xs| ==> xs[i] > xs[j]
  }

  predicate Descending(xs: seq<nat>) {
    forall i, j :: 0 <= i < j < |xs| ==> xs[i] >= xs[j]
  }

  predicate AllBelow(xs: seq<nat>, n: nat) {
    forall k :: 0 <= k < |xs| ==> xs[k] < n
  }

  predicate Distinct(xs: seq<nat>) {
    forall i, j :: 0 <= i < j < |xs| ==> xs[i] != xs[j]
  }

  /** Appending a value not yet listed keeps a list duplicate-free. */
  lemma {:induction false} DistinctAppend(xs: seq<nat>, x: nat)
    requires Distinct(xs) && x !in xs
    ensures Distinct(xs + [x])
  {
    var ys := xs + [x];
    forall i, j | 0 <= i < j < |ys| ensures ys[i] != ys[j] {
      if j == |xs| {
        assert ys[i] == xs[i];
      }
    }
  }

  /** Strictly descending indices below `n` leave room: the k-th is below `n - k`. */
  lemma {:induction false} DescendingRoom(idx: seq<nat>, n: nat, k: nat)
    requires StrictlyDescending(idx) && AllBelow(idx, n) && k < |idx|
    ensures idx[k] + k < n
  {
    if k > 0 {
      DescendingRoom(idx, n, k - 1);
    }
  }

  /** The elements of `s` at the positions `idx`, in that order. */
  function ItemsAt<T>(s: seq<T>, idx: seq<nat>): (r: seq<T>)
    requires AllBelow(idx, |s|)
    ensures |r| == |idx| && forall k :: 0 <= k < |idx| ==> r[k] == s[idx[k]]
  {
    seq(|idx|, k requires 0 <= k < |idx| => s[idx[k]])
  }

  /** `for i in idx { s.swap_remove(i) }`. */
  function SwapRemoveAll<T>(s: seq<T>, idx: seq<nat>): (r: seq<T>)
    requires StrictlyDescending(idx) && AllBelow(idx, |s|)
    ensures |r| == |s| - |idx|
    ensures |idx| > 0 ==> forall k :: 0 <= k < idx[|idx| - 1] && k < |r| ==> r[k] == s[k]
  {
    if |idx| == 0 then s
    else
      var prefix := idx[..|idx| - 1];
      var r := SwapRemoveAll(s, prefix);
      var i := idx[|idx| - 1];
      DescendingRoom(idx, |s|, |idx| - 1);
      SwapRemove(r, i)
  }

  /**
   * Removing strictly descending, in-range indices with `swap_remove` removes
   * exactly the elements at those indices: what is left plus what was removed
   * is the original multiset.
   */
  lemma {:induction false} SwapRemoveAllRemovesExactly<T>(s: seq<T>, idx: seq<nat>)
    requires StrictlyDescending(idx) && AllBelow(idx, |s|)
    ensures multiset(SwapRemoveAll(s, idx)) + multiset(ItemsAt(s, idx)) == multiset(s)
  {
    if |idx| > 0 {
      var prefix := idx[..|idx| - 1];
      var i := idx[|idx| - 1];
      SwapRemoveAllRemovesExactly(s, prefix);
      var r := SwapRemoveAllStep(s, idx);
      var gone := multiset(ItemsAt(s, prefix));
      assert multiset(ItemsAt(s, idx)) == gone + multiset{s[i]} by {
        assert ItemsAt(s, idx) == ItemsAt(s, prefix) + [s[i]];
      }
      MultisetShuffle(multiset(SwapRemove(r, i)), multiset{s[i]}, gone, multiset(r), multiset(s));
    }
  }

  /** The last removal of `SwapRemoveAll` takes out the element that was at its index in the original. */
  lemma {:induction false} SwapRemoveAllStep<T>(s: seq<T>, idx: seq<nat>) returns (r: seq<T>)
    requires StrictlyDescending(idx) && AllBelow(idx, |s|) && |idx| > 0
    ensures StrictlyDescending(idx[..|idx| - 1]) && AllBelow(idx[..|idx| - 1], |s|)
    ensures r == SwapRemoveAll(s, idx[..|idx| - 1])
    ensures idx[|idx| - 1] < |r| && r[idx[|idx| - 1]] == s[idx[|idx| - 1]]
    ensures SwapRemoveAll(s, idx) == SwapRemove(r, idx[|idx| - 1])
  {
    var prefix := idx[..|idx| - 1];
    var i := idx[|idx| - 1];
    r := SwapRemoveAll(s, prefix);
    DescendingRoom(idx, |s|, |idx| - 1);
    if |prefix| > 0 {
      assert i < prefix[|prefix| - 1];
    }
  }

  /** `(a + x) + g == a + (x + g)`, rewritten against two known sums. */
  lemma {:induction false} MultisetShuffle<T>(a: multiset<T>, x: multiset<T>, g: multiset<T>, r: multiset<T>, s: multiset<T>)
    requires a + x == r && r + g == s
    ensures a + (x + g) == s
  {
  }

  /** The indices in `[0, n)` that belong to `S`, from largest to smallest. */
  function DescendingMembers(S: set<nat>, n: nat): (r: seq<nat>)
    ensures StrictlyDescending(r) && AllBelow(r, n)
    ensures forall i :: i in r <==> i in S && i < n
  {
    if n == 0 then []
    else
      var rest := DescendingMembers(S, n - 1);
      if n - 1 in S then [n - 1] + rest else rest
  }

  /** Two strictly descending lists with the same elements are the same list. */
  lemma {:induction false} StrictlyDescendingUnique(a: seq<nat>, b: seq<nat>)
    requires StrictlyDescending(a) && StrictlyDescending(b)
    requires forall x :: x in a <==> x in b
    ensures a == b
    decreases |a|
  {
    if |a| > 0 { assert a[0] in b; }
    if |b| > 0 { assert b[0] in a; }
    if |a| > 0 {
      assert a[0] == b[0] by {
        assert b[0] in a;
        assert a[0] in b;
      }
      forall x ensures x in a[1..] <==> x in b[1..] {
        if x in a[1..] { assert x < a[0]; assert x in b; assert x != b[0]; }
        if x in b[1..] { assert x < b[0]; assert x in a; assert x != a[0]; }
      }
      StrictlyDescendingUnique(a[1..], b[1..]);
      assert a == [a[0]] + a[1..];
      assert b == [b[0]] + b[1..];
    }
  }

  /** Inserts `x` into a descending list after every element at least as large. */
  function InsertDesc(x: nat, xs: seq<nat>): (r: seq<nat>)
    requires Descending(xs)
    ensures Descending(r)
    ensures multiset(r) == multiset(xs) + multiset{x}
    ensures r[0] == x || (|xs| > 0 && r[0] == xs[0])
  {
    if |xs| == 0 then [x]
    else if xs[0] <= x then [x] + xs
    else
      var tail := InsertDesc(x, xs[1..]);
      assert xs == [xs[0]] + xs[1..];
      [xs[0]] + tail
  }

  /** `sort_unstable_by(|a, b| b.cmp(a))`: a descending permutation. */
  function SortDesc(xs: seq<nat>): (r: seq<nat>)
    ensures Descending(r)
    ensures multiset(r) == multiset(xs)
  {
    if |xs| == 0 then []
    else
      assert xs == [xs[0]] + xs[1..];
      InsertDesc(xs[0], SortDesc(xs[1..]))
  }

  /** A descending list without repeats is strictly descending. */
  lemma {:induction false} DistinctDescending(xs: seq<nat>)
    requires Descending(xs) && Distinct(xs)
    ensures StrictlyDescending(xs)
  {
  }

  lemma {:induction false} DistinctFromMultiset(xs: seq<nat>, ys: seq<nat>)
    requires Distinct(xs) && multiset(xs) == multiset(ys)
    ensures Distinct(ys)
  {
    forall i, j | 0 <= i < j < |ys| ensures ys[i] != ys[j] {
      if ys[i] == ys[j] {
        var v := ys[i];
        assert multiset(ys)[v] >= 2 by {
          assert ys == ys[..i] + [ys[i]] + ys[i + 1..j] + [ys[j]] + ys[j + 1..];
        }
        MultisetCountOneDistinct(xs, v);
        assert false;
      }
    }
  }

  /** In a list without repeats every element occurs at most once. */
  lemma {:induction false} MultisetCountOneDistinct(xs: seq<nat>, v: nat)
    requires Distinct(xs)
    ensures multiset(xs)[v] <= 1
  {
    if |xs| > 0 {
      assert xs == [xs[0]] + xs[1..];
      MultisetCountOneDistinct(xs[1..], v);
      if xs[0] == v {
        assert v !in xs[1..];
      }
    }
  }

  /** `Vec::dedup`: drops each element equal to the one before it. */
  function Dedup(xs: seq<nat>): (r: seq<nat>)
    ensures forall x :: x in r <==> x in xs
    ensures Descending(xs) ==> StrictlyDescending(r)
    ensures |xs| > 0 ==> |r| > 0 && r[0] == xs[0]
  {
    if |xs| <= 1 then xs
    else
      var tail := Dedup(xs[1..]);
      assert xs == [xs[0]] + xs[1..];
      if xs[0] == xs[1] then tail else [xs[0]] + tail
  }

  /**
   * `s` without the elements whose positions are in `D`, the rest in their
   * original order.
   */
  function Without<T>(s: seq<T>, D: set<nat>): (r: seq<T>)
    ensures |r| <= |s|
    ensures forall k :: 0 <= k < |r| ==> r[k] in s
  {
    if |s| == 0 then []
    else
      var rest := Without(s[..|s| - 1], D);
      if |s| - 1 in D then rest else rest + [s[|s| - 1]]
  }

  /** Nothing is dropped below the smallest position in `D`. */
  lemma {:induction false} WithoutPrefix<T>(s: seq<T>, D: set<nat>, m: nat)
    requires m <= |s|
    requires forall d :: d in D ==> d >= m
    ensures |Without(s, D)| >= m && Without(s, D)[..m] == s[..m]
  {
    if |s| > m {
      WithoutPrefix(s[..|s| - 1], D, m);
    } else if |s| > 0 {
      WithoutNone(s, D);
    }
  }

  lemma {:induction false} WithoutNone<T>(s: seq<T>, D: set<nat>)
    requires forall d :: d in D ==> d >= |s|
    ensures Without(s, D) == s
  {
    if |s| > 0 {
      WithoutNone(s[..|s| - 1], D);
    }
  }

  /**
   * Dropping one more position `d`, below every position already dropped, is
   * `Vec::remove(d)` on the list so far.
   */
  lemma {:induction false} WithoutOneMore<T>(s: seq<T>, D: set<nat>, d: nat)
    requires d < |s| && d !in D
    requires forall e :: e in D ==> e > d
    ensures |Without(s, D)| > d
    ensures Without(s, D + {d}) == RemoveAt(Without(s, D), d)
  {
    var n := |s| - 1;
    var s' := s[..n];
    if n == d {
      WithoutNone(s', D + {d});
      WithoutNone(s', D);
    } else {
      WithoutOneMore(s', D, d);
      WithoutPrefix(s', D, d + 1);
    }
  }

  /** `for d in idx { if d < s.len() { s.remove(d) } }`. */
  function RemoveAllDescending<T>(s: seq<T>, idx: seq<nat>): seq<T> {
    if |idx| == 0 then s
    else
      var r := RemoveAllDescending(s, idx[..|idx| - 1]);
      var d := idx[|idx| - 1];
      if d < |r| then RemoveAt(r, d) else r
  }

  /**
   * Removing strictly descending in-range positions one by one with
   * `Vec::remove` drops exactly those positions and keeps the survivors in
   * their original order.
   */
  lemma {:induction false} RemoveAllDescendingIsWithout<T>(s: seq<T>, idx: seq<nat>)
    requires StrictlyDescending(idx) && AllBelow(idx, |s|)
    ensures RemoveAllDescending(s, idx) == Without(s, set k | 0 <= k < |idx| :: idx[k])
  {
    var D := set k | 0 <= k < |idx| :: idx[k];
    if |idx| == 0 {
      WithoutNone(s, D);
    } else {
      var prefix := idx[..|idx| - 1];
      var d := idx[|idx| - 1];
      var D' := set k | 0 <= k < |prefix| :: prefix[k];
      RemoveAllDescendingIsWithout(s, prefix);
      assert D == D' + {d} by {
        forall x ensures x in D <==> x in D' + {d} {
          if x in D {
            var k :| 0 <= k < |idx| && idx[k] == x;
            if k < |prefix| { assert prefix[k] == x; }
          }
          if x in D' {
            var k :| 0 <= k < |prefix| && prefix[k] == x;
            assert idx[k] == x;
          }
        }
      }
      assert forall e :: e in D' ==> e > d;
      WithoutOneMore(s, D', d);
    }
  }

  /** Which positions `Without` keeps: exactly those not in `D`, in order. */
  lemma {:induction false} WithoutKeepsOthers<T>(s: seq<T>, D: set<nat>)
    ensures |Without(s, D)| == |s| - |set k | 0 <= k < |s| && k in D|
  {
    if |s| > 0 {
      var n := |s| - 1;
      WithoutKeepsOthers(s[..n], D);
      var A := set k | 0 <= k < n && k in D;
      var B := set k | 0 <= k < |s| && k in D;
      if n in D {
        assert B == A + {n};
      } else {
        assert B == A;
      }
    }
  }

  /**
   * Sorting a repeat-free list of in-range indices in descending order gives
   * the descending listing of its members: the order `swap_remove` needs.
   */
  lemma {:induction false} SortedIndicesAreDescendingMembers(xs: seq<nat>, S: set<nat>, n: nat)
    requires Distinct(xs) && AllBelow(xs, n)
    requires forall x :: x in xs <==> x in S && x < n
    ensures SortDesc(xs) == DescendingMembers(S, n)
  {
    var r := SortDesc(xs);
    DistinctFromMultiset(xs, r);
    DistinctDescending(r);
    forall x ensures x in r <==> x in DescendingMembers(S, n) {
      assert x in r <==> x in multiset(r);
      assert x in xs <==> x in multiset(xs);
    }
    StrictlyDescendingUnique(r, DescendingMembers(S, n));
  }

  /** A set below `n` is listed in full by `DescendingMembers`. */
  lemma {:induction false} CountDescendingMembers(S: set<nat>, n: nat)
    requires forall x :: x in S ==> x < n
    ensures |DescendingMembers(S, n)| == |S|
  {
    CountDescendingMembersBelow(S, n);
    assert (set k | k in S && k < n) == S;
  }

  /** `DescendingMembers(S, n)` has one entry per member of `S` below `n`. */
  lemma {:induction false} CountDescendingMembersBelow(S: set<nat>, n: nat)
    ensures |DescendingMembers(S, n)| == |set k | k in S && k < n|
  {
    if n > 0 {
      CountDescendingMembersBelow(S, n - 1);
      var A := set k | k in S && k < n - 1;
      var B := set k | k in S && k < n;
      var rest := DescendingMembers(S, n - 1);
      if n - 1 in S {
        assert DescendingMembers(S, n) == [n - 1] + rest;
        assert B == A + {n - 1} && n - 1 !in A;
      } else {
        assert DescendingMembers(S, n) == rest;
        assert B == A;
      }
    }
  }

  /** Dropping one element from two repeat-free lists with the same members keeps them so. */
  lemma {:induction false} DropBoth(a: seq<nat>, b: seq<nat>, p: nat, a': seq<nat>, b': seq<nat>)
    requires Distinct(a) && Distinct(b) && |a| > 0 && p < |b| && b[p] == a[|a| - 1]
    requires forall x :: x in a <==> x in b
    requires a' == a[..|a| - 1] && b' == b[..p] + b[p + 1..]
    ensures Distinct(a') && Distinct(b')
    ensures forall y :: y in a' <==> y in b'
  {
    assert |b'| == |b| - 1;
    assert forall j :: 0 <= j < p ==> b'[j] == b[j];
    assert forall j :: p <= j < |b'| ==> b'[j] == b[j + 1];
    forall y ensures y in a' <==> y in b' {
      if y in a' {
        var i :| 0 <= i < |a'| && a'[i] == y;
        assert a[i] == y;
        assert y in b;
        var j :| 0 <= j < |b| && b[j] == y;
        assert j != p;
        if j < p { assert b'[j] == y; } else { assert b'[j - 1] == y; }
      }
      if y in b' {
        var j :| 0 <= j < |b'| && b'[j] == y;
        var j' := if j < p then j else j + 1;
        assert b[j'] == y && j' != p;
        assert y in a;
        var i :| 0 <= i < |a| && a[i] == y;
        assert i != |a| - 1;
        assert a'[i] == y;
      }
    }
    forall i, j | 0 <= i < j < |b'| ensures b'[i] != b'[j] {
      var i' := if i < p then i else i + 1;
      var j' := if j < p then j else j + 1;
      assert b'[i] == b[i'] && b'[j] == b[j'] && i' < j';
    }
  }

  lemma {:induction false} FirstIsMember(b: seq<nat>)
    requires b != []
    ensures b[0] in b
  {
  }

  /** `for i in idx { s.swap_remove(i); }` */
  method SwapRemoveEach<T>(s: seq<T>, idx: seq<nat>) returns (out: seq<T>)
    requires StrictlyDescending(idx) && AllBelow(idx, |s|)
    ensures out == SwapRemoveAll(s, idx)
  {
    out := s;
    for t := 0 to |idx|
      invariant out == SwapRemoveAll(s, idx[..t])
    {
      assert idx[..t + 1][..t] == idx[..t];
      DescendingRoom(idx, |s|, t);
      out := SwapRemove(out, idx[t]);
    }
    assert idx[..|idx|] == idx;
  }

  /** `for d in idx { if d < s.len() { s.remove(d); } }` */
  method RemoveEach<T>(s: seq<T>, idx: seq<nat>) returns (out: seq<T>)
    ensures out == RemoveAllDescending(s, idx)
  {
    out := s;
    for t := 0 to |idx|
      invariant out == RemoveAllDescending(s, idx[..t])
    {
      assert idx[..t + 1][..t] == idx[..t];
      if idx[t] < |out| {
        out := RemoveAt(out, idx[t]);
      }
    }
    assert idx[..|idx|] == idx;
  }

  /** A position at which a member of the multiset stands. */
  lemma {:induction false} IndexOf<T>(s: seq<T>, x: T) returns (p: nat)
    requires x in multiset(s)
    ensures p < |s| && s[p] == x
  {
    assert x in s;
    p :| 0 <= p < |s| && s[p] == x;
  }

  lemma {:induction false} MultisetOfTail<T>(s: seq<T>)
    requires |s| > 0
    ensures multiset(s[1..]) == multiset(s) - multiset{s[0]}
  {
    assert s == [s[0]] + s[1..];
  }

  lemma {:induction false} MultisetRemoveAt<T>(s: seq<T>, p: nat)
    requires p < |s|
    ensures multiset(s[..p] + s[p + 1..]) == multiset(s) - multiset{s[p]}
  {
    assert s == s[..p] + [s[p]] + s[p + 1..];
  }

  lemma {:induction false} SameHeadSameTail<T>(a: seq<T>, b: seq<T>)
    requires |a| > 0 && |b| > 0 && a[0] == b[0] && a[1..] == b[1..]
    ensures a == b
  {
    assert a == [a[0]] + a[1..] && b == [b[0]] + b[1..];
  }
}
