/** What a schedule of moves guarantees (org/diff.go). */
module MoveTheorems {
  import opened SlotMoves
  import opened MoveOrder

  // ---- The output is a permutation ----

  function Without(order: seq<nat>, p: nat): seq<nat>
    requires p < |order|
  {
    order[..p] + order[p + 1..]
  }

  lemma {:induction false} RemoveOne<T>(s: seq<T>, p: nat)
    requires p < |s|
    ensures multiset(s) == multiset(s[..p] + s[p + 1..]) + multiset{s[p]}
  {
    assert s == s[..p] + [s[p]] + s[p + 1..];
  }

  /** Taking the largest index out of a permutation leaves a permutation of the others. */
  lemma {:induction false} SmallerPermutation(order: seq<nat>, n: nat, p: nat)
    requires n > 0 && IsPermutation(order, n) && p < n && order[p] == n - 1
    ensures IsPermutation(Without(order, p), n - 1)
  {
    var rest := Without(order, p);
    forall x: nat | x < n - 1 ensures x in rest {
      assert x in order;
      var q :| 0 <= q < n && order[q] == x;
      if q < p { assert rest[q] == x; } else { assert rest[q - 1] == x; }
    }
  }

  lemma {:induction false} PickPermutes(moves: seq<Move>, order: seq<nat>)
    requires IsPermutation(order, |moves|)
    ensures multiset(Pick(moves, order)) == multiset(moves)
  {
    var n := |moves|;
    if n > 0 {
      var last: nat := n - 1;
      assert last in order;
      var p :| 0 <= p < n && order[p] == last;
      SmallerPermutation(order, n, p);
      PickPermutes(moves[..last], Without(order, p));
      PickWithout(moves, order, p);
      RemoveOne(Pick(moves, order), p);
      assert moves == moves[..last] + [moves[last]];
    }
  }

  lemma {:induction false} PickWithout(moves: seq<Move>, order: seq<nat>, p: nat)
    requires IsPermutation(order, |moves|) && p < |moves| && order[p] == |moves| - 1
    requires IsPermutation(Without(order, p), |moves| - 1)
    ensures Pick(moves[..|moves| - 1], Without(order, p)) == Pick(moves, order)[..p] + Pick(moves, order)[p + 1..]
  {
  }

  /** No move is lost, added or repeated, with or without cycles. */
  lemma {:induction false} ScheduleIsPermutation(moves: seq<Move>, order: seq<nat>, k: nat)
    requires IsSchedule(moves, order, k)
    ensures multiset(Pick(moves, order)) == multiset(moves)
  {
    PickPermutes(moves, order);
  }

  // ---- The fallback is exactly the cycles and what they hold up ----

  /** Moves that block one another in a circle. */
  ghost predicate IsCycle(moves: seq<Move>, c: seq<nat>) {
    && |c| > 0
    && (forall i :: 0 <= i < |c| - 1 ==> Blocks(moves, c[i], c[i + 1]))
    && Blocks(moves, c[|c| - 1], c[0])
  }

  /** A walk against the dependencies inside the fallback; `w[0]` is its latest move. */
  ghost predicate IsWalk(moves: seq<Move>, order: seq<nat>, k: nat, w: seq<nat>) {
    && k <= |order|
    && |w| > 0
    && (forall i :: 0 <= i < |w| ==> w[i] < |moves| && w[i] in order[k..])
    && (forall i :: 0 <= i < |w| - 1 ==> Blocks(moves, w[i], w[i + 1]))
  }

  lemma {:induction false} BlockedInFallback(moves: seq<Move>, order: seq<nat>, k: nat, x: nat) returns (y: nat)
    requires k <= |order| && AllWait(moves, order, k) && x in order[k..]
    ensures Blocks(moves, y, x) && y in order[k..]
  {
    var p :| 0 <= p < |order[k..]| && order[k..][p] == x;
    assert Waits(moves, order, k, k + p);
    var q :| k <= q < |order| && Blocks(moves, order[q], order[k + p]);
    y := order[q];
    assert order[k..][q - k] == y;
  }

  lemma {:induction false} LongWalk(moves: seq<Move>, order: seq<nat>, k: nat, x: nat, n: nat) returns (w: seq<nat>)
    requires IsSchedule(moves, order, k) && x in order[k..]
    ensures IsWalk(moves, order, k, w) && |w| == n + 1 && w[n] == x
  {
    if n == 0 {
      w := [x];
    } else {
      var rest := LongWalk(moves, order, k, x, n - 1);
      var y := BlockedInFallback(moves, order, k, rest[0]);
      w := [y] + rest;
      assert w[1..] == rest;
    }
  }

  lemma {:induction false} Pigeonhole(w: seq<nat>, n: nat) returns (i: nat, j: nat)
    requires |w| > n && forall i :: 0 <= i < |w| ==> w[i] < n
    ensures i < j < |w| && w[i] == w[j]
  {
    if forall i, j :: 0 <= i < j < |w| ==> w[i] != w[j] {
      DistinctBelow(w, n);
      assert false;
    }
    i, j :| 0 <= i < j < |w| && w[i] == w[j];
  }

  lemma {:induction false} FallbackHasCycle(moves: seq<Move>, order: seq<nat>, k: nat) returns (c: seq<nat>)
    requires IsSchedule(moves, order, k) && k < |moves|
    ensures IsCycle(moves, c)
  {
    assert order[k..][0] == order[k];
    var w := LongWalk(moves, order, k, order[k], |moves|);
    var i, j := Pigeonhole(w, |moves|);
    c := w[i..j];
    assert Blocks(moves, w[j - 1], w[j]);
  }

  /** In a fully greedy order everything comes after what blocks it. */
  lemma {:induction false} BlockerFirst(moves: seq<Move>, order: seq<nat>, k: nat, p: nat, y: nat) returns (q: nat)
    requires IsSchedule(moves, order, k) && p < k && Blocks(moves, y, order[p])
    ensures q < p && order[q] == y
  {
    assert GreedyAt(moves, order, p);
    assert y in order[..p];
    q :| 0 <= q < p && order[..p][q] == y;
  }

  lemma {:induction false} BlockerPrecedes(moves: seq<Move>, order: seq<nat>, k: nat, p: nat, q: nat)
    requires IsSchedule(moves, order, k) && p < k && q < |moves| && Blocks(moves, order[q], order[p])
    ensures q < p
  {
    var r := BlockerFirst(moves, order, k, p, order[q]);
    assert r == q;
  }

  lemma {:induction false} NoCycle(moves: seq<Move>, order: seq<nat>, c: seq<nat>)
    requires IsSchedule(moves, order, |moves|)
    ensures !IsCycle(moves, c)
  {
    if IsCycle(moves, c) {
      var n := |moves|;
      var last := c[|c| - 1];
      assert last in order;
      var p :| 0 <= p < n && order[p] == last;
      var at := p;
      // Walking back around the circle, the position in the order only gets smaller.
      var i := |c| - 1;
      while i > 0
        invariant 0 <= i < |c| && 0 <= at <= p && order[at] == c[i]
      {
        at := BlockerFirst(moves, order, n, at, c[i - 1]);
        i := i - 1;
      }
      var q := BlockerFirst(moves, order, n, at, last);
    }
  }

  lemma {:induction false} UsedIffCycle(moves: seq<Move>, order: seq<nat>, k: nat)
    requires IsSchedule(moves, order, k)
    ensures k < |moves| <==> exists c :: IsCycle(moves, c)
  {
    if k < |moves| {
      var c := FallbackHasCycle(moves, order, k);
    } else if c :| IsCycle(moves, c) {
      NoCycle(moves, order, c);
    }
  }

  /**
   * The fallback is used exactly when some moves block one another in a circle, and where the output
   * breaks a dependency, both moves are in the fallback.
   */
  lemma {:induction false} FallbackIffCycle(moves: seq<Move>, order: seq<nat>, k: nat)
    requires IsSchedule(moves, order, k)
    ensures k < |moves| <==> exists c :: IsCycle(moves, c)
    ensures forall p, q :: 0 <= p < q < |moves| && Blocks(moves, order[q], order[p]) ==> k <= p
  {
    UsedIffCycle(moves, order, k);
    forall p, q | 0 <= p < q < |moves| && Blocks(moves, order[q], order[p]) ensures k <= p {
      if p < k {
        BlockerPrecedes(moves, order, k, p, q);
      }
    }
  }

  // ---- Which moves end up in the fallback, and in which order ----

  ghost predicate IsChain(moves: seq<Move>, w: seq<nat>) {
    |w| > 0 && forall i :: 0 <= i < |w| - 1 ==> Blocks(moves, w[i], w[i + 1])
  }

  ghost predicate Repeats(w: seq<nat>) {
    exists i, j :: 0 <= i < j < |w| && w[i] == w[j]
  }

  /** A chain of moves, each blocking the next, comes round to one of them again before it ends at `x`. */
  ghost predicate Behind(moves: seq<Move>, x: nat) {
    exists w :: IsChain(moves, w) && Repeats(w) && w[|w| - 1] == x
  }

  lemma {:induction false} WaitingIsBehind(moves: seq<Move>, order: seq<nat>, k: nat, x: nat)
    requires IsSchedule(moves, order, k) && x in order[k..]
    ensures Behind(moves, x)
  {
    var w := LongWalk(moves, order, k, x, |moves|);
    var i, j := Pigeonhole(w, |moves|);
    assert IsChain(moves, w) && Repeats(w);
  }

  /** Back along a chain that ends in the greedy part, the position in the order gets smaller with every move. */
  lemma {:induction false} ChainBack(moves: seq<Move>, order: seq<nat>, k: nat, p: nat, w: seq<nat>, i: nat)
    returns (q: nat)
    requires IsSchedule(moves, order, k) && p < k && IsChain(moves, w) && w[|w| - 1] == order[p] && i < |w|
    ensures q + (|w| - 1 - i) <= p && order[q] == w[i]
  {
    if i == |w| - 1 {
      q := p;
    } else {
      var r := BlockerFirst(moves, order, k, p, w[|w| - 2]);
      var init := w[..|w| - 1];
      q := ChainBack(moves, order, k, r, init, i);
    }
  }

  lemma {:induction false} TakenNotBehind(moves: seq<Move>, order: seq<nat>, k: nat, p: nat, w: seq<nat>)
    requires IsSchedule(moves, order, k) && p < k && IsChain(moves, w) && w[|w| - 1] == order[p]
    ensures !Repeats(w)
  {
    forall i, j | 0 <= i < j < |w| ensures w[i] != w[j] {
      var b := ChainBack(moves, order, k, p, w, j);
      var a := ChainBack(moves, order, k, b, w[..j + 1], i);
      assert order[a] != order[b];
    }
  }

  /** The fallback holds exactly the moves behind a circle. */
  lemma {:induction false} FallbackIsBehind(moves: seq<Move>, order: seq<nat>, k: nat, p: nat)
    requires IsSchedule(moves, order, k) && p < |moves|
    ensures k <= p <==> Behind(moves, order[p])
  {
    if k <= p {
      assert order[k..][p - k] == order[p];
      WaitingIsBehind(moves, order, k, order[p]);
    } else {
      forall w | IsChain(moves, w) && w[|w| - 1] == order[p] ensures !Repeats(w) {
        TakenNotBehind(moves, order, k, p, w);
      }
    }
  }

  /** By start unit, and by position in the list where start units are equal. */
  predicate SortsFirst(moves: seq<Move>, y: nat, x: nat) {
    StartUnit(moves, y) < StartUnit(moves, x) || (StartUnit(moves, y) == StartUnit(moves, x) && y < x)
  }

  ghost predicate AllSortFirst(moves: seq<Move>, s: seq<nat>) {
    forall i, j :: 0 <= i < j < |s| ==> SortsFirst(moves, s[i], s[j])
  }

  predicate Increasing(s: seq<nat>) {
    forall i, j :: 0 <= i < j < |s| ==> s[i] < s[j]
  }

  /** Sorting a list of increasing positions by start unit. */
  lemma {:induction false} SortByUnit(moves: seq<Move>, s: seq<nat>)
    requires Increasing(s)
    ensures AllSortFirst(moves, SortQueue(moves, s))
  {
    var t := SortQueue(moves, s);
    var from := StableSorting.SortPlaces(ByUnit(moves), s);
    forall i, j | 0 <= i < j < |t| ensures SortsFirst(moves, t[i], t[j]) {
      assert ByUnit(moves)(t[i], t[j]) || s[from[i]] < s[from[j]];
    }
  }

  lemma {:induction false} UnvisitedIncreases(done: seq<nat>, n: nat)
    ensures Increasing(Unvisited(done, n)) && AllUnder(Unvisited(done, n), n)
  {
    if n > 0 {
      var init, s := Unvisited(done, n - 1), Unvisited(done, n);
      UnvisitedIncreases(done, n - 1);
      assert s == if n - 1 in done then init else init + [n - 1];
    }
  }

  lemma {:induction false} FallbackByUnit(moves: seq<Move>, order: seq<nat>, k: nat, p: nat, q: nat)
    requires IsSchedule(moves, order, k) && k <= p < q < |moves|
    ensures SortsFirst(moves, order[p], order[q])
  {
    UnvisitedIncreases(order[..k], |moves|);
    SortByUnit(moves, Unvisited(order[..k], |moves|));
    assert order[k..][p - k] == order[p] && order[k..][q - k] == order[q];
  }

  /** A move is taken before one that blocks it exactly if the blocking one is behind a circle and sorts after it. */
  lemma {:induction false} BrokenIff(moves: seq<Move>, order: seq<nat>, k: nat, p: nat, q: nat)
    requires IsSchedule(moves, order, k) && p < |moves| && q < |moves| && Blocks(moves, order[q], order[p])
    ensures p < q <==> Behind(moves, order[q]) && !SortsFirst(moves, order[q], order[p])
  {
    FallbackIsBehind(moves, order, k, q);
    if p < k {
      BlockerPrecedes(moves, order, k, p, q);
    } else if k <= q {
      if p < q { FallbackByUnit(moves, order, k, p, q); } else if q < p { FallbackByUnit(moves, order, k, q, p); }
    }
  }

  // ---- Least order ----

  /** An order in which everything comes after what blocks it. */
  ghost predicate IsTopological(moves: seq<Move>, o: seq<nat>) {
    IsPermutation(o, |moves|) && forall p :: 0 <= p < |moves| ==> Ready(moves, o[..p], o[p])
  }

  /** The start units along `a` come lexicographically before those along `b`. */
  ghost predicate UnitsBefore(moves: seq<Move>, a: seq<nat>, b: seq<nat>)
    requires |a| == |b|
  {
    exists p :: 0 <= p < |a|
      && (forall q :: 0 <= q < p ==> StartUnit(moves, a[q]) == StartUnit(moves, b[q]))
      && StartUnit(moves, a[p]) < StartUnit(moves, b[p])
  }

  lemma {:induction false} FirstDifference(a: seq<nat>, b: seq<nat>) returns (p: nat)
    requires |a| == |b| && a != b
    ensures p < |a| && a[..p] == b[..p] && a[p] != b[p]
  {
    p := 0;
    assert a[..|a|] == a && b[..|b|] == b;
    while p < |a| && a[p] == b[p]
      invariant 0 <= p <= |a| && a[..p] == b[..p]
    {
      p := p + 1;
    }
  }

  /** Where a valid order departs from the greedy one, it starts in a unit at least as high. */
  lemma {:induction false} GreedyIsNoHigher(moves: seq<Move>, order: seq<nat>, o: seq<nat>, p: nat)
    requires p < |order| && p < |o| && order[..p] == o[..p] && GreedyAt(moves, order, p)
    requires IsPermutation(o, |moves|) && Ready(moves, o[..p], o[p])
    ensures StartUnit(moves, order[p]) <= StartUnit(moves, o[p])
  {
    forall q | 0 <= q < p ensures o[..p][q] != o[p] {
      assert o[..p][q] == o[q];
    }
  }

  /** Without cycles and with distinct start units, the output is the least of all valid orders by start unit. */
  lemma {:induction false} LeastOrder(moves: seq<Move>, order: seq<nat>, o: seq<nat>)
    requires IsSchedule(moves, order, |moves|) && IsTopological(moves, o)
    requires forall i: nat, j: nat :: i < j < |moves| ==> StartUnit(moves, i) != StartUnit(moves, j)
    ensures o == order || UnitsBefore(moves, order, o)
  {
    if o != order {
      var p := FirstDifference(order, o);
      assert GreedyAt(moves, order, p);
      GreedyIsNoHigher(moves, order, o, p);
      forall q | 0 <= q < p ensures order[q] == o[q] {
        assert order[..p][q] == o[..p][q];
      }
    }
  }

  /** Without cycles the output is itself a valid order. */
  lemma {:induction false} ScheduleIsTopological(moves: seq<Move>, order: seq<nat>)
    requires IsSchedule(moves, order, |moves|)
    ensures IsTopological(moves, order)
  {
    forall p | 0 <= p < |moves| ensures Ready(moves, order[..p], order[p]) {
      assert GreedyAt(moves, order, p);
    }
  }
}
