/** Ordering moves so that slots are vacated before they are filled: Kahn's algorithm with a fallback (org/diff.go). */
module MoveOrder {
  import opened Basics
  import StableSorting
  import opened SlotMoves

  /** Move `y` must come before move `x`: it starts in the slot where `x` ends. */
  predicate Blocks(moves: seq<Move>, y: nat, x: nat) {
    && y < |moves| && x < |moves| && y != x
    && moves[y].start.Some? && moves[x].end.Some?
    && SlotOf(moves[y].start.value) == SlotOf(moves[x].end.value)
  }

  function StartUnit(moves: seq<Move>, i: nat): int {
    if i < |moves| && moves[i].start.Some? then moves[i].start.value.unit else 0
  }

  function ByUnit(moves: seq<Move>): (nat, nat) -> bool {
    (a: nat, b: nat) => StartUnit(moves, a) < StartUnit(moves, b)
  }

  /** `order` lists every index below `n` exactly once. */
  ghost predicate IsPermutation(order: seq<nat>, n: nat) {
    && |order| == n
    && (forall p :: 0 <= p < n ==> order[p] < n)
    && (forall p, q :: 0 <= p < q < n ==> order[p] != order[q])
    && (forall x: nat :: x < n ==> x in order)
  }

  /** Everything that blocks `x` is among `done`. */
  ghost predicate Ready(moves: seq<Move>, done: seq<nat>, x: nat) {
    forall y: nat :: Blocks(moves, y, x) ==> y in done
  }

  /** A valid next choice: ready, not taken yet, and no other such move starts in a lower unit. */
  ghost predicate GreedyAt(moves: seq<Move>, order: seq<nat>, p: nat)
    requires p < |order|
  {
    && Ready(moves, order[..p], order[p])
    && forall r: nat :: r < |moves| && r !in order[..p] && Ready(moves, order[..p], r) ==>
         StartUnit(moves, order[p]) <= StartUnit(moves, r)
  }

  /** The moves left over, in index order. */
  function Unvisited(done: seq<nat>, n: nat): seq<nat> {
    if n == 0 then [] else Unvisited(done, n - 1) + (if n - 1 in done then [] else [n - 1])
  }

  /**
   * What OrderSlotMoves computes: `k` moves picked greedily from the ready ones, then the fallback,
   * moves that each wait for another one of the fallback, sorted by start unit.
   */
  ghost predicate IsSchedule(moves: seq<Move>, order: seq<nat>, k: nat) {
    && IsPermutation(order, |moves|)
    && k <= |order|
    && IsGreedy(moves, order, k)
    && AllWait(moves, order, k)
    && order[k..] == StableSorting.Sort(ByUnit(moves), Unvisited(order[..k], |moves|))
  }

  predicate AllUnder(order: seq<nat>, n: nat) {
    forall p :: 0 <= p < |order| ==> order[p] < n
  }

  ghost predicate IsGreedy(moves: seq<Move>, order: seq<nat>, k: nat)
    requires k <= |order|
  {
    forall p :: 0 <= p < k ==> GreedyAt(moves, order, p)
  }

  ghost predicate AllWait(moves: seq<Move>, order: seq<nat>, k: nat) {
    forall p :: k <= p < |order| ==> Waits(moves, order, k, p)
  }

  ghost predicate Waits(moves: seq<Move>, order: seq<nat>, k: nat, p: nat)
    requires p < |order|
  {
    exists q :: k <= q < |order| && Blocks(moves, order[q], order[p])
  }

  // ---- The algorithm ----

  /** How many of the first `n` moves block `x` and are not done. */
  ghost function Waiting(moves: seq<Move>, x: nat, done: seq<nat>, n: nat): nat {
    if n == 0 then 0 else Waiting(moves, x, done, n - 1) + (if Blocks(moves, n - 1, x) && n - 1 !in done then 1 else 0)
  }

  /** The moves that wait for `y`, among the first `n`. */
  function Targets(moves: seq<Move>, y: nat, n: nat): seq<nat> {
    if n == 0 then [] else Targets(moves, y, n - 1) + (if Blocks(moves, y, n - 1) then [n - 1] else [])
  }

  lemma {:induction false} TargetsAre(moves: seq<Move>, y: nat, n: nat)
    ensures forall x: nat :: x in Targets(moves, y, n) <==> x < n && Blocks(moves, y, x)
    ensures forall i, j :: 0 <= i < j < |Targets(moves, y, n)| ==> Targets(moves, y, n)[i] != Targets(moves, y, n)[j]
  {
    if n > 0 { TargetsAre(moves, y, n - 1); }
  }

  /** The inner loop: every move that move `y` blocks. */
  method AddRow(moves: seq<Move>, y: nat, adj: array<seq<nat>>, inDegree: array<nat>)
    requires y < |moves| == adj.Length == inDegree.Length && adj[y] == []
    requires forall v :: 0 <= v < |moves| ==> inDegree[v] == Waiting(moves, v, [], y)
    modifies adj, inDegree
    ensures adj[y] == Targets(moves, y, |moves|)
    ensures forall v :: 0 <= v < |moves| && v != y ==> adj[v] == old(adj[v])
    ensures forall v :: 0 <= v < |moves| ==> inDegree[v] == Waiting(moves, v, [], y + 1)
  {
    for x := 0 to |moves|
      invariant adj[y] == Targets(moves, y, x)
      invariant forall v :: 0 <= v < |moves| && v != y ==> adj[v] == old(adj[v])
      invariant forall v :: 0 <= v < x ==> inDegree[v] == Waiting(moves, v, [], y + 1)
      invariant forall v :: x <= v < |moves| ==> inDegree[v] == Waiting(moves, v, [], y)
    {
      if y != x && moves[y].start.Some? && moves[x].end.Some? {
        var startY, endX := moves[y].start.value, moves[x].end.value;
        if startY.unit == endX.unit && startY.space == endX.space {
          adj[y] := adj[y] + [x];
          inDegree[x] := inDegree[x] + 1;
        }
      }
    }
  }

  method BuildGraph(moves: seq<Move>) returns (adj: array<seq<nat>>, inDegree: array<nat>)
    ensures fresh(adj) && fresh(inDegree) && adj.Length == inDegree.Length == |moves|
    ensures forall y :: 0 <= y < |moves| ==> adj[y] == Targets(moves, y, |moves|)
    ensures forall x :: 0 <= x < |moves| ==> inDegree[x] == Waiting(moves, x, [], |moves|)
  {
    var n := |moves|;
    adj := new seq<nat>[n](_ => []);
    inDegree := new nat[n](_ => 0);
    for y := 0 to n
      invariant forall v :: 0 <= v < y ==> adj[v] == Targets(moves, v, n)
      invariant forall v :: y <= v < n ==> adj[v] == []
      invariant forall v :: 0 <= v < n ==> inDegree[v] == Waiting(moves, v, [], y)
    {
      AddRow(moves, y, adj, inDegree);
    }
  }

  /** The state of Kahn's loop. */
  ghost predicate KahnState(moves: seq<Move>, order: seq<nat>, queue: seq<nat>, degrees: seq<nat>) {
    && |degrees| == |moves|
    && (forall x :: 0 <= x < |moves| ==> degrees[x] == Waiting(moves, x, order, |moves|))
    && Queued(moves, order, queue, degrees)
    && AllUnder(order, |moves|)
    && IsGreedy(moves, order, |order|)
    && Distinct(order)
  }

  /** The queue holds, once each, the moves with no blocker left that are not in the order yet. */
  ghost predicate Queued(moves: seq<Move>, order: seq<nat>, queue: seq<nat>, degrees: seq<nat>)
    requires |degrees| == |moves|
  {
    && (forall i, j :: 0 <= i < j < |queue| ==> queue[i] != queue[j])
    && (forall x: nat :: x in queue <==> x < |moves| && x !in order && degrees[x] == 0)
  }

  lemma {:induction false} NoneWaiting(moves: seq<Move>, x: nat, done: seq<nat>, n: nat)
    ensures Waiting(moves, x, done, n) == 0 <==> forall y: nat :: y < n && Blocks(moves, y, x) ==> y in done
  {
    if n > 0 { NoneWaiting(moves, x, done, n - 1); }
  }

  lemma {:induction false} WaitingNone(moves: seq<Move>, x: nat, done: seq<nat>)
    ensures Waiting(moves, x, done, |moves|) == 0 <==> Ready(moves, done, x)
  {
    NoneWaiting(moves, x, done, |moves|);
  }

  lemma {:induction false} WaitingShrinks(moves: seq<Move>, x: nat, done: seq<nat>, y: nat, n: nat)
    requires y !in done
    ensures Waiting(moves, x, done, n) ==
      Waiting(moves, x, done + [y], n) + (if y < n && Blocks(moves, y, x) then 1 else 0)
  {
    if n > 0 {
      WaitingShrinks(moves, x, done, y, n - 1);
      assert n - 1 in done + [y] <==> n - 1 in done || n - 1 == y;
    }
  }

  /** The remaining blockers while `curr` is being taken, its targets in `seen` done. */
  ghost predicate Counted(moves: seq<Move>, degrees: seq<nat>, order: seq<nat>, curr: nat, seen: seq<nat>) {
    && |degrees| == |moves|
    && forall x :: 0 <= x < |moves| ==>
      degrees[x] == Waiting(moves, x, if x in seen then order + [curr] else order, |moves|)
  }

  lemma {:induction false} CountedAll(moves: seq<Move>, degrees: seq<nat>, order: seq<nat>, curr: nat)
    requires Counted(moves, degrees, order, curr, Targets(moves, curr, |moves|)) && curr !in order
    ensures forall x :: 0 <= x < |moves| ==> degrees[x] == Waiting(moves, x, order + [curr], |moves|)
  {
    TargetsAre(moves, curr, |moves|);
    forall x | 0 <= x < |moves| ensures degrees[x] == Waiting(moves, x, order + [curr], |moves|) {
      WaitingShrinks(moves, x, order, curr, |moves|);
    }
  }

  ghost predicate Releasing(moves: seq<Move>, degrees: seq<nat>, order: seq<nat>, curr: nat, seen: seq<nat>,
                            queue: seq<nat>) {
    Counted(moves, degrees, order, curr, seen) && Queued(moves, order + [curr], queue, degrees)
  }

  lemma {:induction false} ReleaseStep(moves: seq<Move>, degrees: seq<nat>, order: seq<nat>, curr: nat,
                                       targets: seq<nat>, t: nat, queue: seq<nat>)
    requires curr !in order && targets == Targets(moves, curr, |moves|) && t < |targets|
    requires IsGreedy(moves, order, |order|)
    requires Releasing(moves, degrees, order, curr, targets[..t], queue)
    ensures targets[t] < |degrees| && degrees[targets[t]] > 0
    ensures var left := degrees[targets[t]] - 1;
      Releasing(moves, degrees[targets[t] := left], order, curr, targets[..t + 1],
                if left == 0 then queue + [targets[t]] else queue)
  {
    var next := targets[t];
    TargetsAre(moves, curr, |moves|);
    assert Targets(moves, curr, |moves|)[t] in Targets(moves, curr, |moves|);
    NotDoneYet(moves, order, curr, next);
    WaitingShrinks(moves, next, order, curr, |moves|);
    assert targets[..t + 1] == targets[..t] + [next];
  }

  /**
   * Taking move `curr`: every move that waits for it has one blocker less, and joins the queue when that was the last.
   */
  method Release(moves: seq<Move>, ghost order: seq<nat>, curr: nat, targets: seq<nat>, queue: seq<nat>,
                 inDegree: array<nat>)
    returns (released: seq<nat>)
    requires inDegree.Length == |moves| && curr < |moves| && curr !in order
    requires targets == Targets(moves, curr, |moves|)
    requires Releasing(moves, inDegree[..], order, curr, [], queue)
    requires IsGreedy(moves, order, |order|)
    modifies inDegree
    ensures Releasing(moves, inDegree[..], order, curr, targets, released)
  {
    released := queue;
    assert targets[..0] == [] && targets[..|targets|] == targets;
    for t := 0 to |targets|
      invariant Releasing(moves, inDegree[..], order, curr, targets[..t], released)
    {
      ReleaseStep(moves, inDegree[..], order, curr, targets, t, released);
      var next := targets[t];
      ghost var was := inDegree[..];
      inDegree[next] := inDegree[next] - 1;
      assert inDegree[..] == was[next := was[next] - 1];
      if inDegree[next] == 0 {
        released := released + [next];
      }
    }
  }

  /** A move that waits for `curr` cannot have been taken before it. */
  lemma {:induction false} NotDoneYet(moves: seq<Move>, order: seq<nat>, curr: nat, next: nat)
    requires Blocks(moves, curr, next) && curr !in order
    requires IsGreedy(moves, order, |order|)
    ensures next !in order + [curr]
  {
    forall p | 0 <= p < |order| ensures !Blocks(moves, curr, order[p]) {
      assert curr !in order[..p];
      assert GreedyAt(moves, order, p);
    }
  }

  function SortQueue(moves: seq<Move>, queue: seq<nat>): seq<nat> {
    StableSorting.Sort(ByUnit(moves), queue)
  }

  lemma {:induction false} SortedQueue(moves: seq<Move>, queue: seq<nat>)
    requires queue != [] && forall i, j :: 0 <= i < j < |queue| ==> queue[i] != queue[j]
    ensures var s := SortQueue(moves, queue);
      && |s| == |queue| && (forall x :: x in queue <==> x in s)
      && (forall i, j :: 0 <= i < j < |s| ==> s[i] != s[j])
      && (forall x :: x in queue ==> StartUnit(moves, s[0]) <= StartUnit(moves, x))
  {
    StableSorting.SortPermutes(ByUnit(moves), queue);
    StableSorting.SortHeadIsLeast(ByUnit(moves), queue);
    var s := SortQueue(moves, queue);
    StableSorting.SamePermutation(queue, s);
    forall x | x in queue ensures StartUnit(moves, s[0]) <= StartUnit(moves, x) {
      assert !ByUnit(moves)(x, s[0]);
    }
  }

  /** The head of the sorted queue is a greedy choice. */
  lemma {:induction false} HeadIsGreedy(moves: seq<Move>, order: seq<nat>, queue: seq<nat>, degrees: seq<nat>,
                                        s: seq<nat>, next: seq<nat>)
    requires KahnState(moves, order, queue, degrees) && queue != []
    requires s == SortQueue(moves, queue) && s != [] && next == order + [s[0]]
    ensures |s| == |queue| && s[0] < |moves| && s[0] !in order
    ensures AllUnder(next, |moves|) && IsGreedy(moves, next, |next|)
    ensures Queued(moves, next, s[1..], degrees)
  {
    SortedQueue(moves, queue);
    var curr := s[0];
    assert curr in queue;
    WaitingNone(moves, curr, order);
    assert next[..|order|] == order;
    forall r: nat | r < |moves| && r !in order && Ready(moves, order, r)
      ensures StartUnit(moves, curr) <= StartUnit(moves, r)
    {
      WaitingNone(moves, r, order);
      assert r in queue;
    }
    forall p | 0 <= p < |next| ensures GreedyAt(moves, next, p) {
      if p < |order| { assert next[..p] == order[..p] && GreedyAt(moves, order, p); }
    }
    assert s == [curr] + s[1..];
  }

  ghost predicate Distinct(order: seq<nat>) {
    forall p, q :: 0 <= p < q < |order| ==> order[p] != order[q]
  }

  /** Kahn's loop: takes ready moves until there is none left. */
  method Kahn(moves: seq<Move>) returns (order: seq<nat>)
    ensures |order| <= |moves|
    ensures AllUnder(order, |moves|) && IsGreedy(moves, order, |order|)
    ensures Distinct(order)
    ensures forall x: nat :: x < |moves| && x !in order ==> !Ready(moves, order, x)
  {
    var n := |moves|;
    var adj, inDegree := BuildGraph(moves);
    order := [];
    var queue: seq<nat> := [];
    for i := 0 to n
      invariant forall a, b :: 0 <= a < b < |queue| ==> queue[a] != queue[b]
      invariant forall x: nat :: x in queue <==> x < i && inDegree[x] == 0
    {
      if inDegree[i] == 0 { queue := queue + [i]; }
    }
    DistinctBelow(order, n);
    while |queue| > 0
      invariant forall y :: 0 <= y < n ==> adj[y] == Targets(moves, y, n)
      invariant KahnState(moves, order, queue, inDegree[..])
      invariant |order| <= n
      decreases n - |order|
    {
      var sorted := SortQueue(moves, queue);
      SortedQueue(moves, queue);
      var curr := sorted[0];
      HeadIsGreedy(moves, order, queue, inDegree[..], sorted, order + [sorted[0]]);
      queue := Release(moves, order, curr, adj[curr], sorted[1..], inDegree);
      CountedAll(moves, inDegree[..], order, curr);
      DistinctBelow(order + [curr], |moves|);
      order := order + [curr];
    }
    forall x: nat | x < n && x !in order ensures !Ready(moves, order, x) {
      WaitingNone(moves, x, order);
      assert x !in queue;
      assert inDegree[..][x] == inDegree[x];
    }
  }

  /** Distinct numbers below `n` are at most `n` many. */
  lemma {:induction false} DistinctBelow(s: seq<nat>, n: nat)
    requires AllUnder(s, n)
    requires Distinct(s)
    ensures |s| <= n
    ensures |s| == n ==> forall x: nat :: x < n ==> x in s
  {
    var members := set i | 0 <= i < |s| :: s[i];
    DistinctCount(s);
    var below := Below(n);
    assert members <= below;
    SubsetSize(members, below);
    if |s| == n {
      forall x: nat | x < n ensures x in s {
        if x !in members { SubsetSize(members, below - {x}); }
      }
    }
  }

  lemma {:induction false} DistinctCount(s: seq<nat>)
    requires Distinct(s)
    ensures |set i | 0 <= i < |s| :: s[i]| == |s|
  {
    if s != [] {
      var init := s[..|s| - 1];
      DistinctCount(init);
      assert (set i | 0 <= i < |s| :: s[i]) == (set i | 0 <= i < |init| :: init[i]) + {s[|s| - 1]};
    }
  }

  function Below(n: nat): (s: set<nat>)
    ensures forall x: nat :: x in s <==> x < n
    ensures |s| == n
  {
    if n == 0 then {} else Below(n - 1) + {n - 1}
  }

  lemma {:induction false} UnvisitedAre(done: seq<nat>, n: nat)
    ensures forall x: nat :: x in Unvisited(done, n) <==> x < n && x !in done
    ensures forall i, j :: 0 <= i < j < |Unvisited(done, n)| ==> Unvisited(done, n)[i] != Unvisited(done, n)[j]
  {
    if n > 0 { UnvisitedAre(done, n - 1); }
  }

  /** Taken and left-over moves together are all moves, once each. */
  lemma {:induction false} JoinedPermutation(done: seq<nat>, rest: seq<nat>, n: nat)
    requires AllUnder(done, n)
    requires Distinct(done)
    requires forall p, q :: 0 <= p < q < |rest| ==> rest[p] != rest[q]
    requires forall x: nat :: x in rest <==> x < n && x !in done
    ensures IsPermutation(done + rest, n)
  {
    var order := done + rest;
    forall x: nat | x < n ensures x in order {
      if x !in done { assert x in rest; }
    }
    forall p | 0 <= p < |order| ensures order[p] < n {
      if p >= |done| { assert order[p] in rest; }
    }
    forall p, q | 0 <= p < q < |order| ensures order[p] != order[q] {
      if p < |done| <= q { assert order[q] in rest && order[p] in done; }
    }
    DistinctBelow(order, n);
    AllBelow(order, n);
  }

  lemma {:induction false} GreedyPrefix(moves: seq<Move>, done: seq<nat>, rest: seq<nat>)
    requires AllUnder(done, |moves|) && IsGreedy(moves, done, |done|)
    ensures IsGreedy(moves, done + rest, |done|)
  {
    forall p | 0 <= p < |done| ensures GreedyAt(moves, done + rest, p) {
      assert (done + rest)[..p] == done[..p] && GreedyAt(moves, done, p);
    }
  }

  lemma {:induction false} SortedLeftover(moves: seq<Move>, done: seq<nat>)
    ensures var rest := SortQueue(moves, Unvisited(done, |moves|));
      && (forall p, q :: 0 <= p < q < |rest| ==> rest[p] != rest[q])
      && (forall x: nat :: x in rest <==> x < |moves| && x !in done)
  {
    UnvisitedAre(done, |moves|);
    StableSorting.SortPermutes(ByUnit(moves), Unvisited(done, |moves|));
    StableSorting.SamePermutation(Unvisited(done, |moves|), SortQueue(moves, Unvisited(done, |moves|)));
  }

  /** What Kahn's loop leaves behind, sorted, completes a schedule. */
  lemma {:induction false} FallbackCompletes(moves: seq<Move>, done: seq<nat>, rest: seq<nat>)
    requires AllUnder(done, |moves|) && IsGreedy(moves, done, |done|)
    requires Distinct(done)
    requires forall x: nat :: x < |moves| && x !in done ==> !Ready(moves, done, x)
    requires rest == SortQueue(moves, Unvisited(done, |moves|))
    ensures IsSchedule(moves, done + rest, |done|)
  {
    SortedLeftover(moves, done);
    JoinedPermutation(done, rest, |moves|);
    GreedyPrefix(moves, done, rest);
    FallbackAllWaits(moves, done, rest);
    assert (done + rest)[..|done|] == done && (done + rest)[|done|..] == rest;
  }

  lemma {:induction false} FallbackAllWaits(moves: seq<Move>, done: seq<nat>, rest: seq<nat>)
    requires forall x: nat :: x < |moves| && x !in done ==> !Ready(moves, done, x)
    requires forall x: nat :: x in rest <==> x < |moves| && x !in done
    ensures AllWait(moves, done + rest, |done|)
  {
    forall p | |done| <= p < |done + rest| ensures Waits(moves, done + rest, |done|, p) {
      var q := FallbackWaits(moves, done, rest, p - |done|);
      assert (done + rest)[|done| + q] == rest[q];
    }
  }

  lemma {:induction false} FallbackWaits(moves: seq<Move>, done: seq<nat>, rest: seq<nat>, i: nat) returns (q: nat)
    requires i < |rest|
    requires forall x: nat :: x < |moves| && x !in done ==> !Ready(moves, done, x)
    requires forall x: nat :: x in rest <==> x < |moves| && x !in done
    ensures q < |rest| && Blocks(moves, rest[q], rest[i])
  {
    assert rest[i] in rest;
    var y: nat :| Blocks(moves, y, rest[i]) && y !in done;
    assert y in rest;
    q :| 0 <= q < |rest| && rest[q] == y;
  }

  /** Distinct numbers that include everything below `n` are at least `n` many. */
  lemma {:induction false} AllBelow(s: seq<nat>, n: nat)
    requires forall x: nat :: x < n ==> x in s
    requires Distinct(s)
    ensures |s| >= n
  {
    var members := set i | 0 <= i < |s| :: s[i];
    DistinctCount(s);
    forall x <- Below(n) ensures x in members {
      assert x in s;
      var i :| 0 <= i < |s| && s[i] == x;
    }
    SubsetSize(Below(n), members);
  }

  lemma {:induction false} NoneUnvisited(done: seq<nat>, n: nat)
    requires forall x: nat :: x < n ==> x in done
    ensures Unvisited(done, n) == []
  {
    if n > 0 { NoneUnvisited(done, n - 1); }
  }

  method OrderSlotMoves(moves: seq<Move>) returns (ordered: seq<Move>, ghost order: seq<nat>, ghost k: nat)
    ensures IsSchedule(moves, order, k) && ordered == Pick(moves, order)
  {
    var n := |moves|;
    if n <= 1 {
      ordered, order, k := moves, if n == 0 then [] else [0], n;
      return;
    }
    var done := Kahn(moves);
    var rest: seq<nat> := [];
    if |done| < n {
      rest := Leftover(moves, done);
    } else {
      DistinctBelow(done, n);
      NoneUnvisited(done, n);
    }
    FallbackCompletes(moves, done, rest);
    order, k := done + rest, |done|;
    ordered := Pick(moves, done + rest);
  }

  /** The moves at the given positions. */
  function Pick(moves: seq<Move>, order: seq<nat>): seq<Move>
    requires forall p :: 0 <= p < |order| ==> order[p] < |moves|
  {
    seq(|order|, p requires 0 <= p < |order| => moves[order[p]])
  }

  /** The fallback: the moves not taken, by start unit. */
  method Leftover(moves: seq<Move>, done: seq<nat>) returns (rest: seq<nat>)
    ensures rest == SortQueue(moves, Unvisited(done, |moves|))
  {
    var cycleMoves: seq<nat> := [];
    for i := 0 to |moves|
      invariant cycleMoves == Unvisited(done, i)
    {
      if i !in done { cycleMoves := cycleMoves + [i]; }
    }
    rest := SortQueue(moves, cycleMoves);
  }
}
