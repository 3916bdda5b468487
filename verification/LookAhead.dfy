/** SPILL_BREAK_ORDERING: when the look-ahead can place an element twice. */
module LookAhead {
  import opened ShelfModel
  import opened Packing
  import opened FirstFit
  import opened Windows

  /** No id is placed more than once. */
  ghost predicate PlacedOnce(p: Job, out: seq<Slotting>) {
    forall a, b :: 0 <= a < b < |out| && out[a].elem < |p.elems| && out[b].elem < |p.elems| ==>
      p.elems[out[a].elem].id != p.elems[out[b].elem].id
  }

  lemma {:induction false} EmptyWindowIsNoSpill(p: Job, st: State)
    requires Inside(p, st) && p.spill == BreakOrdering(0)
    ensures Inside(p.(spill := NoSpill), st) && Run(p, st) == Run(p.(spill := NoSpill), st)
    decreases |p.elems| - st.i, |p.spaces| - st.slot, UnitsLeft(p, st)
  {
    var p' := p.(spill := NoSpill);
    if st.i < |p.elems| {
      StepProgress(p, st);
      assert Fill(p, st, st.i + 1, p.Edge(st.i)) == st == Fill(p', st, st.i + 1, p'.Edge(st.i));
      assert Step(p, st) == Step(p', st);
      EmptyWindowIsNoSpill(p, Step(p, st));
    }
  }

  lemma {:induction false} KeptIdsDiffer(elems: seq<Element>, n: nat)
    requires n <= |elems|
    ensures forall a, b :: 0 <= a < b < |Kept(elems, n)| ==>
      && Kept(elems, n)[a] < |elems| && Kept(elems, n)[b] < |elems|
      && elems[Kept(elems, n)[a]].id != elems[Kept(elems, n)[b]].id
  {
    KeptBelow(elems, n);
    if n > 0 {
      KeptIdsDiffer(elems, n - 1);
      KeptBelow(elems, n - 1);
    }
  }

  /** Without look-ahead no id is placed twice, whether or not ids clash. */
  lemma {:induction false} NoSpillPlacesOnce(p: Job)
    requires EndsInSpill(p.spaces) && p.spill.NoSpill?
    ensures PlacedOnce(p, Pack(p))
  {
    PackIsFirstFit(p);
    ElemsAt(Pack(p));
    KeptIdsDiffer(p.elems, |p.elems|);
    forall a, b | 0 <= a < b < |Pack(p)| && Pack(p)[a].elem < |p.elems| && Pack(p)[b].elem < |p.elems|
      ensures p.elems[Pack(p)[a].elem].id != p.elems[Pack(p)[b].elem].id
    {
      assert Kept(p.elems, |p.elems|)[a] == Pack(p)[a].elem && Kept(p.elems, |p.elems|)[b] == Pack(p)[b].elem;
    }
  }

  function Wide(iid: int, width: real): Element {
    Element([Record(iid, 0, 0, 0, 0, "", "", "", [], width, "")], iid)
  }

  /** A box set too wide for the shelf, and a single that fits anywhere. */
  function BoxSetJob(lookAhead: int): Job {
    Job([Wide(1, 5.0), Wide(2, 0.5)], [Space("Shelf", Finite(1.0), 2), Space(SPILL_NAME, Unbounded, 1)],
        Measure(Width, map[], 0.0), BreakOrdering(lookAhead))
  }

  /** With any look-ahead the single is placed in both units of the shelf while the box set looks for room. */
  lemma {:induction false} BoxSetPlacesTwice(lookAhead: int)
    requires lookAhead != 0
    ensures EndsInSpill(BoxSetJob(lookAhead).spaces) && !PlacedOnce(BoxSetJob(lookAhead), Pack(BoxSetJob(lookAhead)))
  {
    var p := BoxSetJob(lookAhead);
    assert p.Edge(0) == 2;
    var first := Slotting(1, Pos(0, 1), 1, 0.5);
    var second := Slotting(1, Pos(0, 2), 2, 0.5);
    var s1 := State(0, 0, 2, 0.0, 1, {2}, [first]);
    var s2 := State(0, 1, 1, 0.0, 2, {2}, [first, second]);
    var s3 := State(1, 1, 1, 5.0, 3, {2, 1}, [first, second, Slotting(0, Pos(1, 1), 3, 5.0)]);
    assert Step(p, START) == s1 by {
      assert Fill(p, Put(p, START, 1), 2, 2) == Put(p, START, 1);
    }
    assert Step(p, s1) == s2 by {
      assert Fill(p, Put(p, s1, 1), 2, 2) == Put(p, s1, 1);
    }
    assert Step(p, s2) == s3;
    assert Step(p, s3) == Next(s3);
    assert Run(p, START) == Run(p, s1) == Run(p, s2) == Run(p, s3) == Run(p, Next(s3)) == Next(s3);
    assert p.elems[s3.out[0].elem].id == p.elems[s3.out[1].elem].id;
  }

  /** A look-ahead setting places every element exactly once, whatever the records and shelves, only if it is 0. */
  lemma {:induction false} LookAheadPlacesOnceIff(lookAhead: int)
    ensures (forall p: Job :: EndsInSpill(p.spaces) && p.spill == BreakOrdering(lookAhead) ==> PlacedOnce(p, Pack(p)))
      <==> lookAhead == 0
  {
    if lookAhead == 0 {
      forall p: Job | EndsInSpill(p.spaces) && p.spill == BreakOrdering(0) ensures PlacedOnce(p, Pack(p)) {
        EmptyWindowIsNoSpill(p, START);
        NoSpillPlacesOnce(p.(spill := NoSpill));
      }
    } else {
      BoxSetPlacesTwice(lookAhead);
    }
  }

  // ---- Which elements a look-ahead places exactly once ----

  /** Inside every window, no element is narrower than the one that opens it. */
  ghost predicate WindowsOrdered(p: Job) {
    forall i: nat, j: nat :: InWindow(p, i, j) ==> p.Width(j) >= p.Width(i)
  }

  lemma {:induction false} FillsNothing(p: Job, st: State, j: nat, edge: int)
    requires st.slot < |p.spaces| && edge <= |p.elems|
    requires forall m: nat :: j <= m < edge ==> !Placeable(p, st, m)
    ensures Fill(p, st, j, edge) == st
    decreases edge - j
  {
    if j < edge {
      assert !Placeable(p, st, j);
      FillsNothing(p, st, j + 1, edge);
    }
  }

  /** When what follows is no narrower, the look-ahead never finds anything to place. */
  lemma {:induction false} OrderedWindowsAreNoSpill(p: Job, st: State)
    requires Inside(p, st) && WindowsOrdered(p)
    ensures Inside(p.(spill := NoSpill), st) && Run(p, st) == Run(p.(spill := NoSpill), st)
    decreases |p.elems| - st.i, |p.spaces| - st.slot, UnitsLeft(p, st)
  {
    var p' := p.(spill := NoSpill);
    if st.i < |p.elems| {
      StepProgress(p, st);
      if !Fits(st.load + p.Width(st.i), p.spaces[st.slot].capacity) {
        WindowEnds(p, st.i);
        FillsNothing(p, st, st.i + 1, p.Edge(st.i));
        assert Fill(p', st, st.i + 1, p'.Edge(st.i)) == st;
      }
      assert Step(p, st) == Step(p', st);
      OrderedWindowsAreNoSpill(p, Step(p, st));
    }
  }

  /** The width of the first `n` elements. */
  function Total(p: Job, n: nat): real
    requires n <= |p.elems|
  {
    if n == 0 then 0.0 else Total(p, n - 1) + p.Width(n - 1)
  }

  lemma {:induction false} TotalGrows(p: Job, m: nat, n: nat)
    requires m <= n <= |p.elems| && forall k :: 0 <= k < |p.elems| ==> p.Width(k) >= 0.0
    ensures 0.0 <= Total(p, m) <= Total(p, n)
  {
    if m < n {
      TotalGrows(p, m, n - 1);
    } else if m > 0 {
      TotalGrows(p, m - 1, m - 1);
    }
  }

  /** A shelf that the first `i` elements leave room for element `j` on, and another one for `j` alone. */
  function TwoShelves(p: Job, i: nat, j: nat): Job
    requires i < |p.elems| && j < |p.elems|
  {
    p.(spaces := [
      Space("First", Finite(Total(p, i) + p.Width(j)), 1), Space("Second", Finite(p.Width(j)), 1),
      Space(SPILL_NAME, Unbounded, 1)])
  }

  /** Ids placed so far belong to elements other than `i`. */
  ghost predicate NotYet(p: Job, st: State, i: nat)
    requires i < |p.elems|
  {
    p.elems[i].id !in st.placed
  }

  /** The first element of the window that fits is placed, and the element that opened the window is not. */
  lemma {:induction false} FillReaches(p: Job, st: State, from: nat, j: nat, edge: int, i: nat)
    requires from <= j < edge <= |p.elems| && i < from && DistinctIds(p.elems) && NotYet(p, st, i)
    requires Placeable(p, st, j) && forall m: nat :: from <= m < j ==> !Placeable(p, st, m)
    ensures var f := Fill(p, st, from, edge);
      && NotYet(p, f, i) && |f.out| > |st.out| && st.out <= f.out && f.out[|st.out|].elem == j
    decreases j - from
  {
    if from < j {
      assert !Placeable(p, st, from);
      FillReaches(p, st, from + 1, j, edge, i);
    } else {
      FillNotYet(p, Put(p, st, j), j + 1, edge, i);
    }
  }

  lemma {:induction false} FillNotYet(p: Job, st: State, j: nat, edge: int, i: nat)
    requires st.slot < |p.spaces| && edge <= |p.elems| && i < j && i < |p.elems|
    requires DistinctIds(p.elems) && NotYet(p, st, i)
    ensures NotYet(p, Fill(p, st, j, edge), i)
    decreases edge - j
  {
    if j < edge {
      FillNotYet(p, Put(p, st, j), j + 1, edge, i);
      FillNotYet(p, st, j + 1, edge, i);
    }
  }

  /** The loop in front of element `i`, with the first `i` elements on the first shelf. */
  lemma {:induction false} TakesFirst(p: Job, i: nat, j: nat, n: nat) returns (st: State)
    requires n <= i < |p.elems| && j < |p.elems| && DistinctIds(p.elems)
    requires forall k :: 0 <= k < |p.elems| ==> p.Width(k) >= 0.0
    ensures var q := TwoShelves(p, i, j);
      && Inside(q, st) && Run(q, START) == Run(q, st)
      && st.i == n && st.slot == 0 && st.unit == 1 && st.load == Total(p, n)
      && forall k :: n <= k < |p.elems| ==> NotYet(q, st, k)
  {
    var q := TwoShelves(p, i, j);
    if n == 0 {
      st := START;
    } else {
      var before := TakesFirst(p, i, j, n - 1);
      assert NotYet(q, before, n - 1);
      TotalGrows(p, n, i);
      assert q.Width(n - 1) == p.Width(n - 1) && q.Width(j) == p.Width(j);
      st := Next(Put(q, before, n - 1));
      assert Step(q, before) == st;
      forall k | n <= k < |p.elems| ensures NotYet(q, st, k) {
        assert NotYet(q, before, k) && p.elems[n - 1].id != p.elems[k].id;
      }
    }
  }

  /** One overfull unit: the element `j` from the window goes into it, and the loop moves on with element `i`. */
  lemma {:induction false} LooksAhead(q: Job, st: State, j: nat) returns (n: State)
    requires Inside(q, st) && InWindow(q, st.i, j)
    requires DistinctIds(q.elems) && NotYet(q, st, st.i)
    requires st.unit == 1 && q.spaces[st.slot].units == 1 && st.slot + 1 < |q.spaces|
    requires Placeable(q, st, j) && forall m: nat :: st.i <= m < j ==> !Placeable(q, st, m)
    ensures n == Step(q, st) && Inside(q, n) && Run(q, st) == Run(q, n)
    ensures n.i == st.i && n.slot == st.slot + 1 && n.unit == 1 && n.load == 0.0 && NotYet(q, n, st.i)
    ensures |n.out| > |st.out| && st.out <= n.out && n.out[|st.out|].elem == j
  {
    WindowEnds(q, st.i);
    FillReaches(q, st, st.i + 1, j, q.Edge(st.i), st.i);
    assert !Placeable(q, st, st.i);
    StepProgress(q, st);
    n := Step(q, st);
  }

  lemma {:induction false} SameWidths(p: Job, i: nat, j: nat)
    requires i < |p.elems| && j < |p.elems|
    ensures var q := TwoShelves(p, i, j);
      forall k :: 0 <= k < |p.elems| ==> q.Width(k) == p.Width(k)
  {
  }

  /** A narrower element in the window of a wider one can be placed twice. */
  lemma {:induction false} NarrowerPlacedTwice(p: Job, i: nat, j: nat)
    requires InWindow(p, i, j) && DistinctIds(p.elems)
    requires forall k :: 0 <= k < |p.elems| ==> p.Width(k) >= 0.0
    requires p.Width(j) < p.Width(i) && forall m: nat :: i < m < j ==> p.Width(m) >= p.Width(i)
    ensures EndsInSpill(TwoShelves(p, i, j).spaces)
    ensures !PlacedOnce(TwoShelves(p, i, j), Pack(TwoShelves(p, i, j)))
  {
    var q := TwoShelves(p, i, j);
    SameWidths(p, i, j);
    var st := TakesFirst(p, i, j, i);
    var one := LooksAhead(q, st, j);
    var two := LooksAhead(q, one, j);
    RunExtends(q, two);
    var a, b, out := |st.out|, |one.out|, Pack(q);
    assert two.out[a] == one.out[a] && out[a] == two.out[a] && out[b] == two.out[b];
  }

  /** The first narrower element of a window. */
  lemma {:induction false} FirstNarrower(p: Job, i: nat, j: nat) returns (f: nat)
    requires InWindow(p, i, j) && p.Width(j) < p.Width(i)
    ensures i < f <= j && p.Width(f) < p.Width(i) && forall m: nat :: i < m < f ==> p.Width(m) >= p.Width(i)
  {
    if m: nat :| i < m < j && p.Width(m) < p.Width(i) {
      f := FirstNarrower(p, i, m);
    } else {
      f := j;
    }
  }

  /**
   * With a look-ahead, elements with distinct ids are placed exactly once on every choice of shelves if and only if
   * inside every window no element is narrower than the one that opens it.
   */
  lemma {:induction false} WindowPlacesOnceIff(p: Job)
    requires p.spill.BreakOrdering? && DistinctIds(p.elems)
    requires forall k :: 0 <= k < |p.elems| ==> p.Width(k) >= 0.0
    ensures (forall spaces :: EndsInSpill(spaces) ==> PlacedOnce(p.(spaces := spaces), Pack(p.(spaces := spaces))))
      <==> WindowsOrdered(p)
  {
    if WindowsOrdered(p) {
      forall spaces | EndsInSpill(spaces) ensures PlacedOnce(p.(spaces := spaces), Pack(p.(spaces := spaces))) {
        var q := p.(spaces := spaces);
        assert forall k :: 0 <= k < |p.elems| ==> q.Width(k) == p.Width(k);
        OrderedWindowsAreNoSpill(q, START);
        NoSpillPlacesOnce(q.(spill := NoSpill));
      }
    } else {
      var i: nat, j: nat :| InWindow(p, i, j) && p.Width(j) < p.Width(i);
      var f := FirstNarrower(p, i, j);
      NarrowerPlacedTwice(p, i, f);
      var spaces := TwoShelves(p, i, f).spaces;
      assert p.(spaces := spaces) == TwoShelves(p, i, f);
    }
  }
}
