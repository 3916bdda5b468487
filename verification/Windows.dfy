/** SPILL_BREAK_ORDERING: what the look-ahead window may take, and what it must not leave behind. */
module Windows {
  import opened FirstFit
  import opened Packing
  import opened ShelfModel

  /** Element `m` is one that the look-ahead may try in place of element `i`. */
  predicate InWindow(p: Job, i: nat, m: nat) {
    i < m < |p.elems| && p.spill.BreakOrdering? && (p.spill.lookAhead < 0 || m <= i + p.spill.lookAhead)
  }

  lemma {:induction false} WindowEnds(p: Job, i: nat)
    requires i < |p.elems|
    ensures p.Edge(i) <= |p.elems|
    ensures forall m: nat :: i < m < p.Edge(i) <==> InWindow(p, i, m)
  {
  }

  // ---- Nothing is taken from behind the window ----

  /** What is placed ahead of element `i`, or of anything placed later, is at most `ahead` behind it. */
  ghost predicate AheadAtMost(st: State, ahead: int) {
    && (forall a :: 0 <= a < |st.out| ==> st.out[a].elem <= st.i + ahead)
    && (forall a, b :: 0 <= a < b < |st.out| ==> st.out[a].elem <= st.out[b].elem + ahead)
  }

  lemma {:induction false} FillAheadAtMost(p: Job, st: State, j: nat, edge: int, ahead: nat)
    requires st.slot < |p.spaces| && edge <= |p.elems| && AheadAtMost(st, ahead)
    requires st.i <= j && edge <= st.i + 1 + ahead
    ensures AheadAtMost(Fill(p, st, j, edge), ahead)
    decreases edge - j
  {
    if j < edge {
      FillAheadAtMost(p, st, j + 1, edge, ahead);
      if Placeable(p, st, j) { FillAheadAtMost(p, Put(p, st, j), j + 1, edge, ahead); }
    }
  }

  lemma {:induction false} StepAheadAtMost(p: Job, st: State, ahead: nat)
    requires Inside(p, st) && st.i < |p.elems| && p.spill == BreakOrdering(ahead) && AheadAtMost(st, ahead)
    ensures AheadAtMost(Step(p, st), ahead)
  {
    if p.elems[st.i].id !in st.placed {
      if !Fits(st.load + p.Width(st.i), p.spaces[st.slot].capacity) {
        WindowEnds(p, st.i);
        FillAheadAtMost(p, st, st.i + 1, p.Edge(st.i), ahead);
      }
    }
  }

  lemma {:induction false} RunAheadAtMost(p: Job, st: State, ahead: nat)
    requires Inside(p, st) && p.spill == BreakOrdering(ahead) && AheadAtMost(st, ahead)
    ensures AheadAtMost(Run(p, st), ahead)
    decreases |p.elems| - st.i, |p.spaces| - st.slot, UnitsLeft(p, st)
  {
    if st.i < |p.elems| {
      StepProgress(p, st);
      StepAheadAtMost(p, st, ahead);
      RunAheadAtMost(p, Step(p, st), ahead);
    }
  }

  /** An element placed in front of an earlier one is no more than the look-ahead behind it in the list. */
  lemma {:induction false} OvertakesWithinWindow(p: Job)
    requires EndsInSpill(p.spaces) && p.spill.BreakOrdering? && p.spill.lookAhead >= 0
    ensures var out := Pack(p);
      forall a, b :: 0 <= a < b < |out| ==> out[a].elem <= out[b].elem + p.spill.lookAhead
  {
    RunAheadAtMost(p, START, p.spill.lookAhead);
  }

  // ---- Nothing that fits is left behind in the window ----

  /** Every entry behind this one is of a later element: it was placed when its turn came. */
  ghost predicate InTurn(out: seq<Slotting>, a: nat) {
    a < |out| && forall c :: a < c < |out| ==> out[c].elem > out[a].elem
  }

  /** Element `m` is in unit `u`, or does not fit beside what is there. */
  ghost predicate InOrTooWide(p: Job, out: seq<Slotting>, m: nat, u: Pos)
    requires m < |p.elems| && 0 <= u.slot < |p.spaces|
  {
    || (exists a :: 0 <= a < |out| && out[a].elem == m && out[a].at == u)
    || !Fits(Load(out, u) + p.Width(m), p.spaces[u.slot].capacity)
  }

  /** Unit `u` has no room for element `i`, nor for anything from its window that is not in it. */
  ghost predicate UsedUp(p: Job, out: seq<Slotting>, i: nat, u: Pos)
    requires i < |p.elems| && 0 <= u.slot < |p.spaces|
  {
    && !Fits(Load(out, u) + p.Width(i), p.spaces[u.slot].capacity)
    && forall m :: InWindow(p, i, m) ==> InOrTooWide(p, out, m, u)
  }

  /** Unit `u` was left for the element of entry `b`: it lies before that entry, but not before an earlier turn. */
  ghost predicate LeftFor(p: Job, out: seq<Slotting>, from: nat, b: nat, u: Pos)
    requires b < |out|
  {
    && IsUnit(p.spaces, u) && Before(u, out[b].at)
    && forall a :: from <= a < b && InTurn(out, a) ==> NotAfter(out[a].at, u)
  }

  ghost predicate NoNegativeWidth(p: Job) {
    forall k :: 0 <= k < |p.elems| ==> p.Width(k) >= 0.0
  }

  lemma {:induction false} FillUsesUp(p: Job, st: State, j: nat, edge: int, m: nat)
    requires st.slot < |p.spaces| && edge <= |p.elems| && NoNegativeWidth(p)
    ensures Fill(p, st, j, edge).load >= st.load
    ensures j <= m < edge ==>
      var f := Fill(p, st, j, edge);
      || (exists a :: |st.out| <= a < |f.out| && f.out[a].elem == m && f.out[a].at == st.At())
      || !Fits(f.load + p.Width(m), p.spaces[st.slot].capacity)
    decreases edge - j
  {
    if j < edge {
      FillUsesUp(p, st, j + 1, edge, m);
      if Placeable(p, st, j) {
        FillUsesUp(p, Put(p, st, j), j + 1, edge, m);
        assert Put(p, st, j).out[|st.out|].elem == j;
      }
    }
  }

  /** The entries from `from` on are of elements from `i` on, in units from `u` on. */
  ghost predicate PlacedLater(out: seq<Slotting>, from: nat, i: nat, u: Pos) {
    forall a :: from <= a < |out| ==> out[a].elem >= i && NotAfter(u, out[a].at)
  }

  /** What a run places from here on: nothing before the current element or the current unit. */
  lemma {:induction false} LaterEntries(p: Job, st: State)
    requires Inside(p, st)
    ensures PlacedLater(Run(p, st).out, |st.out|, st.i, st.At())
    decreases |p.elems| - st.i, |p.spaces| - st.slot, UnitsLeft(p, st)
  {
    if st.i < |p.elems| {
      var n := Step(p, st);
      StepProgress(p, st);
      LaterEntries(p, n);
      RunExtends(p, n);
      StepEntries(p, st);
      var out := Run(p, st).out;
      assert out == Run(p, n).out;
      forall a | |st.out| <= a < |out| ensures out[a].elem >= st.i && NotAfter(st.At(), out[a].at) {
        if a < |n.out| { assert out[a] == n.out[a]; }
      }
    }
  }

  /** The entries from `from` on are of elements from `i` on, but below `edge`, in unit `u`. */
  ghost predicate PlacedHere(out: seq<Slotting>, from: nat, i: nat, edge: int, u: Pos) {
    forall a :: from <= a < |out| ==> i <= out[a].elem < edge && out[a].at == u
  }

  lemma {:induction false} FillEntries(p: Job, st: State, j: nat, edge: int)
    requires st.slot < |p.spaces| && edge <= |p.elems|
    ensures PlacedHere(Fill(p, st, j, edge).out, |st.out|, j, edge, st.At())
    decreases edge - j
  {
    if j < edge {
      if Placeable(p, st, j) {
        var n := Put(p, st, j);
        var f := Fill(p, n, j + 1, edge);
        FillEntries(p, n, j + 1, edge);
        assert f.out[|st.out|] == n.out[|st.out|];
      } else {
        FillEntries(p, st, j + 1, edge);
      }
    }
  }

  lemma {:induction false} StepEntries(p: Job, st: State)
    requires Inside(p, st) && st.i < |p.elems|
    ensures NotAfter(st.At(), Step(p, st).At()) && PlacedHere(Step(p, st).out, |st.out|, st.i, |p.elems|, st.At())
  {
    FillEntries(p, st, st.i + 1, p.Edge(st.i));
    assert Put(p, st, st.i).out[|st.out|] == Slotting(st.i, st.At(), st.index + 1, p.Width(st.i));
  }

  /** The element whose turn it is, not placed yet, will be. */
  lemma {:induction false} TurnComes(p: Job, st: State) returns (t: nat)
    requires Good(p, st) && st.i < |p.elems| && p.elems[st.i].id !in st.placed && DistinctIds(p.elems)
    ensures var out := Run(p, st).out; |st.out| <= t < |out| && out[t].elem == st.i
  {
    var end := Run(p, st);
    RunKeepsGood(p, st);
    RunExtends(p, st);
    IdsArePlaced(p, end.out, p.elems[st.i].id);
    t :| 0 <= t < |end.out| && end.out[t].elem < |p.elems| && p.elems[end.out[t].elem].id == p.elems[st.i].id;
    IdsArePlaced(p, st.out, p.elems[st.i].id);
  }

  /** From here on, the first entry in turn is the one of the current element, if that is still to come. */
  lemma {:induction false} FirstTurn(out: seq<Slotting>, from: nat, i: nat, t: nat, b: nat)
    requires from <= t < |out| && out[t].elem == i && forall a :: from <= a < |out| ==> out[a].elem >= i
    requires from <= b && InTurn(out, b) && forall a :: from <= a < b ==> !InTurn(out, a)
    ensures out[b].elem == i
    decreases |out| - t
  {
    if t < b && !InTurn(out, t) {
      var c :| t < c < |out| && out[c].elem <= out[t].elem;
      FirstTurn(out, from, i, c, b);
    }
  }

  /** What is said of the rest of a run: each unit left for an element is used up. */
  ghost predicate UsedUpFrom(p: Job, st: State, out: seq<Slotting>) {
    forall b, u: Pos ::
      |st.out| <= b < |out| && InTurn(out, b) && NotAfter(st.At(), u) && LeftFor(p, out, |st.out|, b, u) ==>
        out[b].elem < |p.elems| && UsedUp(p, out, out[b].elem, u)
  }

  lemma {:induction false} LoadIsFinal(out: seq<Slotting>, k: nat, u: Pos)
    requires k <= |out| && forall a :: k <= a < |out| ==> out[a].at != u
    ensures Load(out, u) == Load(out[..k], u)
  {
    if k < |out| {
      LoadIsFinal(out[..|out| - 1], k, u);
      assert out[..|out| - 1][..k] == out[..k];
    } else {
      assert out[..k] == out;
    }
  }

  /** An element does not fit, so the window is filled in and the unit is left. */
  predicate Overflows(p: Job, st: State) {
    && st.i < |p.elems| && st.slot < |p.spaces|
    && p.elems[st.i].id !in st.placed
    && !Fits(st.load + p.Width(st.i), p.spaces[st.slot].capacity)
  }

  /** The only unit that one step can leave is the current one. */
  lemma {:induction false} StepLeaves(p: Job, st: State, u: Pos)
    requires Inside(p, st) && st.i < |p.elems| && IsUnit(p.spaces, u)
    requires NotAfter(st.At(), u) && Before(u, Step(p, st).At())
    ensures u == st.At() && Overflows(p, st)
  {
  }

  lemma {:induction false} FilledLoad(p: Job, st: State, edge: int)
    requires Good(p, st) && edge <= |p.elems|
    ensures var f := Fill(p, st, st.i + 1, edge);
      f.At() == st.At() && f.load == Load(f.out, st.At()) && st.out <= f.out
  {
    FillKeepsGood(p, st, st.i + 1, edge);
  }

  /** Once the window has been filled in, what is placed later is in later units. */
  lemma {:induction false} LoadStays(p: Job, st: State)
    requires Good(p, st) && Overflows(p, st) && Before(st.At(), Step(p, st).At())
    ensures Fill(p, st, st.i + 1, p.Edge(st.i)).out <= Run(p, st).out
    ensures Load(Run(p, st).out, st.At()) == Fill(p, st, st.i + 1, p.Edge(st.i)).load
  {
    var out, f, n := Run(p, st).out, Fill(p, st, st.i + 1, p.Edge(st.i)), Step(p, st);
    StepProgress(p, st);
    LaterEntries(p, n);
    RunExtends(p, n);
    FilledLoad(p, st, p.Edge(st.i));
    LoadIsFinal(out, |f.out|, st.At());
    assert out[..|f.out|] == f.out;
  }

  lemma {:induction false} OverflowUsesUp(p: Job, st: State)
    requires Good(p, st) && Overflows(p, st) && p.spill.BreakOrdering? && NoNegativeWidth(p)
    requires Before(st.At(), Step(p, st).At())
    ensures UsedUp(p, Run(p, st).out, st.i, st.At())
  {
    var out, f := Run(p, st).out, Fill(p, st, st.i + 1, p.Edge(st.i));
    LoadStays(p, st);
    FillUsesUp(p, st, st.i + 1, p.Edge(st.i), 0);
    forall m | InWindow(p, st.i, m) ensures InOrTooWide(p, out, m, st.At()) {
      WindowUsedUp(p, st, out, m);
    }
  }

  lemma {:induction false} WindowUsedUp(p: Job, st: State, out: seq<Slotting>, m: nat)
    requires Overflows(p, st) && InWindow(p, st.i, m) && NoNegativeWidth(p)
    requires var f := Fill(p, st, st.i + 1, p.Edge(st.i)); f.out <= out && Load(out, st.At()) == f.load
    ensures InOrTooWide(p, out, m, st.At())
  {
    var f := Fill(p, st, st.i + 1, p.Edge(st.i));
    WindowEnds(p, st.i);
    FillUsesUp(p, st, st.i + 1, p.Edge(st.i), m);
    if a :| |st.out| <= a < |f.out| && f.out[a].elem == m && f.out[a].at == st.At() {
      assert out[a] == f.out[a];
    }
  }

  /** The first entry in turn behind a unit that was left is the one of the element that did not fit. */
  lemma {:induction false} LeftForCurrent(p: Job, st: State, b: nat)
    requires Good(p, st) && Overflows(p, st) && DistinctIds(p.elems)
    requires var out, n := Run(p, st).out, Step(p, st);
      |n.out| <= b < |out| && InTurn(out, b) && forall a :: |n.out| <= a < b ==> !InTurn(out, a)
    ensures Run(p, st).out[b].elem == st.i
  {
    var out, n := Run(p, st).out, Step(p, st);
    StepProgress(p, st);
    LaterEntries(p, n);
    RunExtends(p, n);
    FillEntries(p, st, st.i + 1, p.Edge(st.i));
    forall a | |st.out| <= a < |n.out| ensures out[a].elem > st.i {
      assert out[a] == n.out[a];
    }
    var t := TurnComes(p, st);
    FirstTurn(out, |n.out|, st.i, t, b);
  }

  lemma {:induction false} StepUsesUp(p: Job, st: State, b: nat, u: Pos)
    requires Good(p, st) && st.i < |p.elems| && DistinctIds(p.elems) && p.spill.BreakOrdering? && NoNegativeWidth(p)
    requires UsedUpFrom(p, Step(p, st), Run(p, st).out)
    requires |Step(p, st).out| <= b < |Run(p, st).out| && InTurn(Run(p, st).out, b)
    requires NotAfter(st.At(), u) && LeftFor(p, Run(p, st).out, |st.out|, b, u)
    ensures Run(p, st).out[b].elem < |p.elems| && UsedUp(p, Run(p, st).out, Run(p, st).out[b].elem, u)
  {
    var out, n := Run(p, st).out, Step(p, st);
    StepProgress(p, st);
    StepExtends(p, st);
    if NotAfter(n.At(), u) {
      assert LeftFor(p, out, |n.out|, b, u);
    } else {
      LaterEntries(p, n);
      StepLeaves(p, st, u);
      forall a | |n.out| <= a < b ensures !InTurn(out, a) {
        assert Before(u, out[a].at);
      }
      LeftForCurrent(p, st, b);
      OverflowUsesUp(p, st);
    }
  }

  lemma {:induction false} StepExtends(p: Job, st: State)
    requires Inside(p, st) && st.i < |p.elems|
    ensures st.out <= Step(p, st).out
  {
  }

  lemma {:induction false} StepEntriesStay(p: Job, st: State)
    requires Inside(p, st) && st.i < |p.elems|
    ensures forall b :: |st.out| <= b < |Step(p, st).out| && b < |Run(p, st).out| ==> Run(p, st).out[b].at == st.At()
  {
    var out, n := Run(p, st).out, Step(p, st);
    StepEntries(p, st);
    StepProgress(p, st);
    RunExtends(p, n);
    forall b | |st.out| <= b < |n.out| ensures out[b].at == st.At() {
      assert out[b] == n.out[b];
    }
  }

  lemma {:induction false} RunUsesUp(p: Job, st: State)
    requires Good(p, st) && DistinctIds(p.elems) && p.spill.BreakOrdering? && NoNegativeWidth(p)
    ensures UsedUpFrom(p, st, Run(p, st).out)
    decreases |p.elems| - st.i, |p.spaces| - st.slot, UnitsLeft(p, st)
  {
    var out := Run(p, st).out;
    if st.i < |p.elems| {
      var n := Step(p, st);
      StepKeepsGood(p, st);
      StepProgress(p, st);
      RunUsesUp(p, n);
      StepEntriesStay(p, st);
      forall b, u: Pos
        | |n.out| <= b < |out| && InTurn(out, b) && NotAfter(st.At(), u) && LeftFor(p, out, |st.out|, b, u)
        ensures out[b].elem < |p.elems| && UsedUp(p, out, out[b].elem, u)
      {
        StepUsesUp(p, st, b, u);
      }
    }
  }

  /**
   * When a unit is left because an element does not fit, everything in the window behind that element is in the unit
   * or does not fit there either.
   */
  lemma {:induction false} LeftUnitsAreUsedUp(p: Job)
    requires EndsInSpill(p.spaces) && p.spill.BreakOrdering? && DistinctIds(p.elems) && NoNegativeWidth(p)
    ensures var out := Pack(p);
      forall b, u: Pos :: 0 <= b < |out| && InTurn(out, b) && LeftFor(p, out, 0, b, u) ==>
        out[b].elem < |p.elems| && UsedUp(p, out, out[b].elem, u)
  {
    RunUsesUp(p, START);
  }

  // ---- What is taken from the window is taken only when the unit has no room for the element in turn ----

  /** Entry `a` was placed in place of the element of entry `b`, which no longer fitted beside what was there before. */
  ghost predicate InPlaceOf(p: Job, out: seq<Slotting>, a: nat, b: nat)
    requires a < |out| && b < |out|
  {
    var i, u := out[b].elem, out[a].at;
    && InWindow(p, i, out[a].elem)
    && 0 <= u.slot < |p.spaces| && !Fits(Load(out[..a], u) + p.Width(i), p.spaces[u.slot].capacity)
  }

  /** Entry `b` is the first one in turn behind entry `a`, which is not in turn itself. */
  ghost predicate NextTurn(out: seq<Slotting>, a: nat, b: nat) {
    a < b && InTurn(out, b) && forall c :: a <= c < b ==> !InTurn(out, c)
  }

  ghost predicate TakenInPlaceFrom(p: Job, out: seq<Slotting>, from: nat) {
    forall a, b: nat :: from <= a < |out| && NextTurn(out, a, b) ==> b < |out| && InPlaceOf(p, out, a, b)
  }

  lemma {:induction false} NoNegativeEntries(p: Job, st: State)
    requires Good(p, st) && NoNegativeWidth(p)
    ensures NonNegative(Run(p, st).out)
  {
    RunKeepsGood(p, st);
  }

  lemma {:induction false} TakenWhenFull(p: Job, st: State, a: nat, b: nat)
    requires Good(p, st) && Overflows(p, st) && DistinctIds(p.elems) && NoNegativeWidth(p) && p.spill.BreakOrdering?
    requires |st.out| <= a < |Step(p, st).out| && NextTurn(Run(p, st).out, a, b) && a < |Run(p, st).out|
    ensures InPlaceOf(p, Run(p, st).out, a, b)
  {
    var out, n := Run(p, st).out, Step(p, st);
    TakenFromWindow(p, st, a);
    LaterEntries(p, st);
    var t := TurnComes(p, st);
    CurrentIsNext(p, st, a, t);
    FirstTurn(out, a, st.i, t, b);
    NoNegativeEntries(p, st);
    RunExtends(p, st);
    PrefixLoad(out[..a], |st.out|, st.At());
    assert out[..a][..|st.out|] == st.out;
  }

  lemma {:induction false} TakenFromWindow(p: Job, st: State, a: nat)
    requires Inside(p, st) && Overflows(p, st)
    requires |st.out| <= a < |Step(p, st).out|
    ensures a < |Run(p, st).out| && Run(p, st).out[a].at == st.At() && InWindow(p, st.i, Run(p, st).out[a].elem)
  {
    var n := Step(p, st);
    StepProgress(p, st);
    RunExtends(p, n);
    FillEntries(p, st, st.i + 1, p.Edge(st.i));
    WindowEnds(p, st.i);
    assert Run(p, st).out[a] == n.out[a];
  }

  /** The entry of the current element comes after all that is taken in its place. */
  lemma {:induction false} CurrentIsNext(p: Job, st: State, a: nat, t: nat)
    requires Inside(p, st) && Overflows(p, st) && |st.out| <= a < |Step(p, st).out|
    requires |st.out| <= t < |Run(p, st).out| && Run(p, st).out[t].elem == st.i
    ensures a < t
  {
    if t <= a { TakenFromWindow(p, st, t); }
  }

  lemma {:induction false} TurnIsTaken(p: Job, st: State, a: nat)
    requires Inside(p, st) && st.i < |p.elems| && |st.out| <= a < |Step(p, st).out| && !Overflows(p, st)
    ensures InTurn(Run(p, st).out, a)
  {
    var n := Step(p, st);
    StepProgress(p, st);
    RunExtends(p, n);
    LaterEntries(p, n);
    assert Run(p, st).out[a] == n.out[a];
  }

  lemma {:induction false} RunTakesInPlace(p: Job, st: State)
    requires Good(p, st) && DistinctIds(p.elems) && p.spill.BreakOrdering? && NoNegativeWidth(p)
    ensures TakenInPlaceFrom(p, Run(p, st).out, |st.out|)
    decreases |p.elems| - st.i, |p.spaces| - st.slot, UnitsLeft(p, st)
  {
    if st.i < |p.elems| {
      var out, n := Run(p, st).out, Step(p, st);
      StepKeepsGood(p, st);
      StepProgress(p, st);
      RunTakesInPlace(p, n);
      forall a, b: nat | |st.out| <= a < |n.out| && a < |out| && NextTurn(out, a, b) ensures InPlaceOf(p, out, a, b) {
        if Overflows(p, st) {
          TakenWhenFull(p, st, a, b);
        } else {
          TurnIsTaken(p, st, a);
        }
      }
    }
  }

  /**
   * An element is placed out of turn only in place of the next one in turn: it is in the window behind that one, which
   * has no room left in the unit even without it.
   */
  lemma {:induction false} OutOfTurnWhenFull(p: Job)
    requires EndsInSpill(p.spaces) && p.spill.BreakOrdering? && DistinctIds(p.elems) && NoNegativeWidth(p)
    ensures TakenInPlaceFrom(p, Pack(p), 0)
  {
    RunTakesInPlace(p, START);
  }
}
