/** The packing loop of BuildSnapshot: elements into the units of successive spaces (org/org.go). */
module Packing {
  import opened ShelfModel

  /** SPILL_NO_SPILL, or SPILL_BREAK_ORDERING with its look-ahead (negative: unlimited). */
  datatype Spill = NoSpill | BreakOrdering(lookAhead: int)

  /** A unit of a space; units count from 1. */
  datatype Pos = Pos(slot: int, unit: int)

  /** Element number `elem` placed at a unit; `index` numbers its first record from 1. */
  datatype Slotting = Slotting(elem: nat, at: Pos, index: int, width: real)

  datatype Job = Job(elems: seq<Element>, spaces: seq<Space>, measure: Measure, spill: Spill) {
    function Width(k: nat): real requires k < |elems| {
      GroupWidth(elems[k].records, measure)
    }

    /** The look-ahead window behind element `i` ends here. */
    function Edge(i: nat): int requires i < |elems| {
      match spill
      case NoSpill => i + 1
      case BreakOrdering(ahead) => if ahead < 0 || i + 1 + ahead > |elems| then |elems| else i + 1 + ahead
    }
  }

  datatype State = State(i: nat, slot: nat, unit: int, load: real, index: int, placed: set<int>, out: seq<Slotting>) {
    function At(): Pos { Pos(slot, unit) }
  }

  const START := State(0, 0, 1, 0.0, 0, {}, [])

  predicate Before(a: Pos, b: Pos) { a.slot < b.slot || (a.slot == b.slot && a.unit < b.unit) }

  predicate NotAfter(a: Pos, b: Pos) { a == b || Before(a, b) }

  /** The spaces BuildSnapshot works on end with the unbounded one-unit spill space. */
  predicate EndsInSpill(spaces: seq<Space>) {
    |spaces| > 0 && spaces[|spaces| - 1].capacity.Unbounded? && spaces[|spaces| - 1].units == 1
  }

  predicate IsUnit(spaces: seq<Space>, q: Pos) {
    0 <= q.slot < |spaces| && 1 <= q.unit <= spaces[q.slot].units
  }

  /** The width placed at unit `q`. */
  function Load(out: seq<Slotting>, q: Pos): real {
    if out == [] then 0.0
    else Load(out[..|out| - 1], q) + (if out[|out| - 1].at == q then out[|out| - 1].width else 0.0)
  }

  // ---- The loop as a function of its state ----

  /** Element `k` goes to the current unit. */
  function Put(p: Job, st: State, k: nat): State
    requires k < |p.elems|
  {
    st.(load := st.load + p.Width(k), index := st.index + |p.elems[k].records|,
        placed := st.placed + {p.elems[k].id},
        out := st.out + [Slotting(k, st.At(), st.index + 1, p.Width(k))])
  }

  /** The look-ahead: every later element in the window that still fits. It does not look at `placed`. */
  function Fill(p: Job, st: State, j: nat, edge: int): (f: State)
    requires st.slot < |p.spaces| && edge <= |p.elems|
    ensures f.i == st.i && f.slot == st.slot && f.unit == st.unit && st.out <= f.out
    decreases edge - j
  {
    if j >= edge then st
    else if Fits(st.load + p.Width(j), p.spaces[st.slot].capacity) then Fill(p, Put(p, st, j), j + 1, edge)
    else Fill(p, st, j + 1, edge)
  }

  /** On to an empty unit. */
  function MoveTo(st: State, slot: nat, unit: int): State {
    st.(slot := slot, unit := unit, load := 0.0)
  }

  /** On to the next unit, and to the next space after its last unit. */
  function Advance(p: Job, st: State): State
    requires st.slot < |p.spaces|
  {
    if st.unit + 1 > p.spaces[st.slot].units then MoveTo(st, st.slot + 1, 1) else MoveTo(st, st.slot, st.unit + 1)
  }

  function Next(st: State): State { st.(i := st.i + 1) }

  /** One iteration of the loop. */
  function Step(p: Job, st: State): State
    requires st.i < |p.elems| && st.slot < |p.spaces|
  {
    if p.elems[st.i].id in st.placed then Next(st)
    else if !Fits(st.load + p.Width(st.i), p.spaces[st.slot].capacity) then
      Advance(p, Fill(p, st, st.i + 1, p.Edge(st.i)))
    else if st.unit > p.spaces[st.slot].units then MoveTo(st, st.slot + 1, 1)
    else Next(Put(p, st, st.i))
  }

  /** The position is inside the spaces, and the loop never leaves the single unit of the spill space. */
  predicate Inside(p: Job, st: State) {
    && EndsInSpill(p.spaces)
    && st.i <= |p.elems|
    && st.slot < |p.spaces|
    && 1 <= st.unit
    && (st.slot == |p.spaces| - 1 ==> st.unit == 1)
  }

  function UnitsLeft(p: Job, st: State): nat
    requires st.slot < |p.spaces|
  {
    if st.unit <= p.spaces[st.slot].units then p.spaces[st.slot].units - st.unit + 1 else 0
  }

  /** Every iteration stays inside the spaces and either takes an element or moves on in the units. */
  lemma {:induction false} StepProgress(p: Job, st: State)
    requires Inside(p, st) && st.i < |p.elems|
    ensures Inside(p, Step(p, st))
    ensures var n := Step(p, st);
      || n.i == st.i + 1
      || (n.i == st.i && n.slot == st.slot + 1)
      || (n.i == st.i && n.slot == st.slot && UnitsLeft(p, n) < UnitsLeft(p, st))
  {
  }

  /** The whole loop. */
  function Run(p: Job, st: State): State
    requires Inside(p, st)
    decreases |p.elems| - st.i, |p.spaces| - st.slot, UnitsLeft(p, st)
  {
    if st.i == |p.elems| then st else StepProgress(p, st); Run(p, Step(p, st))
  }

  function Pack(p: Job): seq<Slotting>
    requires EndsInSpill(p.spaces)
  {
    Run(p, START).out
  }

  /** The look-ahead loop over the window behind the element that did not fit. */
  method LookAhead(p: Job, st: State) returns (n: State)
    requires st.i < |p.elems| && st.slot < |p.spaces|
    ensures n == Fill(p, st, st.i + 1, p.Edge(st.i))
  {
    n := st;
    if p.spill.BreakOrdering? {
      var edge := st.i + 1 + p.spill.lookAhead;
      if p.spill.lookAhead < 0 { edge := |p.elems|; }
      if edge > |p.elems| { edge := |p.elems|; }
      for j := st.i + 1 to edge
        invariant n.i == st.i && n.slot == st.slot && n.unit == st.unit
        invariant Fill(p, n, j, edge) == Fill(p, st, st.i + 1, edge)
      {
        var width := GetWidth(p.elems[j].records, p.measure);
        if Fits(n.load + width, p.spaces[n.slot].capacity) {
          n := n.(placed := n.placed + {p.elems[j].id}, out := n.out + [Slotting(j, n.At(), n.index + 1, width)],
                  index := n.index + |p.elems[j].records|, load := n.load + width);
        }
      }
    }
  }

  /** The loop itself. */
  method PackElements(p: Job) returns (out: seq<Slotting>)
    requires EndsInSpill(p.spaces)
    ensures out == Pack(p)
  {
    var st := START;
    while st.i < |p.elems|
      invariant Inside(p, st)
      invariant Run(p, st) == Run(p, START)
      decreases |p.elems| - st.i, |p.spaces| - st.slot, UnitsLeft(p, st)
    {
      StepProgress(p, st);
      ghost var next := Step(p, st);
      var r := p.elems[st.i];
      if r.id in st.placed {
        st := st.(i := st.i + 1);
        continue;
      }
      var tripped := false;
      var width := GetWidth(r.records, p.measure);
      if !Fits(st.load + width, p.spaces[st.slot].capacity) {
        st := LookAhead(p, st);
        st := st.(unit := st.unit + 1, load := 0.0);
        tripped := true;
      }
      if st.unit > p.spaces[st.slot].units {
        st := st.(slot := st.slot + 1, unit := 1, load := 0.0);
        tripped := true;
      }
      if !tripped {
        st := st.(i := st.i + 1, load := st.load + width, index := st.index + |r.records|, placed := st.placed + {r.id},
                  out := st.out + [Slotting(st.i, st.At(), st.index + 1, width)]);
      }
      assert st == next;
    }
    out := st.out;
  }

  // ---- What holds in both spill modes ----

  /** Placements never go back to an earlier unit, and none lies beyond the current one. */
  ghost predicate Ordered(st: State) {
    && (forall a, b :: 0 <= a < b < |st.out| ==> NotAfter(st.out[a].at, st.out[b].at))
    && (forall a :: 0 <= a < |st.out| ==> NotAfter(st.out[a].at, st.At()))
  }

  /** No unit holds more than its space allows. */
  ghost predicate WithinCapacity(spaces: seq<Space>, out: seq<Slotting>) {
    forall a :: 0 <= a < |out| ==>
      && 0 <= out[a].at.slot < |spaces|
      && Fits(Load(out, out[a].at), spaces[out[a].at.slot].capacity)
  }

  ghost predicate Loaded(p: Job, st: State) {
    && st.load == Load(st.out, st.At())
    && WithinCapacity(p.spaces, st.out)
  }

  /** The ids of the placed elements. */
  function Ids(p: Job, out: seq<Slotting>): set<int> {
    if out == [] then {}
    else Ids(p, out[..|out| - 1]) + (if out[|out| - 1].elem < |p.elems| then {p.elems[out[|out| - 1].elem].id} else {})
  }

  lemma {:induction false} IdsArePlaced(p: Job, out: seq<Slotting>, id: int)
    ensures id in Ids(p, out) <==>
      exists a :: 0 <= a < |out| && out[a].elem < |p.elems| && p.elems[out[a].elem].id == id
  {
    if out != [] {
      IdsArePlaced(p, out[..|out| - 1], id);
      if id in Ids(p, out[..|out| - 1]) {
        var init := out[..|out| - 1];
        var a :| 0 <= a < |init| && init[a].elem < |p.elems| && p.elems[init[a].elem].id == id;
        assert out[a].elem < |p.elems|;
      }
    }
  }

  ghost predicate Covered(p: Job, st: State) {
    && st.i <= |p.elems|
    && (forall a :: 0 <= a < |st.out| ==> st.out[a].elem < |p.elems| && st.out[a].width == p.Width(st.out[a].elem))
    && st.placed == Ids(p, st.out)
    && (forall k :: 0 <= k < st.i ==> p.elems[k].id in st.placed)
  }

  /** The records of the placed elements are numbered consecutively from 1. */
  ghost predicate Numbered(p: Job, out: seq<Slotting>, next: int) {
    if out == [] then next == 0
    else
      var last := out[|out| - 1];
      last.elem < |p.elems| && next == last.index - 1 + |p.elems[last.elem].records|
      && Numbered(p, out[..|out| - 1], last.index - 1)
  }

  ghost predicate Good(p: Job, st: State) {
    Inside(p, st) && Ordered(st) && Loaded(p, st) && Covered(p, st) && Numbered(p, st.out, st.index)
  }

  lemma {:induction false} LoadBeyond(out: seq<Slotting>, q: Pos)
    requires forall a :: 0 <= a < |out| ==> Before(out[a].at, q)
    ensures Load(out, q) == 0.0
  {
    if out != [] { LoadBeyond(out[..|out| - 1], q); }
  }

  lemma {:induction false} PutKeepsGood(p: Job, st: State, k: nat)
    requires Good(p, st) && k < |p.elems|
    requires Fits(st.load + p.Width(k), p.spaces[st.slot].capacity)
    ensures Good(p, Put(p, st, k))
  {
    var n := Put(p, st, k);
    assert n.out[..|st.out|] == st.out;
    PutKeepsLoaded(p, st, k);
  }

  lemma {:induction false} LoadAppend(out: seq<Slotting>, s: Slotting, q: Pos)
    ensures Load(out + [s], q) == Load(out, q) + (if s.at == q then s.width else 0.0)
  {
    assert (out + [s])[..|out|] == out;
  }

  lemma {:induction false} PutKeepsLoaded(p: Job, st: State, k: nat)
    requires st.slot < |p.spaces| && Loaded(p, st) && k < |p.elems|
    requires Fits(st.load + p.Width(k), p.spaces[st.slot].capacity)
    ensures Loaded(p, Put(p, st, k))
  {
    var n, s := Put(p, st, k), Slotting(k, st.At(), st.index + 1, p.Width(k));
    LoadAppend(st.out, s, st.At());
    forall a | 0 <= a < |n.out|
      ensures 0 <= n.out[a].at.slot < |p.spaces|
      ensures Fits(Load(n.out, n.out[a].at), p.spaces[n.out[a].at.slot].capacity)
    {
      LoadAppend(st.out, s, n.out[a].at);
      if a < |st.out| { assert n.out[a] == st.out[a]; }
    }
  }

  /** What every placement keeps, the look-ahead keeps. */
  lemma {:induction false} FillKeeps(p: Job, st: State, j: nat, edge: int, inv: State -> bool)
    requires st.slot < |p.spaces| && edge <= |p.elems| && inv(st)
    requires forall s: State, k: nat :: inv(s) && Placeable(p, s, k) ==> inv(Put(p, s, k))
    ensures inv(Fill(p, st, j, edge))
    decreases edge - j
  {
    if j < edge {
      if Placeable(p, st, j) {
        FillKeeps(p, Put(p, st, j), j + 1, edge, inv);
      } else {
        FillKeeps(p, st, j + 1, edge, inv);
      }
    }
  }

  predicate Placeable(p: Job, st: State, k: nat) {
    k < |p.elems| && st.slot < |p.spaces| && Fits(st.load + p.Width(k), p.spaces[st.slot].capacity)
  }

  lemma {:induction false} FillKeepsGood(p: Job, st: State, j: nat, edge: int)
    requires Good(p, st) && edge <= |p.elems|
    ensures Good(p, Fill(p, st, j, edge))
  {
    forall s: State, k: nat | Good(p, s) && Placeable(p, s, k) ensures Good(p, Put(p, s, k)) {
      PutKeepsGood(p, s, k);
    }
    FillKeeps(p, st, j, edge, s => Good(p, s));
  }

  /** Moving on to a later, still empty unit. */
  lemma {:induction false} MoveOnKeepsGood(p: Job, st: State, slot: nat, unit: nat)
    requires Good(p, st) && Before(st.At(), Pos(slot, unit))
    requires slot < |p.spaces| && 1 <= unit && (slot == |p.spaces| - 1 ==> unit == 1)
    ensures Good(p, MoveTo(st, slot, unit))
  {
    LoadBeyond(st.out, Pos(slot, unit));
  }

  lemma {:induction false} AdvanceKeepsGood(p: Job, st: State)
    requires Good(p, st) && st.slot + 1 < |p.spaces|
    ensures Good(p, Advance(p, st))
  {
    if st.unit + 1 > p.spaces[st.slot].units {
      MoveOnKeepsGood(p, st, st.slot + 1, 1);
    } else {
      MoveOnKeepsGood(p, st, st.slot, st.unit + 1);
    }
  }

  lemma {:induction false} TakeKeepsGood(p: Job, st: State)
    requires Good(p, st) && st.i < |p.elems|
    requires Fits(st.load + p.Width(st.i), p.spaces[st.slot].capacity)
    ensures Good(p, Next(Put(p, st, st.i)))
  {
    PutKeepsGood(p, st, st.i);
  }

  lemma {:induction false} OverflowKeepsGood(p: Job, st: State)
    requires Good(p, st) && st.i < |p.elems| && !Fits(st.load + p.Width(st.i), p.spaces[st.slot].capacity)
    ensures Good(p, Advance(p, Fill(p, st, st.i + 1, p.Edge(st.i))))
  {
    var n := Fill(p, st, st.i + 1, p.Edge(st.i));
    FillKeepsGood(p, st, st.i + 1, p.Edge(st.i));
    assert n.slot + 1 < |p.spaces|;
    AdvanceKeepsGood(p, n);
  }

  lemma {:induction false} StepKeepsGood(p: Job, st: State)
    requires Good(p, st) && st.i < |p.elems|
    ensures Good(p, Step(p, st))
  {
    if p.elems[st.i].id in st.placed {
    } else if !Fits(st.load + p.Width(st.i), p.spaces[st.slot].capacity) {
      OverflowKeepsGood(p, st);
    } else if st.unit > p.spaces[st.slot].units {
      MoveOnKeepsGood(p, st, st.slot + 1, 1);
    } else {
      TakeKeepsGood(p, st);
    }
  }

  lemma {:induction false} RunKeepsGood(p: Job, st: State)
    requires Good(p, st)
    ensures Good(p, Run(p, st)) && Run(p, st).i == |p.elems|
    decreases |p.elems| - st.i, |p.spaces| - st.slot, UnitsLeft(p, st)
  {
    if st.i < |p.elems| {
      StepKeepsGood(p, st);
      StepProgress(p, st);
      RunKeepsGood(p, Step(p, st));
    }
  }

  /**
   * In both spill modes: units fill up in order and within capacity, the numbering is consecutive,
   * and the id of every element is placed at least once.
   */
  lemma {:induction false} PackIsSound(p: Job)
    requires EndsInSpill(p.spaces)
    ensures var out := Pack(p);
      && (forall a, b :: 0 <= a < b < |out| ==> NotAfter(out[a].at, out[b].at))
      && WithinCapacity(p.spaces, out)
      && (forall a :: 0 <= a < |out| ==> out[a].elem < |p.elems| && out[a].width == p.Width(out[a].elem))
      && (forall k :: 0 <= k < |p.elems| ==>
            exists a :: 0 <= a < |out| && p.elems[out[a].elem].id == p.elems[k].id)
      && (exists total :: Numbered(p, out, total))
  {
    RunKeepsGood(p, START);
    var st := Run(p, START);
    assert Numbered(p, st.out, st.index);
    forall k | 0 <= k < |p.elems| ensures exists a :: 0 <= a < |st.out| && p.elems[st.out[a].elem].id == p.elems[k].id {
      IdsArePlaced(p, st.out, p.elems[k].id);
    }
  }

  lemma {:induction false} RunExtends(p: Job, st: State)
    requires Inside(p, st)
    ensures st.out <= Run(p, st).out
    decreases |p.elems| - st.i, |p.spaces| - st.slot, UnitsLeft(p, st)
  {
    if st.i < |p.elems| {
      StepProgress(p, st);
      assert st.out <= Step(p, st).out;
      RunExtends(p, Step(p, st));
    }
  }

  // ---- Spaces behind the spill space ----

  /** The same job with more spaces behind the spill space. */
  predicate Extends(q: Job, p: Job) {
    && EndsInSpill(p.spaces) && EndsInSpill(q.spaces)
    && p.spaces <= q.spaces && q == p.(spaces := q.spaces)
  }

  lemma {:induction false} FillIgnoresMore(p: Job, q: Job, st: State, j: nat, edge: int)
    requires Extends(q, p) && st.slot < |p.spaces| && edge <= |p.elems|
    ensures Fill(q, st, j, edge) == Fill(p, st, j, edge)
    decreases edge - j
  {
    if j < edge {
      FillIgnoresMore(p, q, st, j + 1, edge);
      FillIgnoresMore(p, q, Put(p, st, j), j + 1, edge);
    }
  }

  lemma {:induction false} StepIgnoresMore(p: Job, q: Job, st: State)
    requires Extends(q, p) && Inside(p, st) && st.i < |p.elems|
    ensures Step(q, st) == Step(p, st)
  {
    FillIgnoresMore(p, q, st, st.i + 1, p.Edge(st.i));
  }

  lemma {:induction false} RunIgnoresMore(p: Job, q: Job, st: State)
    requires Extends(q, p) && Inside(p, st) && Inside(q, st)
    ensures Run(q, st) == Run(p, st)
    decreases |p.elems| - st.i, |p.spaces| - st.slot, UnitsLeft(p, st)
  {
    if st.i < |p.elems| {
      StepProgress(p, st);
      StepProgress(q, st);
      StepIgnoresMore(p, q, st);
      RunIgnoresMore(p, q, Step(p, st));
    }
  }

  /** The loop never gets past the first spill space. */
  lemma {:induction false} PackIgnoresMore(p: Job, q: Job)
    requires Extends(q, p)
    ensures Pack(q) == Pack(p)
  {
    RunIgnoresMore(p, q, START);
  }
}
