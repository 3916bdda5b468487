/** SPILL_NO_SPILL: the packing loop yields the first-fit layout, and no layout in the same order does better. */
module FirstFit {
  import opened ShelfModel
  import opened Packing

  /** Where the search for a unit for placement `a` starts: the unit of the placement before it. */
  function From(out: seq<Slotting>, a: nat): Pos
    requires a <= |out|
  {
    if a == 0 then Pos(0, 1) else out[a - 1].at
  }

  /** Element `a` fits in no unit from `From` up to, but not including, `to`. */
  ghost predicate NoRoomBefore(spaces: seq<Space>, out: seq<Slotting>, width: real, to: Pos) {
    forall q: Pos :: IsUnit(spaces, q) && NotAfter(From(out, |out|), q) && Before(q, to) ==>
      !Fits(Load(out, q) + width, spaces[q.slot].capacity)
  }

  /** Each placement sits in the first unit, from the one before it on, that has room for it. */
  ghost predicate IsFirstFit(spaces: seq<Space>, out: seq<Slotting>) {
    forall a :: 0 <= a < |out| ==> FirstFitAt(spaces, out, a)
  }

  ghost predicate FirstFitAt(spaces: seq<Space>, out: seq<Slotting>, a: nat)
    requires a < |out|
  {
    && IsUnit(spaces, out[a].at)
    && NotAfter(From(out, a), out[a].at)
    && NoRoomBefore(spaces, out[..a], out[a].width, out[a].at)
  }

  /** A layout that keeps the order, stays inside the units and respects every capacity. */
  ghost predicate Respects(spaces: seq<Space>, out: seq<Slotting>) {
    && WithinCapacity(spaces, out)
    && (forall a :: 0 <= a < |out| ==> IsUnit(spaces, out[a].at))
    && (forall a, b :: 0 <= a < b < |out| ==> NotAfter(out[a].at, out[b].at))
  }

  /** The same widths at other units. */
  function Relocate(out: seq<Slotting>, units: seq<Pos>): seq<Slotting>
    requires |units| == |out|
  {
    seq(|out|, a requires 0 <= a < |out| => out[a].(at := units[a]))
  }

  // ---- Optimality ----

  ghost predicate NonNegative(out: seq<Slotting>) {
    forall a :: 0 <= a < |out| ==> out[a].width >= 0.0
  }

  lemma {:induction false} PrefixLoad(out: seq<Slotting>, k: nat, q: Pos)
    requires NonNegative(out) && k <= |out|
    ensures 0.0 <= Load(out[..k], q) <= Load(out, q)
  {
    if k == |out| {
      assert out[..k] == out;
      if out != [] {
        PrefixLoad(out[..k - 1], k - 1, q);
        assert out[..k - 1][..k - 1] == out[..k - 1];
      }
    } else {
      PrefixLoad(out[..|out| - 1], k, q);
      assert out[..|out| - 1][..k] == out[..k];
    }
  }

  lemma {:induction false} LoadStep(out: seq<Slotting>, k: nat, q: Pos)
    requires k < |out|
    ensures Load(out[..k + 1], q) == Load(out[..k], q) + (if out[k].at == q then out[k].width else 0.0)
  {
    assert out[..k + 1][..k] == out[..k];
  }

  /** The greedy layout stays ahead: never a later unit, and in the same unit never more width so far. */
  lemma {:induction false} StaysAhead(spaces: seq<Space>, out: seq<Slotting>, alt: seq<Slotting>, k: nat)
    requires IsFirstFit(spaces, out) && Respects(spaces, alt)
    requires NonNegative(alt) && |alt| == |out| && k < |out|
    requires forall a :: 0 <= a < |out| ==> alt[a].width == out[a].width
    ensures NotAfter(out[k].at, alt[k].at)
    ensures out[k].at == alt[k].at ==> Load(out[..k + 1], out[k].at) <= Load(alt[..k + 1], out[k].at)
  {
    var q := alt[k].at;
    LoadStep(out, k, out[k].at);
    LoadStep(alt, k, q);
    PrefixLoad(alt, k + 1, q);
    PrefixLoad(alt, k, q);
    assert Fits(Load(alt[..k], q) + alt[k].width, spaces[q.slot].capacity);
    assert FirstFitAt(spaces, out, k);
    if k == 0 {
      assert out[..0] == [] && alt[..0] == [];
      assert From(out[..0], 0) == Pos(0, 1);
      assert Load(out[..0], q) == 0.0;
    } else {
      StaysAhead(spaces, out, alt, k - 1);
      assert NotAfter(alt[k - 1].at, q);
      assert From(out[..k], k) == out[k - 1].at;
      if q != out[k - 1].at {
        assert Before(out[k - 1].at, q);
        FirstFitOrdered(spaces, out, k - 1);
        LoadBeyond(out[..k], q);
      }
    }
  }

  lemma {:induction false} FirstFitOrdered(spaces: seq<Space>, out: seq<Slotting>, k: nat)
    requires IsFirstFit(spaces, out) && k < |out|
    ensures forall a :: 0 <= a <= k ==> NotAfter(out[a].at, out[k].at)
  {
    if k > 0 {
      FirstFitOrdered(spaces, out, k - 1);
      assert FirstFitAt(spaces, out, k);
    }
  }

  /**
   * Optimality: any layout of the same elements, in the same order and within capacity, puts every
   * element in the same unit or a later one; so what a first-fit layout spills, every layout spills.
   */
  lemma {:induction false} FirstFitIsOptimal(spaces: seq<Space>, out: seq<Slotting>, alt: seq<Slotting>)
    requires IsFirstFit(spaces, out) && Respects(spaces, alt)
    requires NonNegative(alt) && |alt| == |out|
    requires forall a :: 0 <= a < |out| ==> alt[a].width == out[a].width
    ensures forall k :: 0 <= k < |out| ==> NotAfter(out[k].at, alt[k].at)
    ensures forall k :: 0 <= k < |out| && out[k].at.slot == |spaces| - 1 ==> alt[k].at.slot == |spaces| - 1
  {
    forall k | 0 <= k < |out| ensures NotAfter(out[k].at, alt[k].at) {
      StaysAhead(spaces, out, alt, k);
    }
  }

  // ---- The loop yields a first-fit layout ----

  /** No earlier element has the id of element `k`. */
  ghost predicate FirstWithId(elems: seq<Element>, k: nat)
    requires k < |elems|
  {
    forall j :: 0 <= j < k ==> elems[j].id != elems[k].id
  }

  /** The elements that are not shadowed by an earlier one with the same id. */
  ghost function Kept(elems: seq<Element>, n: nat): seq<nat>
    requires n <= |elems|
  {
    if n == 0 then [] else Kept(elems, n - 1) + (if FirstWithId(elems, n - 1) then [n - 1] else [])
  }

  ghost predicate DistinctIds(elems: seq<Element>) {
    forall a, b :: 0 <= a < b < |elems| ==> elems[a].id != elems[b].id
  }

  function Elems(out: seq<Slotting>): seq<nat> {
    if out == [] then [] else Elems(out[..|out| - 1]) + [out[|out| - 1].elem]
  }

  lemma {:induction false} ElemsAt(out: seq<Slotting>)
    ensures |Elems(out)| == |out|
    ensures forall a :: 0 <= a < |out| ==> Elems(out)[a] == out[a].elem
  {
    if out != [] { ElemsAt(out[..|out| - 1]); }
  }

  lemma {:induction false} KeptBelow(elems: seq<Element>, n: nat)
    requires n <= |elems|
    ensures forall a :: 0 <= a < |Kept(elems, n)| ==> Kept(elems, n)[a] < n
    ensures forall k :: 0 <= k < n && FirstWithId(elems, k) ==> k in Kept(elems, n)
  {
    if n > 0 { KeptBelow(elems, n - 1); }
  }

  /** With distinct ids nothing is shadowed. */
  lemma {:induction false} KeptAll(elems: seq<Element>, n: nat)
    requires DistinctIds(elems) && n <= |elems|
    ensures Kept(elems, n) == seq(n, a => a)
  {
    if n > 0 { KeptAll(elems, n - 1); }
  }

  /** The part of the invariant that only holds without look-ahead. */
  ghost predicate InOrder(p: Job, st: State) {
    && st.i <= |p.elems|
    && Elems(st.out) == Kept(p.elems, st.i)
    && IsFirstFit(p.spaces, st.out)
    && NotAfter(From(st.out, |st.out|), st.At())
  }

  /** The current element has been refused by every unit between the last placement and the current unit. */
  ghost predicate Searching(p: Job, st: State) {
    st.i < |p.elems| && st.At() != From(st.out, |st.out|) ==>
      && p.elems[st.i].id !in st.placed
      && NoRoomBefore(p.spaces, st.out, p.Width(st.i), st.At())
  }

  lemma {:induction false} FirstWithIdUnplaced(p: Job, st: State)
    requires Good(p, st) && InOrder(p, st) && st.i < |p.elems|
    ensures FirstWithId(p.elems, st.i) <==> p.elems[st.i].id !in st.placed
  {
    IdsArePlaced(p, st.out, p.elems[st.i].id);
    ElemsAt(st.out);
    KeptBelow(p.elems, st.i);
    if p.elems[st.i].id in st.placed {
      var a :| 0 <= a < |st.out| && st.out[a].elem < |p.elems| && p.elems[st.out[a].elem].id == p.elems[st.i].id;
      assert Kept(p.elems, st.i)[a] == st.out[a].elem;
    }
  }

  lemma {:induction false} TakeKeepsInOrder(p: Job, st: State)
    requires Good(p, st) && InOrder(p, st) && Searching(p, st) && st.i < |p.elems|
    requires p.elems[st.i].id !in st.placed && st.unit <= p.spaces[st.slot].units
    ensures var n := Next(Put(p, st, st.i)); InOrder(p, n) && Searching(p, n)
  {
    FirstWithIdUnplaced(p, st);
    var n := Next(Put(p, st, st.i));
    assert n.out[..|st.out|] == st.out;
    forall a | 0 <= a < |n.out| ensures FirstFitAt(p.spaces, n.out, a) {
      if a < |st.out| {
        assert FirstFitAt(p.spaces, st.out, a) && n.out[..a] == st.out[..a];
      }
    }
  }

  /** Leaving a unit that refuses the current element for the unit right after it. */
  lemma {:induction false} MoveOnKeepsSearching(p: Job, st: State, slot: nat, unit: nat)
    requires InOrder(p, st) && Searching(p, st) && st.i < |p.elems| && st.load == Load(st.out, st.At())
    requires p.elems[st.i].id !in st.placed && st.slot < |p.spaces|
    requires !Fits(st.load + p.Width(st.i), p.spaces[st.slot].capacity) || !IsUnit(p.spaces, st.At())
    requires Before(st.At(), Pos(slot, unit))
    requires || (slot == st.slot && unit == st.unit + 1)
      || (slot == st.slot + 1 && unit == 1 && st.unit >= p.spaces[st.slot].units)
    ensures InOrder(p, MoveTo(st, slot, unit)) && Searching(p, MoveTo(st, slot, unit))
  {
  }

  lemma {:induction false} OverflowKeepsInOrder(p: Job, st: State)
    requires p.spill.NoSpill?
    requires InOrder(p, st) && Searching(p, st) && st.i < |p.elems| && st.load == Load(st.out, st.At())
    requires p.elems[st.i].id !in st.placed && st.slot < |p.spaces| && 1 <= st.unit
    requires !Fits(st.load + p.Width(st.i), p.spaces[st.slot].capacity)
    ensures var n := Advance(p, Fill(p, st, st.i + 1, p.Edge(st.i))); InOrder(p, n) && Searching(p, n)
  {
    assert Fill(p, st, st.i + 1, p.Edge(st.i)) == st;
    if st.unit + 1 > p.spaces[st.slot].units {
      MoveOnKeepsSearching(p, st, st.slot + 1, 1);
    } else {
      MoveOnKeepsSearching(p, st, st.slot, st.unit + 1);
    }
  }

  lemma {:induction false} StepKeepsInOrder(p: Job, st: State)
    requires p.spill.NoSpill?
    requires Good(p, st) && InOrder(p, st) && Searching(p, st) && st.i < |p.elems|
    ensures InOrder(p, Step(p, st)) && Searching(p, Step(p, st))
  {
    if p.elems[st.i].id in st.placed {
      FirstWithIdUnplaced(p, st);
    } else if !Fits(st.load + p.Width(st.i), p.spaces[st.slot].capacity) {
      OverflowKeepsInOrder(p, st);
    } else if st.unit > p.spaces[st.slot].units {
      MoveOnKeepsSearching(p, st, st.slot + 1, 1);
    } else {
      TakeKeepsInOrder(p, st);
    }
  }

  lemma {:induction false} RunKeepsInOrder(p: Job, st: State)
    requires p.spill.NoSpill?
    requires Good(p, st) && InOrder(p, st) && Searching(p, st)
    ensures InOrder(p, Run(p, st)) && Run(p, st).i == |p.elems|
    decreases |p.elems| - st.i, |p.spaces| - st.slot, UnitsLeft(p, st)
  {
    if st.i < |p.elems| {
      StepKeepsGood(p, st);
      StepProgress(p, st);
      StepKeepsInOrder(p, st);
      RunKeepsInOrder(p, Step(p, st));
    }
  }

  /** Without spilling, the loop places the unshadowed elements in list order, first fit and within capacity. */
  lemma {:induction false} PackIsFirstFit(p: Job)
    requires EndsInSpill(p.spaces) && p.spill.NoSpill?
    ensures Elems(Pack(p)) == Kept(p.elems, |p.elems|)
    ensures IsFirstFit(p.spaces, Pack(p)) && Respects(p.spaces, Pack(p))
  {
    RunKeepsInOrder(p, START);
    PackIsSound(p);
    forall a | 0 <= a < |Pack(p)| ensures IsUnit(p.spaces, Pack(p)[a].at) {
      assert FirstFitAt(p.spaces, Pack(p), a);
    }
  }

  /** No order-preserving layout within capacity uses an earlier unit, or less of the spill space, for any element. */
  lemma {:induction false} PackIsOptimal(p: Job, units: seq<Pos>)
    requires EndsInSpill(p.spaces) && p.spill.NoSpill? && |units| == |Pack(p)|
    requires forall k :: 0 <= k < |p.elems| ==> p.Width(k) >= 0.0
    requires Respects(p.spaces, Relocate(Pack(p), units))
    ensures forall k :: 0 <= k < |units| ==> NotAfter(Pack(p)[k].at, units[k])
    ensures forall k :: 0 <= k < |units| && Pack(p)[k].at.slot == |p.spaces| - 1 ==> units[k].slot == |p.spaces| - 1
  {
    PackIsFirstFit(p);
    PackIsSound(p);
    FirstFitIsOptimal(p.spaces, Pack(p), Relocate(Pack(p), units));
  }
}
