/** Carrying out a move plan one move at a time overfills a slot only if the order breaks a dependency into it. */
module Reshelving {
  import opened Basics
  import opened ShelfModel
  import opened ShelfOrder
  import opened Packing
  import opened FirstFit
  import opened ShelfSnapshot
  import opened SlotMoves
  import opened MoveOrder
  import opened MoveTheorems
  import opened Snapshot

  /** The records that are in both snapshots, once each. */
  function Common(start: seq<Placement>, end: seq<Placement>): seq<int> {
    if start == [] then []
    else
      var p := start[|start| - 1];
      Common(start[..|start| - 1], end) +
        (if FirstOf(start[..|start| - 1], p.iid).None? && LastOf(end, p.iid).Some? then [p.iid] else [])
  }

  lemma {:induction false} CommonAre(start: seq<Placement>, end: seq<Placement>)
    ensures forall c :: c in Common(start, end) <==> FirstOf(start, c).Some? && LastOf(end, c).Some?
    ensures Distinct(Common(start, end))
  {
    if start != [] { CommonAre(start[..|start| - 1], end); }
  }

  ghost predicate Distinct(s: seq<int>) {
    forall i, j :: 0 <= i < j < |s| ==> s[i] != s[j]
  }

  /** Where each record is: in its first start slot, until a move takes it to the end of that move. */
  function Location(start: seq<Placement>, done: seq<Move>, iid: int): Option<Slot> {
    if done == [] then (if FirstOf(start, iid).Some? then Some(SlotOf(FirstOf(start, iid).value)) else None)
    else
      var m := done[|done| - 1];
      if Iid(m) == iid && m.end.Some? then Some(SlotOf(m.end.value)) else Location(start, done[..|done| - 1], iid)
  }

  /** The width of the records of `cs` that are in slot `s` after the moves in `done`. */
  ghost function Held(start: seq<Placement>, done: seq<Move>, cs: seq<int>, width: int -> real, s: Slot): real {
    if cs == [] then 0.0
    else
      var c := cs[|cs| - 1];
      Held(start, done, cs[..|cs| - 1], width, s) + (if Location(start, done, c) == Some(s) then width(c) else 0.0)
  }

  /** The width of the records of `cs` whose slot in a snapshot is `s`. */
  ghost function Shelved(at: int -> Option<Placement>, cs: seq<int>, width: int -> real, s: Slot): real {
    if cs == [] then 0.0
    else
      var c := cs[|cs| - 1];
      Shelved(at, cs[..|cs| - 1], width, s) + (if at(c).Some? && SlotOf(at(c).value) == s then width(c) else 0.0)
  }

  // ---- Where a record is along the way ----

  /** A record has left its start slot exactly when its move is done. */
  lemma {:induction false} LocationAfter(start: seq<Placement>, end: seq<Placement>, done: seq<Move>, iid: int)
    requires AreDiffMoves(start, end, done) && FirstOf(start, iid).Some?
    ensures Location(start, done, iid) ==
      if exists i :: 0 <= i < |done| && Iid(done[i]) == iid then Some(SlotOf(LastOf(end, iid).value))
      else Some(SlotOf(FirstOf(start, iid).value))
    ensures (exists i :: 0 <= i < |done| && Iid(done[i]) == iid) ==> LastOf(end, iid).Some?
  {
    if done != [] {
      var init := done[..|done| - 1];
      var m := done[|done| - 1];
      assert DiffMove(start, end, m);
      forall i | 0 <= i < |init| ensures DiffMove(start, end, init[i]) { assert init[i] == done[i]; }
      LocationAfter(start, end, init, iid);
      if i :| 0 <= i < |done| && Iid(done[i]) == iid {
        if i < |init| { assert Iid(init[i]) == iid; }
      }
      if i :| 0 <= i < |init| && Iid(init[i]) == iid { assert Iid(done[i]) == iid; }
    }
  }

  lemma {:induction false} PrefixMoves(start: seq<Placement>, end: seq<Placement>, moves: seq<Move>, order: seq<nat>,
                                       t: nat)
    requires AreDiffMoves(start, end, moves) && IsPermutation(order, |moves|) && t <= |order|
    ensures AreDiffMoves(start, end, Pick(moves, order)[..t])
  {
    var done := Pick(moves, order)[..t];
    forall i | 0 <= i < |done| ensures DiffMove(start, end, done[i]) {
      assert DiffMove(start, end, moves[order[i]]);
    }
    forall i, j | 0 <= i < j < |done| ensures Iid(done[i]) != Iid(done[j]) {
      assert order[i] != order[j];
      assert done[i] == moves[order[i]] && done[j] == moves[order[j]];
      if order[i] < order[j] { assert Iid(moves[order[i]]) != Iid(moves[order[j]]); }
      else { assert Iid(moves[order[j]]) != Iid(moves[order[i]]); }
    }
  }

  /** The finished plan puts every common record in its end slot. */
  lemma {:induction false} PlanArrives(start: seq<Placement>, end: seq<Placement>, order: seq<nat>, k: nat, c: int)
    requires IsSchedule(Changes(start, end), order, k) && c in Common(start, end)
    ensures LastOf(end, c).Some?
    ensures Location(start, Pick(Changes(start, end), order), c) == Some(SlotOf(LastOf(end, c).value))
  {
    var moves := Changes(start, end);
    CommonAre(start, end);
    ChangesExact(start, end);
    PrefixMoves(start, end, moves, order, |order|);
    var done := Pick(moves, order);
    assert done[..|order|] == done;
    LocationAfter(start, end, done, c);
    if Moved(start, end, c) {
      var y :| 0 <= y < |moves| && Iid(moves[y]) == c;
      assert (y as nat) in order;
      var p :| 0 <= p < |order| && order[p] == y;
      assert Iid(done[p]) == c;
    } else {
      forall i | 0 <= i < |done| ensures Iid(done[i]) != c {
        assert DiffMove(start, end, done[i]);
      }
    }
  }

  // ---- Comparing what a slot holds with the snapshots ----

  ghost predicate NonNegativeWidth(width: int -> real) {
    forall c :: width(c) >= 0.0
  }

  lemma {:induction false} HeldAtMost(start: seq<Placement>, done: seq<Move>, cs: seq<int>, width: int -> real, s: Slot,
                                      at: int -> Option<Placement>)
    requires NonNegativeWidth(width)
    requires forall c <- cs :: Location(start, done, c) == Some(s) ==> at(c).Some? && SlotOf(at(c).value) == s
    ensures Held(start, done, cs, width, s) <= Shelved(at, cs, width, s)
  {
    if cs != [] {
      assert cs[|cs| - 1] in cs;
      HeldAtMost(start, done, cs[..|cs| - 1], width, s, at);
    }
  }

  /** Moving one record into the slot adds at most its width. */
  lemma {:induction false} ShelvedChange(at: int -> Option<Placement>, at': int -> Option<Placement>, cs: seq<int>,
                                         width: int -> real, s: Slot, x: int)
    requires NonNegativeWidth(width) && Distinct(cs)
    requires forall c :: c != x ==> at(c) == at'(c)
    ensures Shelved(at', cs, width, s) <=
      Shelved(at, cs, width, s) + (if x in cs && at'(x).Some? && SlotOf(at'(x).value) == s then width(x) else 0.0)
  {
    if cs != [] {
      var init := cs[..|cs| - 1];
      ShelvedChange(at, at', init, width, s, x);
      assert x in cs <==> x in init || x == cs[|cs| - 1];
    }
  }

  /** The width of all placements in a slot, by what each record is wide. */
  ghost function LoadOf(ps: seq<Placement>, width: int -> real, s: Slot): real {
    if ps == [] then 0.0
    else
      var p := ps[|ps| - 1];
      LoadOf(ps[..|ps| - 1], width, s) + (if SlotOf(p) == s then width(p.iid) else 0.0)
  }

  ghost predicate Widths(ps: seq<Placement>, width: int -> real) {
    forall j :: 0 <= j < |ps| ==> ps[j].width == width(ps[j].iid)
  }

  lemma {:induction false} LoadIsUnitWidth(ps: seq<Placement>, width: int -> real, s: Slot)
    requires Widths(ps, width)
    ensures LoadOf(ps, width, s) == UnitWidth(ps, s.space, s.unit)
  {
    if ps != [] { LoadIsUnitWidth(ps[..|ps| - 1], width, s); }
  }

  lemma {:induction false} FirstsWithinLoad(ps: seq<Placement>, cs: seq<int>, width: int -> real, s: Slot)
    requires NonNegativeWidth(width) && Distinct(cs)
    ensures Shelved(c => FirstOf(ps, c), cs, width, s) <= LoadOf(ps, width, s)
  {
    if ps == [] {
      NothingShelved(c => FirstOf(ps, c), cs, width, s);
    } else {
      var init, iid := ps[..|ps| - 1], ps[|ps| - 1].iid;
      FirstsWithinLoad(init, cs, width, s);
      if FirstOf(init, iid).None? {
        ShelvedChange(c => FirstOf(init, c), c => FirstOf(ps, c), cs, width, s, iid);
      } else {
        SameShelved(c => FirstOf(init, c), c => FirstOf(ps, c), cs, width, s);
        assert width(iid) >= 0.0;
      }
    }
  }

  lemma {:induction false} LastsWithinLoad(ps: seq<Placement>, cs: seq<int>, width: int -> real, s: Slot)
    requires NonNegativeWidth(width) && Distinct(cs)
    ensures Shelved(c => LastOf(ps, c), cs, width, s) <= LoadOf(ps, width, s)
  {
    if ps == [] {
      NothingShelved(c => LastOf(ps, c), cs, width, s);
    } else {
      var init := ps[..|ps| - 1];
      LastsWithinLoad(init, cs, width, s);
      ShelvedChange(c => LastOf(init, c), c => LastOf(ps, c), cs, width, s, ps[|ps| - 1].iid);
    }
  }

  lemma {:induction false} NothingShelved(at: int -> Option<Placement>, cs: seq<int>, width: int -> real, s: Slot)
    requires forall c :: at(c).None?
    ensures Shelved(at, cs, width, s) == 0.0
  {
    if cs != [] { NothingShelved(at, cs[..|cs| - 1], width, s); }
  }

  lemma {:induction false} SameShelved(at: int -> Option<Placement>, at': int -> Option<Placement>, cs: seq<int>,
                                       width: int -> real, s: Slot)
    requires forall c :: at(c) == at'(c)
    ensures Shelved(at, cs, width, s) == Shelved(at', cs, width, s)
  {
    if cs != [] { SameShelved(at, at', cs[..|cs| - 1], width, s); }
  }

  // ---- Safety ----

  /** No move of the cycle fallback ends in the slot. */
  ghost predicate NotFilledByFallback(moves: seq<Move>, order: seq<nat>, k: nat, s: Slot) {
    forall p :: k <= p < |order| && order[p] < |moves| && moves[order[p]].end.Some? ==>
      SlotOf(moves[order[p]].end.value) != s
  }

  /** No move into the slot is done before a move out of it: the order breaks no dependency into the slot. */
  ghost predicate InOrderInto(moves: seq<Move>, order: seq<nat>, s: Slot) {
    forall p, q :: 0 <= p < q < |order| && Blocks(moves, order[q], order[p]) ==> SlotOf(moves[order[p]].end.value) != s
  }

  /** The ordered moves break dependencies only into slots that the fallback fills. */
  lemma {:induction false} OutsideFallbackInOrder(moves: seq<Move>, order: seq<nat>, k: nat, s: Slot)
    requires IsSchedule(moves, order, k) && NotFilledByFallback(moves, order, k, s)
    ensures InOrderInto(moves, order, s)
  {
    FallbackIffCycle(moves, order, k);
  }

  /** Wherever a move out of the slot is behind a circle, it sorts before the moves into the slot that it blocks. */
  ghost predicate Untangled(moves: seq<Move>, s: Slot) {
    forall x: nat, y: nat ::
      Blocks(moves, y, x) && SlotOf(moves[x].end.value) == s && Behind(moves, y) ==> SortsFirst(moves, y, x)
  }

  /** For the ordered moves, whether a dependency into a slot is broken can be told from the moves alone. */
  lemma {:induction false} InOrderIff(moves: seq<Move>, order: seq<nat>, k: nat, s: Slot)
    requires IsSchedule(moves, order, k)
    ensures InOrderInto(moves, order, s) <==> Untangled(moves, s)
  {
    if InOrderInto(moves, order, s) {
      forall x: nat, y: nat | Blocks(moves, y, x) && SlotOf(moves[x].end.value) == s && Behind(moves, y)
        ensures SortsFirst(moves, y, x)
      {
        assert x in order && y in order;
        var p :| 0 <= p < |order| && order[p] == x;
        var q :| 0 <= q < |order| && order[q] == y;
        BrokenIff(moves, order, k, p, q);
      }
    }
    if Untangled(moves, s) {
      forall p, q | 0 <= p < q < |order| && Blocks(moves, order[q], order[p])
        ensures SlotOf(moves[order[p]].end.value) != s
      {
        BrokenIff(moves, order, k, p, q);
      }
    }
  }

  /** Once a move into the slot is done, everything that has to leave the slot has left it. */
  lemma {:induction false} SlotVacated(start: seq<Placement>, end: seq<Placement>, order: seq<nat>, t: nat, s: Slot,
                                       i: nat, c: int)
    requires var moves := Changes(start, end);
      && IsPermutation(order, |moves|) && InOrderInto(moves, order, s) && i < t <= |order|
      && moves[order[i]].end.Some? && SlotOf(moves[order[i]].end.value) == s
    requires c in Common(start, end) && Location(start, Pick(Changes(start, end), order)[..t], c) == Some(s)
    ensures LastOf(end, c).Some? && SlotOf(LastOf(end, c).value) == s
  {
    var moves := Changes(start, end);
    CommonAre(start, end);
    ChangesExact(start, end);
    PrefixMoves(start, end, moves, order, t);
    var done := Pick(moves, order)[..t];
    LocationAfter(start, end, done, c);
    if SlotOf(LastOf(end, c).value) != s {
      assert SlotOf(FirstOf(start, c).value) == s;
      assert Moved(start, end, c);
      var y: nat :| y < |moves| && Iid(moves[y]) == c;
      assert DiffMove(start, end, moves[y]) && DiffMove(start, end, moves[order[i]]);
      assert Blocks(moves, y, order[i]);
      var q := BlockerBefore(moves, order, t, s, i, y);
    }
  }

  lemma {:induction false} BlockerBefore(moves: seq<Move>, order: seq<nat>, t: nat, s: Slot, i: nat, y: nat)
    returns (q: nat)
    requires IsPermutation(order, |moves|) && InOrderInto(moves, order, s) && i < t <= |order|
    requires Blocks(moves, y, order[i]) && SlotOf(moves[order[i]].end.value) == s
    ensures q < t && Pick(moves, order)[..t][q] == moves[y]
  {
    assert y in order;
    q :| 0 <= q < |order| && order[q] == y;
    assert q != i;
  }

  /** Before any move into the slot is done, the slot only holds what was there at the start. */
  lemma {:induction false} NothingArrived(start: seq<Placement>, end: seq<Placement>, done: seq<Move>, s: Slot, c: int)
    requires AreDiffMoves(start, end, done) && FirstOf(start, c).Some?
    requires forall i :: 0 <= i < |done| && done[i].end.Some? ==> SlotOf(done[i].end.value) != s
    requires Location(start, done, c) == Some(s)
    ensures SlotOf(FirstOf(start, c).value) == s
  {
    LocationAfter(start, end, done, c);
    forall i | 0 <= i < |done| ensures Iid(done[i]) != c {
      assert DiffMove(start, end, done[i]);
    }
  }

  lemma {:induction false} HeldBeforeArrivals(start: seq<Placement>, end: seq<Placement>, done: seq<Move>, s: Slot,
                                              width: int -> real)
    requires AreDiffMoves(start, end, done)
    requires forall i :: 0 <= i < |done| && done[i].end.Some? ==> SlotOf(done[i].end.value) != s
    requires NonNegativeWidth(width)
    ensures Held(start, done, Common(start, end), width, s) <= LoadOf(start, width, s)
  {
    var cs := Common(start, end);
    CommonAre(start, end);
    forall c <- cs | Location(start, done, c) == Some(s)
      ensures FirstOf(start, c).Some? && SlotOf(FirstOf(start, c).value) == s
    {
      NothingArrived(start, end, done, s, c);
    }
    HeldAtMost(start, done, cs, width, s, c => FirstOf(start, c));
    FirstsWithinLoad(start, cs, width, s);
  }

  lemma {:induction false} HeldAfterArrival(start: seq<Placement>, end: seq<Placement>, order: seq<nat>, t: nat,
                                            s: Slot,
                                            i: nat, width: int -> real)
    requires var moves := Changes(start, end);
      && IsPermutation(order, |moves|) && InOrderInto(moves, order, s) && i < t <= |order|
      && moves[order[i]].end.Some? && SlotOf(moves[order[i]].end.value) == s
    requires NonNegativeWidth(width)
    ensures Held(start, Pick(Changes(start, end), order)[..t], Common(start, end), width, s) <= LoadOf(end, width, s)
  {
    var cs := Common(start, end);
    var done := Pick(Changes(start, end), order)[..t];
    CommonAre(start, end);
    forall c <- cs | Location(start, done, c) == Some(s)
      ensures LastOf(end, c).Some? && SlotOf(LastOf(end, c).value) == s
    {
      SlotVacated(start, end, order, t, s, i, c);
    }
    HeldAtMost(start, done, cs, width, s, c => LastOf(end, c));
    LastsWithinLoad(end, cs, width, s);
  }

  /**
   * Safe execution: if a slot respects its capacity in both snapshots, then after any number of the ordered
   * moves the common records in it still do, unless the order breaks a dependency into that slot.
   */
  lemma {:induction false} SlotNeverOverfull(start: seq<Placement>, end: seq<Placement>, order: seq<nat>, t: nat,
                                             s: Slot,
                                             width: int -> real, capacity: Capacity)
    requires IsPermutation(order, |Changes(start, end)|) && InOrderInto(Changes(start, end), order, s) && t <= |order|
    requires NonNegativeWidth(width)
    requires Fits(LoadOf(start, width, s), capacity) && Fits(LoadOf(end, width, s), capacity)
    ensures Fits(Held(start, Pick(Changes(start, end), order)[..t], Common(start, end), width, s), capacity)
  {
    var moves := Changes(start, end);
    ChangesExact(start, end);
    PrefixMoves(start, end, moves, order, t);
    if i :| 0 <= i < t && moves[order[i]].end.Some? && SlotOf(moves[order[i]].end.value) == s {
      HeldAfterArrival(start, end, order, t, s, i, width);
    } else {
      HeldBeforeArrivals(start, end, Pick(moves, order)[..t], s, width);
    }
  }

  /** Whatever the records are wide, and whatever capacity both snapshots respect, the slot is never overfull. */
  ghost predicate NeverOverfull(start: seq<Placement>, end: seq<Placement>, order: seq<nat>, s: Slot)
    requires IsPermutation(order, |Changes(start, end)|)
  {
    forall width: int -> real, capacity: Capacity, t: nat ::
      && t <= |order| && NonNegativeWidth(width)
      && Fits(LoadOf(start, width, s), capacity) && Fits(LoadOf(end, width, s), capacity)
      ==> Fits(Held(start, Pick(Changes(start, end), order)[..t], Common(start, end), width, s), capacity)
  }

  /**
   * And the exclusion is exact: between snapshots that place each record once, a slot is safe for all widths and
   * capacities if and only if the order breaks no dependency into it.
   */
  lemma {:induction false} SafeSlotIff(start: seq<Placement>, end: seq<Placement>, order: seq<nat>, s: Slot)
    requires IsPermutation(order, |Changes(start, end)|) && PlacedOnce(start) && PlacedOnce(end)
    ensures NeverOverfull(start, end, order, s) <==> InOrderInto(Changes(start, end), order, s)
  {
    var moves := Changes(start, end);
    if InOrderInto(moves, order, s) {
      forall width: int -> real, capacity: Capacity, t: nat
        | && t <= |order| && NonNegativeWidth(width)
          && Fits(LoadOf(start, width, s), capacity) && Fits(LoadOf(end, width, s), capacity)
        ensures Fits(Held(start, Pick(moves, order)[..t], Common(start, end), width, s), capacity)
      {
        SlotNeverOverfull(start, end, order, t, s, width, capacity);
      }
    } else {
      var p, q :| 0 <= p < q < |order| && Blocks(moves, order[q], order[p]) && SlotOf(moves[order[p]].end.value) == s;
      BrokenOverfills(start, end, order, s, p, q);
    }
  }

  /**
   * The planned moves between snapshots that place each record once are safe for a slot, whatever the widths and the
   * capacity, if and only if the moves are not tangled at that slot.
   */
  lemma {:induction false} PlanIsSafeIff(start: seq<Placement>, end: seq<Placement>, order: seq<nat>, k: nat, s: Slot)
    requires IsSchedule(Changes(start, end), order, k) && PlacedOnce(start) && PlacedOnce(end)
    ensures NeverOverfull(start, end, order, s) <==> Untangled(Changes(start, end), s)
  {
    InOrderIff(Changes(start, end), order, k, s);
    SafeSlotIff(start, end, order, s);
  }

  ghost predicate PlacedOnce(ps: seq<Placement>) {
    forall i, j :: 0 <= i < j < |ps| ==> ps[i].iid != ps[j].iid
  }

  /** Width 1 for two records, and 0 for all others. */
  function Pair(a: int, b: int): int -> real {
    (c: int) => if c == a || c == b then 1.0 else 0.0
  }

  lemma {:induction false} OnlyPlacement(ps: seq<Placement>, j: nat)
    requires PlacedOnce(ps) && j < |ps|
    ensures FirstOf(ps, ps[j].iid) == LastOf(ps, ps[j].iid) == Some(ps[j])
  {
    FirstOfIid(ps[..|ps| - 1], ps[j].iid);
    if j < |ps| - 1 {
      OnlyPlacement(ps[..|ps| - 1], j);
    } else {
      NoPlacement(ps[..|ps| - 1], ps[j].iid);
    }
  }

  lemma {:induction false} NoPlacement(ps: seq<Placement>, iid: int)
    requires forall j :: 0 <= j < |ps| ==> ps[j].iid != iid
    ensures FirstOf(ps, iid).None?
  {
    if ps != [] { NoPlacement(ps[..|ps| - 1], iid); }
  }

  /** Of two records, one of them elsewhere, a slot holds at most one. */
  lemma {:induction false} PairLoad(ps: seq<Placement>, a: int, b: int, off: int, s: Slot)
    requires PlacedOnce(ps) && off in {a, b}
    requires forall j :: 0 <= j < |ps| && ps[j].iid == off ==> SlotOf(ps[j]) != s
    ensures LoadOf(ps, Pair(a, b), s) <= 1.0
    ensures (forall j :: 0 <= j < |ps| ==> ps[j].iid !in {a, b} || ps[j].iid == off) ==>
      LoadOf(ps, Pair(a, b), s) == 0.0
  {
    if ps != [] { PairLoad(ps[..|ps| - 1], a, b, off, s); }
  }

  lemma {:induction false} PairHeld(start: seq<Placement>, done: seq<Move>, cs: seq<int>, a: int, b: int, s: Slot)
    requires Distinct(cs) && a != b && Location(start, done, a) == Location(start, done, b) == Some(s)
    ensures Held(start, done, cs, Pair(a, b), s) == (if a in cs then 1.0 else 0.0) + (if b in cs then 1.0 else 0.0)
  {
    if cs != [] {
      PairHeld(start, done, cs[..|cs| - 1], a, b, s);
      assert cs == cs[..|cs| - 1] + [cs[|cs| - 1]];
    }
  }

  /** A move into the slot before a move out of it: with those two records of width 1, the slot then holds 2. */
  lemma {:induction false} BrokenOverfills(start: seq<Placement>, end: seq<Placement>, order: seq<nat>, s: Slot,
                                           p: nat, q: nat)
    requires IsPermutation(order, |Changes(start, end)|) && PlacedOnce(start) && PlacedOnce(end)
    requires p < q < |order| && Blocks(Changes(start, end), order[q], order[p])
    requires SlotOf(Changes(start, end)[order[p]].end.value) == s
    ensures !NeverOverfull(start, end, order, s)
  {
    var moves := Changes(start, end);
    var done := Pick(moves, order)[..p + 1];
    ChangesExact(start, end);
    CommonAre(start, end);
    PrefixMoves(start, end, moves, order, p + 1);
    var a, b := Iid(moves[order[p]]), Iid(moves[order[q]]);
    BrokenLocations(start, end, order, s, p, q);
    PairLoads(start, end, a, b, s);
    PairHeld(start, done, Common(start, end), a, b, s);
    var width, one := Pair(a, b), Finite(1.0);
    assert NonNegativeWidth(width) && Fits(LoadOf(start, width, s), one) && Fits(LoadOf(end, width, s), one);
    assert !Fits(Held(start, done, Common(start, end), width, s), one);
  }

  lemma {:induction false} PairLoads(start: seq<Placement>, end: seq<Placement>, a: int, b: int, s: Slot)
    requires PlacedOnce(start) && PlacedOnce(end)
    requires FirstOf(start, a).Some? && SlotOf(FirstOf(start, a).value) != s
    requires LastOf(end, b).Some? && SlotOf(LastOf(end, b).value) != s
    ensures LoadOf(start, Pair(a, b), s) <= 1.0 && LoadOf(end, Pair(a, b), s) <= 1.0
  {
    forall j | 0 <= j < |start| && start[j].iid == a ensures SlotOf(start[j]) != s { OnlyPlacement(start, j); }
    forall j | 0 <= j < |end| && end[j].iid == b ensures SlotOf(end[j]) != s { OnlyPlacement(end, j); }
    PairLoad(start, a, b, a, s);
    PairLoad(end, a, b, b, s);
  }

  /** Two moves of a diff, one blocking the other. */
  lemma {:induction false} BrokenEnds(start: seq<Placement>, end: seq<Placement>, x: nat, y: nat)
    requires Blocks(Changes(start, end), y, x)
    ensures var moves := Changes(start, end);
      var s, a, b := SlotOf(moves[x].end.value), Iid(moves[x]), Iid(moves[y]);
      && a != b && a in Common(start, end) && b in Common(start, end)
      && FirstOf(start, a).Some? && SlotOf(FirstOf(start, a).value) != s
      && LastOf(end, b).Some? && SlotOf(LastOf(end, b).value) != s
      && FirstOf(start, b).Some? && SlotOf(FirstOf(start, b).value) == s
  {
    var moves := Changes(start, end);
    ChangesExact(start, end);
    CommonAre(start, end);
    assert DiffMove(start, end, moves[x]) && DiffMove(start, end, moves[y]);
    OtherIid(moves, x, y);
  }

  /** After a move into the slot, and before one out of it, both records are there. */
  lemma {:induction false} BrokenLocations(start: seq<Placement>, end: seq<Placement>, order: seq<nat>, s: Slot,
                                           p: nat, q: nat)
    requires IsPermutation(order, |Changes(start, end)|)
    requires p < q < |order| && Blocks(Changes(start, end), order[q], order[p])
    requires SlotOf(Changes(start, end)[order[p]].end.value) == s
    ensures var moves := Changes(start, end);
      var done, a, b := Pick(moves, order)[..p + 1], Iid(moves[order[p]]), Iid(moves[order[q]]);
      && a != b && a in Common(start, end) && b in Common(start, end)
      && FirstOf(start, a).Some? && SlotOf(FirstOf(start, a).value) != s
      && LastOf(end, b).Some? && SlotOf(LastOf(end, b).value) != s
      && Location(start, done, a) == Location(start, done, b) == Some(s)
  {
    var moves := Changes(start, end);
    var done, b := Pick(moves, order)[..p + 1], Iid(moves[order[q]]);
    ChangesExact(start, end);
    PrefixMoves(start, end, moves, order, p + 1);
    BrokenEnds(start, end, order[p], order[q]);
    assert done[p] == moves[order[p]];
    MovedTo(start, end, done, p);
    forall i | 0 <= i < |done| ensures Iid(done[i]) != b {
      assert done[i] == moves[order[i]] && order[i] != order[q];
      OtherIid(moves, order[i], order[q]);
    }
    NotMoved(start, end, done, b);
  }

  lemma {:induction false} MovedTo(start: seq<Placement>, end: seq<Placement>, done: seq<Move>, i: nat)
    requires AreDiffMoves(start, end, done) && i < |done|
    ensures done[i].end.Some? && Location(start, done, Iid(done[i])) == Some(SlotOf(done[i].end.value))
  {
    assert DiffMove(start, end, done[i]);
    LocationAfter(start, end, done, Iid(done[i]));
  }

  lemma {:induction false} NotMoved(start: seq<Placement>, end: seq<Placement>, done: seq<Move>, iid: int)
    requires AreDiffMoves(start, end, done) && FirstOf(start, iid).Some?
    requires forall i :: 0 <= i < |done| ==> Iid(done[i]) != iid
    ensures Location(start, done, iid) == Some(SlotOf(FirstOf(start, iid).value))
  {
    LocationAfter(start, end, done, iid);
  }

  lemma {:induction false} OtherIid(moves: seq<Move>, i: nat, j: nat)
    requires i < |moves| && j < |moves| && i != j
    requires forall x, y :: 0 <= x < y < |moves| ==> Iid(moves[x]) != Iid(moves[y])
    ensures Iid(moves[i]) != Iid(moves[j])
  {
  }

  const FULL: seq<Placement> := [Placement(1, "Shelf", 1, 1, 1.0, 0), Placement(2, "Shelf", 2, 2, 1.0, 1)]
  const SWAPPED: seq<Placement> := [Placement(1, "Shelf", 2, 1, 1.0, 0), Placement(2, "Shelf", 1, 2, 1.0, 1)]

  lemma {:induction false} SwapDiff()
    ensures Changes(FULL, SWAPPED) == [Move(Some(FULL[0]), Some(SWAPPED[0])), Move(Some(FULL[1]), Some(SWAPPED[1]))]
    ensures Common(FULL, SWAPPED) == [1, 2]
    ensures UnitWidth(FULL, "Shelf", 1) == UnitWidth(FULL, "Shelf", 2) == 1.0
    ensures UnitWidth(SWAPPED, "Shelf", 1) == UnitWidth(SWAPPED, "Shelf", 2) == 1.0
    ensures SlotOf(FULL[0]) == SlotOf(SWAPPED[1]) && SlotOf(FULL[1]) == SlotOf(SWAPPED[0])
  {
    assert FULL[..1] == [FULL[0]] && FULL[..1][..0] == [];
    assert SWAPPED[..1] == [SWAPPED[0]] && SWAPPED[..1][..0] == [];
    assert LastOf(SWAPPED[..1], 1) == Some(SWAPPED[0]);
    assert LastOf(SWAPPED, 1) == Some(SWAPPED[0]) && LastOf(SWAPPED, 2) == Some(SWAPPED[1]);
    assert FirstOf([], 1) == None && FirstOf(FULL[..1], 2) == None;
    assert Changes(FULL[..1], SWAPPED) == [Move(Some(FULL[0]), Some(SWAPPED[0]))];
    assert Common(FULL[..1], SWAPPED) == [1];
  }

  /** The exclusion is needed: swapping two full slots overfills the one that is filled first. */
  lemma {:induction false} SwapOverfills(order: seq<nat>, k: nat, width: int -> real)
    requires IsSchedule(Changes(FULL, SWAPPED), order, k) && width(1) == width(2) == 1.0
    ensures UnitWidth(FULL, "Shelf", 1) == UnitWidth(FULL, "Shelf", 2) == 1.0
    ensures UnitWidth(SWAPPED, "Shelf", 1) == UnitWidth(SWAPPED, "Shelf", 2) == 1.0
    ensures exists s :: Held(FULL, Pick(Changes(FULL, SWAPPED), order)[..1], Common(FULL, SWAPPED), width, s) == 2.0
  {
    SwapDiff();
    var m := Changes(FULL, SWAPPED)[order[0]];
    var done := Pick(Changes(FULL, SWAPPED), order)[..1];
    assert done == [m] && done[..0] == [];
    var s := SlotOf(m.end.value);
    assert FULL[..1] == [FULL[0]] && FULL[..1][..0] == [];
    assert FirstOf(FULL[..1], 1) == Some(FULL[0]) && FirstOf(FULL[..1], 2) == None;
    assert FirstOf(FULL, 1) == Some(FULL[0]) && FirstOf(FULL, 2) == Some(FULL[1]);
    if order[0] == 0 {
      assert Iid(m) == 1 && Location(FULL, done[..0], 2) == Some(s);
    } else {
      assert Iid(m) == 2 && Location(FULL, done[..0], 1) == Some(s);
    }
    assert Location(FULL, done, 1) == Some(s) && Location(FULL, done, 2) == Some(s);
    var cs := [1, 2];
    assert cs[..1] == [1] && cs[..1][..0] == [];
    assert Held(FULL, done, cs[..1], width, s) == 1.0;
    assert Held(FULL, done, cs, width, s) == 2.0;
  }

  // ---- Packing and scheduling together ----

  lemma {:induction false} ExpandedWidths(p: Job, sorted: seq<Record>, out: seq<Slotting>, width: int -> real)
    requires Expandable(p, out) && DistinctIds(p.elems)
    requires forall r <- Flatten(p.elems) :: RecordWidth(r, p.measure) == width(r.iid)
    ensures Widths(Expand(p, sorted, out), width)
  {
    if out != [] {
      var last := out[|out| - 1];
      ExpandedWidths(p, sorted, out[..|out| - 1], width);
      FiledDistinct(p.elems, last.elem);
      var rs := p.elems[last.elem].records;
      forall k | 0 <= k < |rs| ensures RecordWidth(rs[k], p.measure) == width(rs[k].iid) {
        FlattenAt(p.elems, last.elem, k);
      }
    }
  }

  /** Each record is as wide as `width` says, in a snapshot of the items. */
  ghost predicate RecordWidths(org: Organisation, sleeves: map<string, real>, items: seq<Item>, width: int -> real) {
    forall r <- Records(items) :: RecordWidth(r, MeasureOf(org, sleeves, items)) == width(r.iid)
  }

  lemma {:induction false} BuiltWidths(org: Organisation, sleeves: map<string, real>, items: seq<Item>,
                                       clock: nat -> int, groups: seq<Element>, width: int -> real)
    requires Built(org, sleeves, items, clock, groups) && RecordWidths(org, sleeves, items, width)
    ensures Widths(PlacementsOf(org, sleeves, items, groups), width)
  {
    var p := JobOf(org, sleeves, groups);
    ClashIff(org, sleeves, items, clock, groups);
    GroupsFlatten(org, items, clock, groups, sleeves);
    JobMeasure(org, sleeves, items, clock, groups);
    AlreadySorted(org, sleeves, items, groups);
    ExpandedWidths(p, Records(items), Pack(p), width);
  }

  /**
   * Two snapshots of one organisation without clashing ids, taken with the same record widths: the ordered moves
   * between them can be carried out one at a time without ever exceeding the capacity of a unit at which the moves are
   * not tangled.
   */
  lemma {:induction false} ReshelvingIsSafe(org: Organisation, sleeves: map<string, real>,
                                            itemsA: seq<Item>, clockA: nat -> int, groupsA: seq<Element>,
                                            itemsB: seq<Item>, clockB: nat -> int, groupsB: seq<Element>,
                                            order: seq<nat>, k: nat, t: nat, slot: nat, unit: int, width: int -> real)
    requires Built(org, sleeves, itemsA, clockA, groupsA) && RecordWidths(org, sleeves, itemsA, width)
    requires Built(org, sleeves, itemsB, clockB, groupsB) && RecordWidths(org, sleeves, itemsB, width)
    requires !org.density.UnknownDensity? && DistinctNames(WithSpill(org.spaces)) && slot < |org.spaces| + 1
    requires forall s :: 0 <= s < |org.spaces| && org.spaces[s].capacity.Finite? ==> org.spaces[s].capacity.width >= 0.0
    requires NonNegativeWidth(width)
    requires var start, end := PlacementsOf(org, sleeves, itemsA, groupsA), PlacementsOf(org, sleeves, itemsB, groupsB);
      && IsSchedule(Changes(start, end), order, k) && t <= |order|
      && Untangled(Changes(start, end), Slot(WithSpill(org.spaces)[slot].name, unit))
    ensures var start, end := PlacementsOf(org, sleeves, itemsA, groupsA), PlacementsOf(org, sleeves, itemsB, groupsB);
      var s := Slot(WithSpill(org.spaces)[slot].name, unit);
      Fits(Held(start, Pick(Changes(start, end), order)[..t], Common(start, end), width, s),
           WithSpill(org.spaces)[slot].capacity)
  {
    var start, end := PlacementsOf(org, sleeves, itemsA, groupsA), PlacementsOf(org, sleeves, itemsB, groupsB);
    var s := Slot(WithSpill(org.spaces)[slot].name, unit);
    SnapshotCapacity(org, sleeves, itemsA, clockA, groupsA, slot, unit);
    SnapshotCapacity(org, sleeves, itemsB, clockB, groupsB, slot, unit);
    BuiltWidths(org, sleeves, itemsA, clockA, groupsA, width);
    BuiltWidths(org, sleeves, itemsB, clockB, groupsB, width);
    LoadIsUnitWidth(start, width, s);
    LoadIsUnitWidth(end, width, s);
    InOrderIff(Changes(start, end), order, k, s);
    SlotNeverOverfull(start, end, order, t, s, width, WithSpill(org.spaces)[slot].capacity);
  }
}
