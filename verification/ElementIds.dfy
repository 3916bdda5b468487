/** When the ids of grouping elements clash, and so when a snapshot loses records (org/org.go). */
module ElementIds {
  import opened ShelfModel
  import opened ShelfOrder
  import opened FirstFit
  import opened ShelfGroups
  import opened ShelfSnapshot

  // ---- Without grouping ----

  predicate TooWide(r: Record, spaces: seq<Space>, m: Measure) {
    !FitsSomewhere(Element([r], 0), spaces, m)
  }

  /** An element keeps its list position as id, or takes the instance id when it fits on no shelf. */
  function SingleId(items: seq<Item>, spaces: seq<Space>, m: Measure, k: nat): int
    requires k < |items|
  {
    if TooWide(items[k].record, spaces, m) then items[k].record.iid else k + 1
  }

  lemma {:induction false} BrokenSingles(items: seq<Item>, spaces: seq<Space>, m: Measure)
    ensures var out := BreakOut(Singles(items), spaces, m);
      |out| == |items| && forall k :: 0 <= k < |items| ==> out[k].id == SingleId(items, spaces, m, k)
  {
    if items != [] {
      var init, last := items[..|items| - 1], Singles(items)[|items| - 1];
      BrokenSingles(init, spaces, m);
      assert Singles(items)[..|items| - 1] == Singles(init);
      assert BreakOut(Singles(items), spaces, m) == BreakOut(Singles(init), spaces, m) + BreakOutOne(last, spaces, m);
      assert FitsSomewhere(last, spaces, m) <==> !TooWide(last.records[0], spaces, m);
    }
  }

  /** No too wide record has an instance id that is the list number of a record that fits. */
  ghost predicate NoNumberTaken(items: seq<Item>, spaces: seq<Space>, m: Measure) {
    forall j, k :: 0 <= j < |items| && 0 <= k < |items| ==>
      TooWide(items[j].record, spaces, m) && !TooWide(items[k].record, spaces, m) ==> items[j].record.iid != k + 1
  }

  /** Without grouping, ids clash exactly if the instance id of a too wide record is the position of one that fits. */
  lemma {:induction false} SingleIdsDistinctIff(items: seq<Item>, spaces: seq<Space>, m: Measure)
    requires DistinctIids(Records(items))
    ensures DistinctIds(BreakOut(Singles(items), spaces, m)) <==> NoNumberTaken(items, spaces, m)
  {
    BrokenSingles(items, spaces, m);
    RecordsAt(items);
    var out := BreakOut(Singles(items), spaces, m);
    if !DistinctIds(out) {
      var a, b :| 0 <= a < b < |out| && out[a].id == out[b].id;
      assert SingleId(items, spaces, m, a) == SingleId(items, spaces, m, b);
      assert Records(items)[a].iid != Records(items)[b].iid;
    } else {
      forall j, k
        | && 0 <= j < |items| && TooWide(items[j].record, spaces, m)
          && 0 <= k < |items| && !TooWide(items[k].record, spaces, m)
        ensures items[j].record.iid != k + 1
      {
        assert out[j].id == items[j].record.iid && out[k].id == k + 1;
      }
    }
  }

  // ---- With grouping ----

  /** The clock never repeats, never reads 0 and never hits an instance id; no instance id is 0. */
  ghost predicate UsableClock(items: seq<Item>, clock: nat -> int) {
    && (forall i, j :: 0 <= i < j < |items| ==> clock(i) != clock(j))
    && (forall i :: 0 <= i < |items| ==> clock(i) != 0 && items[i].record.iid != 0)
    && (forall i, j :: 0 <= i < |items| && 0 <= j < |items| ==> clock(i) != items[j].record.iid)
  }

  /** The first of the joined neighbours that end with item `n - 1`. */
  function LastStart(items: seq<Item>, n: nat): (from: nat)
    requires 0 < n <= |items|
    ensures from < n
  {
    if n > 1 && Joined(items[n - 2], items[n - 1]) then LastStart(items, n - 1) else n - 1
  }

  lemma {:induction false} LastStartIs(items: seq<Item>, from: nat, n: nat)
    requires from < n <= |items| && forall k :: from < k < n ==> Joined(items[k - 1], items[k])
    requires from > 0 ==> !Joined(items[from - 1], items[from])
    ensures LastStart(items, n) == from
  {
    if from < n - 1 {
      var k := n - 1;
      assert Joined(items[k - 1], items[k]);
      LastStartIs(items, from, n - 1);
    }
  }

  predicate RangeFits(items: seq<Item>, from: nat, to: nat, spaces: seq<Space>, m: Measure)
    requires from <= to <= |items|
  {
    FitsSomewhere(Element(Records(items[from..to]), 0), spaces, m)
  }

  /** How many runs of joined neighbours among the first `n` items resume an earlier label and fit on some shelf. */
  function ResumedGroups(items: seq<Item>, n: nat, spaces: seq<Space>, m: Measure): nat
    requires n <= |items|
  {
    if n == 0 then 0
    else
      var from := LastStart(items, n);
      ResumedGroups(items, from, spaces, m)
      + (if Resumes(items, from) && RangeFits(items, from, n, spaces, m) then 1 else 0)
  }

  /** The last group of a grouping counts exactly if it has id 0 and fits. */
  lemma {:induction false} CountGroup(items: seq<Item>, clock: nat -> int, from: nat, n: nat, e: Element,
                                      spaces: seq<Space>,
                                      m: Measure)
    requires from < n <= |items| && IsGroup(items, clock, e, from, n) && UsableClock(items, clock)
    requires from > 0 ==> !Joined(items[from - 1], items[from])
    ensures ResumedGroups(items, n, spaces, m) ==
      ResumedGroups(items, from, spaces, m) + (if e.id == 0 && FitsSomewhere(e, spaces, m) then 1 else 0)
  {
    LastStartIs(items, from, n);
    assert FitsSomewhere(e, spaces, m) <==> RangeFits(items, from, n, spaces, m);
  }

  /** Where an id below item `n` can come from. */
  ghost predicate IdBelow(items: seq<Item>, clock: nat -> int, n: nat, id: int)
    requires n <= |items|
  {
    || id == 0
    || (exists i :: 0 <= i < n && clock(i) == id)
    || (exists i :: 0 <= i < n && items[i].record.iid == id)
  }

  ghost predicate IdsBelow(items: seq<Item>, clock: nat -> int, n: nat, elems: seq<Element>)
    requires n <= |items|
  {
    forall k :: 0 <= k < |elems| ==> IdBelow(items, clock, n, elems[k].id)
  }

  ghost predicate HasZero(elems: seq<Element>) {
    exists k :: 0 <= k < |elems| && elems[k].id == 0
  }

  lemma {:induction false} HasZeroConcat(a: seq<Element>, b: seq<Element>)
    ensures HasZero(a + b) <==> HasZero(a) || HasZero(b)
  {
    if k :| 0 <= k < |a| && a[k].id == 0 { assert (a + b)[k].id == 0; }
    if k :| 0 <= k < |b| && b[k].id == 0 { assert (a + b)[|a| + k].id == 0; }
  }

  lemma {:induction false} IdsBelowGrows(items: seq<Item>, clock: nat -> int, from: nat, to: nat, elems: seq<Element>)
    requires from <= to <= |items| && IdsBelow(items, clock, from, elems)
    ensures IdsBelow(items, clock, to, elems)
  {
  }

  lemma {:induction false} GroupIdSources(items: seq<Item>, clock: nat -> int, n: nat, elems: seq<Element>,
                                          spaces: seq<Space>, m: Measure)
    requires n <= |items| && IsGrouping(items, clock, n, elems) && UsableClock(items, clock)
    ensures IdsBelow(items, clock, n, BreakOut(elems, spaces, m))
  {
    if elems != [] {
      var e := elems[|elems| - 1];
      var from := n - |e.records|;
      var init := BreakOut(elems[..|elems| - 1], spaces, m);
      GroupIdSources(items, clock, from, elems[..|elems| - 1], spaces, m);
      IdsBelowGrows(items, clock, from, n, init);
      TailIds(items, clock, from, n, e, spaces, m);
      IdsBelowConcat(items, clock, n, init, BreakOutOne(e, spaces, m));
    }
  }

  lemma {:induction false} IdsBelowConcat(items: seq<Item>, clock: nat -> int, n: nat, a: seq<Element>, b: seq<Element>)
    requires n <= |items| && IdsBelow(items, clock, n, a) && IdsBelow(items, clock, n, b)
    ensures IdsBelow(items, clock, n, a + b)
  {
  }

  lemma {:induction false} GroupsWithZero(items: seq<Item>, clock: nat -> int, n: nat, elems: seq<Element>,
                                          spaces: seq<Space>, m: Measure)
    requires n <= |items| && IsGrouping(items, clock, n, elems) && UsableClock(items, clock)
    ensures HasZero(BreakOut(elems, spaces, m)) <==> ResumedGroups(items, n, spaces, m) > 0
  {
    if elems != [] {
      var e := elems[|elems| - 1];
      var from := n - |e.records|;
      GroupsWithZero(items, clock, from, elems[..|elems| - 1], spaces, m);
      CountGroup(items, clock, from, n, e, spaces, m);
      TailIds(items, clock, from, n, e, spaces, m);
      HasZeroConcat(BreakOut(elems[..|elems| - 1], spaces, m), BreakOutOne(e, spaces, m));
    }
  }

  /** The ids that one group contributes: its own, or the instance ids of its records. */
  lemma {:induction false} TailIds(items: seq<Item>, clock: nat -> int, from: nat, to: nat, e: Element,
                                   spaces: seq<Space>, m: Measure)
    requires from < to <= |items| && IsGroup(items, clock, e, from, to) && UsableClock(items, clock)
    ensures var tail := BreakOutOne(e, spaces, m);
      && (FitsSomewhere(e, spaces, m) ==> tail == [e])
      && (!FitsSomewhere(e, spaces, m) ==> |tail| == to - from)
      && (!FitsSomewhere(e, spaces, m) ==> forall k :: 0 <= k < |tail| ==> tail[k].id == items[from + k].record.iid)
      && IdsBelow(items, clock, to, tail)
      && (HasZero(tail) <==> e.id == 0 && FitsSomewhere(e, spaces, m))
  {
    RecordsAt(items[from..to]);
    var tail := BreakOutOne(e, spaces, m);
    if FitsSomewhere(e, spaces, m) {
      assert tail[0] == e;
    } else {
      forall k | 0 <= k < to - from ensures tail[k].id == items[from + k].record.iid {
        assert items[from..to][k] == items[from + k];
      }
    }
  }

  /** The ids a group adds are new, unless it resumes a label and some earlier group has done so. */
  lemma {:induction false} FreshTail(items: seq<Item>, clock: nat -> int, from: nat, to: nat, e: Element,
                                     spaces: seq<Space>, m: Measure, id: int, k: nat)
    requires from < to <= |items| && IsGroup(items, clock, e, from, to) && UsableClock(items, clock)
    requires DistinctIids(Records(items)) && IdBelow(items, clock, from, id) && k < |BreakOutOne(e, spaces, m)|
    ensures BreakOutOne(e, spaces, m)[k].id == id ==> id == 0 && e.id == 0 && FitsSomewhere(e, spaces, m)
  {
    TailIds(items, clock, from, to, e, spaces, m);
    RecordsAt(items);
    var tail := BreakOutOne(e, spaces, m);
    if !FitsSomewhere(e, spaces, m) {
      forall i | 0 <= i < from ensures items[i].record.iid != tail[k].id {
        assert Records(items)[i].iid != Records(items)[from + k].iid;
      }
    }
  }

  lemma {:induction false} DistinctTail(items: seq<Item>, clock: nat -> int, from: nat, to: nat, e: Element,
                                        spaces: seq<Space>, m: Measure)
    requires from < to <= |items| && IsGroup(items, clock, e, from, to)
    requires UsableClock(items, clock) && DistinctIids(Records(items))
    ensures DistinctIds(BreakOutOne(e, spaces, m))
  {
    TailIds(items, clock, from, to, e, spaces, m);
    RecordsAt(items);
    var tail := BreakOutOne(e, spaces, m);
    if !FitsSomewhere(e, spaces, m) {
      forall a, b | 0 <= a < b < |tail| ensures tail[a].id != tail[b].id {
        assert Records(items)[from + a].iid != Records(items)[from + b].iid;
      }
    }
  }

  lemma {:induction false} DistinctConcat(a: seq<Element>, b: seq<Element>)
    ensures DistinctIds(a + b) <==>
      DistinctIds(a) && DistinctIds(b) && forall i, j :: 0 <= i < |a| && 0 <= j < |b| ==> a[i].id != b[j].id
  {
    var c := a + b;
    if DistinctIds(c) {
      forall i, j | 0 <= i < j < |a| ensures a[i].id != a[j].id { assert c[i].id != c[j].id; }
      forall i, j | 0 <= i < j < |b| ensures b[i].id != b[j].id { assert c[|a| + i].id != c[|a| + j].id; }
      forall i, j | 0 <= i < |a| && 0 <= j < |b| ensures a[i].id != b[j].id { assert c[i].id != c[|a| + j].id; }
    }
  }

  lemma {:induction false} GroupIdsDistinct(items: seq<Item>, clock: nat -> int, n: nat, elems: seq<Element>,
                                            spaces: seq<Space>, m: Measure)
    requires n <= |items| && IsGrouping(items, clock, n, elems)
    requires UsableClock(items, clock) && DistinctIids(Records(items))
    ensures DistinctIds(BreakOut(elems, spaces, m)) <==> ResumedGroups(items, n, spaces, m) <= 1
  {
    if elems != [] {
      var e := elems[|elems| - 1];
      var from := n - |e.records|;
      var init := BreakOut(elems[..|elems| - 1], spaces, m);
      var tail := BreakOutOne(e, spaces, m);
      GroupIdsDistinct(items, clock, from, elems[..|elems| - 1], spaces, m);
      GroupIdSources(items, clock, from, elems[..|elems| - 1], spaces, m);
      GroupsWithZero(items, clock, from, elems[..|elems| - 1], spaces, m);
      CountGroup(items, clock, from, n, e, spaces, m);
      DistinctTail(items, clock, from, n, e, spaces, m);
      DistinctConcat(init, tail);
      forall i, j | 0 <= i < |init| && 0 <= j < |tail|
        ensures init[i].id == tail[j].id ==> init[i].id == 0 && e.id == 0 && FitsSomewhere(e, spaces, m)
      {
        FreshTail(items, clock, from, n, e, spaces, m, init[i].id, j);
      }
      if i :| 0 <= i < |init| && init[i].id == 0 {
        if e.id == 0 && FitsSomewhere(e, spaces, m) { assert init[i].id == tail[0].id; }
      }
    }
  }

  /** With grouping, ids clash exactly if two groups resume a label seen before and both fit on some shelf. */
  lemma {:induction false} GroupIdsDistinctIff(items: seq<Item>, clock: nat -> int, elems: seq<Element>,
                                               spaces: seq<Space>, m: Measure)
    requires IsGrouping(items, clock, |items|, elems) && UsableClock(items, clock) && DistinctIids(Records(items))
    ensures DistinctIds(BreakOut(elems, spaces, m)) <==> ResumedGroups(items, |items|, spaces, m) <= 1
  {
    GroupIdsDistinct(items, clock, |items|, elems, spaces, m);
  }
}
