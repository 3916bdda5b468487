/** Grouping by label, and breaking up groups that fit on no shelf (org/org.go). */
module ShelfGroups {
  import opened ShelfModel
  import opened ShelfOrder

  // ---- Grouping ----

  /** Neighbours that belong in one group. */
  predicate Joined(a: Item, b: Item) {
    a.sort.LabelCatno? && b.sort.LabelCatno? && a.record.groupKey == b.record.groupKey
  }

  /** The label the loop remembers after the first `n` items: that of the last item sorted by label. */
  function LastLabel(items: seq<Item>, n: nat): string
    requires n <= |items|
  {
    if n == 0 then ""
    else if items[n - 1].sort.LabelCatno? then items[n - 1].record.groupKey
    else LastLabel(items, n - 1)
  }

  /** A group that starts at item `n` takes up the remembered label again, and then gets no fresh id. */
  predicate Resumes(items: seq<Item>, n: nat)
    requires n < |items|
  {
    items[n].sort.LabelCatno? && items[n].record.groupKey == LastLabel(items, n)
  }

  /** Item `j` is the last one in front of item `n` that is sorted by label. */
  predicate LastByLabel(items: seq<Item>, n: nat, j: nat)
    requires n <= |items|
  {
    j < n && items[j].sort == LabelCatno && forall i :: j < i < n ==> items[i].sort != LabelCatno
  }

  ghost predicate NoneByLabel(items: seq<Item>, n: nat)
    requires n <= |items|
  {
    forall j :: 0 <= j < n ==> items[j].sort != LabelCatno
  }

  /** The remembered label, and the item it is from. */
  lemma {:induction false} LastLabelIs(items: seq<Item>, n: nat) returns (j: nat)
    requires n <= |items|
    ensures if NoneByLabel(items, n) then LastLabel(items, n) == ""
      else LastByLabel(items, n, j) && LastLabel(items, n) == items[j].record.groupKey
  {
    j := 0;
    if n > 0 {
      if items[n - 1].sort == LabelCatno {
        j := n - 1;
      } else {
        j := LastLabelIs(items, n - 1);
      }
    }
  }

  /**
   * An item takes up a label again exactly if the last item in front of it that is sorted by label has the same one;
   * with no such item, if its own label is empty.
   */
  lemma {:induction false} ResumesIff(items: seq<Item>, n: nat)
    requires n < |items| && items[n].sort == LabelCatno
    ensures Resumes(items, n) <==>
      if NoneByLabel(items, n) then items[n].record.groupKey == ""
      else exists j: nat :: LastByLabel(items, n, j) && items[j].record.groupKey == items[n].record.groupKey
  {
    var j := LastLabelIs(items, n);
  }

  /** The id of a group that starts at item `n`: the clock, or 0 for one that resumes a label. */
  function GroupId(items: seq<Item>, clock: nat -> int, n: nat): int
    requires n < |items|
  {
    if Resumes(items, n) then 0 else clock(n)
  }

  /** Element `e` is the group of items from..to-1. */
  ghost predicate IsGroup(items: seq<Item>, clock: nat -> int, e: Element, from: nat, to: nat)
    requires from < to <= |items|
  {
    && e.id == GroupId(items, clock, from)
    && e.records == Records(items[from..to])
    && forall k :: from < k < to ==> Joined(items[k - 1], items[k])
  }

  /** The elements are the maximal groups of joined neighbours among the first `n` items. */
  ghost predicate IsGrouping(items: seq<Item>, clock: nat -> int, n: int, elems: seq<Element>)
    requires n <= |items|
    decreases |elems|
  {
    if elems == [] then n == 0
    else
      var from := n - |elems[|elems| - 1].records|;
      && 0 <= from < n
      && IsGroup(items, clock, elems[|elems| - 1], from, n)
      && (from > 0 ==> !Joined(items[from - 1], items[from]))
      && IsGrouping(items, clock, from, elems[..|elems| - 1])
  }

  /** The loop after `i` items: the elements closed so far end at `from`, and `curr` holds the items since. */
  ghost predicate Midway(items: seq<Item>, clock: nat -> int, i: nat, from: nat, elems: seq<Element>, curr: Element) {
    && from <= i <= |items|
    && IsGrouping(items, clock, from, elems)
    && (0 < from < i ==> !Joined(items[from - 1], items[from]))
    && (from == i ==> curr == Element([], 0) && (i > 0 ==> !items[i - 1].sort.LabelCatno?))
    && (from < i ==> curr.records != [] && IsGroup(items, clock, curr, from, i) && items[i - 1].sort.LabelCatno?)
  }

  /** Closes the open group, if there is one. */
  function Flushed(elems: seq<Element>, curr: Element): seq<Element> {
    if |curr.records| > 0 then elems + [curr] else elems
  }

  /** The body of the grouping loop. */
  method GroupStep(items: seq<Item>, clock: nat -> int, i: nat, ghost from: nat, elems: seq<Element>, curr: Element,
                   currLabel: string)
    returns (elems': seq<Element>, curr': Element, currLabel': string, ghost from': nat)
    requires i < |items| && Midway(items, clock, i, from, elems, curr) && currLabel == LastLabel(items, i)
    ensures Midway(items, clock, i + 1, from', elems', curr') && currLabel' == LastLabel(items, i + 1)
  {
    elems', curr', currLabel', from' := elems, curr, currLabel, from;
    var r := items[i].record;
    if items[i].sort.LabelCatno? {
      if r.groupKey == currLabel {
        ExtendGroup(items, clock, i, from, elems, curr);
        curr' := Element(curr.records + [r], curr.id);
      } else {
        NewGroup(items, clock, i, from, elems, curr);
        elems', currLabel', curr', from' := Flushed(elems, curr), r.groupKey, Element([r], clock(i)), i;
      }
    } else {
      LoneRecord(items, clock, i, from, elems, curr);
      elems', curr', from' := Flushed(elems, curr) + [Element([r], clock(i))], Element([], 0), i + 1;
    }
  }

  method GroupByLabel(items: seq<Item>, clock: nat -> int) returns (elems: seq<Element>)
    ensures IsGrouping(items, clock, |items|, elems)
  {
    elems := [];
    var currLabel := "";
    var curr := Element([], 0);
    ghost var from: nat := 0;
    for i := 0 to |items|
      invariant Midway(items, clock, i, from, elems, curr)
      invariant currLabel == LastLabel(items, i)
    {
      elems, curr, currLabel, from := GroupStep(items, clock, i, from, elems, curr, currLabel);
    }
    FlushGroup(items, clock, |items|, from, elems, curr);
    elems := Flushed(elems, curr);
  }

  lemma {:induction false} CloseGroup(items: seq<Item>, clock: nat -> int, from: nat, to: nat, elems: seq<Element>,
                                      e: Element)
    requires from < to <= |items| && IsGrouping(items, clock, from, elems) && IsGroup(items, clock, e, from, to)
    requires from > 0 ==> !Joined(items[from - 1], items[from])
    ensures IsGrouping(items, clock, to, elems + [e])
  {
    RecordsAt(items[from..to]);
    assert (elems + [e])[..|elems|] == elems;
  }

  lemma {:induction false} FlushGroup(items: seq<Item>, clock: nat -> int, i: nat, from: nat, elems: seq<Element>,
                                      curr: Element)
    requires Midway(items, clock, i, from, elems, curr)
    ensures IsGrouping(items, clock, i, Flushed(elems, curr))
  {
    if from < i { CloseGroup(items, clock, from, i, elems, curr); }
  }

  lemma {:induction false} LongerGroup(items: seq<Item>, clock: nat -> int, from: nat, i: nat, e: Element)
    requires from < i < |items| && IsGroup(items, clock, e, from, i) && Joined(items[i - 1], items[i])
    ensures IsGroup(items, clock, Element(e.records + [items[i].record], e.id), from, i + 1)
  {
    GrowGroup(items, from, i);
  }

  lemma {:induction false} ExtendGroup(items: seq<Item>, clock: nat -> int, i: nat, from: nat, elems: seq<Element>,
                                       curr: Element)
    requires Midway(items, clock, i, from, elems, curr) && i < |items|
    requires items[i].sort.LabelCatno? && items[i].record.groupKey == LastLabel(items, i)
    ensures Midway(items, clock, i + 1, from, elems, Element(curr.records + [items[i].record], curr.id))
  {
    if from == i {
      OneItem(items, i);
      assert curr.records + [items[i].record] == [items[i].record];
    } else {
      LongerGroup(items, clock, from, i, curr);
    }
  }

  lemma {:induction false} NewGroup(items: seq<Item>, clock: nat -> int, i: nat, from: nat, elems: seq<Element>,
                                    curr: Element)
    requires Midway(items, clock, i, from, elems, curr) && i < |items|
    requires items[i].sort.LabelCatno? && items[i].record.groupKey != LastLabel(items, i)
    ensures Midway(items, clock, i + 1, i, Flushed(elems, curr), Element([items[i].record], clock(i)))
  {
    FlushGroup(items, clock, i, from, elems, curr);
    OneItem(items, i);
  }

  lemma {:induction false} LoneRecord(items: seq<Item>, clock: nat -> int, i: nat, from: nat, elems: seq<Element>,
                                      curr: Element)
    requires Midway(items, clock, i, from, elems, curr) && i < |items| && !items[i].sort.LabelCatno?
    ensures var closed := Flushed(elems, curr) + [Element([items[i].record], clock(i))];
      Midway(items, clock, i + 1, i + 1, closed, Element([], 0))
  {
    FlushGroup(items, clock, i, from, elems, curr);
    OneItem(items, i);
    CloseGroup(items, clock, i, i + 1, Flushed(elems, curr), Element([items[i].record], clock(i)));
  }

  lemma {:induction false} GrowGroup(items: seq<Item>, from: nat, i: nat)
    requires from <= i < |items|
    ensures Records(items[from..i + 1]) == Records(items[from..i]) + [items[i].record]
  {
    assert items[from..i + 1][..i - from] == items[from..i];
  }

  lemma {:induction false} OneItem(items: seq<Item>, i: nat)
    requires i < |items|
    ensures Records(items[i..i + 1]) == [items[i].record]
  {
    assert items[i..i + 1][..0] == [];
  }

  /** Without grouping every record is its own element, numbered from 1. */
  function Singles(items: seq<Item>): seq<Element> {
    seq(|items|, k requires 0 <= k < |items| => Element([items[k].record], k + 1))
  }

  method GroupSingly(items: seq<Item>) returns (elems: seq<Element>)
    ensures elems == Singles(items)
  {
    elems := [];
    var nid := 1;
    for i := 0 to |items|
      invariant nid == i + 1 && |elems| == i
      invariant forall k :: 0 <= k < i ==> elems[k] == Element([items[k].record], k + 1)
    {
      elems := elems + [Element([items[i].record], nid)];
      nid := nid + 1;
    }
  }

  /** Grouping keeps every record, in order. */
  lemma {:induction false} GroupingFlattens(items: seq<Item>, clock: nat -> int, n: nat, elems: seq<Element>)
    requires n <= |items| && IsGrouping(items, clock, n, elems)
    ensures Flatten(elems) == Records(items[..n])
    ensures forall k :: 0 <= k < |elems| ==> elems[k].records != []
  {
    if elems != [] {
      var e := elems[|elems| - 1];
      var from := n - |e.records|;
      GroupingFlattens(items, clock, from, elems[..|elems| - 1]);
      RecordsTo(items, from, n);
      assert e.records == Records(items[from..n]);
    }
  }

  lemma {:induction false} RecordsTo(items: seq<Item>, from: nat, n: nat)
    requires from <= n <= |items|
    ensures Records(items[..n]) == Records(items[..from]) + Records(items[from..n])
  {
    RecordsAppend(items[..from], items[from..n]);
    assert items[..from] + items[from..n] == items[..n];
  }

  lemma {:induction false} SinglesFlatten(items: seq<Item>)
    ensures Flatten(Singles(items)) == Records(items)
  {
    if items != [] {
      SinglesFlatten(items[..|items| - 1]);
      assert Singles(items)[..|items| - 1] == Singles(items[..|items| - 1]);
    }
  }

  // ---- Breaking out ----

  /** The group fits on one of the first `n` shelves. */
  predicate FitsAmong(e: Element, spaces: seq<Space>, m: Measure, n: nat)
    requires n <= |spaces|
  {
    exists s :: 0 <= s < n && Fits(GroupWidth(e.records, m), spaces[s].capacity) && spaces[s].name != SPILL_NAME
  }

  predicate FitsSomewhere(e: Element, spaces: seq<Space>, m: Measure) {
    FitsAmong(e, spaces, m, |spaces|)
  }

  function Separated(rs: seq<Record>): seq<Element> {
    seq(|rs|, k requires 0 <= k < |rs| => Element([rs[k]], rs[k].iid))
  }

  function BreakOutOne(e: Element, spaces: seq<Space>, m: Measure): seq<Element> {
    if FitsSomewhere(e, spaces, m) then [e] else Separated(e.records)
  }

  /** A group that fits on no shelf is split into its records, each under its instance id. */
  function BreakOut(elems: seq<Element>, spaces: seq<Space>, m: Measure): seq<Element> {
    if elems == [] then []
    else BreakOut(elems[..|elems| - 1], spaces, m) + BreakOutOne(elems[|elems| - 1], spaces, m)
  }

  method FitsOnShelf(e: Element, spaces: seq<Space>, m: Measure) returns (fits: bool)
    ensures fits <==> FitsSomewhere(e, spaces, m)
  {
    fits := false;
    for s := 0 to |spaces|
      invariant fits <==> FitsAmong(e, spaces, m, s)
    {
      var w := GetWidth(e.records, m);
      if Fits(w, spaces[s].capacity) && spaces[s].name != SPILL_NAME { fits := true; }
    }
  }

  method SplitUp(rs: seq<Record>) returns (parts: seq<Element>)
    ensures parts == Separated(rs)
  {
    parts := [];
    for k := 0 to |rs|
      invariant |parts| == k && forall j :: 0 <= j < k ==> parts[j] == Element([rs[j]], rs[j].iid)
    {
      parts := parts + [Element([rs[k]], rs[k].iid)];
    }
  }

  method BreakOutGroups(elems: seq<Element>, spaces: seq<Space>, m: Measure) returns (out: seq<Element>)
    ensures out == BreakOut(elems, spaces, m)
  {
    out := [];
    for i := 0 to |elems|
      invariant out == BreakOut(elems[..i], spaces, m)
    {
      assert elems[..i + 1][..i] == elems[..i];
      var fits := FitsOnShelf(elems[i], spaces, m);
      if !fits {
        var parts := SplitUp(elems[i].records);
        out := out + parts;
      } else {
        out := out + [elems[i]];
      }
    }
    assert elems[..|elems|] == elems;
  }

  lemma {:induction false} FlattenAppend(a: seq<Element>, b: seq<Element>)
    ensures Flatten(a + b) == Flatten(a) + Flatten(b)
  {
    if b == [] {
      assert a + b == a;
    } else {
      assert (a + b)[..|a + b| - 1] == a + b[..|b| - 1];
      FlattenAppend(a, b[..|b| - 1]);
    }
  }

  lemma {:induction false} SeparatedFlattens(rs: seq<Record>)
    ensures Flatten(Separated(rs)) == rs
  {
    if rs != [] {
      SeparatedFlattens(rs[..|rs| - 1]);
      assert Separated(rs)[..|rs| - 1] == Separated(rs[..|rs| - 1]);
    }
  }

  lemma {:induction false} OneBrokenOut(e: Element, spaces: seq<Space>, m: Measure)
    requires e.records != []
    ensures Flatten(BreakOutOne(e, spaces, m)) == e.records
    ensures forall f <- BreakOutOne(e, spaces, m) :: LeftWhole(f, spaces, m)
  {
    SeparatedFlattens(e.records);
    assert [e][..0] == [];
  }

  /** A group of several records is left only if it fits on some shelf. */
  predicate LeftWhole(e: Element, spaces: seq<Space>, m: Measure) {
    e.records != [] && (|e.records| > 1 ==> FitsSomewhere(e, spaces, m))
  }

  /** Breaking out keeps every record, in order; and a group of several records that is left does fit on some shelf. */
  lemma {:induction false} BreakOutConserves(elems: seq<Element>, spaces: seq<Space>, m: Measure)
    requires forall k :: 0 <= k < |elems| ==> elems[k].records != []
    ensures Flatten(BreakOut(elems, spaces, m)) == Flatten(elems)
    ensures forall e <- BreakOut(elems, spaces, m) :: LeftWhole(e, spaces, m)
  {
    if elems != [] {
      var e := elems[|elems| - 1];
      var init, tail := BreakOut(elems[..|elems| - 1], spaces, m), BreakOutOne(e, spaces, m);
      BreakOutConserves(elems[..|elems| - 1], spaces, m);
      FlattenAppend(init, tail);
      OneBrokenOut(e, spaces, m);
    }
  }
}
