/** Expanding element placements to record placements, and what a whole snapshot promises (org/org.go). */
module ShelfSnapshot {
  import opened ShelfModel
  import opened Packing
  import opened FirstFit

  datatype Placement = Placement(iid: int, space: string, unit: int, index: int, width: real, originalIndex: int)

  // ---- Expansion ----

  /** The records filed under an id; a later element with the same id replaces an earlier one. */
  function Filed(elems: seq<Element>, id: int): seq<Record> {
    if elems == [] then []
    else if elems[|elems| - 1].id == id then elems[|elems| - 1].records
    else Filed(elems[..|elems| - 1], id)
  }

  /** The position of an instance id among the sorted records; the last one counts. */
  function OriginalIndex(sorted: seq<Record>, iid: int): int {
    if sorted == [] then 0
    else if sorted[|sorted| - 1].iid == iid then |sorted| - 1
    else OriginalIndex(sorted[..|sorted| - 1], iid)
  }

  function ExpandRecord(p: Job, sorted: seq<Record>, s: Slotting, name: string, rs: seq<Record>, k: nat): Placement
    requires k < |rs|
  {
    Placement(rs[k].iid, name, s.at.unit, s.index + k, RecordWidth(rs[k], p.measure), OriginalIndex(sorted, rs[k].iid))
  }

  function ExpandOne(p: Job, sorted: seq<Record>, s: Slotting): seq<Placement>
    requires s.elem < |p.elems| && 0 <= s.at.slot < |p.spaces|
  {
    var rs := Filed(p.elems, p.elems[s.elem].id);
    seq(|rs|, k requires 0 <= k < |rs| => ExpandRecord(p, sorted, s, p.spaces[s.at.slot].name, rs, k))
  }

  ghost predicate Expandable(p: Job, out: seq<Slotting>) {
    forall a :: 0 <= a < |out| ==> out[a].elem < |p.elems| && 0 <= out[a].at.slot < |p.spaces|
  }

  ghost function Expand(p: Job, sorted: seq<Record>, out: seq<Slotting>): seq<Placement>
    requires Expandable(p, out)
  {
    if out == [] then [] else Expand(p, sorted, out[..|out| - 1]) + ExpandOne(p, sorted, out[|out| - 1])
  }

  /** `ogMap`: instance id to position in the sorted records. */
  method IndexRecords(sorted: seq<Record>) returns (ogMap: map<int, int>)
    ensures forall iid :: (if iid in ogMap then ogMap[iid] else 0) == OriginalIndex(sorted, iid)
  {
    ogMap := map[];
    for i := 0 to |sorted|
      invariant forall iid :: (if iid in ogMap then ogMap[iid] else 0) == OriginalIndex(sorted[..i], iid)
    {
      assert sorted[..i + 1][..i] == sorted[..i];
      ogMap := ogMap[sorted[i].iid := i];
    }
    assert sorted[..|sorted|] == sorted;
  }

  /** `ordMap`: element id to records. */
  method FileElements(elems: seq<Element>) returns (ordMap: map<int, seq<Record>>)
    ensures forall id :: (if id in ordMap then ordMap[id] else []) == Filed(elems, id)
  {
    ordMap := map[];
    for i := 0 to |elems|
      invariant forall id :: (if id in ordMap then ordMap[id] else []) == Filed(elems[..i], id)
    {
      assert elems[..i + 1][..i] == elems[..i];
      ordMap := ordMap[elems[i].id := elems[i].records];
    }
    assert elems[..|elems|] == elems;
  }

  lemma {:induction false} SingleWidth(r: Record, m: Measure)
    ensures GroupWidth([r], m) == RecordWidth(r, m)
  {
    assert [r][..0] == [];
    assert SumWidths([r], m) == SumWidths([r][..0], m) + RecordWidth(r, m);
  }

  method ExpandSlotting(p: Job, ghost sorted: seq<Record>, ogMap: map<int, int>, s: Slotting, rs: seq<Record>)
    returns (pl: seq<Placement>)
    requires s.elem < |p.elems| && 0 <= s.at.slot < |p.spaces| && rs == Filed(p.elems, p.elems[s.elem].id)
    requires forall iid :: (if iid in ogMap then ogMap[iid] else 0) == OriginalIndex(sorted, iid)
    ensures pl == ExpandOne(p, sorted, s)
  {
    pl := [];
    var name := p.spaces[s.at.slot].name;
    for k := 0 to |rs|
      invariant |pl| == k && forall j :: 0 <= j < k ==> pl[j] == ExpandRecord(p, sorted, s, name, rs, j)
    {
      var w := GetWidth([rs[k]], p.measure);
      SingleWidth(rs[k], p.measure);
      var og := if rs[k].iid in ogMap then ogMap[rs[k].iid] else 0;
      assert og == OriginalIndex(sorted, rs[k].iid);
      pl := pl + [Placement(rs[k].iid, name, s.at.unit, s.index + k, w, og)];
    }
  }

  method ExpandPlacements(p: Job, sorted: seq<Record>, out: seq<Slotting>) returns (pl: seq<Placement>)
    requires Expandable(p, out)
    ensures pl == Expand(p, sorted, out)
  {
    var ogMap := IndexRecords(sorted);
    var ordMap := FileElements(p.elems);
    pl := [];
    for a := 0 to |out|
      invariant pl == Expand(p, sorted, out[..a])
    {
      assert out[..a + 1][..a] == out[..a];
      var id := p.elems[out[a].elem].id;
      var one := ExpandSlotting(p, sorted, ogMap, out[a], if id in ordMap then ordMap[id] else []);
      pl := pl + one;
    }
    assert out[..|out|] == out;
  }

  lemma {:induction false} FiledDistinct(elems: seq<Element>, k: nat)
    requires DistinctIds(elems) && k < |elems|
    ensures Filed(elems, elems[k].id) == elems[k].records
  {
    if k < |elems| - 1 {
      FiledDistinct(elems[..|elems| - 1], k);
    }
  }

  // ---- Numbering and order, in both spill modes ----

  /** With distinct ids the records of all placements are numbered 1, 2, 3, ... */
  lemma {:induction false} ExpandNumbers(p: Job, sorted: seq<Record>, out: seq<Slotting>, total: int)
    requires DistinctIds(p.elems) && Expandable(p, out) && Numbered(p, out, total)
    ensures |Expand(p, sorted, out)| == total
    ensures forall j :: 0 <= j < total ==> Expand(p, sorted, out)[j].index == j + 1
  {
    if out != [] {
      var last := out[|out| - 1];
      ExpandNumbers(p, sorted, out[..|out| - 1], last.index - 1);
      FiledDistinct(p.elems, last.elem);
    }
  }

  /** The unit of every record placement. */
  ghost function ExpandUnits(p: Job, out: seq<Slotting>): seq<Pos>
    requires Expandable(p, out)
  {
    if out == [] then []
    else
      var last := out[|out| - 1];
      ExpandUnits(p, out[..|out| - 1]) + seq(|Filed(p.elems, p.elems[last.elem].id)|, _ => last.at)
  }

  lemma {:induction false} ExpandUnitsOrdered(p: Job, sorted: seq<Record>, out: seq<Slotting>)
    requires Expandable(p, out)
    requires forall a, b :: 0 <= a < b < |out| ==> NotAfter(out[a].at, out[b].at)
    ensures var us, pl := ExpandUnits(p, out), Expand(p, sorted, out);
      && |us| == |pl|
      && (forall j :: 0 <= j < |us| ==>
        0 <= us[j].slot < |p.spaces| && pl[j].space == p.spaces[us[j].slot].name && pl[j].unit == us[j].unit)
      && (forall j :: 0 <= j < |us| ==> exists a :: 0 <= a < |out| && us[j] == out[a].at)
      && (forall i, j :: 0 <= i < j < |us| ==> NotAfter(us[i], us[j]))
  {
    if out != [] {
      var init := out[..|out| - 1];
      ExpandUnitsOrdered(p, sorted, init);
      var us, vs := ExpandUnits(p, out), ExpandUnits(p, init);
      forall j | 0 <= j < |us| ensures exists a :: 0 <= a < |out| && us[j] == out[a].at {
        if j < |vs| {
          var a :| 0 <= a < |init| && vs[j] == init[a].at;
          assert us[j] == out[a].at;
        } else {
          assert us[j] == out[|out| - 1].at;
        }
      }
    }
  }

  // ---- Capacity ----

  ghost predicate DistinctNames(spaces: seq<Space>) {
    forall s, t :: 0 <= s < t < |spaces| ==> spaces[s].name != spaces[t].name
  }

  /** The record widths placed at a unit of a space. */
  function UnitWidth(pl: seq<Placement>, space: string, unit: int): real {
    if pl == [] then 0.0
    else
      UnitWidth(pl[..|pl| - 1], space, unit)
      + (if pl[|pl| - 1].space == space && pl[|pl| - 1].unit == unit then pl[|pl| - 1].width else 0.0)
  }

  lemma {:induction false} UnitWidthAppend(a: seq<Placement>, b: seq<Placement>, space: string, unit: int)
    ensures UnitWidth(a + b, space, unit) == UnitWidth(a, space, unit) + UnitWidth(b, space, unit)
  {
    if b == [] {
      assert a + b == a;
    } else {
      assert (a + b)[..|a + b| - 1] == a + b[..|b| - 1];
      UnitWidthAppend(a, b[..|b| - 1], space, unit);
    }
  }

  /** Additivity: the records of a group together are as wide as the group. */
  lemma {:induction false} ExpandedGroupWidth(p: Job, sorted: seq<Record>, s: Slotting, name: string, rs: seq<Record>,
                                              pl: seq<Placement>, space: string, unit: int)
    requires |pl| == |rs| && forall k :: 0 <= k < |rs| ==> pl[k] == ExpandRecord(p, sorted, s, name, rs, k)
    ensures UnitWidth(pl, space, unit) == if name == space && s.at.unit == unit then SumWidths(rs, p.measure) else 0.0
  {
    if rs != [] {
      var n := |rs| - 1;
      ExpandedGroupWidth(p, sorted, s, name, rs[..n], pl[..n], space, unit);
    }
  }

  lemma {:induction false} ExpandedLoad(p: Job, sorted: seq<Record>, out: seq<Slotting>, q: Pos)
    requires DistinctIds(p.elems) && DistinctNames(p.spaces) && !p.measure.density.UnknownDensity?
    requires Expandable(p, out) && 0 <= q.slot < |p.spaces|
    requires forall a :: 0 <= a < |out| ==> out[a].width == p.Width(out[a].elem)
    ensures UnitWidth(Expand(p, sorted, out), p.spaces[q.slot].name, q.unit) == Load(out, q)
  {
    if out != [] {
      var last := out[|out| - 1];
      ExpandedLoad(p, sorted, out[..|out| - 1], q);
      FiledDistinct(p.elems, last.elem);
      UnitWidthAppend(Expand(p, sorted, out[..|out| - 1]), ExpandOne(p, sorted, last), p.spaces[q.slot].name, q.unit);
      ExpandedGroupWidth(p, sorted, last, p.spaces[last.at.slot].name,
                         p.elems[last.elem].records, ExpandOne(p, sorted, last),
                         p.spaces[q.slot].name, q.unit);
    }
  }

  lemma {:induction false} PackExpands(p: Job)
    requires EndsInSpill(p.spaces)
    ensures Expandable(p, Pack(p))
  {
    PackIsSound(p);
  }

  lemma {:induction false} NothingThere(out: seq<Slotting>, q: Pos)
    requires forall a :: 0 <= a < |out| ==> out[a].at != q
    ensures Load(out, q) == 0.0
  {
    if out != [] { NothingThere(out[..|out| - 1], q); }
  }

  /** Capacity: in both spill modes, the records in any one unit are together no wider than its space. */
  lemma {:induction false} CapacityAfterExpansion(p: Job, sorted: seq<Record>, slot: nat, unit: int)
    requires EndsInSpill(p.spaces) && DistinctNames(p.spaces)
    requires DistinctIds(p.elems) && !p.measure.density.UnknownDensity?
    requires slot < |p.spaces| && (p.spaces[slot].capacity.Finite? ==> p.spaces[slot].capacity.width >= 0.0)
    ensures Expandable(p, Pack(p))
    ensures Fits(UnitWidth(Expand(p, sorted, Pack(p)), p.spaces[slot].name, unit), p.spaces[slot].capacity)
  {
    PackIsSound(p);
    var out, q := Pack(p), Pos(slot, unit);
    ExpandedLoad(p, sorted, out, q);
    if a :| 0 <= a < |out| && out[a].at == q {
      assert Fits(Load(out, out[a].at), p.spaces[out[a].at.slot].capacity);
    } else {
      NothingThere(out, q);
    }
  }

  // ---- Conservation ----

  function Iids(pl: seq<Placement>): seq<int> {
    if pl == [] then [] else Iids(pl[..|pl| - 1]) + [pl[|pl| - 1].iid]
  }

  function RecordIids(rs: seq<Record>): seq<int> {
    if rs == [] then [] else RecordIids(rs[..|rs| - 1]) + [rs[|rs| - 1].iid]
  }

  lemma {:induction false} IidsAt(pl: seq<Placement>)
    ensures |Iids(pl)| == |pl| && forall k :: 0 <= k < |pl| ==> Iids(pl)[k] == pl[k].iid
  {
    if pl != [] { IidsAt(pl[..|pl| - 1]); }
  }

  lemma {:induction false} RecordIidsAt(rs: seq<Record>)
    ensures |RecordIids(rs)| == |rs| && forall k :: 0 <= k < |rs| ==> RecordIids(rs)[k] == rs[k].iid
  {
    if rs != [] { RecordIidsAt(rs[..|rs| - 1]); }
  }

  lemma {:induction false} IidsAppend(a: seq<Placement>, b: seq<Placement>, c: seq<Record>, d: seq<Record>)
    requires Iids(a) == RecordIids(c) && Iids(b) == RecordIids(d)
    ensures Iids(a + b) == RecordIids(c + d)
  {
    IidsAt(a); IidsAt(b); IidsAt(a + b);
    RecordIidsAt(c); RecordIidsAt(d); RecordIidsAt(c + d);
  }

  /** No instance id occurs in two records. */
  ghost predicate DistinctIids(rs: seq<Record>) {
    forall i, j :: 0 <= i < j < |rs| ==> rs[i].iid != rs[j].iid
  }

  lemma {:induction false} ExpandInOrder(p: Job, sorted: seq<Record>, out: seq<Slotting>, n: nat)
    requires DistinctIds(p.elems) && Expandable(p, out) && n == |out| <= |p.elems|
    requires forall a :: 0 <= a < n ==> out[a].elem == a
    ensures RecordIids(Flatten(p.elems[..n])) == Iids(Expand(p, sorted, out))
  {
    if n > 0 {
      ExpandInOrder(p, sorted, out[..n - 1], n - 1);
      FiledDistinct(p.elems, n - 1);
      assert p.elems[..n][..n - 1] == p.elems[..n - 1];
      IidsAt(ExpandOne(p, sorted, out[n - 1]));
      RecordIidsAt(Filed(p.elems, p.elems[out[n - 1].elem].id));
      IidsAppend(Expand(p, sorted, out[..n - 1]), ExpandOne(p, sorted, out[n - 1]),
        Flatten(p.elems[..n - 1]), p.elems[n - 1].records);
    }
  }

  /** Where the records of element `k` start in the flattened list. */
  lemma {:induction false} FlattenAt(elems: seq<Element>, k: nat, j: nat)
    requires k < |elems| && j < |elems[k].records|
    ensures var at := |Flatten(elems[..k])| + j;
      at < |Flatten(elems[..k + 1])| <= |Flatten(elems)| && Flatten(elems)[at] == elems[k].records[j]
  {
    if k == |elems| - 1 {
      assert elems[..k + 1] == elems;
    } else {
      FlattenAt(elems[..|elems| - 1], k, j);
      assert elems[..|elems| - 1][..k] == elems[..k] && elems[..|elems| - 1][..k + 1] == elems[..k + 1];
    }
  }

  lemma {:induction false} FlattenGrows(elems: seq<Element>, k: nat, l: nat)
    requires k <= l <= |elems|
    ensures |Flatten(elems[..k])| <= |Flatten(elems[..l])|
  {
    if k < l {
      FlattenGrows(elems, k, l - 1);
      assert elems[..l][..l - 1] == elems[..l - 1];
    }
  }

  /** Records of different elements have different instance ids. */
  lemma {:induction false} ElementsDisjoint(elems: seq<Element>, k: nat, i: nat, l: nat, j: nat)
    requires DistinctIids(Flatten(elems))
    requires k < l < |elems| && i < |elems[k].records| && j < |elems[l].records|
    ensures elems[k].records[i].iid != elems[l].records[j].iid
  {
    FlattenAt(elems, k, i);
    FlattenAt(elems, l, j);
    FlattenGrows(elems, k + 1, l);
  }

  lemma {:induction false} FiledIsLast(elems: seq<Element>, a: nat) returns (l: nat)
    requires a < |elems|
    ensures a <= l < |elems| && elems[l].id == elems[a].id && Filed(elems, elems[a].id) == elems[l].records
    ensures forall b :: l < b < |elems| ==> elems[b].id != elems[a].id
  {
    if elems[|elems| - 1].id == elems[a].id {
      l := |elems| - 1;
    } else {
      l := FiledIsLast(elems[..|elems| - 1], a);
    }
  }

  /** An element whose id is taken again later in the list is lost: none of its records is placed. */
  lemma {:induction false} ShadowedIsLost(p: Job, sorted: seq<Record>, out: seq<Slotting>, a: nat, i: nat, b: nat)
    requires Expandable(p, out) && DistinctIids(Flatten(p.elems))
    requires a < b < |p.elems| && p.elems[a].id == p.elems[b].id && i < |p.elems[a].records|
    ensures forall j :: 0 <= j < |Expand(p, sorted, out)| ==> Expand(p, sorted, out)[j].iid != p.elems[a].records[i].iid
  {
    if out != [] {
      ShadowedIsLost(p, sorted, out[..|out| - 1], a, i, b);
      var l := FiledIsLast(p.elems, out[|out| - 1].elem);
      forall k | 0 <= k < |p.elems[l].records| ensures p.elems[l].records[k].iid != p.elems[a].records[i].iid {
        assert l != a;
        if l < a { ElementsDisjoint(p.elems, l, k, a, i); } else { ElementsDisjoint(p.elems, a, i, l, k); }
      }
    }
  }

  lemma {:induction false} DistinctConserves(p: Job, sorted: seq<Record>)
    requires EndsInSpill(p.spaces) && p.spill.NoSpill? && DistinctIds(p.elems)
    ensures Expandable(p, Pack(p))
    ensures Iids(Expand(p, sorted, Pack(p))) == RecordIids(Flatten(p.elems))
  {
    PackIsFirstFit(p);
    PackExpands(p);
    ElemsAt(Pack(p));
    KeptAll(p.elems, |p.elems|);
    assert p.elems[..|p.elems|] == p.elems;
    ExpandInOrder(p, sorted, Pack(p), |p.elems|);
  }

  lemma {:induction false} ClashLoses(p: Job, sorted: seq<Record>, out: seq<Slotting>)
    requires Expandable(p, out) && !DistinctIds(p.elems)
    requires forall k :: 0 <= k < |p.elems| ==> p.elems[k].records != []
    requires DistinctIids(Flatten(p.elems))
    ensures exists iid :: iid in RecordIids(Flatten(p.elems)) && iid !in Iids(Expand(p, sorted, out))
  {
    var a, b :| 0 <= a < b < |p.elems| && p.elems[a].id == p.elems[b].id;
    ShadowedIsLost(p, sorted, out, a, 0, b);
    FlattenAt(p.elems, a, 0);
    IidsAt(Expand(p, sorted, out));
    RecordIidsAt(Flatten(p.elems));
    var iid := p.elems[a].records[0].iid;
    assert RecordIids(Flatten(p.elems))[|Flatten(p.elems[..a])|] == iid;
    assert iid !in Iids(Expand(p, sorted, out));
  }

  /**
   * Conservation without spilling, exactly: the placements list the packed records, each once and in order,
   * if and only if no two elements share an id.
   */
  lemma {:induction false} ConservedIff(p: Job, sorted: seq<Record>)
    requires EndsInSpill(p.spaces) && p.spill.NoSpill?
    requires forall k :: 0 <= k < |p.elems| ==> p.elems[k].records != []
    requires DistinctIids(Flatten(p.elems))
    ensures Expandable(p, Pack(p))
    ensures Iids(Expand(p, sorted, Pack(p))) == RecordIids(Flatten(p.elems)) <==> DistinctIds(p.elems)
  {
    PackExpands(p);
    if DistinctIds(p.elems) {
      DistinctConserves(p, sorted);
    } else {
      ClashLoses(p, sorted, Pack(p));
    }
  }

  lemma {:induction false} OriginalIndexAt(sorted: seq<Record>, k: nat)
    requires DistinctIids(sorted) && k < |sorted|
    ensures OriginalIndex(sorted, sorted[k].iid) == k
  {
    if k < |sorted| - 1 { OriginalIndexAt(sorted[..|sorted| - 1], k); }
  }

  /** A placement with the own width and position of one of the records. */
  ghost predicate OfRecord(pl: Placement, rs: seq<Record>, m: Measure, sorted: seq<Record>) {
    exists k :: 0 <= k < |rs| && pl.iid == rs[k].iid
      && pl.width == RecordWidth(rs[k], m) && pl.originalIndex == OriginalIndex(sorted, rs[k].iid)
  }

  lemma {:induction false} FiledInFlatten(elems: seq<Element>, id: int, r: Record)
    requires r in Filed(elems, id)
    ensures r in Flatten(elems)
  {
    if elems[|elems| - 1].id != id { FiledInFlatten(elems[..|elems| - 1], id, r); }
  }

  lemma {:induction false} ExpandedOfRecord(p: Job, sorted: seq<Record>, out: seq<Slotting>, j: nat)
    requires Expandable(p, out) && j < |Expand(p, sorted, out)|
    ensures OfRecord(Expand(p, sorted, out)[j], Flatten(p.elems), p.measure, sorted)
  {
    var init := Expand(p, sorted, out[..|out| - 1]);
    if j < |init| {
      ExpandedOfRecord(p, sorted, out[..|out| - 1], j);
    } else {
      var last := out[|out| - 1];
      var rs := Filed(p.elems, p.elems[last.elem].id);
      var r := rs[j - |init|];
      FiledInFlatten(p.elems, p.elems[last.elem].id, r);
      var k :| 0 <= k < |Flatten(p.elems)| && Flatten(p.elems)[k] == r;
    }
  }

  /** Placements that list the records in order carry the own width and position of each. */
  lemma {:induction false} OwnFields(p: Job, out: seq<Slotting>, j: nat)
    requires Expandable(p, out) && DistinctIids(Flatten(p.elems)) && j < |Expand(p, Flatten(p.elems), out)|
    requires Iids(Expand(p, Flatten(p.elems), out)) == RecordIids(Flatten(p.elems))
    ensures var pl, rs := Expand(p, Flatten(p.elems), out), Flatten(p.elems);
      j < |rs| && pl[j].width == RecordWidth(rs[j], p.measure) && pl[j].originalIndex == j
  {
    var pl, rs := Expand(p, Flatten(p.elems), out), Flatten(p.elems);
    IidsAt(pl);
    RecordIidsAt(rs);
    ExpandedOfRecord(p, rs, out, j);
    var k :| 0 <= k < |rs| && pl[j].iid == rs[k].iid
      && pl[j].width == RecordWidth(rs[k], p.measure) && pl[j].originalIndex == OriginalIndex(rs, rs[k].iid);
    assert rs[j].iid == rs[k].iid;
    SamePosition(rs, j, k);
    OriginalIndexAt(rs, j);
  }

  lemma {:induction false} SamePosition(rs: seq<Record>, j: nat, k: nat)
    requires DistinctIids(rs) && j < |rs| && k < |rs| && rs[j].iid == rs[k].iid
    ensures j == k
  {
  }
}
