/** BuildSnapshot as a whole, and its end-to-end promises (org/org.go). */
module Snapshot {
  import StableSorting
  import opened ShelfModel
  import opened ShelfOrder
  import opened Packing
  import opened FirstFit
  import opened ShelfGroups
  import opened ShelfSnapshot
  import opened ElementIds

  datatype Organisation = Organisation(
    folderSets: seq<FolderSet>, spaces: seq<Space>, density: Density,
    handling: MissingWidthHandling, grouped: bool, spill: Spill)

  function WithSpill(spaces: seq<Space>): seq<Space> {
    spaces + [Space(SPILL_NAME, Unbounded, 1)]
  }

  /** What the packing loop works on, given the groups. */
  function JobOf(org: Organisation, sleeves: map<string, real>, groups: seq<Element>): Job {
    var m := Measure(org.density, sleeves, DefaultWidth(Flatten(groups), org.handling));
    Job(BreakOut(groups, WithSpill(org.spaces), m), WithSpill(org.spaces), m, org.spill)
  }

  ghost predicate GroupsOf(org: Organisation, items: seq<Item>, clock: nat -> int, groups: seq<Element>) {
    if org.grouped then IsGrouping(items, clock, |items|, groups) else groups == Singles(items)
  }

  predicate IndexLess(a: Placement, b: Placement) { a.index < b.index }

  /** The placements of a snapshot: hashing it sorts them by index in place. */
  ghost function PlacementsOf(org: Organisation, sleeves: map<string, real>, items: seq<Item>,
                              groups: seq<Element>): seq<Placement> {
    var p := JobOf(org, sleeves, groups);
    PackExpands(p);
    StableSorting.Sort(IndexLess, Expand(p, Records(items), Pack(p)))
  }

  method BuildSnapshot(all: seq<Record>, org: Organisation, sleeves: map<string, real>, clock: nat -> int)
    returns (placements: seq<Placement>, after: Organisation, ghost groups: seq<Element>)
    ensures after == org.(spaces := WithSpill(org.spaces))
    ensures exists from :: IsSelection(all, org.folderSets, OrderedItems(all, org.folderSets), from)
    ensures GroupsOf(org, OrderedItems(all, org.folderSets), clock, groups)
    ensures placements == PlacementsOf(org, sleeves, OrderedItems(all, org.folderSets), groups)
  {
    after := org.(spaces := WithSpill(org.spaces));
    var items := SelectAndSort(all, org.folderSets);
    var ordList: seq<Element>;
    if org.grouped {
      ordList := GroupByLabel(items, clock);
    } else {
      ordList := GroupSingly(items);
    }
    groups := ordList;
    var defaultWidth := ComputeDefaultWidth(ordList, org.handling);
    var m := Measure(org.density, sleeves, defaultWidth);
    var elems := BreakOutGroups(ordList, after.spaces, m);
    var p := Job(elems, after.spaces, m, org.spill);
    var out := PackElements(p);
    PackExpands(p);
    var expanded := ExpandPlacements(p, Records(items), out);
    placements := StableSorting.Sort(IndexLess, expanded);
  }

  // ---- Facts about the pieces ----

  lemma {:induction false} GroupsFlatten(org: Organisation, items: seq<Item>, clock: nat -> int, groups: seq<Element>,
                                         sleeves: map<string, real>)
    requires GroupsOf(org, items, clock, groups)
    ensures var p := JobOf(org, sleeves, groups);
      Flatten(p.elems) == Records(items) && forall k :: 0 <= k < |p.elems| ==> p.elems[k].records != []
  {
    if org.grouped {
      GroupingFlattens(items, clock, |items|, groups);
      assert items[..|items|] == items;
    } else {
      SinglesFlatten(items);
    }
    var p := JobOf(org, sleeves, groups);
    BreakOutConserves(groups, p.spaces, p.measure);
    forall k | 0 <= k < |p.elems| ensures p.elems[k].records != [] {
      var e := p.elems[k];
      assert e in p.elems;
    }
  }

  /** With distinct ids the sort by index has nothing to do. */
  lemma {:induction false} AlreadySorted(org: Organisation, sleeves: map<string, real>, items: seq<Item>,
                                         groups: seq<Element>)
    requires DistinctIds(JobOf(org, sleeves, groups).elems)
    ensures var p := JobOf(org, sleeves, groups);
      && Expandable(p, Pack(p))
      && PlacementsOf(org, sleeves, items, groups) == Expand(p, Records(items), Pack(p))
    ensures var pl := PlacementsOf(org, sleeves, items, groups); forall j :: 0 <= j < |pl| ==> pl[j].index == j + 1
  {
    var p := JobOf(org, sleeves, groups);
    PackIsSound(p);
    var total :| Numbered(p, Pack(p), total);
    ExpandNumbers(p, Records(items), Pack(p), total);
    StableSorting.SortSortedIsIdentity(IndexLess, Expand(p, Records(items), Pack(p)));
  }

  /** No folder is named by two folder sets, so every record of the collection is selected at most once. */
  ghost predicate FoldersMappedOnce(fss: seq<FolderSet>) {
    forall folder :: Mappings(fss, folder) <= 1
  }

  lemma {:induction false} OrderedDistinct(all: seq<Record>, fss: seq<FolderSet>)
    requires DistinctIids(all) && FoldersMappedOnce(fss)
    ensures DistinctIids(Records(OrderedItems(all, fss)))
  {
    var rs := Records(OrderedItems(all, fss));
    forall i, j | 0 <= i < j < |rs| ensures rs[i].iid != rs[j].iid {
      SelectedFromAll(all, fss, rs[i]);
      SelectedFromAll(all, fss, rs[j]);
      SelectedOnce(all, fss, rs[i]);
      NotTwice(rs, i, j);
      SameIidSame(all, rs[i], rs[j]);
    }
  }

  lemma {:induction false} NotTwice(rs: seq<Record>, i: nat, j: nat)
    requires i < j < |rs| && multiset(rs)[rs[i]] <= 1
    ensures rs[i] != rs[j]
  {
    if rs[i] == rs[j] { StableSorting.TwoOccurrences(rs, i, j); }
  }

  lemma {:induction false} SelectedOnce(all: seq<Record>, fss: seq<FolderSet>, r: Record)
    requires DistinctIids(all) && FoldersMappedOnce(fss)
    ensures multiset(Records(OrderedItems(all, fss)))[r] <= 1
  {
    DistinctOnce(all, r);
    OrderingConserves(all, fss, r);
    assert Mappings(fss, r.folder) <= 1;
  }

  lemma {:induction false} SameIidSame(all: seq<Record>, a: Record, b: Record)
    requires DistinctIids(all) && a in all && b in all
    ensures a.iid == b.iid ==> a == b
  {
  }

  lemma {:induction false} SelectedFromAll(all: seq<Record>, fss: seq<FolderSet>, r: Record)
    requires r in Records(OrderedItems(all, fss))
    ensures r in all
  {
    OrderingConserves(all, fss, r);
    assert r in multiset(Records(OrderedItems(all, fss)));
    PositiveFactor(multiset(all)[r], Mappings(fss, r.folder));
    assert r in multiset(all);
  }

  lemma {:induction false} PositiveFactor(a: nat, b: nat)
    requires a * b > 0
    ensures a > 0
  {
  }

  lemma {:induction false} DistinctOnce(all: seq<Record>, r: Record)
    requires DistinctIids(all)
    ensures multiset(all)[r] <= 1
  {
    if all != [] {
      DistinctOnce(all[..|all| - 1], r);
      assert all == all[..|all| - 1] + [all[|all| - 1]];
      if all[|all| - 1] == r { assert r !in all[..|all| - 1]; }
    }
  }

  // ---- The promises ----

  /** The snapshot lists the sorted records, numbered from 1, each with its own position and width. */
  ghost predicate Conserves(pl: seq<Placement>, rs: seq<Record>, m: Measure) {
    && |pl| == |rs|
    && forall j :: 0 <= j < |pl| ==>
         && pl[j].iid == rs[j].iid && pl[j].index == j + 1
         && pl[j].originalIndex == j && pl[j].width == RecordWidth(rs[j], m)
  }

  /** What the widths of a snapshot depend on, besides the records. */
  function MeasureOf(org: Organisation, sleeves: map<string, real>, items: seq<Item>): Measure {
    Measure(org.density, sleeves, DefaultWidth(Records(items), org.handling))
  }

  lemma {:induction false} JobMeasure(org: Organisation, sleeves: map<string, real>, items: seq<Item>,
                                      clock: nat -> int,
                                      groups: seq<Element>)
    requires GroupsOf(org, items, clock, groups)
    ensures JobOf(org, sleeves, groups).measure == MeasureOf(org, sleeves, items)
  {
    if org.grouped {
      GroupingFlattens(items, clock, |items|, groups);
      assert items[..|items|] == items;
    } else {
      SinglesFlatten(items);
    }
  }

  lemma {:induction false} DistinctIdsConserve(org: Organisation, sleeves: map<string, real>, items: seq<Item>,
                                               clock: nat -> int, groups: seq<Element>)
    requires org.spill.NoSpill? && GroupsOf(org, items, clock, groups) && DistinctIids(Records(items))
    requires DistinctIds(JobOf(org, sleeves, groups).elems)
    ensures Conserves(PlacementsOf(org, sleeves, items, groups), Records(items), MeasureOf(org, sleeves, items))
  {
    var p := JobOf(org, sleeves, groups);
    GroupsFlatten(org, items, clock, groups, sleeves);
    JobMeasure(org, sleeves, items, clock, groups);
    ConservedIff(p, Records(items));
    AlreadySorted(org, sleeves, items, groups);
    var pl := Expand(p, Records(items), Pack(p));
    IidsAt(pl);
    RecordIidsAt(Records(items));
    forall j | 0 <= j < |pl|
      ensures pl[j].width == RecordWidth(Records(items)[j], p.measure) && pl[j].originalIndex == j
    {
      OwnFields(p, Pack(p), j);
    }
  }

  lemma {:induction false} ConservedIids(pl: seq<Placement>, rs: seq<Record>, m: Measure)
    requires Conserves(pl, rs, m)
    ensures Iids(pl) == RecordIids(rs)
  {
    IidsAt(pl);
    RecordIidsAt(rs);
  }

  /** Any clash of ids makes the snapshot lose a record, with and without spilling. */
  lemma {:induction false} ClashedSnapshot(org: Organisation, sleeves: map<string, real>, items: seq<Item>,
                                           clock: nat -> int,
                                           groups: seq<Element>)
    requires GroupsOf(org, items, clock, groups) && DistinctIids(Records(items))
    requires !DistinctIds(JobOf(org, sleeves, groups).elems)
    ensures exists iid <- RecordIids(Records(items)) :: iid !in Iids(PlacementsOf(org, sleeves, items, groups))
  {
    var p := JobOf(org, sleeves, groups);
    GroupsFlatten(org, items, clock, groups, sleeves);
    PackExpands(p);
    ClashLoses(p, Records(items), Pack(p));
    var iid :| iid in RecordIids(Records(items)) && iid !in Iids(Expand(p, Records(items), Pack(p)));
    SortedIids(Expand(p, Records(items), Pack(p)), iid);
  }

  /**
   * SPILL_NO_SPILL keeps the order and every record: the snapshot lists the sorted records, numbered from 1,
   * each with its own position and width, if and only if no two elements share an id. Otherwise it does not even
   * list the same instance ids.
   */
  lemma {:induction false} JobConservesIff(all: seq<Record>, org: Organisation, sleeves: map<string, real>,
                                                clock: nat -> int, groups: seq<Element>)
    requires org.spill.NoSpill? && DistinctIids(all) && FoldersMappedOnce(org.folderSets)
    requires GroupsOf(org, OrderedItems(all, org.folderSets), clock, groups)
    ensures var items := OrderedItems(all, org.folderSets);
      var pl, rs := PlacementsOf(org, sleeves, items, groups), Records(items);
      && (Conserves(pl, rs, MeasureOf(org, sleeves, items)) <==> DistinctIds(JobOf(org, sleeves, groups).elems))
      && (Iids(pl) == RecordIids(rs) <==> DistinctIds(JobOf(org, sleeves, groups).elems))
  {
    var items := OrderedItems(all, org.folderSets);
    var pl, rs, m := PlacementsOf(org, sleeves, items, groups), Records(items), MeasureOf(org, sleeves, items);
    OrderedDistinct(all, org.folderSets);
    if DistinctIds(JobOf(org, sleeves, groups).elems) {
      DistinctIdsConserve(org, sleeves, items, clock, groups);
    } else {
      ClashedSnapshot(org, sleeves, items, clock, groups);
    }
    if Conserves(pl, rs, m) { ConservedIids(pl, rs, m); }
  }

  /**
   * Ungrouped, the snapshot is conserved if and only if no record that is too wide for every shelf has an instance id
   * that is the list number of a record that is not.
   */
  lemma {:induction false} UngroupedConservesIff(all: seq<Record>, org: Organisation, sleeves: map<string, real>,
                                                 clock: nat -> int, groups: seq<Element>)
    requires !org.grouped && org.spill.NoSpill? && DistinctIids(all) && FoldersMappedOnce(org.folderSets)
    requires GroupsOf(org, OrderedItems(all, org.folderSets), clock, groups)
    ensures var items := OrderedItems(all, org.folderSets);
      var pl, rs, m := PlacementsOf(org, sleeves, items, groups), Records(items), MeasureOf(org, sleeves, items);
      && (Conserves(pl, rs, m) <==> NoNumberTaken(items, WithSpill(org.spaces), m))
      && (Iids(pl) == RecordIids(rs) <==> NoNumberTaken(items, WithSpill(org.spaces), m))
  {
    var items := OrderedItems(all, org.folderSets);
    OrderedDistinct(all, org.folderSets);
    JobMeasure(org, sleeves, items, clock, groups);
    JobConservesIff(all, org, sleeves, clock, groups);
    SingleIdsDistinctIff(items, WithSpill(org.spaces), MeasureOf(org, sleeves, items));
  }

  /** Grouped, it is conserved if and only if at most one run that resumes an earlier label fits on a shelf. */
  lemma {:induction false} GroupedConservesIff(all: seq<Record>, org: Organisation, sleeves: map<string, real>,
                                               clock: nat -> int, groups: seq<Element>)
    requires org.grouped && org.spill.NoSpill? && DistinctIids(all) && FoldersMappedOnce(org.folderSets)
    requires GroupsOf(org, OrderedItems(all, org.folderSets), clock, groups)
    requires UsableClock(OrderedItems(all, org.folderSets), clock)
    ensures var items := OrderedItems(all, org.folderSets);
      var pl, rs, m := PlacementsOf(org, sleeves, items, groups), Records(items), MeasureOf(org, sleeves, items);
      && (Conserves(pl, rs, m) <==> ResumedGroups(items, |items|, WithSpill(org.spaces), m) <= 1)
      && (Iids(pl) == RecordIids(rs) <==> ResumedGroups(items, |items|, WithSpill(org.spaces), m) <= 1)
  {
    var items := OrderedItems(all, org.folderSets);
    OrderedDistinct(all, org.folderSets);
    JobMeasure(org, sleeves, items, clock, groups);
    JobConservesIff(all, org, sleeves, clock, groups);
    GroupIdsDistinctIff(items, clock, groups, WithSpill(org.spaces), MeasureOf(org, sleeves, items));
  }

  /** Every selected record is in the snapshot. */
  ghost predicate Complete(pl: seq<Placement>, rs: seq<Record>) {
    forall r <- rs :: exists j :: 0 <= j < |pl| && pl[j].iid == r.iid
  }

  /** No two elements get the same id, as far as records, shelves and measure decide it. */
  ghost predicate NoClash(org: Organisation, sleeves: map<string, real>, items: seq<Item>) {
    var m, spaces := MeasureOf(org, sleeves, items), WithSpill(org.spaces);
    if org.grouped then ResumedGroups(items, |items|, spaces, m) <= 1 else NoNumberTaken(items, spaces, m)
  }

  /** In both spill modes, every selected record is in the snapshot if and only if no ids clash. */
  lemma {:induction false} SnapshotCompleteIff(all: seq<Record>, org: Organisation, sleeves: map<string, real>,
                                               clock: nat -> int, groups: seq<Element>)
    requires DistinctIids(all) && FoldersMappedOnce(org.folderSets)
    requires GroupsOf(org, OrderedItems(all, org.folderSets), clock, groups)
    requires org.grouped ==> UsableClock(OrderedItems(all, org.folderSets), clock)
    ensures var items := OrderedItems(all, org.folderSets);
      Complete(PlacementsOf(org, sleeves, items, groups), Records(items)) <==> NoClash(org, sleeves, items)
  {
    var items := OrderedItems(all, org.folderSets);
    var pl, rs := PlacementsOf(org, sleeves, items, groups), Records(items);
    OrderedDistinct(all, org.folderSets);
    ClashIff(org, sleeves, items, clock, groups);
    if NoClash(org, sleeves, items) {
      JobLosesNothing(all, org, sleeves, clock, groups);
    } else {
      ClashedSnapshot(org, sleeves, items, clock, groups);
      var iid :| iid in RecordIids(rs) && iid !in Iids(pl);
      MissingRecord(pl, rs, iid);
    }
  }

  lemma {:induction false} MissingRecord(pl: seq<Placement>, rs: seq<Record>, iid: int)
    requires iid in RecordIids(rs) && iid !in Iids(pl)
    ensures !Complete(pl, rs)
  {
    RecordIidsAt(rs);
    IidsAt(pl);
    var k :| 0 <= k < |rs| && RecordIids(rs)[k] == iid;
    var r := rs[k];
    forall j | 0 <= j < |pl| ensures pl[j].iid != r.iid {
      assert Iids(pl)[j] == pl[j].iid;
    }
    assert r in rs;
  }

  lemma {:induction false} ClashIff(org: Organisation, sleeves: map<string, real>, items: seq<Item>, clock: nat -> int,
                                    groups: seq<Element>)
    requires GroupsOf(org, items, clock, groups) && DistinctIids(Records(items))
    requires org.grouped ==> UsableClock(items, clock)
    ensures DistinctIds(JobOf(org, sleeves, groups).elems) <==> NoClash(org, sleeves, items)
  {
    JobMeasure(org, sleeves, items, clock, groups);
    var m, spaces := MeasureOf(org, sleeves, items), WithSpill(org.spaces);
    if org.grouped {
      GroupIdsDistinctIff(items, clock, groups, spaces, m);
    } else {
      SingleIdsDistinctIff(items, spaces, m);
    }
  }

  /** A snapshot of items whose ids do not clash. */
  ghost predicate Built(org: Organisation, sleeves: map<string, real>, items: seq<Item>, clock: nat -> int,
                        groups: seq<Element>)
  {
    && GroupsOf(org, items, clock, groups) && DistinctIids(Records(items))
    && (org.grouped ==> UsableClock(items, clock))
    && NoClash(org, sleeves, items)
  }

  /**
   * SPILL_NO_SPILL keeps the order and every record: the snapshot lists the sorted records, numbered from 1,
   * each with its own position and width, if and only if no ids clash. Otherwise it does not even list the same
   * instance ids.
   */
  lemma {:induction false} SnapshotConservesIff(all: seq<Record>, org: Organisation, sleeves: map<string, real>,
                                                clock: nat -> int, groups: seq<Element>)
    requires org.spill.NoSpill? && DistinctIids(all) && FoldersMappedOnce(org.folderSets)
    requires GroupsOf(org, OrderedItems(all, org.folderSets), clock, groups)
    requires org.grouped ==> UsableClock(OrderedItems(all, org.folderSets), clock)
    ensures var items := OrderedItems(all, org.folderSets);
      var pl, rs := PlacementsOf(org, sleeves, items, groups), Records(items);
      && (Conserves(pl, rs, MeasureOf(org, sleeves, items)) <==> NoClash(org, sleeves, items))
      && (Iids(pl) == RecordIids(rs) <==> NoClash(org, sleeves, items))
  {
    OrderedDistinct(all, org.folderSets);
    ClashIff(org, sleeves, OrderedItems(all, org.folderSets), clock, groups);
    JobConservesIff(all, org, sleeves, clock, groups);
  }

  /** Capacity holds for every snapshot without clashing ids, in both spill modes. */
  lemma {:induction false} SnapshotCapacity(org: Organisation, sleeves: map<string, real>, items: seq<Item>,
                                            clock: nat -> int, groups: seq<Element>, slot: nat, unit: int)
    requires Built(org, sleeves, items, clock, groups) && !org.density.UnknownDensity?
    requires DistinctNames(WithSpill(org.spaces)) && slot < |org.spaces| + 1
    requires forall s :: 0 <= s < |org.spaces| && org.spaces[s].capacity.Finite? ==> org.spaces[s].capacity.width >= 0.0
    ensures Fits(UnitWidth(PlacementsOf(org, sleeves, items, groups), WithSpill(org.spaces)[slot].name, unit),
      WithSpill(org.spaces)[slot].capacity)
  {
    ClashIff(org, sleeves, items, clock, groups);
    JobCapacity(org, sleeves, items, groups, slot, unit);
  }

  /**
   * With look-ahead nothing is lost: without clashing ids every selected record is placed at least once, units never
   * go backwards along the placement list, and the numbering stays consecutive.
   */
  lemma {:induction false} SnapshotLosesNothing(all: seq<Record>, org: Organisation, sleeves: map<string, real>,
                                                clock: nat -> int, groups: seq<Element>)
    requires Built(org, sleeves, OrderedItems(all, org.folderSets), clock, groups)
    ensures var items, p := OrderedItems(all, org.folderSets), JobOf(org, sleeves, groups);
      var pl := PlacementsOf(org, sleeves, items, groups);
      && Complete(pl, Records(items))
      && (forall j :: 0 <= j < |pl| ==> pl[j].index == j + 1)
      && (exists us: seq<Pos> :: Backing(p, pl, us))
  {
    ClashIff(org, sleeves, OrderedItems(all, org.folderSets), clock, groups);
    JobLosesNothing(all, org, sleeves, clock, groups);
  }

  // ---- Building again ----

  lemma {:induction false} BreakOutIgnoresSpill(elems: seq<Element>, spaces: seq<Space>, m: Measure)
    ensures BreakOut(elems, WithSpill(spaces), m) == BreakOut(elems, spaces, m)
  {
    if elems != [] {
      BreakOutIgnoresSpill(elems[..|elems| - 1], spaces, m);
      var e := elems[|elems| - 1];
      assert FitsSomewhere(e, spaces, m) ==> FitsSomewhere(e, WithSpill(spaces), m) by {
        var w := GroupWidth(e.records, m);
        if s :| 0 <= s < |spaces| && Fits(w, spaces[s].capacity) && spaces[s].name != SPILL_NAME {
          assert WithSpill(spaces)[s] == spaces[s];
        }
      }
    }
  }

  lemma {:induction false} ExpandIgnoresMore(p: Job, q: Job, sorted: seq<Record>, out: seq<Slotting>)
    requires Extends(q, p) && Expandable(p, out)
    ensures Expandable(q, out) && Expand(q, sorted, out) == Expand(p, sorted, out)
  {
    if out != [] {
      ExpandIgnoresMore(p, q, sorted, out[..|out| - 1]);
      var s := out[|out| - 1];
      assert ExpandOne(q, sorted, s) == ExpandOne(p, sorted, s);
    }
  }

  /**
   * Every call leaves one more spill space behind in the organisation, and yet building again from what is left
   * yields the same snapshot.
   */
  lemma {:induction false} BuildingAgainIsSame(org: Organisation, sleeves: map<string, real>, items: seq<Item>,
                                               groups: seq<Element>)
    ensures var after := org.(spaces := WithSpill(org.spaces));
      PlacementsOf(after, sleeves, items, groups) == PlacementsOf(org, sleeves, items, groups)
  {
    var after := org.(spaces := WithSpill(org.spaces));
    var p, q := JobOf(org, sleeves, groups), JobOf(after, sleeves, groups);
    BreakOutIgnoresSpill(groups, WithSpill(org.spaces), p.measure);
    assert Extends(q, p);
    PackIgnoresMore(p, q);
    PackExpands(p);
    ExpandIgnoresMore(p, q, Records(items), Pack(p));
  }

  lemma {:induction false} SortedIids(pl: seq<Placement>, iid: int)
    requires iid !in Iids(pl)
    ensures iid !in Iids(StableSorting.Sort(IndexLess, pl))
  {
    var s := StableSorting.Sort(IndexLess, pl);
    StableSorting.SortPermutes(IndexLess, pl);
    IidsAt(pl);
    IidsAt(s);
    forall j | 0 <= j < |s| ensures s[j].iid != iid {
      assert s[j] in multiset(s);
      var k :| 0 <= k < |pl| && pl[k] == s[j];
      assert Iids(pl)[k] == s[j].iid;
    }
  }

  /** Capacity holds for every snapshot with distinct ids, in both spill modes. */
  lemma {:induction false} JobCapacity(org: Organisation, sleeves: map<string, real>, items: seq<Item>,
                                            groups: seq<Element>, slot: nat, unit: int)
    requires DistinctIds(JobOf(org, sleeves, groups).elems) && !org.density.UnknownDensity?
    requires DistinctNames(WithSpill(org.spaces)) && slot < |org.spaces| + 1
    requires forall s :: 0 <= s < |org.spaces| && org.spaces[s].capacity.Finite? ==> org.spaces[s].capacity.width >= 0.0
    ensures Fits(UnitWidth(PlacementsOf(org, sleeves, items, groups), WithSpill(org.spaces)[slot].name, unit),
      WithSpill(org.spaces)[slot].capacity)
  {
    AlreadySorted(org, sleeves, items, groups);
    CapacityAfterExpansion(JobOf(org, sleeves, groups), Records(items), slot, unit);
  }

  /**
   * Optimality of a whole snapshot: with sensible records and sleeves, no layout of its elements in the same
   * order and within capacity uses an earlier unit for any of them, or keeps any more of them out of the spill space.
   */
  lemma {:induction false} SnapshotIsOptimal(org: Organisation, sleeves: map<string, real>, items: seq<Item>,
                                             clock: nat -> int, groups: seq<Element>, units: seq<Pos>)
    requires org.spill.NoSpill? && GroupsOf(org, items, clock, groups) && !org.density.UnknownDensity?
    requires forall r <- Records(items) :: SensibleRecord(r)
    requires forall s <- sleeves :: sleeves[s] >= 0.0
    requires |units| == |Pack(JobOf(org, sleeves, groups))|
    requires Respects(WithSpill(org.spaces), Relocate(Pack(JobOf(org, sleeves, groups)), units))
    ensures var out := Pack(JobOf(org, sleeves, groups));
      forall k :: 0 <= k < |units| ==>
        NotAfter(out[k].at, units[k]) && (out[k].at.slot == |org.spaces| ==> units[k].slot == |org.spaces|)
  {
    var p := JobOf(org, sleeves, groups);
    GroupsFlatten(org, items, clock, groups, sleeves);
    if org.grouped {
      GroupingFlattens(items, clock, |items|, groups);
      assert items[..|items|] == items;
    } else {
      SinglesFlatten(items);
    }
    TallestRecord(Records(items), org.handling);
    forall k | 0 <= k < |p.elems| ensures p.Width(k) >= 0.0 {
      forall r <- p.elems[k].records ensures SensibleRecord(r) {
        var j :| 0 <= j < |p.elems[k].records| && p.elems[k].records[j] == r;
        FlattenAt(p.elems, k, j);
      }
      SumWidthsNonNegative(p.elems[k].records, p.measure);
    }
    PackIsOptimal(p, units);
  }

  lemma {:induction false} TallestRecord(rs: seq<Record>, handling: MissingWidthHandling)
    requires forall r <- rs :: SensibleRecord(r)
    ensures DefaultWidth(rs, handling) >= 0.0
  {
    var hi := 1.0;
    for i := 0 to |rs|
      invariant hi >= 1.0 && forall j :: 0 <= j < i ==> rs[j].width <= hi
    {
      if rs[i].width > hi { hi := rs[i].width; }
    }
    DefaultWidthBounds(rs, handling, hi);
  }

  /**
   * With look-ahead nothing is lost: every selected record is placed at least once, units never go
   * backwards along the placement list, and the numbering stays consecutive.
   */
  lemma {:induction false} JobLosesNothing(all: seq<Record>, org: Organisation, sleeves: map<string, real>,
                                                clock: nat -> int, groups: seq<Element>)
    requires GroupsOf(org, OrderedItems(all, org.folderSets), clock, groups)
    requires DistinctIds(JobOf(org, sleeves, groups).elems)
    ensures var items, p := OrderedItems(all, org.folderSets), JobOf(org, sleeves, groups);
      var pl := PlacementsOf(org, sleeves, items, groups);
      && (forall r <- Records(items) :: exists j :: 0 <= j < |pl| && pl[j].iid == r.iid)
      && (forall j :: 0 <= j < |pl| ==> pl[j].index == j + 1)
      && (exists us: seq<Pos> :: Backing(p, pl, us))
  {
    var items, p := OrderedItems(all, org.folderSets), JobOf(org, sleeves, groups);
    var pl := PlacementsOf(org, sleeves, items, groups);
    AlreadySorted(org, sleeves, items, groups);
    PackIsSound(p);
    ExpandUnitsOrdered(p, Records(items), Pack(p));
    assert Backing(p, pl, ExpandUnits(p, Pack(p)));
    GroupsFlatten(org, items, clock, groups, sleeves);
    forall r <- Records(items) ensures exists j :: 0 <= j < |pl| && pl[j].iid == r.iid {
      EveryRecordPlaced(p, Records(items), r);
    }
  }

  /** `us` is the unit of each placement, and never goes backwards. */
  ghost predicate Backing(p: Job, pl: seq<Placement>, us: seq<Pos>) {
    && |us| == |pl|
    && (forall j :: 0 <= j < |us| ==>
      0 <= us[j].slot < |p.spaces| && pl[j].space == p.spaces[us[j].slot].name && pl[j].unit == us[j].unit)
    && (forall i, j :: 0 <= i < j < |us| ==> NotAfter(us[i], us[j]))
  }

  lemma {:induction false} EveryRecordPlaced(p: Job, sorted: seq<Record>, r: Record)
    requires EndsInSpill(p.spaces) && DistinctIds(p.elems) && r in Flatten(p.elems)
    ensures Expandable(p, Pack(p))
    ensures var pl := Expand(p, sorted, Pack(p)); exists j :: 0 <= j < |pl| && pl[j].iid == r.iid
  {
    PackIsSound(p);
    var k := InElement(p.elems, r);
    var a :| 0 <= a < |Pack(p)| && p.elems[Pack(p)[a].elem].id == p.elems[k].id;
    assert Pack(p)[a].elem == k;
    ElementExpanded(p, sorted, Pack(p), a, r);
  }

  lemma {:induction false} InElement(elems: seq<Element>, r: Record) returns (k: nat)
    requires r in Flatten(elems)
    ensures k < |elems| && r in elems[k].records
  {
    if r in elems[|elems| - 1].records {
      k := |elems| - 1;
    } else {
      k := InElement(elems[..|elems| - 1], r);
    }
  }

  lemma {:induction false} ElementExpanded(p: Job, sorted: seq<Record>, out: seq<Slotting>, a: nat, r: Record)
    requires Expandable(p, out) && DistinctIds(p.elems) && a < |out| && r in p.elems[out[a].elem].records
    ensures exists j :: 0 <= j < |Expand(p, sorted, out)| && Expand(p, sorted, out)[j].iid == r.iid
  {
    var n := |out| - 1;
    var init := Expand(p, sorted, out[..n]);
    if a < n {
      ElementExpanded(p, sorted, out[..n], a, r);
      var j :| 0 <= j < |init| && init[j].iid == r.iid;
      assert Expand(p, sorted, out)[j].iid == r.iid;
    } else {
      FiledDistinct(p.elems, out[n].elem);
      var rs := p.elems[out[n].elem].records;
      var k :| 0 <= k < |rs| && rs[k] == r;
      assert Expand(p, sorted, out)[|init| + k] == ExpandOne(p, sorted, out[n])[k];
    }
  }

  // ---- Two collections that lose a record ----

  /** A record whose element shares its id with a later element is missing from the snapshot. */
  lemma {:induction false} ClashedRecordMissing(org: Organisation, sleeves: map<string, real>, items: seq<Item>,
                                                groups: seq<Element>, a: nat, b: nat)
    requires var p := JobOf(org, sleeves, groups);
      && DistinctIids(Flatten(p.elems))
      && a < b < |p.elems| && p.elems[a].id == p.elems[b].id && p.elems[a].records != []
    ensures JobOf(org, sleeves, groups).elems[a].records[0].iid !in Iids(PlacementsOf(org, sleeves, items, groups))
  {
    var p := JobOf(org, sleeves, groups);
    PackExpands(p);
    var pl := Expand(p, Records(items), Pack(p));
    ShadowedIsLost(p, Records(items), Pack(p), a, 0, b);
    IidsAt(pl);
    SortedIids(pl, p.elems[a].records[0].iid);
  }

  function Plain(iid: int, width: real): Record {
    Record(iid, 0, 0, 0, 0, "", "", "", [], width, "")
  }

  /** Two label-sorted records without a label, with an artist-sorted record between them. */
  const RESUMED: seq<Item> := [
    Item(Plain(71, 1.0), LabelCatno), Item(Plain(72, 1.0), ArtistYear), Item(Plain(73, 1.0), LabelCatno)]

  function ResumedGroupsOf(clock: nat -> int): seq<Element> {
    [Element([RESUMED[0].record], 0), Element([RESUMED[1].record], clock(1)), Element([RESUMED[2].record], 0)]
  }

  lemma {:induction false} ResumedGrouping(clock: nat -> int)
    ensures IsGrouping(RESUMED, clock, 3, ResumedGroupsOf(clock))
  {
    var elems := ResumedGroupsOf(clock);
    CloseGroup(RESUMED, clock, 0, 1, [], elems[0]);
    assert [] + [elems[0]] == [elems[0]];
    CloseGroup(RESUMED, clock, 1, 2, [elems[0]], elems[1]);
    assert [elems[0]] + [elems[1]] == [elems[0], elems[1]];
    CloseGroup(RESUMED, clock, 2, 3, [elems[0], elems[1]], elems[2]);
    assert [elems[0], elems[1]] + [elems[2]] == elems;
  }

  function WideShelf(): Organisation {
    Organisation([], [Space("Shelf", Finite(10.0), 1)], Count, IgnoreMissing, true, NoSpill)
  }

  lemma {:induction false} ResumedJob(clock: nat -> int)
    ensures var p := JobOf(WideShelf(), map[], ResumedGroupsOf(clock));
      p.elems == ResumedGroupsOf(clock) && Flatten(p.elems) == Records(RESUMED)
  {
    var groups := ResumedGroupsOf(clock);
    var p := JobOf(WideShelf(), map[], groups);
    KeepsAll(groups, p.spaces, p.measure);
    ResumedFlattens(clock);
  }

  lemma {:induction false} ResumedFlattens(clock: nat -> int)
    ensures Flatten(ResumedGroupsOf(clock)) == Records(RESUMED)
  {
    ResumedGrouping(clock);
    GroupingFlattens(RESUMED, clock, 3, ResumedGroupsOf(clock));
    assert RESUMED[..3] == RESUMED;
  }

  /** Grouped, the two unlabelled records get the same id 0, and the first is lost. */
  lemma {:induction false} ResumedLabelLosesRecord(clock: nat -> int)
    ensures GroupsOf(WideShelf(), RESUMED, clock, ResumedGroupsOf(clock))
    ensures 71 in RecordIids(Records(RESUMED))
    ensures 71 !in Iids(PlacementsOf(WideShelf(), map[], RESUMED, ResumedGroupsOf(clock)))
  {
    ResumedGrouping(clock);
    ResumedJob(clock);
    FirstIid(RESUMED);
    assert DistinctIids(Records(RESUMED)) by { RecordsAt(RESUMED); }
    ClashedRecordMissing(WideShelf(), map[], RESUMED, ResumedGroupsOf(clock), 0, 2);
  }

  lemma {:induction false} FirstIid(items: seq<Item>)
    requires items != []
    ensures items[0].record.iid in RecordIids(Records(items))
  {
    RecordsAt(items);
    RecordIidsAt(Records(items));
    assert RecordIids(Records(items))[0] == items[0].record.iid;
  }

  lemma {:induction false} KeepsOne(e: Element, spaces: seq<Space>, m: Measure)
    requires |e.records| == 1 && m.density.Count?
    requires |spaces| > 0 && spaces[0].name != SPILL_NAME && Fits(1.0, spaces[0].capacity)
    ensures BreakOutOne(e, spaces, m) == [e]
  {
    CountWidth(e.records, m);
    assert GroupWidth(e.records, m) == 1.0;
    assert FitsAmong(e, spaces, m, |spaces|);
  }

  lemma {:induction false} KeepsAll(elems: seq<Element>, spaces: seq<Space>, m: Measure)
    requires forall k :: 0 <= k < |elems| ==> |elems[k].records| == 1
    requires m.density.Count? && |spaces| > 0 && spaces[0].name != SPILL_NAME && Fits(1.0, spaces[0].capacity)
    ensures BreakOut(elems, spaces, m) == elems
  {
    if elems != [] {
      KeepsAll(elems[..|elems| - 1], spaces, m);
      KeepsOne(elems[|elems| - 1], spaces, m);
      assert elems == elems[..|elems| - 1] + [elems[|elems| - 1]];
    }
  }

  /**
   * Ungrouped: a box set that fits nowhere takes its instance id 2, which is also the list number of the next record.
   */
  const BOX_SET: seq<Item> := [Item(Plain(2, 5.0), ArtistYear), Item(Plain(9, 0.5), ArtistYear)]

  lemma {:induction false} BoxSetLosesRecord(clock: nat -> int)
    ensures var org := Organisation([], [Space("Shelf", Finite(1.0), 1)], Width, IgnoreMissing, false, NoSpill);
      && GroupsOf(org, BOX_SET, clock, Singles(BOX_SET))
      && 2 in RecordIids(Records(BOX_SET)) && 2 !in Iids(PlacementsOf(org, map[], BOX_SET, Singles(BOX_SET)))
  {
    var org := Organisation([], [Space("Shelf", Finite(1.0), 1)], Width, IgnoreMissing, false, NoSpill);
    var items := BOX_SET;
    var p := JobOf(org, map[], Singles(items));
    RecordsAt(items);
    GroupsFlatten(org, items, clock, Singles(items), map[]);
    BrokenSingles(items, p.spaces, p.measure);
    SingleWidth(items[0].record, p.measure);
    SingleWidth(items[1].record, p.measure);
    assert RecordWidth(items[0].record, p.measure) == 5.0 && RecordWidth(items[1].record, p.measure) == 0.5;
    assert Fits(0.5, p.spaces[0].capacity);
    assert !TooWide(items[1].record, p.spaces, p.measure) && TooWide(items[0].record, p.spaces, p.measure);
    assert p.elems[0].id == 2 && p.elems[1].id == 2;
    FirstIid(items);
    FlattenSingles(p.elems, Records(items));
    ClashedRecordMissing(org, map[], items, Singles(items), 0, 1);
  }

  lemma {:induction false} FlattenSingles(elems: seq<Element>, rs: seq<Record>)
    requires |elems| == |rs| == 2 && Flatten(elems) == rs && elems[0].records != [] && elems[1].records != []
    ensures elems[0].records == [rs[0]] && elems[1].records == [rs[1]]
  {
    FlattenAt(elems, 0, 0);
    FlattenAt(elems, 1, 0);
    assert elems[..0] == [];
    assert elems[..1][..0] == [];
    assert elems[..2] == elems;
  }
}
