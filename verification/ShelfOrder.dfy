/** Which records an organisation holds, and in what order (the first half of BuildSnapshot in org/org.go). */
module ShelfOrder {
  import opened RecordOrder
  import opened ShelfModel
  import StableSorting

  datatype FolderSet = FolderSet(index: int, folder: int, sort: Sort)

  /** A record together with the sort of the folder set that selected it. */
  datatype Item = Item(record: Record, sort: Sort)

  function Comparator(s: Sort): (Item, Item) -> bool {
    (x: Item, y: Item) => Earlier(s, x.record, y.record)
  }

  /** Every comparator is a strict weak order, which is what `sort.SliceStable` needs to sort at all. */
  lemma {:induction false} ComparatorIsStrictWeakOrder(s: Sort)
    ensures StableSorting.StrictWeakOrder(Comparator(s))
  {
    var lt := Comparator(s);
    forall x, y | lt(x, y) ensures !lt(y, x) {
      EarlierIsAsymmetric(s, x.record, y.record);
    }
    forall x, y, z | lt(x, z) ensures lt(x, y) || lt(y, z) {
      EarlierIsNegativelyTransitive(s, x.record, y.record, z.record);
    }
  }

  // ---- Selection ----

  /** The records of one folder, in collection order. */
  function InFolder(all: seq<Record>, fs: FolderSet): seq<Item> {
    if all == [] then []
    else
      InFolder(all[..|all| - 1], fs)
      + (if all[|all| - 1].folder == fs.folder then [Item(all[|all| - 1], fs.sort)] else [])
  }

  /** The records of the folder sets with one index. */
  function AtIndex(all: seq<Record>, fss: seq<FolderSet>, index: int): seq<Item> {
    if fss == [] then []
    else
      var last := fss[|fss| - 1];
      AtIndex(all, fss[..|fss| - 1], index) + (if last.index == index then InFolder(all, last) else [])
  }

  /** The sort of the last record selected decides for the whole index. */
  function IndexSort(items: seq<Item>): Sort {
    if items == [] then ArtistYear else items[|items| - 1].sort
  }

  function SortIndex(items: seq<Item>): seq<Item> {
    StableSorting.Sort(Comparator(IndexSort(items)), items)
  }

  /** Inside an index the records are in order, and records with equal keys keep their selection order. */
  lemma {:induction false} IndexIsSortedStably(items: seq<Item>, c: Item)
    ensures StableSorting.Sorted(Comparator(IndexSort(items)), SortIndex(items))
    ensures var tied := x => StableSorting.Tied(Comparator(IndexSort(items)), x, c);
      StableSorting.Filter(tied, SortIndex(items)) == StableSorting.Filter(tied, items)
  {
    ComparatorIsStrictWeakOrder(IndexSort(items));
    StableSorting.SortSorts(Comparator(IndexSort(items)), items);
    StableSorting.SortStable(Comparator(IndexSort(items)), items, c);
  }

  function MaxIndex(fss: seq<FolderSet>): int {
    if fss == [] then 1
    else
      var m := MaxIndex(fss[..|fss| - 1]);
      if fss[|fss| - 1].index > m then fss[|fss| - 1].index else m
  }

  /** The items of the first `n` indexes, each index sorted on its own. */
  function OrderedUpTo(all: seq<Record>, fss: seq<FolderSet>, n: nat): seq<Item> {
    if n == 0 then [] else OrderedUpTo(all, fss, n - 1) + SortIndex(AtIndex(all, fss, n - 1))
  }

  function OrderedItems(all: seq<Record>, fss: seq<FolderSet>): seq<Item> {
    OrderedUpTo(all, fss, if MaxIndex(fss) < 0 then 0 else MaxIndex(fss) + 1)
  }

  /** The two inner loops: the records of one index, sorted as the last of them says. */
  method SelectIndex(all: seq<Record>, fss: seq<FolderSet>, index: int) returns (sorted: seq<Item>)
    ensures sorted == SortIndex(AtIndex(all, fss, index))
  {
    var recs: seq<Item>, s := [], ArtistYear;
    for f := 0 to |fss|
      invariant recs == AtIndex(all, fss[..f], index) && s == IndexSort(recs)
    {
      assert fss[..f + 1][..f] == fss[..f];
      ghost var before := recs;
      for r := 0 to |all|
        invariant recs == before + (if fss[f].index == index then InFolder(all[..r], fss[f]) else [])
        invariant s == IndexSort(recs)
      {
        assert all[..r + 1][..r] == all[..r];
        if all[r].folder == fss[f].folder && fss[f].index == index {
          s := fss[f].sort;
          recs := recs + [Item(all[r], fss[f].sort)];
        }
      }
      assert all[..|all|] == all;
    }
    assert fss[..|fss|] == fss;
    sorted := StableSorting.Sort(Comparator(s), recs);
  }

  method HighestIndex(fss: seq<FolderSet>) returns (maxIndex: int)
    ensures maxIndex == MaxIndex(fss) >= 1
  {
    maxIndex := 1;
    for f := 0 to |fss|
      invariant maxIndex == MaxIndex(fss[..f]) >= 1
    {
      assert fss[..f + 1][..f] == fss[..f];
      if fss[f].index > maxIndex { maxIndex := fss[f].index; }
    }
    assert fss[..|fss|] == fss;
  }

  lemma {:induction false} MaxIndexBounds(fss: seq<FolderSet>)
    ensures MaxIndex(fss) >= 1 && forall f :: 0 <= f < |fss| ==> fss[f].index <= MaxIndex(fss)
  {
    if fss != [] {
      var init := fss[..|fss| - 1];
      MaxIndexBounds(init);
      forall f | 0 <= f < |fss| ensures fss[f].index <= MaxIndex(fss) {
        if f < |init| { assert init[f] == fss[f]; }
      }
    }
  }

  // ---- Where each item comes from ----

  /** An item is picked by a folder set of the list `fss`, out of the collection. */
  datatype Origin = Origin(picker: nat, place: nat)

  predicate Picks(all: seq<Record>, fss: seq<FolderSet>, o: Origin) {
    o.picker < |fss| && o.place < |all| && fss[o.picker].folder == all[o.place].folder
  }

  predicate PickedFirst(a: Origin, b: Origin) {
    a.picker < b.picker || (a.picker == b.picker && a.place < b.place)
  }

  /** Folder set `f` is the last one of its index that picks a record at all. */
  ghost predicate Rules(all: seq<Record>, fss: seq<FolderSet>, f: nat) {
    && f < |fss|
    && (exists p :: Picks(all, fss, Origin(f, p)))
    && forall o :: Picks(all, fss, o) && fss[o.picker].index == fss[f].index ==> o.picker <= f
  }

  /** Under a sort: by the keys, and equal keys in the order of picking. */
  ghost predicate SortsBefore(all: seq<Record>, sort: Sort, a: Origin, b: Origin)
    requires a.place < |all| && b.place < |all|
  {
    && InKeyOrder(sort, all[a.place], all[b.place])
    && (InKeyOrder(sort, all[b.place], all[a.place]) ==> PickedFirst(a, b))
  }

  /** By index; inside an index by the sort that rules it. */
  ghost predicate StandsBefore(all: seq<Record>, fss: seq<FolderSet>, a: Origin, b: Origin) {
    && Picks(all, fss, a)
    && Picks(all, fss, b)
    && fss[a.picker].index <= fss[b.picker].index
    && (fss[a.picker].index == fss[b.picker].index ==>
          exists f: nat :: Rules(all, fss, f) && fss[f].index == fss[a.picker].index
            && SortsBefore(all, fss[f].sort, a, b))
  }

  ghost predicate Explains(all: seq<Record>, fss: seq<FolderSet>, items: seq<Item>, from: seq<Origin>) {
    && |from| == |items|
    && forall k :: 0 <= k < |items| ==>
         && Picks(all, fss, from[k])
         && items[k] == Item(all[from[k].place], fss[from[k].picker].sort)
  }

  ghost predicate StandInOrder(all: seq<Record>, fss: seq<FolderSet>, from: seq<Origin>) {
    forall i, j :: 0 <= i < j < |from| ==> StandsBefore(all, fss, from[i], from[j])
  }

  /** `from` holds what the folder sets below `m` pick, as far as their index is in lo..hi-1, and nothing else. */
  ghost predicate HoldsPicks(all: seq<Record>, fss: seq<FolderSet>, from: seq<Origin>, m: int, lo: int, hi: int) {
    forall o :: o in from <==> Picks(all, fss, o) && o.picker < m && lo <= fss[o.picker].index < hi
  }

  /** What the selection is: every pick with an index of at least 0, once, in order. */
  ghost predicate IsSelection(all: seq<Record>, fss: seq<FolderSet>, items: seq<Item>, from: seq<Origin>) {
    && Explains(all, fss, items, from)
    && StandInOrder(all, fss, from)
    && forall o :: o in from <==> Picks(all, fss, o) && fss[o.picker].index >= 0
  }

  ghost predicate PickedInOrder(from: seq<Origin>) {
    forall i, j :: 0 <= i < j < |from| ==> PickedFirst(from[i], from[j])
  }

  lemma {:induction false} FolderOrigins(all: seq<Record>, fss: seq<FolderSet>, f: nat, n: nat)
    returns (from: seq<Origin>)
    requires f < |fss| && n <= |all|
    ensures Explains(all, fss, InFolder(all[..n], fss[f]), from) && PickedInOrder(from)
    ensures forall o :: o in from <==> Picks(all, fss, o) && o.picker == f && o.place < n
  {
    if n == 0 {
      from := [];
    } else {
      from := FolderOrigins(all, fss, f, n - 1);
      assert all[..n][..n - 1] == all[..n - 1];
      if all[n - 1].folder == fss[f].folder {
        from := from + [Origin(f, n - 1)];
      }
    }
  }

  lemma {:induction false} ExplainsJoin(all: seq<Record>, fss: seq<FolderSet>,
      s: seq<Item>, t: seq<Item>, a: seq<Origin>, b: seq<Origin>)
    requires Explains(all, fss, s, a) && Explains(all, fss, t, b)
    ensures Explains(all, fss, s + t, a + b)
  {
  }

  lemma {:induction false} PicksJoin(a: seq<Origin>, b: seq<Origin>, m: nat)
    requires PickedInOrder(a) && PickedInOrder(b)
    requires (forall o :: o in a ==> o.picker < m) && (forall o :: o in b ==> o.picker == m)
    ensures PickedInOrder(a + b)
  {
    var from := a + b;
    forall i, j | 0 <= i < j < |from| ensures PickedFirst(from[i], from[j]) {
      if i < |a| <= j { assert a[i] in a && b[j - |a|] in b; }
    }
  }

  lemma {:induction false} IndexOrigins(all: seq<Record>, fss: seq<FolderSet>, m: nat, index: int)
    returns (from: seq<Origin>)
    requires m <= |fss|
    ensures Explains(all, fss, AtIndex(all, fss[..m], index), from) && PickedInOrder(from)
    ensures HoldsPicks(all, fss, from, m, index, index + 1)
  {
    if m == 0 {
      from := [];
    } else {
      from := IndexOrigins(all, fss, m - 1, index);
      assert fss[..m][..m - 1] == fss[..m - 1] && all[..|all|] == all;
      if fss[m - 1].index == index {
        var before := from;
        var more := FolderOrigins(all, fss, m - 1, |all|);
        from := before + more;
        PicksJoin(before, more, m - 1);
        ExplainsJoin(all, fss, AtIndex(all, fss[..m - 1], index), InFolder(all, fss[m - 1]), before, more);
      }
    }
  }

  /** The sort that the loop ends with is the one of the ruling folder set. */
  lemma {:induction false} LastPickRules(all: seq<Record>, fss: seq<FolderSet>, index: int, from: seq<Origin>)
    requires Explains(all, fss, AtIndex(all, fss, index), from) && PickedInOrder(from) && from != []
    requires HoldsPicks(all, fss, from, |fss|, index, index + 1)
    ensures var f := from[|from| - 1].picker;
      Rules(all, fss, f) && fss[f].index == index && IndexSort(AtIndex(all, fss, index)) == fss[f].sort
  {
    var last := from[|from| - 1];
    assert last in from && last == Origin(last.picker, last.place);
    forall o | Picks(all, fss, o) && fss[o.picker].index == index ensures o.picker <= last.picker {
      assert o in from;
      var i :| 0 <= i < |from| && from[i] == o;
    }
  }

  function Reordered(picks: seq<Origin>, places: seq<nat>): seq<Origin>
    requires forall k :: 0 <= k < |places| ==> places[k] < |picks|
  {
    seq(|places|, k requires 0 <= k < |places| => picks[places[k]])
  }

  lemma {:induction false} SamePicks(picks: seq<Origin>, places: seq<nat>)
    requires forall k :: 0 <= k < |places| ==> places[k] < |picks|
    requires StableSorting.Covers(places, |picks|)
    ensures forall o :: o in Reordered(picks, places) <==> o in picks
  {
    var from := Reordered(picks, places);
    forall o | o in picks ensures o in from {
      var i :| 0 <= i < |picks| && picks[i] == o;
      assert i in places;
      var k :| 0 <= k < |places| && places[k] == i;
      assert from[k] == o;
    }
  }

  /** Two picks of one index, where the sorted list has the first one in front. */
  lemma {:induction false} RuledOrder(all: seq<Record>, fss: seq<FolderSet>, f: nat, a: Origin, b: Origin)
    requires Rules(all, fss, f) && Picks(all, fss, a) && Picks(all, fss, b)
    requires fss[a.picker].index == fss[f].index == fss[b.picker].index
    requires var s, r, t := fss[f].sort, all[a.place], all[b.place];
      Earlier(s, r, t) || (!Earlier(s, t, r) && PickedFirst(a, b))
    ensures StandsBefore(all, fss, a, b)
  {
    var s, r, t := fss[f].sort, all[a.place], all[b.place];
    EarlierByKeys(s, r, t);
    EarlierByKeys(s, t, r);
    if Earlier(s, r, t) { EarlierIsAsymmetric(s, r, t); }
  }

  lemma {:induction false} AllRuled(all: seq<Record>, fss: seq<FolderSet>, f: nat,
      sorted: seq<Item>, picks: seq<Origin>, places: seq<nat>)
    requires Rules(all, fss, f) && PickedInOrder(picks) && |places| == |sorted|
    requires forall o :: o in picks ==> Picks(all, fss, o) && fss[o.picker].index == fss[f].index
    requires forall k :: 0 <= k < |places| ==> places[k] < |picks|
    requires Explains(all, fss, sorted, Reordered(picks, places))
    requires StableSorting.StablyOrdered(Comparator(fss[f].sort), sorted, places)
    ensures StandInOrder(all, fss, Reordered(picks, places))
  {
    var from := Reordered(picks, places);
    forall i, j | 0 <= i < j < |from| ensures StandsBefore(all, fss, from[i], from[j]) {
      var a, b := picks[places[i]], picks[places[j]];
      assert a in picks && b in picks;
      RuledOrder(all, fss, f, a, b);
    }
  }

  lemma {:induction false} SortedOrigins(all: seq<Record>, fss: seq<FolderSet>, index: int)
    returns (from: seq<Origin>)
    ensures Explains(all, fss, SortIndex(AtIndex(all, fss, index)), from) && StandInOrder(all, fss, from)
    ensures HoldsPicks(all, fss, from, |fss|, index, index + 1)
  {
    assert fss[..|fss|] == fss;
    var items := AtIndex(all, fss, index);
    var picks := IndexOrigins(all, fss, |fss|, index);
    ComparatorIsStrictWeakOrder(IndexSort(items));
    var places := StableSorting.SortPlaces(Comparator(IndexSort(items)), items);
    from := Reordered(picks, places);
    SamePicks(picks, places);
    if picks != [] {
      LastPickRules(all, fss, index, picks);
      AllRuled(all, fss, picks[|picks| - 1].picker, SortIndex(items), picks, places);
    }
  }

  lemma {:induction false} JoinInOrder(all: seq<Record>, fss: seq<FolderSet>, a: seq<Origin>, b: seq<Origin>)
    requires StandInOrder(all, fss, a) && StandInOrder(all, fss, b)
    requires forall x, y :: x in a && y in b ==>
      Picks(all, fss, x) && Picks(all, fss, y) && fss[x.picker].index < fss[y.picker].index
    ensures StandInOrder(all, fss, a + b)
  {
    var from := a + b;
    forall i, j | 0 <= i < j < |from| ensures StandsBefore(all, fss, from[i], from[j]) {
      if i < |a| <= j {
        assert a[i] in a && b[j - |a|] in b;
      } else if j < |a| {
        assert StandsBefore(all, fss, a[i], a[j]);
      } else {
        assert StandsBefore(all, fss, b[i - |a|], b[j - |a|]);
      }
    }
  }

  lemma {:induction false} OrderedOrigins(all: seq<Record>, fss: seq<FolderSet>, n: nat) returns (from: seq<Origin>)
    ensures Explains(all, fss, OrderedUpTo(all, fss, n), from) && StandInOrder(all, fss, from)
    ensures HoldsPicks(all, fss, from, |fss|, 0, n)
  {
    if n == 0 {
      from := [];
    } else {
      var before := OrderedOrigins(all, fss, n - 1);
      var more := SortedOrigins(all, fss, n - 1);
      from := before + more;
      JoinInOrder(all, fss, before, more);
      ExplainsJoin(all, fss, OrderedUpTo(all, fss, n - 1), SortIndex(AtIndex(all, fss, n - 1)), before, more);
    }
  }

  /** The order in which the records come out. */
  lemma {:induction false} SelectionOrder(all: seq<Record>, fss: seq<FolderSet>) returns (from: seq<Origin>)
    ensures IsSelection(all, fss, OrderedItems(all, fss), from)
  {
    MaxIndexBounds(fss);
    from := OrderedOrigins(all, fss, MaxIndex(fss) + 1);
  }

  lemma {:induction false} StandsBeforeIsAsymmetric(all: seq<Record>, fss: seq<FolderSet>, a: Origin, b: Origin)
    requires StandsBefore(all, fss, a, b)
    ensures !StandsBefore(all, fss, b, a)
  {
    forall f: nat, g: nat | Rules(all, fss, f) && Rules(all, fss, g) && fss[f].index == fss[g].index ensures f == g {
    }
  }

  lemma {:induction false} SameStart(all: seq<Record>, fss: seq<FolderSet>, a: seq<Origin>, b: seq<Origin>)
    requires StandInOrder(all, fss, a) && StandInOrder(all, fss, b) && forall o :: o in a <==> o in b
    requires a != [] && b != []
    ensures a[0] == b[0]
  {
    assert a[0] in b && b[0] in a;
    if a[0] != b[0] {
      StandsBeforeIsAsymmetric(all, fss, a[0], b[0]);
    }
  }

  lemma {:induction false} FirstOnce(all: seq<Record>, fss: seq<FolderSet>, a: seq<Origin>)
    requires StandInOrder(all, fss, a) && a != []
    ensures forall o :: o in a[1..] <==> o in a && o != a[0]
  {
    forall o | o in a[1..] ensures o != a[0] {
      var k :| 0 <= k < |a[1..]| && a[1..][k] == o;
      StandsBeforeIsAsymmetric(all, fss, a[0], a[k + 1]);
    }
    assert a == [a[0]] + a[1..];
  }

  lemma {:induction false} SameOrigins(all: seq<Record>, fss: seq<FolderSet>, a: seq<Origin>, b: seq<Origin>)
    requires StandInOrder(all, fss, a) && StandInOrder(all, fss, b) && forall o :: o in a <==> o in b
    ensures a == b
  {
    assert (a != [] ==> a[0] in a) && (b != [] ==> b[0] in b);
    if a != [] && b != [] {
      SameStart(all, fss, a, b);
      FirstOnce(all, fss, a);
      FirstOnce(all, fss, b);
      SameOrigins(all, fss, a[1..], b[1..]);
    }
  }

  /** Only one list of items is a selection. */
  lemma {:induction false} SelectionIsUnique(all: seq<Record>, fss: seq<FolderSet>,
      a: seq<Item>, b: seq<Item>, aFrom: seq<Origin>, bFrom: seq<Origin>)
    requires IsSelection(all, fss, a, aFrom) && IsSelection(all, fss, b, bFrom)
    ensures a == b
  {
    SameOrigins(all, fss, aFrom, bFrom);
  }

  /** The records of all indexes, in the order that the folder sets ask for. */
  method SelectAndSort(all: seq<Record>, fss: seq<FolderSet>) returns (items: seq<Item>)
    ensures items == OrderedItems(all, fss)
    ensures exists from :: IsSelection(all, fss, items, from)
  {
    var maxIndex := HighestIndex(fss);
    items := [];
    for index := 0 to maxIndex + 1
      invariant items == OrderedUpTo(all, fss, index)
    {
      var sorted := SelectIndex(all, fss, index);
      items := items + sorted;
    }
    ghost var from := SelectionOrder(all, fss);
  }

  // ---- Conservation: every record of a mapped folder comes out, as often as its folder is mapped ----

  function Records(items: seq<Item>): seq<Record> {
    if items == [] then [] else Records(items[..|items| - 1]) + [items[|items| - 1].record]
  }

  /** How many folder sets name the folder; only an index of at least 0 counts. */
  function Mappings(fss: seq<FolderSet>, folder: int): nat {
    if fss == [] then 0
    else
      var last := fss[|fss| - 1];
      Mappings(fss[..|fss| - 1], folder) + (if last.folder == folder && last.index >= 0 then 1 else 0)
  }

  /** `copies` for every folder set with an index in lo..hi-1 that names the folder. */
  function Owed(copies: nat, fss: seq<FolderSet>, folder: int, lo: int, hi: int): nat {
    if fss == [] then 0
    else
      Owed(copies, fss[..|fss| - 1], folder, lo, hi)
      + (if fss[|fss| - 1].folder == folder && lo <= fss[|fss| - 1].index < hi then copies else 0)
  }

  /** How many of the items hold record `r`. */
  function Copies(items: seq<Item>, r: Record): nat { multiset(Records(items))[r] }

  lemma {:induction false} RecordsAppend(a: seq<Item>, b: seq<Item>)
    ensures Records(a + b) == Records(a) + Records(b)
  {
    if b == [] {
      assert a + b == a;
    } else {
      assert (a + b)[..|a + b| - 1] == a + b[..|b| - 1];
      RecordsAppend(a, b[..|b| - 1]);
    }
  }

  lemma {:induction false} RecordsAt(items: seq<Item>)
    ensures |Records(items)| == |items|
    ensures forall k :: 0 <= k < |items| ==> Records(items)[k] == items[k].record
  {
    if items != [] { RecordsAt(items[..|items| - 1]); }
  }

  lemma {:induction false} CopiesAppend(a: seq<Item>, b: seq<Item>, r: Record)
    ensures Copies(a + b, r) == Copies(a, r) + Copies(b, r)
  {
    RecordsAppend(a, b);
  }

  lemma {:induction false} InsertCopies(lt: (Item, Item) -> bool, x: Item, s: seq<Item>, r: Record)
    ensures Copies(StableSorting.Insert(lt, x, s), r) == Copies([x], r) + Copies(s, r)
  {
    if s == [] || !lt(s[0], x) {
      CopiesAppend([x], s, r);
    } else {
      CopiesAppend([s[0]], StableSorting.Insert(lt, x, s[1..]), r);
      InsertCopies(lt, x, s[1..], r);
      CopiesAppend([s[0]], s[1..], r);
      assert s == [s[0]] + s[1..];
    }
  }

  lemma {:induction false} SortCopies(lt: (Item, Item) -> bool, s: seq<Item>, r: Record)
    ensures Copies(StableSorting.Sort(lt, s), r) == Copies(s, r)
  {
    if s != [] {
      SortCopies(lt, s[1..], r);
      InsertCopies(lt, s[0], StableSorting.Sort(lt, s[1..]), r);
      CopiesAppend([s[0]], s[1..], r);
      assert s == [s[0]] + s[1..];
    }
  }

  lemma {:induction false} LastCounts(all: seq<Record>, r: Record)
    requires all != []
    ensures multiset(all)[r] == multiset(all[..|all| - 1])[r] + (if all[|all| - 1] == r then 1 else 0)
  {
    assert all == all[..|all| - 1] + [all[|all| - 1]];
  }

  lemma {:induction false} FolderCopies(all: seq<Record>, fs: FolderSet, r: Record)
    ensures Copies(InFolder(all, fs), r) == if r.folder == fs.folder then multiset(all)[r] else 0
  {
    if all != [] {
      var last := all[|all| - 1];
      FolderCopies(all[..|all| - 1], fs, r);
      LastCounts(all, r);
      if last.folder == fs.folder {
        var x := Item(last, fs.sort);
        CopiesAppend(InFolder(all[..|all| - 1], fs), [x], r);
        assert [x][..0] == [] && Records([x]) == [last];
      } else {
        assert InFolder(all, fs) == InFolder(all[..|all| - 1], fs);
      }
    }
  }

  lemma {:induction false} IndexCopies(all: seq<Record>, fss: seq<FolderSet>, index: nat, r: Record)
    ensures Copies(AtIndex(all, fss, index), r) == Owed(multiset(all)[r], fss, r.folder, index, index + 1)
  {
    if fss != [] {
      var last := fss[|fss| - 1];
      var init := fss[..|fss| - 1];
      IndexCopies(all, init, index, r);
      FolderCopies(all, last, r);
      CopiesAppend(AtIndex(all, init, index), if last.index == index then InFolder(all, last) else [], r);
    }
  }

  lemma {:induction false} OwedSplits(copies: nat, fss: seq<FolderSet>, folder: int, n: nat)
    ensures Owed(copies, fss, folder, 0, 0) == 0
    ensures Owed(copies, fss, folder, 0, n + 1) == Owed(copies, fss, folder, 0, n) + Owed(copies, fss, folder, n, n + 1)
  {
    if fss != [] { OwedSplits(copies, fss[..|fss| - 1], folder, n); }
  }

  lemma {:induction false} OrderedStep(all: seq<Record>, fss: seq<FolderSet>, n: nat, r: Record)
    requires Copies(OrderedUpTo(all, fss, n), r) == Owed(multiset(all)[r], fss, r.folder, 0, n)
    ensures Copies(OrderedUpTo(all, fss, n + 1), r) == Owed(multiset(all)[r], fss, r.folder, 0, n + 1)
  {
    CopiesAppend(OrderedUpTo(all, fss, n), SortIndex(AtIndex(all, fss, n)), r);
    SortCopies(Comparator(IndexSort(AtIndex(all, fss, n))), AtIndex(all, fss, n), r);
    IndexCopies(all, fss, n, r);
    OwedSplits(multiset(all)[r], fss, r.folder, n);
  }

  lemma {:induction false} OrderedCopies(all: seq<Record>, fss: seq<FolderSet>, n: nat, r: Record)
    ensures Copies(OrderedUpTo(all, fss, n), r) == Owed(multiset(all)[r], fss, r.folder, 0, n)
  {
    OwedSplits(multiset(all)[r], fss, r.folder, 0);
    for k := 0 to n
      invariant Copies(OrderedUpTo(all, fss, k), r) == Owed(multiset(all)[r], fss, r.folder, 0, k)
    {
      OrderedStep(all, fss, k, r);
    }
  }

  lemma {:induction false} OwedInAll(copies: nat, fss: seq<FolderSet>, folder: int, n: int)
    requires forall f :: 0 <= f < |fss| ==> fss[f].index < n
    ensures Owed(copies, fss, folder, 0, n) == copies * Mappings(fss, folder)
  {
    if fss != [] {
      var init := fss[..|fss| - 1];
      forall f | 0 <= f < |init| ensures init[f].index < n { assert init[f] == fss[f]; }
      OwedInAll(copies, init, folder, n);
      var m := Mappings(init, folder);
      assert copies * (m + 1) == copies * m + copies;
    }
  }

  /**
   * Selection and sorting conserve the records: each comes out as many times as it is in the collection,
   * times the number of folder sets (with an index of at least 0) that name its folder.
   */
  lemma {:induction false} OrderingConserves(all: seq<Record>, fss: seq<FolderSet>, r: Record)
    ensures Copies(OrderedItems(all, fss), r) == multiset(all)[r] * Mappings(fss, r.folder)
  {
    MaxIndexBounds(fss);
    var n, copies: nat := MaxIndex(fss) + 1, multiset(all)[r];
    assert OrderedItems(all, fss) == OrderedUpTo(all, fss, n);
    OrderedCopies(all, fss, n, r);
    OwedInAll(copies, fss, r.folder, n);
  }
}
