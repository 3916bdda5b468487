/** One-by-one wantlists: at most one open want at a time (background/refreshwantlists.go). */
module Wantlist {
  import StableSorting

  datatype WantState = Unknown | Pending | Retired | Purchased | Wanted | InTransit

  /** A stored want: its state, and the state its list intends for it. */
  datatype Want = Want(state: WantState, intended: WantState)

  datatype Entry = Entry(id: int, index: int, state: WantState)

  /** A list together with the stored wants. */
  datatype Listing = Listing(entries: seq<Entry>, wants: map<int, Want>)

  // ---- Syncing entries from wants ----

  const NEW_WANT := Want(Unknown, Unknown)

  function Stored(wants: map<int, Want>, id: int): Want {
    if id in wants then wants[id] else NEW_WANT
  }

  function Intended(w: Want): WantState {
    if w.intended == Unknown then w.state else w.intended
  }

  /** An arrived record, or a purchased entry, is purchased; any other entry takes the intended state of its want. */
  function SyncEntry(e: Entry, wants: map<int, Want>, arrived: set<int>): Entry {
    e.(state := if e.id in arrived || e.state == Purchased then Purchased else Intended(Stored(wants, e.id)))
  }

  function SyncEntries(entries: seq<Entry>, wants: map<int, Want>, arrived: set<int>): seq<Entry> {
    seq(|entries|, j requires 0 <= j < |entries| => SyncEntry(entries[j], wants, arrived))
  }

  /** Wants that are missing are created. */
  function Created(entries: seq<Entry>, wants: map<int, Want>): map<int, Want> {
    if entries == [] then wants
    else
      var w := Created(entries[..|entries| - 1], wants);
      var id := entries[|entries| - 1].id;
      if id in w then w else w[id := NEW_WANT]
  }

  /** The entry is, or is meant to be, purchased: it has arrived, or it was so already, or its want says so. */
  predicate MeantPurchased(e: Entry, wants: map<int, Want>, arrived: set<int>) {
    || e.id in arrived
    || e.state == Purchased
    || (e.id in wants && wants[e.id].intended == Purchased)
    || (e.id in wants && wants[e.id].intended == Unknown && wants[e.id].state == Purchased)
  }

  /** What syncing makes of an entry: only its state may change, to purchased or else to what its want says. */
  predicate EntrySynced(e: Entry, wants: map<int, Want>, arrived: set<int>, n: Entry) {
    && n.id == e.id && n.index == e.index
    && (n.state == Purchased <==> MeantPurchased(e, wants, arrived))
    && (n.state != Purchased && e.id in wants && wants[e.id].intended != Unknown ==> n.state == wants[e.id].intended)
    && (n.state != Purchased && e.id in wants && wants[e.id].intended == Unknown ==> n.state == wants[e.id].state)
    && (n.state != Purchased && e.id !in wants ==> n.state == Unknown)
  }

  /** Each missing want is there, with nothing known about it, and the others are as before. */
  ghost predicate WantsCompleted(entries: seq<Entry>, wants: map<int, Want>, n: map<int, Want>) {
    forall id ::
      && (id in n <==> id in wants || Names(entries, id))
      && (id in wants ==> id in n && n[id] == wants[id])
      && (id !in wants && id in n ==> n[id] == Want(Unknown, Unknown))
  }

  method SyncWants(entries: seq<Entry>, wants: map<int, Want>, arrived: set<int>)
    returns (synced: seq<Entry>, wants': map<int, Want>)
    ensures synced == SyncEntries(entries, wants, arrived) && wants' == Created(entries, wants)
    ensures |synced| == |entries|
    ensures forall j :: 0 <= j < |entries| ==> EntrySynced(entries[j], wants, arrived, synced[j])
    ensures WantsCompleted(entries, wants, wants')
  {
    synced, wants' := entries, wants;
    for j := 0 to |entries|
      invariant |synced| == |entries| && wants' == Created(entries[..j], wants)
      invariant forall i :: 0 <= i < |entries| ==>
        synced[i] == if i < j then SyncEntry(entries[i], wants, arrived) else entries[i]
    {
      assert entries[..j + 1][..j] == entries[..j];
      CreatedKeeps(entries[..j], wants);
      var entry := synced[j];
      if entry.id !in wants' { wants' := wants'[entry.id := NEW_WANT]; }
      var want := wants'[entry.id];
      if entry.id in arrived { entry := entry.(state := Purchased); }
      var intended := want.intended;
      if intended == Unknown { intended := want.state; }
      if intended != entry.state {
        if entry.state != Purchased || intended == Purchased { entry := entry.(state := intended); }
      }
      synced := synced[j := entry];
    }
    assert entries[..|entries|] == entries;
    CreatedCompletes(entries, wants);
  }

  lemma {:induction false} CreatedCompletes(entries: seq<Entry>, wants: map<int, Want>)
    ensures WantsCompleted(entries, wants, Created(entries, wants))
  {
    CreatedKeeps(entries, wants);
    forall id | id in Created(entries, wants)
      ensures Created(entries, wants)[id] == if id in wants then wants[id] else Want(Unknown, Unknown)
    {
      assert Stored(Created(entries, wants), id) == Stored(wants, id);
    }
  }

  ghost predicate Names(entries: seq<Entry>, id: int) {
    exists j :: 0 <= j < |entries| && entries[j].id == id
  }

  lemma {:induction false} CreatedKeeps(entries: seq<Entry>, wants: map<int, Want>)
    ensures forall id :: Stored(Created(entries, wants), id) == Stored(wants, id)
    ensures forall id :: id in Created(entries, wants) <==> id in wants || Names(entries, id)
  {
    if entries != [] {
      var init := entries[..|entries| - 1];
      CreatedKeeps(init, wants);
      forall id ensures Names(entries, id) <==> Names(init, id) || entries[|entries| - 1].id == id {
        if j :| 0 <= j < |init| && init[j].id == id { assert entries[j].id == id; }
        if j :| 0 <= j < |entries| && entries[j].id == id { if j < |init| { assert init[j].id == id; } }
      }
    }
  }

  // ---- The walk over a sorted list ----

  function ByIndex(): (Entry, Entry) -> bool {
    (a: Entry, b: Entry) => a.index < b.index
  }

  function SortEntries(entries: seq<Entry>): seq<Entry> {
    StableSorting.Sort(ByIndex(), entries)
  }

  /** mergeWant: the list's intention for a want. */
  function Merge(wants: map<int, Want>, id: int, state: WantState): map<int, Want> {
    wants[id := if id in wants then wants[id].(intended := state) else Want(state, state)]
  }

  /** The walk from entry `i`: the first entry that is not purchased becomes wanted, and ends the walk if it was not
      already; behind an open one everything is to be pending. */
  function Walk(l: Listing, i: nat, foundFirst: bool): Listing
    requires i <= |l.entries|
    decreases |l.entries| - i
  {
    if i == |l.entries| then l
    else
      var e := l.entries[i];
      if foundFirst then
        Walk(if e.state != Pending then l.(wants := Merge(l.wants, e.id, Pending)) else l, i + 1, true)
      else match e.state
        case InTransit => Walk(l, i + 1, true)
        case Wanted => Walk(l, i + 1, true)
        case Purchased => Walk(l, i + 1, false)
        case _ => Listing(l.entries[i := e.(state := Wanted)], Merge(l.wants, e.id, Wanted))
  }

  /** From entry `i` on, some entry with this id is not pending yet. */
  ghost predicate NotPending(entries: seq<Entry>, i: nat, id: int) {
    exists j :: i <= j < |entries| && entries[j].id == id && entries[j].state != Pending
  }

  /** The wants of entries from `i` on that are not pending are meant to be; all others are as before. */
  ghost predicate PutsOff(entries: seq<Entry>, i: nat, wants: map<int, Want>, n: map<int, Want>) {
    forall id :: if NotPending(entries, i, id) then
        id in n && n[id] == Want(if id in wants then wants[id].state else Pending, Pending)
      else
        (id in n <==> id in wants) && (id in wants ==> n[id] == wants[id])
  }

  /** What the walk does, `p` being the place of the first entry that is not purchased. */
  ghost predicate Walked(entries: seq<Entry>, wants: map<int, Want>, p: nat, n: Listing) {
    && p <= |entries| && (forall j :: 0 <= j < p ==> entries[j].state == Purchased)
    && if p == |entries| then n == Listing(entries, wants)
       else
         var e := entries[p];
         && e.state != Purchased
         && if e.state == Wanted || e.state == InTransit then
              n.entries == entries && PutsOff(entries, p + 1, wants, n.wants)
            else
              && n.entries == entries[p := Entry(e.id, e.index, Wanted)]
              && n.wants == wants[e.id := Want(if e.id in wants then wants[e.id].state else Wanted, Wanted)]
  }

  lemma {:induction false} WalkPutsOff(l: Listing, i: nat)
    requires i <= |l.entries|
    ensures Walk(l, i, true).entries == l.entries
    ensures PutsOff(l.entries, i, l.wants, Walk(l, i, true).wants)
    decreases |l.entries| - i
  {
    if i < |l.entries| {
      var e := l.entries[i];
      var m := if e.state != Pending then l.(wants := Merge(l.wants, e.id, Pending)) else l;
      WalkPutsOff(m, i + 1);
      forall id ensures NotPending(l.entries, i, id) <==>
        NotPending(l.entries, i + 1, id) || (id == e.id && e.state != Pending)
      {
        if id == e.id && e.state != Pending { assert l.entries[i].id == id; }
      }
    }
  }

  lemma {:induction false} WalkIs(l: Listing, i: nat) returns (p: nat)
    requires i <= |l.entries| && forall j :: 0 <= j < i ==> l.entries[j].state == Purchased
    ensures Walked(l.entries, l.wants, p, Walk(l, i, false))
    decreases |l.entries| - i
  {
    if i < |l.entries| && l.entries[i].state == Purchased {
      p := WalkIs(l, i + 1);
    } else {
      p := i;
      if i < |l.entries| { WalkPutsOff(l, i + 1); }
    }
  }

  /** By index, and entries with equal indexes as they stood in the list; `from` says where each one stood. */
  ghost predicate InIndexOrder(sorted: seq<Entry>, entries: seq<Entry>, from: seq<nat>) {
    && StableSorting.Lists(entries, sorted, from) && StableSorting.Covers(from, |entries|)
    && forall i, j :: 0 <= i < j < |sorted| ==>
         sorted[i].index < sorted[j].index || (sorted[i].index == sorted[j].index && from[i] < from[j])
  }

  lemma {:induction false} SortedByIndex(entries: seq<Entry>) returns (from: seq<nat>)
    ensures InIndexOrder(SortEntries(entries), entries, from)
  {
    from := StableSorting.SortPlaces(ByIndex(), entries);
  }

  method RefreshOneByOne(entries: seq<Entry>, wants: map<int, Want>) returns (l: Listing, updated: bool)
    ensures l == Walk(Listing(SortEntries(entries), wants), 0, false)
    ensures updated <==> l.entries != SortEntries(entries)
    ensures exists sorted, from, p :: InIndexOrder(sorted, entries, from) && Walked(sorted, wants, p, l)
  {
    var sorted := SortEntries(entries);
    ghost var from := SortedByIndex(entries);
    ghost var first := WalkIs(Listing(sorted, wants), 0);
    l := Listing(sorted, wants);
    var foundFirst := false;
    for i := 0 to |sorted|
      invariant l.entries == sorted && Walk(l, i, foundFirst) == Walk(Listing(sorted, wants), 0, false)
    {
      var entry := sorted[i];
      if foundFirst {
        if entry.state != Pending { l := l.(wants := Merge(l.wants, entry.id, Pending)); }
      } else {
        match entry.state {
          case InTransit => foundFirst := true;
          case Wanted => foundFirst := true;
          case Purchased =>
          case _ =>
            entry := entry.(state := Wanted);
            assert sorted[i := entry][i] != sorted[i];
            return Listing(sorted[i := entry], Merge(l.wants, entry.id, Wanted)), true;
        }
      }
    }
    updated := false;
  }

  /** One refresh of an active one-by-one list. */
  function Pass(l: Listing, arrived: set<int>): Listing {
    Walk(Listing(SortEntries(SyncEntries(l.entries, l.wants, arrived)), Created(l.entries, l.wants)), 0, false)
  }

  method ProcessWantlist(l: Listing, arrived: set<int>) returns (n: Listing)
    ensures n == Pass(l, arrived)
  {
    var synced, wants := SyncWants(l.entries, l.wants, arrived);
    var updated;
    n, updated := RefreshOneByOne(synced, wants);
  }

  // ---- What the walk does ----

  ghost predicate DistinctIds(entries: seq<Entry>) {
    forall i, j :: 0 <= i < j < |entries| ==> entries[i].id != entries[j].id
  }

  predicate Open(s: WantState) { s == Wanted || s == InTransit }

  /** The first entry that is not purchased. */
  function First(entries: seq<Entry>, i: nat): (p: nat)
    requires i <= |entries|
    ensures i <= p <= |entries|
    decreases |entries| - i
  {
    if i < |entries| && entries[i].state == Purchased then First(entries, i + 1) else i
  }

  lemma {:induction false} FirstIs(entries: seq<Entry>, i: nat)
    requires i <= |entries|
    ensures forall j :: i <= j < First(entries, i) ==> entries[j].state == Purchased
    ensures First(entries, i) < |entries| ==> entries[First(entries, i)].state != Purchased
    decreases |entries| - i
  {
    if i < |entries| && entries[i].state == Purchased { FirstIs(entries, i + 1); }
  }

  /** The want of entry `j` once everything from entry `i` on has been put off. */
  function PutOff(l: Listing, i: nat, j: nat): Want
    requires j < |l.entries| && l.entries[j].id in l.wants
  {
    var want := l.wants[l.entries[j].id];
    if j >= i && l.entries[j].state != Pending then want.(intended := Pending) else want
  }

  /** Behind the open entry: what is not pending is to become pending. */
  lemma {:induction false} WalkBehind(l: Listing, i: nat)
    requires i <= |l.entries| && DistinctIds(l.entries)
    requires forall j :: 0 <= j < |l.entries| ==> l.entries[j].id in l.wants
    ensures var n := Walk(l, i, true);
      && n.entries == l.entries && n.wants.Keys == l.wants.Keys
      && (forall j :: 0 <= j < |l.entries| ==> n.wants[l.entries[j].id] == PutOff(l, i, j))
      && (forall id <- l.wants :: (forall j :: i <= j < |l.entries| ==> l.entries[j].id != id) ==>
        n.wants[id] == l.wants[id])
    decreases |l.entries| - i
  {
    if i < |l.entries| {
      var e := l.entries[i];
      var m := if e.state != Pending then l.(wants := Merge(l.wants, e.id, Pending)) else l;
      WalkBehind(m, i + 1);
    }
  }

  lemma {:induction false} WalkToFirst(l: Listing, i: nat)
    requires i <= |l.entries|
    ensures Walk(l, i, false) == Walk(l, First(l.entries, i), false)
    decreases |l.entries| - i
  {
    if i < |l.entries| && l.entries[i].state == Purchased { WalkToFirst(l, i + 1); }
  }

  // ---- Convergence ----

  /** Sorted, with a stored want for every entry; what is not purchased will not become so by itself. */
  ghost predicate Settled(l: Listing, arrived: set<int>) {
    && DistinctIds(l.entries)
    && StableSorting.Sorted(ByIndex(), l.entries)
    && (forall j :: 0 <= j < |l.entries| ==> l.entries[j].id in l.wants)
    && (forall j :: 0 <= j < |l.entries| && l.entries[j].state != Purchased ==>
          l.entries[j].id !in arrived && Intended(l.wants[l.entries[j].id]) != Purchased)
  }

  /** The first entry that is not purchased is open, and its want agrees. */
  ghost predicate Headed(l: Listing) {
    var p := First(l.entries, 0);
    p < |l.entries| ==>
      && l.entries[p].id in l.wants && Open(l.entries[p].state)
      && Intended(l.wants[l.entries[p].id]) == l.entries[p].state
  }

  /** Behind the open entry, the wants are to be pending. */
  ghost predicate Queued(l: Listing) {
    forall j :: First(l.entries, 0) < j < |l.entries| ==>
      && l.entries[j].id in l.wants
      && Intended(l.wants[l.entries[j].id]) == Pending
      && (l.entries[j].state == Purchased ==> l.wants[l.entries[j].id].intended == Pending)
  }

  /** Purchased entries, then at most one open entry, then only pending or purchased ones. */
  ghost predicate Shaped(entries: seq<Entry>) {
    exists p :: 0 <= p <= |entries| && OpensAt(entries, p)
  }

  ghost predicate OpensAt(entries: seq<Entry>, p: nat)
    requires p <= |entries|
  {
    && (forall j :: 0 <= j < p ==> entries[j].state == Purchased)
    && (p < |entries| ==> Open(entries[p].state))
    && (forall j :: p < j < |entries| ==> entries[j].state == Pending || entries[j].state == Purchased)
  }

  /** The whole walk, by what it finds first. */
  lemma {:induction false} WalkEffect(l: Listing)
    requires DistinctIds(l.entries) && forall j :: 0 <= j < |l.entries| ==> l.entries[j].id in l.wants
    ensures var n, p := Walk(l, 0, false), First(l.entries, 0);
      && n.wants.Keys == l.wants.Keys
      && (p == |l.entries| ==> n == l)
      && (p < |l.entries| && Open(l.entries[p].state) ==> n.entries == l.entries)
      && (p < |l.entries| && Open(l.entries[p].state) ==>
            forall j :: 0 <= j < |l.entries| ==> n.wants[l.entries[j].id] == PutOff(l, p + 1, j))
      && (p < |l.entries| && Open(l.entries[p].state) ==>
            forall id <- l.wants :: (forall j :: p < j < |l.entries| ==> l.entries[j].id != id) ==>
              n.wants[id] == l.wants[id])
      && (p < |l.entries| && !Open(l.entries[p].state) ==>
            n == Listing(l.entries[p := l.entries[p].(state := Wanted)], Merge(l.wants, l.entries[p].id, Wanted)))
  {
    var p := First(l.entries, 0);
    FirstIs(l.entries, 0);
    WalkToFirst(l, 0);
    if p < |l.entries| && Open(l.entries[p].state) {
      WalkBehind(l, p + 1);
    }
  }

  /** After syncing and sorting, every entry is purchased or agrees with its want. */
  ghost predicate Agrees(l: Listing, arrived: set<int>) {
    && DistinctIds(l.entries)
    && StableSorting.Sorted(ByIndex(), l.entries)
    && (forall j :: 0 <= j < |l.entries| ==> l.entries[j].id in l.wants)
    && (forall j :: 0 <= j < |l.entries| && l.entries[j].state != Purchased ==>
          l.entries[j].id !in arrived && l.entries[j].state == Intended(l.wants[l.entries[j].id]))
  }

  lemma {:induction false} SortedEntries(entries: seq<Entry>)
    requires DistinctIds(entries)
    ensures StableSorting.Sorted(ByIndex(), SortEntries(entries)) && DistinctIds(SortEntries(entries))
    ensures forall e :: e in SortEntries(entries) <==> e in entries
  {
    var sorted := SortEntries(entries);
    StableSorting.SortSorts(ByIndex(), entries);
    StableSorting.SortPermutes(ByIndex(), entries);
    StableSorting.SamePermutation(entries, sorted);
    forall i, j | 0 <= i < j < |sorted| ensures sorted[i].id != sorted[j].id {
      assert sorted[i] in entries && sorted[j] in entries;
    }
  }

  lemma {:induction false} SyncAgrees(l: Listing, arrived: set<int>)
    requires DistinctIds(l.entries)
    ensures Agrees(Listing(SortEntries(SyncEntries(l.entries, l.wants, arrived)), Created(l.entries, l.wants)), arrived)
  {
    var synced, wants := SyncEntries(l.entries, l.wants, arrived), Created(l.entries, l.wants);
    var sorted := SortEntries(synced);
    CreatedKeeps(l.entries, l.wants);
    SortedEntries(synced);
    forall j | 0 <= j < |sorted|
      ensures sorted[j].id in wants
      ensures sorted[j].state != Purchased ==>
        sorted[j].id !in arrived && sorted[j].state == Intended(wants[sorted[j].id])
    {
      assert sorted[j] in synced;
      var i :| 0 <= i < |synced| && synced[i] == sorted[j];
      assert l.entries[i].id == sorted[j].id;
      assert Stored(wants, sorted[j].id) == Stored(l.wants, sorted[j].id);
    }
  }

  /** One pass from any state leaves an open entry in front. */
  lemma {:induction false} FirstPass(l: Listing, arrived: set<int>)
    requires DistinctIds(l.entries)
    ensures Settled(Pass(l, arrived), arrived) && Headed(Pass(l, arrived))
  {
    var m := Listing(SortEntries(SyncEntries(l.entries, l.wants, arrived)), Created(l.entries, l.wants));
    SyncAgrees(l, arrived);
    WalkEffect(m);
    FirstIs(m.entries, 0);
    var n, p := Pass(l, arrived), First(m.entries, 0);
    if p < |m.entries| {
      SameFirst(m.entries, n.entries);
    }
  }

  /** Changing states, but not what is purchased, does not move the first open entry. */
  lemma {:induction false} SameFirst(a: seq<Entry>, b: seq<Entry>)
    requires |a| == |b| && forall j :: 0 <= j < |a| ==> (a[j].state == Purchased <==> b[j].state == Purchased)
    ensures First(a, 0) == First(b, 0)
  {
    FirstIs(a, 0);
    FirstIs(b, 0);
  }

  lemma {:induction false} StillSorted(a: seq<Entry>, b: seq<Entry>)
    requires |a| == |b| && forall j :: 0 <= j < |a| ==> a[j].index == b[j].index
    requires StableSorting.Sorted(ByIndex(), a)
    ensures StableSorting.Sorted(ByIndex(), b)
  {
    forall i, j | 0 <= i < j < |b| ensures !ByIndex()(b[j], b[i]) { assert !ByIndex()(a[j], a[i]); }
  }

  lemma {:induction false} NothingCreated(entries: seq<Entry>, wants: map<int, Want>)
    requires forall j :: 0 <= j < |entries| ==> entries[j].id in wants
    ensures Created(entries, wants) == wants
  {
    if entries != [] { NothingCreated(entries[..|entries| - 1], wants); }
  }

  /** In a settled list a pass syncs the entries in place, and the walk starts behind the open entry. */
  lemma {:induction false} SettledPass(l: Listing, arrived: set<int>)
    requires Settled(l, arrived) && Headed(l)
    ensures var m := Listing(SyncEntries(l.entries, l.wants, arrived), l.wants);
      && Pass(l, arrived) == Walk(m, 0, false)
      && First(m.entries, 0) == First(l.entries, 0)
      && Agrees(m, arrived)
      && (First(l.entries, 0) < |l.entries| ==> m.entries[First(l.entries, 0)] == l.entries[First(l.entries, 0)])
  {
    var m := Listing(SyncEntries(l.entries, l.wants, arrived), l.wants);
    FirstIs(l.entries, 0);
    NothingCreated(l.entries, l.wants);
    SameFirst(l.entries, m.entries);
    StillSorted(l.entries, m.entries);
    StableSorting.SortSortedIsIdentity(ByIndex(), m.entries);
  }

  /** The next pass queues everything behind the open entry. */
  lemma {:induction false} SecondPass(l: Listing, arrived: set<int>)
    requires Settled(l, arrived) && Headed(l)
    ensures Settled(Pass(l, arrived), arrived) && Headed(Pass(l, arrived)) && Queued(Pass(l, arrived))
  {
    var m := Listing(SyncEntries(l.entries, l.wants, arrived), l.wants);
    SettledPass(l, arrived);
    WalkEffect(m);
    PassQueues(m, Pass(l, arrived));
  }

  lemma {:induction false} PassQueues(m: Listing, n: Listing)
    requires n.entries == m.entries
    requires forall j :: 0 <= j < |m.entries| ==> m.entries[j].id in m.wants && m.entries[j].id in n.wants
    requires var p := First(m.entries, 0);
      p < |m.entries| ==> forall j :: 0 <= j < |m.entries| ==> n.wants[m.entries[j].id] == PutOff(m, p + 1, j)
    requires forall j :: 0 <= j < |m.entries| && m.entries[j].state != Purchased ==>
      m.entries[j].state == Intended(m.wants[m.entries[j].id])
    ensures Queued(n)
  {
  }

  /** From then on a pass only brings entries in line with their wants. */
  lemma {:induction false} ThirdPass(l: Listing, arrived: set<int>)
    requires Settled(l, arrived) && Headed(l) && Queued(l)
    ensures Pass(l, arrived) == Listing(SyncEntries(l.entries, l.wants, arrived), l.wants)
    ensures Shaped(Pass(l, arrived).entries)
  {
    var m := Listing(SyncEntries(l.entries, l.wants, arrived), l.wants);
    SettledPass(l, arrived);
    WalkEffect(m);
    WantsStay(l, m, Pass(l, arrived));
    PassShapes(l, m);
  }

  /** What is queued already is not put off again. */
  lemma {:induction false} WantsStay(l: Listing, m: Listing, n: Listing)
    requires Queued(l) && m.wants == l.wants && n.wants.Keys == m.wants.Keys && SameEntries(l.entries, m.entries)
    requires DistinctIds(m.entries) && forall j :: 0 <= j < |m.entries| ==> m.entries[j].id in m.wants
    requires var p := First(m.entries, 0);
      && (p == |m.entries| ==> n == m)
      && (p < |m.entries| ==> forall j :: 0 <= j < |m.entries| ==> n.wants[m.entries[j].id] == PutOff(m, p + 1, j))
      && (p < |m.entries| ==>
            forall id <- m.wants :: (forall j :: p < j < |m.entries| ==> m.entries[j].id != id) ==>
              n.wants[id] == m.wants[id])
    requires forall j :: 0 <= j < |m.entries| && m.entries[j].state != Purchased ==>
      m.entries[j].state == Intended(m.wants[m.entries[j].id])
    ensures n.wants == m.wants
  {
    var p := First(m.entries, 0);
    if p < |m.entries| {
      forall id <- m.wants ensures n.wants[id] == m.wants[id] {
        if j :| p < j < |m.entries| && m.entries[j].id == id {
          assert m.entries[j].id == l.entries[j].id;
        }
      }
    }
  }

  /** The same ids, and the first open entry at the same place. */
  ghost predicate SameEntries(a: seq<Entry>, b: seq<Entry>) {
    && |a| == |b| && First(a, 0) == First(b, 0)
    && forall j :: 0 <= j < |a| ==> a[j].id == b[j].id && (a[j].state == Purchased <==> b[j].state == Purchased)
  }

  lemma {:induction false} PassShapes(l: Listing, m: Listing)
    requires Queued(l) && m.wants == l.wants && SameEntries(l.entries, m.entries)
    requires var p := First(m.entries, 0); p < |m.entries| ==> Open(m.entries[p].state)
    requires forall j :: 0 <= j < |m.entries| ==> m.entries[j].id in m.wants
    requires forall j :: 0 <= j < |m.entries| && m.entries[j].state != Purchased ==>
      m.entries[j].state == Intended(m.wants[m.entries[j].id])
    ensures Shaped(m.entries)
  {
    var p := First(m.entries, 0);
    FirstIs(m.entries, 0);
    forall j | p < j < |m.entries| ensures m.entries[j].state == Pending || m.entries[j].state == Purchased {
      assert l.entries[j].id == m.entries[j].id;
    }
    assert OpensAt(m.entries, p);
  }

  /**
   * Convergence: for an active list with distinct ids and nothing happening outside, three passes from any
   * state reach a fixed point: purchased entries, then at most one wanted or in-transit entry, then only
   * pending or purchased ones.
   */
  lemma {:induction false} ThreePassesConverge(l: Listing, arrived: set<int>)
    requires DistinctIds(l.entries)
    ensures var n := Pass(Pass(Pass(l, arrived), arrived), arrived);
      Pass(n, arrived) == n && Shaped(n.entries)
  {
    var l1 := Pass(l, arrived);
    var l2 := Pass(l1, arrived);
    var l3 := Pass(l2, arrived);
    FirstPass(l, arrived);
    SecondPass(l1, arrived);
    ThirdPass(l2, arrived);
    SettledPass(l2, arrived);
    SecondPass(l2, arrived);
    ThirdPass(l3, arrived);
    assert SyncEntries(l3.entries, l3.wants, arrived) == l3.entries;
  }

  // ---- When two passes are enough ----

  /** The list as the first pass walks it: entries in line with their wants, and sorted. */
  function Aligned(l: Listing, arrived: set<int>): Listing {
    Listing(SortEntries(SyncEntries(l.entries, l.wants, arrived)), Created(l.entries, l.wants))
  }

  ghost predicate QuietBehind(entries: seq<Entry>, p: nat) {
    forall j :: p < j < |entries| ==> entries[j].state == Pending || entries[j].state == Purchased
  }

  /** The first pass opens an entry, and behind it another one still has to become pending. */
  ghost predicate OpensAhead(m: Listing) {
    var p := First(m.entries, 0);
    p < |m.entries| && !Open(m.entries[p].state) && !QuietBehind(m.entries, p)
  }

  /** Entries that agree with their wants stay as they are. */
  lemma {:induction false} NothingToSync(l: Listing, arrived: set<int>)
    requires Agrees(l, arrived)
    ensures SyncEntries(l.entries, l.wants, arrived) == l.entries
  {
  }

  lemma {:induction false} SyncTwice(l: Listing, arrived: set<int>)
    requires Settled(l, arrived) && Headed(l)
    ensures var e := SyncEntries(l.entries, l.wants, arrived); SyncEntries(e, l.wants, arrived) == e
  {
    SettledPass(l, arrived);
    NothingToSync(Listing(SyncEntries(l.entries, l.wants, arrived), l.wants), arrived);
  }

  /** In a queued list, entries change exactly if one behind the open entry is neither pending nor purchased. */
  lemma {:induction false} QueuedSyncIff(l: Listing, arrived: set<int>)
    requires Settled(l, arrived) && Headed(l) && Queued(l)
    ensures SyncEntries(l.entries, l.wants, arrived) == l.entries <==> QuietBehind(l.entries, First(l.entries, 0))
  {
    var e, p := SyncEntries(l.entries, l.wants, arrived), First(l.entries, 0);
    FirstIs(l.entries, 0);
    if e == l.entries {
      forall j | p < j < |l.entries| ensures l.entries[j].state == Pending || l.entries[j].state == Purchased {
        assert e[j] == SyncEntry(l.entries[j], l.wants, arrived);
      }
    }
  }

  /** If the first pass finds an open entry, or none to open, the wants are queued at once. */
  lemma {:induction false} QueuedAtOnce(l: Listing, arrived: set<int>)
    requires DistinctIds(l.entries)
    requires var m := Aligned(l, arrived);
      First(m.entries, 0) < |m.entries| ==> Open(m.entries[First(m.entries, 0)].state)
    ensures Queued(Pass(l, arrived))
  {
    var m := Aligned(l, arrived);
    SyncAgrees(l, arrived);
    WalkEffect(m);
    if First(m.entries, 0) < |m.entries| { PassQueues(m, Pass(l, arrived)); }
  }

  /** Otherwise it opens one entry. */
  lemma {:induction false} FirstOpens(l: Listing, arrived: set<int>)
    requires DistinctIds(l.entries)
    requires var m := Aligned(l, arrived);
      First(m.entries, 0) < |m.entries| && !Open(m.entries[First(m.entries, 0)].state)
    ensures var m := Aligned(l, arrived);
      var p := First(m.entries, 0);
      Pass(l, arrived).entries == m.entries[p := m.entries[p].(state := Wanted)] && Agrees(Pass(l, arrived), arrived)
  {
    var m := Aligned(l, arrived);
    SyncAgrees(l, arrived);
    FirstIs(m.entries, 0);
    WalkEffect(m);
    OpenedAgrees(m, Pass(l, arrived), First(m.entries, 0), arrived);
  }

  /** A pass over entries that agree with their wants, the first one open, changes only wants. */
  lemma {:induction false} OnlyWants(l: Listing, arrived: set<int>)
    requires Settled(l, arrived) && Headed(l) && Agrees(l, arrived)
    ensures Pass(l, arrived).entries == l.entries
  {
    NothingToSync(l, arrived);
    SettledPass(l, arrived);
    WalkEffect(l);
  }

  lemma {:induction false} OpenedAgrees(m: Listing, n: Listing, p: nat, arrived: set<int>)
    requires Agrees(m, arrived) && p < |m.entries| && m.entries[p].state != Purchased
    requires n == Listing(m.entries[p := m.entries[p].(state := Wanted)], Merge(m.wants, m.entries[p].id, Wanted))
    ensures Agrees(n, arrived)
  {
    StillSorted(m.entries, n.entries);
    forall j | 0 <= j < |n.entries| ensures n.entries[j].id == m.entries[j].id { }
  }

  lemma {:induction false} OpenedSettlesIff(l: Listing, arrived: set<int>)
    requires DistinctIds(l.entries)
    requires var m := Aligned(l, arrived);
      First(m.entries, 0) < |m.entries| && !Open(m.entries[First(m.entries, 0)].state)
    ensures var m, two := Aligned(l, arrived), Pass(Pass(l, arrived), arrived);
      Pass(two, arrived) == two <==> QuietBehind(m.entries, First(m.entries, 0))
  {
    var m, one := Aligned(l, arrived), Pass(l, arrived);
    var two := Pass(one, arrived);
    FirstPass(l, arrived);
    FirstOpens(l, arrived);
    OnlyWants(one, arrived);
    SecondPass(one, arrived);
    ThirdPass(two, arrived);
    QueuedSyncIff(two, arrived);
    SameBehind(m.entries, two.entries);
  }

  /** Opening the first entry changes nothing behind it. */
  lemma {:induction false} SameBehind(a: seq<Entry>, b: seq<Entry>)
    requires var p := First(a, 0); p < |a| && b == a[p := a[p].(state := Wanted)]
    ensures First(b, 0) == First(a, 0) && (QuietBehind(a, First(a, 0)) <==> QuietBehind(b, First(b, 0)))
  {
    FirstIs(a, 0);
    SameFirst(a, b);
  }

  lemma {:induction false} QueuedSettles(l: Listing, arrived: set<int>)
    requires Settled(l, arrived) && Headed(l) && Queued(l)
    ensures var n := Pass(l, arrived); Pass(n, arrived) == n
  {
    SecondPass(l, arrived);
    ThirdPass(l, arrived);
    ThirdPass(Pass(l, arrived), arrived);
    SyncTwice(l, arrived);
  }

  /** The third pass changes nothing if and only if the first one did not open an entry in front of an unsettled one. */
  lemma {:induction false} TwoPassesSettleIff(l: Listing, arrived: set<int>)
    requires DistinctIds(l.entries)
    ensures var two := Pass(Pass(l, arrived), arrived); Pass(two, arrived) == two <==> !OpensAhead(Aligned(l, arrived))
  {
    var m := Aligned(l, arrived);
    var p := First(m.entries, 0);
    if p < |m.entries| && !Open(m.entries[p].state) {
      OpenedSettlesIff(l, arrived);
    } else {
      FirstPass(l, arrived);
      QueuedAtOnce(l, arrived);
      QueuedSettles(Pass(l, arrived), arrived);
    }
  }

  /** An example: the second pass only changes what the third brings into the entries. */
  lemma {:induction false} TwoPassesAreNotEnough()
    ensures var l := Listing([Entry(1, 1, Retired), Entry(2, 2, Retired)],
      map[1 := Want(Retired, Retired), 2 := Want(Retired, Retired)]);
      Pass(Pass(Pass(l, {}), {}), {}) != Pass(Pass(l, {}), {})
  {
    var l := Listing([Entry(1, 1, Retired), Entry(2, 2, Retired)],
      map[1 := Want(Retired, Retired), 2 := Want(Retired, Retired)]);
    var l1 := Listing([Entry(1, 1, Wanted), Entry(2, 2, Retired)],
      map[1 := Want(Retired, Wanted), 2 := Want(Retired, Retired)]);
    var l2 := Listing(l1.entries, map[1 := Want(Retired, Wanted), 2 := Want(Retired, Pending)]);
    var l3 := Listing([Entry(1, 1, Wanted), Entry(2, 2, Pending)], l2.wants);
    QuietPass(l, l.entries);
    assert Walk(l, 0, false) == l1;
    QuietPass(l1, l1.entries);
    assert Walk(l1, 1, true) == Walk(l2, 2, true) == l2;
    assert Walk(l1, 0, false) == l2;
    QuietPass(l2, l3.entries);
    assert Walk(l3, 1, true) == Walk(l3, 2, true) == l3;
    assert Walk(l3, 0, false) == l3;
  }

  /** A pass over a list that is sorted and complete. */
  lemma {:induction false} QuietPass(l: Listing, synced: seq<Entry>)
    requires |l.entries| == |synced| == 2 && synced[0].index < synced[1].index
    requires forall j :: 0 <= j < 2 ==> synced[j] == SyncEntry(l.entries[j], l.wants, {})
    requires forall j :: 0 <= j < 2 ==> l.entries[j].id in l.wants
    ensures Pass(l, {}) == Walk(Listing(synced, l.wants), 0, false)
  {
    NothingCreated(l.entries, l.wants);
    assert SyncEntries(l.entries, l.wants, {}) == synced;
    StableSorting.SortSortedIsIdentity(ByIndex(), synced);
  }
}
