/** What the page chains of a sales sync leave behind: incremental sync is complete, reconciliation is exact. */
module SyncTheorems {
  import PriceHistory
  import opened SalesModel
  import opened SalesSync

  // ---- What a page leaves behind ----

  ghost predicate DistinctSales(items: seq<Listing>) {
    forall i, j :: 0 <= i < j < |items| ==> items[i].saleId != items[j].saleId
  }

  ghost predicate NewestFirst(items: seq<Listing>) {
    forall i, j :: 0 <= i < j < |items| ==> items[i].posted >= items[j].posted
  }

  /** The listing is stored as listed. */
  ghost predicate Stored(db: SaleStore, item: Listing, id: int) {
    && item.saleId in db && db[item.saleId].state == item.status
    && db[item.saleId].currentPrice == item.price && db[item.saleId].refreshId == id
  }

  /** The first `read` listings are stored, and the sales of no other id are touched. */
  ghost predicate PageStored(db: SaleStore, items: seq<Listing>, read: nat, n: SaleStore, id: int) {
    && Keyed(n) && read <= |items|
    && (forall i :: 0 <= i < read ==> Stored(n, items[i], id))
    && (forall k :: (forall i :: 0 <= i < read ==> items[i].saleId != k) ==> Untouched(db, n, k))
  }

  ghost predicate Untouched(db: SaleStore, n: SaleStore, k: int) {
    (k in n <==> k in db) && (k in db ==> n[k] == db[k])
  }

  lemma {:induction false} PageStores(db: SaleStore, items: seq<Listing>, id: int, now: int, last: int)
    requires DistinctSales(items) && Keyed(db)
    ensures PageStored(db, items, SyncItems(db, items, id, now, last).1, SyncItems(db, items, id, now, last).0, id)
    decreases |items|
  {
    if items != [] {
      var one := Save(db, Synced(db, items[0], id, now));
      var (n, read, early) := SyncItems(db, items, id, now, last);
      if Stops(db, items[0], id, now, last) {
      } else {
        PageStores(one, items[1..], id, now, last);
        FirstUntouched(one, items, read, n, id);
        forall k | forall i :: 0 <= i < read ==> items[i].saleId != k ensures Untouched(db, n, k) {
          assert items[0].saleId != k;
          assert forall i :: 0 <= i < read - 1 ==> items[1..][i] == items[i + 1];
          assert Untouched(one, n, k);
        }
      }
    }
  }

  lemma {:induction false} FirstUntouched(one: SaleStore, items: seq<Listing>, read: nat, n: SaleStore, id: int)
    requires 0 < read <= |items| && DistinctSales(items) && Stored(one, items[0], id)
    requires PageStored(one, items[1..], read - 1, n, id)
    ensures forall i :: 0 <= i < read ==> Stored(n, items[i], id)
  {
    assert Untouched(one, n, items[0].saleId) by {
      forall i | 0 <= i < read - 1 ensures items[1..][i].saleId != items[0].saleId {
        assert items[1..][i] == items[i + 1];
      }
    }
    forall i | 0 < i < read ensures Stored(n, items[i], id) {
      assert items[1..][i - 1] == items[i];
    }
  }

  /** A page ends the sync early only at a listing that was not posted after the last refresh. */
  lemma {:induction false} PageStops(db: SaleStore, items: seq<Listing>, id: int, now: int, last: int)
    ensures var (n, read, early) := SyncItems(db, items, id, now, last);
      && read <= |items|
      && (!early ==> read == |items|)
      && (early ==> last > 0 && 0 < read && (items[read - 1].posted > 0 ==> items[read - 1].posted <= last))
    decreases |items|
  {
    if items != [] && !Stops(db, items[0], id, now, last) {
      PageStops(Save(db, Synced(db, items[0], id, now)), items[1..], id, now, last);
    }
  }

  /** What a listing makes of its sale: a new one, or the known one `c` with what the listing says. */
  predicate TakenFrom(db: SaleStore, item: Listing, id: int, now: int, s: SaleInfo) {
    && s.saleId == item.saleId && s.state == item.status && s.currentPrice == item.price
    && s.refreshId == id && s.timeRefreshed == now
    && if item.saleId in db then KnownTaken(db[item.saleId], item, now, s) else NewTaken(item, now, s)
  }

  predicate NewTaken(item: Listing, now: int, s: SaleInfo) {
    && s.releaseId == item.releaseId && s.condition == item.condition && s.sleeveCondition == item.sleeveCondition
    && (item.posted != 0 ==> s.listedDate == item.posted) && (item.posted == 0 ==> s.listedDate == now)
    && s.timeCreated == s.lastPriceUpdate == now && s.updates == []
    && s.initialPrice == s.medianPrice == s.lowPrice == 0
    && s.soldDate == s.timeAtMedian == s.timeAtLow == s.timeAtStale == 0 && s.updateOverride == UnknownUpdate
  }

  predicate KnownTaken(c: SaleInfo, item: Listing, now: int, s: SaleInfo) {
    && (c.condition != "" ==> s.condition == c.condition)
    && (c.condition == "" ==> s.condition == item.condition)
    && (c.sleeveCondition != "" ==> s.sleeveCondition == c.sleeveCondition)
    && (c.sleeveCondition == "" ==> s.sleeveCondition == item.sleeveCondition)
    && (item.posted > 0 ==> s.listedDate == item.posted) && (item.posted <= 0 ==> s.listedDate == c.listedDate)
    && (c.state == ForSale && item.status == Sold ==> s.soldDate == now)
    && (c.state != ForSale || item.status != Sold ==> s.soldDate == c.soldDate)
    && s.updates == PriceHistory.Tidy(c.updates + [PriceUpdate(now, item.price.value)])
    && s.releaseId == c.releaseId && s.timeCreated == c.timeCreated && s.lastPriceUpdate == c.lastPriceUpdate
    && s.initialPrice == c.initialPrice && s.medianPrice == c.medianPrice && s.lowPrice == c.lowPrice
    && s.timeAtMedian == c.timeAtMedian && s.timeAtLow == c.timeAtLow && s.timeAtStale == c.timeAtStale
    && s.updateOverride == c.updateOverride
  }

  /** The first `read` listings of a page are what their sales are made of. */
  ghost predicate PageTaken(db: SaleStore, items: seq<Listing>, read: nat, id: int, now: int, n: SaleStore) {
    read <= |items| && forall i :: 0 <= i < read ==>
      items[i].saleId in n && TakenFrom(db, items[i], id, now, n[items[i].saleId])
  }

  lemma {:induction false} PageTakes(db: SaleStore, items: seq<Listing>, id: int, now: int, last: int)
    requires DistinctSales(items) && Keyed(db)
    ensures PageTaken(db, items, SyncItems(db, items, id, now, last).1, id, now, SyncItems(db, items, id, now, last).0)
    decreases |items|
  {
    if items != [] && !Stops(db, items[0], id, now, last) {
      var one, rest := Save(db, Synced(db, items[0], id, now)), items[1..];
      var (n, read, early) := SyncItems(one, rest, id, now, last);
      PageTakes(one, rest, id, now, last);
      PageStores(one, rest, id, now, last);
      forall i | 0 <= i < read ensures rest[i].saleId != items[0].saleId && rest[i] == items[i + 1] { }
      assert Untouched(one, n, items[0].saleId);
      forall i | 0 < i <= read
        ensures items[i].saleId in n && TakenFrom(db, items[i], id, now, n[items[i].saleId])
      {
        assert rest[i - 1] == items[i];
      }
    }
  }

  /** A listing that an incremental sync need not look behind: a known sale listed no later than the last refresh. */
  predicate SeenBefore(db: SaleStore, item: Listing, last: int) {
    last > 0 && item.saleId in db &&
    var c := db[item.saleId];
    (if item.posted > 0 then item.posted else if c.listedDate != 0 then c.listedDate else c.timeCreated) <= last
  }

  /** A page ends the sync at the first such listing, and otherwise is read to its end. */
  lemma {:induction false} StopsAtFirstSeen(db: SaleStore, items: seq<Listing>, id: int, now: int, last: int)
    requires DistinctSales(items) && Keyed(db)
    ensures SyncItems(db, items, id, now, last).1 <= |items|
    ensures SyncItems(db, items, id, now, last).2 <==> exists i :: 0 <= i < |items| && SeenBefore(db, items[i], last)
    ensures forall i :: 0 <= i < SyncItems(db, items, id, now, last).1 - 1 ==> !SeenBefore(db, items[i], last)
    ensures SyncItems(db, items, id, now, last).2 ==>
      var read := SyncItems(db, items, id, now, last).1; read > 0 && SeenBefore(db, items[read - 1], last)
    decreases |items|
  {
    if items != [] && !Stops(db, items[0], id, now, last) {
      var one, rest := Save(db, Synced(db, items[0], id, now)), items[1..];
      StopsAtFirstSeen(one, rest, id, now, last);
      forall i | 0 <= i < |rest|
        ensures rest[i] == items[i + 1] && (SeenBefore(one, rest[i], last) <==> SeenBefore(db, items[i + 1], last))
      {
        assert items[0].saleId != items[i + 1].saleId;
      }
      assert !SeenBefore(db, items[0], last);
      var (n, read, early) := SyncItems(db, items, id, now, last);
      forall i | 0 <= i < read - 1 ensures !SeenBefore(db, items[i], last) {
        if i > 0 { assert !SeenBefore(one, rest[i - 1], last); }
      }
      if i :| 0 <= i < |items| && SeenBefore(db, items[i], last) {
        assert SeenBefore(one, rest[i - 1], last);
      }
    }
  }

  // ---- What a chain leaves behind ----

  function Flat(pages: seq<seq<Listing>>): seq<Listing> {
    if pages == [] then [] else pages[0] + Flat(pages[1..])
  }

  /** The listings from page `p` on. */
  function From(pages: seq<seq<Listing>>, p: nat): seq<Listing>
    requires p >= 1
  {
    if p <= |pages| then Flat(pages[p - 1..]) else []
  }

  lemma {:induction false} FromNext(pages: seq<seq<Listing>>, p: nat)
    requires p >= 1
    ensures From(pages, p) == PageItems(pages, p) + From(pages, p + 1)
  {
    if p <= |pages| {
      assert pages[p - 1..][0] == pages[p - 1] && pages[p - 1..][1..] == pages[p..];
      assert Flat(pages[p..]) == From(pages, p + 1);
    }
  }

  /** The listings an incremental sync must not miss: everything, or everything posted after the last refresh. */
  predicate Due(item: Listing, last: int) {
    last <= 0 || item.posted > last
  }

  ghost predicate AllStored(n: SaleStore, items: seq<Listing>, last: int, id: int) {
    forall i :: 0 <= i < |items| && Due(items[i], last) ==> Stored(n, items[i], id)
  }

  /** Only sales of the given listings are touched. */
  ghost predicate OnlyTouches(db: SaleStore, n: SaleStore, items: seq<Listing>) {
    forall k :: (forall i :: 0 <= i < |items| ==> items[i].saleId != k) ==> Untouched(db, n, k)
  }

  function FirstPage(t: PageTask): nat { if t.page <= 1 then 1 else t.page }

  /** A page, and whatever the rest of the chain did with the later listings. */
  lemma {:induction false} JoinPages(db: SaleStore, mid: SaleStore, n: SaleStore, head: seq<Listing>,
                                     tail: seq<Listing>, last: int, id: int)
    requires DistinctSales(head + tail)
    requires PageStored(db, head, |head|, mid, id)
    requires AllStored(n, tail, last, id) && OnlyTouches(mid, n, tail)
    ensures AllStored(n, head + tail, last, id) && OnlyTouches(db, n, head + tail)
  {
    var all := head + tail;
    forall i | 0 <= i < |all| && Due(all[i], last) ensures Stored(n, all[i], id) {
      if i < |head| {
        assert Stored(mid, head[i], id);
        forall j | 0 <= j < |tail| ensures tail[j].saleId != head[i].saleId {
          assert all[i] == head[i] && all[|head| + j] == tail[j];
        }
        assert Untouched(mid, n, head[i].saleId);
      } else {
        assert all[i] == tail[i - |head|];
      }
    }
    forall k | forall i :: 0 <= i < |all| ==> all[i].saleId != k ensures Untouched(db, n, k) {
      forall i | 0 <= i < |head| ensures head[i].saleId != k { assert all[i] == head[i]; }
      forall j | 0 <= j < |tail| ensures tail[j].saleId != k { assert all[|head| + j] == tail[j]; }
      assert Untouched(db, mid, k) && Untouched(mid, n, k);
    }
  }

  /** After an early end, nothing that is left is due. */
  lemma {:induction false} NothingLeft(db: SaleStore, n: SaleStore, head: seq<Listing>, tail: seq<Listing>, read: nat,
                                       last: int, id: int)
    requires NewestFirst(head + tail) && PageStored(db, head, read, n, id)
    requires last > 0 && 0 < read <= |head| && (head[read - 1].posted > 0 ==> head[read - 1].posted <= last)
    ensures AllStored(n, head + tail, last, id)
  {
    var all := head + tail;
    forall i | 0 <= i < |all| && Due(all[i], last) ensures Stored(n, all[i], id) {
      assert all[read - 1] == head[read - 1];
      assert all[i] == head[i];
    }
  }

  lemma {:induction false} WholePageTouches(db: SaleStore, n: SaleStore, head: seq<Listing>, tail: seq<Listing>,
                                            read: nat, id: int)
    requires PageStored(db, head, read, n, id)
    ensures OnlyTouches(db, n, head + tail)
  {
    forall k | forall i :: 0 <= i < |head + tail| ==> (head + tail)[i].saleId != k ensures Untouched(db, n, k) {
      forall i | 0 <= i < read ensures head[i].saleId != k { assert (head + tail)[i] == head[i]; }
    }
  }

  lemma {:induction false} SplitDistinct(head: seq<Listing>, tail: seq<Listing>)
    requires DistinctSales(head + tail)
    ensures DistinctSales(head) && DistinctSales(tail)
    ensures NewestFirst(head + tail) ==> NewestFirst(tail)
  {
    var all := head + tail;
    forall i, j | 0 <= i < j < |head|
      ensures head[i].saleId != head[j].saleId
    {
      assert all[i] == head[i] && all[j] == head[j];
    }
    forall i, j | 0 <= i < j < |tail|
      ensures tail[i].saleId != tail[j].saleId && (NewestFirst(all) ==> tail[i].posted >= tail[j].posted)
    {
      assert all[|head| + i] == tail[i] && all[|head| + j] == tail[j];
    }
  }

  /** The chain is not cut short by the daily limit. */
  ghost predicate DueForRefresh(user: User, t: PageTask, clock: nat -> int) {
    t.force || forall p: nat :: p >= t.page ==> clock(p) - user.lastSaleRefresh >= DAY
  }

  /** What has to be shown of the store `n` that a chain ends with. */
  ghost predicate ChainStored(db: SaleStore, n: SaleStore, items: seq<Listing>, last: int, id: int) {
    AllStored(n, items, last, id) && OnlyTouches(db, n, items)
  }

  lemma {:induction false} PageThenRest(db: SaleStore, head: seq<Listing>, tail: seq<Listing>, id: int, now: int,
                                        last: int, n: SaleStore)
    requires Keyed(db) && DistinctSales(head + tail) && NewestFirst(head + tail)
    requires var r := SyncItems(db, head, id, now, last); if r.2 then n == r.0 else ChainStored(r.0, n, tail, last, id)
    ensures ChainStored(db, n, head + tail, last, id)
  {
    SplitDistinct(head, tail);
    PageStores(db, head, id, now, last);
    PageStops(db, head, id, now, last);
    var (mid, read, early) := SyncItems(db, head, id, now, last);
    if early {
      NothingLeft(db, n, head, tail, read, last, id);
      WholePageTouches(db, n, head, tail, read, id);
    } else {
      JoinPages(db, mid, n, head, tail, last, id);
    }
  }

  /** The task for the page after `t`. */
  function NextTask(t: PageTask, now: int): PageTask {
    Started(t, now).(page := FirstPage(t) + 1)
  }

  lemma {:induction false} RefreshPageIs(db: SaleStore, user: User, t: PageTask, pages: seq<seq<Listing>>,
                                         clock: nat -> int)
    requires DueForRefresh(user, t, clock)
    ensures var now := clock(t.page);
      var r := SyncItems(db, PageItems(pages, FirstPage(t)), Started(t, now).refreshId, now, LastRefresh(user, t));
      var page := RefreshPage(db, user, t, pages, now);
      && page.0 == r.0
      && (if r.2 || FirstPage(t) >= |pages| then page.2 == Finished
          else page.1 == Activated(user, t, now) && page.2 == NextPage(NextTask(t, now)))
  {
    assert t.force || clock(t.page) - user.lastSaleRefresh >= DAY;
  }

  /** A chain is its first page, and the chain of the next one unless the first page ends it. */
  lemma {:induction false} ChainUnfolds(db: SaleStore, user: User, t: PageTask, pages: seq<seq<Listing>>,
                                        clock: nat -> int)
    requires DueForRefresh(user, t, clock)
    ensures var now := clock(t.page);
      var r := SyncItems(db, PageItems(pages, FirstPage(t)), Started(t, now).refreshId, now, LastRefresh(user, t));
      var chain := RefreshChain(db, user, t, pages, clock);
      if r.2 || FirstPage(t) >= |pages| then chain.0 == r.0 && chain.2 == Finished
      else chain == RefreshChain(r.0, Activated(user, t, now), NextTask(t, now), pages, clock)
  {
    RefreshPageIs(db, user, t, pages, clock);
  }

  lemma {:induction false} NextInherits(user: User, t: PageTask, clock: nat -> int)
    ensures var now := clock(t.page);
      var next, user' := NextTask(t, now), Activated(user, t, now);
      && FirstPage(next) == FirstPage(t) + 1 && next.page > t.page
      && (DueForRefresh(user, t, clock) ==> DueForRefresh(user', next, clock))
      && (DueForReconcile(user, t, clock) ==> DueForReconcile(user', next, clock))
      && LastRefresh(user', next) == LastRefresh(user, t)
      && Started(next, clock(next.page)).refreshId == Started(t, now).refreshId
  {
  }

  lemma {:induction false} PageKeepsKeyed(db: SaleStore, head: seq<Listing>, tail: seq<Listing>, id: int, now: int,
                                          last: int)
    requires Keyed(db) && DistinctSales(head + tail) && NewestFirst(head + tail)
    ensures Keyed(SyncItems(db, head, id, now, last).0) && DistinctSales(tail) && NewestFirst(tail)
  {
    SplitDistinct(head, tail);
    PageStores(db, head, id, now, last);
  }

  lemma {:induction false} ChainStores(db: SaleStore, user: User, t: PageTask, pages: seq<seq<Listing>>,
                                       clock: nat -> int, id: int)
    requires Keyed(db) && DueForRefresh(user, t, clock)
    requires DistinctSales(From(pages, FirstPage(t))) && NewestFirst(From(pages, FirstPage(t)))
    requires id == Started(t, clock(t.page)).refreshId
    ensures RefreshChain(db, user, t, pages, clock).2 == Finished
    ensures var n := RefreshChain(db, user, t, pages, clock).0;
      ChainStored(db, n, From(pages, FirstPage(t)), LastRefresh(user, t), id)
    decreases |pages| - t.page
  {
    var p, now, last := FirstPage(t), clock(t.page), LastRefresh(user, t);
    var head, tail := PageItems(pages, p), From(pages, p + 1);
    FromNext(pages, p);
    ChainUnfolds(db, user, t, pages, clock);
    NextInherits(user, t, clock);
    var r := SyncItems(db, head, id, now, last);
    if !r.2 && p < |pages| {
      PageKeepsKeyed(db, head, tail, id, now, last);
      ChainStores(r.0, Activated(user, t, now), NextTask(t, now), pages, clock, id);
    }
    PageThenRest(db, head, tail, id, now, last, RefreshChain(db, user, t, pages, clock).0);
  }

  /**
   * Incremental sync is complete: when the chain of pages ends, early or not, every listing posted after the
   * previous refresh is stored as listed (and with `force`, or no previous refresh, every listing at all).
   */
  lemma {:induction false} RefreshIsComplete(db: SaleStore, user: User, t: PageTask, pages: seq<seq<Listing>>,
                                             clock: nat -> int)
    requires Keyed(db) && t.page <= 1 && DueForRefresh(user, t, clock)
    requires DistinctSales(Flat(pages)) && NewestFirst(Flat(pages))
    ensures var (n, u, result) := RefreshChain(db, user, t, pages, clock);
      && result == Finished
      && forall i :: 0 <= i < |Flat(pages)| && Due(Flat(pages)[i], if t.force then 0 else user.lastSaleRefresh) ==>
           Stored(n, Flat(pages)[i], Started(t, clock(t.page)).refreshId)
  {
    assert From(pages, 1) == Flat(pages) by { assert pages[0..] == pages; }
    ChainStores(db, user, t, pages, clock, Started(t, clock(t.page)).refreshId);
  }

  // ---- Reconciliation ----

  ghost predicate DueForReconcile(user: User, t: PageTask, clock: nat -> int) {
    t.force || forall p: nat :: p >= t.page ==> clock(p) - user.lastSaleReconcile >= RECONCILE_CADENCE
  }

  lemma {:induction false} ReconcilePageIs(db: SaleStore, user: User, t: PageTask, pages: seq<seq<Listing>>,
                                           clock: nat -> int)
    requires DueForReconcile(user, t, clock)
    ensures var now := clock(t.page);
      var n := SyncItems(db, PageItems(pages, FirstPage(t)), Started(t, now).refreshId, now, 0).0;
      ReconcilePage(db, user, t, pages, now) ==
        if FirstPage(t) >= |pages| then (Pruned(n, Started(t, now).refreshId), User(now, now, 0), Finished)
        else (n, Activated(user, t, now), NextPage(NextTask(t, now)))
  {
    assert t.force || clock(t.page) - user.lastSaleReconcile >= RECONCILE_CADENCE;
  }

  lemma {:induction false} ReconcileUnfolds(db: SaleStore, user: User, t: PageTask, pages: seq<seq<Listing>>,
                                            clock: nat -> int)
    requires DueForReconcile(user, t, clock)
    ensures var now := clock(t.page);
      var n := SyncItems(db, PageItems(pages, FirstPage(t)), Started(t, now).refreshId, now, 0).0;
      var chain := ReconcileChain(db, user, t, pages, clock);
      if FirstPage(t) >= |pages| then chain == (Pruned(n, Started(t, now).refreshId), User(now, now, 0), Finished)
      else chain == ReconcileChain(n, Activated(user, t, now), NextTask(t, now), pages, clock)
  {
    ReconcilePageIs(db, user, t, pages, clock);
  }

  lemma {:induction false} WholePage(db: SaleStore, head: seq<Listing>, id: int, now: int) returns (n: SaleStore)
    requires Keyed(db) && DistinctSales(head)
    ensures n == SyncItems(db, head, id, now, 0).0
    ensures Keyed(n) && PageStored(db, head, |head|, n, id)
  {
    n := SyncItems(db, head, id, now, 0).0;
    PageStores(db, head, id, now, 0);
    PageStops(db, head, id, now, 0);
  }

  /** A full chain reads every page, and only then prunes. */
  lemma {:induction false} ReconcileStores(db: SaleStore, user: User, t: PageTask, pages: seq<seq<Listing>>,
                                           clock: nat -> int, id: int)
    returns (synced: SaleStore)
    requires Keyed(db) && DueForReconcile(user, t, clock) && DistinctSales(From(pages, FirstPage(t)))
    requires id == Started(t, clock(t.page)).refreshId
    ensures ChainStored(db, synced, From(pages, FirstPage(t)), 0, id)
    ensures ReconcileChain(db, user, t, pages, clock).0 == Pruned(synced, id)
    ensures ReconcileChain(db, user, t, pages, clock).2 == Finished
    decreases |pages| - t.page
  {
    var p, now := FirstPage(t), clock(t.page);
    var head, tail := PageItems(pages, p), From(pages, p + 1);
    FromNext(pages, p);
    ReconcileUnfolds(db, user, t, pages, clock);
    NextInherits(user, t, clock);
    SplitDistinct(head, tail);
    var n := WholePage(db, head, id, now);
    if p >= |pages| {
      synced := n;
    } else {
      synced := ReconcileStores(n, Activated(user, t, now), NextTask(t, now), pages, clock, id);
    }
    WholePageThenRest(db, n, synced, head, tail, id);
  }

  lemma {:induction false} WholePageThenRest(db: SaleStore, mid: SaleStore, n: SaleStore, head: seq<Listing>,
                                             tail: seq<Listing>, id: int)
    requires DistinctSales(head + tail) && PageStored(db, head, |head|, mid, id) && ChainStored(mid, n, tail, 0, id)
    ensures ChainStored(db, n, head + tail, 0, id)
  {
    JoinPages(db, mid, n, head, tail, 0, id);
  }

  /**
   * Reconciliation is exact: when the chain ends every stored sale carries the refresh id, every listing is
   * stored as listed, and the stored sales are exactly the listed ones if and only if no unlisted sale
   * carried the refresh id before.
   */
  lemma {:induction false} ReconcileIsExactIff(db: SaleStore, user: User, t: PageTask, pages: seq<seq<Listing>>,
                                               clock: nat -> int)
    requires Keyed(db) && t.page <= 1 && DueForReconcile(user, t, clock) && DistinctSales(Flat(pages))
    ensures var (n, u, result) := ReconcileChain(db, user, t, pages, clock);
      var id, listing := Started(t, clock(t.page)).refreshId, Flat(pages);
      && result == Finished
      && (forall k <- n :: n[k].refreshId == id)
      && (forall i :: 0 <= i < |listing| ==> Stored(n, listing[i], id))
      && ((forall k :: k in n <==> IsListed(listing, k)) <==>
        (forall k <- db :: db[k].refreshId == id ==> IsListed(listing, k)))
  {
    assert From(pages, 1) == Flat(pages) by { assert pages[0..] == pages; }
    var id, listing := Started(t, clock(t.page)).refreshId, Flat(pages);
    var synced := ReconcileStores(db, user, t, pages, clock, id);
    var n := Pruned(synced, id);
    assert forall k :: !IsListed(listing, k) ==> Untouched(db, synced, k);
    forall i | 0 <= i < |listing| ensures Stored(n, listing[i], id) {
      assert Due(listing[i], 0) && Stored(synced, listing[i], id);
    }
    forall k | IsListed(listing, k) ensures k in n {
      var i :| 0 <= i < |listing| && listing[i].saleId == k;
      assert Stored(n, listing[i], id);
    }
    if forall k :: k in n <==> IsListed(listing, k) {
      forall k <- db | db[k].refreshId == id ensures IsListed(listing, k) {
        assert !IsListed(listing, k) ==> Untouched(db, synced, k) && k in n;
      }
    }
  }

  predicate IsListed(items: seq<Listing>, k: int) {
    exists i :: 0 <= i < |items| && items[i].saleId == k
  }
}
