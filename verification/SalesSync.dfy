/**
 * Paged synchronisation of the Discogs inventory, incremental and full (background/sales.go,
 * background/cleancollection.go).
 */
module SalesSync {
  import opened SalesModel
  import PriceHistory

  // ---- One listing ----

  function NewSale(item: Listing, id: int, now: int): SaleInfo {
    SaleInfo(item.saleId, item.releaseId, item.status, id,
             item.price, 0, 0, 0, item.condition, item.sleeveCondition, [],
             if item.posted == 0 then now else item.posted, now, now, now, 0, 0, 0, 0, UnknownUpdate)
  }

  /** A known sale takes over state and price, and fills in what it did not know. */
  function Refreshed(c: SaleInfo, item: Listing, id: int, now: int): SaleInfo {
    c.(state := item.status, refreshId := id, timeRefreshed := now,
       updates := PriceHistory.Tidy(c.updates + [PriceUpdate(now, item.price.value)]),
       currentPrice := item.price,
       condition := if c.condition == "" && item.condition != "" then item.condition else c.condition,
       sleeveCondition :=
         if c.sleeveCondition == "" && item.sleeveCondition != "" then item.sleeveCondition else c.sleeveCondition,
       listedDate := if item.posted > 0 then item.posted else c.listedDate,
       soldDate := if c.state == ForSale && item.status == Sold then now else c.soldDate)
  }

  function Synced(db: SaleStore, item: Listing, id: int, now: int): SaleInfo {
    if item.saleId in db then Refreshed(db[item.saleId], item, id, now) else NewSale(item, id, now)
  }

  /** A known sale listed no later than the last refresh ends an incremental sync. */
  predicate Stops(db: SaleStore, item: Listing, id: int, now: int, last: int) {
    item.saleId in db && last > 0 &&
    var c := Refreshed(db[item.saleId], item, id, now);
    (if c.listedDate == 0 then c.timeCreated else c.listedDate) <= last
  }

  // ---- One page ----

  function Save(db: SaleStore, s: SaleInfo): SaleStore { db[s.saleId := s] }

  /** The store after a page, how many listings were read, and whether the page ended the sync early. */
  function SyncItems(db: SaleStore, items: seq<Listing>, id: int, now: int, last: int): (SaleStore, nat, bool)
    decreases |items|
  {
    if items == [] then (db, 0, false)
    else
      var n := Save(db, Synced(db, items[0], id, now));
      if Stops(db, items[0], id, now, last) then (n, 1, true)
      else
        var rest := SyncItems(n, items[1..], id, now, last);
        (rest.0, rest.1 + 1, rest.2)
  }

  method SyncSales(db: SaleStore, items: seq<Listing>, id: int, now: int, last: int) returns (n: SaleStore, early: bool)
    ensures (n, early) == (SyncItems(db, items, id, now, last).0, SyncItems(db, items, id, now, last).2)
  {
    n := db;
    for i := 0 to |items|
      invariant SyncItems(n, items[i..], id, now, last).0 == SyncItems(db, items, id, now, last).0
      invariant SyncItems(n, items[i..], id, now, last).2 == SyncItems(db, items, id, now, last).2
    {
      var item := items[i];
      assert items[i..][0] == item && items[i..][1..] == items[i + 1..];
      if item.saleId !in n {
        n := Save(n, NewSale(item, id, now));
      } else {
        var c := n[item.saleId];
        var prior := c.state;
        c := c.(state := item.status, refreshId := id, timeRefreshed := now, currentPrice := item.price,
                updates := c.updates + [PriceUpdate(now, item.price.value)]);
        if c.condition == "" && item.condition != "" { c := c.(condition := item.condition); }
        if c.sleeveCondition == "" && item.sleeveCondition != "" { c := c.(sleeveCondition := item.sleeveCondition); }
        if item.posted > 0 { c := c.(listedDate := item.posted); }
        if prior == ForSale && c.state == Sold { c := c.(soldDate := now); }
        var tidied := PriceHistory.TidyUpdates(c.updates);
        c := c.(updates := tidied);
        assert c == Refreshed(n[item.saleId], item, id, now);
        n := Save(n, c);
        var listedDate := c.listedDate;
        if listedDate == 0 { listedDate := c.timeCreated; }
        if last > 0 && listedDate <= last { return n, true; }
      }
    }
    early := false;
  }

  // ---- The page chains ----

  datatype User = User(lastSaleRefresh: int, lastSaleReconcile: int, saleSyncActiveTime: int)

  /** A queued page of a sync. */
  datatype PageTask = PageTask(page: nat, refreshId: int, force: bool)

  const DAY := 86400 * 1000000000
  const RECONCILE_CADENCE := 7 * DAY

  /** What became of a page task: nothing to do yet, the next page queued, or the chain finished. */
  datatype PageResult = Skipped | NextPage(task: PageTask) | Finished

  function PageItems(pages: seq<seq<Listing>>, page: nat): seq<Listing> {
    if 1 <= page <= |pages| then pages[page - 1] else []
  }

  /** The first page picks the refresh id; page 0 means page 1. */
  function Started(t: PageTask, now: int): PageTask {
    if t.page <= 1 then PageTask(1, if t.refreshId == 0 then now else t.refreshId, t.force) else t
  }

  function Activated(user: User, t: PageTask, now: int): User {
    if t.page <= 1 && (t.force || user.saleSyncActiveTime == 0 || now - user.saleSyncActiveTime > DAY)
    then user.(saleSyncActiveTime := now) else user
  }

  function LastRefresh(user: User, t: PageTask): int {
    if t.force then 0 else user.lastSaleRefresh
  }

  /** One page of an incremental refresh. */
  function RefreshPage(db: SaleStore, user: User, t: PageTask, pages: seq<seq<Listing>>,
                       now: int): (SaleStore, User, PageResult) {
    if now - user.lastSaleRefresh < DAY && !t.force then (db, user, Skipped)
    else
      var t' := Started(t, now);
      var user' := Activated(user, t, now);
      var r := SyncItems(db, PageItems(pages, t'.page), t'.refreshId, now, LastRefresh(user', t'));
      if r.2 || t'.page >= |pages| then (r.0, user'.(lastSaleRefresh := now, saleSyncActiveTime := 0), Finished)
      else (r.0, user', NextPage(t'.(page := t'.page + 1)))
  }

  /** The next page of the same sync: it keeps the refresh id, which the first page picks when it has none. */
  predicate QueuesNext(t: PageTask, pages: nat, now: int, next: PageTask) {
    && next.page == (if t.page == 0 then 2 else t.page + 1) && next.page <= pages && next.force == t.force
    && next.refreshId == if t.page <= 1 && t.refreshId == 0 then now else t.refreshId
  }

  /** A forced sync, and one that is not running or has been for more than a day, starts afresh with its first page. */
  predicate MarksActive(user: User, t: PageTask, now: int, u: User) {
    var begins := t.page <= 1
      && (t.force || user.saleSyncActiveTime == 0 || now - user.saleSyncActiveTime > 24 * 3600 * 1000000000);
    u == if begins then User(user.lastSaleRefresh, user.lastSaleReconcile, now) else user
  }

  method ProcessRefreshSales(db: SaleStore, user: User, t: PageTask, pages: seq<seq<Listing>>, now: int)
    returns (n: SaleStore, u: User, result: PageResult)
    ensures (n, u, result) == RefreshPage(db, user, t, pages, now)
    ensures result == Skipped <==> !t.force && now - user.lastSaleRefresh < 24 * 3600 * 1000000000
    ensures result == Skipped ==> n == db && u == user
    ensures result == Finished ==> u == User(now, user.lastSaleReconcile, 0)
    ensures result.NextPage? ==> QueuesNext(t, |pages|, now, result.task) && MarksActive(user, t, now, u)
  {
    if now - user.lastSaleRefresh < DAY && !t.force { return db, user, Skipped; }
    var task := t;
    u := user;
    if task.page <= 1 {
      if task.page == 0 { task := task.(page := 1); }
      if task.refreshId == 0 { task := task.(refreshId := now); }
      if task.force || u.saleSyncActiveTime == 0 || now - u.saleSyncActiveTime > DAY {
        u := u.(saleSyncActiveTime := now);
      }
    }
    var lastRefresh := u.lastSaleRefresh;
    if task.force { lastRefresh := 0; }
    var early;
    n, early := SyncSales(db, PageItems(pages, task.page), task.refreshId, now, lastRefresh);
    if early || task.page >= |pages| {
      u := u.(lastSaleRefresh := now, saleSyncActiveTime := 0);
      return n, u, Finished;
    }
    result := NextPage(task.(page := task.page + 1));
  }

  ghost function Stale(db: SaleStore, id: int): set<int> {
    set k | k in db && db[k].refreshId != id
  }

  /** CleanSales: drops the sales that do not carry the refresh id. */
  ghost function Pruned(db: SaleStore, id: int): SaleStore {
    db - Stale(db, id)
  }

  method CleanSales(db: SaleStore, id: int, order: seq<int>) returns (n: SaleStore)
    requires forall k :: k in order <==> k in db
    ensures n == Pruned(db, id)
    ensures forall k :: k in n <==> k in db && db[k].refreshId == id
  {
    n := db;
    ghost var dropped: set<int> := {};
    for i := 0 to |order|
      invariant n == db - dropped
      invariant forall k :: k in dropped <==> k in order[..i] && db[k].refreshId != id
    {
      var k := order[i];
      assert k in order && order[..i + 1] == order[..i] + [k];
      var sale := db[k];
      if sale.refreshId != id {
        n := n - {k};
        dropped := dropped + {k};
        assert n == db - dropped;
      }
    }
    assert order[..|order|] == order;
    assert forall k <- dropped :: k in Stale(db, id);
    assert forall k <- Stale(db, id) :: k in dropped;
    assert dropped == Stale(db, id);
  }

  /** One page of a full reconciliation. */
  ghost function ReconcilePage(db: SaleStore, user: User, t: PageTask, pages: seq<seq<Listing>>,
                               now: int): (SaleStore, User, PageResult) {
    if now - user.lastSaleReconcile < RECONCILE_CADENCE && !t.force then (db, user, Skipped)
    else
      var t' := Started(t, now);
      var user' := Activated(user, t, now);
      var n := SyncItems(db, PageItems(pages, t'.page), t'.refreshId, now, 0).0;
      if |pages| == 0 || t'.page >= |pages| then
        (Pruned(n, t'.refreshId), User(now, now, 0), Finished)
      else (n, user', NextPage(t'.(page := t'.page + 1)))
  }

  method ProcessReconcileSales(db: SaleStore, user: User, t: PageTask, pages: seq<seq<Listing>>, now: int)
    returns (n: SaleStore, u: User, result: PageResult)
    ensures (n, u, result) == ReconcilePage(db, user, t, pages, now)
    ensures result == Skipped <==> !t.force && now - user.lastSaleReconcile < 7 * 24 * 3600 * 1000000000
    ensures result == Skipped ==> n == db && u == user
    ensures result == Finished ==> u == User(now, now, 0)
    ensures result.NextPage? ==> QueuesNext(t, |pages|, now, result.task) && MarksActive(user, t, now, u)
  {
    if now - user.lastSaleReconcile < RECONCILE_CADENCE && !t.force { return db, user, Skipped; }
    var task := t;
    u := user;
    if task.page <= 1 {
      if task.page == 0 { task := task.(page := 1); }
      if task.refreshId == 0 { task := task.(refreshId := now); }
      if task.force || u.saleSyncActiveTime == 0 || now - u.saleSyncActiveTime > DAY {
        u := u.(saleSyncActiveTime := now);
      }
    }
    var early;
    n, early := SyncSales(db, PageItems(pages, task.page), task.refreshId, now, 0);
    if |pages| == 0 || task.page >= |pages| {
      var order := Listed(n);
      n := CleanSales(n, task.refreshId, order);
      u := u.(lastSaleReconcile := now, lastSaleRefresh := now, saleSyncActiveTime := 0);
      return n, u, Finished;
    }
    result := NextPage(task.(page := task.page + 1));
  }

  lemma {:induction false} EmptyOrNot(s: set<int>)
    ensures (forall k :: k !in s) ==> s == {}
  {
    if forall k :: k !in s { assert s == {}; }
  }

  /** GetSales: the stored ids, in some order. */
  method Listed(db: SaleStore) returns (order: seq<int>)
    ensures forall k :: k in order <==> k in db
  {
    order := [];
    var left := db.Keys;
    while left != {}
      invariant left <= db.Keys && forall k :: k in order <==> k in db && k !in left
      decreases |left|
    {
      EmptyOrNot(left);
      var k :| k in left;
      order := order + [k];
      left := left - {k};
    }
  }

  /** A whole chain: page `i` is handled at time `clock(i)`, each page queueing the next one until one finishes. */
  function RefreshChain(db: SaleStore, user: User, t: PageTask, pages: seq<seq<Listing>>,
                        clock: nat -> int): (SaleStore, User, PageResult)
    decreases |pages| - t.page
  {
    var r := RefreshPage(db, user, t, pages, clock(t.page));
    if r.2.NextPage? && r.2.task.page <= |pages| then RefreshChain(r.0, r.1, r.2.task, pages, clock) else r
  }

  ghost function ReconcileChain(db: SaleStore, user: User, t: PageTask, pages: seq<seq<Listing>>,
                                clock: nat -> int): (SaleStore, User, PageResult)
    decreases |pages| - t.page
  {
    var r := ReconcilePage(db, user, t, pages, clock(t.page));
    if r.2.NextPage? && r.2.task.page <= |pages| then ReconcileChain(r.0, r.1, r.2.task, pages, clock) else r
  }
}
