/** HardLink: tying records to the sales of their release (background/sales.go). */
module SaleLinks {
  import StableSorting
  import opened SalesModel

  /** The part of a collection record that linking reads and writes. */
  datatype Owned = Owned(
    iid: int, releaseId: int, saleId: int, medianPrice: int, lowPrice: int, condition: string, sleeveCondition: string)

  type RecordStore = map<int, Owned>

  predicate Valid(s: SaleInfo) { s.state == ForSale || s.state == Sold }

  function ValidSales(sales: seq<SaleInfo>): seq<SaleInfo> {
    if sales == [] then []
    else ValidSales(sales[..|sales| - 1]) + (if Valid(sales[|sales| - 1]) then [sales[|sales| - 1]] else [])
  }

  function BySaleId(): (SaleInfo, SaleInfo) -> bool {
    (a: SaleInfo, b: SaleInfo) => a.saleId < b.saleId
  }

  function Ordered(sales: seq<SaleInfo>): seq<SaleInfo> {
    StableSorting.Sort(BySaleId(), ValidSales(sales))
  }

  /** What a record of the same release tells a sale. An empty condition tells nothing. */
  function Copy(s: SaleInfo, r: Owned): SaleInfo {
    if r.releaseId != s.releaseId then s
    else
      s.(medianPrice := if s.state == ForSale then r.medianPrice else s.medianPrice,
         lowPrice := if s.state == ForSale then r.lowPrice else s.lowPrice,
         condition := if r.condition != "" then r.condition else s.condition,
         sleeveCondition := if r.sleeveCondition != "" then r.sleeveCondition else s.sleeveCondition)
  }

  function CopyAll(s: SaleInfo, records: seq<Owned>): SaleInfo {
    if records == [] then s else Copy(CopyAll(s, records[..|records| - 1]), records[|records| - 1])
  }

  /** The last of the sales that is of a release. */
  function LastSale(sales: seq<SaleInfo>, releaseId: int, default: int): int {
    if sales == [] then default
    else if sales[|sales| - 1].releaseId == releaseId then sales[|sales| - 1].saleId
    else LastSale(sales[..|sales| - 1], releaseId, default)
  }

  predicate HasSale(sales: seq<SaleInfo>, releaseId: int) {
    exists i :: 0 <= i < |sales| && sales[i].releaseId == releaseId
  }

  // ---- What linking promises ----

  /** `id` is the largest id among the valid sales of the release, or 0 when there is none. */
  ghost predicate IsLatest(sales: seq<SaleInfo>, releaseId: int, id: int) {
    if exists i :: 0 <= i < |sales| && Valid(sales[i]) && sales[i].releaseId == releaseId then
      && (exists i :: 0 <= i < |sales| && Valid(sales[i]) && sales[i].releaseId == releaseId && sales[i].saleId == id)
      && (forall i :: 0 <= i < |sales| && Valid(sales[i]) && sales[i].releaseId == releaseId ==> sales[i].saleId <= id)
    else id == 0
  }

  /** Every record has the latest sale of its release, and nothing else about it has changed. */
  ghost predicate Linked(records: seq<Owned>, sales: seq<SaleInfo>, linked: seq<Owned>) {
    && |linked| == |records|
    && forall j :: 0 <= j < |records| ==>
      linked[j] == records[j].(saleId := linked[j].saleId) && IsLatest(sales, records[j].releaseId, linked[j].saleId)
  }

  /** When reporting fails the last loop is not reached: a record without a valid sale keeps its link. */
  ghost predicate LinkedOnly(records: seq<Owned>, sales: seq<SaleInfo>, linked: seq<Owned>) {
    && |linked| == |records|
    && forall j :: 0 <= j < |records| ==>
      if exists i :: 0 <= i < |sales| && Valid(sales[i]) && sales[i].releaseId == records[j].releaseId then
        linked[j] == records[j].(saleId := linked[j].saleId)
        && IsLatest(sales, records[j].releaseId, linked[j].saleId)
      else linked[j] == records[j]
  }

  ghost predicate RecordsStored(records: seq<Owned>, rdb: RecordStore) {
    forall j :: 0 <= j < |records| ==> records[j].iid in rdb && rdb[records[j].iid] == records[j]
  }

  ghost predicate DistinctRecords(records: seq<Owned>) {
    forall i, j :: 0 <= i < j < |records| ==> records[i].iid != records[j].iid
  }

  ghost predicate DistinctSaleIds(sales: seq<SaleInfo>) {
    forall i, j :: 0 <= i < j < |sales| ==> sales[i].saleId != sales[j].saleId
  }

  ghost predicate SalesStored(sales: seq<SaleInfo>, sdb: SaleStore) {
    forall i :: 0 <= i < |sales| ==> sales[i].saleId in sdb && sdb[sales[i].saleId] == sales[i]
  }

  predicate Matched(records: seq<Owned>, s: SaleInfo) {
    exists j :: 0 <= j < |records| && records[j].releaseId == s.releaseId
  }

  /** Record `j` is the last one of the release. */
  predicate LastOf(records: seq<Owned>, releaseId: int, j: nat) {
    j < |records| && records[j].releaseId == releaseId
    && forall i :: j < i < |records| ==> records[i].releaseId != releaseId
  }

  /** Record `j` is the last one of the release with a condition. */
  predicate LastGraded(records: seq<Owned>, releaseId: int, j: nat) {
    j < |records| && records[j].releaseId == releaseId && records[j].condition != ""
    && forall i :: j < i < |records| && records[i].releaseId == releaseId ==> records[i].condition == ""
  }

  /** Record `j` is the last one of the release with a sleeve condition. */
  predicate LastSleeved(records: seq<Owned>, releaseId: int, j: nat) {
    j < |records| && records[j].releaseId == releaseId && records[j].sleeveCondition != ""
    && forall i :: j < i < |records| && records[i].releaseId == releaseId ==> records[i].sleeveCondition == ""
  }

  /** An active sale has both prices of the last record of its release; any other sale keeps its own. */
  ghost predicate PricesTaken(records: seq<Owned>, s: SaleInfo, c: SaleInfo) {
    && (forall j: nat :: s.state == ForSale && LastOf(records, s.releaseId, j) ==>
          c.medianPrice == records[j].medianPrice && c.lowPrice == records[j].lowPrice)
    && (s.state != ForSale || !Matched(records, s) ==> c.medianPrice == s.medianPrice && c.lowPrice == s.lowPrice)
  }

  /** A sale has the last known condition of its release, or else keeps its own. */
  ghost predicate ConditionTaken(records: seq<Owned>, s: SaleInfo, c: SaleInfo) {
    && (forall j: nat :: LastGraded(records, s.releaseId, j) ==> c.condition == records[j].condition)
    && ((forall j: nat :: !LastGraded(records, s.releaseId, j)) ==> c.condition == s.condition)
  }

  ghost predicate SleeveTaken(records: seq<Owned>, s: SaleInfo, c: SaleInfo) {
    && (forall j: nat :: LastSleeved(records, s.releaseId, j) ==> c.sleeveCondition == records[j].sleeveCondition)
    && ((forall j: nat :: !LastSleeved(records, s.releaseId, j)) ==> c.sleeveCondition == s.sleeveCondition)
  }

  /** What sale `s` turns into: prices and conditions as the records say, and nothing else changes. */
  ghost predicate TakenOver(records: seq<Owned>, s: SaleInfo, c: SaleInfo) {
    && PricesTaken(records, s, c) && ConditionTaken(records, s, c) && SleeveTaken(records, s, c)
    && c == s.(medianPrice := c.medianPrice, lowPrice := c.lowPrice,
               condition := c.condition, sleeveCondition := c.sleeveCondition)
  }

  // ---- The loops ----

  lemma {:induction false} CopyKeeps(s: SaleInfo, records: seq<Owned>)
    ensures var c := CopyAll(s, records); c.saleId == s.saleId && c.releaseId == s.releaseId && c.state == s.state
    ensures s.condition != "" ==> CopyAll(s, records).condition != ""
    ensures s.sleeveCondition != "" ==> CopyAll(s, records).sleeveCondition != ""
  {
    if records != [] { CopyKeeps(s, records[..|records| - 1]); }
  }

  lemma {:induction false} OneMorePrices(records: seq<Owned>, s: SaleInfo)
    requires records != [] && PricesTaken(records[..|records| - 1], s, CopyAll(s, records[..|records| - 1]))
    ensures PricesTaken(records, s, CopyAll(s, records))
  {
    var init, n: nat := records[..|records| - 1], |records| - 1;
    CopyKeeps(s, init);
    if records[n].releaseId == s.releaseId {
      assert LastOf(records, s.releaseId, n);
    } else {
      forall j: nat ensures LastOf(records, s.releaseId, j) <==> LastOf(init, s.releaseId, j) {
        assert forall i :: 0 <= i < n ==> init[i] == records[i];
      }
      assert Matched(records, s) <==> Matched(init, s);
    }
  }

  lemma {:induction false} OneMoreCondition(records: seq<Owned>, s: SaleInfo)
    requires records != [] && ConditionTaken(records[..|records| - 1], s, CopyAll(s, records[..|records| - 1]))
    ensures ConditionTaken(records, s, CopyAll(s, records))
  {
    var init, n: nat := records[..|records| - 1], |records| - 1;
    CopyKeeps(s, init);
    if records[n].releaseId == s.releaseId && records[n].condition != "" {
      assert LastGraded(records, s.releaseId, n);
    } else {
      forall j: nat ensures LastGraded(records, s.releaseId, j) <==> LastGraded(init, s.releaseId, j) {
        assert forall i :: 0 <= i < n ==> init[i] == records[i];
      }
    }
  }

  lemma {:induction false} OneMoreSleeve(records: seq<Owned>, s: SaleInfo)
    requires records != [] && SleeveTaken(records[..|records| - 1], s, CopyAll(s, records[..|records| - 1]))
    ensures SleeveTaken(records, s, CopyAll(s, records))
  {
    var init, n: nat := records[..|records| - 1], |records| - 1;
    CopyKeeps(s, init);
    if records[n].releaseId == s.releaseId && records[n].sleeveCondition != "" {
      assert LastSleeved(records, s.releaseId, n);
    } else {
      forall j: nat ensures LastSleeved(records, s.releaseId, j) <==> LastSleeved(init, s.releaseId, j) {
        assert forall i :: 0 <= i < n ==> init[i] == records[i];
      }
    }
  }

  /** Copying from one record after the other takes over what the last of them say. */
  lemma {:induction false} CopyTakesOver(s: SaleInfo, records: seq<Owned>)
    ensures TakenOver(records, s, CopyAll(s, records))
  {
    if records != [] {
      CopyTakesOver(s, records[..|records| - 1]);
      OneMorePrices(records, s);
      OneMoreCondition(records, s);
      OneMoreSleeve(records, s);
    }
  }

  /** The records after the sales in `done` have been linked. */
  function LinkAll(records: seq<Owned>, done: seq<SaleInfo>): seq<Owned> {
    seq(|records|,
      j requires 0 <= j < |records| => records[j].(saleId := LastSale(done, records[j].releaseId, records[j].saleId)))
  }

  lemma {:induction false} CopyIgnoresLinks(s: SaleInfo, a: seq<Owned>, b: seq<Owned>)
    requires |a| == |b| && forall j :: 0 <= j < |a| ==> b[j] == a[j].(saleId := b[j].saleId)
    ensures CopyAll(s, a) == CopyAll(s, b)
  {
    if a != [] { CopyIgnoresLinks(s, a[..|a| - 1], b[..|b| - 1]); }
  }

  /** The part of the loop body that copies from a record to the sale. */
  method CopyInto(s: SaleInfo, record: Owned) returns (sale: SaleInfo)
    requires record.releaseId == s.releaseId
    ensures sale == Copy(s, record)
  {
    sale := s;
    if sale.state == ForSale {
      if record.medianPrice != sale.medianPrice { sale := sale.(medianPrice := record.medianPrice); }
      if record.lowPrice != sale.lowPrice { sale := sale.(lowPrice := record.lowPrice); }
    }
    if record.condition != "" && sale.condition != record.condition { sale := sale.(condition := record.condition); }
    if record.sleeveCondition != "" && sale.sleeveCondition != record.sleeveCondition {
      sale := sale.(sleeveCondition := record.sleeveCondition);
    }
  }

  lemma {:induction false} LinkedByOne(records: seq<Owned>, s: SaleInfo)
    ensures LinkFirst(records, |records|, s) == LinkAll(records, [s])
  {
    forall r: Owned ensures LastSale([s], r.releaseId, r.saleId) == LinkTo(r, s).saleId {
      assert [s][..0] == [];
    }
  }

  /** The records after the first `j` of them have been linked to the sale. */
  function LinkFirst(records: seq<Owned>, j: nat, s: SaleInfo): seq<Owned> {
    seq(|records|, i requires 0 <= i < |records| => if i < j then LinkTo(records[i], s) else records[i])
  }

  function LinkTo(r: Owned, s: SaleInfo): Owned {
    if r.releaseId == s.releaseId then r.(saleId := s.saleId) else r
  }

  ghost function Iids(records: seq<Owned>): set<int> { set r | r in records :: r.iid }

  ghost predicate OtherRecordsKept(iids: set<int>, rdb: RecordStore, rdb': RecordStore) {
    rdb'.Keys == rdb.Keys && forall k <- rdb :: k !in iids ==> rdb'[k] == rdb[k]
  }

  /** Saving one changed record. */
  lemma {:induction false} StoreOne(linked: seq<Owned>, rdb: RecordStore, rdb': RecordStore, j: nat, r: Owned)
    requires j < |linked| && DistinctRecords(linked) && RecordsStored(linked, rdb') && r.iid == linked[j].iid
    requires OtherRecordsKept(Iids(linked), rdb, rdb')
    ensures DistinctRecords(linked[j := r]) && RecordsStored(linked[j := r], rdb'[r.iid := r])
    ensures Iids(linked[j := r]) == Iids(linked)
    ensures OtherRecordsKept(Iids(linked), rdb, rdb'[r.iid := r])
  {
    assert linked[j] in linked;
    forall x ensures x in Iids(linked[j := r]) <==> x in Iids(linked) {
      if y :| y in linked && y.iid == x {
        var i :| 0 <= i < |linked| && linked[i] == y;
        assert linked[j := r][i] in linked[j := r];
      }
    }
  }

  /** The part of the loop body that links a record to the sale, and saves it when that changes it. */
  method LinkRecord(s: SaleInfo, linked: seq<Owned>, j: nat, ghost rdb: RecordStore, rdb': RecordStore)
    returns (n: seq<Owned>, saved: RecordStore)
    requires j < |linked| && linked[j].releaseId == s.releaseId
    requires DistinctRecords(linked) && RecordsStored(linked, rdb') && OtherRecordsKept(Iids(linked), rdb, rdb')
    ensures n == linked[j := LinkTo(linked[j], s)]
    ensures DistinctRecords(n) && RecordsStored(n, saved)
    ensures Iids(n) == Iids(linked) && OtherRecordsKept(Iids(n), rdb, saved)
  {
    n, saved := linked, rdb';
    if linked[j].saleId != s.saleId {
      var record := linked[j].(saleId := s.saleId);
      StoreOne(linked, rdb, rdb', j, record);
      n, saved := linked[j := record], rdb'[record.iid := record];
    } else {
      assert linked[j] == LinkTo(linked[j], s);
    }
  }

  /** The inner loop after `j` records: they are linked, and the sale has taken over what they say. */
  ghost predicate Linking(s: SaleInfo, records: seq<Owned>, j: nat, linked: seq<Owned>, sale: SaleInfo, sdb: SaleStore,
                          sdb': SaleStore)
  {
    && j <= |records| && linked == LinkFirst(records, j, s)
    && sale == CopyAll(s, records[..j]) && sdb' == sdb[s.saleId := sale]
    && sale.saleId == s.saleId && sale.releaseId == s.releaseId
  }

  ghost predicate LinkingStored(records: seq<Owned>, linked: seq<Owned>, rdb: RecordStore, rdb': RecordStore) {
    && DistinctRecords(linked) && RecordsStored(linked, rdb')
    && Iids(linked) == Iids(records) && OtherRecordsKept(Iids(linked), rdb, rdb')
  }

  /** The body of the inner loop. */
  method LinkStep(s: SaleInfo, ghost records: seq<Owned>, j: nat, linked: seq<Owned>, sale: SaleInfo,
                  ghost rdb: RecordStore, rdb': RecordStore, ghost sdb: SaleStore, sdb': SaleStore)
    returns (n: seq<Owned>, sale': SaleInfo, saved: RecordStore, saved': SaleStore)
    requires j < |records| && Linking(s, records, j, linked, sale, sdb, sdb')
    requires LinkingStored(records, linked, rdb, rdb')
    ensures Linking(s, records, j + 1, n, sale', sdb, saved') && LinkingStored(records, n, rdb, saved)
  {
    assert records[..j + 1][..j] == records[..j];
    n, sale', saved, saved' := linked, sale, rdb', sdb';
    if linked[j].releaseId == sale.releaseId {
      sale' := CopyInto(sale, linked[j]);
      if sale' != sale { saved' := saved'[sale.saleId := sale']; }
      n, saved := LinkRecord(s, linked, j, rdb, rdb');
    }
    assert n == LinkFirst(records, j + 1, s);
  }

  /** The inner loop: one sale against every record. */
  method LinkSale(s: SaleInfo, records: seq<Owned>, rdb: RecordStore, sdb: SaleStore)
    returns (linked: seq<Owned>, rdb': RecordStore, sdb': SaleStore, matched: bool)
    requires DistinctRecords(records) && RecordsStored(records, rdb)
    requires s.saleId in sdb && sdb[s.saleId] == s
    ensures linked == LinkAll(records, [s]) && RecordsStored(linked, rdb') && OtherRecordsKept(Iids(records), rdb, rdb')
    ensures sdb' == sdb[s.saleId := CopyAll(s, records)]
    ensures matched <==> Matched(records, s)
  {
    linked, rdb', sdb', matched := records, rdb, sdb, false;
    var sale := s;
    assert LinkFirst(records, 0, s) == records;
    for j := 0 to |records|
      invariant Linking(s, records, j, linked, sale, sdb, sdb')
      invariant LinkingStored(records, linked, rdb, rdb')
      invariant matched <==> exists i :: 0 <= i < j && records[i].releaseId == s.releaseId
    {
      if linked[j].releaseId == sale.releaseId { matched := true; }
      linked, sale, rdb', sdb' := LinkStep(s, records, j, linked, sale, rdb, rdb', sdb, sdb');
    }
    assert records[..|records|] == records;
    LinkedByOne(records, s);
  }

  /** The sales of `done` have taken over what the records say, and every other sale is as before. */
  ghost predicate SalesCopied(records: seq<Owned>, done: seq<SaleInfo>, sdb: SaleStore, sdb': SaleStore) {
    && sdb'.Keys == sdb.Keys
    && (forall i :: 0 <= i < |done| ==> done[i].saleId in sdb' && sdb'[done[i].saleId] == CopyAll(done[i], records))
    && (forall k <- sdb :: (forall i :: 0 <= i < |done| ==> done[i].saleId != k) ==> sdb'[k] == sdb[k])
  }

  lemma {:induction false} OneMoreSale(records: seq<Owned>, valid: seq<SaleInfo>, i: nat)
    requires i < |valid|
    ensures LinkAll(LinkAll(records, valid[..i]), [valid[i]]) == LinkAll(records, valid[..i + 1])
  {
    assert valid[..i + 1][..i] == valid[..i] && [valid[i]][..0] == [];
    forall r: Owned
      ensures LastSale(valid[..i + 1], r.releaseId, r.saleId) ==
        LastSale([valid[i]], r.releaseId, LastSale(valid[..i], r.releaseId, r.saleId))
    {
      assert LastSale([], r.releaseId, LastSale(valid[..i], r.releaseId, r.saleId)) ==
        LastSale(valid[..i], r.releaseId, r.saleId);
    }
  }

  /** Linking changes neither which records there are nor their releases. */
  lemma {:induction false} SameRecords(records: seq<Owned>, done: seq<SaleInfo>)
    ensures DistinctRecords(records) ==> DistinctRecords(LinkAll(records, done))
    ensures Iids(LinkAll(records, done)) == Iids(records)
  {
    var linked := LinkAll(records, done);
    assert forall j :: 0 <= j < |records| ==> linked[j].iid == records[j].iid;
    forall x ensures x in Iids(linked) <==> x in Iids(records) {
      if r :| r in records && r.iid == x {
        var j :| 0 <= j < |records| && records[j] == r;
        assert linked[j] in linked;
      }
      if r :| r in linked && r.iid == x {
        var j :| 0 <= j < |linked| && linked[j] == r;
        assert records[j] in records;
      }
    }
  }

  lemma {:induction false} SameMatches(records: seq<Owned>, done: seq<SaleInfo>, s: SaleInfo)
    ensures Matched(LinkAll(records, done), s) <==> Matched(records, s)
  {
    if j :| 0 <= j < |records| && records[j].releaseId == s.releaseId {
      assert LinkAll(records, done)[j].releaseId == s.releaseId;
    }
  }

  lemma {:induction false} OneMoreCopied(records: seq<Owned>, valid: seq<SaleInfo>, i: nat, sdb: SaleStore,
                                         mid: SaleStore)
    requires i < |valid| && DistinctSaleIds(valid)
    requires SalesStored(valid, sdb) && SalesCopied(records, valid[..i], sdb, mid)
    ensures SalesCopied(records, valid[..i + 1], sdb, mid[valid[i].saleId := CopyAll(valid[i], records)])
  {
    var done := valid[..i + 1];
    var n := mid[valid[i].saleId := CopyAll(valid[i], records)];
    forall k <- sdb | forall h :: 0 <= h < |done| ==> done[h].saleId != k ensures n[k] == sdb[k] {
      assert done[i].saleId != k;
      forall h | 0 <= h < i ensures valid[..i][h].saleId != k { assert valid[..i][h] == done[h]; }
    }
    forall h | 0 <= h < |done| ensures done[h].saleId in n && n[done[h].saleId] == CopyAll(done[h], records) {
      if h < i { assert valid[..i][h] == done[h]; }
    }
  }

  /** The sales of `done` that some record matches. */
  ghost function MatchedIds(records: seq<Owned>, done: seq<SaleInfo>): set<int> {
    set s | s in done && Matched(records, s) :: s.saleId
  }

  lemma {:induction false} OneMoreMatched(records: seq<Owned>, valid: seq<SaleInfo>, i: nat)
    requires i < |valid|
    ensures MatchedIds(records, valid[..i + 1]) ==
      MatchedIds(records, valid[..i]) + (if Matched(records, valid[i]) then {valid[i].saleId} else {})
  {
    assert valid[..i + 1] == valid[..i] + [valid[i]];
  }

  /** The outer loop after the sales in `done`. */
  ghost predicate SalesDone(records: seq<Owned>, done: seq<SaleInfo>, rdb: RecordStore, sdb: SaleStore,
                            linked: seq<Owned>, rdb': RecordStore, sdb': SaleStore, matched: set<int>)
  {
    && linked == LinkAll(records, done)
    && RecordsStored(linked, rdb') && OtherRecordsKept(Iids(records), rdb, rdb')
    && SalesCopied(records, done, sdb, sdb')
    && matched == MatchedIds(records, done)
  }

  /** The body of the outer loop. */
  method LinkNextSale(valid: seq<SaleInfo>, i: nat, ghost records: seq<Owned>, ghost rdb: RecordStore,
                      ghost sdb: SaleStore, linked: seq<Owned>, rdb': RecordStore, sdb': SaleStore, matched: set<int>)
    returns (n: seq<Owned>, saved: RecordStore, saved': SaleStore, matched': set<int>)
    requires i < |valid| && DistinctRecords(records) && RecordsStored(records, rdb)
    requires DistinctSaleIds(valid) && SalesStored(valid, sdb)
    requires SalesDone(records, valid[..i], rdb, sdb, linked, rdb', sdb', matched)
    ensures SalesDone(records, valid[..i + 1], rdb, sdb, n, saved, saved', matched')
  {
    var s := valid[i];
    OneMoreSale(records, valid, i);
    CopyIgnoresLinks(s, records, linked);
    OneMoreCopied(records, valid, i, sdb, sdb');
    OneMoreMatched(records, valid, i);
    SameRecords(records, valid[..i]);
    SameMatches(records, valid[..i], s);
    var found;
    n, saved, saved', found := LinkSale(s, linked, rdb', sdb');
    matched' := matched;
    if found { matched' := matched' + {s.saleId}; }
  }

  /** The outer loop. */
  method LinkSales(valid: seq<SaleInfo>, records: seq<Owned>, rdb: RecordStore, sdb: SaleStore)
    returns (linked: seq<Owned>, rdb': RecordStore, sdb': SaleStore, matched: set<int>)
    requires DistinctRecords(records) && RecordsStored(records, rdb)
    requires DistinctSaleIds(valid) && SalesStored(valid, sdb)
    ensures linked == LinkAll(records, valid) && RecordsStored(linked, rdb')
    ensures OtherRecordsKept(Iids(records), rdb, rdb')
    ensures SalesCopied(records, valid, sdb, sdb')
    ensures matched == MatchedIds(records, valid)
  {
    linked, rdb', sdb', matched := records, rdb, sdb, {};
    assert LinkAll(records, []) == records;
    for i := 0 to |valid|
      invariant SalesDone(records, valid[..i], rdb, sdb, linked, rdb', sdb', matched)
    {
      linked, rdb', sdb', matched := LinkNextSale(valid, i, records, rdb, sdb, linked, rdb', sdb', matched);
    }
    assert valid[..|valid|] == valid;
  }

  // ---- The whole of HardLink ----

  lemma {:induction false} ValidSalesAre(sales: seq<SaleInfo>)
    ensures forall s :: s in ValidSales(sales) <==> s in sales && Valid(s)
    ensures DistinctSaleIds(sales) ==> DistinctSaleIds(ValidSales(sales))
  {
    if sales != [] {
      var init, last := sales[..|sales| - 1], sales[|sales| - 1];
      ValidSalesAre(init);
      assert forall s :: s in sales <==> s in init || s == last;
      if DistinctSaleIds(sales) {
        forall i | 0 <= i < |ValidSales(init)| ensures ValidSales(init)[i].saleId != last.saleId {
          assert ValidSales(init)[i] in init;
        }
      }
    }
  }

  lemma {:induction false} OrderedAre(sales: seq<SaleInfo>)
    requires DistinctSaleIds(sales)
    ensures forall s :: s in Ordered(sales) <==> s in sales && Valid(s)
    ensures forall i, j :: 0 <= i < j < |Ordered(sales)| ==> Ordered(sales)[i].saleId < Ordered(sales)[j].saleId
  {
    var o, v := Ordered(sales), ValidSales(sales);
    ValidSalesAre(sales);
    assert StableSorting.StrictWeakOrder(BySaleId());
    StableSorting.SortPermutes(BySaleId(), v);
    StableSorting.SortSorts(BySaleId(), v);
    StableSorting.SamePermutation(v, o);
    forall i, j | 0 <= i < j < |o| ensures o[i].saleId < o[j].saleId {
      assert !BySaleId()(o[j], o[i]);
      assert o[i] in v && o[j] in v;
    }
  }

  /** Along sales in id order, the last one of a release is the latest one. */
  lemma {:induction false} LastIsLatest(o: seq<SaleInfo>, releaseId: int, default: int)
    requires forall i, j :: 0 <= i < j < |o| ==> o[i].saleId < o[j].saleId
    ensures if HasSale(o, releaseId) then
        (exists i :: 0 <= i < |o| && o[i].releaseId == releaseId && o[i].saleId == LastSale(o, releaseId, default))
        && forall i :: 0 <= i < |o| && o[i].releaseId == releaseId ==> o[i].saleId <= LastSale(o, releaseId, default)
      else LastSale(o, releaseId, default) == default
  {
    if o != [] && o[|o| - 1].releaseId != releaseId {
      var init := o[..|o| - 1];
      LastIsLatest(init, releaseId, default);
      if HasSale(o, releaseId) {
        var i :| 0 <= i < |o| && o[i].releaseId == releaseId;
        assert init[i].releaseId == releaseId;
        var id := LastSale(init, releaseId, default);
        var k :| 0 <= k < |init| && init[k].releaseId == releaseId && init[k].saleId == id;
        assert o[k] == init[k];
      }
    }
  }

  lemma {:induction false} LatestOfOrdered(sales: seq<SaleInfo>, releaseId: int, default: int)
    requires DistinctSaleIds(sales)
    ensures HasSale(Ordered(sales), releaseId) ==>
      IsLatest(sales, releaseId, LastSale(Ordered(sales), releaseId, default))
    ensures !HasSale(Ordered(sales), releaseId) ==> IsLatest(sales, releaseId, 0)
  {
    var o := Ordered(sales);
    OrderedAre(sales);
    LastIsLatest(o, releaseId, default);
    forall i | 0 <= i < |sales| && Valid(sales[i]) && sales[i].releaseId == releaseId
      ensures exists k :: 0 <= k < |o| && o[k] == sales[i]
    {
      assert sales[i] in o;
    }
    if k :| 0 <= k < |o| && o[k].releaseId == releaseId && o[k].saleId == LastSale(o, releaseId, default) {
      assert o[k] in sales;
    }
  }

  /** The last loop: records without a valid sale lose their link. */
  method ClearLinks(records: seq<Owned>, valid: seq<SaleInfo>, rdb: RecordStore)
    returns (cleared: seq<Owned>, rdb': RecordStore)
    requires DistinctRecords(records) && RecordsStored(records, rdb)
    ensures |cleared| == |records| && forall j :: 0 <= j < |records| ==>
      cleared[j] == if HasSale(valid, records[j].releaseId) then records[j] else records[j].(saleId := 0)
    ensures RecordsStored(cleared, rdb') && OtherRecordsKept(Iids(records), rdb, rdb')
  {
    var validReleaseIds := set s | s in valid :: s.releaseId;
    cleared, rdb' := records, rdb;
    for j := 0 to |records|
      invariant |cleared| == |records| && forall i :: 0 <= i < |records| ==>
        cleared[i] == if i < j && records[i].releaseId !in validReleaseIds then records[i].(saleId := 0) else records[i]
      invariant DistinctRecords(cleared) && RecordsStored(cleared, rdb')
      invariant Iids(cleared) == Iids(records) && OtherRecordsKept(Iids(cleared), rdb, rdb')
    {
      var record := cleared[j];
      if record.releaseId !in validReleaseIds && record.saleId != 0 {
        record := record.(saleId := 0);
        StoreOne(cleared, rdb, rdb', j, record);
        cleared, rdb' := cleared[j := record], rdb'[record.iid := record];
      }
    }
    forall j | 0 <= j < |records|
      ensures HasSale(valid, records[j].releaseId) <==> records[j].releaseId in validReleaseIds
    {
      if s :| s in valid && s.releaseId == records[j].releaseId {
        var i :| 0 <= i < |valid| && valid[i] == s;
      }
      if i :| 0 <= i < |valid| && valid[i].releaseId == records[j].releaseId { assert valid[i] in valid; }
    }
  }

  /** An active sale without a record has to be reported; that fails when no issue can be filed. */
  ghost predicate NothingToReport(records: seq<Owned>, sales: seq<SaleInfo>) {
    forall s <- sales :: s.state == ForSale ==> Matched(records, s)
  }

  /** Sales keep what the records do not tell them: a condition, once known, never becomes empty. */
  ghost predicate SalesLinked(records: seq<Owned>, sales: seq<SaleInfo>, sdb: SaleStore, sdb': SaleStore) {
    && sdb'.Keys == sdb.Keys
    && (forall s <- sales ::
          s.saleId in sdb' && if Valid(s) then TakenOver(records, s, sdb'[s.saleId]) else sdb'[s.saleId] == s)
    && (forall s <- sales :: s.condition != "" ==> sdb'[s.saleId].condition != "")
    && (forall s <- sales :: s.sleeveCondition != "" ==> sdb'[s.saleId].sleeveCondition != "")
    && (forall k <- sdb :: (forall s <- sales :: s.saleId != k) ==> sdb'[k] == sdb[k])
  }

  lemma {:induction false} SalesEndUpLinked(records: seq<Owned>, sales: seq<SaleInfo>, sdb: SaleStore, sdb': SaleStore)
    requires DistinctSaleIds(sales) && SalesStored(sales, sdb) && SalesCopied(records, Ordered(sales), sdb, sdb')
    ensures SalesLinked(records, sales, sdb, sdb')
  {
    var o := Ordered(sales);
    OrderedAre(sales);
    forall s <- sales
      ensures s.saleId in sdb' && sdb'[s.saleId] == if Valid(s) then CopyAll(s, records) else s
      ensures Valid(s) ==> TakenOver(records, s, sdb'[s.saleId])
    {
      var i :| 0 <= i < |sales| && sales[i] == s;
      if Valid(s) {
        assert s in o;
        var k :| 0 <= k < |o| && o[k] == s;
      } else {
        forall k | 0 <= k < |o| ensures o[k].saleId != s.saleId { assert o[k] in o; }
      }
      CopyTakesOver(s, records);
    }
    forall s <- sales
      ensures s.condition != "" ==> sdb'[s.saleId].condition != ""
      ensures s.sleeveCondition != "" ==> sdb'[s.saleId].sleeveCondition != ""
    {
      CopyKeeps(s, records);
    }
    forall k <- sdb | forall s <- sales :: s.saleId != k ensures sdb'[k] == sdb[k] {
      forall i | 0 <= i < |o| ensures o[i].saleId != k { assert o[i] in o; }
    }
  }

  /** Reporting: fails exactly when an active sale has no record and issues cannot be filed. */
  method ReportUnmatched(valid: seq<SaleInfo>, matched: set<int>, issuesWork: bool) returns (ok: bool)
    ensures ok <==> issuesWork || forall s <- valid :: s.state == ForSale ==> s.saleId in matched
  {
    for i := 0 to |valid|
      invariant issuesWork || forall s <- valid[..i] :: s.state == ForSale ==> s.saleId in matched
    {
      assert valid[..i + 1] == valid[..i] + [valid[i]];
      if valid[i].state == ForSale && valid[i].saleId !in matched {
        if !issuesWork {
          assert valid[i] in valid;
          return false;
        }
      }
    }
    assert valid[..|valid|] == valid;
    ok := true;
  }

  method HardLink(records: seq<Owned>, sales: seq<SaleInfo>, rdb: RecordStore, sdb: SaleStore, issuesWork: bool)
    returns (linked: seq<Owned>, rdb': RecordStore, sdb': SaleStore, ok: bool)
    requires DistinctRecords(records) && RecordsStored(records, rdb)
    requires DistinctSaleIds(sales) && SalesStored(sales, sdb)
    ensures ok <==> issuesWork || NothingToReport(records, sales)
    ensures if ok then Linked(records, sales, linked) else LinkedOnly(records, sales, linked)
    ensures RecordsStored(linked, rdb') && OtherRecordsKept(Iids(records), rdb, rdb')
    ensures SalesLinked(records, sales, sdb, sdb')
  {
    var validSales: seq<SaleInfo> := [];
    for i := 0 to |sales|
      invariant validSales == ValidSales(sales[..i])
    {
      assert sales[..i + 1][..i] == sales[..i];
      if sales[i].state == ForSale || sales[i].state == Sold { validSales := validSales + [sales[i]]; }
    }
    assert sales[..|sales|] == sales;
    validSales := StableSorting.Sort(BySaleId(), validSales);
    OrderedAre(sales);
    OrderedStored(sales, sdb);
    var matched;
    linked, rdb', sdb', matched := LinkSales(validSales, records, rdb, sdb);
    SalesEndUpLinked(records, sales, sdb, sdb');
    ok := ReportUnmatched(validSales, matched, issuesWork);
    MatchedOrdered(records, sales);
    if !ok {
      NotCleared(records, sales);
      return;
    }
    ghost var before := linked;
    SameRecords(records, validSales);
    linked, rdb' := ClearLinks(linked, validSales, rdb');
    EndLinked(records, sales, before, linked);
  }

  lemma {:induction false} OrderedStored(sales: seq<SaleInfo>, sdb: SaleStore)
    requires DistinctSaleIds(sales) && SalesStored(sales, sdb)
    ensures SalesStored(Ordered(sales), sdb) && DistinctSaleIds(Ordered(sales))
  {
    var o := Ordered(sales);
    OrderedAre(sales);
    forall i | 0 <= i < |o| ensures o[i].saleId in sdb && sdb[o[i].saleId] == o[i] {
      assert o[i] in sales;
    }
  }

  lemma {:induction false} MatchedOrdered(records: seq<Owned>, sales: seq<SaleInfo>)
    requires DistinctSaleIds(sales)
    ensures (forall s <- Ordered(sales) :: s.state == ForSale ==> s.saleId in MatchedIds(records, Ordered(sales))) <==>
      NothingToReport(records, sales)
  {
    var o := Ordered(sales);
    OrderedAre(sales);
    forall s <- o ensures s.saleId in MatchedIds(records, o) <==> Matched(records, s) {
      if t :| t in o && Matched(records, t) && t.saleId == s.saleId {
        var i :| 0 <= i < |o| && o[i] == s;
        var j :| 0 <= j < |o| && o[j] == t;
      }
    }
  }

  lemma {:induction false} NotCleared(records: seq<Owned>, sales: seq<SaleInfo>)
    requires DistinctSaleIds(sales)
    ensures LinkedOnly(records, sales, LinkAll(records, Ordered(sales)))
  {
    var o := Ordered(sales);
    OrderedAre(sales);
    forall j | 0 <= j < |records|
      ensures if HasSale(o, records[j].releaseId) then
          IsLatest(sales, records[j].releaseId, LastSale(o, records[j].releaseId, records[j].saleId))
        else LastSale(o, records[j].releaseId, records[j].saleId) == records[j].saleId
      ensures HasSale(o, records[j].releaseId) <==>
        exists i :: 0 <= i < |sales| && Valid(sales[i]) && sales[i].releaseId == records[j].releaseId
    {
      LastIsLatest(o, records[j].releaseId, records[j].saleId);
      LatestOfOrdered(sales, records[j].releaseId, records[j].saleId);
      ValidSaleOrdered(sales, records[j].releaseId);
    }
  }

  lemma {:induction false} ValidSaleOrdered(sales: seq<SaleInfo>, releaseId: int)
    requires DistinctSaleIds(sales)
    ensures HasSale(Ordered(sales), releaseId) <==>
      exists i :: 0 <= i < |sales| && Valid(sales[i]) && sales[i].releaseId == releaseId
  {
    var o := Ordered(sales);
    OrderedAre(sales);
    if i :| 0 <= i < |sales| && Valid(sales[i]) && sales[i].releaseId == releaseId {
      assert sales[i] in o;
      var k :| 0 <= k < |o| && o[k] == sales[i];
    }
    if k :| 0 <= k < |o| && o[k].releaseId == releaseId {
      assert o[k] in sales;
    }
  }

  lemma {:induction false} EndLinked(records: seq<Owned>, sales: seq<SaleInfo>, before: seq<Owned>, linked: seq<Owned>)
    requires DistinctSaleIds(sales) && before == LinkAll(records, Ordered(sales)) && |linked| == |records|
    requires forall j :: 0 <= j < |records| ==>
      linked[j] == if HasSale(Ordered(sales), before[j].releaseId) then before[j] else before[j].(saleId := 0)
    ensures Linked(records, sales, linked)
  {
    forall j | 0 <= j < |records| ensures IsLatest(sales, records[j].releaseId, linked[j].saleId) {
      LatestOfOrdered(sales, records[j].releaseId, records[j].saleId);
    }
  }
}
