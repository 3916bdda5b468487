/** Sales as Discogs lists them and as the store keeps them (proto/gramophile.proto, background/sales.go). */
module SalesModel {

  datatype SaleState = ForSale | Sold | OtherState

  datatype Price = Price(value: int, currency: string)

  /** A sale as a page of the Discogs inventory shows it; `posted` is 0 when unknown. */
  datatype Listing = Listing(
    saleId: int, status: SaleState, releaseId: int, price: Price,
    condition: string, sleeveCondition: string, posted: int)

  datatype PriceUpdate = PriceUpdate(date: int, price: int)

  datatype UpdateType = UnknownUpdate | MinimalReduce | NoUpdate | ToMedian | ToMedianThenLow | ToMedianThenLowThenStale

  /** A stored sale. Times are in nanoseconds, with 0 for "never". */
  datatype SaleInfo = SaleInfo(
    saleId: int, releaseId: int, state: SaleState, refreshId: int,
    currentPrice: Price, initialPrice: int, medianPrice: int, lowPrice: int,
    condition: string, sleeveCondition: string, updates: seq<PriceUpdate>,
    listedDate: int, timeCreated: int, timeRefreshed: int, lastPriceUpdate: int, soldDate: int,
    timeAtMedian: int, timeAtLow: int, timeAtStale: int, updateOverride: UpdateType)

  type SaleStore = map<int, SaleInfo>

  /** Sales are stored under their own id. */
  ghost predicate Keyed(db: SaleStore) {
    forall k <- db :: db[k].saleId == k
  }
}
