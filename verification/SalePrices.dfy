/** Reducing the price of a sale over time (background/sales.go). */
module SalePrices {
  import opened SalesModel

  datatype LowerBoundStrategy = Static | DiscogsLow

  /** Durations without a unit in their name are in seconds. */
  datatype SaleConfig = SaleConfig(
    updateFrequency: int, reduction: int,
    postMedianTime: int, postMedianReduction: int, postMedianReductionFrequency: int,
    lowerBoundStrategy: LowerBoundStrategy, lowerBound: int,
    timeToMedianDays: int, timeToLowerDays: int, timeToStaleDays: int,
    postLowReduction: int, postLowReductionFrequency: int, staleBound: int)

  datatype Adjustment = NewPrice(value: int) | MissingMetadata | AlreadyLow | BadFrequency | NoStrategy

  function Seconds(nanos: int): real { nanos as real / 1000000000.0 }

  const DAY := 86400.0

  /** Conversion to an integer drops the fraction, towards zero. */
  function Truncate(x: real): int {
    if x >= 0.0 then x.Floor else -((-x).Floor)
  }

  function Max(a: int, b: int): int { if a > b then a else b }

  function AtMostOne(x: real): real { if x > 1.0 then 1.0 else x }

  // ---- Timed reductions ----

  /** The price a share of the way from `start` to `end`, the share growing with the elapsed time. */
  function Slide(start: int, end: int, elapsed: real, length: real): int {
    start - Part(start - end, Share(elapsed, length))
  }

  /** The share of the time that has passed, at most all of it; of no time at all, everything has passed. */
  function Share(elapsed: real, length: real): real {
    if length == 0.0 then 1.0 else AtMostOne(elapsed / length)
  }

  function Part(amount: int, share: real): int {
    Truncate(amount as real * share)
  }

  /** The price on the way from the initial price to the median. */
  function BeforeMedian(s: SaleInfo, c: SaleConfig, now: int): int {
    Slide(s.initialPrice, s.medianPrice, Seconds(now - s.listedDate), c.timeToMedianDays as real * DAY)
  }

  /** Seconds since the hold at the median price ended. */
  function SinceHold(s: SaleInfo, c: SaleConfig, now: int): real {
    Seconds(now - s.timeAtMedian) - c.postMedianTime as real
  }

  /** The price on the way from the median to the low price. */
  function AfterMedian(s: SaleInfo, c: SaleConfig, now: int): int {
    Slide(s.medianPrice, s.lowPrice, SinceHold(s, c, now), c.timeToLowerDays as real * DAY)
  }

  function TimeReduce(s: SaleInfo, c: SaleConfig, now: int): int {
    if s.timeAtMedian == 0 then BeforeMedian(s, c, now)
    else if SinceHold(s, c, now) < 0.0 then s.currentPrice.value
    else AfterMedian(s, c, now)
  }

  // ---- Stepped reductions ----

  function Cycles(s: SaleInfo, c: SaleConfig, now: int): int
    requires c.postMedianReductionFrequency > 0
  {
    (SinceHold(s, c, now) / c.postMedianReductionFrequency as real).Floor + 1
  }

  function Bound(s: SaleInfo, c: SaleConfig): int {
    if c.lowerBoundStrategy.DiscogsLow? then s.lowPrice else c.lowerBound
  }

  function StepDown(s: SaleInfo, c: SaleConfig, now: int): int
    requires c.postMedianReductionFrequency > 0
  {
    Max(s.medianPrice - Cycles(s, c, now) * c.postMedianReduction, Bound(s, c))
  }

  predicate PastHold(s: SaleInfo, c: SaleConfig, now: int) {
    s.timeAtMedian > 0 && c.postMedianReduction > 0 && Seconds(now - s.timeAtMedian) > c.postMedianTime as real
  }

  function PostMedianStep(s: SaleInfo, c: SaleConfig, now: int): Adjustment {
    if c.postMedianReductionFrequency <= 0 then BadFrequency
    else if c.lowerBoundStrategy.DiscogsLow? && s.lowPrice == 0 then MissingMetadata
    else if Bound(s, c) > 0 then NewPrice(StepDown(s, c, now))
    else AlreadyLow
  }

  predicate ReadyForStale(s: SaleInfo, c: SaleConfig, now: int) {
    && Seconds(now - s.timeAtLow) / 3600.0 / 24.0 > c.timeToStaleDays as real
    && Seconds(now - s.lastPriceUpdate) > c.postLowReductionFrequency as real
  }

  predicate Reduces(ut: UpdateType) { ut.ToMedian? || ut.ToMedianThenLow? || ut.ToMedianThenLowThenStale? }

  predicate GoesLow(ut: UpdateType) { ut.ToMedianThenLow? || ut.ToMedianThenLowThenStale? }

  /** The next price of a sale. */
  function AdjustPrice(s: SaleInfo, c: SaleConfig, ut: UpdateType, now: int): Adjustment {
    match ut
    case MinimalReduce => NewPrice(s.currentPrice.value - 1)
    case NoUpdate => NewPrice(s.currentPrice.value)
    case UnknownUpdate => NoStrategy
    case _ =>
      if s.medianPrice == 0 then MissingMetadata
      else if c.timeToMedianDays > 0 then NewPrice(TimeReduce(s, c, now))
      else if ut.ToMedianThenLowThenStale? && ReadyForStale(s, c, now) then
        NewPrice(Max(s.currentPrice.value - c.postLowReduction, c.staleBound))
      else if GoesLow(ut) && PastHold(s, c, now) then PostMedianStep(s, c, now)
      else NewPrice(Max(s.currentPrice.value - c.reduction, s.medianPrice))
  }

  // ---- The price, said in whole nanoseconds ----

  /** `q` is the quotient n / d without its fraction. */
  predicate IsQuotient(n: int, d: int, q: int) {
    if n >= 0 then q * d <= n < (q + 1) * d else (q - 1) * d < n <= q * d
  }

  predicate IsLarger(p: int, a: int, b: int) { (p == a && a >= b) || (p == b && b >= a) }

  /** After `t` of `length` nanoseconds the price has gone that part of the way from `start` to `end`. */
  predicate OnTheWay(start: int, end: int, t: int, length: int, p: int) {
    if length == 0 then p == end
    else if length > 0 then if t >= length then p == end else IsQuotient((start - end) * t, length, start - p)
    else if t <= length then p == end
    else IsQuotient((start - end) * -t, -length, start - p)
  }

  /** Before the hold on the way to the median, then held, then on the way to the low price. */
  predicate TimedPrice(s: SaleInfo, c: SaleConfig, now: int, p: int) {
    var day := 86400 * 1000000000;
    if s.timeAtMedian == 0 then
      OnTheWay(s.initialPrice, s.medianPrice, now - s.listedDate, c.timeToMedianDays * day, p)
    else
      var t := now - s.timeAtMedian - c.postMedianTime * 1000000000;
      if t < 0 then p == s.currentPrice.value
      else OnTheWay(s.medianPrice, s.lowPrice, t, c.timeToLowerDays * day, p)
  }

  /** Since the hold, `n` cycles have begun. */
  predicate CyclesBegun(s: SaleInfo, c: SaleConfig, now: int, n: int) {
    var t := now - s.timeAtMedian - c.postMedianTime * 1000000000;
    var cycle := c.postMedianReductionFrequency * 1000000000;
    (n - 1) * cycle <= t < n * cycle
  }

  /** One reduction below the median for every cycle that has begun, down to a positive bound. */
  ghost predicate SteppedPrice(s: SaleInfo, c: SaleConfig, now: int, p: int) {
    var bound := match c.lowerBoundStrategy case Static => c.lowerBound case DiscogsLow => s.lowPrice;
    && c.postMedianReductionFrequency > 0 && bound > 0
    && exists n :: CyclesBegun(s, c, now, n) && IsLarger(p, s.medianPrice - n * c.postMedianReduction, bound)
  }

  /** The price that a strategy asks for. */
  ghost predicate PriceIs(s: SaleInfo, c: SaleConfig, ut: UpdateType, now: int, p: int) {
    var second := 1000000000;
    var price := s.currentPrice.value;
    match ut
    case MinimalReduce => p == price - 1
    case NoUpdate => p == price
    case UnknownUpdate => false
    case _ =>
      s.medianPrice != 0 &&
      if c.timeToMedianDays > 0 then TimedPrice(s, c, now, p)
      else if ut == ToMedianThenLowThenStale && now - s.timeAtLow > c.timeToStaleDays * 86400 * second
        && now - s.lastPriceUpdate > c.postLowReductionFrequency * second then
        IsLarger(p, price - c.postLowReduction, c.staleBound)
      else if ut != ToMedian && s.timeAtMedian > 0 && c.postMedianReduction > 0
        && now - s.timeAtMedian > c.postMedianTime * second then
        SteppedPrice(s, c, now, p)
      else IsLarger(p, price - c.reduction, s.medianPrice)
  }

  lemma {:induction false} TimesKeepsOrder(a: int, b: int, d: int)
    requires a <= b && d > 0
    ensures a * d <= b * d
  {
  }

  lemma {:induction false} CancelTimes(a: int, b: int, d: int)
    requires d > 0 && a * d < b * d
    ensures a < b
  {
    if b <= a { TimesKeepsOrder(b, a, d); }
  }

  /** A quotient without its fraction is only one number. */
  lemma {:induction false} QuotientIsOne(n: int, d: int, q: int, r: int)
    requires d > 0 && IsQuotient(n, d, q) && IsQuotient(n, d, r)
    ensures q == r
  {
    if n >= 0 {
      CancelTimes(q, r + 1, d);
      CancelTimes(r, q + 1, d);
    } else {
      CancelTimes(q - 1, r, d);
      CancelTimes(r - 1, q, d);
    }
  }

  lemma {:induction false} TimesReal(a: int, b: int)
    ensures (a * b) as real == a as real * b as real
  {
  }

  lemma {:induction false} RealTimesKeepsOrder(a: real, b: real, d: real)
    requires d > 0.0
    ensures a <= b <==> a * d <= b * d
  {
    if a < b {
      assert (b - a) * d > 0.0;
    } else if b < a {
      assert (a - b) * d > 0.0;
    }
  }

  /** Comparing with x, where x * d == n. */
  lemma {:induction false} AtMostQuotient(a: int, x: real, n: int, d: int)
    requires d > 0 && x * d as real == n as real
    ensures a as real <= x <==> a * d <= n
  {
    TimesReal(a, d);
    RealTimesKeepsOrder(a as real, x, d as real);
    assert (a * d) as real <= n as real <==> a * d <= n;
  }

  lemma {:induction false} FloorIsQuotient(x: real, n: int, d: int)
    requires d > 0 && x * d as real == n as real
    ensures x.Floor * d <= n < (x.Floor + 1) * d
  {
    AtMostQuotient(x.Floor, x, n, d);
    AtMostQuotient(x.Floor + 1, x, n, d);
  }

  lemma {:induction false} NegatedQuotient(n: int, d: int, q: int)
    requires n < 0 && q * d <= -n < (q + 1) * d
    ensures IsQuotient(n, d, -q)
  {
    assert (-q - 1) * d == -((q + 1) * d) && -q * d == -(q * d);
  }

  /** Cutting off the fraction of x, where x * d == n. */
  lemma {:induction false} TruncateIsQuotient(x: real, n: int, d: int)
    requires d > 0 && x * d as real == n as real
    ensures IsQuotient(n, d, Truncate(x))
  {
    RealTimesKeepsOrder(0.0, x, d as real);
    if n >= 0 {
      FloorIsQuotient(x, n, d);
    } else {
      assert -x * d as real == (-n) as real;
      FloorIsQuotient(-x, -n, d);
      NegatedQuotient(n, d, (-x).Floor);
    }
  }

  lemma {:induction false} WholePart(k: int)
    ensures Part(k, 1.0) == k
  {
  }

  /** The share of the time, said of nanoseconds. */
  lemma {:induction false} ShareOf(elapsed: real, length: real, t: int, d: int)
    requires elapsed * 1000000000.0 == t as real && length * 1000000000.0 == d as real && d != 0
    ensures (elapsed / length) * d as real == t as real
    ensures elapsed / length >= 1.0 <==> if d > 0 then t >= d else t <= d
  {
    var q := elapsed / length;
    assert q * length == elapsed;
    assert q * (length * 1000000000.0) == elapsed * 1000000000.0;
    if d > 0 {
      RealTimesKeepsOrder(1.0, q, d as real);
    } else {
      RealTimesKeepsOrder(1.0, q, (-d) as real);
      assert q * (-d) as real == (-t) as real;
    }
  }

  lemma {:induction false} PartIsQuotient(k: int, share: real, t: int, d: int)
    requires d > 0 && share * d as real == t as real
    ensures IsQuotient(k * t, d, Part(k, share))
  {
    var x := k as real * share;
    TimesReal(k, t);
    assert x * d as real == k as real * (share * d as real);
    TruncateIsQuotient(x, k * t, d);
  }

  lemma {:induction false} SlideIsOnTheWay(start: int, end: int, elapsed: real, length: real, t: int, d: int)
    requires elapsed * 1000000000.0 == t as real && length * 1000000000.0 == d as real
    ensures OnTheWay(start, end, t, d, Slide(start, end, elapsed, length))
  {
    WholePart(start - end);
    if d != 0 {
      ShareOf(elapsed, length, t, d);
      var share := elapsed / length;
      if share < 1.0 {
        if d > 0 {
          PartIsQuotient(start - end, share, t, d);
        } else {
          assert share * (-d) as real == (-t) as real;
          PartIsQuotient(start - end, share, -t, -d);
        }
      }
    }
  }

  lemma {:induction false} OnTheWayIsOne(start: int, end: int, t: int, d: int, p: int, q: int)
    requires OnTheWay(start, end, t, d, p) && OnTheWay(start, end, t, d, q)
    ensures p == q
  {
    if 0 < d && t < d {
      QuotientIsOne((start - end) * t, d, start - p, start - q);
    } else if d < 0 && d < t {
      QuotientIsOne((start - end) * -t, -d, start - p, start - q);
    }
  }

  lemma {:induction false} TimedPriceIs(s: SaleInfo, c: SaleConfig, now: int, p: int)
    ensures TimeReduce(s, c, now) == p <==> TimedPrice(s, c, now, p)
  {
    var day := 86400 * 1000000000;
    if s.timeAtMedian == 0 {
      var t, r := now - s.listedDate, BeforeMedian(s, c, now);
      var length, d := c.timeToMedianDays as real * DAY, c.timeToMedianDays * day;
      SlideIsOnTheWay(s.initialPrice, s.medianPrice, Seconds(t), length, t, d);
      if TimedPrice(s, c, now, p) { OnTheWayIsOne(s.initialPrice, s.medianPrice, t, d, p, r); }
    } else if SinceHold(s, c, now) >= 0.0 {
      var t, r := now - s.timeAtMedian - c.postMedianTime * 1000000000, AfterMedian(s, c, now);
      var length, d := c.timeToLowerDays as real * DAY, c.timeToLowerDays * day;
      SlideIsOnTheWay(s.medianPrice, s.lowPrice, SinceHold(s, c, now), length, t, d);
      if TimedPrice(s, c, now, p) { OnTheWayIsOne(s.medianPrice, s.lowPrice, t, d, p, r); }
    }
  }

  lemma {:induction false} CyclesAre(s: SaleInfo, c: SaleConfig, now: int, n: int)
    requires c.postMedianReductionFrequency > 0
    ensures CyclesBegun(s, c, now, n) <==> n == Cycles(s, c, now)
  {
    var t, cycle := now - s.timeAtMedian - c.postMedianTime * 1000000000, c.postMedianReductionFrequency * 1000000000;
    var f := c.postMedianReductionFrequency as real;
    var x := SinceHold(s, c, now) / f;
    assert x * f == SinceHold(s, c, now);
    assert x * (f * 1000000000.0) == t as real;
    FloorIsQuotient(x, t, cycle);
    var m := Cycles(s, c, now);
    if CyclesBegun(s, c, now, n) {
      CancelTimes(n - 1, m, cycle);
      CancelTimes(m - 1, n, cycle);
    }
  }

  lemma {:induction false} SteppedPriceIs(s: SaleInfo, c: SaleConfig, now: int, p: int)
    ensures PostMedianStep(s, c, now) == NewPrice(p) <==> SteppedPrice(s, c, now, p)
  {
    if c.postMedianReductionFrequency > 0 {
      forall n ensures CyclesBegun(s, c, now, n) <==> n == Cycles(s, c, now) { CyclesAre(s, c, now, n); }
      assert CyclesBegun(s, c, now, Cycles(s, c, now));
    }
  }

  /** An adjustment finds a price exactly if it is the one that the strategy asks for. */
  lemma {:induction false} AdjustPriceIs(s: SaleInfo, c: SaleConfig, ut: UpdateType, now: int, p: int)
    ensures AdjustPrice(s, c, ut, now) == NewPrice(p) <==> PriceIs(s, c, ut, now, p)
  {
    TimedPriceIs(s, c, now, p);
    SteppedPriceIs(s, c, now, p);
  }

  /** The milestones a new price may reach. */
  function Stamped(s: SaleInfo, c: SaleConfig, ut: UpdateType, price: int, now: int): SaleInfo {
    s.(timeAtMedian := if Reduces(ut) && price == s.medianPrice && s.timeAtMedian == 0 then now else s.timeAtMedian,
       timeAtLow := if GoesLow(ut) && price == s.lowPrice && s.timeAtLow == 0 then now else s.timeAtLow,
       timeAtStale :=
         if ut.ToMedianThenLowThenStale? && price == c.staleBound && s.timeAtStale == 0 then now else s.timeAtStale)
  }

  function EffectiveType(s: SaleInfo, ut: UpdateType): UpdateType {
    if s.updateOverride.UnknownUpdate? then ut else s.updateOverride
  }

  /** Whether the adjustment loop acts on a sale at all. */
  predicate Adjustable(s: SaleInfo, c: SaleConfig, now: int) {
    && s.state == ForSale
    && now - s.lastPriceUpdate > c.updateFrequency * 1000000000
    && s.condition != "" && s.sleeveCondition != ""
  }

  /** One sale in AdjustSales: the sale as saved, and the price update it queues. */
  function AdjustSale(s: SaleInfo, c: SaleConfig, ut: UpdateType, now: int): (SaleInfo, seq<int>) {
    if !Adjustable(s, c, now) then (s, [])
    else
      match AdjustPrice(s, c, EffectiveType(s, ut), now)
      case NewPrice(p) => (Stamped(s, c, EffectiveType(s, ut), p, now), [p])
      case _ => (s, [])
  }

  /** The first time that a price of the strategy is the median, the low price or the stale bound is kept. */
  predicate MilestonesKept(s: SaleInfo, c: SaleConfig, ut: UpdateType, price: int, now: int, n: SaleInfo) {
    && n == s.(timeAtMedian := n.timeAtMedian, timeAtLow := n.timeAtLow, timeAtStale := n.timeAtStale)
    && (n.timeAtMedian != s.timeAtMedian ==> s.timeAtMedian == 0 && n.timeAtMedian == now)
    && (n.timeAtLow != s.timeAtLow ==> s.timeAtLow == 0 && n.timeAtLow == now)
    && (n.timeAtStale != s.timeAtStale ==> s.timeAtStale == 0 && n.timeAtStale == now)
    && (now != 0 && s.timeAtMedian == 0 ==>
          (n.timeAtMedian == now <==>
             price == s.medianPrice && ut in {ToMedian, ToMedianThenLow, ToMedianThenLowThenStale}))
    && (now != 0 && s.timeAtLow == 0 ==>
          (n.timeAtLow == now <==> price == s.lowPrice && ut in {ToMedianThenLow, ToMedianThenLowThenStale}))
    && (now != 0 && s.timeAtStale == 0 ==>
          (n.timeAtStale == now <==> price == c.staleBound && ut == ToMedianThenLowThenStale))
  }

  /**
   * One sale in AdjustSales: the price queued is the one that its own strategy, or else `ut`, asks for, if the sale is
   * due, on the market and graded; and the milestones follow that price.
   */
  ghost predicate Adjusted(s: SaleInfo, c: SaleConfig, ut: UpdateType, now: int, n: SaleInfo, queued: seq<int>) {
    var own := if s.updateOverride == UnknownUpdate then ut else s.updateOverride;
    var due := s.state == ForSale && now - s.lastPriceUpdate > c.updateFrequency * 1000000000
      && s.condition != "" && s.sleeveCondition != "";
    && (forall p :: queued == [p] <==> due && PriceIs(s, c, own, now, p))
    && if |queued| == 1 then MilestonesKept(s, c, own, queued[0], now, n) else queued == [] && n == s
  }

  lemma {:induction false} AdjustSaleIs(s: SaleInfo, c: SaleConfig, ut: UpdateType, now: int)
    ensures Adjusted(s, c, ut, now, AdjustSale(s, c, ut, now).0, AdjustSale(s, c, ut, now).1)
  {
    var own := EffectiveType(s, ut);
    forall p ensures AdjustPrice(s, c, own, now) == NewPrice(p) <==> PriceIs(s, c, own, now, p) {
      AdjustPriceIs(s, c, own, now, p);
    }
  }

  /** A sale that is due for an adjustment, but whose conditions are not known: a refresh is queued instead. */
  predicate LacksCondition(s: SaleInfo, c: SaleConfig, now: int) {
    && s.state == ForSale
    && now - s.lastPriceUpdate > c.updateFrequency * 1000000000
    && (s.condition == "" || s.sleeveCondition == "")
  }

  /** The body of the adjustment loop for one sale. */
  method AdjustOne(s: SaleInfo, c: SaleConfig, ut: UpdateType, now: int)
    returns (n: SaleInfo, queued: seq<int>, refresh: bool)
    ensures (n, queued) == AdjustSale(s, c, ut, now) && Adjusted(s, c, ut, now, n, queued)
    ensures refresh <==>
      && s.state == ForSale && now - s.lastPriceUpdate > c.updateFrequency * 1000000000
      && (s.condition == "" || s.sleeveCondition == "")
  {
    AdjustSaleIs(s, c, ut, now);
    n, queued, refresh := s, [], false;
    if n.state == ForSale {
      var updateType := ut;
      if !n.updateOverride.UnknownUpdate? { updateType := n.updateOverride; }
      if now - n.lastPriceUpdate > c.updateFrequency * 1000000000 {
        if n.condition == "" || n.sleeveCondition == "" {
          refresh := true;
          return;
        }
        var a := AdjustPrice(n, c, updateType, now);
        if !a.NewPrice? { return; }
        if Reduces(updateType) && a.value == n.medianPrice && n.timeAtMedian == 0 { n := n.(timeAtMedian := now); }
        if GoesLow(updateType) && a.value == n.lowPrice && n.timeAtLow == 0 { n := n.(timeAtLow := now); }
        if updateType.ToMedianThenLowThenStale? && a.value == c.staleBound && n.timeAtStale == 0 {
          n := n.(timeAtStale := now);
        }
        queued := [a.value];
      }
    }
  }

  /**
   * The loop over all stored sales; `queued` collects the price updates by sale, and `refreshes` the sales for which a
   * refresh is queued.
   */
  method AdjustSales(db: SaleStore, order: seq<int>, c: SaleConfig, ut: UpdateType, now: int)
    returns (n: SaleStore, queued: map<int, seq<int>>, refreshes: set<int>)
    requires forall k :: k in order <==> k in db
    requires forall i, j :: 0 <= i < j < |order| ==> order[i] != order[j]
    ensures forall k :: (k in n <==> k in db) && (k in queued <==> k in db)
    ensures forall k <- db :: (n[k], queued[k]) == AdjustSale(db[k], c, ut, now)
    ensures forall k <- db :: Adjusted(db[k], c, ut, now, n[k], queued[k])
    ensures forall k :: k in refreshes <==> k in db && LacksCondition(db[k], c, now)
  {
    n, queued, refreshes := db, map[], {};
    for i := 0 to |order|
      invariant forall k :: (k in n <==> k in db) && (k in queued <==> k in order[..i])
      invariant forall k <- db ::
        if k in order[..i] then (n[k], queued[k]) == AdjustSale(db[k], c, ut, now) else n[k] == db[k]
      invariant forall k :: k in refreshes <==> k in order[..i] && LacksCondition(db[k], c, now)
    {
      var id := order[i];
      assert id in order && id in db;
      assert id !in order[..i] && order[..i + 1] == order[..i] + [id];
      var sale, updates, refresh := AdjustOne(n[id], c, ut, now);
      n, queued := n[id := sale], queued[id := updates];
      if refresh { refreshes := refreshes + {id}; }
    }
    assert order[..|order|] == order;
    forall k <- db { AdjustSaleIs(db[k], c, ut, now); }
  }

  /** How Discogs answers a price update. */
  datatype Answer = Updated | NotForSale

  function PriceSet(s: SaleInfo, price: int, answer: Answer, now: int): SaleInfo {
    if s.currentPrice.value == price then s.(lastPriceUpdate := now)
    else if answer.NotForSale? then s
    else
      s.(currentPrice := s.currentPrice.(value := price), updates := s.updates + [PriceUpdate(now, price)],
         lastPriceUpdate := now)
  }

  /** Carrying out a queued price update: nothing is asked of Discogs when the price is set already. */
  method UpdateSalePrice(s: SaleInfo, price: int, answer: Answer, now: int) returns (n: SaleInfo, asked: bool)
    ensures n == PriceSet(s, price, answer, now)
    ensures asked <==> s.currentPrice.value != price
    ensures n == s.(currentPrice := n.currentPrice, updates := n.updates, lastPriceUpdate := n.lastPriceUpdate)
    ensures n.currentPrice == s.currentPrice.(value := if answer.Updated? then price else s.currentPrice.value)
    ensures n.updates == s.updates + (if asked && answer.Updated? then [PriceUpdate(now, price)] else [])
    ensures n.lastPriceUpdate == if asked && answer.NotForSale? then s.lastPriceUpdate else now
  {
    n, asked := s, false;
    if n.currentPrice.value == price {
      n := n.(lastPriceUpdate := now);
      return;
    }
    asked := true;
    if answer.NotForSale? { return; }
    n := n.(currentPrice := n.currentPrice.(value := price));
    n := n.(updates := n.updates + [PriceUpdate(now, price)]);
    n := n.(lastPriceUpdate := now);
  }
}
