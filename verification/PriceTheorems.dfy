/** Runs of price adjustments and updates under REDUCE_TO_MEDIAN_AND_THEN_LOW (background/sales.go). */
module PriceTheorems {
  import opened SalesModel
  import opened SalePrices

  /** One sale and the price updates queued for it, oldest first. */
  datatype Priced = Priced(sale: SaleInfo, pending: seq<int>)

  datatype Event = Adjust(now: int) | Apply(now: int, answer: Answer)

  function After(x: Priced, c: SaleConfig, e: Event): Priced {
    match e
    case Adjust(now) =>
      var r := AdjustSale(x.sale, c, ToMedianThenLow, now);
      Priced(r.0, x.pending + r.1)
    case Apply(now, answer) =>
      if x.pending == [] then x else Priced(PriceSet(x.sale, x.pending[0], answer, now), x.pending[1..])
  }

  predicate Timed(c: SaleConfig) { c.timeToMedianDays > 0 }

  /** The price a sale must never fall below. */
  function PriceFloor(s: SaleInfo, c: SaleConfig): int {
    if Timed(c) then s.lowPrice else Bound(s, c)
  }

  /**
   * Fixed configuration: lower bound <= median, and no negative steps or times. Only timed reductions read
   * the initial price, and need median <= initial price.
   */
  predicate Sane(s: SaleInfo, c: SaleConfig) {
    && PriceFloor(s, c) <= s.medianPrice
    && c.reduction >= 0
    && (Timed(c) ==> c.timeToLowerDays >= 0 && s.medianPrice <= s.initialPrice)
    && EffectiveType(s, ToMedianThenLow) == ToMedianThenLow
  }

  // ---- Timed prices ----

  lemma {:induction false} DivideMonotone(a: real, b: real, d: real)
    requires a <= b && d > 0.0
    ensures a / d <= b / d
    ensures a >= 0.0 ==> a / d >= 0.0
  {
  }

  lemma {:induction false} ScaleMonotone(k: real, a: real, b: real, x: real, y: real)
    requires k >= 0.0 && a <= b && x == k * a && y == k * b
    ensures x <= y
  {
  }

  lemma {:induction false} PartMonotone(k: int, p: real, q: real)
    requires k >= 0 && 0.0 <= p <= q <= 1.0
    ensures 0 <= Part(k, p) <= Part(k, q) <= k
  {
    var r := k as real;
    var x, y := r * p, r * q;
    ScaleMonotone(r, 0.0, p, 0.0, x);
    ScaleMonotone(r, p, q, x, y);
    ScaleMonotone(r, q, 1.0, y, r);
    assert Part(k, p) == Truncate(x) && Part(k, q) == Truncate(y);
  }

  lemma {:induction false} PartNegated(k: int, p: real)
    requires k >= 0 && p >= 0.0
    ensures Part(-k, p) == -Part(k, p)
  {
    var x := k as real * p;
    ScaleMonotone(k as real, 0.0, p, 0.0, x);
    assert (-k) as real * p == -x;
  }

  lemma {:induction false} ShareMonotone(a: real, b: real, length: real)
    requires 0.0 <= a <= b && length >= 0.0
    ensures 0.0 <= Share(a, length) <= Share(b, length) <= 1.0
  {
    if length > 0.0 { DivideMonotone(a, b, length); }
  }

  /** A timed price runs from its start to its end, and never turns back. */
  lemma {:induction false} SlidingPrice(start: int, end: int, a: real, b: real, length: real)
    requires 0.0 <= a <= b && length >= 0.0
    ensures start >= end ==> start >= Slide(start, end, a, length) >= Slide(start, end, b, length) >= end
    ensures start <= end ==> start <= Slide(start, end, a, length) <= Slide(start, end, b, length) <= end
  {
    ShareMonotone(a, b, length);
    if start >= end {
      PartMonotone(start - end, Share(a, length), Share(b, length));
    } else {
      PartMonotone(end - start, Share(a, length), Share(b, length));
      PartNegated(end - start, Share(a, length));
      PartNegated(end - start, Share(b, length));
    }
  }

  lemma {:induction false} BeforeMedianFalls(s: SaleInfo, c: SaleConfig, a: int, b: int)
    requires Timed(c) && s.medianPrice <= s.initialPrice && s.listedDate <= a <= b
    ensures s.initialPrice >= BeforeMedian(s, c, a) >= BeforeMedian(s, c, b) >= s.medianPrice
  {
    var length := c.timeToMedianDays as real * DAY;
    SlidingPrice(s.initialPrice, s.medianPrice, Seconds(a - s.listedDate), Seconds(b - s.listedDate), length);
  }

  lemma {:induction false} AfterMedianFalls(s: SaleInfo, c: SaleConfig, a: int, b: int)
    requires c.timeToLowerDays >= 0 && s.lowPrice <= s.medianPrice && a <= b && SinceHold(s, c, a) >= 0.0
    ensures s.medianPrice >= AfterMedian(s, c, a) >= AfterMedian(s, c, b) >= s.lowPrice
  {
    var length := c.timeToLowerDays as real * DAY;
    SlidingPrice(s.medianPrice, s.lowPrice, SinceHold(s, c, a), SinceHold(s, c, b), length);
  }

  lemma {:induction false} StepsDown(s: SaleInfo, c: SaleConfig, a: int, b: int)
    requires a <= b && c.postMedianReductionFrequency > 0 && c.postMedianReduction > 0
    ensures StepDown(s, c, b) <= StepDown(s, c, a)
  {
    DivideMonotone(SinceHold(s, c, a), SinceHold(s, c, b), c.postMedianReductionFrequency as real);
    var x, y, r := Cycles(s, c, a), Cycles(s, c, b), c.postMedianReduction;
    assert x * r <= y * r;
  }

  lemma {:induction false} StepsBelowMedian(s: SaleInfo, c: SaleConfig, now: int)
    requires PastHold(s, c, now) && c.postMedianReductionFrequency > 0 && Bound(s, c) <= s.medianPrice
    ensures StepDown(s, c, now) <= s.medianPrice
  {
    DivideMonotone(0.0, SinceHold(s, c, now), c.postMedianReductionFrequency as real);
    var x, r := Cycles(s, c, now), c.postMedianReduction;
    assert x * r >= 0;
  }

  // ---- What every run keeps ----

  /** The sale reached its median price, and has been held there for the configured time. */
  predicate HoldIsOver(s: SaleInfo, c: SaleConfig, now: int) {
    s.timeAtMedian > 0 && SinceHold(s, c, now) >= 0.0
  }

  predicate InHold(s: SaleInfo, c: SaleConfig, now: int) {
    Timed(c) && s.timeAtMedian != 0 && SinceHold(s, c, now) < 0.0
  }

  /** The price has the headroom that all later adjustments rely on. */
  ghost predicate Headroom(s: SaleInfo, c: SaleConfig, price: int, now: int) {
    && price >= PriceFloor(s, c)
    && 0 <= s.timeAtMedian <= now
    && (price < s.medianPrice ==> if Timed(c) then HoldIsOver(s, c, now) else PastHold(s, c, now))
    && (Timed(c) && s.timeAtMedian == 0 ==> price >= BeforeMedian(s, c, now))
    && (Timed(c) && HoldIsOver(s, c, now) ==> price >= AfterMedian(s, c, now))
    && (!Timed(c) && PastHold(s, c, now) && PostMedianStep(s, c, now).NewPrice? ==> price >= StepDown(s, c, now))
  }

  /** Queued prices go down, from the current price on. */
  ghost predicate Falling(x: Priced) {
    && (forall p <- x.pending :: p <= x.sale.currentPrice.value)
    && (forall i, j :: 0 <= i < j < |x.pending| ==> x.pending[i] >= x.pending[j])
  }

  /** The next price on the way to the median, in steps. */
  function NextStep(s: SaleInfo, c: SaleConfig): int {
    Max(s.currentPrice.value - c.reduction, s.medianPrice)
  }

  ghost predicate Steady(x: Priced, c: SaleConfig, now: int) {
    && Sane(x.sale, c) && x.sale.listedDate <= now && 0 < now
    && Headroom(x.sale, c, x.sale.currentPrice.value, now)
    && Falling(x)
    && (forall p <- x.pending :: Headroom(x.sale, c, p, now))
    && (!Timed(c) && !PastHold(x.sale, c, now) ==> forall p <- x.pending :: p >= NextStep(x.sale, c))
  }

  /** Headroom does not run out by waiting. */
  lemma {:induction false} HeadroomLasts(s: SaleInfo, c: SaleConfig, price: int, a: int, b: int)
    requires Sane(s, c) && a <= b && s.listedDate <= a && Headroom(s, c, price, a)
    ensures Headroom(s, c, price, b)
  {
    assert SinceHold(s, c, a) <= SinceHold(s, c, b);
    if Timed(c) {
      if s.timeAtMedian == 0 {
        BeforeMedianFalls(s, c, a, b);
      } else if SinceHold(s, c, a) >= 0.0 {
        AfterMedianFalls(s, c, a, b);
      } else if SinceHold(s, c, b) >= 0.0 {
        AfterMedianFalls(s, c, b, b);
      }
    } else if PastHold(s, c, b) && PostMedianStep(s, c, b).NewPrice? {
      StepsBelowMedian(s, c, b);
      if PastHold(s, c, a) { StepsDown(s, c, a, b); }
    }
  }

  lemma {:induction false} SteadyLasts(x: Priced, c: SaleConfig, a: int, b: int)
    requires Steady(x, c, a) && a <= b
    ensures Steady(x, c, b)
  {
    HeadroomLasts(x.sale, c, x.sale.currentPrice.value, a, b);
    forall p <- x.pending ensures Headroom(x.sale, c, p, b) { HeadroomLasts(x.sale, c, p, a, b); }
    assert PastHold(x.sale, c, a) ==> PastHold(x.sale, c, b);
  }

  /** A new price has headroom itself. */
  lemma {:induction false} NewPriceHasHeadroom(s: SaleInfo, c: SaleConfig, now: int, p: int)
    requires Sane(s, c) && s.listedDate <= now && Headroom(s, c, s.currentPrice.value, now)
    requires AdjustPrice(s, c, ToMedianThenLow, now) == NewPrice(p)
    ensures Headroom(s, c, p, now)
  {
    if Timed(c) {
      if s.timeAtMedian == 0 {
        BeforeMedianFalls(s, c, now, now);
      } else if SinceHold(s, c, now) >= 0.0 {
        AfterMedianFalls(s, c, now, now);
      }
    }
  }

  /** Outside the hold, a new price is no higher than any price with headroom. */
  lemma {:induction false} NewPriceIsLowest(s: SaleInfo, c: SaleConfig, now: int, p: int, q: int)
    requires AdjustPrice(s, c, ToMedianThenLow, now) == NewPrice(p) && !InHold(s, c, now) && Headroom(s, c, q, now)
    requires !Timed(c) && !PastHold(s, c, now) ==> q >= NextStep(s, c)
    ensures p <= q
  {
  }

  /** Noting that the median price is reached takes no headroom away. */
  lemma {:induction false} StampKeepsHeadroom(s: SaleInfo, c: SaleConfig, now: int, p: int, q: int)
    requires Sane(s, c) && 0 < now && Headroom(s, c, q, now)
    ensures Headroom(Stamped(s, c, ToMedianThenLow, p, now), c, q, now)
  {
    var n := Stamped(s, c, ToMedianThenLow, p, now);
    if n.timeAtMedian != s.timeAtMedian {
      if Timed(c) {
        if SinceHold(n, c, now) >= 0.0 { AfterMedianFalls(n, c, now, now); }
      } else if PastHold(n, c, now) && PostMedianStep(n, c, now).NewPrice? {
        StepsBelowMedian(n, c, now);
      }
    }
  }

  // ---- Overtaking ----

  /** An adjustment during the hold, while an update to a lower price is queued. */
  ghost predicate Overtakes(x: Priced, c: SaleConfig, now: int) {
    && Adjustable(x.sale, c, now) && x.sale.medianPrice != 0 && InHold(x.sale, c, now)
    && exists p <- x.pending :: p < x.sale.currentPrice.value
  }

  /** The state after the first `k` queued updates, with Discogs agreeing to each. */
  function CarriedOut(x: Priced, c: SaleConfig, now: int, k: nat): Priced {
    if k == 0 then x else After(CarriedOut(x, c, now, k - 1), c, Apply(now, Updated))
  }

  ghost predicate RisesAt(x: Priced, c: SaleConfig, now: int, k: nat) {
    CarriedOut(x, c, now, k + 1).sale.currentPrice.value > CarriedOut(x, c, now, k).sale.currentPrice.value
  }

  lemma {:induction false} CarriedPrice(x: Priced, c: SaleConfig, now: int, k: nat)
    requires k <= |x.pending|
    ensures var y := CarriedOut(x, c, now, k);
      y.pending == x.pending[k..]
      && y.sale.currentPrice.value == if k == 0 then x.sale.currentPrice.value else x.pending[k - 1]
  {
    if k > 0 { CarriedPrice(x, c, now, k - 1); }
  }

  lemma {:induction false} AdjustedInHold(x: Priced, c: SaleConfig, now: int)
    requires Adjustable(x.sale, c, now) && x.sale.medianPrice != 0 && InHold(x.sale, c, now)
    requires EffectiveType(x.sale, ToMedianThenLow) == ToMedianThenLow
    ensures var y := After(x, c, Adjust(now));
      y.pending == x.pending + [x.sale.currentPrice.value] && y.sale.currentPrice == x.sale.currentPrice
  {
  }

  lemma {:induction false} OnlyTheLastRises(x: Priced, y: Priced, c: SaleConfig, now: int, k: nat)
    requires Falling(x) && y.sale.currentPrice == x.sale.currentPrice && k <= |x.pending|
    requires y.pending == x.pending + [x.sale.currentPrice.value]
    ensures RisesAt(y, c, now, k) <==> k == |x.pending| > 0 && x.pending[k - 1] < x.sale.currentPrice.value
  {
    CarriedPrice(y, c, now, k);
    CarriedPrice(y, c, now, k + 1);
    if k < |x.pending| {
      var p := x.pending[k];
      assert p in x.pending;
    }
  }

  /**
   * An adjustment during the hold raises the price, once its update and those before it are carried out,
   * if and only if it overtakes the update to a lower price.
   */
  lemma {:induction false} OvertakingRaisesIff(x: Priced, c: SaleConfig, now: int)
    requires Adjustable(x.sale, c, now) && x.sale.medianPrice != 0 && InHold(x.sale, c, now)
    requires EffectiveType(x.sale, ToMedianThenLow) == ToMedianThenLow && Falling(x)
    ensures var y := After(x, c, Adjust(now));
      (exists k: nat :: k < |y.pending| && RisesAt(y, c, now, k)) <==> Overtakes(x, c, now)
  {
    var y, n, price := After(x, c, Adjust(now)), |x.pending|, x.sale.currentPrice.value;
    AdjustedInHold(x, c, now);
    forall k: nat | k <= n ensures RisesAt(y, c, now, k) <==> k == n > 0 && x.pending[n - 1] < price {
      OnlyTheLastRises(x, y, c, now, k);
    }
    if Overtakes(x, c, now) {
      var p :| p in x.pending && p < price;
      var i :| 0 <= i < n && x.pending[i] == p;
      assert x.pending[n - 1] <= p;
      assert RisesAt(y, c, now, n);
    }
    if k: nat :| k < |y.pending| && RisesAt(y, c, now, k) {
      assert x.pending[n - 1] in x.pending;
    }
  }

  // ---- Runs ----

  lemma {:induction false} AdjustKeepsSteady(x: Priced, c: SaleConfig, now: int)
    requires Steady(x, c, now) && !Overtakes(x, c, now)
    ensures Steady(After(x, c, Adjust(now)), c, now)
    ensures After(x, c, Adjust(now)).sale.currentPrice == x.sale.currentPrice
  {
    var s := x.sale;
    if Adjustable(s, c, now) && AdjustPrice(s, c, ToMedianThenLow, now).NewPrice? {
      var p := AdjustPrice(s, c, ToMedianThenLow, now).value;
      var n := Stamped(s, c, ToMedianThenLow, p, now);
      NewPriceHasHeadroom(s, c, now, p);
      forall q | q == p || q == s.currentPrice.value || q in x.pending ensures Headroom(n, c, q, now) {
        StampKeepsHeadroom(s, c, now, p, q);
      }
      forall q | q == s.currentPrice.value || q in x.pending ensures p <= q {
        if InHold(s, c, now) {
          assert p == s.currentPrice.value;
          assert q in x.pending && q < p ==> Overtakes(x, c, now);
        } else {
          NewPriceIsLowest(s, c, now, p, q);
        }
      }
      FallingOn(x, n, p);
    }
  }

  lemma {:induction false} FallingOn(x: Priced, n: SaleInfo, p: int)
    requires Falling(x) && n.currentPrice == x.sale.currentPrice && p <= n.currentPrice.value
    requires forall q <- x.pending :: p <= q
    ensures Falling(Priced(n, x.pending + [p]))
  {
    forall i | 0 <= i < |x.pending| ensures x.pending[i] >= p {
      var q := x.pending[i];
      assert q in x.pending;
    }
  }

  lemma {:induction false} SamePrices(s: SaleInfo, n: SaleInfo, c: SaleConfig, q: int, now: int)
    requires Headroom(s, c, q, now)
    requires n == s.(currentPrice := n.currentPrice, updates := n.updates, lastPriceUpdate := n.lastPriceUpdate)
    ensures Headroom(n, c, q, now)
  {
  }

  lemma {:induction false} ApplyKeepsSteady(x: Priced, c: SaleConfig, now: int, answer: Answer)
    requires Steady(x, c, now)
    ensures Steady(After(x, c, Apply(now, answer)), c, now)
    ensures After(x, c, Apply(now, answer)).sale.currentPrice.value <= x.sale.currentPrice.value
  {
    if x.pending != [] {
      var y := After(x, c, Apply(now, answer));
      assert x.pending[0] in x.pending;
      forall q <- y.pending ensures q in x.pending && q <= x.pending[0] {
      }
      forall q | q == y.sale.currentPrice.value || q in y.pending ensures Headroom(y.sale, c, q, now) {
        SamePrices(x.sale, y.sale, c, q, now);
      }
    }
  }

  lemma {:induction false} AfterKeepsSteady(x: Priced, c: SaleConfig, e: Event, before: int)
    requires Steady(x, c, before) && before <= e.now && (e.Adjust? ==> !Overtakes(x, c, e.now))
    ensures Steady(After(x, c, e), c, e.now)
    ensures After(x, c, e).sale.currentPrice.value <= x.sale.currentPrice.value
  {
    SteadyLasts(x, c, before, e.now);
    match e
    case Adjust(now) => AdjustKeepsSteady(x, c, now);
    case Apply(now, answer) => ApplyKeepsSteady(x, c, now, answer);
  }

  function TimeBefore(events: seq<Event>, i: nat, start: int): int
    requires i <= |events|
  {
    if i == 0 then start else events[i - 1].now
  }

  /** Any sequence of adjustments and updates in time order. */
  ghost predicate IsHistory(states: seq<Priced>, events: seq<Event>, c: SaleConfig, start: int) {
    && |states| == |events| + 1
    && (forall i :: 0 <= i < |events| ==> states[i + 1] == After(states[i], c, events[i]))
    && (forall i :: 0 <= i < |events| ==> TimeBefore(events, i, start) <= events[i].now)
  }

  /** Any run of adjustments and updates in which no adjustment overtakes a queued update. */
  ghost predicate IsRun(states: seq<Priced>, events: seq<Event>, c: SaleConfig, start: int) {
    && IsHistory(states, events, c, start)
    && (forall i :: 0 <= i < |events| && events[i].Adjust? ==> !Overtakes(states[i], c, events[i].now))
  }

  lemma {:induction false} RunIsSteady(states: seq<Priced>, events: seq<Event>, c: SaleConfig, start: int, i: nat)
    requires IsRun(states, events, c, start) && i <= |events| && Steady(states[0], c, start)
    ensures Steady(states[i], c, TimeBefore(events, i, start))
    ensures i < |events| ==> states[i + 1].sale.currentPrice.value <= states[i].sale.currentPrice.value
  {
    if i > 0 {
      RunIsSteady(states, events, c, start, i - 1);
      AfterKeepsSteady(states[i - 1], c, events[i - 1], TimeBefore(events, i - 1, start));
    }
    if i < |events| {
      AfterKeepsSteady(states[i], c, events[i], TimeBefore(events, i, start));
    }
  }

  /** A sale as it starts out: listed, not yet at its median price, and priced no lower than its schedule says. */
  ghost predicate Starts(x: Priced, c: SaleConfig, now: int) {
    && Sane(x.sale, c) && x.sale.listedDate <= now && 0 < now
    && x.sale.timeAtMedian == 0 && x.pending == []
    && x.sale.currentPrice.value >= if Timed(c) then BeforeMedian(x.sale, c, now) else x.sale.medianPrice
  }

  /**
   * Along every run, in timed and stepped mode: the price never rises, never passes its lower bound, and is
   * below the median only once the sale has been held at the median for the configured time.
   */
  lemma {:induction false} PriceRuns(states: seq<Priced>, events: seq<Event>, c: SaleConfig, start: int, i: nat)
    requires IsRun(states, events, c, start) && i <= |events| && Starts(states[0], c, start)
    ensures var s := states[i].sale;
      && (i < |events| ==> states[i + 1].sale.currentPrice.value <= s.currentPrice.value)
      && PriceFloor(s, c) <= s.currentPrice.value
      && (s.currentPrice.value < s.medianPrice ==> HoldIsOver(s, c, TimeBefore(events, i, start)))
  {
    if Timed(c) { BeforeMedianFalls(states[0].sale, c, start, start); }
    RunIsSteady(states, events, c, start, i);
  }

  /** In stepped mode all of this holds along every sequence of events, however late the updates are carried out. */
  lemma {:induction false} SteppedPriceRuns(states: seq<Priced>, events: seq<Event>, c: SaleConfig, start: int, i: nat)
    requires !Timed(c) && IsHistory(states, events, c, start) && i <= |events| && Starts(states[0], c, start)
    ensures var s := states[i].sale;
      && (i < |events| ==> states[i + 1].sale.currentPrice.value <= s.currentPrice.value)
      && Bound(s, c) <= s.currentPrice.value
      && (s.currentPrice.value < s.medianPrice ==> HoldIsOver(s, c, TimeBefore(events, i, start)))
  {
    PriceRuns(states, events, c, start, i);
  }

  lemma {:induction false} SlideDone(start: int, end: int, elapsed: real, length: real)
    requires length > 0.0 && elapsed >= length
    ensures Slide(start, end, elapsed, length) == end
  {
    assert length / length == 1.0;
    DivideMonotone(length, elapsed, length);
    assert Part(start - end, 1.0) == start - end;
  }

  /**
   * How a sale comes to be overtaken: with two adjustments before the first update is carried out, it drops to its
   * median price and rises back again.
   */
  lemma {:induction false} LateUpdateRaisesPrice(s: SaleInfo, c: SaleConfig, now: int, later: int)
    requires Timed(c) && s.updateOverride.UnknownUpdate?
    requires s.lowPrice < s.medianPrice < s.currentPrice.value && s.medianPrice != 0
    requires s.timeAtMedian == 0 && 0 < now <= later && Adjustable(s, c, now) && Adjustable(s, c, later)
    requires Seconds(now - s.listedDate) >= c.timeToMedianDays as real * DAY
    requires Seconds(later - now) < c.postMedianTime as real
    ensures Overtakes(After(Priced(s, []), c, Adjust(now)), c, later)
    ensures var x2 := After(After(Priced(s, []), c, Adjust(now)), c, Adjust(later));
      var x3 := After(x2, c, Apply(later, Updated));
      var x4 := After(x3, c, Apply(later, Updated));
      && x2.pending == [s.medianPrice, s.currentPrice.value]
      && x3.sale.currentPrice.value == s.medianPrice
      && x4.sale.currentPrice.value == s.currentPrice.value > x3.sale.currentPrice.value
  {
    SlideDone(s.initialPrice, s.medianPrice, Seconds(now - s.listedDate), c.timeToMedianDays as real * DAY);
    var held := s.(timeAtMedian := now);
    assert AdjustSale(s, c, ToMedianThenLow, now) == (held, [s.medianPrice]);
    assert After(Priced(s, []), c, Adjust(now)) == Priced(held, [s.medianPrice]);
    assert SinceHold(held, c, later) < 0.0;
    var queued := [s.medianPrice];
    assert queued[0] in queued;
    assert AdjustSale(held, c, ToMedianThenLow, later) == (held, [s.currentPrice.value]);
    assert [s.medianPrice, s.currentPrice.value][1..] == [s.currentPrice.value];
  }

  // ---- Sales without a high enough initial price ----

  /** Before the full time is over, the scheduled price is at least the median exactly if the initial price is. */
  lemma {:induction false} ScheduleBelowMedianIff(s: SaleInfo, c: SaleConfig, now: int)
    requires Timed(c) && s.listedDate <= now && Seconds(now - s.listedDate) < c.timeToMedianDays as real * DAY
    ensures BeforeMedian(s, c, now) >= s.medianPrice <==> s.initialPrice >= s.medianPrice
  {
    var elapsed, length := Seconds(now - s.listedDate), c.timeToMedianDays as real * DAY;
    var share, k := Share(elapsed, length), s.medianPrice - s.initialPrice;
    if k <= 0 {
      BeforeMedianFalls(s, c, now, now);
    } else {
      NotAll(elapsed, length);
      PartNegated(k, share);
      NotWhole(k, share);
      assert s.initialPrice - s.medianPrice == -k;
    }
  }

  lemma {:induction false} NotAll(elapsed: real, length: real)
    requires 0.0 <= elapsed < length
    ensures 0.0 <= Share(elapsed, length) < 1.0
  {
    var q := elapsed / length;
    assert q * length == elapsed;
    DivideMonotone(0.0, elapsed, length);
    if q >= 1.0 { ScaleMonotone(length, 1.0, q, length, length * q); }
  }

  lemma {:induction false} NotWhole(k: int, share: real)
    requires k > 0 && 0.0 <= share < 1.0
    ensures Part(k, share) < k
  {
    var x := k as real * share;
    ScaleMonotone(k as real, 0.0, share, 0.0, x);
    assert k as real * (1.0 - share) > 0.0;
    assert k as real * (1.0 - share) == k as real - x;
    assert x.Floor < k;
  }

  /** And from an initial price below the median the schedule climbs. */
  lemma {:induction false} ScheduleClimbs(s: SaleInfo, c: SaleConfig, a: int, b: int)
    requires Timed(c) && s.initialPrice <= s.medianPrice && s.listedDate <= a <= b
    ensures s.initialPrice <= BeforeMedian(s, c, a) <= BeforeMedian(s, c, b) <= s.medianPrice
  {
    var length := c.timeToMedianDays as real * DAY;
    SlidingPrice(s.initialPrice, s.medianPrice, Seconds(a - s.listedDate), Seconds(b - s.listedDate), length);
  }

  /**
   * So a timed sale gets priced below its median before any hold if and only if its initial price is below the median.
   */
  lemma {:induction false} PricedBelowMedianIff(s: SaleInfo, c: SaleConfig, now: int)
    requires Timed(c) && EffectiveType(s, ToMedianThenLow) == ToMedianThenLow && Adjustable(s, c, now)
    requires s.timeAtMedian == 0 && s.medianPrice != 0 && s.listedDate <= now
    requires Seconds(now - s.listedDate) < c.timeToMedianDays as real * DAY
    ensures var n := After(After(Priced(s, []), c, Adjust(now)), c, Apply(now, Updated)).sale;
      n.currentPrice.value < n.medianPrice && n.timeAtMedian == 0 <==> s.initialPrice < s.medianPrice
  {
    ScheduleBelowMedianIff(s, c, now);
  }

  function Example(initial: int, price: int): SaleInfo {
    var at := Price(price, "");
    SaleInfo(1, 1, ForSale, 0, at, initial, 100, 60, "VG", "VG", [], 0, 0, 0, 0, 0, 0, 0, 0, UnknownUpdate)
  }

  /** One day to the median, a hold of 1000 seconds, one day to the low price. */
  const EXAMPLE_CONFIG := SaleConfig(0, 0, 1000, 0, 0, Static, 0, 1, 1, 0, 0, 0, 0)

  /** Nothing sets the initial price of a synchronised sale; with 0 the timed price starts near 0 and climbs. */
  lemma {:induction false} NoInitialPriceClimbs()
    ensures var c := EXAMPLE_CONFIG;
      var x1 := After(Priced(Example(0, 150), []), c, Adjust(43200000000000));
      var x2 := After(x1, c, Apply(43200000000001, Updated));
      var x4 := After(After(x2, c, Adjust(86400000000000)), c, Apply(86400000000001, Updated));
      && x2.sale.currentPrice.value == 50 && x2.sale.timeAtMedian == 0
      && x2.sale.currentPrice.value < PriceFloor(x2.sale, c)
      && x4.sale.currentPrice.value == 100
  {
    var c, s := EXAMPLE_CONFIG, Example(0, 150);
    assert Seconds(43200000000000) == 43200.0 && Seconds(86400000000000) == 86400.0;
    assert BeforeMedian(s, c, 43200000000000) == 50;
    var x2 := After(After(Priced(s, []), c, Adjust(43200000000000)), c, Apply(43200000000001, Updated));
    assert x2.sale.currentPrice.value == 50;
    assert BeforeMedian(x2.sale, c, 86400000000000) == 100;
  }
}
