/** tidyUpdates: dropping repeated prices from the history of a sale (background/sales.go). */
module PriceHistory {
  import StableSorting
  import opened SalesModel

  function ByDate(): (PriceUpdate, PriceUpdate) -> bool {
    (a: PriceUpdate, b: PriceUpdate) => a.date < b.date
  }

  function SortUpdates(us: seq<PriceUpdate>): seq<PriceUpdate> {
    StableSorting.Sort(ByDate(), us)
  }

  /** Keeps the updates that change the price, starting from `price`. */
  function Changes(price: int, us: seq<PriceUpdate>): seq<PriceUpdate>
    decreases |us|
  {
    if us == [] then []
    else if us[0].price != price then [us[0]] + Changes(us[0].price, us[1..])
    else Changes(price, us[1..])
  }

  /** The loop starts from a price of -100. */
  const SENTINEL := -100

  function Tidy(us: seq<PriceUpdate>): seq<PriceUpdate> {
    Changes(SENTINEL, SortUpdates(us))
  }

  method TidyUpdates(us: seq<PriceUpdate>) returns (nupdates: seq<PriceUpdate>)
    ensures nupdates == Tidy(us)
  {
    var updates := SortUpdates(us);
    nupdates := [];
    var currPrice := SENTINEL;
    for i := 0 to |updates|
      invariant nupdates + Changes(currPrice, updates[i..]) == Tidy(us)
    {
      assert updates[i..][0] == updates[i] && updates[i..][1..] == updates[i + 1..];
      if currPrice != updates[i].price {
        assert nupdates + ([updates[i]] + Changes(updates[i].price, updates[i + 1..]))
            == (nupdates + [updates[i]]) + Changes(updates[i].price, updates[i + 1..]);
        nupdates := nupdates + [updates[i]];
        currPrice := updates[i].price;
      }
    }
    assert updates[|updates|..] == [];
  }

  /** The price a history shows at time `t`: that of the last update up to then, or `before` if there is none. */
  function PriceAt(before: int, us: seq<PriceUpdate>, t: int): int {
    if us == [] then before
    else if us[|us| - 1].date <= t then us[|us| - 1].price
    else PriceAt(before, us[..|us| - 1], t)
  }

  ghost predicate InOrder(us: seq<PriceUpdate>) {
    forall i, j :: 0 <= i < j < |us| ==> us[i].date <= us[j].date
  }

  lemma {:induction false} PriceAtFront(before: int, us: seq<PriceUpdate>, t: int)
    requires us != [] && InOrder(us)
    ensures PriceAt(before, us, t) == if us[0].date <= t then PriceAt(us[0].price, us[1..], t) else before
  {
    if |us| == 1 {
      assert us[..0] == [];
    } else {
      var init := us[..|us| - 1];
      PriceAtFront(before, init, t);
      assert init[1..] == us[1..][..|us| - 2];
      if us[0].date > t {
        Nothing(before, us, t);
      }
    }
  }

  lemma {:induction false} Nothing(before: int, us: seq<PriceUpdate>, t: int)
    requires forall i :: 0 <= i < |us| ==> us[i].date > t
    ensures PriceAt(before, us, t) == before
  {
    if us != [] { Nothing(before, us[..|us| - 1], t); }
  }

  lemma {:induction false} ChangesSubset(price: int, us: seq<PriceUpdate>)
    ensures forall u <- Changes(price, us) :: u in us
    ensures InOrder(us) ==> InOrder(Changes(price, us))
    decreases |us|
  {
    if us != [] {
      var rest := us[1..];
      ChangesSubset(if us[0].price != price then us[0].price else price, rest);
      if InOrder(us) && us[0].price != price {
        var tail := Changes(us[0].price, rest);
        forall j | 0 <= j < |tail| ensures us[0].date <= tail[j].date {
          assert tail[j] in rest;
        }
      }
    }
  }

  lemma {:induction false} ChangesKeepPrices(price: int, us: seq<PriceUpdate>, t: int)
    requires InOrder(us)
    ensures PriceAt(price, Changes(price, us), t) == PriceAt(price, us, t)
    decreases |us|
  {
    if us != [] {
      PriceAtFront(price, us, t);
      ChangesSubset(price, us);
      if us[0].price != price {
        ChangesKeepPrices(us[0].price, us[1..], t);
        PriceAtFront(price, Changes(price, us), t);
      } else {
        ChangesKeepPrices(price, us[1..], t);
        if us[0].date > t {
          Nothing(price, Changes(price, us), t) by {
            forall i | 0 <= i < |Changes(price, us)| ensures Changes(price, us)[i].date > t {
              assert Changes(price, us)[i] in us;
            }
          }
        }
      }
    }
  }

  /** Tidying keeps the price the history shows at every time, taking -100 as the price before the first update. */
  lemma {:induction false} TidyKeepsPrices(us: seq<PriceUpdate>, t: int)
    ensures PriceAt(-100, Tidy(us), t) == PriceAt(-100, SortUpdates(us), t)
  {
    SortedInOrder(us);
    ChangesKeepPrices(SENTINEL, SortUpdates(us), t);
  }

  lemma {:induction false} SortedInOrder(us: seq<PriceUpdate>)
    ensures InOrder(SortUpdates(us))
  {
    assert StableSorting.StrictWeakOrder(ByDate());
    StableSorting.SortSorts(ByDate(), us);
    forall i, j | 0 <= i < j < |SortUpdates(us)| ensures SortUpdates(us)[i].date <= SortUpdates(us)[j].date {
      assert !ByDate()(SortUpdates(us)[j], SortUpdates(us)[i]);
    }
  }

  /** And it keeps nothing more: neighbouring prices differ. */
  lemma {:induction false} ChangesAreMinimal(price: int, us: seq<PriceUpdate>)
    ensures var c := Changes(price, us);
      (c != [] ==> c[0].price != price) && forall i :: 0 <= i < |c| - 1 ==> c[i].price != c[i + 1].price
    decreases |us|
  {
    if us != [] {
      ChangesAreMinimal(if us[0].price != price then us[0].price else price, us[1..]);
    }
  }
}
