/** Records, spaces and the width a group of records takes up (org/org.go). */
module ShelfModel {

  /** How records are ordered inside a folder set. */
  datatype Sort = ArtistYear | LabelCatno | ReleaseYear | EarliestReleaseYear | AdditionDate

  /** A record with the sort keys and the group key already looked up. */
  datatype Record = Record(
    iid: int, folder: int,
    dateAdded: int, releaseDate: int, earliestRelease: int,
    artistYear: string, labelCatno: string, groupKey: string,
    quantities: seq<int>, width: real, sleeve: string)

  datatype Density = Count | Disks | Width | UnknownDensity

  /** Everything `getWidth` looks at besides the records. */
  datatype Measure = Measure(density: Density, sleeves: map<string, real>, defaultWidth: real)

  /** A width limit; the appended spill space has none. */
  datatype Capacity = Finite(width: real) | Unbounded

  datatype Space = Space(name: string, capacity: Capacity, units: int)

  /** Records that are placed together, under one id. */
  datatype Element = Element(records: seq<Record>, id: int)

  const SPILL_NAME := "Spill"

  predicate Fits(width: real, capacity: Capacity) {
    capacity.Unbounded? || width <= capacity.width
  }

  function OneIfZero(x: real): real {
    if x == 0.0 then 1.0 else x
  }

  function Multiplier(sleeves: map<string, real>, sleeve: string): real {
    OneIfZero(if sleeve in sleeves then sleeves[sleeve] else 0.0)
  }

  /** The number of disks; a format without a quantity counts as one. */
  function DiskCount(quantities: seq<int>): int {
    if quantities == [] then 0
    else
      var last := quantities[|quantities| - 1];
      DiskCount(quantities[..|quantities| - 1]) + (if last == 0 then 1 else last)
  }

  /** What one record contributes to the width of its group. */
  function RecordWidth(r: Record, m: Measure): real {
    match m.density
    case Count => 1.0
    case Disks => if r.quantities == [] then 1.0 else DiskCount(r.quantities) as real
    case Width => (if r.width == 0.0 then m.defaultWidth else r.width) * Multiplier(m.sleeves, r.sleeve)
    case UnknownDensity => -1.0
  }

  function SumWidths(rs: seq<Record>, m: Measure): real {
    if rs == [] then 0.0 else SumWidths(rs[..|rs| - 1], m) + RecordWidth(rs[|rs| - 1], m)
  }

  /** The width of a group: additive, except that an unknown density always yields -1. */
  function GroupWidth(rs: seq<Record>, m: Measure): real {
    if m.density.UnknownDensity? then -1.0 else SumWidths(rs, m)
  }

  predicate SensibleRecord(r: Record) {
    r.width >= 0.0 && forall j :: 0 <= j < |r.quantities| ==> r.quantities[j] >= 0
  }

  /** Widths, multipliers and quantities are not negative. */
  predicate Sensible(m: Measure) {
    && !m.density.UnknownDensity?
    && m.defaultWidth >= 0.0
    && forall s <- m.sleeves :: m.sleeves[s] >= 0.0
  }

  function Sum(qs: seq<int>): int {
    if qs == [] then 0 else Sum(qs[..|qs| - 1]) + qs[|qs| - 1]
  }

  ghost function Blanks(qs: seq<int>): set<int> { set i | 0 <= i < |qs| && qs[i] == 0 }

  /** The disks are the quantities together with one for every format that has none. */
  lemma {:induction false} DisksAre(qs: seq<int>)
    ensures DiskCount(qs) == Sum(qs) + |Blanks(qs)|
  {
    if qs != [] {
      var n := |qs| - 1;
      DisksAre(qs[..n]);
      if qs[n] == 0 {
        assert Blanks(qs) == Blanks(qs[..n]) + {n};
      } else {
        assert Blanks(qs) == Blanks(qs[..n]);
      }
    }
  }

  /** The width of two groups put together. */
  lemma {:induction false} WidthsAddUp(a: seq<Record>, b: seq<Record>, m: Measure)
    ensures SumWidths(a + b, m) == SumWidths(a, m) + SumWidths(b, m)
  {
    if b == [] {
      assert a + b == a;
    } else {
      WidthsAddUp(a, b[..|b| - 1], m);
      assert (a + b)[..|a + b| - 1] == a + b[..|b| - 1];
    }
  }

  /** What one record takes up, density by density. */
  lemma {:induction false} OneRecord(r: Record, m: Measure)
    ensures m.density == Count ==> SumWidths([r], m) == 1.0
    ensures m.density == Disks && r.quantities == [] ==> SumWidths([r], m) == 1.0
    ensures m.density == Disks && r.quantities != [] ==>
      SumWidths([r], m) == (Sum(r.quantities) + |Blanks(r.quantities)|) as real
    ensures m.density == Width ==>
      var factor := if r.sleeve in m.sleeves && m.sleeves[r.sleeve] != 0.0 then m.sleeves[r.sleeve] else 1.0;
      SumWidths([r], m) == (if r.width != 0.0 then r.width else m.defaultWidth) * factor
  {
    assert [r][..0] == [];
    DisksAre(r.quantities);
  }

  lemma {:induction false} DiskCountNonNegative(qs: seq<int>)
    requires forall j :: 0 <= j < |qs| ==> qs[j] >= 0
    ensures DiskCount(qs) >= 0
  {
    if qs != [] { DiskCountNonNegative(qs[..|qs| - 1]); }
  }

  lemma {:induction false} RecordWidthNonNegative(r: Record, m: Measure)
    requires Sensible(m) && SensibleRecord(r)
    ensures RecordWidth(r, m) >= 0.0
  {
    DiskCountNonNegative(r.quantities);
    assert Multiplier(m.sleeves, r.sleeve) >= 0.0;
  }

  lemma {:induction false} SumWidthsNonNegative(rs: seq<Record>, m: Measure)
    requires Sensible(m) && forall r <- rs :: SensibleRecord(r)
    ensures SumWidths(rs, m) >= 0.0
  {
    if rs != [] {
      SumWidthsNonNegative(rs[..|rs| - 1], m);
      RecordWidthNonNegative(rs[|rs| - 1], m);
    }
  }

  /** `getWidth`: each density accumulates in its own loop, yet all of them are sums over the records. */
  method GetWidth(rs: seq<Record>, m: Measure) returns (w: real)
    ensures w == GroupWidth(rs, m)
  {
    match m.density {
      case Count =>
        w := |rs| as real;
        CountWidth(rs, m);
      case Disks =>
        var count := 0;
        for i := 0 to |rs|
          invariant count as real == SumWidths(rs[..i], m)
        {
          assert rs[..i + 1][..i] == rs[..i];
          if |rs[i].quantities| == 0 {
            count := count + 1;
          } else {
            ghost var before := count;
            for j := 0 to |rs[i].quantities|
              invariant count == before + DiskCount(rs[i].quantities[..j])
            {
              assert rs[i].quantities[..j + 1][..j] == rs[i].quantities[..j];
              var qty := rs[i].quantities[j];
              count := count + (if qty == 0 then 1 else qty);
            }
            assert rs[i].quantities[..|rs[i].quantities|] == rs[i].quantities;
          }
        }
        assert rs[..|rs|] == rs;
        w := count as real;
      case Width =>
        w := 0.0;
        for i := 0 to |rs|
          invariant w == SumWidths(rs[..i], m)
        {
          assert rs[..i + 1][..i] == rs[..i];
          if rs[i].width == 0.0 {
            w := w + m.defaultWidth * Multiplier(m.sleeves, rs[i].sleeve);
          } else {
            w := w + rs[i].width * Multiplier(m.sleeves, rs[i].sleeve);
          }
        }
        assert rs[..|rs|] == rs;
      case UnknownDensity =>
        w := -1.0;
    }
  }

  lemma {:induction false} CountWidth(rs: seq<Record>, m: Measure)
    requires m.density.Count?
    ensures SumWidths(rs, m) == |rs| as real
  {
    if rs != [] { CountWidth(rs[..|rs| - 1], m); }
  }

  datatype MissingWidthHandling = IgnoreMissing | AverageMissing

  function TotalWidth(rs: seq<Record>): real {
    if rs == [] then 0.0 else TotalWidth(rs[..|rs| - 1]) + rs[|rs| - 1].width
  }

  function Measured(rs: seq<Record>): nat {
    if rs == [] then 0 else Measured(rs[..|rs| - 1]) + (if rs[|rs| - 1].width > 0.0 then 1 else 0)
  }

  /** The width assumed for a record without one: 0, or the average of the positive widths. */
  function DefaultWidth(rs: seq<Record>, handling: MissingWidthHandling): real {
    if handling.IgnoreMissing? then 0.0
    else Average(TotalWidth(rs), Measured(rs))
  }

  function Average(total: real, count: nat): real {
    if count == 0 then 1.0 else total / (count as real)
  }

  lemma {:induction false} OneMore(seen: seq<Record>, r: Record)
    ensures TotalWidth(seen + [r]) == TotalWidth(seen) + r.width
    ensures Measured(seen + [r]) == Measured(seen) + (if r.width > 0.0 then 1 else 0)
  {
    assert (seen + [r])[..|seen|] == seen;
  }

  ghost function Wide(rs: seq<Record>): set<int> { set i | 0 <= i < |rs| && rs[i].width > 0.0 }

  lemma {:induction false} MeasuredAre(rs: seq<Record>)
    ensures Measured(rs) == |Wide(rs)|
  {
    if rs != [] {
      var n := |rs| - 1;
      MeasuredAre(rs[..n]);
      if rs[n].width > 0.0 {
        assert Wide(rs) == Wide(rs[..n]) + {n};
      } else {
        assert Wide(rs) == Wide(rs[..n]);
      }
    }
  }

  /** The assumed width: 0, or 1 when nothing is measured, or else the sum of the widths over the measured ones. */
  ghost predicate IsDefaultWidth(rs: seq<Record>, handling: MissingWidthHandling, d: real) {
    if handling == IgnoreMissing then d == 0.0
    else if Wide(rs) == {} then d == 1.0
    else d * |Wide(rs)| as real == TotalWidth(rs)
  }

  lemma {:induction false} DefaultWidthIs(rs: seq<Record>, handling: MissingWidthHandling)
    ensures IsDefaultWidth(rs, handling, DefaultWidth(rs, handling))
  {
    MeasuredAre(rs);
  }

  method ComputeDefaultWidth(elements: seq<Element>, handling: MissingWidthHandling) returns (d: real)
    ensures d == DefaultWidth(Flatten(elements), handling)
  {
    var total, count := 0.0, 0;
    ghost var seen := [];
    for i := 0 to |elements|
      invariant seen == Flatten(elements[..i])
      invariant total == TotalWidth(seen) && count == Measured(seen)
    {
      assert elements[..i + 1][..i] == elements[..i];
      var rs := elements[i].records;
      ghost var before := seen;
      for j := 0 to |rs|
        invariant seen == before + rs[..j]
        invariant total == TotalWidth(seen) && count == Measured(seen)
      {
        var r := rs[j];
        OneMore(seen, r);
        assert rs[..j + 1] == rs[..j] + [r];
        seen := seen + [r];
        total := total + r.width;
        if r.width > 0.0 { count := count + 1; }
      }
      assert rs[..|rs|] == rs;
    }
    assert elements[..|elements|] == elements;
    d := if handling.IgnoreMissing? then 0.0 else Average(total, count);
  }

  /** The records of a list of elements, in order. */
  function Flatten(elements: seq<Element>): seq<Record> {
    if elements == [] then [] else Flatten(elements[..|elements| - 1]) + elements[|elements| - 1].records
  }

  /** An average of measured widths lies between bounds on them, so it is never negative. */
  lemma {:induction false} TotalWidthBounds(rs: seq<Record>, hi: real)
    requires forall r <- rs :: 0.0 <= r.width <= hi
    ensures 0.0 <= TotalWidth(rs) <= Measured(rs) as real * hi
  {
    if rs != [] {
      TotalWidthBounds(rs[..|rs| - 1], hi);
      var k := Measured(rs[..|rs| - 1]) as real;
      assert (k + 1.0) * hi == k * hi + hi;
      if rs[|rs| - 1].width > 0.0 {
        assert Measured(rs) as real == k + 1.0;
      } else {
        assert Measured(rs) as real == k;
      }
    }
  }

  lemma {:induction false} DefaultWidthBounds(rs: seq<Record>, handling: MissingWidthHandling, hi: real)
    requires hi >= 1.0 && forall r <- rs :: 0.0 <= r.width <= hi
    ensures 0.0 <= DefaultWidth(rs, handling) <= hi
  {
    TotalWidthBounds(rs, hi);
    if handling.AverageMissing? && Measured(rs) != 0 {
      QuotientBounds(TotalWidth(rs), Measured(rs) as real, hi);
    }
  }

  lemma {:induction false} QuotientBounds(t: real, k: real, hi: real)
    requires k > 0.0 && 0.0 <= t <= k * hi
    ensures 0.0 <= t / k <= hi
  {
    var q := t / k;
    assert q * k == t;
    if q > hi { assert q * k > hi * k; }
  }
}
