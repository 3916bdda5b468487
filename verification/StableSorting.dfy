/** Stable sorting, as Go's `sort.SliceStable` promises it for a strict weak order. */
module StableSorting {

  ghost predicate StrictWeakOrder<T(!new)>(lt: (T, T) -> bool) {
    && (forall a, b :: lt(a, b) ==> !lt(b, a))
    && (forall a, b, c :: lt(a, c) ==> lt(a, b) || lt(b, c))
  }

  ghost predicate Sorted<T>(lt: (T, T) -> bool, s: seq<T>) {
    forall i, j :: 0 <= i < j < |s| ==> !lt(s[j], s[i])
  }

  function Filter<T>(p: T -> bool, s: seq<T>): seq<T> {
    if s == [] then [] else (if p(s[0]) then [s[0]] else []) + Filter(p, s[1..])
  }

  /** Puts `x` in front of the first element that is not smaller. */
  function Insert<T>(lt: (T, T) -> bool, x: T, s: seq<T>): seq<T> {
    if s == [] || !lt(s[0], x) then [x] + s else [s[0]] + Insert(lt, x, s[1..])
  }

  function Sort<T>(lt: (T, T) -> bool, s: seq<T>): seq<T> {
    if s == [] then [] else Insert(lt, s[0], Sort(lt, s[1..]))
  }

  lemma {:induction false} InsertPermutes<T>(lt: (T, T) -> bool, x: T, s: seq<T>)
    ensures multiset(Insert(lt, x, s)) == multiset{x} + multiset(s)
  {
    if s == [] || !lt(s[0], x) {
    } else {
      assert s == [s[0]] + s[1..];
      InsertPermutes(lt, x, s[1..]);
    }
  }

  lemma {:induction false} SortPermutes<T>(lt: (T, T) -> bool, s: seq<T>)
    ensures multiset(Sort(lt, s)) == multiset(s)
    ensures |Sort(lt, s)| == |s|
  {
    if s != [] {
      assert s == [s[0]] + s[1..];
      SortPermutes(lt, s[1..]);
      InsertPermutes(lt, s[0], Sort(lt, s[1..]));
    }
    assert |multiset(Sort(lt, s))| == |multiset(s)|;
  }

  lemma {:induction false} InsertSorts<T(!new)>(lt: (T, T) -> bool, x: T, s: seq<T>)
    requires StrictWeakOrder(lt) && Sorted(lt, s)
    ensures Sorted(lt, Insert(lt, x, s))
  {
    if s == [] {
    } else if !lt(s[0], x) {
      assert forall j :: 0 <= j < |s| ==> lt(s[j], x) ==> lt(s[j], s[0]) || lt(s[0], x);
    } else {
      var r := Insert(lt, x, s[1..]);
      InsertSorts(lt, x, s[1..]);
      InsertPermutes(lt, x, s[1..]);
      forall j | 0 <= j < |r| ensures !lt(r[j], s[0]) {
        assert r[j] in multiset(r);
      }
    }
  }

  /** The result is in order. */
  lemma {:induction false} SortSorts<T(!new)>(lt: (T, T) -> bool, s: seq<T>)
    requires StrictWeakOrder(lt)
    ensures Sorted(lt, Sort(lt, s))
  {
    if s != [] {
      SortSorts(lt, s[1..]);
      InsertSorts(lt, s[0], Sort(lt, s[1..]));
    }
  }

  predicate Tied<T>(lt: (T, T) -> bool, a: T, b: T) { !lt(a, b) && !lt(b, a) }

  lemma {:induction false} InsertStable<T(!new)>(lt: (T, T) -> bool, x: T, s: seq<T>, c: T)
    requires StrictWeakOrder(lt) && Sorted(lt, s)
    ensures Filter(y => Tied(lt, y, c), Insert(lt, x, s)) == Filter(y => Tied(lt, y, c), [x] + s)
  {
    var p := y => Tied(lt, y, c);
    if s == [] || !lt(s[0], x) {
    } else {
      InsertStable(lt, x, s[1..], c);
      var r := Insert(lt, x, s[1..]);
      assert ([s[0]] + r)[1..] == r;
      assert ([x] + s)[1..] == s && ([x] + s[1..])[1..] == s[1..];
      assert !(p(x) && p(s[0]));
    }
  }

  /** Elements that tie keep the order they came in. */
  lemma {:induction false} SortStable<T(!new)>(lt: (T, T) -> bool, s: seq<T>, c: T)
    requires StrictWeakOrder(lt)
    ensures Filter(y => Tied(lt, y, c), Sort(lt, s)) == Filter(y => Tied(lt, y, c), s)
  {
    if s != [] {
      var t := Sort(lt, s[1..]);
      SortSorts(lt, s[1..]);
      SortStable(lt, s[1..], c);
      InsertStable(lt, s[0], t, c);
      assert ([s[0]] + t)[1..] == t;
    }
  }

  // ---- Where each element comes from ----

  /** `t` lists elements of `s`, and `from` says at which place in `s` each of them is. */
  ghost predicate Lists<T>(s: seq<T>, t: seq<T>, from: seq<nat>) {
    |from| == |t| && forall k :: 0 <= k < |t| ==> from[k] < |s| && t[k] == s[from[k]]
  }

  predicate Covers(from: seq<nat>, n: nat) {
    forall k: nat :: k < n ==> k in from
  }

  /** In order, and elements that tie in the order of their places. */
  ghost predicate StablyOrdered<T>(lt: (T, T) -> bool, t: seq<T>, from: seq<nat>)
    requires |from| == |t|
  {
    forall i, j :: 0 <= i < j < |t| ==> lt(t[i], t[j]) || (!lt(t[j], t[i]) && from[i] < from[j])
  }

  lemma {:induction false} InsertPlace<T>(lt: (T, T) -> bool, x: T, s: seq<T>) returns (m: nat)
    ensures m <= |s| && Insert(lt, x, s) == s[..m] + [x] + s[m..]
    ensures forall j :: 0 <= j < m ==> lt(s[j], x)
    ensures m < |s| ==> !lt(s[m], x)
  {
    if s == [] || !lt(s[0], x) {
      m := 0;
    } else {
      var rest := InsertPlace(lt, x, s[1..]);
      m := rest + 1;
      assert s == [s[0]] + s[1..];
    }
  }

  /** The places after `0` was put in at `m` and every other place has moved on by one. */
  function Shifted(from: seq<nat>, m: nat): (places: seq<nat>)
    requires m <= |from|
    ensures |places| == |from| + 1
    ensures forall k :: 0 <= k < |places| ==>
      places[k] == if k == m then 0 else 1 + from[if k < m then k else k - 1]
  {
    var later := seq(|from|, k requires 0 <= k < |from| => from[k] + 1);
    later[..m] + [0] + later[m..]
  }

  lemma {:induction false} ShiftedCovers(from: seq<nat>, m: nat, n: nat)
    requires m <= |from| && Covers(from, n)
    ensures Covers(Shifted(from, m), n + 1)
  {
    var places := Shifted(from, m);
    forall k: nat | k < n + 1 ensures k in places {
      if k == 0 {
        assert places[m] == 0;
      } else {
        var before: nat := k - 1;
        assert before in from;
        var i :| 0 <= i < |from| && from[i] == before;
        assert places[if i < m then i else i + 1] == k;
      }
    }
  }

  lemma {:induction false} InsertOrdered<T(!new)>(lt: (T, T) -> bool, x: T, t: seq<T>, from: seq<nat>, m: nat)
    requires StrictWeakOrder(lt) && |from| == |t| && StablyOrdered(lt, t, from) && m <= |t|
    requires (forall j :: 0 <= j < m ==> lt(t[j], x)) && (m < |t| ==> !lt(t[m], x))
    ensures StablyOrdered(lt, t[..m] + [x] + t[m..], Shifted(from, m))
  {
    var r, places := t[..m] + [x] + t[m..], Shifted(from, m);
    forall i, j | 0 <= i < j < |r| ensures lt(r[i], r[j]) || (!lt(r[j], r[i]) && places[i] < places[j]) {
      if i == m {
        assert r[j] == t[j - 1] && (m < j - 1 ==> !lt(t[j - 1], t[m]));
      } else {
        assert r[i] == t[if i < m then i else i - 1];
        assert j != m ==> r[j] == t[if j < m then j else j - 1];
      }
    }
  }

  lemma {:induction false} ShiftedLists<T>(s: seq<T>, t: seq<T>, from: seq<nat>, m: nat)
    requires s != [] && Lists(s[1..], t, from) && m <= |t|
    ensures Lists(s, t[..m] + [s[0]] + t[m..], Shifted(from, m))
  {
    var r, places := t[..m] + [s[0]] + t[m..], Shifted(from, m);
    forall k | 0 <= k < |r| && k != m ensures places[k] < |s| && r[k] == s[places[k]] {
      var i := if k < m then k else k - 1;
      assert r[k] == t[i] == s[1..][from[i]];
    }
  }

  /** Sorting is stable, said of places. */
  lemma {:induction false} SortPlaces<T(!new)>(lt: (T, T) -> bool, s: seq<T>) returns (from: seq<nat>)
    requires StrictWeakOrder(lt)
    ensures Lists(s, Sort(lt, s), from) && Covers(from, |s|) && StablyOrdered(lt, Sort(lt, s), from)
  {
    if s == [] {
      from := [];
    } else {
      var t := Sort(lt, s[1..]);
      var rest := SortPlaces(lt, s[1..]);
      var m := InsertPlace(lt, s[0], t);
      ShiftedLists(s, t, rest, m);
      ShiftedCovers(rest, m, |s| - 1);
      InsertOrdered(lt, s[0], t, rest, m);
      from := Shifted(rest, m);
    }
  }

  /** A sequence that is in order already is left as it is. */
  lemma {:induction false} SortSortedIsIdentity<T>(lt: (T, T) -> bool, s: seq<T>)
    requires Sorted(lt, s)
    ensures Sort(lt, s) == s
  {
    if s != [] {
      SortSortedIsIdentity(lt, s[1..]);
    }
  }

  /** The head of a sorted queue: an element no other is smaller than. */
  lemma {:induction false} SortHeadIsLeast<T(!new)>(lt: (T, T) -> bool, s: seq<T>)
    requires StrictWeakOrder(lt) && s != []
    ensures Sort(lt, s) != [] && forall x :: x in s ==> !lt(x, Sort(lt, s)[0])
  {
    var t := Sort(lt, s);
    SortPermutes(lt, s);
    SortSorts(lt, s);
    forall x | x in s ensures !lt(x, t[0]) {
      assert x in multiset(t);
      var j :| 0 <= j < |t| && t[j] == x;
    }
  }

  /** A rearrangement of distinct elements has the same elements, still distinct. */
  lemma {:induction false} SamePermutation<T>(a: seq<T>, b: seq<T>)
    requires multiset(a) == multiset(b) && forall i, j :: 0 <= i < j < |a| ==> a[i] != a[j]
    ensures forall x :: x in a <==> x in b
    ensures forall i, j :: 0 <= i < j < |b| ==> b[i] != b[j]
  {
    forall x ensures x in a <==> x in b {
      assert x in multiset(a) <==> x in multiset(b);
    }
    forall i, j | 0 <= i < j < |b| ensures b[i] != b[j] {
      if b[i] == b[j] {
        TwoOccurrences(b, i, j);
        assert b[i] in a;
        var k :| 0 <= k < |a| && a[k] == b[i];
        OneOccurrence(a, k);
      }
    }
  }

  lemma {:induction false} TwoOccurrences<T>(b: seq<T>, i: nat, j: nat)
    requires i < j < |b| && b[i] == b[j]
    ensures multiset(b)[b[i]] >= 2
  {
    assert b == b[..j] + [b[j]] + b[j + 1..];
    assert b[..j][i] == b[i];
    assert multiset(b) == multiset(b[..j]) + multiset([b[j]]) + multiset(b[j + 1..]);
  }

  lemma {:induction false} OneOccurrence<T>(a: seq<T>, k: nat)
    requires k < |a| && forall i, j :: 0 <= i < j < |a| ==> a[i] != a[j]
    ensures multiset(a)[a[k]] == 1
  {
    assert a == a[..k] + [a[k]] + a[k + 1..];
    assert multiset(a) == multiset(a[..k]) + multiset([a[k]]) + multiset(a[k + 1..]);
    assert a[k] !in a[..k] && a[k] !in a[k + 1..];
  }
}
