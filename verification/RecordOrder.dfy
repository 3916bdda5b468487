/** The order of two records under each sort (the comparators of BuildSnapshot in org/org.go). */
module RecordOrder {
  import opened ShelfModel

  /** Numeric keys: 0 means "missing" and goes last. */
  predicate BlankLast(a: int, b: int) {
    if a == 0 && b != 0 then false else if b == 0 && a != 0 then true else a < b
  }

  predicate StringBefore(a: string, b: string) {
    if a == [] then b != []
    else if b == [] then false
    else if a[0] != b[0] then a[0] < b[0]
    else StringBefore(a[1..], b[1..])
  }

  /** String keys: the empty string means "missing" and goes last. */
  predicate BlankStringLast(a: string, b: string) {
    if a == "" && b != "" then false else if b == "" && a != "" then true else StringBefore(a, b)
  }

  predicate Earlier(s: Sort, a: Record, b: Record) {
    match s
    case AdditionDate => BlankLast(a.dateAdded, b.dateAdded)
    case ArtistYear => BlankStringLast(a.artistYear, b.artistYear)
    case LabelCatno => BlankStringLast(a.labelCatno, b.labelCatno)
    case ReleaseYear => BlankLast(a.releaseDate, b.releaseDate)
    case EarliestReleaseYear =>
      if a.earliestRelease == b.earliestRelease then BlankLast(a.releaseDate, b.releaseDate)
      else BlankLast(a.earliestRelease, b.earliestRelease)
  }

  // ---- What each sort compares, said of the keys ----

  /** `a` is the beginning of `b`, or smaller at the first place where they differ. */
  ghost predicate InDictionaryOrder(a: string, b: string) {
    a <= b || exists k :: 0 <= k < |a| && k < |b| && a[..k] == b[..k] && a[k] < b[k]
  }

  /** Behind a known number comes a larger or equal one, or an unknown one. */
  predicate NumbersInOrder(a: int, b: int) { b != 0 ==> a != 0 && a <= b }

  ghost predicate StringsInOrder(a: string, b: string) { b != "" ==> a != "" && InDictionaryOrder(a, b) }

  /** Under the sort, `a` may stand in front of `b`. */
  ghost predicate InKeyOrder(s: Sort, a: Record, b: Record) {
    match s
    case AdditionDate => NumbersInOrder(a.dateAdded, b.dateAdded)
    case ArtistYear => StringsInOrder(a.artistYear, b.artistYear)
    case LabelCatno => StringsInOrder(a.labelCatno, b.labelCatno)
    case ReleaseYear => NumbersInOrder(a.releaseDate, b.releaseDate)
    case EarliestReleaseYear =>
      && NumbersInOrder(a.earliestRelease, b.earliestRelease)
      && (a.earliestRelease == b.earliestRelease ==> NumbersInOrder(a.releaseDate, b.releaseDate))
  }

  lemma {:induction false} DictionaryTail(a: string, b: string)
    requires a != [] && b != [] && a[0] == b[0]
    ensures InDictionaryOrder(a, b) <==> InDictionaryOrder(a[1..], b[1..])
  {
    var s, t := a[1..], b[1..];
    assert a == [a[0]] + s && b == [b[0]] + t;
    if k :| 0 <= k < |a| && k < |b| && a[..k] == b[..k] && a[k] < b[k] {
      assert a[..k][1..] == s[..k - 1] && b[..k][1..] == t[..k - 1];
      assert s[k - 1] < t[k - 1];
    }
    if k :| 0 <= k < |s| && k < |t| && s[..k] == t[..k] && s[k] < t[k] {
      assert a[..k + 1] == [a[0]] + s[..k] && b[..k + 1] == [b[0]] + t[..k];
      assert a[k + 1] < b[k + 1];
    }
  }

  lemma {:induction false} StringsByCharacter(a: string, b: string)
    ensures StringBefore(b, a) <==> !InDictionaryOrder(a, b)
    decreases |a|
  {
    if a != [] && b != [] && a[0] == b[0] {
      StringsByCharacter(a[1..], b[1..]);
      DictionaryTail(a, b);
    } else if a != [] && b != [] {
      assert a[0] < b[0] ==> a[..0] == b[..0];
    }
  }

  /** The code puts `b` before `a` exactly when their keys, with missing ones last, do not allow `a` before `b`. */
  lemma {:induction false} EarlierByKeys(s: Sort, a: Record, b: Record)
    ensures Earlier(s, b, a) <==> !InKeyOrder(s, a, b)
  {
    StringsByCharacter(a.artistYear, b.artistYear);
    StringsByCharacter(a.labelCatno, b.labelCatno);
  }

  // ---- A strict weak order ----

  lemma {:induction false} StringOrder(a: string, b: string)
    ensures StringBefore(a, b) ==> !StringBefore(b, a)
    ensures StringBefore(a, b) || StringBefore(b, a) || a == b
    decreases |a|
  {
    if a != [] && b != [] && a[0] == b[0] {
      StringOrder(a[1..], b[1..]);
      assert a == [a[0]] + a[1..] && b == [b[0]] + b[1..];
    }
  }

  lemma {:induction false} StringOrderTransitive(a: string, b: string, c: string)
    requires StringBefore(a, c)
    ensures StringBefore(a, b) || StringBefore(b, c)
    decreases |a|
  {
    if a != [] && b != [] && c != [] && a[0] == b[0] == c[0] {
      StringOrderTransitive(a[1..], b[1..], c[1..]);
    }
  }

  lemma {:induction false} EarlierIsAsymmetric(s: Sort, a: Record, b: Record)
    requires Earlier(s, a, b)
    ensures !Earlier(s, b, a)
  {
    StringOrder(a.artistYear, b.artistYear);
    StringOrder(a.labelCatno, b.labelCatno);
  }

  lemma {:induction false} EarlierIsNegativelyTransitive(s: Sort, x: Record, y: Record, z: Record)
    requires Earlier(s, x, z)
    ensures Earlier(s, x, y) || Earlier(s, y, z)
  {
    match s
    case ArtistYear =>
      if StringBefore(x.artistYear, z.artistYear) { StringOrderTransitive(x.artistYear, y.artistYear, z.artistYear); }
    case LabelCatno =>
      if StringBefore(x.labelCatno, z.labelCatno) { StringOrderTransitive(x.labelCatno, y.labelCatno, z.labelCatno); }
    case _ =>
  }
}
