/**
 * The collection cache of the terminal client: two lists and two indexes over the same records
 * (cmd/gramophile/cache.go).
 */
module CollectionCache {
  import opened Basics

  datatype Cached = Cached(iid: int, releaseId: int, artist: string, title: string, updated: int)

  // ---- The record list the cache stands for ----

  /** Replaces the first record with the same instance id, or appends. */
  function Upserted(s: seq<Cached>, c: Cached): seq<Cached> {
    if s == [] then [c]
    else if s[0].iid == c.iid then [c] + s[1..]
    else [s[0]] + Upserted(s[1..], c)
  }

  function Find(s: seq<Cached>, iid: int): Option<Cached> {
    if s == [] then None else if s[0].iid == iid then Some(s[0]) else Find(s[1..], iid)
  }

  /** The last record with an instance id. */
  function LastVersion(s: seq<Cached>, iid: int): Option<Cached> {
    if s == [] then None
    else if s[|s| - 1].iid == iid then Some(s[|s| - 1])
    else LastVersion(s[..|s| - 1], iid)
  }

  function InRelease(s: seq<Cached>, r: int): seq<Cached> {
    if s == [] then [] else (if s[0].releaseId == r then [s[0]] else []) + InRelease(s[1..], r)
  }

  function Without(s: seq<Cached>, iid: int): seq<Cached> {
    if s == [] then [] else (if s[0].iid != iid then [s[0]] else []) + Without(s[1..], iid)
  }

  ghost predicate DistinctIids(s: seq<Cached>) {
    forall i, j :: 0 <= i < j < |s| ==> s[i].iid != s[j].iid
  }

  // ---- The indexes ----

  function Lookup(byInstance: map<int, Cached>, iid: int): Option<Cached> {
    if iid in byInstance then Some(byInstance[iid]) else None
  }

  /** Every instance id leads to its first record, and no other key is there. */
  ghost predicate IndexesIids(s: seq<Cached>, byInstance: map<int, Cached>) {
    forall iid :: Lookup(byInstance, iid) == Find(s, iid)
  }

  function Bucket(byRelease: map<int, seq<Cached>>, r: int): seq<Cached> {
    if r in byRelease then byRelease[r] else []
  }

  /** Every release leads to its records, in some order, and no list is empty. */
  ghost predicate IndexesReleases(s: seq<Cached>, byRelease: map<int, seq<Cached>>) {
    && (forall r :: SameRecords(Bucket(byRelease, r), InRelease(s, r)))
    && (forall r <- byRelease :: byRelease[r] != [])
  }

  /** The release index a full rebuild yields. */
  ghost predicate IsRebuilt(s: seq<Cached>, byRelease: map<int, seq<Cached>>) {
    && (forall r :: Bucket(byRelease, r) == InRelease(s, r))
    && (forall r <- byRelease :: byRelease[r] != [])
  }

  /** The instance index a full rebuild yields: with a repeated instance id, the last record wins. */
  ghost predicate IsRebuiltByIid(s: seq<Cached>, byInstance: map<int, Cached>) {
    forall iid :: Lookup(byInstance, iid) == LastVersion(s, iid)
  }

  /** Both indexes are those of the list. */
  ghost predicate Agree(s: seq<Cached>, byInstance: map<int, Cached>, byRelease: map<int, seq<Cached>>) {
    IndexesIids(s, byInstance) && IndexesReleases(s, byRelease)
  }

  /** Records that share an instance id may differ in between, but not the first from the last. */
  ghost predicate FirstIsLast(s: seq<Cached>) {
    forall iid :: Find(s, iid) == LastVersion(s, iid)
  }

  lemma {:induction false} RebuiltAgreesIff(s: seq<Cached>, byInstance: map<int, Cached>,
                                            byRelease: map<int, seq<Cached>>)
    requires IsRebuiltByIid(s, byInstance) && IsRebuilt(s, byRelease)
    ensures Agree(s, byInstance, byRelease) <==> FirstIsLast(s)
  {
    assert forall r :: Bucket(byRelease, r) == InRelease(s, r);
    forall iid ensures Lookup(byInstance, iid) == LastVersion(s, iid) { }
    assert FirstIsLast(s) ==> IndexesIids(s, byInstance);
    assert IndexesIids(s, byInstance) ==> forall iid :: Find(s, iid) == Lookup(byInstance, iid);
  }

  lemma {:induction false} LastVersionIs(s: seq<Cached>, iid: int)
    ensures LastVersion(s, iid).Some? ==> LastVersion(s, iid).value in s && LastVersion(s, iid).value.iid == iid
    ensures LastVersion(s, iid).None? ==> forall c <- s :: c.iid != iid
  {
    if s != [] && s[|s| - 1].iid != iid {
      LastVersionIs(s[..|s| - 1], iid);
      assert s == s[..|s| - 1] + [s[|s| - 1]];
    }
  }

  lemma {:induction false} DistinctFirstIsLast(s: seq<Cached>)
    ensures DistinctIids(s) ==> FirstIsLast(s)
  {
    if DistinctIids(s) {
      forall iid ensures Find(s, iid) == LastVersion(s, iid) {
        FindIs(s, iid);
        LastVersionIs(s, iid);
        if LastVersion(s, iid).Some? { FindDistinct(s, LastVersion(s, iid).value); }
      }
    }
  }

  // ---- Facts about lists ----

  lemma {:induction false} FindIs(s: seq<Cached>, iid: int)
    ensures Find(s, iid).Some? ==> Find(s, iid).value in s && Find(s, iid).value.iid == iid
    ensures Find(s, iid).None? ==> forall c <- s :: c.iid != iid
  {
    if s != [] && s[0].iid != iid {
      FindIs(s[1..], iid);
      assert s == [s[0]] + s[1..];
    }
  }

  lemma {:induction false} FindDistinct(s: seq<Cached>, c: Cached)
    requires DistinctIids(s) && c in s
    ensures Find(s, c.iid) == Some(c)
  {
    var k :| 0 <= k < |s| && s[k] == c;
    if k > 0 {
      assert s[1..][k - 1] == c;
      FindDistinct(s[1..], c);
    }
  }

  /** Looking up after an upsert: the new record under its own id, and everything else as before. */
  lemma {:induction false} FindUpserted(s: seq<Cached>, c: Cached, iid: int)
    ensures Find(Upserted(s, c), iid) == if iid == c.iid then Some(c) else Find(s, iid)
  {
    if s != [] {
      if s[0].iid == c.iid {
        assert ([c] + s[1..])[1..] == s[1..];
      } else {
        FindUpserted(s[1..], c, iid);
        assert ([s[0]] + Upserted(s[1..], c))[1..] == Upserted(s[1..], c);
      }
    }
  }

  /** The upsert acts at the first record with the id, or else at the end. */
  lemma {:induction false} UpsertedAt(s: seq<Cached>, c: Cached, i: nat)
    requires i <= |s| && forall j :: 0 <= j < i ==> s[j].iid != c.iid
    requires i < |s| ==> s[i].iid == c.iid
    ensures Upserted(s, c) == if i < |s| then s[i := c] else s + [c]
  {
    if i > 0 {
      UpsertedAt(s[1..], c, i - 1);
      assert s == [s[0]] + s[1..];
    }
  }

  lemma {:induction false} UpsertedIids(s: seq<Cached>, c: Cached)
    ensures forall x <- Upserted(s, c) :: x == c || (x in s && x.iid != c.iid) || (x in s && !DistinctIids(s))
    ensures DistinctIids(s) ==> DistinctIids(Upserted(s, c))
  {
    if s != [] {
      assert s == [s[0]] + s[1..];
      if s[0].iid != c.iid {
        UpsertedIids(s[1..], c);
        if DistinctIids(s) {
          var rest := Upserted(s[1..], c);
          forall j | 0 <= j < |rest| ensures rest[j].iid != s[0].iid {
            if rest[j] != c { assert rest[j] in s[1..]; }
          }
        }
      }
    }
  }

  /** How often `x` occurs. */
  function Times(s: seq<Cached>, x: Cached): nat {
    if s == [] then 0 else (if s[0] == x then 1 else 0) + Times(s[1..], x)
  }

  /** The same records, in any order. */
  ghost predicate SameRecords(a: seq<Cached>, b: seq<Cached>) {
    forall x :: Times(a, x) == Times(b, x)
  }

  lemma {:induction false} TimesIn(s: seq<Cached>, x: Cached)
    ensures Times(s, x) > 0 <==> x in s
    ensures DistinctIids(s) ==> Times(s, x) <= 1
  {
    if s != [] {
      assert s == [s[0]] + s[1..];
      TimesIn(s[1..], x);
      if DistinctIids(s) {
        forall k | 0 <= k < |s[1..]| ensures s[1..][k] != s[0] {
          assert s[k + 1].iid != s[0].iid;
        }
      }
    }
  }

  lemma {:induction false} TimesCons(h: Cached, t: seq<Cached>, x: Cached)
    ensures Times([h] + t, x) == (if h == x then 1 else 0) + Times(t, x)
  {
    assert ([h] + t)[1..] == t;
  }

  lemma {:induction false} TimesInRelease(s: seq<Cached>, r: int, x: Cached)
    ensures Times(InRelease(s, r), x) == if x.releaseId == r then Times(s, x) else 0
  {
    if s != [] {
      TimesInRelease(s[1..], r, x);
      if s[0].releaseId == r { TimesCons(s[0], InRelease(s[1..], r), x); }
      else { assert InRelease(s, r) == InRelease(s[1..], r); }
    }
  }

  /** What an upsert does to the records: the old version leaves, the new one joins. */
  lemma {:induction false} TimesUpserted(s: seq<Cached>, c: Cached, x: Cached)
    ensures Times(Upserted(s, c), x) + (if Find(s, c.iid) == Some(x) then 1 else 0) ==
      Times(s, x) + (if c == x then 1 else 0)
  {
    if s == [] {
      TimesCons(c, [], x);
    } else if s[0].iid == c.iid {
      TimesCons(c, s[1..], x);
    } else {
      TimesUpserted(s[1..], c, x);
      TimesCons(s[0], Upserted(s[1..], c), x);
    }
  }

  lemma {:induction false} TimesWithout(s: seq<Cached>, iid: int, x: Cached)
    ensures Times(Without(s, iid), x) == if x.iid == iid then 0 else Times(s, x)
  {
    if s != [] {
      TimesWithout(s[1..], iid, x);
      if s[0].iid != iid { TimesCons(s[0], Without(s[1..], iid), x); }
      else { assert Without(s, iid) == Without(s[1..], iid); }
    }
  }

  /** The bucket of a release holds the records of that release, each with its own instance id. */
  lemma {:induction false} BucketIs(s: seq<Cached>, byRelease: map<int, seq<Cached>>, r: int)
    requires IndexesReleases(s, byRelease)
    ensures forall x :: x in Bucket(byRelease, r) <==> x in s && x.releaseId == r
  {
    var b := Bucket(byRelease, r);
    assert SameRecords(b, InRelease(s, r));
    forall x ensures x in b <==> x in s && x.releaseId == r {
      TimesIn(b, x);
      TimesIn(s, x);
      TimesInRelease(s, r, x);
    }
  }

  lemma {:induction false} FindInBucket(s: seq<Cached>, byRelease: map<int, seq<Cached>>, r: int, iid: int)
    requires DistinctIids(s) && IndexesReleases(s, byRelease)
    ensures Find(Bucket(byRelease, r), iid) ==
      if Find(s, iid).Some? && Find(s, iid).value.releaseId == r then Find(s, iid) else None
  {
    var b := Bucket(byRelease, r);
    BucketIs(s, byRelease, r);
    FindIs(b, iid);
    FindIs(s, iid);
    if Find(b, iid).Some? { FindDistinct(s, Find(b, iid).value); }
  }

  // ---- Keeping the release index up to date ----

  /** The release index after an upsert: the old version leaves its release if that changed, the new one joins. */
  function IndexUpserted(byRelease: map<int, seq<Cached>>, old_: Option<Cached>, c: Cached): map<int, seq<Cached>> {
    var mid :=
      if old_.Some? && old_.value.releaseId != c.releaseId then
        var rest := Without(Bucket(byRelease, old_.value.releaseId), c.iid);
        if rest == [] then byRelease - {old_.value.releaseId} else byRelease[old_.value.releaseId := rest]
      else byRelease;
    mid[c.releaseId := Upserted(Bucket(mid, c.releaseId), c)]
  }

  lemma {:induction false} BucketUpserted(s: seq<Cached>, byRelease: map<int, seq<Cached>>, c: Cached, r: int)
    requires DistinctIids(s) && IndexesReleases(s, byRelease)
    ensures SameRecords(Bucket(IndexUpserted(byRelease, Find(s, c.iid), c), r), InRelease(Upserted(s, c), r))
  {
    var o, b := Find(s, c.iid), Bucket(byRelease, r);
    var n := Bucket(IndexUpserted(byRelease, o, c), r);
    assert n ==
      if r == c.releaseId then Upserted(b, c)
      else if o.Some? && o.value.releaseId == r then Without(b, c.iid)
      else b;
    FindInBucket(s, byRelease, r, c.iid);
    FindIs(s, c.iid);
    forall x ensures Times(n, x) == Times(InRelease(Upserted(s, c), r), x) {
      TimesUpserted(s, c, x);
      TimesUpserted(b, c, x);
      TimesWithout(b, c.iid, x);
      TimesInRelease(s, r, x);
      TimesInRelease(Upserted(s, c), r, x);
      assert SameRecords(b, InRelease(s, r));
      TimesIn(s, x);
      if x in s { FindDistinct(s, x); }
    }
  }

  lemma {:induction false} ReleasesUpserted(s: seq<Cached>, byRelease: map<int, seq<Cached>>, c: Cached)
    requires DistinctIids(s) && IndexesReleases(s, byRelease)
    ensures IndexesReleases(Upserted(s, c), IndexUpserted(byRelease, Find(s, c.iid), c))
  {
    var n := IndexUpserted(byRelease, Find(s, c.iid), c);
    forall r ensures SameRecords(Bucket(n, r), InRelease(Upserted(s, c), r)) {
      BucketUpserted(s, byRelease, c, r);
    }
    assert Upserted(Bucket(byRelease, c.releaseId), c) != [];
  }

  lemma {:induction false} IidsUpserted(s: seq<Cached>, byInstance: map<int, Cached>, c: Cached)
    requires IndexesIids(s, byInstance)
    ensures IndexesIids(Upserted(s, c), byInstance[c.iid := c])
  {
    var n := byInstance[c.iid := c];
    forall iid ensures Lookup(n, iid) == Find(Upserted(s, c), iid) {
      FindUpserted(s, c, iid);
      assert Lookup(byInstance, iid) == Find(s, iid);
    }
  }

  // ---- Building the indexes from scratch ----

  lemma {:induction false} InReleaseAppend(s: seq<Cached>, c: Cached, r: int)
    ensures InRelease(s + [c], r) == InRelease(s, r) + (if c.releaseId == r then [c] else [])
  {
    if s == [] {
      assert s + [c] == [c] && [c][1..] == [];
    } else {
      assert (s + [c])[1..] == s[1..] + [c];
      InReleaseAppend(s[1..], c, r);
      var first := if s[0].releaseId == r then [s[0]] else [];
      assert InRelease(s + [c], r) == first + InRelease(s[1..] + [c], r);
    }
  }

  lemma {:induction false} ReleasesAppended(s: seq<Cached>, byRelease: map<int, seq<Cached>>, c: Cached)
    requires IsRebuilt(s, byRelease)
    ensures IsRebuilt(s + [c], byRelease[c.releaseId := Bucket(byRelease, c.releaseId) + [c]])
  {
    var n := byRelease[c.releaseId := Bucket(byRelease, c.releaseId) + [c]];
    forall r ensures Bucket(n, r) == InRelease(s + [c], r) {
      InReleaseAppend(s, c, r);
      assert Bucket(byRelease, r) == InRelease(s, r);
    }
  }

  /** Both indexes, as a rebuild yields them. */
  ghost predicate AreIndexes(s: seq<Cached>, byInstance: map<int, Cached>, byRelease: map<int, seq<Cached>>) {
    IsRebuilt(s, byRelease) && IsRebuiltByIid(s, byInstance)
  }

  lemma {:induction false} IndexesAppended(s: seq<Cached>, byInstance: map<int, Cached>,
                                           byRelease: map<int, seq<Cached>>,
                                           c: Cached)
    requires AreIndexes(s, byInstance, byRelease)
    ensures AreIndexes(s + [c], byInstance[c.iid := c], byRelease[c.releaseId := Bucket(byRelease, c.releaseId) + [c]])
  {
    ReleasesAppended(s, byRelease, c);
    var n := byInstance[c.iid := c];
    assert (s + [c])[..|s|] == s;
    forall iid ensures Lookup(n, iid) == LastVersion(s + [c], iid) {
      assert Lookup(byInstance, iid) == LastVersion(s, iid);
    }
  }

  // ---- The cache ----

  datatype Status = Uninitialized | Ready | Syncing | Stale | Rebuilding

  /** What reading the cache file can yield. */
  datatype File = Missing | Unreadable | Corrupt | Decoded(records: seq<Cached>)

  class CacheManager {
    var cacheRecords: seq<Cached>
    var records: seq<Cached>
    var byInstanceID: map<int, Cached>
    var byReleaseID: map<int, seq<Cached>>
    var status: Status

    /** All four structures agree on one list of records. */
    ghost predicate InAgreement()
      reads this
    {
      cacheRecords == records && Agree(records, byInstanceID, byReleaseID)
    }

    /** And no instance id repeats, which updates rely on. */
    ghost predicate Consistent()
      reads this
    {
      InAgreement() && DistinctIids(records)
    }

    constructor ()
      ensures Consistent() && records == [] && status == Uninitialized
    {
      cacheRecords, records, byInstanceID, byReleaseID, status := [], [], map[], map[], Uninitialized;
    }

    /** Replaces or appends in one list. */
    method PutInto(s: seq<Cached>, c: Cached) returns (n: seq<Cached>)
      ensures n == Upserted(s, c)
    {
      n := s;
      var found := false;
      for i := 0 to |s|
        invariant n == s && !found
        invariant forall j :: 0 <= j < i ==> s[j].iid != c.iid
      {
        if s[i].iid == c.iid {
          UpsertedAt(s, c, i);
          n := n[i := c];
          found := true;
          break;
        }
      }
      if !found {
        UpsertedAt(s, c, |s|);
        n := n + [c];
      }
    }

    /** Drops one instance id from one list. */
    method DropFrom(s: seq<Cached>, iid: int) returns (n: seq<Cached>)
      ensures n == Without(s, iid)
    {
      n := [];
      for i := 0 to |s|
        invariant n + Without(s[i..], iid) == Without(s, iid)
      {
        assert s[i..][1..] == s[i + 1..];
        if s[i].iid != iid {
          assert n + ([s[i]] + Without(s[i + 1..], iid)) == (n + [s[i]]) + Without(s[i + 1..], iid);
          n := n + [s[i]];
        }
      }
      assert s[|s|..] == [];
    }

    /** A record without a release is ignored. */
    method UpsertRecord(rec: Option<Cached>)
      requires Consistent()
      modifies this
      ensures Consistent() && status == old(status)
      ensures rec.None? ==> unchanged(this)
      ensures rec.Some? ==> records == Upserted(old(records), rec.value)
    {
      if rec.None? { return; }
      var cached := rec.value;
      var iid := cached.iid;
      UpsertedIids(records, cached);
      IidsUpserted(records, byInstanceID, cached);
      ReleasesUpserted(records, byReleaseID, cached);
      assert Lookup(byInstanceID, iid) == Find(records, iid);
      byReleaseID := PutIntoRelease(byReleaseID, Lookup(byInstanceID, iid), cached);
      byInstanceID := byInstanceID[iid := cached];
      cacheRecords := PutInto(cacheRecords, cached);
      records := PutInto(records, cached);
    }

    /** The part of UpsertRecord that keeps the release index up to date. */
    method PutIntoRelease(byRelease: map<int, seq<Cached>>, oldRec: Option<Cached>, cached: Cached)
      returns (n: map<int, seq<Cached>>)
      ensures n == IndexUpserted(byRelease, oldRec, cached)
    {
      n := byRelease;
      if oldRec.Some? && oldRec.value.releaseId != cached.releaseId {
        var newList := DropFrom(Bucket(n, oldRec.value.releaseId), cached.iid);
        if |newList| == 0 {
          n := n - {oldRec.value.releaseId};
        } else {
          n := n[oldRec.value.releaseId := newList];
        }
      }
      var relList := PutInto(Bucket(n, cached.releaseId), cached);
      n := n[cached.releaseId := relList];
    }

    method Reset()
      modifies this
      ensures cacheRecords == records == [] && byInstanceID == map[] && byReleaseID == map[]
      ensures Consistent() && status == old(status)
    {
      cacheRecords, records, byInstanceID, byReleaseID := [], [], map[], map[];
    }

    /** Builds both indexes and the record list from the cached list. */
    method Rebuild()
      modifies this`records, this`byInstanceID, this`byReleaseID
      ensures records == cacheRecords && AreIndexes(records, byInstanceID, byReleaseID)
      ensures InAgreement() <==> FirstIsLast(records)
    {
      byInstanceID, byReleaseID, records := map[], map[], [];
      var s := cacheRecords;
      for i := 0 to |s|
        invariant records == s[..i] && AreIndexes(s[..i], byInstanceID, byReleaseID)
      {
        var rec := s[i];
        assert s[..i + 1] == s[..i] + [rec];
        IndexesAppended(s[..i], byInstanceID, byReleaseID, rec);
        records := records + [rec];
        byInstanceID := byInstanceID[rec.iid := rec];
        byReleaseID := byReleaseID[rec.releaseId := Bucket(byReleaseID, rec.releaseId) + [rec]];
      }
      assert s[..|s|] == s;
      RebuiltAgreesIff(records, byInstanceID, byReleaseID);
    }

    /** A missing or corrupt file empties the cache, an unreadable one is an error that leaves it alone. */
    method LoadFromDisk(file: File) returns (failed: bool)
      modifies this
      ensures failed <==> file.Unreadable?
      ensures file.Unreadable? ==> unchanged(this)
      ensures file.Missing? ==> Consistent() && records == [] && status == Uninitialized
      ensures file.Corrupt? ==> Consistent() && records == [] && status == Rebuilding
      ensures file.Decoded? ==> records == cacheRecords == file.records && status == Ready
      ensures file.Decoded? ==> AreIndexes(records, byInstanceID, byReleaseID)
      ensures file.Decoded? ==> (InAgreement() <==> FirstIsLast(file.records))
      ensures file.Decoded? ==> (Consistent() <==> DistinctIids(file.records))
    {
      failed := false;
      match file {
        case Unreadable => failed := true;
        case Missing =>
          Reset();
          status := Uninitialized;
        case Corrupt =>
          Reset();
          status := Rebuilding;
        case Decoded(onDisk) =>
          cacheRecords := onDisk;
          Rebuild();
          status := Ready;
          DistinctFirstIsLast(onDisk);
      }
    }

    /** Populate: replaces everything. */
    method Populate(recs: seq<Option<Cached>>)
      modifies this
      ensures records == cacheRecords == Present(recs) && status == Ready
      ensures AreIndexes(records, byInstanceID, byReleaseID)
      ensures InAgreement() <==> FirstIsLast(records)
      ensures Consistent() <==> DistinctIids(records)
    {
      Reset();
      for i := 0 to |recs|
        invariant records == Present(recs[..i]) && cacheRecords == records
        invariant AreIndexes(records, byInstanceID, byReleaseID)
      {
        assert recs[..i + 1][..i] == recs[..i];
        if recs[i].Some? {
          var cached := recs[i].value;
          IndexesAppended(records, byInstanceID, byReleaseID, cached);
          cacheRecords := cacheRecords + [cached];
          records := records + [cached];
          byInstanceID := byInstanceID[cached.iid := cached];
          byReleaseID := byReleaseID[cached.releaseId := Bucket(byReleaseID, cached.releaseId) + [cached]];
        }
      }
      assert recs[..|recs|] == recs;
      status := Ready;
      RebuiltAgreesIff(records, byInstanceID, byReleaseID);
      DistinctFirstIsLast(records);
    }

    method GetByInstanceID(iid: int) returns (rec: Option<Cached>)
      requires InAgreement()
      ensures rec == Find(records, iid)
    {
      assert Lookup(byInstanceID, iid) == Find(records, iid);
      rec := Lookup(byInstanceID, iid);
    }

    /** All records of a release, each once; the order is that of the index. */
    method GetByReleaseID(releaseId: int) returns (recs: seq<Cached>)
      requires InAgreement()
      ensures SameRecords(recs, InRelease(records, releaseId))
      ensures forall x :: x in recs <==> x in records && x.releaseId == releaseId
    {
      BucketIs(records, byReleaseID, releaseId);
      recs := Bucket(byReleaseID, releaseId);
    }
  }

  // ---- Sequences of updates ----

  function UpsertAll(s: seq<Cached>, cs: seq<Cached>): seq<Cached> {
    if cs == [] then s else Upserted(UpsertAll(s, cs[..|cs| - 1]), cs[|cs| - 1])
  }

  /** After any sequence of upserts a lookup sees the last version of a record, and the records stay distinct. */
  lemma {:induction false} LookupsSeeLastVersion(s: seq<Cached>, cs: seq<Cached>, iid: int)
    requires DistinctIids(s)
    ensures DistinctIids(UpsertAll(s, cs))
    ensures Find(UpsertAll(s, cs), iid) == if LastVersion(cs, iid).Some? then LastVersion(cs, iid) else Find(s, iid)
  {
    if cs != [] {
      var init := UpsertAll(s, cs[..|cs| - 1]);
      LookupsSeeLastVersion(s, cs[..|cs| - 1], iid);
      UpsertedIids(init, cs[|cs| - 1]);
      FindUpserted(init, cs[|cs| - 1], iid);
    }
  }

  lemma {:induction false} TwoReleases(a: Cached, b: Cached)
    requires a.releaseId != b.releaseId
    ensures IsRebuilt([a, b], map[a.releaseId := [a], b.releaseId := [b]])
    ensures InRelease([b], b.releaseId) == [b]
  {
    var byRelease := map[a.releaseId := [a], b.releaseId := [b]];
    assert [a, b][1..] == [b] && [b][1..] == [];
    forall r ensures Bucket(byRelease, r) == InRelease([a, b], r) {
      assert InRelease([b], r) == if b.releaseId == r then [b] else [];
      assert InRelease([a, b], r) == (if a.releaseId == r then [a] else []) + InRelease([b], r);
    }
  }

  /**
   * The order inside a release can differ from that of a rebuild: a record that changes its release joins at the end.
   */
  lemma {:induction false} OrderMayDiffer(a: Cached, b: Cached, moved: Cached)
    requires a.iid == moved.iid && b.iid != a.iid && a.releaseId != b.releaseId && moved.releaseId == b.releaseId
    ensures var s := [a, b];
      var byRelease := map[a.releaseId := [a], b.releaseId := [b]];
      && IsRebuilt(s, byRelease)
      && Bucket(IndexUpserted(byRelease, Find(s, moved.iid), moved), b.releaseId) == [b, moved]
      && InRelease(Upserted(s, moved), b.releaseId) == [moved, b]
  {
    var s := [a, b];
    TwoReleases(a, b);
    assert Without([a], moved.iid) == [];
    assert Upserted([b], moved) == [b] + Upserted([], moved) == [b, moved];
    assert Upserted(s, moved) == [moved] + [b] == [moved, b];
    assert [moved, b][1..] == [b];
    assert InRelease([moved, b], b.releaseId) == [moved] + InRelease([b], b.releaseId);
  }

  // ---- When the incremental release index is the rebuilt one ----

  /** The record changes its release, and some record behind it has the new release already. */
  ghost predicate JoinsTooLate(s: seq<Cached>, c: Cached) {
    exists i, j :: 0 <= i < j < |s|
      && s[i].iid == c.iid && s[i].releaseId != c.releaseId && s[j].releaseId == c.releaseId
  }

  lemma {:induction false} InReleaseConcat(a: seq<Cached>, b: seq<Cached>, r: int)
    ensures InRelease(a + b, r) == InRelease(a, r) + InRelease(b, r)
  {
    if a == [] {
      assert a + b == b;
    } else {
      assert (a + b)[1..] == a[1..] + b;
      InReleaseConcat(a[1..], b, r);
      var first := if a[0].releaseId == r then [a[0]] else [];
      assert InRelease(a + b, r) == first + InRelease(a[1..] + b, r);
    }
  }

  lemma {:induction false} InReleaseIn(s: seq<Cached>, r: int)
    ensures forall x :: x in InRelease(s, r) <==> x in s && x.releaseId == r
  {
    if s != [] {
      InReleaseIn(s[1..], r);
      assert s == [s[0]] + s[1..];
    }
  }

  lemma {:induction false} UpsertedNew(s: seq<Cached>, c: Cached)
    requires forall x <- s :: x.iid != c.iid
    ensures Upserted(s, c) == s + [c]
  {
    UpsertedAt(s, c, |s|);
  }

  lemma {:induction false} WithoutNew(s: seq<Cached>, iid: int)
    requires forall x <- s :: x.iid != iid
    ensures Without(s, iid) == s
  {
    if s != [] {
      assert s == [s[0]] + s[1..];
      WithoutNew(s[1..], iid);
    }
  }

  lemma {:induction false} WithoutConcat(a: seq<Cached>, b: seq<Cached>, iid: int)
    ensures Without(a + b, iid) == Without(a, iid) + Without(b, iid)
  {
    if a == [] {
      assert a + b == b;
    } else {
      assert (a + b)[1..] == a[1..] + b;
      WithoutConcat(a[1..], b, iid);
      var first := if a[0].iid != iid then [a[0]] else [];
      assert Without(a + b, iid) == first + Without(a[1..] + b, iid);
    }
  }

  lemma {:induction false} UpsertedMiddle(a: seq<Cached>, o: Cached, b: seq<Cached>, c: Cached)
    requires o.iid == c.iid && forall x <- a :: x.iid != c.iid
    ensures Upserted(a + [o] + b, c) == a + [c] + b
  {
    var s := a + [o] + b;
    forall k | 0 <= k < |a| ensures s[k].iid != c.iid { assert s[k] == a[k] && a[k] in a; }
    UpsertedAt(s, c, |a|);
  }

  /** The new record next to the others of a release, at the end of the bucket and at its place in the list. */
  lemma {:induction false} SameEndIff(a: seq<Cached>, b: seq<Cached>, c: Cached)
    requires c !in b
    ensures a + b + [c] == a + [c] + b <==> b == []
  {
    if b != [] {
      assert (a + b + [c])[|a|] == b[0] && (a + [c] + b)[|a|] == c;
      assert b[0] in b;
    } else {
      assert a + b + [c] == a + [c] + b;
    }
  }

  ghost predicate NoneHas(s: seq<Cached>, iid: int) {
    forall x <- s :: x.iid != iid
  }

  lemma {:induction false} ReleaseLacks(s: seq<Cached>, r: int, iid: int)
    requires NoneHas(s, iid)
    ensures NoneHas(InRelease(s, r), iid)
  {
    InReleaseIn(s, r);
  }

  lemma {:induction false} JoinedBucket(ra: seq<Cached>, rb: seq<Cached>, c: Cached)
    requires NoneHas(ra, c.iid) && NoneHas(rb, c.iid)
    ensures Upserted(ra + rb, c) == ra + [c] + rb <==> rb == []
  {
    forall x: Cached | x in ra + rb ensures x.iid != c.iid { }
    UpsertedNew(ra + rb, c);
    SameEndIff(ra, rb, c);
  }

  lemma {:induction false} LeftBucket(ra: seq<Cached>, o: Cached, rb: seq<Cached>)
    requires NoneHas(ra, o.iid) && NoneHas(rb, o.iid)
    ensures Without(ra + [o] + rb, o.iid) == ra + rb
  {
    WithoutConcat(ra + [o], rb, o.iid);
    WithoutNew(rb, o.iid);
    WithoutLast(ra, o);
  }

  lemma {:induction false} WithoutLast(ra: seq<Cached>, o: Cached)
    requires NoneHas(ra, o.iid)
    ensures Without(ra + [o], o.iid) == ra
  {
    WithoutConcat(ra, [o], o.iid);
    WithoutNew(ra, o.iid);
    assert [o][1..] == [];
    assert Without([o], o.iid) == [];
  }

  /** The buckets after an upsert of a known record, by what each of them was. */
  lemma {:induction false} BucketNow(byRelease: map<int, seq<Cached>>, o: Cached, c: Cached, r: int)
    ensures Bucket(IndexUpserted(byRelease, Some(o), c), r) ==
      if r == c.releaseId then Upserted(Bucket(byRelease, r), c)
      else if r == o.releaseId then Without(Bucket(byRelease, r), c.iid)
      else Bucket(byRelease, r)
  {
  }

  function Only(c: Cached, r: int): seq<Cached> {
    if c.releaseId == r then [c] else []
  }

  lemma {:induction false} BucketCases(byRelease: map<int, seq<Cached>>, ra: seq<Cached>, o: Cached, rb: seq<Cached>,
                                       c: Cached, r: int)
    requires Bucket(byRelease, r) == ra + Only(o, r) + rb
    requires o.iid == c.iid && NoneHas(ra, c.iid) && NoneHas(rb, c.iid)
    ensures Bucket(IndexUpserted(byRelease, Some(o), c), r) == ra + Only(c, r) + rb <==>
      (r == c.releaseId && o.releaseId != c.releaseId ==> rb == [])
  {
    BucketNow(byRelease, o, c, r);
    if r == c.releaseId && o.releaseId == c.releaseId {
      UpsertedMiddle(ra, o, rb, c);
    } else if r == c.releaseId {
      assert ra + Only(o, r) + rb == ra + rb;
      JoinedBucket(ra, rb, c);
    } else if r == o.releaseId {
      assert ra + Only(c, r) + rb == ra + rb;
      LeftBucket(ra, o, rb);
    }
  }

  /** One bucket after a known record `o`, with `a` before it and `b` behind it, became `c`. */
  lemma {:induction false} BucketOfKnown(a: seq<Cached>, o: Cached, b: seq<Cached>, byRelease: map<int, seq<Cached>>,
                                         c: Cached, r: int)
    requires Bucket(byRelease, r) == InRelease(a + [o] + b, r)
    requires o.iid == c.iid && NoneHas(a, c.iid) && NoneHas(b, c.iid)
    ensures Bucket(IndexUpserted(byRelease, Some(o), c), r) == InRelease(a + [c] + b, r) <==>
      (r == c.releaseId && o.releaseId != c.releaseId ==> InRelease(b, r) == [])
  {
    ThreeParts(a, o, b, r);
    ThreeParts(a, c, b, r);
    ReleaseLacks(a, r, c.iid);
    ReleaseLacks(b, r, c.iid);
    BucketCases(byRelease, InRelease(a, r), o, InRelease(b, r), c, r);
  }

  lemma {:induction false} ThreeParts(a: seq<Cached>, o: Cached, b: seq<Cached>, r: int)
    ensures InRelease(a + [o] + b, r) == InRelease(a, r) + Only(o, r) + InRelease(b, r)
  {
    InReleaseConcat(a + [o], b, r);
    InReleaseConcat(a, [o], r);
    assert [o][1..] == [];
    assert InRelease([o], r) == Only(o, r);
  }

  /** One bucket after a new record joined at the end of the list. */
  lemma {:induction false} BucketOfNew(s: seq<Cached>, byRelease: map<int, seq<Cached>>, c: Cached, r: int)
    requires IsRebuilt(s, byRelease) && forall x <- s :: x.iid != c.iid
    ensures Bucket(IndexUpserted(byRelease, None, c), r) == InRelease(s + [c], r)
  {
    assert Bucket(byRelease, r) == InRelease(s, r);
    InReleaseAppend(s, c, r);
    InReleaseIn(s, r);
    if r == c.releaseId { UpsertedNew(InRelease(s, r), c); }
  }

  lemma {:induction false} NoEmptyBucket(byRelease: map<int, seq<Cached>>, o: Option<Cached>, c: Cached)
    requires forall r <- byRelease :: byRelease[r] != []
    ensures var n := IndexUpserted(byRelease, o, c); forall r <- n :: n[r] != []
  {
    var n := IndexUpserted(byRelease, o, c);
    assert n[c.releaseId] != [];
  }

  lemma {:induction false} KnownKeepsOrderIff(a: seq<Cached>, o: Cached, b: seq<Cached>,
                                              byRelease: map<int, seq<Cached>>, c: Cached)
    requires IsRebuilt(a + [o] + b, byRelease)
    requires o.iid == c.iid && NoneHas(a, c.iid) && NoneHas(b, c.iid)
    ensures IsRebuilt(a + [c] + b, IndexUpserted(byRelease, Some(o), c)) <==>
      (o.releaseId != c.releaseId ==> forall x <- b :: x.releaseId != c.releaseId)
  {
    var n := IndexUpserted(byRelease, Some(o), c);
    NoEmptyBucket(byRelease, Some(o), c);
    forall r
      ensures Bucket(n, r) == InRelease(a + [c] + b, r) <==>
        (r == c.releaseId && o.releaseId != c.releaseId ==> InRelease(b, r) == [])
    {
      assert Bucket(byRelease, r) == InRelease(a + [o] + b, r);
      BucketOfKnown(a, o, b, byRelease, c, r);
    }
    InReleaseIn(b, c.releaseId);
    assert InRelease(b, c.releaseId) == [] <==> forall x <- b :: x.releaseId != c.releaseId by {
      if InRelease(b, c.releaseId) != [] {
        var x := InRelease(b, c.releaseId)[0];
        assert x in InRelease(b, c.releaseId);
      }
    }
  }

  /**
   * After an upsert the release index is the one a rebuild would yield, order included, if and only if the record does
   * not join a release behind a record that comes later in the list.
   */
  lemma {:induction false} UpsertKeepsOrderIff(s: seq<Cached>, byRelease: map<int, seq<Cached>>, c: Cached)
    requires DistinctIids(s) && IsRebuilt(s, byRelease)
    ensures IsRebuilt(Upserted(s, c), IndexUpserted(byRelease, Find(s, c.iid), c)) <==> !JoinsTooLate(s, c)
  {
    FindIs(s, c.iid);
    if Find(s, c.iid).None? {
      UpsertedNew(s, c);
      NoEmptyBucket(byRelease, None, c);
      forall r ensures Bucket(IndexUpserted(byRelease, None, c), r) == InRelease(s + [c], r) {
        BucketOfNew(s, byRelease, c, r);
      }
      forall i | 0 <= i < |s| ensures s[i].iid != c.iid { assert s[i] in s; }
    } else {
      var o := Find(s, c.iid).value;
      var k :| 0 <= k < |s| && s[k] == o;
      KnownUpsertIff(s, k, byRelease, c);
    }
  }

  lemma {:induction false} KnownUpsertIff(s: seq<Cached>, k: nat, byRelease: map<int, seq<Cached>>, c: Cached)
    requires DistinctIids(s) && IsRebuilt(s, byRelease) && k < |s| && s[k].iid == c.iid
    ensures IsRebuilt(Upserted(s, c), IndexUpserted(byRelease, Some(s[k]), c)) <==> !JoinsTooLate(s, c)
  {
    var a, o, b := s[..k], s[k], s[k + 1..];
    assert s == a + [o] + b;
    forall x: Cached | x in a ensures x.iid != c.iid {
      var i :| 0 <= i < |a| && a[i] == x;
      assert s[i] == x;
    }
    forall x: Cached | x in b ensures x.iid != c.iid {
      var i :| 0 <= i < |b| && b[i] == x;
      assert s[k + 1 + i] == x;
    }
    UpsertedMiddle(a, o, b, c);
    KnownKeepsOrderIff(a, o, b, byRelease, c);
    LaterIff(s, k, c);
  }

  lemma {:induction false} LaterIff(s: seq<Cached>, k: nat, c: Cached)
    requires DistinctIids(s) && k < |s| && s[k].iid == c.iid
    ensures JoinsTooLate(s, c) <==>
      s[k].releaseId != c.releaseId && exists x <- s[k + 1..] :: x.releaseId == c.releaseId
  {
    var b := s[k + 1..];
    if JoinsTooLate(s, c) {
      var i, j :| 0 <= i < j < |s|
        && s[i].iid == c.iid && s[i].releaseId != c.releaseId && s[j].releaseId == c.releaseId;
      assert i == k;
      assert b[j - k - 1] == s[j];
    }
    if s[k].releaseId != c.releaseId && exists x <- b :: x.releaseId == c.releaseId {
      var x :| x in b && x.releaseId == c.releaseId;
      var j :| 0 <= j < |b| && b[j] == x;
      assert s[k + 1 + j] == x;
    }
  }
}
