/** The `Queue` object: its methods update the in-memory fields and the store in place (queuelogic/logic.go). */
module QueueService {
  import opened Basics
  import opened QueueProgress
  import opened TaskQueue

  class Queue {
    var keys: seq<int>
    var pMap: map<int, Priority>
    var userCounts: map<string, int>
    var hMap: set<string>
    var store: map<int, Task>

    function Contents(): State
      reads this
    {
      State(keys, pMap, userCounts, hMap, store)
    }

    /** GetQueueWithGHClient: rebuilds the fields from the store, whose keys it lists in `order`. */
    constructor (stored: map<int, Task>, order: seq<int>)
      requires Lists(order, stored)
      ensures Contents() == Restart(stored, order)
    {
      var priorities := LoadPriorities(stored, order);
      var counts := LoadCounts(stored, order);
      RestartFields(stored, order);
      keys, pMap, userCounts, hMap, store := order, priorities, counts, {}, stored;
    }

    static method LoadPriorities(stored: map<int, Task>, order: seq<int>) returns (priorities: map<int, Priority>)
      requires forall k <- order :: k in stored
      ensures priorities == Restart(stored, order).pMap
    {
      priorities := map[];
      for i := 0 to |order|
        invariant priorities == Restart(stored, order[..i]).pMap
      {
        assert order[..i + 1][..i] == order[..i];
        var k := order[i];
        assert k in order;
        priorities := priorities[k := stored[k].priority];
      }
      assert order[..|order|] == order;
    }

    static method LoadCounts(stored: map<int, Task>, order: seq<int>) returns (counts: map<string, int>)
      requires forall k <- order :: k in stored
      ensures counts == Restart(stored, order).userCounts
    {
      counts := map[];
      for i := 0 to |order|
        invariant counts == Restart(stored, order[..i]).userCounts
      {
        assert order[..i + 1][..i] == order[..i];
        var k := order[i];
        assert k in order;
        var auth := stored[k].auth;
        counts := counts[auth := (if auth in counts then counts[auth] else 0) + 1];
      }
      assert order[..|order|] == order;
    }

    method Enqueue(r: Request) returns (outcome: Outcome)
      modifies this
      ensures (Contents(), outcome) == EnqueueSpec(old(Contents()), r)
      ensures outcome == Accepted <==> Admitted(old(Contents()), r)
      ensures if outcome == Accepted then Added(old(Contents()), r.task, Contents())
        else Contents() == old(Contents()).(hMap := hMap)
    {
      EnqueueAddsIff(Contents(), r);
      var e := r.task;
      if |keys| > MAX_QUEUE && !e.priority.High? { return QueueFull; }
      if !r.valid { return Rejected; }
      if e.key != "" {
        if e.key in hMap { return AlreadyQueued; }
        hMap := hMap + {e.key};
      }
      if Throttlable(e.kind) {
        var count := if e.auth in userCounts then userCounts[e.auth] else 0;
        if count >= MAX_USER_QUEUE { return UserLimitReached; }
      }
      if !r.written { return StoreFailed; }
      store := store[e.runDate := e];
      keys := keys + [e.runDate];
      pMap := pMap[e.runDate := e.priority];
      userCounts := userCounts[e.auth := (if e.auth in userCounts then userCounts[e.auth] else 0) + 1];
      outcome := Accepted;
    }

    /** Rewrites `keys` without the dead ones. */
    method DropKeys(dead: set<int>)
      modifies this`keys
      ensures keys == Remaining(old(keys), dead)
    {
      var nkeys: seq<int> := [];
      for i := 0 to |keys|
        invariant keys == old(keys) && nkeys == Remaining(keys[..i], dead)
      {
        assert keys[..i + 1][..i] == keys[..i];
        if keys[i] !in dead { nkeys := nkeys + [keys[i]]; }
      }
      assert keys[..|keys|] == keys;
      keys := nkeys;
    }

    method Delete(e: Task)
      modifies this
      ensures Contents() == DeleteSpec(old(Contents()), e)
    {
      DropKeys({e.runDate});
      pMap := pMap - {e.runDate};
      userCounts := userCounts[e.auth := (if e.auth in userCounts then userCounts[e.auth] else 0) - 1];
      if e.key != "" { hMap := hMap - {e.key}; }
      store := store - {e.runDate};
    }

    /** The first half of Drain: deletes the matching tasks from the store and remembers them. */
    method DrainStore(t: DrainType, order: seq<int>) returns (entries: seq<Task>)
      requires Lists(order, store) && forall k <- store :: store[k].runDate == k
      modifies this`store
      ensures store == old(store) - Drained(old(Contents()), t)
      ensures AreDrained(old(Contents()), t, entries)
    {
      ghost var before := store;
      entries := [];
      for i := 0 to |order|
        invariant store == before - Seen(before, t, order[..i]) && Collected(before, t, order[..i], entries)
      {
        CollectNext(before, t, order, i, entries);
        var k := order[i];
        var entry := store[k];
        if Drains(t, entry.kind) {
          store := store - {k};
          entries := entries + [entry];
        }
      }
      assert order[..|order|] == order;
      AllCollected(old(Contents()), t, order, entries);
    }

    /** The second half of Drain: forgets the drained tasks; tasks without a user were never counted down. */
    method Forget(entries: seq<Task>)
      requires DistinctDates(entries)
      modifies this`pMap, this`userCounts, this`hMap
      ensures Forgot(old(Contents()), entries, Contents())
    {
      for i := 0 to |entries|
        invariant Forgot(old(Contents()), entries[..i], Contents())
      {
        ghost var before := Contents();
        var e := entries[i];
        ForgetStep(old(Contents()), entries, i, before);
        pMap := pMap - {e.runDate};
        if e.auth != "" {
          userCounts := userCounts[e.auth := (if e.auth in userCounts then userCounts[e.auth] else 0) - 1];
        }
        if e.key != "" { hMap := hMap - {e.key}; }
        assert Contents() == ForgetOne(before, e);
      }
      assert entries[..|entries|] == entries;
    }

    method Drain(t: DrainType, order: seq<int>) returns (count: nat)
      requires Lists(order, store) && forall k <- store :: store[k].runDate == k
      modifies this
      ensures DrainSpec(old(Contents()), t, Contents(), count)
    {
      ghost var s := Contents();
      var entries := DrainStore(t, order);
      count := |entries|;
      var dead := set i | 0 <= i < |entries| :: entries[i].runDate;
      DrainedDates(s, t, entries, dead);
      DropKeys(dead);
      ghost var dropped := Contents();
      Forget(entries);
      DrainDone(s, t, entries, dropped, Contents());
      pMap := pMap - dead;
    }

    /** Which stored task comes next; a key without a stored task is dropped instead. */
    method GetNextEntry() returns (entry: Option<Task>)
      modifies this`keys, this`pMap
      ensures old(keys) == [] ==> entry == None && unchanged(this)
      ensures old(keys) != [] && Select(old(Contents())) in store ==>
        entry == Some(store[Select(old(Contents()))]) && unchanged(this)
      ensures old(keys) != [] && Select(old(Contents())) !in store ==>
        && entry == None
        && keys == Remaining(old(keys), {Select(old(Contents()))}) && pMap == old(pMap) - {Select(old(Contents()))}
    {
      if |keys| == 0 { return None; }
      var sorted := SortKeys(keys);
      SortedKeys(keys);
      var foundKey := FindPriority(sorted, High);
      if foundKey == -1 { foundKey := FindPriority(sorted, Normal); }
      if foundKey == -1 { foundKey := sorted[0]; }
      if foundKey in store { return Some(store[foundKey]); }
      DropKeys({foundKey});
      pMap := pMap - {foundKey};
      entry := None;
    }

    method FindPriority(sorted: seq<int>, p: Priority) returns (foundKey: int)
      ensures foundKey == FirstWith(sorted, pMap, p)
    {
      for i := 0 to |sorted|
        invariant FirstWith(sorted[i..], pMap, p) == FirstWith(sorted, pMap, p)
      {
        assert sorted[i..][1..] == sorted[i + 1..];
        if sorted[i] in pMap && pMap[sorted[i]] == p { return sorted[i]; }
      }
      foundKey := -1;
    }

    /**
     * One round of Run: the next task runs, its handler enqueues `issued` and leaves the task with the key `key`,
     * and the queue reacts to the result.
     */
    method RunOnce(issued: seq<Request>, key: string, result: Result)
      requires keys != [] && Select(Contents()) in store
      modifies this
      ensures Contents() ==
        Finish(EnqueueAll(old(Contents()), issued), old(Contents()).store[Select(old(Contents()))], key, result)
      ensures Inv(old(Contents())) && FreshAll(old(Contents()), issued) ==>
        RoundEnds(old(Contents()), issued, key, result, Contents())
    {
      ghost var s := Contents();
      if Inv(s) && FreshAll(s, issued) { RoundIsSafe(s, issued, key, result); }
      var next := GetNextEntry();
      var entry := next.value.(key := key);
      for i := 0 to |issued|
        invariant Contents() == EnqueueAll(s, issued[..i])
      {
        assert issued[..i + 1][..i] == issued[..i];
        var _ := Enqueue(issued[i]);
      }
      assert issued[..|issued|] == issued;
      match result {
        case Success =>
          if key != "" { hMap := hMap - {key}; }
          Delete(entry);
        case Gone => Delete(entry);
        case Backoff =>
        case InternalError(date, valid, written) =>
          Delete(entry);
          var _ := Enqueue(Request(entry.(runDate := date), valid, written));
        case DeadLetter(saved) =>
          if saved { Delete(entry); }
      }
    }
  }

  // ---- Bookkeeping of a drain ----

  /** The matching tasks among the keys listed so far. */
  ghost function Seen(store: map<int, Task>, t: DrainType, listed: seq<int>): set<int> {
    set k | k in listed && k in store && Drains(t, store[k].kind)
  }

  lemma {:induction false} SeenNext(store: map<int, Task>, t: DrainType, order: seq<int>, i: nat)
    requires Lists(order, store) && i < |order|
    ensures order[i] in store && order[i] !in order[..i]
    ensures Seen(store, t, order[..i + 1]) ==
      Seen(store, t, order[..i]) + (if Drains(t, store[order[i]].kind) then {order[i]} else {})
    ensures forall k :: k in order[..i] ==> k in order[..i + 1]
    ensures order[i] in order[..i + 1]
  {
    var k := order[i];
    assert order[..i + 1] == order[..i] + [k];
    assert k in order;
    var seen := Seen(store, t, order[..i]) + (if Drains(t, store[k].kind) then {k} else {});
    assert forall x <- Seen(store, t, order[..i + 1]) :: x in seen;
    assert forall x <- seen :: x in Seen(store, t, order[..i + 1]);
  }

  /** The matching tasks among the keys listed so far, once each. */
  ghost predicate Collected(store: map<int, Task>, t: DrainType, listed: seq<int>, entries: seq<Task>) {
    && DistinctDates(entries)
    && (forall e <- entries ::
          e.runDate in listed && e.runDate in store && e == store[e.runDate] && Drains(t, e.kind))
    && (forall k <- Seen(store, t, listed) :: store[k] in entries)
  }

  lemma {:induction false} CollectNext(store: map<int, Task>, t: DrainType, order: seq<int>, i: nat, entries: seq<Task>)
    requires Lists(order, store) && i < |order| && Collected(store, t, order[..i], entries)
    requires forall k <- store :: store[k].runDate == k
    ensures order[i] in store - Seen(store, t, order[..i])
    ensures var e := store[order[i]];
      if Drains(t, e.kind) then
        && Collected(store, t, order[..i + 1], entries + [e])
        && store - Seen(store, t, order[..i + 1]) == store - Seen(store, t, order[..i]) - {order[i]}
      else
        Collected(store, t, order[..i + 1], entries) && Seen(store, t, order[..i + 1]) == Seen(store, t, order[..i])
  {
    SeenNext(store, t, order, i);
    var k := order[i];
    var e := store[k];
    if Drains(t, e.kind) {
      SubtractTwice(store, Seen(store, t, order[..i]), k);
      forall j | 0 <= j < |entries| ensures entries[j].runDate != e.runDate {
        assert entries[j] in entries;
      }
      forall f <- entries + [e] ensures f.runDate in order[..i + 1] { }
    }
  }

  lemma {:induction false} SubtractTwice<K, V>(m: map<K, V>, dead: set<K>, k: K)
    ensures m - (dead + {k}) == m - dead - {k}
  {
  }

  lemma {:induction false} AllCollected(s: State, t: DrainType, order: seq<int>, entries: seq<Task>)
    requires Lists(order, s.store) && Collected(s.store, t, order, entries)
    requires forall k <- s.store :: s.store[k].runDate == k
    ensures Seen(s.store, t, order) == Drained(s, t) && AreDrained(s, t, entries)
  {
    assert forall k <- Seen(s.store, t, order) :: k in Drained(s, t);
    assert forall k <- Drained(s, t) :: k in Seen(s.store, t, order);
    assert Seen(s.store, t, order) == Drained(s, t);
  }

  ghost function Dates(entries: seq<Task>): set<int> { set e | e in entries :: e.runDate }

  ghost function Marks(entries: seq<Task>): set<string> { set e | e in entries && e.key != "" :: e.key }

  ghost function Owned(entries: seq<Task>, u: string): set<int> { set e | e in entries && e.auth == u :: e.runDate }

  ghost predicate DistinctDates(entries: seq<Task>) {
    forall i, j :: 0 <= i < j < |entries| ==> entries[i].runDate != entries[j].runDate
  }

  lemma {:induction false} NextDate(entries: seq<Task>, i: nat)
    requires i < |entries|
    ensures Dates(entries[..i + 1]) == Dates(entries[..i]) + {entries[i].runDate}
    ensures Marks(entries[..i + 1]) == Marks(entries[..i]) + (if entries[i].key != "" then {entries[i].key} else {})
  {
    assert entries[..i + 1] == entries[..i] + [entries[i]];
  }

  lemma {:induction false} NextOwned(entries: seq<Task>, i: nat, u: string)
    requires i < |entries| && DistinctDates(entries)
    ensures |Owned(entries[..i + 1], u)| == |Owned(entries[..i], u)| + (if entries[i].auth == u then 1 else 0)
  {
    assert entries[..i + 1] == entries[..i] + [entries[i]];
    if entries[i].auth == u {
      assert entries[i].runDate !in Owned(entries[..i], u);
      assert Owned(entries[..i + 1], u) == Owned(entries[..i], u) + {entries[i].runDate};
    } else {
      assert Owned(entries[..i + 1], u) == Owned(entries[..i], u);
    }
  }

  function ForgetOne(s: State, e: Task): State {
    Unmark(s, e.key).(
      pMap := s.pMap - {e.runDate},
      userCounts := if e.auth == "" then s.userCounts else s.userCounts[e.auth := Count(s, e.auth) - 1])
  }

  /** `n` is `s` with the entries forgotten. */
  ghost predicate Forgot(s: State, entries: seq<Task>, n: State) {
    && n.keys == s.keys && n.store == s.store
    && n.pMap == s.pMap - Dates(entries)
    && n.hMap == s.hMap - Marks(entries)
    && forall u :: Count(n, u) == Count(s, u) - (if u == "" then 0 else |Owned(entries, u)|)
  }

  lemma {:induction false} ForgetStep(s: State, entries: seq<Task>, i: nat, n: State)
    requires i < |entries| && DistinctDates(entries) && Forgot(s, entries[..i], n)
    ensures Forgot(s, entries[..i + 1], ForgetOne(n, entries[i]))
  {
    NextDate(entries, i);
    var m := ForgetOne(n, entries[i]);
    forall u ensures Count(m, u) == Count(s, u) - (if u == "" then 0 else |Owned(entries[..i + 1], u)|) {
      NextOwned(entries, i, u);
    }
  }

  lemma {:induction false} DrainDone(s: State, t: DrainType, entries: seq<Task>, dropped: State, n: State)
    requires AreDrained(s, t, entries) && Forgot(dropped, entries, n)
    requires dropped == s.(keys := Remaining(s.keys, Drained(s, t)), store := s.store - Drained(s, t))
    ensures DrainSpec(s, t, n, |entries|) && n.pMap == n.pMap - Drained(s, t)
  {
    DrainedDates(s, t, entries, set i | 0 <= i < |entries| :: entries[i].runDate);
    DrainedTotals(s, t, entries);
    forall u ensures Count(n, u) == Count(s, u) - (if u == "" then 0 else |StoredFor(s.store, u) * Drained(s, t)|) {
      assert Count(dropped, u) == Count(s, u);
    }
  }

  /** The entries a drain remembers are the drained tasks, once each. */
  ghost predicate AreDrained(s: State, t: DrainType, entries: seq<Task>) {
    && DistinctDates(entries)
    && (forall e <- entries :: e.runDate in s.store && e == s.store[e.runDate] && Drains(t, e.kind))
    && (forall k <- Drained(s, t) :: s.store[k] in entries && s.store[k].runDate == k)
  }

  lemma {:induction false} DrainedDates(s: State, t: DrainType, entries: seq<Task>, dead: set<int>)
    requires AreDrained(s, t, entries) && dead == set i | 0 <= i < |entries| :: entries[i].runDate
    ensures dead == Drained(s, t) == Dates(entries)
  {
    forall k ensures k in dead <==> k in Drained(s, t) {
      if k in Drained(s, t) {
        var i :| 0 <= i < |entries| && entries[i] == s.store[k];
      }
    }
    forall k ensures k in dead <==> k in Dates(entries) {
      if k in dead {
        var i :| 0 <= i < |entries| && entries[i].runDate == k;
        assert entries[i] in entries;
      }
    }
  }

  lemma {:induction false} CountEntries(entries: seq<Task>)
    requires DistinctDates(entries)
    ensures |Dates(entries)| == |entries|
  {
    if entries != [] {
      CountEntries(entries[..|entries| - 1]);
      NextDate(entries, |entries| - 1);
      assert entries[..|entries|] == entries;
      assert entries[|entries| - 1].runDate !in Dates(entries[..|entries| - 1]);
    }
  }

  lemma {:induction false} DrainedTotals(s: State, t: DrainType, entries: seq<Task>)
    requires AreDrained(s, t, entries)
    ensures |entries| == |Drained(s, t)|
    ensures Marks(entries) == set k | k in Drained(s, t) && s.store[k].key != "" :: s.store[k].key
    ensures forall u :: Owned(entries, u) == StoredFor(s.store, u) * Drained(s, t)
  {
    DrainedDates(s, t, entries, set i | 0 <= i < |entries| :: entries[i].runDate);
    CountEntries(entries);
    forall x
      ensures x in Marks(entries) <==> x in (set k | k in Drained(s, t) && s.store[k].key != "" :: s.store[k].key)
    {
      if x in Marks(entries) {
        var e :| e in entries && e.key != "" && e.key == x;
        assert e.runDate in Drained(s, t);
      }
    }
    forall u, k ensures k in Owned(entries, u) <==> k in StoredFor(s.store, u) * Drained(s, t) {
      if k in StoredFor(s.store, u) * Drained(s, t) { assert s.store[k] in entries; }
    }
  }
}
