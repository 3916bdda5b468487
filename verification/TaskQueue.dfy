/** The background task queue: its states, its operations and what every run keeps (queuelogic/logic.go). */
module TaskQueue {
  import opened Basics
  import StableSorting

  datatype Priority = UnknownPriority | Low | High | Normal

  datatype Kind =
    | RefreshRelease | RefreshEarliestReleaseDates | RefreshEarliestReleaseDate | RefreshWant
    | RefreshCollectionEntry | RefreshSales | ReconcileSales | OtherKind

  /** A queued task. `key` is its deduplication key, "" for none. */
  datatype Task = Task(runDate: int, auth: string, kind: Kind, priority: Priority, key: string)

  datatype Outcome = Accepted | QueueFull | Rejected | AlreadyQueued | UserLimitReached | StoreFailed

  const MAX_QUEUE := 100000
  const MAX_USER_QUEUE := 200

  /** The in-memory fields next to the persistent store. */
  datatype State = State(
    keys: seq<int>, pMap: map<int, Priority>, userCounts: map<string, int>, hMap: set<string>, store: map<int, Task>)

  const EMPTY := State([], map[], map[], {}, map[])

  function Count(s: State, user: string): int {
    if user in s.userCounts then s.userCounts[user] else 0
  }

  predicate Throttlable(k: Kind) {
    k.RefreshRelease? || k.RefreshEarliestReleaseDates? || k.RefreshEarliestReleaseDate? || k.RefreshWant?
  }

  // ---- The operations on states ----

  /** An enqueue request, with the verdict of the handler's validation and of the store write. */
  datatype Request = Request(task: Task, valid: bool, written: bool)

  function Mark(s: State, key: string): State {
    if key == "" then s else s.(hMap := s.hMap + {key})
  }

  function Unmark(s: State, key: string): State {
    if key == "" then s else s.(hMap := s.hMap - {key})
  }

  function EnqueueSpec(s: State, r: Request): (State, Outcome) {
    var e := r.task;
    if |s.keys| > MAX_QUEUE && !e.priority.High? then (s, QueueFull)
    else if !r.valid then (s, Rejected)
    else if e.key != "" && e.key in s.hMap then (s, AlreadyQueued)
    else
      var m := Mark(s, e.key);
      if Throttlable(e.kind) && Count(s, e.auth) >= MAX_USER_QUEUE then (m, UserLimitReached)
      else if !r.written then (m, StoreFailed)
      else
        (m.(keys := s.keys + [e.runDate], pMap := s.pMap[e.runDate := e.priority],
            userCounts := s.userCounts[e.auth := Count(s, e.auth) + 1], store := s.store[e.runDate := e]), Accepted)
  }

  /** The keys that are not in `dead`. */
  function Remaining(keys: seq<int>, dead: set<int>): seq<int> {
    if keys == [] then []
    else Remaining(keys[..|keys| - 1], dead) + (if keys[|keys| - 1] in dead then [] else [keys[|keys| - 1]])
  }

  function DeleteSpec(s: State, e: Task): State {
    Unmark(s, e.key).(
      keys := Remaining(s.keys, {e.runDate}), pMap := s.pMap - {e.runDate},
      userCounts := s.userCounts[e.auth := Count(s, e.auth) - 1], store := s.store - {e.runDate})
  }

  datatype DrainType = Everything | JustReleaseDates | JustWants | JustRefresh | JustSales

  predicate Drains(t: DrainType, k: Kind) {
    match t
    case Everything => true
    case JustReleaseDates => k.RefreshEarliestReleaseDate? || k.RefreshEarliestReleaseDates?
    case JustWants => k.RefreshWant?
    case JustRefresh => k.RefreshCollectionEntry?
    case JustSales => k.RefreshSales? || k.ReconcileSales?
  }

  ghost function Drained(s: State, t: DrainType): set<int> {
    set k | k in s.store && Drains(t, s.store[k].kind)
  }

  /** The stored tasks of a user. */
  ghost function StoredFor(store: map<int, Task>, user: string): set<int> {
    set k | k in store && store[k].auth == user
  }

  /** The new state of a drain, up to how zero counts are represented. */
  ghost predicate DrainSpec(s: State, t: DrainType, n: State, count: int) {
    var dead := Drained(s, t);
    && count == |dead|
    && n.keys == Remaining(s.keys, dead)
    && n.pMap == s.pMap - dead
    && n.store == s.store - dead
    && n.hMap == s.hMap - (set k | k in dead && s.store[k].key != "" :: s.store[k].key)
    && (forall u :: Count(n, u) == Count(s, u) - (if u == "" then 0 else |StoredFor(s.store, u) * dead|))
  }

  /** How running a task ended. */
  datatype Result =
    | Success
    | Gone                                  // the user or the object does not exist any more, or a queue limit was hit
    | Backoff                               // rate limited: the task stays where it is
    | InternalError(retryDate: int, valid: bool, written: bool)
    | DeadLetter(saved: bool)

  function EnqueueAll(s: State, rs: seq<Request>): State {
    if rs == [] then s else EnqueueSpec(EnqueueAll(s, rs[..|rs| - 1]), rs[|rs| - 1]).0
  }

  /** What becomes of task `e`, whose key is `key` after its handler has run. */
  function Finish(s: State, e: Task, key: string, result: Result): State {
    var f := e.(key := key);
    match result
    case Success => DeleteSpec(Unmark(s, key), f)
    case Gone => DeleteSpec(s, f)
    case Backoff => s
    case InternalError(date, valid, written) =>
      EnqueueSpec(DeleteSpec(s, f), Request(f.(runDate := date), valid, written)).0
    case DeadLetter(saved) => if saved then DeleteSpec(s, f) else s
  }

  // ---- Invariants ----

  /** The four in-memory structures agree with the store. */
  ghost predicate Rep(s: State) {
    && (forall i, j :: 0 <= i < j < |s.keys| ==> s.keys[i] != s.keys[j])
    && (forall k :: k in s.keys <==> k in s.store)
    && s.pMap.Keys == s.store.Keys
    && (forall k <- s.store :: s.pMap[k] == s.store[k].priority && s.store[k].runDate == k)
    && (forall u :: if u == "" then Count(s, u) >= |StoredFor(s.store, u)| else Count(s, u) == |StoredFor(s.store, u)|)
  }

  ghost function ThrottledFor(store: map<int, Task>, user: string): set<int> {
    set k | k in store && store[k].auth == user && Throttlable(store[k].kind)
  }

  /** No user has more than 200 throttlable tasks stored. */
  ghost predicate Throttled(s: State) {
    forall u :: |ThrottledFor(s.store, u)| <= MAX_USER_QUEUE
  }

  /** At most one stored task per deduplication key, and each such key is marked. */
  ghost predicate Deduplicated(s: State) {
    && (forall j, k :: j in s.store && k in s.store && j != k && s.store[j].key != "" ==>
      s.store[j].key != s.store[k].key)
    && (forall k <- s.store :: s.store[k].key != "" ==> s.store[k].key in s.hMap)
  }

  ghost predicate Inv(s: State) { Rep(s) && Throttled(s) && Deduplicated(s) }

  // ---- Enqueue ----

  lemma {:induction false} StoredGrows(store: map<int, Task>, e: Task, u: string)
    requires e.runDate !in store
    ensures |StoredFor(store[e.runDate := e], u)| == |StoredFor(store, u)| + (if e.auth == u then 1 else 0)
  {
    if e.auth == u {
      assert StoredFor(store[e.runDate := e], u) == StoredFor(store, u) + {e.runDate};
    } else {
      assert StoredFor(store[e.runDate := e], u) == StoredFor(store, u);
    }
  }

  lemma {:induction false} ThrottledGrows(store: map<int, Task>, e: Task, u: string)
    requires e.runDate !in store
    ensures |ThrottledFor(store[e.runDate := e], u)| ==
      |ThrottledFor(store, u)| + (if e.auth == u && Throttlable(e.kind) then 1 else 0)
    ensures |ThrottledFor(store, u)| <= |StoredFor(store, u)|
  {
    SubsetSize(ThrottledFor(store, u), StoredFor(store, u));
    if e.auth == u && Throttlable(e.kind) {
      assert ThrottledFor(store[e.runDate := e], u) == ThrottledFor(store, u) + {e.runDate};
    } else {
      assert ThrottledFor(store[e.runDate := e], u) == ThrottledFor(store, u);
    }
  }

  /** An accepted request keeps the structures in agreement if and only if its run date is new. */
  lemma {:induction false} EnqueueKeepsRepIff(s: State, r: Request)
    requires Rep(s) && EnqueueSpec(s, r).1 == Accepted
    ensures Rep(EnqueueSpec(s, r).0) <==> r.task.runDate !in s.store
  {
    var n, e := EnqueueSpec(s, r).0, r.task;
    if e.runDate in s.store {
      assert e.runDate in s.keys;
      var i :| 0 <= i < |s.keys| && s.keys[i] == e.runDate;
      assert n.keys[i] == n.keys[|s.keys|];
    } else {
      forall u
        ensures if u == "" then Count(n, u) >= |StoredFor(n.store, u)| else Count(n, u) == |StoredFor(n.store, u)|
      {
        StoredGrows(s.store, e, u);
      }
      forall k ensures k in n.keys <==> k in n.store {
        assert k in n.keys <==> k in s.keys || k == e.runDate;
      }
    }
  }

  lemma {:induction false} EnqueueKeepsInv(s: State, r: Request)
    requires Inv(s) && (EnqueueSpec(s, r).1 == Accepted ==> r.task.runDate !in s.store)
    ensures Inv(EnqueueSpec(s, r).0)
  {
    var n, e := EnqueueSpec(s, r).0, r.task;
    if EnqueueSpec(s, r).1 == Accepted {
      EnqueueKeepsRepIff(s, r);
      forall u ensures |ThrottledFor(n.store, u)| <= MAX_USER_QUEUE {
        ThrottledGrows(s.store, e, u);
      }
    } else {
      assert n.store == s.store && n.keys == s.keys && n.pMap == s.pMap;
      assert n.userCounts == s.userCounts && n.hMap >= s.hMap;
      assert forall u :: Count(n, u) == Count(s, u);
    }
  }

  // ---- Delete ----

  lemma {:induction false} RemainingAre(keys: seq<int>, dead: set<int>)
    ensures forall k :: k in Remaining(keys, dead) <==> k in keys && k !in dead
    ensures (forall i, j :: 0 <= i < j < |keys| ==> keys[i] != keys[j]) ==>
      forall i, j :: 0 <= i < j < |Remaining(keys, dead)| ==> Remaining(keys, dead)[i] != Remaining(keys, dead)[j]
  {
    if keys != [] { RemainingAre(keys[..|keys| - 1], dead); }
  }

  lemma {:induction false} StoredShrinks(store: map<int, Task>, dead: set<int>, u: string)
    requires dead <= store.Keys
    ensures |StoredFor(store - dead, u)| == |StoredFor(store, u)| - |StoredFor(store, u) * dead|
    ensures |ThrottledFor(store - dead, u)| <= |ThrottledFor(store, u)|
  {
    assert StoredFor(store, u) == StoredFor(store - dead, u) + StoredFor(store, u) * dead;
    SubsetSize(ThrottledFor(store - dead, u), ThrottledFor(store, u));
  }

  lemma {:induction false} DeleteKeepsInv(s: State, e: Task)
    requires Inv(s) && e.runDate in s.store && s.store[e.runDate] == e
    ensures Inv(DeleteSpec(s, e))
  {
    var n := DeleteSpec(s, e);
    RemainingAre(s.keys, {e.runDate});
    forall u
      ensures if u == "" then Count(n, u) >= |StoredFor(n.store, u)| else Count(n, u) == |StoredFor(n.store, u)|
      ensures |ThrottledFor(n.store, u)| <= MAX_USER_QUEUE
    {
      StoredShrinks(s.store, {e.runDate}, u);
      if u == e.auth {
        assert StoredFor(s.store, u) * {e.runDate} == {e.runDate};
      } else {
        assert StoredFor(s.store, u) * {e.runDate} == {};
      }
    }
  }

  // ---- Drain ----

  lemma {:induction false} DrainKeepsInv(s: State, t: DrainType, n: State, count: int)
    requires Inv(s) && DrainSpec(s, t, n, count)
    ensures Inv(n)
  {
    var dead := Drained(s, t);
    RemainingAre(s.keys, dead);
    forall u
      ensures if u == "" then Count(n, u) >= |StoredFor(n.store, u)| else Count(n, u) == |StoredFor(n.store, u)|
      ensures |ThrottledFor(n.store, u)| <= MAX_USER_QUEUE
    {
      StoredShrinks(s.store, dead, u);
    }
  }

  /** The kinds of tasks that a drain is for. */
  predicate Matches(t: DrainType, k: Kind) {
    || t == Everything
    || (t == JustReleaseDates && k in {RefreshEarliestReleaseDate, RefreshEarliestReleaseDates})
    || (t == JustWants && k == RefreshWant)
    || (t == JustRefresh && k == RefreshCollectionEntry)
    || (t == JustSales && k in {RefreshSales, ReconcileSales})
  }

  lemma {:induction false} DrainsMatching(t: DrainType, k: Kind)
    ensures Drains(t, k) <==> Matches(t, k)
  {
  }

  lemma {:induction false} DrainTakesMatching(s: State, t: DrainType, n: State, count: int)
    requires DrainSpec(s, t, n, count)
    ensures forall k <- s.store :: k !in n.store <==> Matches(t, s.store[k].kind)
  {
    forall k <- s.store ensures k !in n.store <==> Matches(t, s.store[k].kind) {
      DrainsMatching(t, s.store[k].kind);
    }
  }

  /** A drain removes and counts exactly the matching tasks. */
  lemma {:induction false} DrainIsExact(s: State, t: DrainType, n: State, count: int)
    requires Inv(s) && DrainSpec(s, t, n, count)
    ensures forall k <- s.store :: k !in n.store <==> Matches(t, s.store[k].kind)
    ensures forall k <- n.store :: k in s.store && n.store[k] == s.store[k]
    ensures count == |s.store| - |n.store|
    ensures forall k :: k in n.keys <==> k in n.store
  {
    DrainTakesMatching(s, t, n, count);
    RemainingAre(s.keys, Drained(s, t));
    assert s.store.Keys == n.store.Keys + Drained(s, t);
    assert |s.store.Keys| == |s.store| && |n.store.Keys| == |n.store|;
  }

  // ---- Runs ----

  /** The requests a handler issues, each with a run date that is not stored when it is accepted. */
  ghost predicate FreshAll(s: State, rs: seq<Request>) {
    rs == [] ||
    (FreshAll(s, rs[..|rs| - 1]) && Fresh(EnqueueAll(s, rs[..|rs| - 1]), rs[|rs| - 1]))
  }

  ghost predicate Fresh(s: State, r: Request) {
    EnqueueSpec(s, r).1 == Accepted ==> r.task.runDate !in s.store
  }

  lemma {:induction false} EnqueueAllKeepsInv(s: State, rs: seq<Request>)
    requires Inv(s) && FreshAll(s, rs)
    ensures Inv(EnqueueAll(s, rs))
  {
    if rs != [] {
      EnqueueAllKeepsInv(s, rs[..|rs| - 1]);
      EnqueueKeepsInv(EnqueueAll(s, rs[..|rs| - 1]), rs[|rs| - 1]);
    }
  }

  lemma {:induction false} EnqueueAllKeepsTask(s: State, rs: seq<Request>, k: int)
    requires k in s.store && FreshAll(s, rs)
    ensures k in EnqueueAll(s, rs).store && EnqueueAll(s, rs).store[k] == s.store[k]
  {
    if rs != [] { EnqueueAllKeepsTask(s, rs[..|rs| - 1], k); }
  }

  datatype Op =
    | Enqueue(request: Request)
    | Execute(issued: seq<Request>, key: string, result: Result)
    | Drain(drainType: DrainType)

  /** The task to run next: of the highest rank stored, the earliest. */
  ghost predicate IsNext(s: State, k: int) {
    && k in s.store
    && (forall j <- s.store :: Rank(s.store[j].priority) <= Rank(s.store[k].priority))
    && (forall j <- s.store :: Rank(s.store[j].priority) == Rank(s.store[k].priority) ==> k <= j)
  }

  /** HIGH goes before NORMAL, and NORMAL before everything else. */
  function Rank(p: Priority): int {
    if p.High? then 2 else if p.Normal? then 1 else 0
  }

  function ByDate(): (int, int) -> bool {
    (a: int, b: int) => a < b
  }

  function SortKeys(keys: seq<int>): seq<int> {
    StableSorting.Sort(ByDate(), keys)
  }

  /** The first key of the given priority, or -1. */
  function FirstWith(keys: seq<int>, pMap: map<int, Priority>, p: Priority): int {
    if keys == [] then -1
    else if keys[0] in pMap && pMap[keys[0]] == p then keys[0]
    else FirstWith(keys[1..], pMap, p)
  }

  /** The key getNextEntry picks; -1 stands for "not found" in its search. */
  function Select(s: State): int
    requires s.keys != []
  {
    var high := FirstWith(SortKeys(s.keys), s.pMap, High);
    if high != -1 then high
    else
      var normal := FirstWith(SortKeys(s.keys), s.pMap, Normal);
      if normal != -1 then normal else if SortKeys(s.keys) == [] then -1 else SortKeys(s.keys)[0]
  }

  /** One step of the queue; the run dates of accepted requests are new. */
  ghost predicate Step(s: State, op: Op, n: State) {
    match op
    case Enqueue(r) => Fresh(s, r) && n == EnqueueSpec(s, r).0
    case Execute(issued, key, result) =>
      if s.keys == [] then n == s
      else Select(s) in s.store && FreshAll(s, issued) && ExecuteStep(s, s.store[Select(s)], issued, key, result, n)
    case Drain(t) => exists count :: DrainSpec(s, t, n, count)
  }

  ghost predicate ExecuteStep(s: State, e: Task, issued: seq<Request>, key: string, result: Result, n: State) {
    var after := EnqueueAll(s, issued);
    && n == Finish(after, e, key, result)
    && Harmless(after, e, key, result)
  }

  /** A retry has a new run date, and a handler that changes the key of its task does not hit the key of another one. */
  ghost predicate Harmless(s: State, e: Task, key: string, result: Result) {
    && KeyIsFree(s, e, key)
    && (result.InternalError? ==>
          Fresh(DeleteSpec(s, e.(key := key)),
                Request(e.(runDate := result.retryDate, key := key), result.valid, result.written)))
  }

  ghost predicate KeyIsFree(s: State, e: Task, key: string) {
    key == "" || forall k <- s.store :: k != e.runDate ==> s.store[k].key != key
  }

  /** Clearing the mark of a key that no stored task carries does no harm. */
  lemma {:induction false} ClearFreeKey(s: State, n: State)
    requires Inv(s) && n == s.(hMap := n.hMap)
    requires forall k <- s.store :: s.store[k].key != "" ==> s.store[k].key in n.hMap
    ensures Inv(n)
  {
    assert forall u :: Count(n, u) == Count(s, u);
  }

  /**
   * Deleting a task whose key changed while it ran (a sales refresh turns page 0 into page 1) keeps the
   * invariant if and only if no other stored task carries the new key.
   */
  lemma {:induction false} ChangedKeyIff(s: State, e: Task, key: string)
    requires Inv(s) && e.runDate in s.store && s.store[e.runDate] == e
    ensures Inv(DeleteSpec(s, e.(key := key))) <==> KeyIsFree(s, e, key)
  {
    DeleteKeepsInv(s, e);
    var n := DeleteSpec(s, e.(key := key));
    if KeyIsFree(s, e, key) {
      ClearFreeKey(DeleteSpec(s, e), n);
    } else {
      var k :| k in s.store && k != e.runDate && s.store[k].key == key;
      assert k in n.store && key !in n.hMap;
    }
  }

  /**
   * The old key of such a task stays marked, with nothing stored under it, if and only if the key did change;
   * and then every request with the old key is refused.
   */
  lemma {:induction false} OldKeyLeaksIff(s: State, e: Task, key: string, r: Request)
    requires Inv(s) && e.runDate in s.store && s.store[e.runDate] == e && e.key != "" && r.task.key == e.key
    ensures var n := DeleteSpec(s, e.(key := key));
      && (forall k <- n.store :: n.store[k].key != e.key)
      && (e.key in n.hMap <==> key != e.key)
      && (key != e.key ==> EnqueueSpec(n, r).1 in {QueueFull, Rejected, AlreadyQueued})
  {
  }

  lemma {:induction false} FinishKeepsInv(s: State, e: Task, key: string, result: Result)
    requires Inv(s) && e.runDate in s.store && s.store[e.runDate] == e && Harmless(s, e, key, result)
    ensures Inv(Finish(s, e, key, result))
  {
    var f := e.(key := key);
    ChangedKeyIff(s, e, key);
    match result
    case Success => assert DeleteSpec(Unmark(s, key), f) == DeleteSpec(s, f);
    case InternalError(date, valid, written) =>
      EnqueueKeepsInv(DeleteSpec(s, f), Request(f.(runDate := date), valid, written));
    case _ =>
  }

  lemma {:induction false} StepKeepsInv(s: State, op: Op, n: State)
    requires Inv(s) && Step(s, op, n)
    ensures Inv(n)
  {
    match op
    case Enqueue(r) => EnqueueKeepsInv(s, r);
    case Execute(issued, key, result) =>
      if s.keys != [] {
        EnqueueAllKeepsInv(s, issued);
        EnqueueAllKeepsTask(s, issued, Select(s));
        FinishKeepsInv(EnqueueAll(s, issued), s.store[Select(s)], key, result);
      }
    case Drain(t) =>
      var count :| DrainSpec(s, t, n, count);
      DrainKeepsInv(s, t, n, count);
  }

  ghost predicate IsRun(states: seq<State>, ops: seq<Op>) {
    && |states| == |ops| + 1
    && states[0] == EMPTY
    && forall i :: 0 <= i < |ops| ==> Step(states[i], ops[i], states[i + 1])
  }

  /**
   * Safety over every run from an empty queue, with handlers enqueueing while they run: the in-memory
   * structures agree with the store, no user exceeds the limit, and no deduplication key is stored twice.
   */
  lemma {:induction false} RunsAreSafe(states: seq<State>, ops: seq<Op>, i: nat)
    requires IsRun(states, ops) && i < |states|
    ensures Inv(states[i])
  {
    if i == 0 {
      assert forall u :: StoredFor(EMPTY.store, u) == {} && ThrottledFor(EMPTY.store, u) == {};
    } else {
      RunsAreSafe(states, ops, i - 1);
      StepKeepsInv(states[i - 1], ops[i - 1], states[i]);
    }
  }

  // ---- Selection ----

  lemma {:induction false} SortedKeys(keys: seq<int>)
    ensures forall k :: k in SortKeys(keys) <==> k in keys
    ensures forall i, j :: 0 <= i < j < |SortKeys(keys)| ==> SortKeys(keys)[i] <= SortKeys(keys)[j]
    ensures |SortKeys(keys)| == |keys|
  {
    var lt := ByDate();
    StableSorting.SortPermutes(lt, keys);
    StableSorting.SortSorts(lt, keys);
    forall k ensures k in SortKeys(keys) <==> k in keys {
      assert k in multiset(SortKeys(keys)) <==> k in multiset(keys);
    }
    forall i, j | 0 <= i < j < |SortKeys(keys)| ensures SortKeys(keys)[i] <= SortKeys(keys)[j] {
      assert !lt(SortKeys(keys)[j], SortKeys(keys)[i]);
    }
  }

  lemma {:induction false} FirstWithIsLeast(keys: seq<int>, pMap: map<int, Priority>, p: Priority)
    requires forall i, j :: 0 <= i < j < |keys| ==> keys[i] <= keys[j]
    ensures var k := FirstWith(keys, pMap, p);
      if k in keys && k in pMap && pMap[k] == p then forall j <- keys :: j in pMap && pMap[j] == p ==> k <= j
      else k == -1 && forall j <- keys :: j in pMap ==> pMap[j] != p
  {
    if keys != [] && !(keys[0] in pMap && pMap[keys[0]] == p) {
      FirstWithIsLeast(keys[1..], pMap, p);
      assert keys == [keys[0]] + keys[1..];
    }
  }

  /** `k` is the earliest stored task of priority `p`, or else there is none, and `k` is -1. */
  ghost predicate EarliestOf(s: State, p: Priority, k: int) {
    if k in s.store && s.store[k].priority == p then forall j <- s.store :: s.store[j].priority == p ==> k <= j
    else k == -1 && forall j <- s.store :: s.store[j].priority != p
  }

  lemma {:induction false} FirstWithIsEarliest(s: State, p: Priority)
    requires Rep(s)
    ensures EarliestOf(s, p, FirstWith(SortKeys(s.keys), s.pMap, p))
  {
    SortedKeys(s.keys);
    FirstWithIsLeast(SortKeys(s.keys), s.pMap, p);
    forall j <- s.store ensures j in SortKeys(s.keys) && s.pMap[j] == s.store[j].priority { }
  }

  lemma {:induction false} FirstKeyIsEarliest(s: State)
    requires Rep(s) && s.keys != []
    ensures SortKeys(s.keys) != [] && SortKeys(s.keys)[0] in s.store
    ensures forall j <- s.store :: SortKeys(s.keys)[0] <= j
  {
    SortedKeys(s.keys);
    var sorted := SortKeys(s.keys);
    var first := sorted[0];
    assert first in sorted;
    forall j <- s.store ensures first <= j {
      assert j in sorted;
    }
  }

  ghost predicate HasNormal(s: State) {
    exists j <- s.store :: s.store[j].priority.Normal?
  }

  ghost predicate HasEarlier(s: State, k: int) {
    exists j <- s.store :: j < k
  }

  /** The next task has run date -1, and another task is found by a later search. */
  ghost predicate NextIsMissed(s: State) {
    -1 in s.store && IsNext(s, -1) && ((s.store[-1].priority.High? && HasNormal(s)) || HasEarlier(s, -1))
  }

  /**
   * Selection: the earliest HIGH task, else the earliest NORMAL one, else the earliest of all, if and only if the
   * next task is not one with run date -1 that a later search passes over.
   */
  lemma {:induction false} SelectIsNextIff(s: State)
    requires Rep(s) && s.keys != []
    ensures IsNext(s, Select(s)) <==> !NextIsMissed(s)
  {
    FirstKeyIsEarliest(s);
    var high := FirstWith(SortKeys(s.keys), s.pMap, High);
    var normal := FirstWith(SortKeys(s.keys), s.pMap, Normal);
    FirstWithIsEarliest(s, High);
    FirstWithIsEarliest(s, Normal);
    SelectionOf(s, high, normal, SortKeys(s.keys)[0]);
  }

  /** The three searches: what is picked from their results is next unless -1 was a result and not the end of it. */
  lemma {:induction false} SelectionOf(s: State, high: int, normal: int, first: int)
    requires EarliestOf(s, High, high) && EarliestOf(s, Normal, normal)
    requires first in s.store && forall j <- s.store :: first <= j
    ensures IsNext(s, if high != -1 then high else if normal != -1 then normal else first) <==> !NextIsMissed(s)
  {
    if high == -1 && -1 in s.store && s.store[-1].priority.High? {
      assert IsNext(s, -1);
      assert HasNormal(s) ==> normal != -1;
    } else if high == -1 && normal == -1 && -1 in s.store && s.store[-1].priority.Normal? {
      assert IsNext(s, -1);
    }
  }

  /** Two requests to an empty queue: the HIGH task with run date -1 is "not found", and the NORMAL one goes first. */
  lemma {:induction false} MinusOneIsMissed(high: Task, normal: Task)
    requires high.runDate == -1 && high.priority == High && normal.runDate > 0 && normal.priority == Normal
    requires high.key == normal.key == ""
    ensures var one := EnqueueSpec(EMPTY, Request(high, true, true));
      var two := EnqueueSpec(one.0, Request(normal, true, true));
      && one.1 == two.1 == Accepted
      && two.0.keys != [] && Select(two.0) == normal.runDate && NextIsMissed(two.0)
  {
    var keys := [-1, normal.runDate];
    var s := EnqueueSpec(EnqueueSpec(EMPTY, Request(high, true, true)).0, Request(normal, true, true)).0;
    assert s.keys == keys;
    assert StableSorting.Sorted(ByDate(), keys);
    StableSorting.SortSortedIsIdentity(ByDate(), keys);
    assert keys[1..] == [normal.runDate];
    assert FirstWith(keys, s.pMap, High) == -1;
    assert FirstWith([normal.runDate], s.pMap, Normal) == normal.runDate;
    assert FirstWith(keys, s.pMap, Normal) == normal.runDate;
    assert s.store[normal.runDate].priority.Normal?;
  }

  // ---- Restart ----

  /** What is rebuilt from the store when the process starts; `order` is the key listing of the store. */
  function Restart(store: map<int, Task>, order: seq<int>): State
    requires forall k <- order :: k in store
  {
    if order == [] then EMPTY.(store := store)
    else
      var k := order[|order| - 1];
      var s := Restart(store, order[..|order| - 1]);
      s.(keys := s.keys + [k], pMap := s.pMap[k := store[k].priority],
         userCounts := s.userCounts[store[k].auth := Count(s, store[k].auth) + 1])
  }

  ghost predicate Lists(order: seq<int>, store: map<int, Task>) {
    && (forall i, j :: 0 <= i < j < |order| ==> order[i] != order[j])
    && (forall k :: k in order <==> k in store)
  }

  lemma {:induction false} RestartFields(store: map<int, Task>, order: seq<int>)
    requires forall k <- order :: k in store
    ensures var s := Restart(store, order);
      && s.keys == order && s.store == store && s.hMap == {}
      && (forall k :: k in s.pMap <==> k in order)
      && (forall k <- order :: s.pMap[k] == store[k].priority)
  {
    if order != [] {
      RestartFields(store, order[..|order| - 1]);
      assert order == order[..|order| - 1] + [order[|order| - 1]];
    }
  }

  ghost function ListedFor(store: map<int, Task>, order: seq<int>, u: string): set<int> {
    set k | k in order && k in store && store[k].auth == u
  }

  lemma {:induction false} RestartCounts(store: map<int, Task>, order: seq<int>, u: string)
    requires forall k <- order :: k in store
    requires forall i, j :: 0 <= i < j < |order| ==> order[i] != order[j]
    ensures Count(Restart(store, order), u) == |ListedFor(store, order, u)|
  {
    if order == [] {
      assert ListedFor(store, order, u) == {};
    } else {
      var init, k := order[..|order| - 1], order[|order| - 1];
      RestartCounts(store, init, u);
      assert order == init + [k];
      if store[k].auth == u {
        assert ListedFor(store, order, u) == ListedFor(store, init, u) + {k};
      } else {
        assert ListedFor(store, order, u) == ListedFor(store, init, u);
      }
    }
  }

  lemma {:induction false} RestartCountsStored(store: map<int, Task>, order: seq<int>, u: string)
    requires Lists(order, store)
    ensures Count(Restart(store, order), u) == |StoredFor(store, u)|
  {
    RestartCounts(store, order, u);
    assert forall k <- StoredFor(store, u) :: k in ListedFor(store, order, u);
    assert forall k <- ListedFor(store, order, u) :: k in StoredFor(store, u);
    assert StoredFor(store, u) == ListedFor(store, order, u);
  }

  lemma {:induction false} SameKeys(m: map<int, Priority>, store: map<int, Task>)
    requires forall k :: k in m <==> k in store
    ensures m.Keys == store.Keys
  {
    assert forall k <- m.Keys :: k in store.Keys;
    assert forall k <- store.Keys :: k in m.Keys;
  }

  lemma {:induction false} RestartRep(store: map<int, Task>, order: seq<int>)
    requires Lists(order, store) && forall k <- store :: store[k].runDate == k
    ensures Rep(Restart(store, order))
  {
    var s := Restart(store, order);
    RestartFields(store, order);
    SameKeys(s.pMap, s.store);
    forall u ensures Count(s, u) == |StoredFor(s.store, u)| {
      RestartCountsStored(store, order, u);
    }
  }

  /**
   * After a restart the structures agree with the store again, but the marks are gone: deduplication
   * still holds if and only if no stored task has a key.
   */
  lemma {:induction false} RestartIff(store: map<int, Task>, order: seq<int>)
    requires Lists(order, store) && forall k <- store :: store[k].runDate == k
    ensures Rep(Restart(store, order))
    ensures Deduplicated(Restart(store, order)) <==> forall k <- store :: store[k].key == ""
  {
    RestartRep(store, order);
    RestartFields(store, order);
  }
}
