/** No task is lost: which requests are taken, what a round leaves, and what stays over a run (queuelogic/logic.go). */
module QueueProgress {
  import opened QueueMarks
  import opened TaskQueue

  // ---- Requests ----

  predicate UserHasRoom(s: State, e: Task) {
    e.kind in {RefreshRelease, RefreshEarliestReleaseDates, RefreshEarliestReleaseDate, RefreshWant} ==>
      e.auth in s.userCounts ==> s.userCounts[e.auth] < 200
  }

  /** When a request is taken. */
  predicate Admitted(s: State, r: Request) {
    && (|s.keys| <= 100000 || r.task.priority == High)
    && r.valid
    && (r.task.key == "" || r.task.key !in s.hMap)
    && UserHasRoom(s, r.task)
    && r.written
  }

  /** The state with task `e` added, as it was given. */
  ghost predicate Added(s: State, e: Task, n: State) {
    && n.store == s.store[e.runDate := e]
    && n.keys == s.keys + [e.runDate]
    && n.pMap == s.pMap[e.runDate := e.priority]
    && (forall u :: Count(n, u) == Count(s, u) + (if u == e.auth then 1 else 0))
    && n.hMap == s.hMap + (if e.key == "" then {} else {e.key})
  }

  /** A request that is taken adds its task; any other one leaves everything but the marks as it was. */
  lemma {:induction false} EnqueueAddsIff(s: State, r: Request)
    ensures EnqueueSpec(s, r).1 == Accepted <==> Admitted(s, r)
    ensures var n := EnqueueSpec(s, r).0;
      if Admitted(s, r) then Added(s, r.task, n) else n == s.(hMap := n.hMap)
  {
  }

  /** What the handler's requests store: every task was there before, or is one of theirs as it was given. */
  lemma {:induction false} IssuedAreStored(s: State, rs: seq<Request>, k: int)
    requires FreshAll(s, rs) && k in EnqueueAll(s, rs).store && k !in s.store
    ensures exists r <- rs :: r.task.runDate == k && EnqueueAll(s, rs).store[k] == r.task
  {
    if rs != [] {
      var init, last := rs[..|rs| - 1], rs[|rs| - 1];
      EnqueueAddsIff(EnqueueAll(s, init), last);
      assert rs == init + [last];
      if k in EnqueueAll(s, init).store {
        IssuedAreStored(s, init, k);
      }
    }
  }

  // ---- One round ----

  /** A retry is taken unless it is invalid, cannot be written, or the queue or the user has no room for it. */
  predicate RetryAdmitted(s: State, e: Task, valid: bool, written: bool) {
    && valid && written
    && (|s.keys| <= 100001 || e.priority == High)
    && (e.kind in {RefreshRelease, RefreshEarliestReleaseDates, RefreshEarliestReleaseDate, RefreshWant} ==>
          Count(s, e.auth) <= 200)
  }

  /** What a round leaves of the state `s` in which the handler of task `e` ended, with the task's key now `key`. */
  ghost predicate RoundLeaves(s: State, e: Task, key: string, result: Result, n: State) {
    match result
    case Success => n.store == s.store - {e.runDate}
    case Gone => n.store == s.store - {e.runDate}
    case Backoff => n == s
    case InternalError(date, valid, written) =>
      var retry := Task(date, e.auth, e.kind, e.priority, key);
      n.store ==
        if RetryAdmitted(s, e, valid, written) then (s.store - {e.runDate})[date := retry] else s.store - {e.runDate}
    case DeadLetter(saved) => if saved then n.store == s.store - {e.runDate} else n == s
  }

  lemma {:induction false} OneKeyLess(keys: seq<int>, k: int)
    requires (forall i, j :: 0 <= i < j < |keys| ==> keys[i] != keys[j]) && k in keys
    ensures |Remaining(keys, {k})| == |keys| - 1
  {
    var init, last := keys[..|keys| - 1], keys[|keys| - 1];
    if last == k {
      NoKeyLess(init, k);
    } else {
      assert k in init;
      OneKeyLess(init, k);
    }
  }

  lemma {:induction false} NoKeyLess(keys: seq<int>, k: int)
    requires k !in keys
    ensures Remaining(keys, {k}) == keys
  {
    if keys != [] {
      NoKeyLess(keys[..|keys| - 1], k);
      assert keys == keys[..|keys| - 1] + [keys[|keys| - 1]];
    }
  }

  lemma {:induction false} FinishLeaves(s: State, e: Task, key: string, result: Result)
    requires Inv(s) && e.runDate in s.store && s.store[e.runDate] == e
    ensures RoundLeaves(s, e, key, result, Finish(s, e, key, result))
  {
    if result.InternalError? {
      var f := e.(key := key);
      OneKeyLess(s.keys, e.runDate);
      EnqueueAddsIff(DeleteSpec(s, f), Request(f.(runDate := result.retryDate), result.valid, result.written));
    }
  }

  /** One round of Run: what becomes of the selected task, and that every other one stays as it is. */
  ghost predicate RoundEnds(s: State, issued: seq<Request>, key: string, result: Result, n: State)
    requires s.keys != [] && Select(s) in s.store
  {
    && RoundLeaves(EnqueueAll(s, issued), s.store[Select(s)], key, result, n)
    && (forall k <- s.store :: k != Select(s) && !(result.InternalError? && k == result.retryDate) ==>
          k in n.store && n.store[k] == s.store[k])
    && (!Removes(result) ==> Select(s) in n.store && n.store[Select(s)] == s.store[Select(s)])
  }

  lemma {:induction false} OthersStay(s: State, e: Task, key: string, result: Result, n: State, k: int)
    requires RoundLeaves(s, e, key, result, n) && k in s.store
    requires Removes(result) ==> k != e.runDate && !(result.InternalError? && k == result.retryDate)
    ensures k in n.store && n.store[k] == s.store[k]
  {
  }

  lemma {:induction false} RoundIsSafe(s: State, issued: seq<Request>, key: string, result: Result)
    requires Inv(s) && FreshAll(s, issued) && s.keys != [] && Select(s) in s.store
    ensures RoundEnds(s, issued, key, result, Finish(EnqueueAll(s, issued), s.store[Select(s)], key, result))
  {
    var after, e := EnqueueAll(s, issued), s.store[Select(s)];
    EnqueueAllKeepsInv(s, issued);
    EnqueueAllKeepsTask(s, issued, Select(s));
    FinishLeaves(after, e, key, result);
    var n := Finish(after, e, key, result);
    forall k <- s.store
      | !Removes(result) || (k != Select(s) && !(result.InternalError? && k == result.retryDate))
      ensures k in n.store && n.store[k] == s.store[k]
    {
      EnqueueAllKeepsTask(s, issued, k);
      OthersStay(after, e, key, result, n, k);
    }
  }

  // ---- Runs ----

  /** The only ways for the task with run date `k` to leave the store. */
  ghost predicate Leaves(s: State, op: Op, k: int)
    requires k in s.store
  {
    match op
    case Enqueue(r) => false
    case Execute(issued, key, result) => s.keys != [] && k == Select(s) && Removes(result)
    case Drain(t) => Drains(t, s.store[k].kind)
  }

  lemma {:induction false} StepKeepsTask(s: State, op: Op, n: State, k: int)
    requires Inv(s) && Step(s, op, n) && k in s.store && !Leaves(s, op, k)
    ensures k in n.store && n.store[k] == s.store[k]
  {
    match op
    case Enqueue(r) => EnqueueAddsIff(s, r);
    case Execute(issued, key, result) =>
      if s.keys != [] {
        RoundIsSafe(s, issued, key, result);
        if k != Select(s) { RetryIsFresh(s, issued, key, result, k); }
      }
    case Drain(t) =>
  }

  /** A retry that is taken does not take the place of another task. */
  lemma {:induction false} RetryIsFresh(s: State, issued: seq<Request>, key: string, result: Result, k: int)
    requires Inv(s) && FreshAll(s, issued) && s.keys != [] && Select(s) in s.store && k in s.store && k != Select(s)
    requires Harmless(EnqueueAll(s, issued), s.store[Select(s)], key, result)
    ensures var n := Finish(EnqueueAll(s, issued), s.store[Select(s)], key, result);
      k in n.store && n.store[k] == s.store[k]
  {
    EnqueueAllKeepsTask(s, issued, k);
    if result.InternalError? {
      var after, f := EnqueueAll(s, issued), s.store[Select(s)].(key := key);
      EnqueueAddsIff(DeleteSpec(after, f), Request(f.(runDate := result.retryDate), result.valid, result.written));
    }
  }

  lemma {:induction false} RunKeepsTask(states: seq<State>, ops: seq<Op>, i: nat, k: int)
    requires IsRun(states, ops) && i < |ops| && k in states[i].store && !Leaves(states[i], ops[i], k)
    ensures k in states[i + 1].store && states[i + 1].store[k] == states[i].store[k]
  {
    RunsAreSafe(states, ops, i);
    StepKeepsTask(states[i], ops[i], states[i + 1], k);
  }

  ghost predicate Stays(states: seq<State>, ops: seq<Op>, h: nat, k: int)
    requires |states| == |ops| + 1 && h < |ops|
  {
    k in states[h].store ==> !Leaves(states[h], ops[h], k)
  }

  /** Along every run a stored task stays as it is until a step it leaves in. */
  lemma {:induction false} NoTaskIsLost(states: seq<State>, ops: seq<Op>, i: nat, j: nat, k: int)
    requires IsRun(states, ops) && i <= j < |states| && k in states[i].store
    requires forall h :: i <= h < j ==> Stays(states, ops, h, k)
    ensures k in states[j].store && states[j].store[k] == states[i].store[k]
  {
    if i < j {
      NoTaskIsLost(states, ops, i, j - 1, k);
      assert Stays(states, ops, j - 1, k);
      RunKeepsTask(states, ops, j - 1, k);
    }
  }
}
