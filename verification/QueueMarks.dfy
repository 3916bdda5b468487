/** When the queue's deduplication marks are exactly the keys of its stored tasks (queuelogic/logic.go). */
module QueueMarks {
  import opened TaskQueue

  ghost predicate Carried(s: State, key: string) {
    exists k <- s.store :: s.store[k].key == key
  }

  /** Every mark is the key of a stored task. */
  ghost predicate MarksExact(s: State) {
    forall key <- s.hMap :: key != "" && Carried(s, key)
  }

  /** The queue takes the request up to the mark, but then does not store the task. */
  predicate Leaks(s: State, r: Request) {
    var e := r.task;
    && (|s.keys| <= MAX_QUEUE || e.priority.High?)
    && r.valid && e.key != "" && e.key !in s.hMap
    && ((Throttlable(e.kind) && Count(s, e.auth) >= MAX_USER_QUEUE) || !r.written)
  }

  /** A request keeps the marks exact if and only if it does not run into the user limit or a failed write. */
  lemma {:induction false} EnqueueMarksIff(s: State, r: Request)
    requires Inv(s) && MarksExact(s) && Fresh(s, r)
    ensures MarksExact(EnqueueSpec(s, r).0) <==> !Leaks(s, r)
  {
    var n := EnqueueSpec(s, r).0;
    if EnqueueSpec(s, r).1 == Accepted {
      assert n.store[r.task.runDate].key == r.task.key;
      forall key <- s.hMap ensures Carried(n, key) {
        var k :| k in s.store && s.store[k].key == key;
        assert n.store[k].key == key;
      }
    } else {
      assert n.store == s.store;
      assert forall key :: Carried(n, key) <==> Carried(s, key);
    }
  }

  /** The key of such a request belongs to no task, and every later request with it is refused. */
  lemma {:induction false} LeakBlocksKey(s: State, r: Request, later: Request)
    requires Inv(s) && Leaks(s, r) && later.task.key == r.task.key
    ensures var (n, outcome) := EnqueueSpec(s, r);
      && outcome in {UserLimitReached, StoreFailed}
      && !Carried(n, r.task.key)
      && EnqueueSpec(n, later).1 in {QueueFull, Rejected, AlreadyQueued}
      && EnqueueSpec(n, r).1 == AlreadyQueued
  {
    assert EnqueueSpec(s, r).0.store == s.store;
  }

  /** Deleting a task keeps the marks exact if and only if it takes its own key along. */
  lemma {:induction false} DeleteMarksIff(s: State, e: Task, key: string)
    requires Inv(s) && MarksExact(s) && e.runDate in s.store && s.store[e.runDate] == e
    ensures MarksExact(DeleteSpec(s, e.(key := key))) <==> e.key == "" || key == e.key
  {
    var n := DeleteSpec(s, e.(key := key));
    if e.key == "" || key == e.key {
      forall m <- n.hMap ensures m != "" && Carried(n, m) {
        var k :| k in s.store && s.store[k].key == m;
        assert k != e.runDate;
        assert n.store[k].key == m;
      }
    } else {
      OldKeyLeaksIff(s, e, key, Request(e, true, true));
    }
  }

  /** A drain always does. */
  lemma {:induction false} DrainKeepsMarks(s: State, t: DrainType, n: State, count: int)
    requires MarksExact(s) && DrainSpec(s, t, n, count)
    ensures MarksExact(n)
  {
    forall m <- n.hMap ensures m != "" && Carried(n, m) {
      var k :| k in s.store && s.store[k].key == m;
      assert k !in Drained(s, t);
      assert n.store[k].key == m;
    }
  }

  // ---- Runs ----

  ghost predicate NoneLeaks(s: State, rs: seq<Request>) {
    rs == [] ||
    (NoneLeaks(s, rs[..|rs| - 1]) && !Leaks(EnqueueAll(s, rs[..|rs| - 1]), rs[|rs| - 1]))
  }

  /** The task is taken off the queue, whether or not it comes back under a new date. */
  predicate Removes(result: Result) {
    result.Success? || result.Gone? || result.InternalError? || (result.DeadLetter? && result.saved)
  }

  ghost predicate TightResult(s: State, e: Task, key: string, result: Result) {
    && (Removes(result) ==> e.key == "" || key == e.key)
    && (result.InternalError? ==>
          !Leaks(DeleteSpec(s, e.(key := key)),
                 Request(e.(runDate := result.retryDate, key := key), result.valid, result.written)))
  }

  /** No request of the step leaks a mark, and a keyed task keeps its key while it runs. */
  ghost predicate Tight(s: State, op: Op) {
    match op
    case Enqueue(r) => !Leaks(s, r)
    case Execute(issued, key, result) =>
      NoneLeaks(s, issued)
      && (s.keys != [] && Select(s) in s.store ==> TightResult(EnqueueAll(s, issued), s.store[Select(s)], key, result))
    case Drain(t) => true
  }

  lemma {:induction false} EnqueueAllKeepsMarks(s: State, rs: seq<Request>)
    requires Inv(s) && MarksExact(s) && FreshAll(s, rs) && NoneLeaks(s, rs)
    ensures MarksExact(EnqueueAll(s, rs))
  {
    if rs != [] {
      var init := rs[..|rs| - 1];
      EnqueueAllKeepsMarks(s, init);
      EnqueueAllKeepsInv(s, init);
      EnqueueMarksIff(EnqueueAll(s, init), rs[|rs| - 1]);
    }
  }

  lemma {:induction false} FinishKeepsMarks(s: State, e: Task, key: string, result: Result)
    requires Inv(s) && MarksExact(s) && e.runDate in s.store && s.store[e.runDate] == e
    requires Harmless(s, e, key, result) && TightResult(s, e, key, result)
    ensures MarksExact(Finish(s, e, key, result))
  {
    var f := e.(key := key);
    DeleteMarksIff(s, e, key);
    ChangedKeyIff(s, e, key);
    match result
    case Success => assert DeleteSpec(Unmark(s, key), f) == DeleteSpec(s, f);
    case InternalError(date, valid, written) =>
      EnqueueMarksIff(DeleteSpec(s, f), Request(f.(runDate := date), valid, written));
    case _ =>
  }

  lemma {:induction false} StepKeepsMarks(s: State, op: Op, n: State)
    requires Inv(s) && MarksExact(s) && Step(s, op, n) && Tight(s, op)
    ensures MarksExact(n)
  {
    match op
    case Enqueue(r) => EnqueueMarksIff(s, r);
    case Execute(issued, key, result) =>
      if s.keys != [] {
        EnqueueAllKeepsInv(s, issued);
        EnqueueAllKeepsMarks(s, issued);
        EnqueueAllKeepsTask(s, issued, Select(s));
        FinishKeepsMarks(EnqueueAll(s, issued), s.store[Select(s)], key, result);
      }
    case Drain(t) =>
      var count :| DrainSpec(s, t, n, count);
      DrainKeepsMarks(s, t, n, count);
  }

  /** The marks are the keys of the stored tasks, no more and no fewer. */
  ghost predicate MarksAreKeys(s: State) {
    forall key :: key in s.hMap <==> key != "" && Carried(s, key)
  }

  /** Along every run from an empty queue in which nothing leaks, the marks are exactly the keys of the stored tasks. */
  lemma {:induction false} TightRunsKeepMarks(states: seq<State>, ops: seq<Op>, i: nat)
    requires IsRun(states, ops) && i < |states| && forall j :: 0 <= j < |ops| ==> Tight(states[j], ops[j])
    ensures MarksAreKeys(states[i])
  {
    MarksStayExact(states, ops, i);
    RunsAreSafe(states, ops, i);
    var s := states[i];
    forall key | key != "" && Carried(s, key) ensures key in s.hMap {
      var k :| k in s.store && s.store[k].key == key;
    }
  }

  lemma {:induction false} MarksStayExact(states: seq<State>, ops: seq<Op>, i: nat)
    requires IsRun(states, ops) && i < |states| && forall j :: 0 <= j < |ops| ==> Tight(states[j], ops[j])
    ensures MarksExact(states[i])
  {
    if i > 0 {
      MarksStayExact(states, ops, i - 1);
      RunsAreSafe(states, ops, i - 1);
      StepKeepsMarks(states[i - 1], ops[i - 1], states[i]);
    }
  }
}
