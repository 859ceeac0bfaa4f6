/**
 * Properties that relate several queue operations: first-in first-out
 * service, the agreement of skip with move, undoing a move, consistency of
 * memory with the file, and two sample runs.
 */
module QueueProperties {
  import opened Results
  import opened Tasks
  import opened QueueOrder
  import opened QueueStore

  /** Enqueue each task of `ts` in turn, every write succeeding. */
  function EnqueueAll(st: Store, ts: seq<Task>): (r: Store)
    decreases |ts|
  {
    if ts == [] then st else EnqueueAll(Enqueue(st, ts[0], true).store, ts[1..])
  }

  /** Complete `k` times, every write succeeding; returns the tasks served, in order. */
  function Drain(st: Store, k: nat): (r: (seq<Task>, Store))
    requires k <= |st.tasks|
    decreases k
  {
    if k == 0 then ([], st)
    else
      var step := Complete(st, true);
      var rest := Drain(step.store, k - 1);
      ([step.result.value] + rest.0, rest.1)
  }

  lemma {:induction false} EnqueueAllAppends(st: Store, ts: seq<Task>)
    ensures EnqueueAll(st, ts).tasks == st.tasks + ts
    ensures Consistent(EnqueueAll(st, ts)) <==> (ts != [] || Consistent(st))
    decreases |ts|
  {
    if ts != [] {
      var next := Enqueue(st, ts[0], true).store;
      EnqueueAllAppends(next, ts[1..]);
      assert next.tasks == st.tasks + [ts[0]];
      assert ts == [ts[0]] + ts[1..];
    }
  }

  lemma {:induction false} DrainServesHeads(st: Store, k: nat)
    requires k <= |st.tasks|
    ensures Drain(st, k).0 == st.tasks[..k]
    ensures Drain(st, k).1.tasks == st.tasks[k..]
    decreases k
  {
    if k > 0 {
      var step := Complete(st, true);
      DrainServesHeads(step.store, k - 1);
      assert step.store.tasks == st.tasks[1..];
      assert st.tasks[..k] == [st.tasks[0]] + st.tasks[1..][..k - 1];
    }
  }

  /**
   * First in, first out: tasks enqueued behind the current ones are served,
   * after them, in the order they arrived, and the queue ends empty.
   */
  lemma ServedInArrivalOrder(st: Store, ts: seq<Task>)
    ensures |EnqueueAll(st, ts).tasks| == |st.tasks| + |ts|
    ensures Drain(EnqueueAll(st, ts), |st.tasks| + |ts|).0 == st.tasks + ts
    ensures Drain(EnqueueAll(st, ts), |st.tasks| + |ts|).1.tasks == []
  {
    EnqueueAllAppends(st, ts);
    var full := EnqueueAll(st, ts);
    DrainServesHeads(full, |full.tasks|);
    assert full.tasks[..|full.tasks|] == full.tasks;
  }

  /** Enqueue leaves the head alone unless the queue was empty. */
  lemma EnqueueKeepsHead(st: Store, t: Task, writeOk: bool)
    ensures Peek(Enqueue(st, t, writeOk).store) == (if |st.tasks| == 0 then Some(t) else Peek(st))
  {
    var r := Enqueue(st, t, writeOk).store;
    if |st.tasks| > 0 {
      assert r.tasks[0] == r.tasks[..|st.tasks|][0];
    }
  }

  /** Skip and move only reorder: every task is kept, with its multiplicity. */
  lemma ReorderingKeepsTasks(st: Store, from: int, to: int, writeOk: bool)
    ensures multiset(Skip(st, writeOk).store.tasks) == multiset(st.tasks)
    ensures multiset(Move(st, from, to, writeOk).store.tasks) == multiset(st.tasks)
  {
    if |st.tasks| > 1 {
      HeadToTailPermutes(st.tasks);
    }
    if InRange(|st.tasks|, from, to) && from != to {
      MoveItemPermutes(st.tasks, from, to);
    }
  }

  /** With two or more tasks, skip is move(0, n-1). */
  lemma SkipIsMoveToTail(st: Store, writeOk: bool)
    requires |st.tasks| >= 2
    ensures Skip(st, writeOk) == Move(st, 0, |st.tasks| - 1, writeOk)
  {
    HeadToTailIsMove(st.tasks);
  }

  /** n skips on a queue of n tasks (every write succeeding) restore its order. */
  function SkipTimes(st: Store, k: nat): (r: Store)
    ensures |r.tasks| == |st.tasks|
  {
    if k == 0 then st else Skip(SkipTimes(st, k - 1), true).store
  }

  lemma {:induction false} SkipTimesRotates(st: Store, k: nat)
    requires |st.tasks| >= 2
    ensures SkipTimes(st, k).tasks == Rotations(st.tasks, k)
  {
    if k > 0 {
      SkipTimesRotates(st, k - 1);
      var prev := SkipTimes(st, k - 1).tasks;
      var next := SkipTimes(st, k).tasks;
      assert next[..|prev| - 1] == prev[1..];
      assert next == next[..|prev| - 1] + [next[|prev| - 1]];
    }
  }

  lemma SkipCycleRestores(st: Store)
    requires |st.tasks| >= 2
    ensures SkipTimes(st, |st.tasks|).tasks == st.tasks
  {
    SkipTimesRotates(st, |st.tasks|);
    FullCycleRestores(st.tasks);
  }

  /** A move followed by the reverse move gives back the original order. */
  lemma MoveBackRestores(st: Store, from: int, to: int, writeOk: bool)
    requires InRange(|st.tasks|, from, to)
    ensures Move(Move(st, from, to, writeOk).store, to, from, writeOk).store.tasks == st.tasks
  {
    if from != to {
      MoveUndo(st.tasks, from, to);
    }
  }

  /** Every operation whose write succeeds leaves memory and file in agreement. */
  lemma SuccessfulWritesKeepConsistency(st: Store, t: Task, from: int, to: int)
    requires Consistent(st)
    ensures Consistent(Enqueue(st, t, true).store)
    ensures Consistent(Skip(st, true).store)
    ensures Consistent(Complete(st, true).store)
    ensures Consistent(Move(st, from, to, true).store)
  {
  }

  /** After a successful write, reading the file back yields the queue in memory. */
  lemma ReopenAfterWrite<T>(step: Step<T>)
    requires step.result.Ok?
    requires step == Persist(step.store.tasks, true, step.result.value)
    ensures step.store.disk.Holds?
    ensures Open(true, Decoded(step.store.disk.saved)) == Ok(step.store)
  {
  }

  /**
   * A failed write after complete: the caller gets an error, yet the head is
   * already gone from memory and the file's content is unknown, so memory
   * and file may disagree until the next successful write.
   */
  lemma FailedCompleteStillDropsHead(st: Store)
    requires |st.tasks| > 0
    ensures Complete(st, false).result == Err(WriteFailed)
    ensures Complete(st, false).store.tasks == st.tasks[1..]
    ensures Complete(st, false).store.disk == Indeterminate
  {
  }

  /** The sample run: enqueue A, peek, enqueue B, skip, complete. */
  lemma SampleRun(a: Task, b: Task)
    ensures
      var s0 := Store([], Missing);
      var s1 := Enqueue(s0, a, true).store;
      var s2 := Enqueue(s1, b, true).store;
      var s3 := Skip(s2, true).store;
      var done := Complete(s3, true);
      && Peek(s1) == Some(a)
      && s2.tasks == [a, b]
      && s3.tasks == [b, a]
      && done.result == Ok(b)
      && done.store.tasks == [a]
  {
  }

  /** move(2, 0) on [A, B, C] gives [C, A, B]; move(0, 0) changes nothing. */
  lemma SampleMoves(a: Task, b: Task, c: Task, disk: Disk)
    ensures Move(Store([a, b, c], disk), 2, 0, true).store.tasks == [c, a, b]
    ensures Move(Store([a, b, c], disk), 0, 0, true) == Step(Store([a, b, c], disk), false, Ok(()))
  {
    var st := Store([a, b, c], disk);
    MovePositions(st.tasks, 2, 0);
    var r := Move(st, 2, 0, true).store.tasks;
    assert r == MoveItem(st.tasks, 2, 0);
    assert r[0] == c && r[1] == a && r[2] == b;
  }
}
