/**
 * The persisted task queue (taskQueue in main.go). Each operation takes the
 * store as a value and returns the store afterwards, whether it attempted a
 * write, and what it reports to its caller. The outcome of the write
 * (saveLocked: JSON marshalling plus os.WriteFile) is the parameter
 * `writeOk`. As in the code, memory is changed BEFORE the write and is not
 * restored when the write fails.
 */
module QueueStore {
  import opened Results
  import opened Tasks
  import opened QueueOrder

  /**
   * What the queue file holds: no file yet, the document of a sequence of
   * tasks, or unknown content after a failed write (os.WriteFile truncates
   * the file before writing it).
   */
  datatype Disk = Missing | Holds(saved: seq<Task>) | Indeterminate

  datatype Store = Store(tasks: seq<Task>, disk: Disk)

  datatype QueueError =
    | QueueIsEmpty
    | IndexesOutOfRange(from: int, to: int, last: int)
    | WriteFailed

  /** The state after an operation, whether it called saveLocked, and its report. */
  datatype Step<T> = Step(store: Store, wrote: bool, result: Result<T, QueueError>)

  /** Memory is known to agree with the file. */
  predicate Consistent(st: Store) {
    st.disk == Holds(st.tasks) || (st.disk == Missing && st.tasks == [])
  }

  /** saveLocked after memory has been set to `tasks`; `value` is reported on success. */
  function Persist<T>(tasks: seq<Task>, writeOk: bool, value: T): (r: Step<T>)
    ensures r.store.tasks == tasks && r.wrote
    ensures r.result.Ok? <==> writeOk
    ensures r.result.Ok? ==> r.result.value == value
    ensures Consistent(r.store) <==> writeOk
  {
    if writeOk then Step(Store(tasks, Holds(tasks)), true, Ok(value))
    else Step(Store(tasks, Indeterminate), true, Err(WriteFailed))
  }

  /** What os.ReadFile and json.Unmarshal make of the queue file. */
  datatype FileRead =
    | NotFound
    | ReadFailed
    | Decoded(tasks: seq<Task>)
    | Malformed

  datatype LoadError = DirectoryError | ReadError | FormatError

  /**
   * newTaskQueue / loadLocked: the attachments directory is created first
   * (`dirMade` says whether os.MkdirAll succeeded) and the queue file is not
   * read when that fails; a missing file is an empty queue, any other read
   * failure and an undecodable document are errors.
   */
  function Open(dirMade: bool, read: FileRead): (r: Result<Store, LoadError>)
    ensures !dirMade ==> r == Err(DirectoryError)
    ensures r.Ok? <==> dirMade && (read.NotFound? || read.Decoded?)
    ensures r.Ok? ==> Consistent(r.value)
    ensures dirMade && read.Decoded? ==> r == Ok(Store(read.tasks, Holds(read.tasks)))
    ensures dirMade && read.NotFound? ==> r.Ok? && r.value.tasks == []
    ensures dirMade && read.ReadFailed? ==> r == Err(ReadError)
    ensures dirMade && read.Malformed? ==> r == Err(FormatError)
  {
    if !dirMade then Err(DirectoryError)
    else match read
      case NotFound => Ok(Store([], Missing))
      case ReadFailed => Err(ReadError)
      case Malformed => Err(FormatError)
      case Decoded(tasks) => Ok(Store(tasks, Holds(tasks)))
  }

  /** enqueue: append at the tail, then save. */
  function Enqueue(st: Store, t: Task, writeOk: bool): (r: Step<()>)
    ensures |r.store.tasks| == |st.tasks| + 1
    ensures r.store.tasks[..|st.tasks|] == st.tasks
    ensures r.store.tasks[|st.tasks|] == t
    ensures r.wrote
    ensures r.result.Ok? <==> writeOk
    ensures Consistent(r.store) <==> writeOk
  {
    Persist(st.tasks + [t], writeOk, ())
  }

  /** peek: the head, if any; never writes. */
  function Peek(st: Store): (r: Option<Task>)
    ensures r.Some? <==> |st.tasks| > 0
    ensures r.Some? ==> r.value == st.tasks[0]
  {
    if |st.tasks| == 0 then None else Some(st.tasks[0])
  }

  /**
   * skip: with at most one task nothing happens and nothing is written;
   * otherwise the head moves to the tail, then the queue is saved.
   */
  function Skip(st: Store, writeOk: bool): (r: Step<()>)
    ensures |st.tasks| <= 1 ==> r == Step(st, false, Ok(()))
    ensures |st.tasks| > 1 ==> r.wrote && (r.result.Ok? <==> writeOk)
    ensures |st.tasks| > 1 ==> (Consistent(r.store) <==> writeOk)
    ensures |r.store.tasks| == |st.tasks|
    ensures |st.tasks| > 1 ==>
      r.store.tasks[|st.tasks| - 1] == st.tasks[0]
      && r.store.tasks[..|st.tasks| - 1] == st.tasks[1..]
  {
    if |st.tasks| <= 1 then Step(st, false, Ok(()))
    else
      var rotated := HeadToTail(st.tasks);
      assert rotated[..|rotated| - 1] == st.tasks[1..];
      Persist(rotated, writeOk, ())
  }

  /**
   * complete: an empty queue is an error with nothing written. Otherwise the
   * head is removed from memory, then the queue is saved; the head is
   * reported only when the save succeeds, but it is gone from memory either
   * way.
   */
  function Complete(st: Store, writeOk: bool): (r: Step<Task>)
    ensures |st.tasks| == 0 ==> r == Step(st, false, Err(QueueIsEmpty))
    ensures |st.tasks| > 0 ==> r.wrote && st.tasks == [st.tasks[0]] + r.store.tasks
    ensures r.result.Ok? <==> |st.tasks| > 0 && writeOk
    ensures r.result.Ok? ==> r.result.value == st.tasks[0]
    ensures |st.tasks| > 0 && !writeOk ==> r.result == Err(WriteFailed) && !Consistent(r.store)
  {
    if |st.tasks| == 0 then Step(st, false, Err(QueueIsEmpty))
    else
      var first := st.tasks[0];
      assert st.tasks == [first] + st.tasks[1..];
      Persist(st.tasks[1..], writeOk, first)
  }

  /** Both indices lie in [0, n). */
  predicate InRange(n: nat, from: int, to: int) {
    0 <= from < n && 0 <= to < n
  }

  /**
   * move: on an empty queue or with an index outside [0, n) it reports an
   * error; with equal indices it succeeds without writing; otherwise it
   * moves the element at `from` so that it sits at `to`, then saves.
   */
  function Move(st: Store, from: int, to: int, writeOk: bool): (r: Step<()>)
    ensures |st.tasks| == 0 ==> r == Step(st, false, Err(QueueIsEmpty))
    ensures |st.tasks| > 0 && !InRange(|st.tasks|, from, to) ==>
      r == Step(st, false, Err(IndexesOutOfRange(from, to, |st.tasks| - 1)))
    ensures r.wrote <==> InRange(|st.tasks|, from, to) && from != to
    ensures !r.wrote ==> r.store == st
    ensures r.result.Ok? <==> InRange(|st.tasks|, from, to) && (from == to || writeOk)
    ensures r.wrote ==> (Consistent(r.store) <==> writeOk)
    ensures |r.store.tasks| == |st.tasks|
    ensures InRange(|st.tasks|, from, to) ==>
      r.store.tasks[to] == st.tasks[from]
      && RemoveAt(r.store.tasks, to) == RemoveAt(st.tasks, from)
  {
    var n := |st.tasks|;
    if n == 0 then Step(st, false, Err(QueueIsEmpty))
    else if !InRange(n, from, to) then Step(st, false, Err(IndexesOutOfRange(from, to, n - 1)))
    else if from == to then Step(st, false, Ok(()))
    else Persist(MoveItem(st.tasks, from, to), writeOk, ())
  }
}
