/**
 * What the dequeue-and-merge scan, the merge loop and the index teardown of
 * the task table compute, written as functions over the rows they walk, and
 * the properties the queue promises, proved about those functions.
 */
module TaskMerge {
  import opened Wrappers
  import opened TaskRecords

  /** The merge stops considering candidates once this many keys are gathered. */
  const MergeBudget: nat := 5 * 1024

  /** The error codes a row delete can raise in the storage engine. */
  datatype EsentError = WriteConflict | OtherEsentError(code: int)

  /** The exceptions the queue lets escape. */
  datatype Error =
    | ConcurrencyError                 // ConcurrencyException("Failed to delete task")
    | StorageError(cause: EsentError)  // the storage engine's exception, rethrown unchanged

  /** Which row deletes fail, and with what error; rows absent from the map delete cleanly. */
  type Faults = map<int, EsentError>

  /** DeleteTask's catch block: a write conflict becomes a concurrency error, anything else is rethrown. */
  function DeleteTaskError(e: EsentError): Error
  {
    if e == WriteConflict then ConcurrencyError else StorageError(e)
  }

  /** A row whose id `alreadySeen` may gain: the right kind, deserialisable, its index not skipped. */
  predicate Considered(r: Record, kind: string, skip: seq<int>)
  {
    r.kind == kind && r.payload.Some? && r.payload.value.index !in skip
  }

  /** A considered row whose index no longer exists. */
  predicate Orphan(r: Record, kind: string, skip: seq<int>, all: seq<int>)
  {
    Considered(r, kind, skip) && r.payload.value.index !in all
  }

  /** A row that passes every filter of the seed scan and of the merge. */
  predicate Accepted(r: Record, kind: string, skip: seq<int>, all: seq<int>, seen: set<int>)
  {
    Considered(r, kind, skip) && r.id !in seen && r.payload.value.index in all
  }

  /** The seed made from an accepted row: its task, with the row's id. */
  function SeedOf(r: Record): Task
    requires r.payload.Some?
  {
    r.payload.value.(id := r.id)
  }

  // ---------------------------------------------------------------------
  // The seed scan of GetMergedTask
  // ---------------------------------------------------------------------

  datatype SeedOutcome = NoSeed | Seed(task: Task) | SeedFailed(error: Error)

  /** Where the seed scan ends, with the final `alreadySeen` and the ids it deleted. */
  datatype SeedScan = SeedScan(outcome: SeedOutcome, seen: set<int>, deleted: set<int>)

  /** The seed scan over `rows` (the rest of the table in id order), one row per step. */
  function FindSeed(rows: seq<Record>, kind: string, skip: seq<int>, all: seq<int>,
                    seen: set<int>, deleted: set<int>, faults: Faults): SeedScan
    decreases |rows|
  {
    if rows == [] then SeedScan(NoSeed, seen, deleted)
    else
      var r, rest := rows[0], rows[1..];
      if r.kind != kind then FindSeed(rest, kind, skip, all, seen, deleted, faults)
      else if r.payload.None? then
        if r.id in faults then SeedScan(SeedFailed(DeleteTaskError(faults[r.id])), seen, deleted)
        else FindSeed(rest, kind, skip, all, seen, deleted + {r.id}, faults)
      else if r.payload.value.index in skip then FindSeed(rest, kind, skip, all, seen, deleted, faults)
      else if r.id in seen then FindSeed(rest, kind, skip, all, seen, deleted, faults)
      else if r.payload.value.index !in all then FindSeed(rest, kind, skip, all, seen + {r.id}, deleted, faults)
      else SeedScan(Seed(SeedOf(r)), seen + {r.id}, deleted)
  }

  // ---------------------------------------------------------------------
  // MergeSimilarTasks
  // ---------------------------------------------------------------------

  /**
   * Where the merge loop ends: the merged task, the running key total, the
   * final `alreadySeen`, the ids deleted, the ids merged in (in merge order)
   * and the exception that stopped it, if any.
   */
  datatype MergeScan = MergeScan(task: Task, total: nat, seen: set<int>, deleted: set<int>,
                                 absorbed: seq<int>, error: Option<Error>)

  /** The merge loop over the candidate rows, one row per step, with the budget checked first. */
  function MergeLoop(cands: seq<Record>, kind: string, acc: Task, total: nat, skip: seq<int>, all: seq<int>,
                     seen: set<int>, deleted: set<int>, absorbed: seq<int>, faults: Faults): MergeScan
    decreases |cands|
  {
    if cands == [] || total >= MergeBudget then MergeScan(acc, total, seen, deleted, absorbed, None)
    else
      var r, rest := cands[0], cands[1..];
      if r.kind != kind then MergeLoop(rest, kind, acc, total, skip, all, seen, deleted, absorbed, faults)
      else if r.payload.None? then
        if r.id in faults then MergeScan(acc, total, seen, deleted, absorbed, Some(DeleteTaskError(faults[r.id])))
        else MergeLoop(rest, kind, acc, total, skip, all, seen, deleted + {r.id}, absorbed, faults)
      else if r.payload.value.index in skip then MergeLoop(rest, kind, acc, total, skip, all, seen, deleted, absorbed, faults)
      else if r.id in seen then MergeLoop(rest, kind, acc, total, skip, all, seen, deleted, absorbed, faults)
      else if r.payload.value.index !in all then MergeLoop(rest, kind, acc, total, skip, all, seen + {r.id}, deleted, absorbed, faults)
      else
        var t := r.payload.value;
        MergeLoop(rest, kind, Merge(acc, t), total + |t.keys|, skip, all, seen + {r.id}, deleted, absorbed + [r.id], faults)
  }

  /**
   * The rows the merge walks: for a task kept apart by index, the
   * by_index_and_task_type range of the seed's (index, type); otherwise the
   * whole table in that order.
   */
  function Candidates(rows: seq<Record>, kind: string, seed: Task): seq<Record>
  {
    if seed.separateByIndex then ScopedRange(rows, seed.index, kind) else SecondaryOrder(rows)
  }

  function MergeSimilar(rows: seq<Record>, kind: string, seed: Task, skip: seq<int>, all: seq<int>,
                        seen: set<int>, faults: Faults): MergeScan
  {
    MergeLoop(Candidates(rows, kind, seed), kind, seed, |seed.keys|, skip, all, seen, {}, [], faults)
  }

  /**
   * What GetMergedTask returns, the `alreadySeen` it leaves, the table after
   * it, and the ids of the rows merged into the returned task.
   */
  datatype Dequeued = Dequeued(result: Result<Option<Task>, Error>, seen: set<int>, rows: seq<Record>, merged: seq<int>)

  /** GetMergedTask followed by MergeSimilarTasks, on a table in id order. */
  function MergedTask(rows: seq<Record>, kind: string, skip: seq<int>, all: seq<int>,
                      seen: set<int>, faults: Faults): Dequeued
  {
    var s := FindSeed(rows, kind, skip, all, seen, {}, faults);
    var left := Without(rows, s.deleted);
    match s.outcome
    case NoSeed => Dequeued(Success(None), s.seen, left, [])
    case SeedFailed(e) => Dequeued(Failure(e), s.seen, left, [])
    case Seed(t) =>
      var m := MergeSimilar(left, kind, t, skip, all, s.seen, faults);
      Dequeued(if m.error.Some? then Failure(m.error.value) else Success(Some(m.task)),
               m.seen, Without(left, m.deleted), m.absorbed)
  }

  // ---------------------------------------------------------------------
  // DeleteTasksForIndex
  // ---------------------------------------------------------------------

  /** Where the teardown loop ends: rows deleted so far, their ids, and the error that stopped it. */
  datatype Teardown = Teardown(count: nat, deleted: set<int>, error: Option<Error>)

  /** The teardown loop over a by_index range: conflicts are swallowed, other errors stop it. */
  function TeardownLoop(range: seq<Record>, faults: Faults, count: nat, deleted: set<int>): Teardown
    decreases |range|
  {
    if range == [] then Teardown(count, deleted, None)
    else
      var r := range[0];
      if r.id !in faults then TeardownLoop(range[1..], faults, count + 1, deleted + {r.id})
      else if faults[r.id] == WriteConflict then TeardownLoop(range[1..], faults, count, deleted)
      else Teardown(count, deleted, Some(StorageError(faults[r.id])))
  }

  function DeleteForIndex(rows: seq<Record>, index: int, faults: Faults): Teardown
  {
    TeardownLoop(IndexRange(rows, index), faults, 0, {})
  }
}
