/**
 * The `tasks` table as the storage actions see it: an in-memory picture of
 * the rows in primary (`by_id`) order and the next id the engine will
 * assign, with one method per storage action. Each method that walks the
 * table walks a snapshot of it, as the engine's cursor does, and is proved
 * to compute what the functions of TaskMerge describe.
 */
module TaskStorage {
  import opened Wrappers
  import opened TaskRecords
  import opened TaskMerge
  import opened TaskMergeProperties

  /** One item of the debug listing; `indexId` is -1 for a row without a `for_index`. */
  datatype TaskMetadata = TaskMetadata(id: int, addedAt: int, indexId: int, kind: string)

  /** The metadata item listed for a row. */
  function MetadataOf(r: Record): TaskMetadata
  {
    TaskMetadata(r.id, r.addedAt, match r.forIndex case None => -1 case Some(i) => i, r.kind)
  }

  /** The record AddTask writes for a task. */
  function RecordFor(id: int, task: Task, addedAt: int): (r: Record)
    ensures r.id == id && r.kind == task.kind && r.forIndex == Some(task.index) && r.addedAt == addedAt
    ensures Decode(r) == Some(task) && Consistent(r)
  {
    Record(id, task.kind, Some(task.index), addedAt, Some(task))
  }

  /**
   * The debug listing shows a row AddTask wrote with the id, time and type it
   * was written with and the index of its task, never the -1 of a row with
   * no `for_index`.
   */
  lemma AddedTaskListed(id: int, task: Task, addedAt: int)
    ensures MetadataOf(RecordFor(id, task, addedAt)) == TaskMetadata(id, addedAt, task.index, task.kind)
    ensures Decode(RecordFor(id, task, addedAt)) == Some(task)
  {
  }

  /** For a row whose columns agree with its stored task, the listing reports that task's index and type. */
  lemma ListedAsStored(r: Record)
    requires Consistent(r) && r.payload.Some?
    ensures MetadataOf(r).indexId == r.payload.value.index && MetadataOf(r).kind == r.payload.value.kind
    ensures MetadataOf(r).id == r.id
  {
  }

  /** The approximate count is never below the real count when ids strictly increase. */
  lemma {:induction false} ApproximateCountBound(rows: seq<Record>)
    requires IdsIncreasing(rows) && rows != []
    ensures rows[|rows| - 1].id - rows[0].id + 1 >= |rows|
    decreases |rows|
  {
    if |rows| > 1 {
      var front := rows[..|rows| - 1];
      assert IdsIncreasing(front) by {
        forall i, j | 0 <= i < j < |front| ensures front[i].id < front[j].id {
          assert front[i] == rows[i] && front[j] == rows[j];
        }
      }
      ApproximateCountBound(front);
      assert rows[|rows| - 2].id < rows[|rows| - 1].id;
    }
  }

  /**
   * A record appended with a fresh id, of the kind asked for, of an existing
   * index that is not skipped, means the next dequeue of that kind cannot
   * come back empty: it returns a task or throws.
   */
  lemma AppendedTaskIsDequeued(rows: seq<Record>, task: Task, id: int, addedAt: int,
                               skip: seq<int>, all: seq<int>, seen: set<int>, faults: Faults)
    requires IdsIncreasing(rows) && forall r :: r in rows ==> r.id < id && Consistent(r)
    requires task.index in all && task.index !in skip && id !in seen
    ensures MergedTask(rows + [RecordFor(id, task, addedAt)], task.kind, skip, all, seen, faults).result != Success(None)
  {
    var after := rows + [RecordFor(id, task, addedAt)];
    assert IdsIncreasing(after) by {
      forall i, j | 0 <= i < j < |after| ensures after[i].id < after[j].id {
        if j < |rows| { assert after[i] == rows[i] && after[j] == rows[j]; }
        else { assert after[i] == rows[i]; assert rows[i] in rows; }
      }
    }
    assert forall r :: r in after ==> r in rows || r == after[|rows|];
    DequeueReturnsFirstAccepted(after, task.kind, skip, all, seen, faults);
    assert Accepted(after[|rows|], task.kind, skip, all, seen);
  }

  /** Ids strictly increase, all lie below `next`, and each row's columns agree with its task. */
  ghost predicate ValidRows(rows: seq<Record>, next: int)
  {
    IdsIncreasing(rows) && forall r :: r in rows ==> r.id < next && Consistent(r)
  }

  /** Deleting rows keeps a table valid. */
  lemma WithoutValid(rows: seq<Record>, ids: set<int>, next: int)
    requires ValidRows(rows, next)
    ensures ValidRows(Without(rows, ids), next)
  {
    WithoutIsSubTable(rows, ids);
  }

  class TaskTable {
    /** The rows, in primary (`by_id`) order. */
    var rows: seq<Record>
    /** The id the engine's auto-increment column assigns to the next insert. */
    var nextId: int

    ghost predicate Valid()
      reads this
    {
      ValidRows(rows, nextId)
    }

    /** Opens a table holding `stored` whose next id is `next`. */
    constructor Open(stored: seq<Record>, next: int)
      requires IdsIncreasing(stored)
      requires forall r :: r in stored ==> r.id < next && Consistent(r)
      ensures Valid() && rows == stored && nextId == next
    {
      rows := stored;
      nextId := next;
    }

    /**
     * AddTask: inserts one record and returns its id, which is greater than
     * every id already in the table; no other record changes.
     */
    method AddTask(task: Task, addedAt: int) returns (id: int)
      requires Valid()
      modifies this
      ensures Valid()
      ensures forall r :: r in old(rows) ==> r.id < id
      ensures rows == old(rows) + [RecordFor(id, task, addedAt)]
      ensures id == old(nextId) && nextId == id + 1
    {
      id := nextId;
      rows := rows + [RecordFor(id, task, addedAt)];
      nextId := nextId + 1;
      assert IdsIncreasing(rows) by {
        forall i, j | 0 <= i < j < |rows| ensures rows[i].id < rows[j].id {
          if j < |rows| - 1 { assert rows[i] == old(rows)[i] && rows[j] == old(rows)[j]; }
          else { assert rows[i] in old(rows); }
        }
      }
    }

    /** HasTasks: whether a cursor can move to a first row. */
    method HasTasks() returns (b: bool)
      ensures b <==> |rows| > 0
    {
      b := rows != [];
    }

    /**
     * ApproximateTaskCount: 0 on an empty table, otherwise the spread of the
     * first and last ids, which is never below the number of rows.
     */
    method ApproximateTaskCount() returns (n: int)
      requires Valid()
      ensures rows == [] ==> n == 0
      ensures rows != [] ==> n == rows[|rows| - 1].id - rows[0].id + 1
      ensures n >= |rows|
    {
      if rows == [] {
        return 0;
      }
      var first := rows[0].id;
      var last := rows[|rows| - 1].id;
      n := last - first + 1;
      ApproximateCountBound(rows);
    }

    /** GetPendingTasksForDebug: one metadata item per row, in id order. */
    method GetPendingTasksForDebug() returns (items: seq<TaskMetadata>)
      requires Valid()
      ensures |items| == |rows|
      ensures forall i :: 0 <= i < |items| ==> items[i] == MetadataOf(rows[i])
      ensures forall i, j :: 0 <= i < j < |items| ==> items[i].id < items[j].id
    {
      items := [];
      var i := 0;
      while i < |rows|
        invariant 0 <= i <= |rows|
        invariant |items| == i
        invariant forall k :: 0 <= k < i ==> items[k] == MetadataOf(rows[k])
      {
        items := items + [MetadataOf(rows[i])];
        i := i + 1;
      }
    }

    /** The engine's row delete: fails with the given error, or removes the row with that id. */
    method DeleteRow(id: int, faults: Faults) returns (err: Option<EsentError>)
      modifies this
      ensures nextId == old(nextId)
      ensures id in faults ==> err == Some(faults[id]) && rows == old(rows)
      ensures id !in faults ==> err == None && rows == Without(old(rows), {id})
    {
      if id in faults {
        err := Some(faults[id]);
      } else {
        rows := Without(rows, {id});
        err := None;
      }
    }

    /**
     * DeleteTask: deletes the row under the cursor; a write conflict becomes
     * a concurrency error and any other storage error is rethrown.
     */
    method DeleteTask(id: int, faults: Faults) returns (err: Option<Error>)
      modifies this
      ensures nextId == old(nextId)
      ensures id in faults ==> err == Some(DeleteTaskError(faults[id])) && rows == old(rows)
      ensures id !in faults ==> err == None && rows == Without(old(rows), {id})
      ensures err == Some(ConcurrencyError) <==> id in faults && faults[id] == WriteConflict
    {
      var e := DeleteRow(id, faults);
      if e.Some? {
        err := Some(DeleteTaskError(e.value));
      } else {
        err := None;
      }
    }

    /**
     * MergeSimilarTasks: walks the candidates of `seed` under the key budget,
     * deleting rows that fail to deserialise and folding accepted rows into
     * the seed; returns the merged task, the new `alreadySeen` and the
     * exception that stopped it, if any.
     */
    method MergeSimilarTasks(seed: Task, skip: seq<int>, all: seq<int>, seen: set<int>, faults: Faults)
      returns (task: Task, seenOut: set<int>, err: Option<Error>)
      requires Valid()
      modifies this
      ensures Valid() && nextId == old(nextId)
      ensures var m := MergeSimilar(old(rows), seed.kind, seed, skip, all, seen, faults);
        task == m.task && seenOut == m.seen && err == m.error && rows == Without(old(rows), m.deleted)
    {
      var snap := rows;
      var cands := Candidates(snap, seed.kind, seed);
      task, seenOut, err := MergeCandidates(cands, seed, skip, all, seen, faults);
      WithoutValid(snap, MergeSimilar(snap, seed.kind, seed, skip, all, seen, faults).deleted, nextId);
    }

    /**
     * The do/while loop of MergeSimilarTasks over the rows the cursor's range
     * yields, `cands`, with the key budget checked before every row.
     */
    method MergeCandidates(cands: seq<Record>, seed: Task, skip: seq<int>, all: seq<int>, seen: set<int>, faults: Faults)
      returns (task: Task, seenOut: set<int>, err: Option<Error>)
      modifies this
      ensures nextId == old(nextId)
      ensures var m := MergeLoop(cands, seed.kind, seed, |seed.keys|, skip, all, seen, {}, [], faults);
        task == m.task && seenOut == m.seen && err == m.error && rows == Without(old(rows), m.deleted)
    {
      var snap := rows;
      var kind := seed.kind;
      task, seenOut, err := seed, seen, None;
      var total: nat := |seed.keys|;
      ghost var deleted: set<int> := {};
      ghost var absorbed: seq<int> := [];
      assert Without(snap, {}) == snap;
      assert cands[0..] == cands;
      var i := 0;
      while i < |cands| && total < MergeBudget
        invariant 0 <= i <= |cands|
        invariant MergeLoop(cands[i..], kind, task, total, skip, all, seenOut, deleted, absorbed, faults)
               == MergeLoop(cands, kind, seed, |seed.keys|, skip, all, seen, {}, [], faults)
        invariant err == None
        invariant rows == Without(snap, deleted)
        invariant nextId == old(nextId)
      {
        var r := cands[i];
        assert cands[i..][1..] == cands[i + 1..];
        if r.kind != kind {
          i := i + 1;
          continue;
        }
        if r.payload.None? {
          var e := DeleteTask(r.id, faults);
          if e.Some? {
            err := e;
            return;
          }
          WithoutUnion(snap, deleted, {r.id});
          deleted := deleted + {r.id};
          i := i + 1;
          continue;
        }
        var existing := r.payload.value;
        if existing.index in skip {
          i := i + 1;
          continue;
        }
        if r.id in seenOut {
          i := i + 1;
          continue;
        }
        seenOut := seenOut + {r.id};
        if existing.index !in all {
          i := i + 1;
          continue;
        }
        total := total + |existing.keys|;
        task := Merge(task, existing);
        absorbed := absorbed + [r.id];
        i := i + 1;
      }
    }

    /**
     * GetMergedTask: takes the first row in id order that passes every
     * filter as the seed, deleting the rows of the kind that fail to
     * deserialise on the way, then merges similar tasks into it. Returns
     * the task (or nothing) or the exception raised, and the new
     * `alreadySeen`.
     */
    method GetMergedTask(kind: string, skip: seq<int>, all: seq<int>, seen: set<int>, faults: Faults)
      returns (res: Result<Option<Task>, Error>, seenOut: set<int>)
      requires Valid()
      modifies this
      ensures Valid() && nextId == old(nextId)
      ensures var d := MergedTask(old(rows), kind, skip, all, seen, faults);
        res == d.result && seenOut == d.seen && rows == d.rows
    {
      var snap := rows;
      ghost var deleted: set<int> := {};
      seenOut := seen;
      assert Without(snap, {}) == snap;
      var i := 0;
      while i < |snap|
        invariant 0 <= i <= |snap|
        invariant FindSeed(snap[i..], kind, skip, all, seenOut, deleted, faults)
               == FindSeed(snap, kind, skip, all, seen, {}, faults)
        invariant rows == Without(snap, deleted)
        invariant ValidRows(snap, nextId) && nextId == old(nextId)
      {
        var r := snap[i];
        assert snap[i..][1..] == snap[i + 1..];
        if r.kind != kind {
          i := i + 1;
          continue;
        }
        if r.payload.None? {
          var e := DeleteTask(r.id, faults);
          if e.Some? {
            res := Failure(e.value);
            WithoutValid(snap, deleted, nextId);
            return;
          }
          WithoutUnion(snap, deleted, {r.id});
          deleted := deleted + {r.id};
          i := i + 1;
          continue;
        }
        var task := r.payload.value;
        if task.index in skip {
          i := i + 1;
          continue;
        }
        if r.id in seenOut {
          i := i + 1;
          continue;
        }
        seenOut := seenOut + {r.id};
        if task.index !in all {
          i := i + 1;
          continue;
        }
        task := task.(id := r.id);
        assert r in snap;
        WithoutValid(snap, deleted, nextId);
        var err;
        task, seenOut, err := MergeSimilarTasks(task, skip, all, seenOut, faults);
        res := if err.Some? then Failure(err.value) else Success(Some(task));
        return;
      }
      res := Success(None);
      WithoutValid(snap, deleted, nextId);
    }

    /**
     * DeleteTasks: deletes, one id at a time in the order `order` lists them
     * (the enumeration order of `alreadySeen`), the row with each id, skipping
     * ids with no row; any storage error is rethrown unchanged. Without an
     * error, exactly the rows with listed ids are gone.
     */
    method DeleteTasks(order: seq<int>, faults: Faults) returns (err: Option<Error>)
      requires Valid()
      modifies this
      ensures Valid() && nextId == old(nextId)
      ensures forall r :: r in rows ==> r in old(rows)
      ensures forall r :: r in old(rows) && r.id !in order ==> r in rows
      ensures err.None? ==> forall r :: r in old(rows) && r.id in order ==> r !in rows
      ensures err.None? <==> forall r :: r in old(rows) && r.id in order ==> r.id !in faults
      ensures err.Some? ==>
        exists r :: r in old(rows) && r.id in order && r.id in faults && err == Some(StorageError(faults[r.id]))
      ensures err.None? ==> forall r :: r in rows ==> r.id !in order
      ensures (forall r :: r in old(rows) ==> r.id !in order) ==> err.None? && rows == old(rows)
    {
      var snap := rows;
      ghost var deleted;
      err, deleted := DeleteListed(order, faults);
      WithoutIsSubTable(snap, deleted);
      WithoutValid(snap, deleted, nextId);
    }

    /** The foreach loop of DeleteTasks, with the ids it deleted. */
    method DeleteListed(order: seq<int>, faults: Faults) returns (err: Option<Error>, ghost deleted: set<int>)
      modifies this
      ensures nextId == old(nextId)
      ensures rows == Without(old(rows), deleted)
      ensures forall x :: x in deleted ==> x in order && x !in faults
      ensures err.None? ==> forall r :: r in old(rows) && r.id in order ==> r.id in deleted && r.id !in faults
      ensures err.Some? ==>
        exists r :: r in old(rows) && r.id in order && r.id in faults && err == Some(StorageError(faults[r.id]))
    {
      var snap := rows;
      deleted := {};
      assert Without(snap, {}) == snap;
      var i := 0;
      while i < |order|
        invariant 0 <= i <= |order|
        invariant rows == Without(snap, deleted)
        invariant forall x :: x in deleted ==> x in order[..i] && x !in faults
        invariant forall r :: r in snap && r.id in order[..i] ==> r.id in deleted && r.id !in faults
        invariant nextId == old(nextId)
      {
        var id := order[i];
        assert order[..i + 1] == order[..i] + [id];
        if exists r :: r in rows && r.id == id {
          var e := DeleteRow(id, faults);
          if e.Some? {
            err := Some(StorageError(e.value));
            assert forall x :: x in order[..i] ==> x in order;
            return;
          }
          WithoutUnion(snap, deleted, {id});
          deleted := deleted + {id};
        }
        i := i + 1;
      }
      assert order[..i] == order;
      err := None;
    }

    /**
     * DeleteTasksForIndex: walks the `by_index` range of `index`, deleting
     * each row and counting the deletes; a write conflict keeps the row and
     * is not counted, any other storage error is rethrown.
     */
    method DeleteTasksForIndex(index: int, faults: Faults) returns (res: Result<nat, Error>)
      requires Valid()
      modifies this
      ensures Valid() && nextId == old(nextId)
      ensures var t := DeleteForIndex(old(rows), index, faults);
        && rows == Without(old(rows), t.deleted)
        && res == if t.error.Some? then Failure(t.error.value) else Success(t.count)
    {
      var snap := rows;
      var range := IndexRange(snap, index);
      var count: nat := 0;
      ghost var deleted: set<int> := {};
      assert Without(snap, {}) == snap;
      var i := 0;
      while i < |range|
        invariant 0 <= i <= |range|
        invariant TeardownLoop(range[i..], faults, count, deleted) == DeleteForIndex(snap, index, faults)
        invariant rows == Without(snap, deleted)
        invariant ValidRows(snap, nextId) && nextId == old(nextId)
      {
        var id := range[i].id;
        assert range[i..][1..] == range[i + 1..];
        var e := DeleteRow(id, faults);
        if e.None? {
          WithoutUnion(snap, deleted, {id});
          deleted := deleted + {id};
          count := count + 1;
        } else if e.value != WriteConflict {
          res := Failure(StorageError(e.value));
          WithoutValid(snap, deleted, nextId);
          return;
        }
        i := i + 1;
      }
      res := Success(count);
      WithoutValid(snap, deleted, nextId);
    }
  }
}
