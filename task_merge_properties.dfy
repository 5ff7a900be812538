/**
 * Properties of the dequeue-and-merge scan and of the index teardown:
 * which row becomes the seed, what `alreadySeen` gains, which rows are
 * deleted, how the merge budget bounds the work, and what the teardown counts.
 */
module TaskMergeProperties {
  import opened Wrappers
  import opened TaskRecords
  import opened TaskMerge

  /** Two rows of a table with distinct ids that share an id are the same row. */
  lemma SameIdSameRow(rows: seq<Record>, a: Record, b: Record)
    requires DistinctIds(rows) && a in rows && b in rows && a.id == b.id
    ensures a == b
  {
    var i :| 0 <= i < |rows| && rows[i] == a;
    var j :| 0 <= j < |rows| && rows[j] == b;
  }

  /** In a table with distinct ids, no other row shares a row's id. */
  lemma OtherRowsOtherIds(rows: seq<Record>, r: Record)
    requires DistinctIds(rows) && r in rows
    ensures forall p :: p in rows && p != r ==> p.id != r.id
  {
    forall p | p in rows && p != r ensures p.id != r.id {
      var i :| 0 <= i < |rows| && rows[i] == p;
      var j :| 0 <= j < |rows| && rows[j] == r;
    }
  }

  /**
   * Every row before position `j` that fails to deserialise has its id among
   * `deleted`, and every orphan before it has its id among `seen`.
   */
  ghost predicate HealedBefore(rows: seq<Record>, j: int, kind: string, skip: seq<int>, all: seq<int>,
                               deleted: set<int>, seen: set<int>)
  {
    forall k :: 0 <= k < j && k < |rows| ==>
      && (Poisoned(rows[k], kind) ==> rows[k].id in deleted)
      && (Orphan(rows[k], kind, skip, all) ==> rows[k].id in seen)
  }

  /** A healed prefix of the rest, after a first row that is healed too, is a healed prefix one longer. */
  lemma HealedStep(rows: seq<Record>, j: nat, kind: string, skip: seq<int>, all: seq<int>,
                   deleted: set<int>, seen: set<int>)
    requires rows != [] && j < |rows| && HealedBefore(rows[1..], j, kind, skip, all, deleted, seen)
    requires Poisoned(rows[0], kind) ==> rows[0].id in deleted
    requires Orphan(rows[0], kind, skip, all) ==> rows[0].id in seen
    ensures HealedBefore(rows, j + 1, kind, skip, all, deleted, seen)
  {
    forall k | 0 < k < j + 1
      ensures (Poisoned(rows[k], kind) ==> rows[k].id in deleted) && (Orphan(rows[k], kind, skip, all) ==> rows[k].id in seen)
    {
      assert rows[k] == rows[1..][k - 1];
    }
  }

  // ---------------------------------------------------------------------
  // The seed scan
  // ---------------------------------------------------------------------

  /**
   * The seed scan over `rows` that ended in `s` got as far as position `j`:
   * every row before it is healed; a scan that finds no seed got through
   * every row; one that finds a seed found it at `j`; and one that fails,
   * failed on the poisoned row at `j`, with that row's DeleteTask error.
   */
  ghost predicate SeedScanStoppedAt(rows: seq<Record>, j: int, s: SeedScan, kind: string, skip: seq<int>,
                                    all: seq<int>, faults: Faults)
  {
    && 0 <= j <= |rows| && HealedBefore(rows, j, kind, skip, all, s.deleted, s.seen)
    && (s.outcome.NoSeed? ==> j == |rows|)
    && (s.outcome.Seed? ==> j < |rows| && rows[j].payload.Some? && s.outcome.task == SeedOf(rows[j]))
    && (s.outcome.SeedFailed? ==>
          j < |rows| && Poisoned(rows[j], kind) && rows[j].id in faults
          && s.outcome.error == DeleteTaskError(faults[rows[j].id]))
  }

  /**
   * The seed scan only grows `alreadySeen`, and only with ids of considered
   * rows; it deletes only poisoned rows; it fails only on a poisoned row whose
   * delete fails, with DeleteTask's error; a scan that finds no seed has
   * deleted every poisoned row and marked every orphan as seen; and wherever
   * the scan stops, every poisoned row before that point is deleted and every
   * orphan before it is seen.
   */
  lemma {:induction false} FindSeedFootprint(rows: seq<Record>, kind: string, skip: seq<int>, all: seq<int>,
                                             seen: set<int>, deleted: set<int>, faults: Faults)
    ensures var s := FindSeed(rows, kind, skip, all, seen, deleted, faults);
      && seen <= s.seen && deleted <= s.deleted
      && (forall x :: x in s.seen && x !in seen ==> exists r :: r in rows && r.id == x && Considered(r, kind, skip))
      && (forall x :: x in s.deleted && x !in deleted ==> exists r :: r in rows && r.id == x && Poisoned(r, kind))
      && (s.outcome.SeedFailed? ==>
            exists r :: r in rows && Poisoned(r, kind) && r.id in faults && s.outcome.error == DeleteTaskError(faults[r.id]))
      && ((forall r :: r in rows && Poisoned(r, kind) ==> r.id !in faults) ==> !s.outcome.SeedFailed?)
      && (s.outcome.NoSeed? ==> forall r :: r in rows && Poisoned(r, kind) ==> r.id in s.deleted)
      && (s.outcome.NoSeed? ==> forall r :: r in rows && Orphan(r, kind, skip, all) ==> r.id in s.seen)
      && exists j :: SeedScanStoppedAt(rows, j, s, kind, skip, all, faults)
    decreases |rows|
  {
    var s := FindSeed(rows, kind, skip, all, seen, deleted, faults);
    if rows != [] {
      var r, rest := rows[0], rows[1..];
      assert forall y :: y in rest ==> y in rows;
      assert forall y :: y in rows ==> y == r || y in rest;
      if !Accepted(r, kind, skip, all, seen) && !(Poisoned(r, kind) && r.id in faults) {
        var seen1 := if Considered(r, kind, skip) && r.id !in seen then seen + {r.id} else seen;
        var deleted1 := if Poisoned(r, kind) then deleted + {r.id} else deleted;
        assert s == FindSeed(rest, kind, skip, all, seen1, deleted1, faults);
        FindSeedFootprint(rest, kind, skip, all, seen1, deleted1, faults);
        var j :| SeedScanStoppedAt(rest, j, s, kind, skip, all, faults);
        HealedStep(rows, j, kind, skip, all, s.deleted, s.seen);
        assert j < |rest| ==> rows[j + 1] == rest[j];
        assert SeedScanStoppedAt(rows, j + 1, s, kind, skip, all, faults);
      } else {
        assert SeedScanStoppedAt(rows, 0, s, kind, skip, all, faults);
      }
    } else {
      assert SeedScanStoppedAt(rows, 0, s, kind, skip, all, faults);
    }
  }

  /**
   * In a table with distinct ids, the seed is the first row that passes every
   * filter, given its row's id; no seed means no row passes.
   */
  lemma {:induction false} FindSeedIsFirstAccepted(rows: seq<Record>, kind: string, skip: seq<int>, all: seq<int>,
                                                   seen: set<int>, deleted: set<int>, faults: Faults)
    requires DistinctIds(rows)
    ensures var s := FindSeed(rows, kind, skip, all, seen, deleted, faults);
      && (s.outcome.Seed? ==>
            exists j :: 0 <= j < |rows| && Accepted(rows[j], kind, skip, all, seen)
              && s.outcome.task == SeedOf(rows[j]) && rows[j].id in s.seen
              && forall k :: 0 <= k < j ==> !Accepted(rows[k], kind, skip, all, seen))
      && (s.outcome.NoSeed? ==> forall j :: 0 <= j < |rows| ==> !Accepted(rows[j], kind, skip, all, seen))
    decreases |rows|
  {
    if rows != [] {
      var r, rest := rows[0], rows[1..];
      DistinctTail(rows);
      var s := FindSeed(rows, kind, skip, all, seen, deleted, faults);
      if !Accepted(r, kind, skip, all, seen) && !(Poisoned(r, kind) && r.id in faults) {
        var seen1 := if Considered(r, kind, skip) && r.id !in seen then seen + {r.id} else seen;
        var deleted1 := if Poisoned(r, kind) then deleted + {r.id} else deleted;
        assert s == FindSeed(rest, kind, skip, all, seen1, deleted1, faults);
        FindSeedIsFirstAccepted(rest, kind, skip, all, seen1, deleted1, faults);
        assert forall k :: 0 <= k < |rest| ==>
          (Accepted(rest[k], kind, skip, all, seen1) <==> Accepted(rest[k], kind, skip, all, seen)) by {
          forall k | 0 <= k < |rest| ensures rest[k].id != r.id { assert rest[k] in rest; }
        }
        if s.outcome.Seed? {
          var j :| 0 <= j < |rest| && Accepted(rest[j], kind, skip, all, seen1)
            && s.outcome.task == SeedOf(rest[j]) && rest[j].id in s.seen
            && forall k :: 0 <= k < j ==> !Accepted(rest[k], kind, skip, all, seen1);
          assert rows[j + 1] == rest[j];
          forall k | 0 <= k < j + 1 ensures !Accepted(rows[k], kind, skip, all, seen) {
            if k > 0 { assert rows[k] == rest[k - 1]; }
          }
        }
        if s.outcome.NoSeed? {
          forall j | 0 <= j < |rows| ensures !Accepted(rows[j], kind, skip, all, seen) {
            if j > 0 { assert rows[j] == rest[j - 1]; }
          }
        }
      }
    }
  }

  // ---------------------------------------------------------------------
  // The merge loop
  // ---------------------------------------------------------------------

  /**
   * The merged task keeps the seed's identity and keys and appends the keys
   * of what it absorbs; the running total grows by exactly the keys merged in.
   */
  lemma {:induction false} MergeLoopKeys(cands: seq<Record>, kind: string, acc: Task, total: nat, skip: seq<int>, all: seq<int>,
                                         seen: set<int>, deleted: set<int>, absorbed: seq<int>, faults: Faults)
    ensures var m := MergeLoop(cands, kind, acc, total, skip, all, seen, deleted, absorbed, faults);
      && m.task.id == acc.id && m.task.kind == acc.kind && m.task.index == acc.index
      && m.task.separateByIndex == acc.separateByIndex
      && |acc.keys| <= |m.task.keys| && m.task.keys[..|acc.keys|] == acc.keys
      && total <= m.total && m.total - total == |m.task.keys| - |acc.keys|
      && |absorbed| <= |m.absorbed| && m.absorbed[..|absorbed|] == absorbed
    decreases |cands|
  {
    if cands != [] && total < MergeBudget {
      var r, rest := cands[0], cands[1..];
      if Considered(r, kind, skip) && r.id !in seen && r.payload.value.index in all {
        var t := r.payload.value;
        MergeLoopKeys(rest, kind, Merge(acc, t), total + |t.keys|, skip, all, seen + {r.id}, deleted, absorbed + [r.id], faults);
        var m := MergeLoop(cands, kind, acc, total, skip, all, seen, deleted, absorbed, faults);
        assert m.task.keys[..|acc.keys|] == (m.task.keys[..|acc.keys| + |t.keys|])[..|acc.keys|];
        assert m.absorbed[..|absorbed|] == (m.absorbed[..|absorbed| + 1])[..|absorbed|];
      } else {
        var seen1 := if Considered(r, kind, skip) && r.id !in seen then seen + {r.id} else seen;
        var deleted1 := if Poisoned(r, kind) && r.id !in faults then deleted + {r.id} else deleted;
        MergeLoopKeys(rest, kind, acc, total, skip, all, seen1, deleted1, absorbed, faults);
      }
    }
  }

  /** The keys of the task stored in the first row with id `id`; none when there is no such row or it fails to deserialise. */
  function RowKeys(rows: seq<Record>, id: int): seq<Key>
    decreases |rows|
  {
    if rows == [] then []
    else if rows[0].id == id then (if rows[0].payload.Some? then rows[0].payload.value.keys else [])
    else RowKeys(rows[1..], id)
  }

  /** The table holds a row with that id whose task deserialises. */
  ghost predicate HasRow(rows: seq<Record>, id: int)
  {
    exists c :: c in rows && c.id == id && c.payload.Some?
  }

  /** The keys of the rows that `ids` names, one row after the other in the order of `ids`. */
  function KeysOf(rows: seq<Record>, ids: seq<int>): seq<Key>
    decreases |ids|
  {
    if ids == [] then [] else RowKeys(rows, ids[0]) + KeysOf(rows, ids[1..])
  }

  /** In a table with distinct ids, the keys found for a row's id are that row's keys. */
  lemma {:induction false} RowKeysOfRow(rows: seq<Record>, r: Record)
    requires DistinctIds(rows) && r in rows && r.payload.Some?
    ensures RowKeys(rows, r.id) == r.payload.value.keys
    decreases |rows|
  {
    if rows[0] != r {
      DistinctTail(rows);
      assert r in rows[1..];
      RowKeysOfRow(rows[1..], r);
    }
  }

  /** Ids other than the first row's find the same keys without it. */
  lemma {:induction false} KeysOfTail(rows: seq<Record>, ids: seq<int>)
    requires rows != [] && forall i :: 0 <= i < |ids| ==> ids[i] != rows[0].id
    ensures KeysOf(rows, ids) == KeysOf(rows[1..], ids)
    decreases |ids|
  {
    if ids != [] {
      KeysOfTail(rows, ids[1..]);
    }
  }

  /** Ids of rows of a sub-table find the same keys in the whole table. */
  lemma {:induction false} KeysOfSubTable(small: seq<Record>, big: seq<Record>, ids: seq<int>)
    requires DistinctIds(small) && DistinctIds(big) && forall c :: c in small ==> c in big
    requires forall i :: 0 <= i < |ids| ==> HasRow(small, ids[i])
    ensures KeysOf(small, ids) == KeysOf(big, ids)
    decreases |ids|
  {
    if ids != [] {
      assert HasRow(small, ids[0]);
      var c :| c in small && c.id == ids[0] && c.payload.Some?;
      RowKeysOfRow(small, c);
      RowKeysOfRow(big, c);
      forall i | 0 <= i < |ids[1..]| ensures HasRow(small, ids[1..][i]) {
        assert ids[1..][i] == ids[i + 1];
      }
      KeysOfSubTable(small, big, ids[1..]);
    }
  }

  /** Ids of later candidates find the same keys without the first candidate. */
  lemma KeysOfRest(cands: seq<Record>, later: seq<int>)
    requires cands != [] && DistinctIds(cands)
    requires forall i :: 0 <= i < |later| ==> HasRow(cands[1..], later[i])
    ensures KeysOf(cands, later) == KeysOf(cands[1..], later)
  {
    forall i | 0 <= i < |later| ensures later[i] != cands[0].id {
      var c :| c in cands[1..] && c.id == later[i];
      var k :| 0 <= k < |cands[1..]| && cands[1..][k] == c;
      assert cands[k + 1] == c;
    }
    KeysOfTail(cands, later);
  }

  /**
   * Over candidates with distinct ids, the merged task's keys are the seed's
   * keys followed by the keys of each row merged in, in merge order, and the
   * running total grows by exactly their number: NumberOfKeys of each.
   */
  lemma {:induction false} MergeLoopMergedKeys(cands: seq<Record>, kind: string, acc: Task, total: nat, skip: seq<int>, all: seq<int>,
                                               seen: set<int>, deleted: set<int>, absorbed: seq<int>, faults: Faults)
    requires DistinctIds(cands)
    ensures var m := MergeLoop(cands, kind, acc, total, skip, all, seen, deleted, absorbed, faults);
      && |absorbed| <= |m.absorbed|
      && m.task.keys == acc.keys + KeysOf(cands, m.absorbed[|absorbed|..])
      && m.total == total + |KeysOf(cands, m.absorbed[|absorbed|..])|
    decreases |cands|
  {
    var m := MergeLoop(cands, kind, acc, total, skip, all, seen, deleted, absorbed, faults);
    if cands != [] && total < MergeBudget {
      var r, rest := cands[0], cands[1..];
      DistinctTail(cands);
      var seen1 := if Considered(r, kind, skip) && r.id !in seen then seen + {r.id} else seen;
      var deleted1 := if Poisoned(r, kind) && r.id !in faults then deleted + {r.id} else deleted;
      if Accepted(r, kind, skip, all, seen) {
        var t := r.payload.value;
        var absorbed1 := absorbed + [r.id];
        assert m == MergeLoop(rest, kind, Merge(acc, t), total + |t.keys|, skip, all, seen1, deleted1, absorbed1, faults);
        MergeLoopMergedKeys(rest, kind, Merge(acc, t), total + |t.keys|, skip, all, seen1, deleted1, absorbed1, faults);
        var later := MergedLater(rest, kind, Merge(acc, t), total + |t.keys|, skip, all, seen1, deleted1, absorbed1, faults);
        KeysOfRest(cands, later);
        assert m.absorbed[|absorbed|..] == [r.id] + later;
        assert ([r.id] + later)[1..] == later;
      } else if !(Poisoned(r, kind) && r.id in faults) {
        assert m == MergeLoop(rest, kind, acc, total, skip, all, seen1, deleted1, absorbed, faults);
        MergeLoopMergedKeys(rest, kind, acc, total, skip, all, seen1, deleted1, absorbed, faults);
        var later := MergedLater(rest, kind, acc, total, skip, all, seen1, deleted1, absorbed, faults);
        KeysOfRest(cands, later);
      } else {
        assert m.absorbed[|absorbed|..] == [];
      }
    } else {
      assert m.absorbed[|absorbed|..] == [];
    }
  }

  /** The ids a merge adds to `absorbed`, each the id of one of its candidates. */
  lemma MergedLater(cands: seq<Record>, kind: string, acc: Task, total: nat, skip: seq<int>, all: seq<int>,
                    seen: set<int>, deleted: set<int>, absorbed: seq<int>, faults: Faults) returns (later: seq<int>)
    ensures var m := MergeLoop(cands, kind, acc, total, skip, all, seen, deleted, absorbed, faults);
      && m.absorbed == absorbed + later
      && forall i :: 0 <= i < |later| ==> HasRow(cands, later[i])
  {
    var m := MergeLoop(cands, kind, acc, total, skip, all, seen, deleted, absorbed, faults);
    MergeLoopKeys(cands, kind, acc, total, skip, all, seen, deleted, absorbed, faults);
    later := m.absorbed[|absorbed|..];
    assert m.absorbed == m.absorbed[..|absorbed|] + later;
    assert m.absorbed == absorbed + later;
    forall i | 0 <= i < |later| ensures HasRow(cands, later[i]) {
      assert later[i] == m.absorbed[|absorbed| + i];
      var c := AbsorbedCandidate(cands, kind, acc, total, skip, all, seen, deleted, absorbed, faults, |absorbed| + i);
      assert c.payload.Some?;
    }
  }

  /**
   * The merge only grows `alreadySeen`, with ids of considered candidates; it
   * deletes only poisoned candidates; and it fails only on a poisoned
   * candidate whose delete fails.
   */
  lemma {:induction false} MergeLoopFootprint(cands: seq<Record>, kind: string, acc: Task, total: nat, skip: seq<int>, all: seq<int>,
                                              seen: set<int>, deleted: set<int>, absorbed: seq<int>, faults: Faults)
    ensures var m := MergeLoop(cands, kind, acc, total, skip, all, seen, deleted, absorbed, faults);
      && seen <= m.seen && deleted <= m.deleted
      && (forall x :: x in m.seen && x !in seen ==> exists c :: c in cands && c.id == x && Considered(c, kind, skip))
      && (forall x :: x in m.deleted && x !in deleted ==> exists c :: c in cands && c.id == x && Poisoned(c, kind))
      && (m.error.Some? ==>
            exists c :: c in cands && Poisoned(c, kind) && c.id in faults && m.error.value == DeleteTaskError(faults[c.id]))
      && ((forall c :: c in cands && Poisoned(c, kind) ==> c.id !in faults) ==> m.error.None?)
    decreases |cands|
  {
    var m := MergeLoop(cands, kind, acc, total, skip, all, seen, deleted, absorbed, faults);
    if cands != [] && total < MergeBudget {
      var r, rest := cands[0], cands[1..];
      assert forall y :: y in rest ==> y in cands;
      var seen1 := if Considered(r, kind, skip) && r.id !in seen then seen + {r.id} else seen;
      var deleted1 := if Poisoned(r, kind) && r.id !in faults then deleted + {r.id} else deleted;
      if Accepted(r, kind, skip, all, seen) {
        var t := r.payload.value;
        assert m == MergeLoop(rest, kind, Merge(acc, t), total + |t.keys|, skip, all, seen1, deleted1, absorbed + [r.id], faults);
        MergeLoopFootprint(rest, kind, Merge(acc, t), total + |t.keys|, skip, all, seen1, deleted1, absorbed + [r.id], faults);
      } else if !(Poisoned(r, kind) && r.id in faults) {
        assert m == MergeLoop(rest, kind, acc, total, skip, all, seen1, deleted1, absorbed, faults);
        MergeLoopFootprint(rest, kind, acc, total, skip, all, seen1, deleted1, absorbed, faults);
      }
    }
  }

  /**
   * Every id the merge adds to `absorbed` belongs to a candidate that passed
   * every filter against the `alreadySeen` the merge started from, and is now
   * seen.
   */
  lemma MergeLoopAbsorbed(cands: seq<Record>, kind: string, acc: Task, total: nat, skip: seq<int>, all: seq<int>,
                          seen: set<int>, deleted: set<int>, absorbed: seq<int>, faults: Faults)
    ensures var m := MergeLoop(cands, kind, acc, total, skip, all, seen, deleted, absorbed, faults);
      forall i :: |absorbed| <= i < |m.absorbed| ==>
        m.absorbed[i] in m.seen && AcceptedAmong(cands, m.absorbed[i], kind, skip, all, seen)
  {
    var m := MergeLoop(cands, kind, acc, total, skip, all, seen, deleted, absorbed, faults);
    forall i | |absorbed| <= i < |m.absorbed|
      ensures m.absorbed[i] in m.seen && AcceptedAmong(cands, m.absorbed[i], kind, skip, all, seen)
    {
      var c := AbsorbedCandidate(cands, kind, acc, total, skip, all, seen, deleted, absorbed, faults, i);
    }
  }

  /** Some candidate with that id passes every filter against `seen`. */
  ghost predicate AcceptedAmong(cands: seq<Record>, id: int, kind: string, skip: seq<int>, all: seq<int>, seen: set<int>)
  {
    exists c :: c in cands && c.id == id && Accepted(c, kind, skip, all, seen)
  }

  /** The candidate behind the `i`-th absorbed id, by induction over the candidates. */
  lemma {:induction false} AbsorbedCandidate(cands: seq<Record>, kind: string, acc: Task, total: nat, skip: seq<int>, all: seq<int>,
                                             seen: set<int>, deleted: set<int>, absorbed: seq<int>, faults: Faults, i: int)
    returns (c: Record)
    requires |absorbed| <= i < |MergeLoop(cands, kind, acc, total, skip, all, seen, deleted, absorbed, faults).absorbed|
    ensures var m := MergeLoop(cands, kind, acc, total, skip, all, seen, deleted, absorbed, faults);
      c in cands && c.id == m.absorbed[i] && Accepted(c, kind, skip, all, seen) && m.absorbed[i] in m.seen
    decreases |cands|
  {
    var m := MergeLoop(cands, kind, acc, total, skip, all, seen, deleted, absorbed, faults);
    if cands == [] || total >= MergeBudget {
      assert false;
    } else {
      var r, rest := cands[0], cands[1..];
      var seen1 := if Considered(r, kind, skip) && r.id !in seen then seen + {r.id} else seen;
      var deleted1 := if Poisoned(r, kind) && r.id !in faults then deleted + {r.id} else deleted;
      if Accepted(r, kind, skip, all, seen) {
        var t := r.payload.value;
        var absorbed1 := absorbed + [r.id];
        var m1 := MergeLoop(rest, kind, Merge(acc, t), total + |t.keys|, skip, all, seen1, deleted1, absorbed1, faults);
        assert m == m1;
        MergeLoopFootprint(rest, kind, Merge(acc, t), total + |t.keys|, skip, all, seen1, deleted1, absorbed1, faults);
        MergeLoopKeys(rest, kind, Merge(acc, t), total + |t.keys|, skip, all, seen1, deleted1, absorbed1, faults);
        if i == |absorbed| {
          assert m1.absorbed[i] == absorbed1[i] == r.id;
          c := r;
        } else {
          c := AbsorbedCandidate(rest, kind, Merge(acc, t), total + |t.keys|, skip, all, seen1, deleted1, absorbed1, faults, i);
        }
      } else if Poisoned(r, kind) && r.id in faults {
        assert false;
      } else {
        var m1 := MergeLoop(rest, kind, acc, total, skip, all, seen1, deleted1, absorbed, faults);
        assert m == m1;
        c := AbsorbedCandidate(rest, kind, acc, total, skip, all, seen1, deleted1, absorbed, faults, i);
      }
    }
  }

  /** What the merge healed, by induction over the candidates: `j` is where the merge stopped. */
  lemma {:induction false} MergeLoopHeals(cands: seq<Record>, kind: string, acc: Task, total: nat, skip: seq<int>, all: seq<int>,
                                          seen: set<int>, deleted: set<int>, absorbed: seq<int>, faults: Faults)
    returns (j: int)
    ensures MergeStoppedAt(cands, j, MergeLoop(cands, kind, acc, total, skip, all, seen, deleted, absorbed, faults), kind, skip, all, faults)
    decreases |cands|
  {
    var m := MergeLoop(cands, kind, acc, total, skip, all, seen, deleted, absorbed, faults);
    assert HealedBefore(cands, 0, kind, skip, all, m.deleted, m.seen);
    j := 0;
    if cands != [] && total < MergeBudget {
      var r, rest := cands[0], cands[1..];
      var seen1 := if Considered(r, kind, skip) && r.id !in seen then seen + {r.id} else seen;
      var deleted1 := if Poisoned(r, kind) && r.id !in faults then deleted + {r.id} else deleted;
      if Accepted(r, kind, skip, all, seen) {
        var t := r.payload.value;
        assert m == MergeLoop(rest, kind, Merge(acc, t), total + |t.keys|, skip, all, seen1, deleted1, absorbed + [r.id], faults);
        MergeLoopFootprint(rest, kind, Merge(acc, t), total + |t.keys|, skip, all, seen1, deleted1, absorbed + [r.id], faults);
        var j1 := MergeLoopHeals(rest, kind, Merge(acc, t), total + |t.keys|, skip, all, seen1, deleted1, absorbed + [r.id], faults);
        j := MergeLoopHealedStep(cands, j1, m, kind, skip, all, faults);
      } else if !(Poisoned(r, kind) && r.id in faults) {
        assert m == MergeLoop(rest, kind, acc, total, skip, all, seen1, deleted1, absorbed, faults);
        MergeLoopFootprint(rest, kind, acc, total, skip, all, seen1, deleted1, absorbed, faults);
        var j1 := MergeLoopHeals(rest, kind, acc, total, skip, all, seen1, deleted1, absorbed, faults);
        j := MergeLoopHealedStep(cands, j1, m, kind, skip, all, faults);
      }
    }
  }

  /**
   * The merge over `cands` that ended in `m` got as far as position `j`:
   * every candidate before it is healed; a merge that ends cleanly below the
   * budget got through every candidate; and one that fails, failed on the
   * poisoned candidate at `j`, with that row's DeleteTask error.
   */
  ghost predicate MergeStoppedAt(cands: seq<Record>, j: int, m: MergeScan, kind: string, skip: seq<int>,
                                 all: seq<int>, faults: Faults)
  {
    && 0 <= j <= |cands| && HealedBefore(cands, j, kind, skip, all, m.deleted, m.seen)
    && (m.error.None? && m.total < MergeBudget ==> j == |cands|)
    && (m.error.Some? ==>
          j < |cands| && Poisoned(cands[j], kind) && cands[j].id in faults
          && m.error.value == DeleteTaskError(faults[cands[j].id]))
  }

  /** A merge that got past a first candidate it healed got one position further. */
  lemma MergeLoopHealedStep(cands: seq<Record>, j1: int, m: MergeScan, kind: string, skip: seq<int>, all: seq<int>, faults: Faults)
    returns (j: int)
    requires cands != [] && MergeStoppedAt(cands[1..], j1, m, kind, skip, all, faults)
    requires Poisoned(cands[0], kind) ==> cands[0].id in m.deleted
    requires Orphan(cands[0], kind, skip, all) ==> cands[0].id in m.seen
    ensures j == j1 + 1 && MergeStoppedAt(cands, j, m, kind, skip, all, faults)
  {
    var rest := cands[1..];
    HealedStep(cands, j1, kind, skip, all, m.deleted, m.seen);
    assert j1 < |rest| ==> cands[j1 + 1] == rest[j1];
    j := j1 + 1;
  }

  /**
   * The budget bounds the overshoot: when no candidate carries more than `w`
   * keys, a total that starts below the budget plus `w` ends below it, since
   * a candidate is considered only while the total is below the budget.
   */
  lemma {:induction false} MergeLoopBudget(cands: seq<Record>, kind: string, acc: Task, total: nat, skip: seq<int>, all: seq<int>,
                                           seen: set<int>, deleted: set<int>, absorbed: seq<int>, faults: Faults, w: nat)
    requires forall c :: c in cands && c.payload.Some? ==> |c.payload.value.keys| <= w
    ensures var m := MergeLoop(cands, kind, acc, total, skip, all, seen, deleted, absorbed, faults);
      total < MergeBudget + w ==> m.total < MergeBudget + w
    decreases |cands|
  {
    if cands != [] && total < MergeBudget {
      var r, rest := cands[0], cands[1..];
      assert r in cands;
      assert forall y :: y in rest ==> y in cands;
      var seen1 := if Considered(r, kind, skip) && r.id !in seen then seen + {r.id} else seen;
      var deleted1 := if Poisoned(r, kind) && r.id !in faults then deleted + {r.id} else deleted;
      if Accepted(r, kind, skip, all, seen) {
        var t := r.payload.value;
        MergeLoopBudget(rest, kind, Merge(acc, t), total + |t.keys|, skip, all, seen1, deleted1, absorbed + [r.id], faults, w);
      } else if !(Poisoned(r, kind) && r.id in faults) {
        MergeLoopBudget(rest, kind, acc, total, skip, all, seen1, deleted1, absorbed, faults, w);
      }
    }
  }

  /**
   * A merge that ends without error and below the budget has merged in every
   * candidate that passes the filters: a candidate is turned away only once
   * the budget is reached.
   */
  lemma {:induction false} MergeLoopExhaustive(cands: seq<Record>, kind: string, acc: Task, total: nat, skip: seq<int>, all: seq<int>,
                                               seen: set<int>, deleted: set<int>, absorbed: seq<int>, faults: Faults)
    requires DistinctIds(cands)
    ensures var m := MergeLoop(cands, kind, acc, total, skip, all, seen, deleted, absorbed, faults);
      m.error.None? && m.total < MergeBudget ==>
        forall c :: c in cands && Accepted(c, kind, skip, all, seen) ==> c.id in m.absorbed
    decreases |cands|
  {
    var m := MergeLoop(cands, kind, acc, total, skip, all, seen, deleted, absorbed, faults);
    if cands != [] && total < MergeBudget {
      var r, rest := cands[0], cands[1..];
      DistinctTail(cands);
      assert forall y :: y in cands ==> y == r || y in rest;
      var seen1 := if Considered(r, kind, skip) && r.id !in seen then seen + {r.id} else seen;
      var deleted1 := if Poisoned(r, kind) && r.id !in faults then deleted + {r.id} else deleted;
      if Accepted(r, kind, skip, all, seen) {
        var t := r.payload.value;
        var absorbed1 := absorbed + [r.id];
        assert m == MergeLoop(rest, kind, Merge(acc, t), total + |t.keys|, skip, all, seen1, deleted1, absorbed1, faults);
        MergeLoopExhaustive(rest, kind, Merge(acc, t), total + |t.keys|, skip, all, seen1, deleted1, absorbed1, faults);
        MergeLoopKeys(rest, kind, Merge(acc, t), total + |t.keys|, skip, all, seen1, deleted1, absorbed1, faults);
        assert m.absorbed[|absorbed|] == m.absorbed[..|absorbed1|][|absorbed|] == r.id;
      } else if !(Poisoned(r, kind) && r.id in faults) {
        assert m == MergeLoop(rest, kind, acc, total, skip, all, seen1, deleted1, absorbed, faults);
        MergeLoopExhaustive(rest, kind, acc, total, skip, all, seen1, deleted1, absorbed, faults);
      }
    }
  }

  // ---------------------------------------------------------------------
  // The candidate ranges
  // ---------------------------------------------------------------------

  /**
   * A seed kept apart by index walks exactly the rows of its (index, type)
   * key, in id order; any other seed walks the whole table sorted in the
   * by_index_and_task_type order. Either way no id repeats.
   */
  lemma CandidatesRange(rows: seq<Record>, kind: string, seed: Task)
    requires IdsIncreasing(rows)
    ensures var cands := Candidates(rows, kind, seed);
      && DistinctIds(cands)
      && (forall c :: c in cands ==> c in rows)
      && (seed.separateByIndex ==> IdsIncreasing(cands))
      && (seed.separateByIndex ==>
            forall c :: c in cands <==> c in rows && c.forIndex == Some(seed.index) && c.kind == kind)
      && (!seed.separateByIndex ==> Sorted(cands) && multiset(cands) == multiset(rows))
  {
    IncreasingIsDistinct(rows);
    if seed.separateByIndex {
      FilterKeepsOrder(rows, AtIndexAndKind(seed.index, kind));
      IncreasingIsDistinct(Candidates(rows, kind, seed));
    } else {
      SecondaryOrderSorted(rows);
    }
  }

  /** Some row of the seed's own index with that id passes every filter against `seen`. */
  ghost predicate AcceptedInScope(rows: seq<Record>, id: int, seed: Task, kind: string, skip: seq<int>, all: seq<int>, seen: set<int>)
  {
    exists r :: r in rows && r.id == id && r.forIndex == Some(seed.index) && Accepted(r, kind, skip, all, seen)
  }

  /**
   * Merging a seed kept apart by index only ever absorbs rows of the seed's
   * own (index, type), never the seed's own row, and every absorbed row
   * passed the filters; a seed whose key range holds no row is returned as is.
   */
  lemma ScopedMergeStaysInScope(rows: seq<Record>, kind: string, seed: Task, skip: seq<int>, all: seq<int>,
                                seen: set<int>, faults: Faults)
    requires IdsIncreasing(rows) && seed.separateByIndex && seed.id in seen
    ensures var m := MergeSimilar(rows, kind, seed, skip, all, seen, faults);
      && (forall i :: 0 <= i < |m.absorbed| ==>
            m.absorbed[i] != seed.id && AcceptedInScope(rows, m.absorbed[i], seed, kind, skip, all, seen))
      && ((forall r :: r in rows ==> r.forIndex != Some(seed.index) || r.kind != kind) ==>
            m.task == seed && m.seen == seen && m.absorbed == [])
  {
    var cands := Candidates(rows, kind, seed);
    var m := MergeSimilar(rows, kind, seed, skip, all, seen, faults);
    CandidatesRange(rows, kind, seed);
    MergeLoopFootprint(cands, kind, seed, |seed.keys|, skip, all, seen, {}, [], faults);
    MergeLoopAbsorbed(cands, kind, seed, |seed.keys|, skip, all, seen, {}, [], faults);
    forall i | 0 <= i < |m.absorbed|
      ensures m.absorbed[i] != seed.id && AcceptedInScope(rows, m.absorbed[i], seed, kind, skip, all, seen)
    {
      var c :| c in cands && c.id == m.absorbed[i] && Accepted(c, kind, skip, all, seen);
      assert c in rows && c.forIndex == Some(seed.index);
    }
    assert cands != [] ==> cands[0] in cands;
  }

  /**
   * While the total is under the budget, an accepted candidate is merged
   * whatever its size, so the last merge can carry the total past the budget.
   */
  lemma MergeLoopOvershoot(cands: seq<Record>, kind: string, acc: Task, total: nat, skip: seq<int>, all: seq<int>,
                           seen: set<int>, deleted: set<int>, absorbed: seq<int>, faults: Faults)
    requires cands != [] && total < MergeBudget && Accepted(cands[0], kind, skip, all, seen)
    ensures var m := MergeLoop(cands, kind, acc, total, skip, all, seen, deleted, absorbed, faults);
      && |absorbed| < |m.absorbed| && m.absorbed[|absorbed|] == cands[0].id
      && m.total >= total + |cands[0].payload.value.keys|
  {
    var t := cands[0].payload.value;
    MergeLoopKeys(cands[1..], kind, Merge(acc, t), total + |t.keys|, skip, all, seen + {cands[0].id}, deleted, absorbed + [cands[0].id], faults);
  }

  /** A seed already carrying 5 * 1024 keys or more merges nothing and deletes nothing. */
  lemma FullSeedMergesNothing(rows: seq<Record>, kind: string, seed: Task, skip: seq<int>, all: seq<int>,
                              seen: set<int>, faults: Faults)
    requires |seed.keys| >= MergeBudget
    ensures MergeSimilar(rows, kind, seed, skip, all, seen, faults) == MergeScan(seed, |seed.keys|, seen, {}, [], None)
  {
  }

  /**
   * The merge's footprint stated over the table rather than its candidates:
   * `alreadySeen` gains only considered rows, only poisoned rows are deleted,
   * an exception comes from a poisoned row whose delete fails, and every
   * merged id is marked as seen.
   */
  lemma MergeSimilarFootprint(rows: seq<Record>, kind: string, seed: Task, skip: seq<int>, all: seq<int>,
                              seen: set<int>, faults: Faults)
    requires IdsIncreasing(rows)
    ensures var m := MergeSimilar(rows, kind, seed, skip, all, seen, faults);
      && seen <= m.seen
      && (forall x :: x in m.seen && x !in seen ==> exists r :: r in rows && r.id == x && Considered(r, kind, skip))
      && (forall x :: x in m.deleted ==> exists r :: r in rows && r.id == x && Poisoned(r, kind))
      && (m.error.Some? ==> exists r :: r in rows && Poisoned(r, kind) && r.id in faults)
      && (forall i :: 0 <= i < |m.absorbed| ==> m.absorbed[i] in m.seen)
      && (m.error.None? && m.total < MergeBudget ==>
            forall r :: r in rows && (!seed.separateByIndex || r.forIndex == Some(seed.index)) ==>
              && (Poisoned(r, kind) ==> r.id in m.deleted)
              && (Orphan(r, kind, skip, all) ==> r.id in m.seen))
  {
    var cands := Candidates(rows, kind, seed);
    var m := MergeSimilar(rows, kind, seed, skip, all, seen, faults);
    CandidatesRange(rows, kind, seed);
    MergeLoopFootprint(cands, kind, seed, |seed.keys|, skip, all, seen, {}, [], faults);
    MergeLoopAbsorbed(cands, kind, seed, |seed.keys|, skip, all, seen, {}, [], faults);
    var j := MergeLoopHeals(cands, kind, seed, |seed.keys|, skip, all, seen, {}, [], faults);
    if m.error.None? && m.total < MergeBudget {
      forall r | r in rows && (!seed.separateByIndex || r.forIndex == Some(seed.index))
        ensures (Poisoned(r, kind) ==> r.id in m.deleted) && (Orphan(r, kind, skip, all) ==> r.id in m.seen)
      {
        if Poisoned(r, kind) || Orphan(r, kind, skip, all) {
          assert r in cands;
          var k :| 0 <= k < |cands| && cands[k] == r;
        }
      }
    }
  }

  /** Removing rows whose ids were deleted keeps id order and adds nothing. */
  lemma WithoutIsSubTable(rows: seq<Record>, ids: set<int>)
    requires IdsIncreasing(rows)
    ensures IdsIncreasing(Without(rows, ids))
    ensures forall r :: r in Without(rows, ids) ==> r in rows
    ensures forall r :: r in rows && r.id !in ids ==> r in Without(rows, ids)
  {
    FilterKeepsOrder(rows, IdNotIn(ids));
  }

  /** Rows missing after deleting ids that all belong to poisoned rows are poisoned. */
  lemma WithoutPoisoned(rows: seq<Record>, ids: set<int>, kind: string)
    requires IdsIncreasing(rows)
    requires forall x :: x in ids ==> exists r :: r in rows && r.id == x && Poisoned(r, kind)
    ensures forall r :: r in rows && r !in Without(rows, ids) ==> Poisoned(r, kind)
  {
    IncreasingIsDistinct(rows);
    forall r | r in rows && r !in Without(rows, ids) ensures Poisoned(r, kind) {
      var p :| p in rows && p.id == r.id && Poisoned(p, kind);
      SameIdSameRow(rows, r, p);
    }
  }

  // ---------------------------------------------------------------------
  // The whole dequeue: GetMergedTask with its merge
  // ---------------------------------------------------------------------

  /**
   * Dequeue-and-merge deletes only rows of the requested kind that fail to
   * deserialise; every other row, orphans and skipped rows included, stays,
   * and the table stays in id order.
   */
  lemma DequeueDeletesOnlyPoisoned(rows: seq<Record>, kind: string, skip: seq<int>, all: seq<int>,
                                   seen: set<int>, faults: Faults)
    requires IdsIncreasing(rows)
    ensures var d := MergedTask(rows, kind, skip, all, seen, faults);
      && IdsIncreasing(d.rows)
      && (forall r :: r in d.rows ==> r in rows)
      && (forall r :: r in rows && r !in d.rows ==> Poisoned(r, kind))
      && (exists j :: 0 <= j <= |rows|
            && (forall k :: 0 <= k < j && Poisoned(rows[k], kind) ==> rows[k] !in d.rows)
            && (d.result == Success(None) ==> j == |rows|)
            && (d.result.Success? && d.result.value.Some? ==> j < |rows| && rows[j].id == d.result.value.value.id))
      && (d.result.Success? && d.result.value.Some? && |d.result.value.value.keys| < MergeBudget ==>
            forall r :: (r in rows && Poisoned(r, kind)
                         && (!d.result.value.value.separateByIndex || r.forIndex == Some(d.result.value.value.index)))
                         ==> r !in d.rows)
  {
    var s := FindSeed(rows, kind, skip, all, seen, {}, faults);
    FindSeedFootprint(rows, kind, skip, all, seen, {}, faults);
    var left := Without(rows, s.deleted);
    WithoutIsSubTable(rows, s.deleted);
    WithoutPoisoned(rows, s.deleted, kind);
    if s.outcome.Seed? {
      var m := MergeSimilar(left, kind, s.outcome.task, skip, all, s.seen, faults);
      MergeSimilarFootprint(left, kind, s.outcome.task, skip, all, s.seen, faults);
      WithoutIsSubTable(left, m.deleted);
      WithoutPoisoned(left, m.deleted, kind);
    }
    var j := DequeueStop(rows, kind, skip, all, seen, faults);
    DequeueUnderBudget(rows, kind, skip, all, seen, faults);
  }

  /**
   * Where the dequeue got to in id order: every row before position `j`
   * that fails to deserialise is gone, and every orphan before it is seen;
   * an empty dequeue got through every row, and a returned task is the row
   * at `j`.
   */
  lemma DequeueStop(rows: seq<Record>, kind: string, skip: seq<int>, all: seq<int>,
                    seen: set<int>, faults: Faults) returns (j: int)
    requires IdsIncreasing(rows)
    ensures var d := MergedTask(rows, kind, skip, all, seen, faults);
      && 0 <= j <= |rows|
      && (forall k :: 0 <= k < j && Poisoned(rows[k], kind) ==> rows[k] !in d.rows)
      && (forall k :: 0 <= k < j && Orphan(rows[k], kind, skip, all) ==> rows[k].id in d.seen)
      && (d.result == Success(None) ==> j == |rows|)
      && (d.result.Success? && d.result.value.Some? ==> j < |rows| && rows[j].id == d.result.value.value.id)
  {
    var d := MergedTask(rows, kind, skip, all, seen, faults);
    var s := FindSeed(rows, kind, skip, all, seen, {}, faults);
    FindSeedFootprint(rows, kind, skip, all, seen, {}, faults);
    j :| SeedScanStoppedAt(rows, j, s, kind, skip, all, faults);
    var left := Without(rows, s.deleted);
    assert forall r :: r in d.rows ==> r in left;
    assert s.seen <= d.seen by {
      if s.outcome.Seed? {
        var t := s.outcome.task;
        MergeLoopFootprint(Candidates(left, kind, t), kind, t, |t.keys|, skip, all, s.seen, {}, [], faults);
        MergeLoopKeys(Candidates(left, kind, t), kind, t, |t.keys|, skip, all, s.seen, {}, [], faults);
      }
    }
    if s.outcome.Seed? {
      var t := s.outcome.task;
      MergeLoopKeys(Candidates(left, kind, t), kind, t, |t.keys|, skip, all, s.seen, {}, [], faults);
    }
    forall k | 0 <= k < j && Poisoned(rows[k], kind) ensures rows[k] !in d.rows {
      assert rows[k].id in s.deleted;
    }
  }

  /**
   * A returned task whose merge ended below the budget went through its
   * whole candidate range: every row of the range that fails to deserialise
   * is gone and every orphan of it is seen.
   */
  lemma DequeueUnderBudget(rows: seq<Record>, kind: string, skip: seq<int>, all: seq<int>,
                           seen: set<int>, faults: Faults)
    requires IdsIncreasing(rows)
    ensures var d := MergedTask(rows, kind, skip, all, seen, faults);
      d.result.Success? && d.result.value.Some? && |d.result.value.value.keys| < MergeBudget ==>
        forall r :: r in rows && (!d.result.value.value.separateByIndex || r.forIndex == Some(d.result.value.value.index)) ==>
          && (Poisoned(r, kind) ==> r !in d.rows)
          && (Orphan(r, kind, skip, all) ==> r.id in d.seen)
  {
    var d := MergedTask(rows, kind, skip, all, seen, faults);
    var s := FindSeed(rows, kind, skip, all, seen, {}, faults);
    if s.outcome.Seed? {
      var t := s.outcome.task;
      var left := Without(rows, s.deleted);
      FindSeedFootprint(rows, kind, skip, all, seen, {}, faults);
      WithoutIsSubTable(rows, s.deleted);
      WithoutPoisoned(rows, s.deleted, kind);
      var m := MergeSimilar(left, kind, t, skip, all, s.seen, faults);
      MergeLoopKeys(Candidates(left, kind, t), kind, t, |t.keys|, skip, all, s.seen, {}, [], faults);
      MergeSimilarFootprint(left, kind, t, skip, all, s.seen, faults);
      if m.error.None? && m.total < MergeBudget {
        forall r | r in rows && (!t.separateByIndex || r.forIndex == Some(t.index))
          ensures (Poisoned(r, kind) ==> r !in d.rows) && (Orphan(r, kind, skip, all) ==> r.id in d.seen)
        {
          if r in left {
            assert Poisoned(r, kind) ==> r.id in m.deleted;
          }
        }
      }
    }
  }

  /**
   * The task returned is built on the first row, in id order, that passes
   * every filter: it carries that row's id, kind, index and keys, followed by
   * the keys of each row merged in, in merge order. Returning nothing means
   * no row passes.
   */
  lemma DequeueReturnsFirstAccepted(rows: seq<Record>, kind: string, skip: seq<int>, all: seq<int>,
                                    seen: set<int>, faults: Faults)
    requires IdsIncreasing(rows)
    requires forall r :: r in rows ==> Consistent(r)
    ensures var d := MergedTask(rows, kind, skip, all, seen, faults);
      && (d.result == Success(None) ==> forall j :: 0 <= j < |rows| ==> !Accepted(rows[j], kind, skip, all, seen))
      && (d.result.Success? && d.result.value.Some? ==>
            exists j :: 0 <= j < |rows| && Accepted(rows[j], kind, skip, all, seen)
              && (forall k :: 0 <= k < j ==> !Accepted(rows[k], kind, skip, all, seen))
              && var t, base := d.result.value.value, rows[j].payload.value;
                 && t.id == rows[j].id && t.kind == kind && t.index == base.index
                 && t.separateByIndex == base.separateByIndex
                 && t.keys == base.keys + KeysOf(rows, d.merged))
  {
    IncreasingIsDistinct(rows);
    var d := MergedTask(rows, kind, skip, all, seen, faults);
    FindSeedIsFirstAccepted(rows, kind, skip, all, seen, {}, faults);
    if d.result.Success? && d.result.value.Some? {
      var j := ReturnedSeedRow(rows, kind, skip, all, seen, faults);
    }
  }

  /** The row a returned task is built on, found by the seed scan. */
  lemma ReturnedSeedRow(rows: seq<Record>, kind: string, skip: seq<int>, all: seq<int>,
                        seen: set<int>, faults: Faults) returns (j: int)
    requires IdsIncreasing(rows)
    requires forall r :: r in rows ==> Consistent(r)
    requires MergedTask(rows, kind, skip, all, seen, faults).result.Success?
    requires MergedTask(rows, kind, skip, all, seen, faults).result.value.Some?
    ensures var d := MergedTask(rows, kind, skip, all, seen, faults);
      && 0 <= j < |rows| && Accepted(rows[j], kind, skip, all, seen)
      && (forall k :: 0 <= k < j ==> !Accepted(rows[k], kind, skip, all, seen))
      && var t, base := d.result.value.value, rows[j].payload.value;
         && t.id == rows[j].id && t.kind == kind && t.index == base.index
         && t.separateByIndex == base.separateByIndex
         && t.keys == base.keys + KeysOf(rows, d.merged)
  {
    IncreasingIsDistinct(rows);
    var d := MergedTask(rows, kind, skip, all, seen, faults);
    var s := FindSeed(rows, kind, skip, all, seen, {}, faults);
    FindSeedIsFirstAccepted(rows, kind, skip, all, seen, {}, faults);
    DequeuedKeys(rows, kind, skip, all, seen, faults);
    var t := s.outcome.task;
    var left := Without(rows, s.deleted);
    MergeLoopKeys(Candidates(left, kind, t), kind, t, |t.keys|, skip, all, s.seen, {}, [], faults);
    j :| 0 <= j < |rows| && Accepted(rows[j], kind, skip, all, seen) && t == SeedOf(rows[j])
      && forall k :: 0 <= k < j ==> !Accepted(rows[k], kind, skip, all, seen);
    assert Consistent(rows[j]);
  }

  /** The keys of a returned task: the seed's, then those of each row merged in, looked up in the table. */
  lemma DequeuedKeys(rows: seq<Record>, kind: string, skip: seq<int>, all: seq<int>, seen: set<int>, faults: Faults)
    requires IdsIncreasing(rows)
    ensures var s := FindSeed(rows, kind, skip, all, seen, {}, faults);
      var d := MergedTask(rows, kind, skip, all, seen, faults);
      d.result.Success? && d.result.value.Some? ==>
        s.outcome.Seed? && d.result.value.value.keys == s.outcome.task.keys + KeysOf(rows, d.merged)
  {
    var s := FindSeed(rows, kind, skip, all, seen, {}, faults);
    if s.outcome.Seed? {
      IncreasingIsDistinct(rows);
      var t := s.outcome.task;
      var left := Without(rows, s.deleted);
      var cands := Candidates(left, kind, t);
      WithoutIsSubTable(rows, s.deleted);
      CandidatesRange(left, kind, t);
      MergeLoopMergedKeys(cands, kind, t, |t.keys|, skip, all, s.seen, {}, [], faults);
      var later := MergedLater(cands, kind, t, |t.keys|, skip, all, s.seen, {}, [], faults);
      KeysOfSubTable(cands, rows, later);
      var m := MergeSimilar(left, kind, t, skip, all, s.seen, faults);
      assert m.absorbed == later && m.absorbed[0..] == later;
    }
  }

  /**
   * With no failing delete on a poisoned row of the kind, dequeue does not
   * throw, and it returns nothing exactly when no row passes every filter.
   */
  lemma DequeueWithoutFaults(rows: seq<Record>, kind: string, skip: seq<int>, all: seq<int>,
                             seen: set<int>, faults: Faults)
    requires IdsIncreasing(rows)
    requires forall r :: r in rows && Poisoned(r, kind) ==> r.id !in faults
    ensures var d := MergedTask(rows, kind, skip, all, seen, faults);
      && d.result.Success?
      && (d.result.value.None? <==> forall j :: 0 <= j < |rows| ==> !Accepted(rows[j], kind, skip, all, seen))
  {
    IncreasingIsDistinct(rows);
    var s := FindSeed(rows, kind, skip, all, seen, {}, faults);
    FindSeedFootprint(rows, kind, skip, all, seen, {}, faults);
    FindSeedIsFirstAccepted(rows, kind, skip, all, seen, {}, faults);
    if s.outcome.Seed? {
      var left := Without(rows, s.deleted);
      WithoutIsSubTable(rows, s.deleted);
      MergeSimilarFootprint(left, kind, s.outcome.task, skip, all, s.seen, faults);
    }
  }

  /**
   * `alreadySeen` only grows, and only with ids of rows of the kind that
   * deserialise and are not skipped; a row skipped through `indexesToSkip`
   * is never added; the returned task's id and every merged id are added;
   * and when nothing is returned every orphan row has been added.
   */
  lemma DequeueSeen(rows: seq<Record>, kind: string, skip: seq<int>, all: seq<int>,
                    seen: set<int>, faults: Faults)
    requires IdsIncreasing(rows)
    ensures var d := MergedTask(rows, kind, skip, all, seen, faults);
      && seen <= d.seen
      && (forall x :: x in d.seen && x !in seen ==> exists r :: r in rows && r.id == x && Considered(r, kind, skip))
      && (forall i :: 0 <= i < |d.merged| ==> d.merged[i] in d.seen)
      && (d.result.Success? && d.result.value.Some? ==> d.result.value.value.id in d.seen)
      && (d.result == Success(None) ==> forall r :: r in rows && Orphan(r, kind, skip, all) ==> r.id in d.seen)
      && (exists j :: 0 <= j <= |rows|
            && (forall k :: 0 <= k < j && Orphan(rows[k], kind, skip, all) ==> rows[k].id in d.seen)
            && (d.result == Success(None) ==> j == |rows|)
            && (d.result.Success? && d.result.value.Some? ==> j < |rows| && rows[j].id == d.result.value.value.id))
      && (d.result.Success? && d.result.value.Some? && |d.result.value.value.keys| < MergeBudget ==>
            forall r :: (r in rows && Orphan(r, kind, skip, all)
                         && (!d.result.value.value.separateByIndex || r.forIndex == Some(d.result.value.value.index)))
                         ==> r.id in d.seen)
  {
    var j := DequeueStop(rows, kind, skip, all, seen, faults);
    DequeueUnderBudget(rows, kind, skip, all, seen, faults);
    IncreasingIsDistinct(rows);
    var s := FindSeed(rows, kind, skip, all, seen, {}, faults);
    FindSeedFootprint(rows, kind, skip, all, seen, {}, faults);
    FindSeedIsFirstAccepted(rows, kind, skip, all, seen, {}, faults);
    if s.outcome.Seed? {
      var t := s.outcome.task;
      var left := Without(rows, s.deleted);
      WithoutIsSubTable(rows, s.deleted);
      MergeSimilarFootprint(left, kind, t, skip, all, s.seen, faults);
      MergeLoopKeys(Candidates(left, kind, t), kind, t, |t.keys|, skip, all, s.seen, {}, [], faults);
    }
  }

  /** A row skipped through `indexesToSkip` never enters `alreadySeen` by a dequeue. */
  lemma DequeueNeverSeesSkipped(rows: seq<Record>, kind: string, skip: seq<int>, all: seq<int>,
                                seen: set<int>, faults: Faults, r: Record)
    requires IdsIncreasing(rows)
    requires r in rows && r.id !in seen && r.payload.Some? && r.payload.value.index in skip
    ensures r.id !in MergedTask(rows, kind, skip, all, seen, faults).seen
  {
    DequeueSeen(rows, kind, skip, all, seen, faults);
    IncreasingIsDistinct(rows);
    OtherRowsOtherIds(rows, r);
  }

  /**
   * Dequeue on a seed kept apart by index merges in only rows of the seed's
   * own index and kind, never the seed's own row.
   */
  lemma DequeueScopedMerge(rows: seq<Record>, kind: string, skip: seq<int>, all: seq<int>,
                           seen: set<int>, faults: Faults)
    requires IdsIncreasing(rows)
    requires forall r :: r in rows ==> Consistent(r)
    ensures var d := MergedTask(rows, kind, skip, all, seen, faults);
      d.result.Success? && d.result.value.Some? && d.result.value.value.separateByIndex ==>
        forall i :: 0 <= i < |d.merged| ==>
          && d.merged[i] != d.result.value.value.id
          && exists r :: r in rows && r.id == d.merged[i] && r.kind == kind
               && r.forIndex == Some(d.result.value.value.index)
  {
    IncreasingIsDistinct(rows);
    var s := FindSeed(rows, kind, skip, all, seen, {}, faults);
    FindSeedIsFirstAccepted(rows, kind, skip, all, seen, {}, faults);
    if s.outcome.Seed? {
      var t := s.outcome.task;
      var left := Without(rows, s.deleted);
      WithoutIsSubTable(rows, s.deleted);
      MergeLoopKeys(Candidates(left, kind, t), kind, t, |t.keys|, skip, all, s.seen, {}, [], faults);
      if t.separateByIndex {
        ScopedMergeStaysInScope(left, kind, t, skip, all, s.seen, faults);
      }
    }
  }

  // ---------------------------------------------------------------------
  // The index teardown
  // ---------------------------------------------------------------------

  /**
   * The teardown loop counts each row it deletes once; it deletes only rows
   * of the range without a failing delete, and, when it ends cleanly, all of
   * them; it ends cleanly exactly when every failing delete in the range is a
   * write conflict, and otherwise stops with the first other error, rethrown.
   */
  lemma {:induction false} TeardownLoopCounts(range: seq<Record>, faults: Faults, count: nat, deleted: set<int>)
    requires DistinctIds(range)
    requires forall c :: c in range ==> c.id !in deleted
    ensures var t := TeardownLoop(range, faults, count, deleted);
      && deleted <= t.deleted
      && count <= t.count && t.count - count == |t.deleted| - |deleted|
      && (forall x :: x in t.deleted && x !in deleted ==> exists c :: c in range && c.id == x && c.id !in faults)
      && (t.error.None? ==> forall c :: c in range && c.id !in faults ==> c.id in t.deleted)
      && (t.error.None? <==> forall c :: c in range && c.id in faults ==> faults[c.id] == WriteConflict)
      && (t.error.Some? ==>
            exists c :: c in range && c.id in faults && faults[c.id] != WriteConflict && t.error.value == StorageError(faults[c.id]))
    decreases |range|
  {
    if range != [] {
      var r, rest := range[0], range[1..];
      DistinctTail(range);
      assert forall y :: y in rest ==> y in range;
      assert forall y :: y in range ==> y == r || y in rest;
      if r.id !in faults {
        TeardownLoopCounts(rest, faults, count + 1, deleted + {r.id});
      } else if faults[r.id] == WriteConflict {
        TeardownLoopCounts(rest, faults, count, deleted);
      }
    }
  }

  /** Deleting one more id, held by a row still present, removes exactly one more row. */
  lemma WithoutStep(rows: seq<Record>, ids: set<int>, r: Record)
    requires IdsIncreasing(rows) && r in rows && r.id !in ids
    ensures |Without(rows, ids + {r.id})| == |Without(rows, ids)| - 1
  {
    WithoutUnion(rows, ids, {r.id});
    WithoutIsSubTable(rows, ids);
    IncreasingIsDistinct(Without(rows, ids));
    WithoutOneShrinks(Without(rows, ids), r.id);
  }

  /** Each row the teardown loop counts is one row fewer in the table. */
  lemma {:induction false} TeardownShrinks(rows: seq<Record>, range: seq<Record>, faults: Faults, count: nat, deleted: set<int>)
    requires IdsIncreasing(rows) && DistinctIds(range)
    requires forall c :: c in range ==> c in rows && c.id !in deleted
    ensures var t := TeardownLoop(range, faults, count, deleted);
      |Without(rows, t.deleted)| + t.count == |Without(rows, deleted)| + count
    decreases |range|
  {
    if range != [] {
      var r, rest := range[0], range[1..];
      DistinctTail(range);
      assert forall y :: y in rest ==> y in range;
      if r.id !in faults {
        assert r in range;
        WithoutStep(rows, deleted, r);
        TeardownShrinks(rows, rest, faults, count + 1, deleted + {r.id});
      } else if faults[r.id] == WriteConflict {
        TeardownShrinks(rows, rest, faults, count, deleted);
      }
    }
  }

  /**
   * DeleteTasksForIndex(index) removes only rows of that index, keeps every
   * row whose delete hits a conflict, and returns the number of rows it
   * removed. It throws exactly when a row of the index fails with an error
   * other than a write conflict; when it does not, every other row of the
   * index is gone.
   */
  lemma DeleteForIndexRemoves(rows: seq<Record>, index: int, faults: Faults)
    requires IdsIncreasing(rows)
    ensures var t := DeleteForIndex(rows, index, faults);
      var after := Without(rows, t.deleted);
      && IdsIncreasing(after)
      && (forall r :: r in after ==> r in rows)
      && (forall r :: r in rows && r.forIndex != Some(index) ==> r in after)
      && (forall r :: r in rows && r.id in faults ==> r in after)
      && (t.error.None? ==> forall r :: r in rows ==> (r in after <==> r.forIndex != Some(index) || r.id in faults))
      && (t.error.None? <==>
            forall r :: r in rows && r.forIndex == Some(index) && r.id in faults ==> faults[r.id] == WriteConflict)
      && t.count == |rows| - |after|
  {
    var range := IndexRange(rows, index);
    FilterKeepsOrder(rows, AtIndex(index));
    IncreasingIsDistinct(rows);
    IncreasingIsDistinct(range);
    var t := DeleteForIndex(rows, index, faults);
    TeardownLoopCounts(range, faults, 0, {});
    FilterKeepsOrder(rows, IdNotIn(t.deleted));
    forall r | r in rows && r.forIndex != Some(index) ensures r.id !in t.deleted {
      OtherRowsOtherIds(rows, r);
    }
    TeardownShrinks(rows, range, faults, 0, {});
    assert Without(rows, {}) == rows;
  }

  /** With no failing delete in the range, the teardown removes the whole range and returns its size. */
  lemma {:induction false} TeardownLoopClean(range: seq<Record>, faults: Faults, count: nat, deleted: set<int>)
    requires forall c :: c in range ==> c.id !in faults
    ensures TeardownLoop(range, faults, count, deleted).error.None?
    ensures TeardownLoop(range, faults, count, deleted).count == count + |range|
    decreases |range|
  {
    if range != [] {
      assert range[0] in range;
      assert forall y :: y in range[1..] ==> y in range;
      TeardownLoopClean(range[1..], faults, count + 1, deleted + {range[0].id});
    }
  }

  /**
   * Without conflicts, DeleteTasksForIndex(index) removes exactly the rows of
   * that index and returns how many there were; 0 when there are none.
   */
  lemma DeleteForIndexWithoutFaults(rows: seq<Record>, index: int, faults: Faults)
    requires IdsIncreasing(rows)
    requires forall r :: r in rows && r.forIndex == Some(index) ==> r.id !in faults
    ensures var t := DeleteForIndex(rows, index, faults);
      && t.error.None?
      && t.count == |IndexRange(rows, index)|
      && (forall r :: r in rows ==> (r in Without(rows, t.deleted) <==> r.forIndex != Some(index)))
      && ((forall r :: r in rows ==> r.forIndex != Some(index)) ==> t.count == 0)
  {
    TeardownLoopClean(IndexRange(rows, index), faults, 0, {});
    DeleteForIndexRemoves(rows, index, faults);
  }
}
