/**
 * The rows of the storage engine's `tasks` table and the orders in which the
 * engine's cursors walk them: the primary order `by_id`, the range `by_index`
 * and the composite order `by_index_and_task_type`.
 */
module TaskRecords {
  import opened Wrappers

  /** A document key carried by a task. */
  type Key = string

  /**
   * A deserialised task. `kind` is its type name, `index` the index it works
   * on, `separateByIndex` whether it may only be merged with tasks of the same
   * index, and `keys` the work it carries: its NumberOfKeys is `|keys|`.
   */
  datatype Task = Task(id: int, kind: string, index: int, separateByIndex: bool, keys: seq<Key>)

  /** Folds `other` into `into`; the merged task carries the keys of both, in that order. */
  function Merge(into: Task, other: Task): Task
  {
    into.(keys := into.keys + other.keys)
  }

  /**
   * One row of the table: the engine-assigned `id`, the `task_type` column
   * (`kind`), the `for_index` column, the `added_at` column (an opaque
   * timestamp) and the serialised task, here already decoded: `None` stands
   * for bytes that fail to deserialise.
   */
  datatype Record = Record(id: int, kind: string, forIndex: Option<int>, addedAt: int, payload: Option<Task>)

  /** What rebuilding the task from its stored bytes yields; `None` when that throws. */
  function Decode(r: Record): Option<Task>
  {
    r.payload
  }

  /** The redundant columns agree with the task they were written from. */
  predicate Consistent(r: Record)
  {
    r.payload.Some? ==> r.payload.value.kind == r.kind && r.forIndex == Some(r.payload.value.index)
  }

  /** A row of the given kind whose bytes fail to deserialise. */
  predicate Poisoned(r: Record, kind: string)
  {
    r.kind == kind && r.payload.None?
  }

  /** The primary order: ids strictly increase along the table. */
  ghost predicate IdsIncreasing(rows: seq<Record>)
  {
    forall i, j :: 0 <= i < j < |rows| ==> rows[i].id < rows[j].id
  }

  ghost predicate DistinctIds(rows: seq<Record>)
  {
    forall i, j :: 0 <= i < |rows| && 0 <= j < |rows| && i != j ==> rows[i].id != rows[j].id
  }

  lemma IncreasingIsDistinct(rows: seq<Record>)
    requires IdsIncreasing(rows)
    ensures DistinctIds(rows)
  {
    forall i, j | 0 <= i < |rows| && 0 <= j < |rows| && i != j
      ensures rows[i].id != rows[j].id
    {
      if i < j { assert rows[i].id < rows[j].id; } else { assert rows[j].id < rows[i].id; }
    }
  }

  /** The row sets that a cursor range or a delete loop selects. */
  datatype Selector =
    | IdNotIn(ids: set<int>)
    | AtIndex(index: int)
    | AtIndexAndKind(index: int, kind: string)

  predicate Selects(sel: Selector, r: Record)
  {
    match sel
    case IdNotIn(ids) => r.id !in ids
    case AtIndex(i) => r.forIndex == Some(i)
    case AtIndexAndKind(i, k) => r.forIndex == Some(i) && r.kind == k
  }

  /** The selected rows, in the order they had. */
  function Filter(rows: seq<Record>, sel: Selector): (r: seq<Record>)
    ensures forall x :: x in r <==> x in rows && Selects(sel, x)
    ensures |r| <= |rows|
    ensures (forall x :: x in rows ==> Selects(sel, x)) ==> r == rows
    decreases |rows|
  {
    if rows == [] then []
    else if Selects(sel, rows[0]) then [rows[0]] + Filter(rows[1..], sel)
    else Filter(rows[1..], sel)
  }

  lemma {:induction false} FilterKeepsOrder(rows: seq<Record>, sel: Selector)
    requires IdsIncreasing(rows)
    ensures IdsIncreasing(Filter(rows, sel))
    decreases |rows|
  {
    if rows != [] {
      var tail := rows[1..];
      assert IdsIncreasing(tail) by {
        forall i, j | 0 <= i < j < |tail| ensures tail[i].id < tail[j].id {
          assert tail[i] == rows[i + 1] && tail[j] == rows[j + 1];
        }
      }
      FilterKeepsOrder(tail, sel);
      if Selects(sel, rows[0]) {
        var f := Filter(tail, sel);
        var r := [rows[0]] + f;
        forall i, j | 0 <= i < j < |r| ensures r[i].id < r[j].id {
          if i > 0 {
            assert r[i] == f[i - 1] && r[j] == f[j - 1];
          } else {
            assert r[j] in tail;
            var k :| 0 <= k < |tail| && tail[k] == r[j];
            assert rows[k + 1] == r[j];
          }
        }
      }
    }
  }

  /** The table after deleting every row whose id is in `ids`. */
  function Without(rows: seq<Record>, ids: set<int>): seq<Record>
  {
    Filter(rows, IdNotIn(ids))
  }

  /** The `by_index_and_task_type` range for one (index, task type) key, in id order. */
  function ScopedRange(rows: seq<Record>, index: int, kind: string): seq<Record>
  {
    Filter(rows, AtIndexAndKind(index, kind))
  }

  /** The `by_index` range for one index, in id order. */
  function IndexRange(rows: seq<Record>, index: int): seq<Record>
  {
    Filter(rows, AtIndex(index))
  }

  /** Deleting one id set after another is deleting their union. */
  lemma {:induction false} WithoutUnion(rows: seq<Record>, a: set<int>, b: set<int>)
    ensures Without(Without(rows, a), b) == Without(rows, a + b)
    decreases |rows|
  {
    if rows != [] {
      WithoutUnion(rows[1..], a, b);
      if rows[0].id !in a {
        assert Without(rows, a) == [rows[0]] + Without(rows[1..], a);
        assert ([rows[0]] + Without(rows[1..], a))[1..] == Without(rows[1..], a);
      }
    }
  }

  /** Deleting an id that is present in a table with distinct ids removes exactly one row. */
  lemma {:induction false} WithoutOneShrinks(rows: seq<Record>, id: int)
    requires DistinctIds(rows)
    requires exists r :: r in rows && r.id == id
    ensures |Without(rows, {id})| == |rows| - 1
    decreases |rows|
  {
    var tail := rows[1..];
    if rows[0].id == id {
      assert forall x :: x in tail ==> x.id != id by {
        forall x | x in tail ensures x.id != id {
          var k :| 0 <= k < |tail| && tail[k] == x;
          assert rows[k + 1] == x;
        }
      }
      assert Without(tail, {id}) == tail;
    } else {
      assert DistinctIds(tail) by {
        forall i, j | 0 <= i < |tail| && 0 <= j < |tail| && i != j ensures tail[i].id != tail[j].id {
          assert tail[i] == rows[i + 1] && tail[j] == rows[j + 1];
        }
      }
      var r :| r in rows && r.id == id;
      assert r in tail;
      WithoutOneShrinks(tail, id);
    }
  }

  // ---------------------------------------------------------------------
  // The composite order by_index_and_task_type: (for_index, task_type, id),
  // with a missing for_index first and task types compared by character code.
  // ---------------------------------------------------------------------

  predicate OptionLess(a: Option<int>, b: Option<int>)
  {
    match a
    case None => b.Some?
    case Some(x) => b.Some? && x < b.value
  }

  predicate StringLess(a: string, b: string)
    decreases |a|
  {
    if a == [] then b != []
    else if b == [] then false
    else if a[0] != b[0] then a[0] < b[0]
    else StringLess(a[1..], b[1..])
  }

  lemma {:induction false} StringLessIrreflexive(a: string)
    ensures !StringLess(a, a)
    decreases |a|
  {
    if a != [] { StringLessIrreflexive(a[1..]); }
  }

  lemma {:induction false} StringLessTransitive(a: string, b: string, c: string)
    requires StringLess(a, b) && StringLess(b, c)
    ensures StringLess(a, c)
    decreases |a|
  {
    if a != [] && a[0] == b[0] && b[0] == c[0] {
      StringLessTransitive(a[1..], b[1..], c[1..]);
    }
  }

  lemma {:induction false} StringLessTotal(a: string, b: string)
    requires a != b
    ensures StringLess(a, b) || StringLess(b, a)
    decreases |a|
  {
    if a != [] && b != [] && a[0] == b[0] {
      assert a == [a[0]] + a[1..] && b == [b[0]] + b[1..];
      StringLessTotal(a[1..], b[1..]);
    }
  }

  /** Strictly before, in the order by_index_and_task_type. */
  predicate Precedes(a: Record, b: Record)
  {
    || OptionLess(a.forIndex, b.forIndex)
    || (a.forIndex == b.forIndex && StringLess(a.kind, b.kind))
    || (a.forIndex == b.forIndex && a.kind == b.kind && a.id < b.id)
  }

  lemma PrecedesTransitive(a: Record, b: Record, c: Record)
    requires Precedes(a, b) && Precedes(b, c)
    ensures Precedes(a, c)
  {
    if a.forIndex == b.forIndex == c.forIndex && StringLess(a.kind, b.kind) && StringLess(b.kind, c.kind) {
      StringLessTransitive(a.kind, b.kind, c.kind);
    }
  }

  lemma PrecedesTotal(a: Record, b: Record)
    requires a.id != b.id
    ensures Precedes(a, b) || Precedes(b, a)
  {
    if a.kind != b.kind { StringLessTotal(a.kind, b.kind); }
  }

  lemma PrecedesIrreflexive(a: Record)
    ensures !Precedes(a, a)
  {
    StringLessIrreflexive(a.kind);
  }

  ghost predicate Sorted(s: seq<Record>)
  {
    forall i, j :: 0 <= i < j < |s| ==> Precedes(s[i], s[j])
  }

  /** Inserts `x` before the first row that does not precede it. */
  function InsertOrdered(x: Record, s: seq<Record>): (r: seq<Record>)
    ensures |r| == |s| + 1
    ensures forall y :: y in r <==> y == x || y in s
    ensures multiset(r) == multiset(s) + multiset{x}
    decreases |s|
  {
    if s == [] || Precedes(x, s[0]) then [x] + s
    else
      assert s == [s[0]] + s[1..];
      [s[0]] + InsertOrdered(x, s[1..])
  }

  /** The whole table in the order by_index_and_task_type. */
  function SecondaryOrder(rows: seq<Record>): (r: seq<Record>)
    ensures |r| == |rows|
    ensures forall y :: y in r <==> y in rows
    ensures multiset(r) == multiset(rows)
    decreases |rows|
  {
    if rows == [] then []
    else
      assert rows == [rows[0]] + rows[1..];
      InsertOrdered(rows[0], SecondaryOrder(rows[1..]))
  }

  lemma DistinctTail(s: seq<Record>)
    requires s != [] && DistinctIds(s)
    ensures DistinctIds(s[1..])
    ensures forall y :: y in s[1..] ==> y.id != s[0].id
  {
    var tail := s[1..];
    forall i, j | 0 <= i < |tail| && 0 <= j < |tail| && i != j ensures tail[i].id != tail[j].id {
      assert tail[i] == s[i + 1] && tail[j] == s[j + 1];
    }
    forall y | y in tail ensures y.id != s[0].id {
      var k :| 0 <= k < |tail| && tail[k] == y;
      assert s[k + 1] == y;
    }
  }

  lemma SortedTail(s: seq<Record>)
    requires s != [] && Sorted(s)
    ensures Sorted(s[1..])
    ensures forall y :: y in s[1..] ==> Precedes(s[0], y)
  {
    var tail := s[1..];
    forall i, j | 0 <= i < j < |tail| ensures Precedes(tail[i], tail[j]) {
      assert tail[i] == s[i + 1] && tail[j] == s[j + 1];
    }
    forall y | y in tail ensures Precedes(s[0], y) {
      var k :| 0 <= k < |tail| && tail[k] == y;
      assert s[k + 1] == y;
    }
  }

  lemma SortedCons(h: Record, t: seq<Record>)
    requires Sorted(t) && DistinctIds(t)
    requires forall y :: y in t ==> Precedes(h, y) && y.id != h.id
    ensures Sorted([h] + t) && DistinctIds([h] + t)
  {
    var r := [h] + t;
    forall i, j | 0 <= i < j < |r| ensures Precedes(r[i], r[j]) {
      if i == 0 { assert r[j] in t; } else { assert r[i] == t[i - 1] && r[j] == t[j - 1]; }
    }
    forall i, j | 0 <= i < |r| && 0 <= j < |r| && i != j ensures r[i].id != r[j].id {
      if i == 0 { assert r[j] in t; }
      else if j == 0 { assert r[i] in t; }
      else { assert r[i] == t[i - 1] && r[j] == t[j - 1]; }
    }
  }

  lemma {:induction false} InsertOrderedSorted(x: Record, s: seq<Record>)
    requires Sorted(s) && DistinctIds(s)
    requires forall y :: y in s ==> y.id != x.id
    ensures Sorted(InsertOrdered(x, s)) && DistinctIds(InsertOrdered(x, s))
    decreases |s|
  {
    if s == [] {
    } else if Precedes(x, s[0]) {
      SortedTail(s);
      forall y | y in s ensures Precedes(x, y) && y.id != x.id {
        if y != s[0] { PrecedesTransitive(x, s[0], y); }
      }
      SortedCons(x, s);
    } else {
      PrecedesTotal(x, s[0]);
      SortedTail(s);
      DistinctTail(s);
      InsertOrderedSorted(x, s[1..]);
      SortedCons(s[0], InsertOrdered(x, s[1..]));
    }
  }

  /** The composite order is a sorted rearrangement of the table with no id repeated. */
  lemma {:induction false} SecondaryOrderSorted(rows: seq<Record>)
    requires DistinctIds(rows)
    ensures Sorted(SecondaryOrder(rows)) && DistinctIds(SecondaryOrder(rows))
    decreases |rows|
  {
    if rows != [] {
      DistinctTail(rows);
      SecondaryOrderSorted(rows[1..]);
      InsertOrderedSorted(rows[0], SecondaryOrder(rows[1..]));
    }
  }
}
