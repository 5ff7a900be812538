# RavenDB task queue, index-definition rewrites and time-series paging, in Dafny

This project models three parts of the RavenDB document database and proves
properties about them. Nothing in it is compiled or executed.

- **The background-task queue** of the ESENT storage engine (the `tasks`
  table and its storage actions). The indexing subsystem adds deferred index
  work to the queue. A worker dequeues one task of a given type. It merges
  compatible tasks of the same type into that task until the merged task
  carries 5 * 1024 keys. Stored tasks that fail to deserialise are deleted
  along the way. Consumed rows are deleted afterwards, by id or by index.
  - `TaskTable` is a class. Its `rows` field is the table in primary
    (`by_id`) order, and `nextId` is the auto-increment counter.
  - Each storage action is a method. A method that walks the table has a
    loop over a snapshot of the rows, as the engine's cursor does.
  - Each method is proved to compute what a function of `TaskMerge` says over
    the old rows: `FindSeed`, `MergeLoop`, `MergedTask`, `TeardownLoop` and
    `DeleteForIndex`. The queue's promises are lemmas about those functions,
    in `TaskMergeProperties`.
  - Storage errors are an input, `faults`, which maps a row id to the error
    its delete raises. A row not in the map deletes cleanly.
- **Two rewrites of LINQ index definitions**, as pure functions over a small
  C# expression tree (`LinqAst.Expr`):
  - the null-coalescing rewrite `L ?? R` to `L != null ? L : R`;
  - the dynamic-lambda rewrite. It wraps each lambda passed to a LINQ method
    in a cast to a delegate type chosen from the method's name.
- **The request state of the time-series HTTP controller**:
  - the paging window read from the query string, clamped, then cached;
  - the tenant name;
  - the lookup of the time-series name among the route values, with keys compared without regard to case, as in the query string.

The modules follow the source files:

| file | module | models |
|---|---|---|
| `wrappers.dfy` | `Wrappers` | `Option` and `Result` |
| `task_records.dfy` | `TaskRecords` | rows, tasks, the cursor ranges, the `by_index_and_task_type` order |
| `task_merge.dfy` | `TaskMerge` | the scan, merge and teardown loops as functions over rows; the errors |
| `task_merge_properties.dfy` | `TaskMergeProperties` | the properties of those functions |
| `task_table.dfy` | `TaskStorage` | the table class and one method per storage action |
| `linq_ast.dfy` | `LinqAst` | the expression tree |
| `null_coalescing.dfy` | `NullCoalescingRewrite` | the `??` rewrite |
| `dynamic_lambdas.dfy` | `DynamicLambdas` | the lambda rewrite |
| `time_series_controller.dfy` | `TimeSeriesController` | paging, tenant name and route lookup |

## Model

| member | source | states |
|---|---|---|
| TaskRecords.Filter | Raven.Database/Storage/Esent/StorageActions/Tasks.cs:164-173 | a cursor range holds a row exactly when the row is in the table and matches the range key; it is no longer than the table, and it is the whole table when every row matches |
| TaskRecords.FilterKeepsOrder | Raven.Database/Storage/Esent/StorageActions/Tasks.cs:255-264 | a range over a table in id order is walked in id order |
| TaskRecords.WithoutUnion | Raven.Database/Storage/Esent/StorageActions/Tasks.cs:84 | deleting one set of ids and then another leaves what deleting their union leaves |
| TaskRecords.WithoutOneShrinks | Raven.Database/Storage/Esent/StorageActions/Tasks.cs:270-271 | deleting the id of a present row, in a table with distinct ids, removes exactly one row |
| TaskRecords.IncreasingIsDistinct | Raven.Database/Storage/Esent/StorageActions/Tasks.cs:88 | ids that strictly increase along the table are distinct |
| TaskRecords.PrecedesTransitive | Raven.Database/Storage/Esent/StorageActions/Tasks.cs:160 | the `by_index_and_task_type` order is transitive |
| TaskRecords.PrecedesTotal | Raven.Database/Storage/Esent/StorageActions/Tasks.cs:160 | any two rows with different ids are ordered one way or the other |
| TaskRecords.PrecedesIrreflexive | Raven.Database/Storage/Esent/StorageActions/Tasks.cs:160 | no row precedes itself |
| TaskRecords.InsertOrdered | Raven.Database/Storage/Esent/StorageActions/Tasks.cs:160 | inserting a row into the composite order adds exactly that row and nothing else |
| TaskRecords.SecondaryOrder | Raven.Database/Storage/Esent/StorageActions/Tasks.cs:160-177 | the whole table in the composite order holds the same rows as many times each, and is as long |
| TaskRecords.SecondaryOrderSorted | Raven.Database/Storage/Esent/StorageActions/Tasks.cs:160-177 | with distinct ids, each row of that sequence precedes every later row |
| TaskMerge.FindSeed | Raven.Database/Storage/Esent/StorageActions/Tasks.cs:64-117 | the seed scan of `GetMergedTask` over the rows in id order; its meaning is stated by `FindSeedIsFirstAccepted` (the seed is the first accepted row) and `FindSeedFootprint` (what it sees, deletes and heals, and when it fails) |
| TaskMerge.MergeLoop | Raven.Database/Storage/Esent/StorageActions/Tasks.cs:181-233 | the merge loop over the candidate rows, with the budget checked before each row; its meaning is stated by `MergeLoopKeys`, `MergeLoopMergedKeys`, `MergeLoopFootprint`, `MergeLoopAbsorbed`, `MergeLoopHeals`, `MergeLoopBudget`, `MergeLoopOvershoot` and `MergeLoopExhaustive` |
| TaskMerge.Candidates | Raven.Database/Storage/Esent/StorageActions/Tasks.cs:160-179 | the rows the merge walks; `CandidatesRange` states them: the seed's (index, type) range in id order for a task kept apart by index, otherwise the whole table in `by_index_and_task_type` order |
| TaskMerge.MergeSimilar | Raven.Database/Storage/Esent/StorageActions/Tasks.cs:156-234 | `MergeSimilarTasks` for a seed over the table; its meaning is stated by `MergeSimilarFootprint`, `ScopedMergeStaysInScope` and `FullSeedMergesNothing` |
| TaskMerge.MergedTask | Raven.Database/Storage/Esent/StorageActions/Tasks.cs:61-118 | the seed scan, its deletes, then the merge and its deletes; its meaning is stated by `DequeueReturnsFirstAccepted`, `DequeueDeletesOnlyPoisoned`, `DequeueWithoutFaults`, `DequeueSeen`, `DequeueNeverSeesSkipped`, `DequeueScopedMerge` and, via the table, `AppendedTaskIsDequeued` |
| TaskMerge.TeardownLoop | Raven.Database/Storage/Esent/StorageActions/Tasks.cs:266-278 | the delete loop of `DeleteTasksForIndex` over a `by_index` range; `TeardownLoopCounts`, `TeardownShrinks` and `TeardownLoopClean` state what it counts, deletes and rethrows |
| TaskMerge.DeleteForIndex | Raven.Database/Storage/Esent/StorageActions/Tasks.cs:251-281 | `DeleteTasksForIndex` over the table; `DeleteForIndexRemoves` and `DeleteForIndexWithoutFaults` state which rows go, the count returned and when it throws |
| TaskMergeProperties.FindSeedFootprint | Raven.Database/Storage/Esent/StorageActions/Tasks.cs:64-117 | the seed scan only grows `alreadySeen`, and only with ids of rows of the type that deserialise and are not skipped; it deletes only rows of the type that fail to deserialise; it throws only when such a delete fails, with DeleteTask's error; wherever it stops (at the seed, at the failing delete, or at the end of the table), every row before that point that fails to deserialise has been deleted and every row of a removed index before it is seen |
| TaskMergeProperties.FindSeedIsFirstAccepted | Raven.Database/Storage/Esent/StorageActions/Tasks.cs:64-117 | the seed is the first row in id order that passes every filter, carrying that row's id, and its id is now seen; finding none means no row passes |
| TaskMergeProperties.MergeLoopKeys | Raven.Database/Storage/Esent/StorageActions/Tasks.cs:181-233 | the merged task keeps the seed's id, type, index and its keys as a prefix; the running total grows by exactly the number of keys appended; ids already absorbed stay in place |
| TaskMergeProperties.MergeLoopMergedKeys | Raven.Database/Storage/Esent/StorageActions/Tasks.cs:181-233 | over candidates with distinct ids, the keys appended are exactly the keys of each row merged in, in merge order, and the total grows by their number |
| TaskMergeProperties.MergeLoopFootprint | Raven.Database/Storage/Esent/StorageActions/Tasks.cs:182-233 | the merge only grows `alreadySeen`, with ids of rows it considered; it deletes only rows that fail to deserialise; it throws only when such a delete fails, with that delete's error, and never when no candidate's delete fails |
| TaskMergeProperties.MergeLoopAbsorbed | Raven.Database/Storage/Esent/StorageActions/Tasks.cs:217-229 | every id the merge absorbs belongs to a candidate that passed every filter against the `alreadySeen` it started from, and is now seen |
| TaskMergeProperties.MergeLoopHeals | Raven.Database/Storage/Esent/StorageActions/Tasks.cs:182-233 | the merge stops at a position before which every candidate that fails to deserialise is deleted and every candidate of a removed index is seen; below the budget and without an error that position is the end; an error comes from the undecodable candidate at that position whose delete fails |
| TaskMergeProperties.MergeLoopBudget | Raven.Database/Storage/Esent/StorageActions/Tasks.cs:184-228 | when no candidate carries more than `w` keys, the total ends below 5 * 1024 + w |
| TaskMergeProperties.MergeLoopOvershoot | Raven.Database/Storage/Esent/StorageActions/Tasks.cs:184-229 | below the budget, an accepted candidate is merged whatever its size, so one merge can carry the total past the budget |
| TaskMergeProperties.MergeLoopExhaustive | Raven.Database/Storage/Esent/StorageActions/Tasks.cs:182-233 | a merge that ends without an error and below the budget has merged every candidate that passes the filters |
| TaskMergeProperties.CandidatesRange | Raven.Database/Storage/Esent/StorageActions/Tasks.cs:160-179 | a task kept apart by index walks exactly the rows of its (index, type) key in id order; any other task walks the whole table sorted in the composite order; no id repeats |
| TaskMergeProperties.ScopedMergeStaysInScope | Raven.Database/Storage/Esent/StorageActions/Tasks.cs:162-174 | a task kept apart by index absorbs only rows of its own index and type that pass the filters, never its own row; with no such rows it comes back unchanged |
| TaskMergeProperties.FullSeedMergesNothing | Raven.Database/Storage/Esent/StorageActions/Tasks.cs:181-185 | a seed already carrying 5 * 1024 keys or more merges nothing, deletes nothing and sees nothing new |
| TaskMergeProperties.MergeSimilarFootprint | Raven.Database/Storage/Esent/StorageActions/Tasks.cs:156-234 | the merge's footprint over the table: only considered rows are seen, only undecodable rows are deleted, an error comes from an undecodable row whose delete fails, and every merged id is seen; a merge that ends cleanly below the budget has deleted every undecodable row of its range (the whole table, or the seed's index for a task kept apart) and marked every row there of a removed index as seen |
| TaskMergeProperties.WithoutIsSubTable | Raven.Database/Storage/Esent/StorageActions/Tasks.cs:120-134 | deleting rows keeps id order, adds no row and keeps every row whose id was not deleted |
| TaskMergeProperties.DequeueDeletesOnlyPoisoned | Raven.Database/Storage/Esent/StorageActions/Tasks.cs:76-207 | dequeue-and-merge deletes only rows of the requested type that fail to deserialise, and every other row stays, in id order; every such row before the point where the seed scan stopped is gone, all of them when nothing is returned; a task returned with fewer than 5 * 1024 keys leaves no such row in the range of its merge |
| TaskMergeProperties.DequeueReturnsFirstAccepted | Raven.Database/Storage/Esent/StorageActions/Tasks.cs:61-118 | the returned task is built on the first row in id order that passes every filter: that row's id, type, index and keys, followed by the keys of each row merged in, in merge order; returning nothing means no row passes |
| TaskMergeProperties.DequeueWithoutFaults | Raven.Database/Storage/Esent/StorageActions/Tasks.cs:61-134 | with no failing delete of an undecodable row, dequeue does not throw, and it returns nothing exactly when no row passes every filter |
| TaskMergeProperties.DequeueSeen | Raven.Database/Storage/Esent/StorageActions/Tasks.cs:97-218 | `alreadySeen` only grows, with ids of considered rows; the returned task's id and every merged id are in it; every row of a removed index before the point where the seed scan stopped is in it, all of them when nothing is returned; a task returned with fewer than 5 * 1024 keys has every such row in the range of its merge in it |
| TaskMergeProperties.DequeueNeverSeesSkipped | Raven.Database/Storage/Esent/StorageActions/Tasks.cs:90-215 | a row of a skipped index never enters `alreadySeen` |
| TaskMergeProperties.DequeueScopedMerge | Raven.Database/Storage/Esent/StorageActions/Tasks.cs:111-174 | a returned task kept apart by index has absorbed only rows of its own index and type, never its own row |
| TaskMergeProperties.TeardownLoopCounts | Raven.Database/Storage/Esent/StorageActions/Tasks.cs:266-278 | the teardown loop counts each row it deletes once; it deletes only rows of the range whose delete succeeds, and all of them when it ends cleanly; it ends cleanly exactly when every failing delete is a write conflict, and otherwise stops with another error, rethrown |
| TaskMergeProperties.TeardownShrinks | Raven.Database/Storage/Esent/StorageActions/Tasks.cs:266-280 | each row the teardown counts is one row fewer in the table |
| TaskMergeProperties.TeardownLoopClean | Raven.Database/Storage/Esent/StorageActions/Tasks.cs:266-280 | with no failing delete in the range, the loop ends cleanly and counts the whole range |
| TaskMergeProperties.DeleteForIndexRemoves | Raven.Database/Storage/Esent/StorageActions/Tasks.cs:251-281 | deleting by index removes only rows of that index; it keeps every row whose delete fails; it throws exactly when a delete fails with an error other than a write conflict; without an error it removes every other row of the index; the count returned is the number of rows removed |
| TaskMergeProperties.DeleteForIndexWithoutFaults | Raven.Database/Storage/Esent/StorageActions/Tasks.cs:251-281 | without failing deletes, deleting by index removes exactly the rows of that index and returns their number, which is 0 when there are none |
| TaskStorage.AddedTaskListed | Raven.Database/Storage/Esent/StorageActions/Tasks.cs:25-31 | the row AddTask writes decodes back to the task, and the debug listing shows it with its id, its `added_at` time, the task's index and the task's type |
| TaskStorage.ListedAsStored | Raven.Database/Storage/Esent/StorageActions/Tasks.cs:141-152 | for a row whose task deserialises, the debug listing shows the row's id and the index and type of the stored task |
| TaskStorage.ApproximateCountBound | Raven.Database/Storage/Esent/StorageActions/Tasks.cs:45-58 | with strictly increasing ids, last id - first id + 1 is at least the number of rows |
| TaskStorage.AppendedTaskIsDequeued | Raven.Database/Storage/Esent/StorageActions/Tasks.cs:21-118 | after a task of an existing, unskipped index is added with a fresh id, a dequeue of its type does not come back empty |
| TaskStorage.WithoutValid | Raven.Database/Storage/Esent/StorageActions/Tasks.cs:120-134 | deleting rows keeps the table invariant: ids increase, lie below the next id, and columns agree with the task |
| TaskStorage.TaskTable.Open | Raven.Database/Storage/Esent/StorageActions/Tasks.cs:17-19 | a table opened on stored rows holds exactly those rows and keeps the invariant |
| TaskStorage.TaskTable.AddTask | Raven.Database/Storage/Esent/StorageActions/Tasks.cs:21-35 | appends exactly one row for the task, whose id is greater than every id present; keeps the invariant |
| TaskStorage.TaskTable.HasTasks | Raven.Database/Storage/Esent/StorageActions/Tasks.cs:37-43 | true exactly when the table has a row |
| TaskStorage.TaskTable.ApproximateTaskCount | Raven.Database/Storage/Esent/StorageActions/Tasks.cs:45-59 | 0 on an empty table, otherwise last id - first id + 1, never below the number of rows |
| TaskStorage.TaskTable.GetPendingTasksForDebug | Raven.Database/Storage/Esent/StorageActions/Tasks.cs:136-154 | one metadata item per row, in table order, with strictly increasing ids |
| TaskStorage.TaskTable.DeleteRow | Raven.Database/Storage/Esent/StorageActions/Tasks.cs:124 | the engine's delete either fails with the given error and changes nothing, or removes the row |
| TaskStorage.TaskTable.DeleteTask | Raven.Database/Storage/Esent/StorageActions/Tasks.cs:120-134 | a write conflict becomes a concurrency error and keeps the row, any other error is rethrown; the result is a concurrency error exactly when the delete hits a write conflict |
| TaskStorage.TaskTable.MergeSimilarTasks | Raven.Database/Storage/Esent/StorageActions/Tasks.cs:156-234 | returns the merged task, the new `alreadySeen` and the error that `MergeSimilar` gives over the old rows, and leaves the table without the rows it deleted; keeps the invariant |
| TaskStorage.TaskTable.MergeCandidates | Raven.Database/Storage/Esent/StorageActions/Tasks.cs:181-233 | the do/while loop computes `MergeLoop` over the candidate rows and removes the rows it deleted |
| TaskStorage.TaskTable.GetMergedTask | Raven.Database/Storage/Esent/StorageActions/Tasks.cs:61-118 | returns the result and `alreadySeen` of `MergedTask` over the old rows and leaves its table; keeps the invariant |
| TaskStorage.TaskTable.DeleteTasks | Raven.Database/Storage/Esent/StorageActions/Tasks.cs:236-249 | removes only listed rows and keeps every unlisted row; succeeds exactly when no listed row's delete fails, and then no listed row is left; a failure is the storage error of a listed row, rethrown; with no listed row present it changes nothing, so a second call is a no-op |
| TaskStorage.TaskTable.DeleteListed | Raven.Database/Storage/Esent/StorageActions/Tasks.cs:239-248 | the foreach loop removes only listed rows whose delete succeeds, all of them unless a delete fails, and skips ids with no row |
| TaskStorage.TaskTable.DeleteTasksForIndex | Raven.Database/Storage/Esent/StorageActions/Tasks.cs:251-281 | returns the count or the error of `DeleteForIndex` over the old rows and leaves the table without the rows it deleted; keeps the invariant |
| NullCoalescingRewrite.RewriteCoalescing | Raven.Database/Linq/Ast/TransformNullCoalasingOperatorTransformer.cs:15-29 | the depth-first visitor that replaces each outermost `L ?? R` by `L != null ? L : R`; its meaning is stated by `RewriteMeansFallThrough` and `ReplacementFallsThrough` (fall-through semantics), `RewriteCounts`, `NoCoalescingLeftIff`, `NestedCoalescingSurvives` (what is replaced), and `RewriteUnchangedIff` (when the tree is unchanged) |
| NullCoalescingRewrite.PlainCoalescingKeepsNullObject | Raven.Database/Linq/Ast/TransformNullCoalasingOperatorTransformer.cs:8-13 | a plain `??` does not fall through on a null object: its value stays the null object |
| NullCoalescingRewrite.ReplacementFallsThrough | Raven.Database/Linq/Ast/TransformNullCoalasingOperatorTransformer.cs:8-24 | the conditional that replaces `L ?? R` has `R`'s value when `L` is null or a null object, and `L`'s value otherwise |
| NullCoalescingRewrite.NoCoalescingSameValue | Raven.Database/Linq/Ast/TransformNullCoalasingOperatorTransformer.cs:8-13 | a tree with no `??` has the same value whether or not a null object counts as null |
| NullCoalescingRewrite.RewriteMeansFallThrough | Raven.Database/Linq/Ast/TransformNullCoalasingOperatorTransformer.cs:8-29 | when no `??` is nested in another, the rewritten tree evaluates to what the original gives when `??` also falls through on a null object; the evaluated fragment is identifiers, `null`, string literals, parentheses, member access on documents and on the null object, `!=`, `??` and `?:` |
| NullCoalescingRewrite.MissingFieldExample | Raven.Database/Linq/Ast/TransformNullCoalasingOperatorTransformer.cs:8-13 | on a document without `FirstName`, `doc.FirstName ?? ""` yields the null object as written and the empty string once rewritten |
| NullCoalescingRewrite.RewriteCounts | Raven.Database/Linq/Ast/TransformNullCoalasingOperatorTransformer.cs:15-29 | every `??` sits inside an outermost one; the count after the rewrite is the count before, less the outermost ones, plus those inside their left operands, which are duplicated |
| NullCoalescingRewrite.NoCoalescingLeftIff | Raven.Database/Linq/Ast/TransformNullCoalasingOperatorTransformer.cs:25-26 | the result holds no `??` exactly when no `??` of the input sits inside another's operands |
| NullCoalescingRewrite.NestedCoalescingSurvives | Raven.Database/Linq/Ast/TransformNullCoalasingOperatorTransformer.cs:25-26 | a `??` nested in the operands of a rewritten `??` is not rewritten |
| NullCoalescingRewrite.RewriteUnchangedIff | Raven.Database/Linq/Ast/TransformNullCoalasingOperatorTransformer.cs:15-29 | the rewrite leaves a tree unchanged exactly when the tree holds no `??` |
| NullCoalescingRewrite.NoCoalescingUnchanged | Raven.Database/Linq/Ast/TransformNullCoalasingOperatorTransformer.cs:17-29 | a tree with no `??` comes back unchanged |
| NullCoalescingRewrite.CoalescingChanges | Raven.Database/Linq/Ast/TransformNullCoalasingOperatorTransformer.cs:17-25 | a tree holding a `??` is changed |
| DynamicLambdas.TransformLambdas | Raven.Database/Linq/Ast/TransformDynamicLambdaExpressions.cs:11-58 | the depth-first visitor over a whole tree; its meaning is stated by `TransformUnchangedIff`, `NoCandidateUnchanged`, `CandidateChanges`, `TransformIdempotent` and `TransformKeepsCastFound` |
| DynamicLambdas.TransformArg | Raven.Database/Linq/Ast/TransformDynamicLambdaExpressions.cs:11-58 | one argument of a call, visited with the call as its parent: a lambda under a member-reference target is replaced after its body is visited, any other argument is visited; `UnmatchedLambdaKept` states the case the switch keeps, and the other cases are `ReplacementFor` on the lambda with its body visited |
| DynamicLambdas.ReplacementFor | Raven.Database/Linq/Ast/TransformDynamicLambdaExpressions.cs:21-55 | the switch on the method name; `ReplacementByMethod`, `ExactNames`, `MinMaxDelegate` and `NumericsDelegate` state the node it chooses for each name and argument position |
| DynamicLambdas.ModifyLambdaForSelect | Raven.Database/Linq/Ast/TransformDynamicLambdaExpressions.cs:61-74 | a grouping selector delegate when the receiver is a `GroupBy(...)` call, otherwise a selector delegate, as stated in `ReplacementByMethod` |
| DynamicLambdas.ModifyLambdaForSelectMany | Raven.Database/Linq/Ast/TransformDynamicLambdaExpressions.cs:76-100 | a collection selector with its body cast to a sequence at position 0, a result selector at position 1, and the lambda unchanged elsewhere, as stated in `ReplacementByMethod` |
| DynamicLambdas.ModifyLambdaForMinMax | Raven.Database/Linq/Ast/TransformDynamicLambdaExpressions.cs:102-113 | `Func<dynamic, T>` for a body cast to T, otherwise a comparable delegate, as stated in `MinMaxDelegate` |
| DynamicLambdas.ModifyLambdaForNumerics | Raven.Database/Linq/Ast/TransformDynamicLambdaExpressions.cs:126-143 | `Func<dynamic, T>` for a body cast to T, otherwise the body cast to decimal in a decimal delegate, as stated in `NumericsDelegate` |
| DynamicLambdas.GetAsCastExpression | Raven.Database/Linq/Ast/TransformDynamicLambdaExpressions.cs:115-124 | what is found is always a cast |
| DynamicLambdas.CastFoundThroughParens | Raven.Database/Linq/Ast/TransformDynamicLambdaExpressions.cs:115-124 | a cast under any number of parentheses is found |
| DynamicLambdas.NoCastThroughParens | Raven.Database/Linq/Ast/TransformDynamicLambdaExpressions.cs:115-124 | any other node under any number of parentheses yields nothing |
| DynamicLambdas.CastFoundIsInnermost | Raven.Database/Linq/Ast/TransformDynamicLambdaExpressions.cs:115-124 | the cast found is the node under all the parentheses |
| DynamicLambdas.UnmatchedLambdaKept | Raven.Database/Linq/Ast/TransformDynamicLambdaExpressions.cs:13-56 | a lambda whose call target is not a member reference, or whose method is not in the switch, is kept; only its body is visited |
| DynamicLambdas.ExactNames | Raven.Database/Linq/Ast/TransformDynamicLambdaExpressions.cs:43-54 | names match exactly: `All` and `LastOrDefault` leave the lambda alone, while `all` and `LastOfDefault` get the predicate cast |
| DynamicLambdas.ReplacementByMethod | Raven.Database/Linq/Ast/TransformDynamicLambdaExpressions.cs:21-100 | predicate methods cast the parenthesised lambda to `Func<dynamic, bool>`; selector methods cast it to the grouping delegate exactly when the receiver is a `GroupBy(...)` call, and to `Func<dynamic, dynamic>` otherwise; `SelectMany` wraps the body of its first argument, casts its second, and leaves later ones; a name outside the switch leaves the lambda |
| DynamicLambdas.MinMaxDelegate | Raven.Database/Linq/Ast/TransformDynamicLambdaExpressions.cs:102-113 | `Max` and `Min` cast to `Func<dynamic, T>` when the body, under any parentheses, is a cast to `T`, and to `Func<dynamic, IComparable>` otherwise |
| DynamicLambdas.NumericsDelegate | Raven.Database/Linq/Ast/TransformDynamicLambdaExpressions.cs:126-143 | `Sum` and `Average` cast to `Func<dynamic, T>` with the body kept when it is a cast to `T`; otherwise the body becomes `(decimal)(body)` with the same parameters, under `Func<dynamic, decimal>` |
| DynamicLambdas.TransformKeepsCastFound | Raven.Database/Linq/Ast/TransformDynamicLambdaExpressions.cs:58-129 | visiting a lambda body does not change whether it is a cast under parentheses, nor the cast's type, so the switch decides the same before and after the body is visited |
| DynamicLambdas.TransformUnchangedIff | Raven.Database/Linq/Ast/TransformDynamicLambdaExpressions.cs:11-58 | the rewrite leaves a tree unchanged exactly when no lambda in it sits where the switch replaces it |
| DynamicLambdas.NoCandidateUnchanged | Raven.Database/Linq/Ast/TransformDynamicLambdaExpressions.cs:13-56 | a tree with no such lambda comes back unchanged |
| DynamicLambdas.CandidateChanges | Raven.Database/Linq/Ast/TransformDynamicLambdaExpressions.cs:21-56 | a tree with such a lambda comes back changed |
| DynamicLambdas.TransformIdempotent | Raven.Database/Linq/Ast/TransformDynamicLambdaExpressions.cs:11-58 | rewriting twice is rewriting once: a replaced lambda is no longer an argument of the call, so it is never wrapped again |
| TimeSeriesController.TryParseInt32 | Raven.Database/TimeSeries/Controllers/RavenTimeSeriesApiController.cs:147-152 | a missing value does not parse; a parsed value is a 32-bit integer |
| TimeSeriesController.FormatParseRoundTrip | Raven.Database/TimeSeries/Controllers/RavenTimeSeriesApiController.cs:147-152 | the decimal spelling of any 32-bit integer parses back to it |
| TimeSeriesController.FormatParseOverflow | Raven.Database/TimeSeries/Controllers/RavenTimeSeriesApiController.cs:147-152 | the spelling of an integer outside the 32-bit range does not parse |
| TimeSeriesController.ParseIgnoresWhite | Raven.Database/TimeSeries/Controllers/RavenTimeSeriesApiController.cs:147-152 | white space around the text does not change what is parsed |
| TimeSeriesController.PagingFor | Raven.Database/TimeSeries/Controllers/RavenTimeSeriesApiController.cs:147-158 | the page size always lies in [1, 1024]; the start is never negative |
| TimeSeriesController.PageSizeFromQuery | Raven.Database/TimeSeries/Controllers/RavenTimeSeriesApiController.cs:150-156 | a page size that parses as a 32-bit integer, in any spelling `int.TryParse` accepts, is used, clamped to [1, 1024] |
| TimeSeriesController.PageSizeAnyCase | Raven.Database/TimeSeries/Controllers/RavenTimeSeriesApiController.cs:135-156 | a page size under a key spelt `pageSize` in any case, such as `PageSize`, is used, clamped |
| TimeSeriesController.PageSizeDefault | Raven.Database/TimeSeries/Controllers/RavenTimeSeriesApiController.cs:150-156 | a page size missing under every casing of `pageSize`, or unparsable, gives 25 |
| TimeSeriesController.StartFromQuery | Raven.Database/TimeSeries/Controllers/RavenTimeSeriesApiController.cs:147-157 | a start that parses as a 32-bit integer is used, raised to 0 when negative |
| TimeSeriesController.StartDefault | Raven.Database/TimeSeries/Controllers/RavenTimeSeriesApiController.cs:147-157 | a start missing under every casing of `start`, or unparsable, gives 0, the value TryParse leaves on failure |
| TimeSeriesController.PagingReadsTwoKeys | Raven.Database/TimeSeries/Controllers/RavenTimeSeriesApiController.cs:147-152 | only what the query holds under `start` and `pageSize`, looked up without regard to case, decides the window |
| TimeSeriesController.PagingIgnoresOtherKeys | Raven.Database/TimeSeries/Controllers/RavenTimeSeriesApiController.cs:147-152 | an entry under any key other than `start` or `pageSize`, in any case, does not change the window |
| TimeSeriesController.PagingIgnoresCase | Raven.Database/TimeSeries/Controllers/RavenTimeSeriesApiController.cs:135-152 | writing the query's keys in another case gives the same window |
| TimeSeriesController.LookupIgnoresCase | Raven.Database/TimeSeries/Controllers/RavenTimeSeriesApiController.cs:135-152 | keys that differ only in case find the same entry of a collection |
| TimeSeriesController.FirstRouteWith | Raven.Database/TimeSeries/Controllers/RavenTimeSeriesApiController.cs:121 | the sub-route chosen is the first that holds the key in any case; none is chosen when no sub-route holds it |
| TimeSeriesController.LookupName | Raven.Database/TimeSeries/Controllers/RavenTimeSeriesApiController.cs:117-120 | the lookup fails exactly when the route values hold `MS_SubRoutes`, in any case, with a value that is not a sub-route array |
| TimeSeriesController.LookupNameCases | Raven.Database/TimeSeries/Controllers/RavenTimeSeriesApiController.cs:117-130 | with `MS_SubRoutes` present only the sub-routes are searched, and the first that holds `timeSeriesName` decides; otherwise the direct route value decides when present; keys are matched without regard to case |
| TimeSeriesController.LookupNameIgnoresCase | Raven.Database/TimeSeries/Controllers/RavenTimeSeriesApiController.cs:117-130 | writing the route keys in another case gives the same outcome |
| TimeSeriesController.SubRouteNameAnyCase | Raven.Database/TimeSeries/Controllers/RavenTimeSeriesApiController.cs:118-124 | a sub-route holding the name under a key spelt `timeSeriesName` in any case supplies it |
| TimeSeriesController.SubRoutesShadowDirectValue | Raven.Database/TimeSeries/Controllers/RavenTimeSeriesApiController.cs:118-125 | with `MS_SubRoutes` present and no sub-route holding the name under any casing, the name is left unset even when the direct route value holds it |
| TimeSeriesController.TimeSeriesApiController.InitializeFromRoute | Raven.Database/TimeSeries/Controllers/RavenTimeSeriesApiController.cs:117-130 | sets the time-series name when the lookup finds one and leaves it otherwise; fails exactly when `MS_SubRoutes` holds no sub-route array |
| TimeSeriesController.TimeSeriesApiController.Paging | Raven.Database/TimeSeries/Controllers/RavenTimeSeriesApiController.cs:140-161 | returns the cached window when there is one; otherwise returns the window for the query and caches it, so later reads return the same value |
| TimeSeriesController.TimeSeriesApiController.TenantName | Raven.Database/TimeSeries/Controllers/RavenTimeSeriesApiController.cs:229-234 | `ts/` followed by the time-series name, or `ts/` alone when the name is null |
| TimeSeriesController.TenantNamesDistinct | Raven.Database/TimeSeries/Controllers/RavenTimeSeriesApiController.cs:229-234 | two set names give the same tenant name exactly when they are equal; a null name and the empty name share `ts/` |

## Left out

- The ESENT interop itself: sessions, bookmarks, `MakeKey`, `TrySeek` and `JetSetIndexRange`. The table is an in-memory sequence. The cursor's walk is a loop over a snapshot of the rows, and ranges are sequences filtered by the range key.
- The current index of the cursor. `MergeSimilarTasks` leaves the cursor on `by_index_and_task_type` and `DeleteTasksForIndex` leaves it on `by_index`. Three storage actions walk whatever index is current: the seed scan of `GetMergedTask`, `ApproximateTaskCount` and `GetPendingTasksForDebug`. The model walks the primary (`by_id`) index in all three, as on a freshly opened cursor.
- TaskStorage.TaskTable.ApproximateTaskCount: the model reads the first and last ids in `by_id` order. On a cursor left on another index by an earlier merge or index teardown, the source reads them in that index's order. Then `last - first + 1` can be below the number of rows, or even 0 or negative, and `n >= |rows|` does not hold. For example, take rows with ids 1 and 2 for indexes 9 and 3. Walked on `by_index`, the first row has id 2 and the last has id 1, and the count is 0.
- TaskStorage.TaskTable.GetPendingTasksForDebug: the listing is in the order of the current index. The promise that ids strictly increase holds only for a cursor on `by_id`, which is the case the model covers. On another index the source lists the same rows in that index's order.
- ESENT index ranges are approximate, and the source re-checks only the task type of each row in a range. The model's range is exact on both index and type, so a row of another index never shows up in a scoped merge.
- Task serialisation (`AsBytes`, `DatabaseTask.ToTask`): each row carries its decoded task, or nothing when the bytes do not deserialise. Type names are plain strings.
- `DatabaseTask.Merge` is abstract in the source. The model merges by appending the other task's keys, and `NumberOfKeys` is the number of keys.
- `HashSet` enumeration order: `DeleteTasks` takes the order in which `alreadySeen` is enumerated as a sequence of ids.
- Real concurrency and transaction isolation: the model is sequential. A delete's outcome is the `faults` input, a map from row id to the error that delete raises.
- `AddTask` positioning the cursor on the new row with `JetGotoBookmark`.
- `DateTime.ToBinary` and `FromBinary`: `addedAt` is an opaque integer.
- Logging: it has no effect on state.
- TaskStorage.TaskTable.ApproximateTaskCount: computed without the 32-bit wrap-around of `last - first + 1`, because ids are unbounded integers here.
- TaskMerge.MergeLoop: the running key total is unbounded, without the 32-bit overflow of `totalKeysToProcess`.
- TaskMergeProperties.MergeLoopHeals: for a merge that stops once it reaches 5 * 1024 keys, the stop position is not tied to the budget. The lemma says the candidates before it are healed, but not that the later candidates were left untouched.
- The string collation of the `task_type` column: the model orders task types by character code.
- NRefactory's node identity and parent bookkeeping. Trees are values, so a node reused by a rewrite is shared, and "the argument at position 0 is this lambda" (a reference comparison) becomes "the lambda is argument 0".
- DynamicLambdas.TransformLambdas: the source visits the original lambda's children after replacing it. Where the replacement moves the original body into a new lambda (`SelectMany` position 0, and the decimal fallback of `Sum`/`Average`), the model visits that body in every case.
- Block-bodied lambdas: the tree has no statements. For these lambdas the source's `(Expression)lambda.Body` cast would throw.
- How `AstType.Create` spells a reflected type. `typeof(Func<dynamic, bool>)` is `Func<object, bool>` at run time, so the node the source emits names `object` where the C# text says `dynamic`. `Reflected(source)` holds the C# spelling written in the transformer, not the spelling of the emitted node.
- The `DynamicNullObject` class is not part of this model. What the model takes from it is what the null coalescing transformer's doc comment says: a null object compares equal to `null` but is not `null`, so a plain `??` keeps it.
- `Int32.TryParse` culture details: only `+` and `-` signs and ASCII digits are parsed, and trailing NUL characters are not accepted.
- The query-string cache and `HttpUtility.ParseQueryString`: URL decoding, and joining repeated keys with commas. The query is given as its sequence of entries.
- Case-insensitive keys (`SameKey`): the query string and the route value dictionaries compare keys with `OrdinalIgnoreCase`. The model folds only ASCII letters. `OrdinalIgnoreCase` also equates other letters that upper-case to the same character, such as `ſ` and `s`. A lookup takes the first entry whose key matches, which is the only one in a collection that never holds two keys differing in case alone.
- NullCoalescingRewrite.Eval: casts, lambdas, invocations, other operators and members of non-document objects have no value, so `RewriteMeansFallThrough` says nothing about trees that hold them.
- TaskStorage.TaskTable.GetPendingTasksForDebug: the source is a lazy `yield` iterator over a live cursor. The model returns the whole listing of the table at the time of the call.
- The rest of the controller: `landlord` and `requestManager` set in `InnerInitialization`, the base initialisation, `ExecuteAsync`, `TrySetupRequestToProperResource` with its 30-second timeout, and the `TimeSeries` and `Storage` getters. These are HTTP, tenancy and foreign-service plumbing.
- The Studio's `autoCompleteBindingHandler.ts`: UI code driven by DOM events.
