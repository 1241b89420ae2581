# Behavior service: list-query builder, batch processors and handlers

This project models the core of the `behavior` gRPC service (a go-zero
service over one PostgreSQL table, `behaviors`). A behavior row holds an
id, a key, a user id, an opaque data string, creation and update times,
and a nullable `deleted_at` that marks a soft delete.

The model has three parts.

**The list-query builder.** `FindList` and `CountList` turn the optional
filters of a list call into a statement text and an argument list. The
filters are key, user id, start time and end time. `FindList` adds
LIMIT/OFFSET paging. Module `BehaviorsModel` builds the conditions step by
step with a running placeholder counter (`BuildWhere`). `FindListQuery`
and `CountListQuery` then assemble the two statements.

The statement text is a real string. Module `SqlText` holds a scanner
(`Placeholders`) that reads the `$n` placeholders back out of a rendered
statement. This lets the numbering claims be stated about the text
itself. The claims are:
- the filter placeholders are `$1..$n`, and LIMIT/OFFSET are `$n+1`/`$n+2`;
- argument i is the value bound to `$i`;
- `deleted_at IS NULL` comes first;
- the text depends only on which filters are present;
- the WHERE clause selects exactly the rows that match the filters.

**The batch processors.** `BatchRecordBehavior` and `BatchDeleteBehavior`
each loop over up to 100 items. They call the store once per item and
sort every outcome into a success side or a failure side. Neither aborts
on a failing item.

**The single-item handlers.** `RecordBehavior`, `GetBehavior`,
`DeleteBehavior` and `ListBehaviors` are guard chains. Each guard maps a
condition to InvalidArgument, NotFound or Internal, with a bracketed tag
such as `RB001`.

The persistence layer is generated code that is not part of this model.
It is modelled as the class `BehaviorStore.Store`:
- a map from id to row;
- a fresh-id counter;
- a ghost trace of every Insert and Delete call.

A failing store call or a failing `LastInsertId` is an input to the
handler (an oracle). In a batch these inputs are functions of the item
position, and so is the clock. Logging has no effect on results and is
not modelled.

Module layout: `BehaviorTypes` (shared values), `SqlText`,
`BehaviorsModel`, `BehaviorStore`, `Indices` (the positions of the
successes and failures of a batch), then one module per handler.

Choices the code itself does not settle, and one deliberate
restructuring:
- `FindList` and `CountList` each build their own copy of the condition
  code. The model shares one `BuildWhere`, because the two copies are
  identical line for line.
- The table name and the column list are not in the custom model file.
  They are taken to be `"public"."behaviors"` and the seven quoted
  columns, as go-zero's generator writes them.
- The generated `Delete` is not shown. The handlers treat a row whose
  `deleted_at` is set as deleted, so `Delete` is modelled as the soft
  delete that sets `deleted_at`. The row stays in the table.

## Model

| member | source | states |
|---|---|---|
| BehaviorsModel.BuildWhere | db/model/behaviorsModel.go:41-72 | The conditions are `deleted_at IS NULL` followed by one `<column> <op> $i` per present filter, in the order key, user_id, created_at >=, created_at <=. The arguments are the filter values in the same order. The counter ends at the number of arguments plus one. |
| BehaviorsModel.FindListQuery | db/model/behaviorsModel.go:39-81 | The SELECT text is the column list, the table, the AND-joined conditions, then ORDER BY created_at DESC LIMIT $n+1 OFFSET $n+2. The arguments are the filter values, then pageSize, then the corrected offset `Offset` of the Findings row (see Left out). |
| BehaviorsModel.CountListQuery | db/model/behaviorsModel.go:89-126 | The COUNT text uses the same WHERE clause. Its arguments are exactly the filter values, with no paging arguments. |
| BehaviorsModel.PresentFollowsFilters | db/model/behaviorsModel.go:49-72 | A condition kind is added iff its presence test holds: key non-empty, userId > 0, start time given, end time given. Kinds appear in strictly increasing fixed order, each at most once. |
| BehaviorsModel.ConditionsNumbered | db/model/behaviorsModel.go:43-72 | There is one condition more than there are arguments. Condition 0 is `deleted_at IS NULL` and holds no placeholder. Condition i+1 compares the i-th present filter and holds exactly the placeholder `$(i+1)`. Argument i is the value of that filter. |
| BehaviorsModel.WherePlaceholders | db/model/behaviorsModel.go:79 | The joined WHERE clause, scanned left to right, holds placeholders 1..n, where n is the number of present filters. |
| BehaviorsModel.SelectPlaceholders | db/model/behaviorsModel.go:79-81 | The whole SELECT text holds placeholders 1..n+2 in order. |
| BehaviorsModel.CountPlaceholders | db/model/behaviorsModel.go:125-126 | The whole COUNT text holds placeholders 1..n in order. |
| BehaviorsModel.ArgsMatchPlaceholders | db/model/behaviorsModel.go:75-81 | The placeholder list of each statement is exactly 1..len(args). The SELECT arguments begin with the COUNT arguments. Position n holds pageSize (LIMIT) and position n+1 holds (page-1)*pageSize (OFFSET). |
| BehaviorsModel.TextIgnoresValues | db/model/behaviorsModel.go:50-81 | Two filter sets with the same present filters give identical SELECT and COUNT texts and the same number of arguments. User values reach only the arguments (injection safety). |
| BehaviorsModel.NotDeletedFirst | db/model/behaviorsModel.go:46 | In both statements, `deleted_at IS NULL` directly follows `WHERE`. |
| BehaviorsModel.ConditionTextParts | db/model/behaviorsModel.go:46-72 | Each rendered comparison is its column, a space, its operator and a space. These are the column and operator whose meaning `Holds` evaluates. |
| BehaviorsModel.WhereMeansMatches | db/model/behaviorsModel.go:46-72 | Evaluate each condition as its rendered column compared by its rendered operator with the bound argument. All conditions hold on a row iff the row is not soft-deleted and matches every present filter (key equal, user equal, created within the given bounds). |
| BehaviorsModel.Offset | db/model/behaviorsModel.go:75 | The intended offset of the Findings row, (page-1)*pageSize in place of the code's wrapping int32 product. Its result type is a 64-bit integer. |
| BehaviorsModel.OffsetFits | db/model/behaviorsModel.go:75 | For every int32 page and pageSize, (page-1)*pageSize fits in a signed 64-bit integer, so the intended offset never overflows. |
| BehaviorsModel.OffsetOfPage | db/model/behaviorsModel.go:75 | For page >= 1 and pageSize >= 1: the offset is never negative, it is 0 exactly on page 1, and each page starts pageSize rows after the previous one. |
| BehaviorsModel.Wrap32 | db/model/behaviorsModel.go:75 | Go's int32 arithmetic: the result is congruent to x modulo 2^32, and equals x when x fits in 32 bits. |
| BehaviorsModel.OffsetAsWritten | db/model/behaviorsModel.go:75 | The offset as the code computes it, with `page - 1` and the product both in int32. The result is the int32 value congruent modulo 2^32 to the exact product (page-1)*pageSize, even when `page - 1` itself wraps. |
| BehaviorsModel.OffsetAsWrittenAgrees | db/model/behaviorsModel.go:75 | For all int32 page and pageSize, the offset as written equals the intended offset iff (page-1)*pageSize fits in int32. |
| BehaviorsModel.OffsetAsWrittenWraps | db/model/behaviorsModel.go:75 | For page 21474838 and pageSize 100, the as-written offset is -2147483596 and the intended one is 2147483700. |
| SqlText.DecimalRoundTrip | db/model/behaviorsModel.go:50 | Reading back the decimal text that `%d` writes gives the number: the rendering loses nothing. |
| SqlText.JoinPlaceholders | db/model/behaviorsModel.go:79 | Suppose the parts of `strings.Join` hold placeholders lo, lo+1, ... one each, and the separator holds no `$` and starts with a non-digit. Then the joined text holds lo..lo+len-1 in order. |
| SqlText.PlaceholdersAppend | db/model/behaviorsModel.go:79-81 | The placeholders of a concatenation are those of its parts, when the second part cannot extend a number that ends the first. |
| BehaviorStore.Store.FindOne | internal/logic/behaviorservice/getBehaviorLogic.go:38-46 | Reports the row stored under the id, whether or not it is soft-deleted. It reports Missing iff there is no such row, and LookupFailed iff the lookup errs. |
| BehaviorStore.Store.Insert | internal/logic/behaviorservice/recordBehaviorLogic.go:55 | On success the row is stored under a fresh id, the previous counter value, and the counter advances. On failure the table and the counter are unchanged. Either way the call is traced. |
| BehaviorStore.Store.Delete | internal/logic/behaviorservice/deleteBehaviorLogic.go:54 | On success the row's deleted_at is set to the given time and nothing else changes. On failure nothing changes. Either way the call is traced. |
| GetBehaviorLogic.GetBehavior | internal/logic/behaviorservice/getBehaviorLogic.go:33-61 | id <= 0 gives GB001 (InvalidArgument). A lookup error gives GB003 (Internal), a missing row GB002 (NotFound), and a soft-deleted row GB004 (NotFound). The call succeeds iff the row exists and is live. The response copies id, key, userId, data and both times. It only reads the store. |
| RecordBehaviorLogic.CheckRecord | internal/logic/behaviorservice/recordBehaviorLogic.go:34-42 | An empty key gives RB001, else userId <= 0 gives RB002, else empty data gives RB003; the first failing guard wins. There is no error iff the item is valid. |
| RecordBehaviorLogic.RecordBehavior | internal/logic/behaviorservice/recordBehaviorLogic.go:32-74 | Invalid input returns its guard's error and leaves the store untouched. Valid input makes exactly one Insert of a row that copies key, userId and data, stamps both times with now, and leaves deleted_at unset. An insert error gives RB004 with no row added. On success the response is Success with the new id, or 0 when LastInsertId fails. A known id fetches back through GetBehavior as the recorded behavior. |
| DeleteBehaviorLogic.DeleteGuard | internal/logic/behaviorservice/deleteBehaviorLogic.go:33-51 | id <= 0 gives DB001. A lookup error gives DB003, a missing row DB002, and an already-deleted row DB004. There is no error iff the id is positive, the lookup succeeds and the row is live. |
| DeleteBehaviorLogic.DeleteBehavior | internal/logic/behaviorservice/deleteBehaviorLogic.go:31-64 | A failing guard returns its error and changes nothing. Otherwise exactly one Delete is made. If Delete errs the result is DB005 with the table unchanged. On success the row becomes deleted with deleted_at = now, every other row is unchanged, and the response is Success. |
| DeleteBehaviorLogic.DeleteTwice | internal/logic/behaviorservice/deleteBehaviorLogic.go:38-51 | After a successful delete, a second delete of the same id never succeeds. Unless its lookup errs, it reports DB004 (NotFound). |
| ListBehaviorsLogic.EffectivePage | internal/logic/behaviorservice/listBehaviorsLogic.go:32-34 | A page <= 0 becomes 1 and any other page is kept, so the result is always >= 1. |
| ListBehaviorsLogic.EffectivePageSize | internal/logic/behaviorservice/listBehaviorsLogic.go:35-38 | A size <= 0 becomes 10 and any other size is kept. The result is >= 1, and it exceeds 100 iff the requested size does. |
| ListBehaviorsLogic.TimeBound | internal/logic/behaviorservice/listBehaviorsLogic.go:43-51 | A millisecond bound becomes a filter iff it is > 0, and then with that value. |
| ListBehaviorsLogic.ToBehaviors | internal/logic/behaviorservice/listBehaviorsLogic.go:70-80 | The response list has one entry per row, in row order, and entry i is the field copy of row i. |
| ListBehaviorsLogic.ListBehaviors | internal/logic/behaviorservice/listBehaviorsLogic.go:30-88 | A normalised size over 100 gives LB001 before any statement is issued. Otherwise the builder gets page >= 1 and 1 <= size <= 100. The SELECT is issued first; if it fails the result is LB002 and no COUNT is issued. A COUNT failure gives LB003. On success the list has one entry per row, in row order, each the field copy of its row. Total, Page and Size are the count and the normalised values. |
| Indices.WhereSpec | internal/logic/behaviorservice/batchRecordBehaviorLogic.go:47-100 | The success (or failure) positions of a batch are exactly the positions with that outcome, in increasing order. |
| Indices.WherePartition | internal/logic/behaviorservice/batchRecordBehaviorLogic.go:41-100 | Every position is counted on exactly one side: successes + failures = items. |
| BatchRecordBehaviorLogic.BatchRecordBehavior | internal/logic/behaviorservice/batchRecordBehaviorLogic.go:32-108 | An empty batch gives BRB001 and a batch over 100 gives BRB002, both with the store untouched. Any other batch succeeds with the outcome `Outcome` describes. |
| BatchRecordBehaviorLogic.RecordNext | internal/logic/behaviorservice/batchRecordBehaviorLogic.go:47-99 | One turn of the loop extends the state after k items to the state after k+1. |
| BatchRecordBehaviorLogic.Finished | internal/logic/behaviorservice/batchRecordBehaviorLogic.go:41-107 | The state after the last item is `Outcome`. The counts are the sizes of the accepted and rejected position lists and sum to the batch size. The success list holds Success entries with consecutive ids (0 where LastInsertId fails). The failure list is the rejected items in input order. Each accepted item's row is added under its id with key, userId and data copied, its turn's time and deleted_at unset. No earlier row changes. The only Inserts are those of the valid items. |
| BatchRecordBehaviorLogic.OnlyValidInserted | internal/logic/behaviorservice/batchRecordBehaviorLogic.go:49-79 | Every Insert the batch makes is, for some valid item, the row built from that item at its own time. An item with an empty key, userId <= 0 or empty data never reaches the store. |
| BatchRecordBehaviorLogic.RecordedFetchBack | internal/logic/behaviorservice/batchRecordBehaviorLogic.go:69-99 | Every success whose id is known fetches back through GetBehavior as the item recorded at that position and time. |
| BatchDeleteBehaviorLogic.After | internal/logic/behaviorservice/batchDeleteBehaviorLogic.go:44-81 | The table after k ids have the same ids as before the batch: no row is added or dropped. |
| BatchDeleteBehaviorLogic.LiveAfter | internal/logic/behaviorservice/batchDeleteBehaviorLogic.go:53-80 | After k ids, a row is live iff it was live before the batch and none of the first k ids deleted it. |
| BatchDeleteBehaviorLogic.RemovedOnce | internal/logic/behaviorservice/batchDeleteBehaviorLogic.go:53-80 | Two positions that are both counted as deleted carry different ids. A repeated id is deleted at most once, because later occurrences see it deleted. |
| BatchDeleteBehaviorLogic.RemovedMeans | internal/logic/behaviorservice/batchDeleteBehaviorLogic.go:46-80 | A position is deleted iff its id is > 0, its lookup and its Delete succeed, its row was live before the batch, and no earlier position deleted the same id. An id <= 0, a missing row, a failing lookup or an already-deleted row is never deleted. |
| BatchDeleteBehaviorLogic.RowRemoved | internal/logic/behaviorservice/batchDeleteBehaviorLogic.go:73 | A row deleted at position j keeps every field except deleted_at, which is the time of turn j, at every later step. |
| BatchDeleteBehaviorLogic.RowUntouched | internal/logic/behaviorservice/batchDeleteBehaviorLogic.go:44-81 | A row that no position deleted is exactly as before the batch. This covers rows whose ids are not in the batch and rows whose every attempt failed. |
| BatchDeleteBehaviorLogic.DeleteNext | internal/logic/behaviorservice/batchDeleteBehaviorLogic.go:44-80 | One turn of the loop: the DeleteBehavior guards, then Delete. It extends the state after k ids to the state after k+1 and leaves the id counter alone. |
| BatchDeleteBehaviorLogic.Finished | internal/logic/behaviorservice/batchDeleteBehaviorLogic.go:40-87 | The state after the last id is `Outcome`. deletedCount is the number of deleted positions, and failedIds lists the ids of all other positions in input order. The two sum to the batch size. Deleted rows carry their turn's time, no other row changes, and Delete is called for exactly the ids that passed the checks. |
| BatchDeleteBehaviorLogic.BatchDeleteBehavior | internal/logic/behaviorservice/batchDeleteBehaviorLogic.go:32-88 | An empty list gives BDB001 and more than 100 ids gives BDB002, both with the store untouched. Any other list succeeds with the outcome `Outcome` describes, and the id counter is unchanged. |

## Left out

- Running the statements: the SELECT's rows and the COUNT's total are inputs to `ListBehaviors`. `WhereMeansMatches` gives the WHERE clause its meaning over a row. ORDER BY, LIMIT and OFFSET are rendered and numbered but not given a meaning.
- The generated CRUD, the row cache and the Postgres driver (`internal/svc/serviceContext.go` only wires them). The store is an in-memory map, and ids are handed out from a counter. The database's real id sequence is likely to have gaps, which the model does not express.
- Whether a store call or `LastInsertId` fails is an oracle input, not behaviour. With the lib/pq driver `LastInsertId` may always fail, which gives id 0; the oracle covers that case.
- Wall-clock time: timestamps are opaque millisecond integers. The two `time.Now()` calls that fill created_at and updated_at are modelled as one instant. The millisecond conversions are taken to be exact.
- Logging, and the human-readable text of the gRPC error messages. An error is its status code plus its bracketed tag.
- Context cancellation and any concurrent fan-out. The code shown is sequential, and so is the model.
- BehaviorsModel.FindListQuery: binds the corrected offset `Offset`, not the code's int32 product. So do `SelectArgs`, `ArgsMatchPlaceholders` and the SELECT that `ListBehaviors` issues. The two differ exactly when (page-1)*pageSize lies outside the int32 range. Example: page 21474838 with pageSize 100, where the code binds -2147483596 (`OffsetAsWritten`, `OffsetAsWrittenWraps`). `OffsetAsWrittenAgrees` proves, for every int32 page and pageSize, that they are equal iff the product fits in int32. This follows the Findings row: the model uses the intended definition.
- Integer widths other than the paging offset: ids, user ids and counts are unbounded. A batch of at most 100 cannot overflow its counters. An id or user id outside `int64` is not excluded.
- The FindOne lookups of the handlers are reads and are not part of the write trace. "No lookup for id <= 0" therefore shows only in the guard order of `DeleteGuard` and `RemovedMeans`, not as a recorded event.
- BatchRecordBehaviorLogic.BatchRecordBehavior and BatchDeleteBehaviorLogic.BatchDeleteBehavior keep their response in an accumulator value rather than in four local variables. The values are the same.

## Findings

| source | as written | input that shows it | evidently intended | confidence | as-written member | corrected member |
|---|---|---|---|---|---|---|
| db/model/behaviorsModel.go:75 | `offset := (page - 1) * pageSize` is computed in `int32`, so it wraps on overflow. `ListBehaviors` bounds pageSize by 100 but leaves page unbounded. | page = 21474838, pageSize = 100: both are accepted, and the offset wraps to -2147483596 instead of 2147483700. | The offset of page p is (p-1)*pageSize, never negative for p >= 1, i.e. computed in a wider type. | not executed | BehaviorsModel.OffsetAsWrittenWraps | BehaviorsModel.OffsetOfPage |
