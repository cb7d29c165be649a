# Guest management back end: verified model

The event-category service stores categories in a table it never deletes from.
A decorator turns a plain row store into a soft-deleting, time-stamping one: a
delete is an update that sets `deleted_at`, reads hide tombstones, lists and
counts get a "deleted_at IS NULL" condition. On top of it a service checks the
source/tenant rule, and a shared parser turns query strings into list
parameters. Below it lie the tables of the migrations, related by CASCADE,
RESTRICT and SET NULL keys. This project models those four parts and proves
what they keep.

| file | what it models |
|---|---|
| `Text.dfy` | the parts of Go's `strings` and `strconv` in use, 64-bit wrap-around |
| `Reflection.dfy` | struct layouts and the reflective field setters of the decorator |
| `Categories.dfy` | the category row, its struct, inputs, errors and CHECKs |
| `GoSlice.dfy`, `Listing.dfy` | slices with a shared backing array; filters, sorts, pages |
| `RowStore.dfy`, `Audit.dfy` | the store's contract and the decorator as classes, for structs of any layout and ids of any type |
| `AuditLaws.dfy` | the struct types on which the decorator is a soft delete |
| `CategoryStore.dfy`, `CategoryService.dfy` | the category table as such a store; the service as a class |
| `Requests.dfy` | what each request does to the table and answers: the specification the classes are proved against |
| `ErrorCodes.dfy` | which status each request answers with |
| `SimpleStore.dfy`, `Histories.dfy`, `Paging.dfy` | sequential runs: refinement, invariants, lists |
| `Interleavings.dfy` | concurrent runs: invariants, linearization |
| `StaleWrites.dfy` | what each write of a concurrent run leaves, and which changes are lost |
| `Resurrections.dfy`, `Reversals.dfy` | how a deleted row can come back, and a tenant category become an app one, in them |
| `ListQuery.dfy`, `ListQueryLaws.dfy`, `ListEndpoint.dfy` | the query parser, its laws, and the list endpoint end to end |
| `Schema.dfy`, `CascadeDelete.dfy` | deletes under any foreign keys |
| `DeclaredSchema.dfy`, `DeclaredDeletes.dfy` | the declared keys, and table by table what they make of a delete |

The database under the repositories is an assumed contract: a map from id to
row; reads hand out fresh structs with the selected columns, every other field
zero; an update replaces the whole row; a missing id
is "not found"; a failure, of its own accord or because a CHECK refuses a row,
leaves the table as it was. Clock readings, failures, generated ids, the order in
which Go walks a map and the order in which the database scans rows are inputs
that every theorem quantifies over.

Three places where the code does something its documentation does not say:

- `docs/FEATURES.md:28` says the source/tenant rule re-applies on update. The
  service does not re-check it; the table's CHECK refuses the row and the caller
  gets an internal error (`Histories.BrokenRuleIsInternal`, with the exact inputs
  in `Histories.UpdateBreaksRuleIff` and one of them, source "tenant" alone, in
  `Histories.TenantSourceAlone`).
- `docs/FEATURES.md:55` says ErrInvalidEntity becomes 422 and ErrAlreadyExists
  409. Only `Create` translates those. An error the repository raises gets its
  documented status exactly if it is neither of the two or the request is a
  create; otherwise it is an internal error (`ErrorCodes.DocumentedIff`, with
  inputs in `UpdateLosesSentinel` and `DeleteLosesSentinel`).
- `internal/core/query/list.go:67` says directions are case-insensitive. Besides
  both ASCII cases, a long s (U+017F) passes for an S, because `strings.ToUpper`
  maps it there (`ListQueryLaws.ParseSortIff`, with an input in
  `ListQueryLaws.LongSIsAccepted`).

Some laws hold only under a condition; each is given with it:

- A deleted category stays deleted in sequential runs, and in concurrent ones
  whose writes do not overlap. Otherwise exactly a stale update brings it back.
- A partial update changes only the given fields and updated_at of a row, in
  runs whose writes do not overlap. Otherwise it writes back the whole row as it
  read it, and what others wrote in between is lost (`StaleWrites.UpdateWrites`,
  with an input in `StaleWrites.LostMove`).
- A tenant category never becomes an app one in the same runs. Otherwise exactly
  a write of a row read as an app row turns it back.
- The decorator hides what it deletes exactly on struct types whose first
  deleted_at field is a settable `*time.Time` that reads select; its lists and
  counts agree with its single reads exactly if that field is a single pointer
  that reads select.
- The service and the simple store differ exactly on a create that reuses a
  deleted category's id, which UUIDs never do.
- The page a list answers with is the page it names as long as
  `(page - 1) * size` fits in 64 bits: for 100 rows a page, up to page
  92233720368547759. Beyond that the offset wraps; page 288230376151711745 of
  size 64 shows page 1.
- Reported and applied page sizes agree for every query exactly when the
  configured maximum is at most 100.
- Deleting a row leaves all keys and CHECKs true exactly when no row outside its
  cascade set restricts a row inside it: for a role its holders, for a category
  its events, for a ticket type its tickets, for an event or a tenant tickets and
  events of others that use its ticket types and categories; nothing else.

## Model

| member | source | states |
|---|---|---|
| Reflection.SetTimeField | internal/core/audit/auditable_repository.go:128-146 | on a struct of any layout, the value lands in the first field bound to the column if that field is settable and a time, and nowhere else; a nil entity is left alone |
| Reflection.SetPtrTimeField | internal/core/audit/auditable_repository.go:149-167 | the same for a pointer to a time |
| Reflection.IsSoftDeleted | internal/core/audit/auditable_repository.go:170-189 | true exactly when the first deleted_at field is a non-nil pointer |
| Reflection.SetterTouchesOnlyItsField | internal/core/audit/auditable_repository.go:133-145 | for every layout, column and value: the first field bound to the column takes the value if it is settable and of that type, and every other field is as it was |
| Reflection.UntaggedFieldIsSkipped | internal/core/audit/auditable_repository.go:193-197 | a field with an empty tag or "-" is never written by a setter and never decides whether an entity is deleted |
| Reflection.SoftDeletedIff | internal/core/audit/auditable_repository.go:170-189 | an entity counts as deleted iff the first field bound to deleted_at is a pointer that is not nil |
| Reflection.TimeStampKeepsSoftDeleted | internal/core/audit/auditable_repository.go:74-75 | stamping any time column never changes whether an entity counts as deleted |
| Reflection.DeleteStampHidesIff | internal/core/audit/auditable_repository.go:65-77 | for every layout, stamping a live entity hides it iff its first deleted_at field is a settable *time.Time |
| Reflection.ColumnNameOfTag | internal/core/audit/auditable_repository.go:193-203 | white space around a tag's column name is dropped |
| Reflection.ColumnNameWithOptions | internal/core/audit/auditable_repository.go:199-201 | options after the first comma are dropped, with the padding before it |
| Reflection.CreateStampFields | internal/core/audit/auditable_repository.go:38-43 | for every layout, a create puts one clock reading in the first settable created_at and updated_at time fields and changes nothing else |
| Reflection.DeleteStampFields | internal/core/audit/auditable_repository.go:73-75 | for every layout, a delete stamps the first settable deleted_at pointer and updated_at time and changes nothing else |
| AuditLaws.DeleteHidesIff | internal/core/audit/auditable_repository.go:23-24 | for every layout and column selection, what a successful delete wrote is reported missing iff the type has the documented deleted_at field and reads select it |
| AuditLaws.ListsAgreeIff | internal/core/audit/auditable_repository.go:119-189 | the appended filter and the single-read test agree on every row iff deleted_at is a single pointer and selected |
| AuditLaws.CountIsReadable | internal/core/audit/auditable_repository.go:96-98 | on such types a count is the number of matching rows that single reads find |
| Categories.FieldByTag | internal/features/events/category_model.go:20-28 | which field of the category struct each column name finds, by name, and that it can be set |
| Categories.CheckMeans | migrations/000004_create_event_categories_and_templates.up.sql:3-12 | the CHECKs hold iff the source is "app" or "tenant" and a tenant is named exactly for the second |
| Categories.StampCreate | internal/core/audit/auditable_repository.go:39-41 | on a category the reflective stamps of a create are plain field updates |
| Categories.StampDelete | internal/core/audit/auditable_repository.go:73-75 | on a category the reflective stamps of a delete are plain field updates |
| Categories.SoftDeletedCategory | internal/core/audit/auditable_repository.go:170-189 | a category counts as deleted iff its deleted_at is set |
| GoSlice.Append | internal/core/audit/auditable_repository.go:120 | append writes into spare capacity in place or moves to a fresh array; the old slice's view never changes |
| GoSlice.AppendTwice | internal/core/audit/auditable_repository.go:119-125 | two slices grown from one base, anywhere in its backing array, both stay right iff they add the same element or the base has no spare capacity |
| Audit.AppendSoftDeleteFilter | internal/core/audit/auditable_repository.go:119-125 | the condition is added at the end, the caller's view is unchanged, and at most the one slot behind it is written |
| Audit.DeriveFilters | internal/core/audit/auditable_repository.go:80-98 | any number of filters derived from one base are all right at the end, shared backing array or not |
| Audit.AuditableRepository.Create | internal/core/audit/auditable_repository.go:38-43 | for any layout, the struct is stamped and the stamped struct inserted under its id |
| Audit.AuditableRepository.GetByID | internal/core/audit/auditable_repository.go:46-55 | for any layout, a fresh struct with the row's selected columns, or "not found" for a missing or tombstoned one |
| Audit.AuditableRepository.Update | internal/core/audit/auditable_repository.go:58-61 | for any layout, the struct is stamped and replaces the row with no look at a tombstone |
| Audit.AuditableRepository.Delete | internal/core/audit/auditable_repository.go:65-77 | for any layout, a live row is replaced by what was read of it with deleted_at and updated_at stamped; otherwise nothing changes |
| Audit.AuditableRepository.List | internal/core/audit/auditable_repository.go:80-93 | the inner list is asked for one more condition and the same pagination, sorts and count switch, nil options allowed; its errors are passed on; the rows are a window of the kept ones from the offset, as long as a positive limit allows, and the total is their number unless skipped |
| Audit.AuditableRepository.Count | internal/core/audit/auditable_repository.go:96-98 | counts the rows matching the conditions whose deleted_at is NULL |
| Audit.AuditableRepository.Exists | internal/core/audit/auditable_repository.go:101-110 | "not found" becomes false, other errors are passed on |
| RowStore.SqlRepository.GetByID | internal/core/repository/base.go:44-50 | the assumed read: a fresh struct with the stored row's selected columns |
| RowStore.SqlRepository.Update | internal/core/audit/auditable_repository.go:76 | the assumed write: the whole row, refused by the CHECK, or "not found" |
| CategoryStore.NewCategoryRepository | internal/features/events/category_repository.go:19-25 | a category repository over an empty table with the category CHECKs exists |
| CategoryStore.ScannedCategory | internal/features/events/category_repository.go:12-15 | the selected columns are all there are: a read gives back the whole category |
| CategoryStore.ReadAgrees | internal/core/audit/auditable_repository.go:46-55 | the decorator's reflective read of stored structs is the specification's read of category rows |
| CategoryStore.SelectAgrees | internal/core/audit/auditable_repository.go:80-93 | conditions on stored structs, looked up by tag, select the rows the specification selects, in the same order |
| CategoryStore.CountAgrees | internal/core/audit/auditable_repository.go:96-98 | a count over stored structs is the specification's count over category rows, for every condition list |
| CategoryService.FilterConditions | internal/features/events/category_service.go:184-191 | one equality condition per filter entry, whatever the map order |
| CategoryService.RepositorySorts | internal/features/events/category_service.go:194-201 | the sorts in order, descending iff "DESC" |
| CategoryService.ListParamsToListOptions | internal/features/events/category_service.go:166-208 | clamped size, wrapped offset, one condition per filter, sorts in order; nil gives empty options |
| CategoryService.CategoryServiceImpl.Create | internal/features/events/category_service.go:61-89 | table and answer are those of the specification, the returned entity is fresh |
| CategoryService.CategoryServiceImpl.GetByID | internal/features/events/category_service.go:92-102 | answer and error code of the specification, table unchanged |
| CategoryService.CategoryServiceImpl.Update | internal/features/events/category_service.go:106-136 | table and answer are those of a read, a partial update and a write |
| CategoryService.CategoryServiceImpl.Delete | internal/features/events/category_service.go:140-150 | table and answer are those of a read and a stamping write |
| CategoryService.CategoryServiceImpl.List | internal/features/events/category_service.go:153-163 | the page of the specification for every order of the filter map; the conditions, page and sorts the repository is asked for |
| ErrorCodes.ConflictIff | internal/features/events/category_service.go:76-79 | 409 is the answer of exactly the creates, past the guards, whose insert raises ErrAlreadyExists |
| ErrorCodes.UnprocessableIff | internal/features/events/category_service.go:80-82 | 422 is the answer of exactly the creates, past the guards, whose insert raises ErrInvalidEntity |
| ErrorCodes.NotFoundIff | internal/features/events/category_service.go:92-150 | 404 is the answer of exactly the reads, updates and deletes of an id without a live row |
| ErrorCodes.FailsIff | internal/features/events/category_service.go:61-150 | a request on a row fails iff a guard turns it away or the repository raises an error |
| ErrorCodes.DocumentedIff | docs/FEATURES.md:55 | a raised error gets its documented status iff it is no sentinel met outside a create; otherwise the answer is an internal error and nothing changes |
| ErrorCodes.UpdateLosesSentinel | internal/features/events/category_service.go:126-132 | on every table with a live row, an update whose write raises any sentinel is an internal error |
| ErrorCodes.DeleteLosesSentinel | internal/features/events/category_service.go:140-150 | the same for a delete |
| ErrorCodes.ListFailsIff | internal/features/events/category_service.go:153-163 | a list is a page, or an internal error iff its read fails or its offset is negative; it reports the page and size it was given |
| ErrorCodes.ExistsAndCount | internal/core/audit/auditable_repository.go:96-110 | an existence check finds exactly live rows, a count is the number of live rows meeting the conditions |
| Histories.CreateThenGet | internal/features/events/category_service.go:69-88 | a created category reads back with the given fields and equal stamps; no other row changes |
| Histories.UpdateThenGet | internal/features/events/category_service.go:116-135 | an update changes the given fields and updated_at of one row, and reads back as answered |
| Histories.DeleteThenGet | internal/core/audit/auditable_repository.go:65-77 | a delete stamps one row, keeps it in the table, and hides it |
| SimpleStore.ServeRefines | internal/features/events/category_service.go:61-163 | one request answers like a map with real deletion, and changes the live rows like it |
| SimpleStore.RunRefines | internal/core/audit/auditable_repository.go:38-98 | over every sequential run with fresh ids: same answers, and the live rows are the simple store |
| SimpleStore.CreateDiffersIff | internal/features/events/category_service.go:76-80 | the only create that tells the two apart reuses a tombstone's id |
| SimpleStore.KeptIff | internal/core/audit/auditable_repository.go:119-125 | the appended condition hides tombstones and nothing else |
| SimpleStore.ConditionsIffPasses | internal/features/events/category_service.go:184-191 | a condition list accepts a row iff the filter map does |
| Histories.TombstoneIsFrozen | internal/core/audit/auditable_repository.go:46-110 | in every sequential run a tombstone keeps its row, and every later read, update, delete, existence check and list reports it missing |
| Histories.TombstoneIsInvisible | internal/core/audit/auditable_repository.go:80-98 | every answer of a run, counts and totals included, is that of a table without the tombstone |
| Histories.UpdateBreaksRuleIff | migrations/000004_create_event_categories_and_templates.up.sql:9-12 | the exact partial updates the table CHECK refuses |
| Histories.BrokenRuleIsInternal | internal/features/events/category_service.go:116-132 | such an update is an internal error, never a bad request, and changes nothing |
| Histories.TenantSourceAlone | docs/FEATURES.md:28 | from any live app category, an update to source "tenant" alone is an internal error, where a create with those fields is a bad request |
| Histories.RunEvolves | internal/features/events/category_service.go:62-67 | in every run "app iff no tenant" holds of every row, ids and creation times are fixed, and a tenant category never becomes an app one |
| Histories.RunStamps | internal/core/audit/auditable_repository.go:38-77 | with a clock that does not run backwards, created_at <= updated_at, and deleted_at equals updated_at in tombstones |
| Histories.FailureChangesNothing | internal/features/events/category_service.go:61-150 | a failed request leaves the table as it was |
| Histories.RunConserves | internal/features/events/category_service.go:61-150 | physical rows grow by the successful creates, live rows by those minus the successful deletes |
| Paging.ListIsExact | internal/core/audit/auditable_repository.go:80-93 | the rows a list pages through are the live rows passing every filter |
| Paging.FilteredListIsExact | internal/features/events/category_service.go:184-191 | for filters on name, source, tenant_id and id, field by field: the live rows with exactly those values |
| Paging.SelectKeepsOrder | internal/core/audit/auditable_repository.go:80-93 | the rows come in the order of the scan |
| Paging.TotalIsCount | internal/core/audit/auditable_repository.go:80-98 | a list's total is the count of the same conditions |
| Paging.FilterOrderIsIrrelevant | internal/features/events/category_service.go:184-191 | the answer does not depend on the iteration order of the filter map |
| Paging.PagesTile | internal/features/events/category_service.go:171-181 | the windows up to the page count concatenate to the whole result |
| Paging.AnswersTile | internal/features/events/category_service.go:153-181 | the items list requests answer for pages 1 to the page count concatenate to the whole selection |
| Paging.PageEmptyIff | internal/features/events/category_service.go:171-181 | a page is empty iff it lies past the page count |
| Paging.OffsetExactIff | internal/features/events/category_service.go:181 | the 64-bit offset is the intended one iff the product fits |
| Paging.SafePages | internal/features/events/category_service.go:181 | exact and non-negative for every size up to page 92233720368547759; the next page of 100 is not |
| Paging.WrappedPageShowsFirstPage | internal/features/events/category_service.go:181 | a remote page whose wrapped offset is zero and whose answer is the first page's rows |
| Paging.ClaimedPageIff | internal/features/events/category_service.go:153-163 | the answer is the page it claims iff the offset fits or its wrapped value lies beyond the rows |
| Interleavings.RunKeeps | internal/features/events/category_service.go:106-150 | in every interleaving the CHECKs hold, no row is lost, ids and creation times are fixed |
| Interleavings.LinearizationFromTable | internal/features/events/category_service.go:106-150 | without overlapping writes, table and answers are those of a serial run in the order of effective steps |
| Interleavings.Linearization | internal/core/audit/auditable_repository.go:46-77 | the same from any state whose pending reads are current |
| Interleavings.ConcurrentStamps | internal/core/audit/auditable_repository.go:38-77 | in every interleaving whose clock does not run backwards between writes, created_at <= updated_at, and deleted_at equals updated_at in tombstones |
| StaleWrites.StartReads | internal/features/events/category_service.go:107-114 | whatever else is pending, starting an update or delete of a live row reads that row and does nothing more |
| StaleWrites.StartAnswers | internal/features/events/category_service.go:61-163 | whatever else is pending, any other start is the whole request |
| StaleWrites.UpdateWrites | internal/features/events/category_service.go:107-135 | in every interleaving a successful update leaves, field by field, the row as it read it with the given fields and a new updated_at, answers with it and touches no other row |
| StaleWrites.DeleteWrites | internal/core/audit/auditable_repository.go:65-77 | the same for a delete, with both stamps |
| StaleWrites.RefusedWrite | internal/features/events/category_service.go:126-132 | a write that fails or that the CHECK refuses leaves the table and is an internal error |
| StaleWrites.LostUpdate | internal/features/events/category_service.go:107-126 | of two overlapped updates both succeed and the first write is as if never made |
| StaleWrites.LostMove | internal/features/events/category_service.go:107-126 | a rename overlapping a move to another tenant undoes the move, which no serial order does |
| Resurrections.ResurrectingStepIff | internal/core/audit/auditable_repository.go:58-61 | a step brings a tombstone back iff it is the write of a pending update of that row, without a failure and of a row the CHECK accepts |
| Resurrections.TombstoningStep | internal/core/audit/auditable_repository.go:65-77 | only the write of a delete buries a live row |
| Resurrections.CauseOfResurrection | internal/core/audit/auditable_repository.go:58-77 | in every interleaving, a row comes back only through an update that read it live before the delete that buried it wrote |
| Resurrections.NoOverlapNoResurrection | internal/features/events/category_service.go:106-126 | without overlapping writes a tombstone is permanent in concurrent runs too |
| Resurrections.StaleUpdateWins | internal/features/events/category_service.go:107-126 | from any table, an overlapped update and delete can both succeed and leave the row live |
| Resurrections.LostDelete | internal/features/events/category_service.go:107-126 | no serial order of the two gives that table and those answers |
| Reversals.RevertingStepIff | internal/features/events/category_service.go:107-126 | a step turns a tenant category into an app one iff it writes back a row read as an app row, without moving it, without a failure and with the CHECK satisfied |
| Reversals.CauseOfReversal | internal/features/events/category_service.go:107-126 | in every interleaving, a source is reverted only through a request that read the row as an app row before it was moved to a tenant |
| Reversals.NoOverlapEvolves | internal/features/events/category_service.go:62-67 | where writes do not overlap, no source is reverted, no row lost or re-dated, between any two states of a concurrent run |
| Reversals.StaleRenameRevertsSource | internal/features/events/category_service.go:116-126 | from any live app row, an overlapped rename turns the category back into an app one |
| ListQuery.WithDefaults | internal/core/query/list.go:37-48 | field by field: a positive value is kept, any other becomes the package default; allow-lists never change |
| ListQuery.Collect | internal/core/query/list.go:126-148 | all values in order, or the error of the first one that has one |
| ListQuery.ToSet | internal/core/query/list.go:168-174 | membership of the map is membership of the list |
| ListQuery.ParseSortsLoop | internal/core/query/list.go:123-149 | the loop computes the values' sorts or the first error |
| ListQuery.ParseFiltersLoop | internal/core/query/list.go:153-165 | the first value of every allowed, unreserved key, in any key order |
| ListQuery.ParseListParams | internal/core/query/list.go:69-89 | page, then size, then sorts, then filters |
| ListQueryLaws.AtoiPositiveIff | internal/core/query/list.go:97-100 | an accepted number is an optional plus sign and digits whose sum, each times the power of ten of its position, is from 1 to the largest integer |
| ListQueryLaws.SizeOfQuery | internal/core/query/list.go:108-118 | the size of an accepted query is the one it asks for, or the default, or the maximum if that is less |
| ListQueryLaws.DirectionsAreAccepted | internal/core/query/list.go:135-143 | "ASC", "asc", "DESC" and "desc" are read as the two directions |
| ListQueryLaws.ParseSortIff | internal/core/query/list.go:127-146 | a sort value is accepted iff it splits at its first comma into an allowed trimmed field and a direction |
| ListQueryLaws.LongSIsAccepted | internal/core/query/list.go:135-146 | a direction written with a long s is accepted as DESC |
| ListQueryLaws.SortErrorCases | internal/core/query/list.go:128-145 | which error a refused sort value gets |
| ListQueryLaws.ParseAcceptsIff | internal/core/query/list.go:69-165 | a query parses to given parameters iff it means them by the grammar |
| ListQueryLaws.ParseReportsFirst | internal/core/query/list.go:72-83 | otherwise the error is the page's, else the size's, else the first bad sort's |
| ListQueryLaws.ParsePrint | internal/core/query/list.go:58-89 | writing parameters in the documented format, with any numerals, padding, ASCII case, repeated keys and unknown keys, and parsing gives them back, the size capped |
| ListQueryLaws.ClampingIsFixedIff | internal/features/events/category_service.go:171-180 | the service's second clamping is a no-op on every accepted query iff the maximum size is at most 100 |
| ListEndpoint.AcceptedQueryGetsItsPage | internal/features/events/category_service.go:153-163 | an accepted query is answered with the page its own numbers name |
| ListEndpoint.CategoryQueryIsExact | internal/features/events/category_handler.go:25-28 | from query text to rows: an accepted category query pages through exactly the live rows with the name, source and tenant it gives |
| ListEndpoint.OnlyAllowedColumnsReachTheTable | internal/core/query/list.go:123-165 | only allow-listed columns and deleted_at reach the repository, and its sorts are the parsed ones |
| CascadeDelete.DeleteTerminates | migrations/000009_create_guests_and_tickets.up.sql:20-38 | every delete takes at most as many steps as its cascade set has rows, and is complete exactly then |
| CascadeDelete.DeleteCompletes | migrations/000009_create_guests_and_tickets.up.sql:20-38 | no delete gets stuck: whatever order was chosen so far, it can be completed |
| CascadeDelete.EveryDeleteCompletes | migrations/000009_create_guests_and_tickets.up.sql:20-38 | every row of every database has a completed delete, of as many steps as its cascade set has rows |
| CascadeDelete.DeleteRemovesCascadeSet | migrations/000009_create_guests_and_tickets.up.sql:20-38 | in whatever order, a completed delete removes exactly the rows reaching the root by CASCADE keys |
| CascadeDelete.CascadeSetIsLeast | migrations/000009_create_guests_and_tickets.up.sql:20-21 | the cascade set is the least set with the root that cascades do not leave |
| CascadeDelete.WithoutKeysHoldIff | migrations/000005_create_events_and_workflow_steps.up.sql:3-4 | after removing a closed set, all foreign keys hold iff no survivor restricts a removed row |
| CascadeDelete.CompletedDelete | migrations/000005_create_events_and_workflow_steps.up.sql:1-13 | the same for every completed delete, under any foreign keys |
| DeclaredSchema.SetNullColumns | migrations/000009_create_guests_and_tickets.up.sql:36-38 | SET NULL is declared on guests.ticket_id and scan_logs.operator_user_id only, both nullable |
| DeclaredSchema.CascadeGoesDown | migrations/000010_create_scan_logs.up.sql:3-5 | every CASCADE key of the migrations points to a lower layer of tables |
| DeclaredSchema.ChainsAreShort | migrations/000010_create_scan_logs.up.sql:1-8 | no cascade runs through more than five rows |
| DeclaredSchema.GuestsAndTicketsCycle | migrations/000009_create_guests_and_tickets.up.sql:18-38 | with the SET NULL key the tables cannot be layered at all |
| DeclaredSchema.SurvivorsChangeOnly | migrations/000010_create_scan_logs.up.sql:7 | survivors change only by nulling the two SET NULL columns where they named a removed row |
| DeclaredSchema.DeleteKeepsValidIff | migrations/000006_create_message_templates.up.sql:14-18 | a completed delete leaves every key and both cross-column CHECKs true iff no survivor restricts a removed row |
| DeclaredSchema.AppRowsOutliveTenants | migrations/000004_create_event_categories_and_templates.up.sql:9-12 | app categories and app templates survive the deletion of any tenant |
| DeclaredSchema.ChecksMean | migrations/000006_create_message_templates.up.sql:14-18 | the owner of a category or message template decides exactly which of tenant and event it names |
| DeclaredDeletes.CascadeColumns | migrations/000010_create_scan_logs.up.sql:3-5 | which columns of which tables are declared ON DELETE CASCADE |
| DeclaredDeletes.RestrictColumns | migrations/000009_create_guests_and_tickets.up.sql:22 | which are declared ON DELETE RESTRICT |
| DeclaredDeletes.MandatoryReference | migrations/000009_create_guests_and_tickets.up.sql:20-22 | in a valid database every reference but five kinds is present, and names an existing row of the right table |
| DeclaredDeletes.DeclaredDelete | migrations/000009_create_guests_and_tickets.up.sql:20-38 | for a row of each table: exactly the rows that go with it and exactly the rows that hold it back, over table and column names |
| DeclaredDeletes.RoleDelete | migrations/000002_create_permissions_roles_role_permissions.up.sql:18-22 | a role takes exactly its permission grants with it, and is held back exactly by users and staff who have it |
| DeclaredDeletes.DeclaredOutcome | migrations/000009_create_guests_and_tickets.up.sql:36-38 | what any completed delete leaves: all other rows unchanged but for the two nullable references to rows that went, and valid iff nothing held it back |

## Left out

- RowStore.SqlRepository.List: the order rows come in is an input; that it follows the requested sorts is the database's business. What a limit that is not positive means, and the total when the count is skipped, are left open.
- RowStore.SqlRepository.Update: SQL text, connection pools, leader and follower reads and time stamp precision are not part of this model, only the row-store contract.
- Audit.AuditableRepository.List: rows come back as values, not as pointers to fresh structs.
- Requests.ServeList: a negative offset is taken as refused, as PostgreSQL does; equality filters compare text, so columns holding times match none, nor does a column the table lacks.
- Categories.ColumnOf: ids are compared as canonical text, so a malformed or upper-case tenant_id in a filter matches no row, where a UUID column refuses or normalises it.
- Text.ToUpperRune: exact only where the result is a letter A-Z, which is all a direction is compared with.
- CascadeDelete.CompletedDelete: says nothing about deletes the database refuses; when it checks a RESTRICT key is left open. Unique indexes and single-column CHECKs cannot be broken by a delete and are not modelled.
- Interleavings.Linearization: clock readings of overlapping requests need not be ordered.
- The cache decorator, whose code is not part of this model.
- Handlers, routes, JSON, UUID parsing and percent-decoding: plumbing around the modelled parts. The validator's checks are not needed: the service is modelled for any source and name.
- The total-pages figure of a page response, computed by code that is not part of this model.
- Server start and stop, configuration, logging, tracing, down migrations: single-branch facts or plumbing.
