# Task tracker: repository, controller and client view-model

This project models the core of a small task tracker. It has three layers:

- **The task repository.** A MongoDB collection of tasks keyed by `_id` offers four operations: list a page in ascending `_id` order together with the total count, insert, replace by id, and delete by id.
- **The HTTP controller.** It validates a request, reads `page` and `limit` permissively, makes exactly one repository call, and maps what the repository did to a status code and a JSON body.
- **The single-page client.** Its view-model holds the current page of tasks (a JavaScript `Map` keyed by id), the add and edit forms, and the page numbers. Its handlers fetch a page (falling back once to the previous page when the requested one is empty), add, delete and edit tasks, and render the pagination bar.

The collection is a `map<Id, Task>`. Every operation returns the collection afterwards instead of mutating it, and a rejected promise becomes an `Err` or an `Outcome.Threw`.

A controller handler is split in two:

- a `Plan`, which either answers at once or names the one repository call to make;
- a response function over the call's `Outcome`.

So "a request that fails validation never reaches the repository" holds by construction.

`Service.Serve` joins the route table, the controller and the repository. `EndToEnd` then feeds the answers `Serve` gives to the client's fetch handler.

The client's handlers are pure functions. Each takes the server's replies as parameters and returns a `Step`: the new state, the requests sent in order, and the alerts raised.

Modules:

| File | Module | What it holds |
|---|---|---|
| `base.dfy` | `Base` | `Option`, `Result` and small arithmetic helpers |
| `lex.dfy` | `Lex` | the string order of `sort({_id: 1})`; `SortedIds`, the ascending enumeration of a key set, and its uniqueness |
| `tasks.dfy` | `Tasks` | the `Task` record, the `Listing`, the store |
| `jsnum.dfy` | `JsNum` | ECMAScript `parseInt(s, 10)`, the `\|\| fallback` idiom, decimal text, `Math.ceil(total / limit)`, page arithmetic |
| `jstext.dfy` | `JsText` | `Array.prototype.join` and `String.prototype.split` on a one-character separator |
| `repo.dfy` | `TaskRepo` | the Mongo-backed repository |
| `controller.dfy` | `TaskController` | the four handlers |
| `service.dfy` | `Service` | the router plus the controller over the repository; scenarios |
| `taskmap.dfy` | `TaskMap` | the client's `Map<string, Task>` with insertion order |
| `app.dfy` | `App` | client state, handlers and the pagination bar |
| `endtoend.dfy` | `EndToEnd` | the client's fetch against the served pages |

Three behaviours of the code are easy to misread:

- **Page and limit parsing.** `parseInt(q, 10) || 1` falls back to the default when `q` is absent or has no digits after its leading white space and an optional sign. It also falls back when the text parses to `0` or `-0`, because both are falsy.
- **Negative numbers.** The parsed numbers are passed on unchecked. So a negative page or limit reaches the store. A negative offset is then refused there with 500, not 400 (`Service.ListFailsOnNegativeSkip`).
- **Validation.** No validators are attached to the routes. The list of validation errors is therefore a parameter of every handler: the handlers' 400 branch is modelled, but which messages a request would produce is not.

## Model

| member | source | states |
|---|---|---|
| Lex.SortedIds | backend/repos/mem.mongo.task.repo.ts:21 | the `_id` order a `sort({_id: 1})` cursor yields: every key exactly once, strictly ascending |
| Lex.SortedUnique | backend/repos/mem.mongo.task.repo.ts:21 | two strictly ascending enumerations of the same keys are equal, so the listing order is determined by the keys alone |
| Lex.LessEqTotal | backend/repos/mem.mongo.task.repo.ts:21 | any two ids are comparable under the sort order |
| Lex.LessEqTransitive | backend/repos/mem.mongo.task.repo.ts:21 | the sort order is transitive |
| Lex.LessEqAntisymmetric | backend/repos/mem.mongo.task.repo.ts:21 | ids that sort at or before each other are equal, so the order has no ties |
| TaskRepo.Window | backend/repos/mem.mongo.task.repo.ts:18-20 | skip then limit: the items are the run starting at `skip`, at most `\|limit\|` of them (0 meaning no limit), and with a limit of 0 or more the run stops short only at the end of the input |
| TaskRepo.ListWindow | backend/repos/mem.mongo.task.repo.ts:17-26 | the listing's count is the number of stored tasks, and its i-th task is the stored task at ascending position `skip + i` |
| TaskRepo.GetTasks | backend/repos/mem.mongo.task.repo.ts:13-27 | fails exactly when `(page - 1) * limit` is negative; otherwise yields the window at that offset and the full count |
| TaskRepo.CreateTask | backend/repos/mem.mongo.task.repo.ts:29-31 | succeeds exactly when the `_id` is new; then it adds exactly that key, holding the task, and leaves every other task as it was |
| TaskRepo.UpdateTask | backend/repos/mem.mongo.task.repo.ts:33-36 | reports a match exactly when the id is stored; no match changes nothing (no upsert); a match replaces that task and no other; changing a stored `_id` is refused |
| TaskRepo.DeleteTask | backend/repos/mem.mongo.task.repo.ts:38-41 | reports a deletion exactly when the id was stored; removes that key only |
| TaskRepo.DeleteTwice | backend/repos/mem.mongo.task.repo.ts:38-41 | deleting the same id again deletes nothing and changes nothing |
| TaskRepo.WriteKeepsWellKeyed | backend/repos/mem.mongo.task.repo.ts:29-41 | every write keeps each task stored under its own `_id` |
| TaskRepo.ListingAscending | backend/repos/mem.mongo.task.repo.ts:17-22 | a listed page holds stored tasks only, in strictly ascending `_id` order |
| TaskRepo.WindowHolds | backend/repos/mem.mongo.task.repo.ts:14-22 | the task at ascending position k is on the window at `skip` if and only if `skip <= k < skip + limit` |
| TaskRepo.PageOfId | backend/repos/mem.mongo.task.repo.ts:14-22 | with a positive limit, every stored task is on exactly one page, and that page is at most `ceil(total / limit)` |
| TaskRepo.OnlyPage | backend/repos/mem.mongo.task.repo.ts:14-22 | a task is listed only on the page `position / limit + 1` |
| TaskRepo.CreatedListedOnce | backend/repos/mem.mongo.task.repo.ts:29-31 | a created task appears once in the ascending enumeration, and the count grows by one |
| JsNum.ParseInt | backend/controllers/task.controller.ts:20-21 | `parseInt(s, 10)`: NaN exactly when no digit follows the leading white space and an optional sign; a negative result needs a leading `-` |
| JsNum.ParseDecimal | backend/controllers/task.controller.ts:20-21 | parsing the decimal text of n, followed by anything that does not start with a digit, gives back n |
| JsNum.ParamOr | backend/controllers/task.controller.ts:20-21 | `parseInt(q, 10) \|\| fallback`: the fallback when q is absent, not a number or 0, else the parsed number; never 0 when the fallback is not 0 |
| JsNum.ParamOfDecimal | backend/controllers/task.controller.ts:20-21 | a non-zero number sent as decimal text is read back as itself |
| JsNum.CeilDiv | backend/controllers/task.controller.ts:29 | `Math.ceil(total / limit)` is the least k with `k * limit >= total` for a positive limit, and the matching bound for a negative one |
| JsNum.CeilDivUnique | backend/controllers/task.controller.ts:29 | any k bracketing total between `(k - 1) * limit` and `k * limit` is the page count |
| JsNum.CeilDivPositive | backend/controllers/task.controller.ts:29 | with a positive limit the page count is non-negative, and 0 exactly when there are no tasks |
| JsNum.PageSkip | backend/repos/mem.mongo.task.repo.ts:14 | the offset of page p is `(p - 1) * limit`, never negative for page and limit at least 1 |
| JsNum.SkipCovers | backend/repos/mem.mongo.task.repo.ts:14 | position k lies in page q's window only if q is `k / limit + 1` |
| JsNum.PageCovers | backend/repos/mem.mongo.task.repo.ts:14 | position k lies in the window of page `k / limit + 1` |
| JsNum.PageWithinCount | backend/controllers/task.controller.ts:29 | the page of any position below the total is at most `ceil(total / limit)` |
| JsText.Join | backend/controllers/task.controller.ts:15-16 | joining keeps every message whole: the first message is a prefix, and one message joins to itself |
| JsText.SplitJoin | backend/controllers/task.controller.ts:15-16 | splitting the comma-joined messages on "," gives them back when none contains a comma |
| TaskController.Rejected | backend/controllers/task.controller.ts:13-18 | a request with validation errors gets 400 with an error text that starts with the first message |
| TaskController.RejectedKeepsMessages | backend/controllers/task.controller.ts:15-16 | the 400 body loses no message |
| TaskController.GetTasks | backend/controllers/task.controller.ts:12-23 | validation errors answer 400 without a repository call; otherwise exactly one page call, with page and limit read with fallbacks 1 and 10, so neither is 0 |
| TaskController.ListResponse | backend/controllers/task.controller.ts:25-34 | 200 with the page, the count, the requested page number and a page count bracketing the total; 500 with a fixed message on failure |
| TaskController.CreateTask | backend/controllers/task.controller.ts:37-51 | validation errors answer 400 without a repository call; otherwise one insert of a record with the fresh server id and the body's fields |
| TaskController.CreateResponse | backend/controllers/task.controller.ts:51-56 | 201 with exactly the inserted record, or 500 with a fixed message |
| TaskController.UpdateTask | backend/controllers/task.controller.ts:59-74 | validation errors answer 400 without a repository call; otherwise one replace under the path id, with that id as the record's `_id` |
| TaskController.UpdateResponse | backend/controllers/task.controller.ts:74-83 | 404 "Task not found" when nothing matched, 200 echoing the record sent, 500 on failure |
| TaskController.DeleteResponse | backend/controllers/task.controller.ts:89-98 | 204 with no body, 404 "Task not found" when nothing was deleted, 500 on failure |
| TaskController.ClientIdIgnored | backend/controllers/task.controller.ts:45-50 | the stored record does not depend on any `_id` in the request body, for create and for update |
| TaskController.CauseNeverLeaks | backend/controllers/task.controller.ts:31-98 | the 500 answers of all four handlers are the same whatever the repository's error was |
| Service.Route | backend/router/task.routes.ts:13-18 | each verb and path reaches its handler: without validation errors GET makes a list call, POST an insert under the fresh id, and PUT a replace under the path id; validation errors answer 400 for every route but the delete, which always makes exactly one repository delete whatever the errors |
| Service.Execute | backend/controllers/task.controller.ts:12-99 | a list call, a down backend or a 500 leaves the store unchanged; every call keeps tasks under their own ids |
| Service.Serve | backend/controllers/task.controller.ts:12-99 | rejected requests and lists change nothing; the status is one of 200, 201, 204, 400, 404 and 500; the store stays well keyed |
| Service.DeleteTwice | backend/controllers/task.controller.ts:86-98 | the first delete of a stored id answers 204 and removes it; a second one answers 404 and changes nothing |
| Service.UpdateMissing | backend/controllers/task.controller.ts:74-78 | updating an id that is not stored answers 404 and creates nothing |
| Service.UpdateExisting | backend/controllers/task.controller.ts:66-79 | updating a stored id replaces that task wholesale with the body's fields, echoes it with 200, and touches nothing else |
| Service.CreateFresh | backend/controllers/task.controller.ts:44-52 | a create with a fresh id answers 201 with the record and stores it, and the task is then listed on exactly one page |
| Service.CreateDuplicate | backend/controllers/task.controller.ts:51-56 | a create whose generated id is already stored answers 500 and writes nothing |
| Service.ListPage | backend/controllers/task.controller.ts:20-30 | GET with page and limit of at least 1 sent as text answers 200 with that page of the ascending listing, the count, the page number and `ceil(total / limit)` |
| Service.ListCallAnswer | backend/controllers/task.controller.ts:23-30 | the answer to a page call with page and limit of at least 1 |
| Service.ListFailsOnNegativeSkip | backend/controllers/task.controller.ts:20-34 | a list request answers 500 exactly when the parsed `(page - 1) * limit` is negative |
| Service.EmptyStoreListing | backend/controllers/task.controller.ts:25-30 | listing an empty store gives no tasks, a count of 0 and 0 pages |
| Service.PostThenList | backend/controllers/task.controller.ts:44-52 | a POST to an empty store, then a GET of page 1, lists exactly the created record with a count of 1 |
| Service.SingletonPage | backend/repos/mem.mongo.task.repo.ts:17-22 | the first page of a one-task store is that task |
| TaskMap.Lookup | frontend/src/App.tsx:12 | `Map.get`: absent exactly when no entry has the key |
| TaskMap.Put | frontend/src/App.tsx:50 | `Map.set`: the key maps to the new task and other keys are unchanged; an existing key keeps its position, and a new key is appended at the end |
| TaskMap.PutKeepsDistinct | frontend/src/App.tsx:50 | setting a key keeps the keys distinct |
| TaskMap.LastWith | frontend/src/App.tsx:50 | the entry with a key that no later entry shares, if any entry has the key |
| TaskMap.FromEntries | frontend/src/App.tsx:50 | `new Map(entries)`: distinct keys, each mapping to the last entry given for it |
| TaskMap.FromDistinctEntries | frontend/src/App.tsx:50 | a page with distinct ids becomes a Map holding exactly that page, in server order |
| TaskMap.Evict | frontend/src/App.tsx:136-140 | `Map.delete`: the key is gone, other keys are unchanged, and a missing key changes nothing |
| TaskMap.EvictKeepsDistinct | frontend/src/App.tsx:136-140 | deleting keeps the keys distinct |
| TaskMap.EvictOne | frontend/src/App.tsx:136-140 | deleting a present key removes exactly its entry and keeps the others in order |
| App.AlertText | frontend/src/App.tsx:82 | the server's error text when present and non-empty, otherwise the fixed message |
| App.Fetch | frontend/src/App.tsx:32-59 | requests the page, and the previous page only once and only when the first came back empty past page 1; installs the reply used, or alerts and keeps the list; the forms are untouched |
| App.NextPage | frontend/src/App.tsx:86-90 | only when the current page is before the last, it runs the page fetch for the next page, with all its effects (one fallback, the reply installed or an alert, the forms kept); otherwise nothing happens |
| App.PrevPage | frontend/src/App.tsx:92-96 | only when the current page is after the first, it runs the page fetch for the previous page, with all its effects; otherwise nothing happens |
| App.AddTask | frontend/src/App.tsx:61-84 | no title or no due date alerts without a request; success sends the POST, clears the form, and then runs the page fetch for the current page, with all its effects; failure keeps everything and alerts the server's error text, or "Failed to add task." when there is none |
| App.DeleteTask | frontend/src/App.tsx:97-100 | sends the delete; success then runs the page fetch for the current page, with all its effects; failure changes nothing and raises no alert |
| App.StartEdit | frontend/src/App.tsx:102-107 | loads the task into the edit buffer, an empty id counting as none, and changes nothing else |
| App.CancelEdit | frontend/src/App.tsx:109-114 | empties the edit buffer and nothing else |
| App.EvictEdited | frontend/src/App.tsx:136-140 | dropping the edited entry keeps the list's ids distinct |
| App.UpdateTask | frontend/src/App.tsx:115-146 | no title or no due date alerts without a request; success sends the PUT, leaves edit mode, and then runs the page fetch for the current page, with all its effects; 404 evicts the edited task with "Task not found."; other failures keep everything and alert the server's error text, or "Failed to update task." when there is none |
| App.Pagination | frontend/src/App.tsx:227-245 | the bar shows only with at least one page; Previous is disabled while loading or on page 1, and Next while loading or on the last page |
| App.NotFoundEvictsOne | frontend/src/App.tsx:134-140 | a 404 on update removes exactly the edited entry, keeping the rest in order |
| App.FetchShowsPage | frontend/src/App.tsx:50-52 | a fetched page with distinct ids is shown exactly, with the reply's page numbers |
| EndToEnd.AsFetchReply | frontend/src/App.tsx:35-40 | a fetch succeeds exactly on a 2xx list answer and sees its tasks and page numbers |
| EndToEnd.ServedPage | frontend/src/App.tsx:35-40 | a client request for page p of 10 receives that page of the ascending listing and `ceil(total / 10)` |
| EndToEnd.PagePastEndIsEmpty | backend/repos/mem.mongo.task.repo.ts:17-22 | a page whose offset reaches the count is empty |
| EndToEnd.PageBeforeEndIsFilled | backend/repos/mem.mongo.task.repo.ts:17-22 | a page whose offset is below the count is not empty |
| EndToEnd.FallbackToLastPage | frontend/src/App.tsx:41-48 | asking for the page just past the last sends one extra request and ends on the last page, which is non-empty, with no alert |
| EndToEnd.DeleteOnlyTaskOfLastPage | frontend/src/App.tsx:97-100 | with eleven tasks, deleting the one task on page 2 answers 204 and the client ends on page 1 of 1 |
| EndToEnd.MountShowsFirstPage | frontend/src/App.tsx:148-151 | the fetch on mount asks for page 1 once and shows exactly the first ten tasks in ascending `_id` order, with the server's page count and no alert |
| EndToEnd.EmptyStoreHidesPagination | frontend/src/App.tsx:227 | with nothing stored, the first fetch shows no tasks and hides the pagination bar |

## Left out

- Database start-up and shutdown (`startMongoDB`, `shutdownMongoDB`), the server bootstrap and the request-logging middleware: they are process setup and I/O, and no core operation depends on them.
- The repository interface is not a type of its own. `ITaskRepository` has one implementation, so it is the `TaskController.RepoCall` datatype (one constructor per interface method) together with the functions of `TaskRepo`.
- Task ids are not generated in the model. `uuidv7()` is a parameter (`freshId`): its bit layout and time source are not modelled, only whether the id is already stored.
- The concurrent `find` and `countDocuments` are one consistent snapshot. The window in which a concurrent write could make the count and the items disagree is not modelled.
- Backend failures other than the three the model derives (duplicate `_id`, negative skip, changing an `_id`) are not told apart. They appear only as `up = false`, where every repository call rejects with `Unavailable`. The error a rejected call carries is only logged by the server, so its text is not modelled.
- TaskRepo.Window: for a negative limit `-n` the driver asks for a single batch, and a batch may end before `n` documents (it is capped in size). The model returns `min(n, remaining)` documents, and its contract promises only the upper bound `n`.
- `TaskRepo.GetTasks`: JavaScript numbers are unbounded integers here. Precision loss for `parseInt` of very long digit strings, and floating-point `Math.ceil`, are not modelled.
- `JsNum.ParamOr`: a query parameter repeated into an array is not modelled; each parameter is absent or one string.
- Request bodies with missing or non-string fields are not modelled. The create and update bodies are taken to carry three strings.
- The due date is opaque text. Date parsing, formatting and time zones are not modelled.
- The string order is the order of Unicode scalar values. This agrees with MongoDB's default binary comparison of UTF-8 strings; collations are not modelled.
- Rendering, input-change handlers, the React scheduling of state updates, the `axios` transport and console logging are not modelled. Each handler runs to completion with its replies given. Overlapping handlers are not modelled, and alerts are recorded as their text.
- `App.Fetch`: the `loading` flag is modelled only after the fetch, when it is false. The intermediate `true` that disables the buttons during a request is not a separate state.
- `App.DeleteTask`: a failed delete rejects the click handler's promise unhandled. The model records this as no state change, no refetch and no alert.
