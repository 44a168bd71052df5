/**
 * TaskController: the four HTTP handlers. Each handler first decides, from the
 * validation errors and the request alone, either to answer at once or to make
 * exactly one repository call (`Plan`); the response then depends only on
 * that call and on what the repository did (`Outcome`).
 */
module TaskController {
  import opened Base
  import opened Tasks
  import opened JsNum
  import opened JsText

  /** A JSON response body. */
  datatype Body =
    | ErrorBody(error: string)
    | ListBody(tasks: seq<Task>, total: int, currentPage: int, totalPages: int)
    | TaskBody(task: Task)
    | NoBody

  datatype Response = Response(status: int, body: Body)

  /** One call through the repository interface (ITaskRepository). */
  datatype RepoCall =
    | ListCall(page: int, limit: int)
    | CreateCall(task: Task)
    | UpdateCall(id: Id, task: Task)
    | DeleteCall(id: Id)

  /** What a handler does before awaiting the repository. */
  datatype Plan = Respond(response: Response) | Invoke(call: RepoCall)

  /** How the awaited repository promise settled: resolved with a value, or rejected. */
  datatype Outcome<T> = Returned(value: T) | Threw(fault: Fault)

  /** The `page` and `limit` query parameters, as the raw text the URL carried. */
  datatype ListQuery = ListQuery(page: Option<string>, limit: Option<string>)

  /** A create or update request body; a client-supplied `_id` may be present. */
  datatype TaskInput = TaskInput(id: Option<Id>, title: string, description: string, dueDate: string)

  const DefaultPage: int := 1
  const DefaultLimit: int := 10
  const NotFound: string := "Task not found"
  const FetchFailed: string := "Failed to fetch tasks"
  const CreateFailed: string := "Failed to create task"
  const UpdateFailed: string := "Failed to update task"
  const DeleteFailed: string := "Failed to delete task"

  /** The 400 answer to a request that failed validation: every message, comma-joined. */
  function Rejected(errors: seq<string>): (r: Response)
    requires errors != []
    ensures r.status == 400 && r.body.ErrorBody?
    ensures errors[0] <= r.body.error
  {
    Response(400, ErrorBody(Join(errors, ',')))
  }

  /** The 400 body loses no message: splitting it on "," gives the messages back. */
  lemma RejectedKeepsMessages(errors: seq<string>)
    requires errors != []
    requires forall i :: 0 <= i < |errors| ==> ',' !in errors[i]
    ensures Split(Rejected(errors).body.error, ',') == errors
  {
    SplitJoin(errors, ',');
  }

  /**
   * GET /tasks: with validation errors answer 400 and leave the repository
   * alone; otherwise list page `page` of `limit`, each read permissively with
   * fallbacks 1 and 10, so neither reaches the repository as 0.
   */
  function GetTasks(errors: seq<string>, query: ListQuery): (p: Plan)
    ensures errors != [] ==> p == Respond(Rejected(errors))
    ensures errors == [] ==> p.Invoke? && p.call.ListCall?
    ensures errors == [] ==> p.call.page != 0 && p.call.limit != 0
    ensures errors == [] ==> p.call.page == ParamOr(query.page, DefaultPage)
    ensures errors == [] ==> p.call.limit == ParamOr(query.limit, DefaultLimit)
  {
    if errors != [] then Respond(Rejected(errors))
    else Invoke(ListCall(ParamOr(query.page, DefaultPage), ParamOr(query.limit, DefaultLimit)))
  }

  /**
   * The answer to GET /tasks once the repository settled: 200 with the page,
   * the total, the page number asked for and `ceil(total / limit)` pages; 500
   * with a fixed message, never the cause, when it failed.
   */
  function ListResponse(page: int, limit: int, outcome: Outcome<Listing>): (r: Response)
    requires limit != 0
    ensures outcome.Threw? ==> r == Response(500, ErrorBody(FetchFailed))
    ensures outcome.Returned? ==> r.status == 200 && r.body.ListBody?
    ensures outcome.Returned? ==> r.body.tasks == outcome.value.tasks && r.body.total == outcome.value.total
    ensures outcome.Returned? ==> r.body.currentPage == page
    ensures outcome.Returned? && limit > 0 ==>
      r.body.totalPages >= 0 && r.body.totalPages * limit >= r.body.total && (r.body.totalPages - 1) * limit < r.body.total
    ensures outcome.Returned? && limit < 0 ==>
      r.body.totalPages <= 0 && r.body.totalPages * limit <= r.body.total < (r.body.totalPages - 1) * limit
  {
    match outcome
    case Threw(_) => Response(500, ErrorBody(FetchFailed))
    case Returned(listing) =>
      Response(200, ListBody(listing.tasks, listing.total, page, CeilDiv(listing.total, limit)))
  }

  /**
   * POST /tasks: with validation errors answer 400 without touching the
   * repository; otherwise insert a record built from a fresh server id and the
   * body's title, description and due date. Any `_id` in the body is ignored.
   */
  function CreateTask(errors: seq<string>, input: TaskInput, freshId: Id): (p: Plan)
    ensures errors != [] ==> p == Respond(Rejected(errors))
    ensures errors == [] ==> p.Invoke? && p.call.CreateCall?
    ensures errors == [] ==> p.call.task.id == freshId
    ensures errors == [] ==> p.call.task.title == input.title && p.call.task.description == input.description
    ensures errors == [] ==> p.call.task.dueDate == input.dueDate
  {
    if errors != [] then Respond(Rejected(errors))
    else Invoke(CreateCall(Task(freshId, input.title, input.description, input.dueDate)))
  }

  /** The answer to POST /tasks: 201 with exactly the record inserted, or 500. */
  function CreateResponse(task: Task, outcome: Outcome<()>): (r: Response)
    ensures outcome.Returned? ==> r == Response(201, TaskBody(task))
    ensures outcome.Threw? ==> r == Response(500, ErrorBody(CreateFailed))
  {
    match outcome
    case Threw(_) => Response(500, ErrorBody(CreateFailed))
    case Returned(_) => Response(201, TaskBody(task))
  }

  /**
   * PUT /tasks/:id: with validation errors answer 400 without touching the
   * repository; otherwise replace the task under the path id with a record
   * whose `_id` is that path id (never the body's) and whose fields come from the body.
   */
  function UpdateTask(errors: seq<string>, id: Id, input: TaskInput): (p: Plan)
    ensures errors != [] ==> p == Respond(Rejected(errors))
    ensures errors == [] ==> p.Invoke? && p.call.UpdateCall?
    ensures errors == [] ==> p.call.id == id && p.call.task.id == id
    ensures errors == [] ==> p.call.task.title == input.title && p.call.task.description == input.description
    ensures errors == [] ==> p.call.task.dueDate == input.dueDate
  {
    if errors != [] then Respond(Rejected(errors))
    else Invoke(UpdateCall(id, Task(id, input.title, input.description, input.dueDate)))
  }

  /**
   * The answer to PUT /tasks/:id: 404 when nothing matched, otherwise 200
   * echoing the record sent to the repository (not a re-read), or 500.
   */
  function UpdateResponse(task: Task, outcome: Outcome<bool>): (r: Response)
    ensures outcome == Returned(false) ==> r == Response(404, ErrorBody(NotFound))
    ensures outcome == Returned(true) ==> r == Response(200, TaskBody(task))
    ensures outcome.Threw? ==> r == Response(500, ErrorBody(UpdateFailed))
  {
    match outcome
    case Threw(_) => Response(500, ErrorBody(UpdateFailed))
    case Returned(matched) =>
      if matched then Response(200, TaskBody(task)) else Response(404, ErrorBody(NotFound))
  }

  /** DELETE /tasks/:id: no validation; always exactly one repository delete. */
  function DeleteTask(id: Id): (p: Plan)
    ensures p == Invoke(DeleteCall(id))
  {
    Invoke(DeleteCall(id))
  }

  /** The answer to DELETE /tasks/:id: 404 when nothing matched, 204 with no body, or 500. */
  function DeleteResponse(outcome: Outcome<bool>): (r: Response)
    ensures outcome == Returned(false) ==> r == Response(404, ErrorBody(NotFound))
    ensures outcome == Returned(true) ==> r == Response(204, NoBody)
    ensures outcome.Threw? ==> r == Response(500, ErrorBody(DeleteFailed))
  {
    match outcome
    case Threw(_) => Response(500, ErrorBody(DeleteFailed))
    case Returned(deleted) =>
      if deleted then Response(204, NoBody) else Response(404, ErrorBody(NotFound))
  }

  /** The record a create inserts does not depend on any `_id` the client sent. */
  lemma ClientIdIgnored(errors: seq<string>, input: TaskInput, other: Option<Id>, freshId: Id, path: Id)
    ensures CreateTask(errors, input, freshId) == CreateTask(errors, input.(id := other), freshId)
    ensures UpdateTask(errors, path, input) == UpdateTask(errors, path, input.(id := other))
  {
  }

  /** A failed repository call yields the same answer whatever the cause. */
  lemma CauseNeverLeaks(page: int, limit: int, task: Task, c1: Fault, c2: Fault)
    requires limit != 0
    ensures ListResponse(page, limit, Threw(c1)) == ListResponse(page, limit, Threw(c2))
    ensures CreateResponse(task, Threw(c1)) == CreateResponse(task, Threw(c2))
    ensures UpdateResponse(task, Threw(c1)) == UpdateResponse(task, Threw(c2))
    ensures DeleteResponse(Threw(c1)) == DeleteResponse(Threw(c2))
  {
  }
}
