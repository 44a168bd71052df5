/**
 * The API as a whole: the route table binding each verb and path to its
 * handler, and the handlers run against the map-backed repository. The
 * backend's availability is a parameter: when it is down every repository
 * call rejects and nothing is written.
 */
module Service {
  import opened Base
  import opened Tasks
  import opened JsNum
  import Lex
  import Repo = TaskRepo
  import C = TaskController

  /** An HTTP request as the router sees it. */
  datatype Request =
    | List(query: C.ListQuery)                  // GET /tasks
    | Create(input: C.TaskInput)                // POST /tasks
    | Update(id: Id, input: C.TaskInput)        // PUT /tasks/:id
    | Delete(id: Id)                            // DELETE /tasks/:id

  /** The route table: which handler a request reaches. */
  function Route(errors: seq<string>, request: Request, freshId: Id): (p: C.Plan)
    ensures errors != [] && !request.Delete? ==> p == C.Respond(C.Rejected(errors))
    ensures p.Invoke? && p.call.ListCall? ==> p.call.limit != 0
    ensures request.Delete? ==> p == C.Invoke(C.DeleteCall(request.id))
    ensures errors == [] && request.List? ==> p.Invoke? && p.call.ListCall?
    ensures errors == [] && request.Create? ==> p.Invoke? && p.call.CreateCall? && p.call.task.id == freshId
    ensures errors == [] && request.Update? ==>
      p.Invoke? && p.call.UpdateCall? && p.call.id == request.id && p.call.task.id == request.id
  {
    match request
    case List(query) => C.GetTasks(errors, query)
    case Create(input) => C.CreateTask(errors, input, freshId)
    case Update(id, input) => C.UpdateTask(errors, id, input)
    case Delete(id) => C.DeleteTask(id)
  }

  /** Runs one repository call against the store and shapes the handler's answer. */
  ghost function Execute(store: Store, call: C.RepoCall, up: bool): (r: (C.Response, Store))
    requires call.ListCall? ==> call.limit != 0
    ensures call.ListCall? || !up || r.0.status == 500 ==> r.1 == store
    ensures WellKeyed(store) ==> WellKeyed(r.1)
  {
    match call
    case ListCall(page, limit) =>
      var outcome :=
        if !up then C.Threw(Unavailable)
        else (match Repo.GetTasks(store, page, limit)
          case Ok(listing) => C.Returned(listing)
          case Err(fault) => C.Threw(fault));
      (C.ListResponse(page, limit, outcome), store)
    case CreateCall(task) =>
      if !up then (C.CreateResponse(task, C.Threw(Unavailable)), store)
      else (match Repo.CreateTask(store, task)
        case Ok(after) => (C.CreateResponse(task, C.Returned(())), after)
        case Err(fault) => (C.CreateResponse(task, C.Threw(fault)), store))
    case UpdateCall(id, task) =>
      if !up then (C.UpdateResponse(task, C.Threw(Unavailable)), store)
      else (match Repo.UpdateTask(store, id, task)
        case Ok((matched, after)) => (C.UpdateResponse(task, C.Returned(matched)), after)
        case Err(fault) => (C.UpdateResponse(task, C.Threw(fault)), store))
    case DeleteCall(id) =>
      if !up then (C.DeleteResponse(C.Threw(Unavailable)), store)
      else
        var (deleted, after) := Repo.DeleteTask(store, id);
        (C.DeleteResponse(C.Returned(deleted)), after)
  }

  /**
   * Serves one request: validate, make at most one repository call, answer.
   * A request rejected by validation, a list, and any failure leave the store
   * as it was.
   */
  ghost function Serve(store: Store, errors: seq<string>, request: Request, freshId: Id, up: bool): (r: (C.Response, Store))
    ensures errors != [] && !request.Delete? ==> r.0 == C.Rejected(errors) && r.1 == store
    ensures request.List? || !up || r.0.status == 500 ==> r.1 == store
    ensures r.0.status in {200, 201, 204, 400, 404, 500}
    ensures WellKeyed(store) ==> WellKeyed(r.1)
  {
    match Route(errors, request, freshId)
    case Respond(response) => (response, store)
    case Invoke(call) => Execute(store, call, up)
  }

  /** Deleting a task twice: 204 and removal the first time, 404 and no change the second. */
  lemma DeleteTwice(store: Store, errors: seq<string>, id: Id, freshId: Id)
    requires id in store
    ensures var (first, after) := Serve(store, errors, Delete(id), freshId, true);
            first == C.Response(204, C.NoBody) && id !in after
            && Serve(after, errors, Delete(id), freshId, true) == (C.Response(404, C.ErrorBody(C.NotFound)), after)
  {
    var after := store - {id};
    assert after - {id} == after;
  }

  /** Updating an id that is not stored answers 404 and creates nothing. */
  lemma UpdateMissing(store: Store, id: Id, input: C.TaskInput, freshId: Id)
    requires id !in store
    ensures Serve(store, [], Update(id, input), freshId, true) == (C.Response(404, C.ErrorBody(C.NotFound)), store)
  {
  }

  /**
   * Updating a stored id replaces that task wholesale with the body's fields
   * under the path id, echoes the replacement with 200, and touches nothing else.
   */
  lemma UpdateExisting(store: Store, id: Id, input: C.TaskInput, freshId: Id)
    requires id in store
    ensures var record := Task(id, input.title, input.description, input.dueDate);
            var (response, after) := Serve(store, [], Update(id, input), freshId, true);
            response == C.Response(200, C.TaskBody(record))
            && after.Keys == store.Keys && after[id] == record
            && forall k :: k in store && k != id ==> after[k] == store[k]
  {
  }

  /**
   * Creating with a fresh id answers 201 with the record built from the body
   * under that id, stores it, and the task is then listed on exactly one page
   * for any positive limit.
   */
  lemma CreateFresh(store: Store, input: C.TaskInput, freshId: Id, limit: int) returns (page: int)
    requires WellKeyed(store) && freshId !in store && limit >= 1
    ensures var record := Task(freshId, input.title, input.description, input.dueDate);
            var (response, after) := Serve(store, [], Create(input), freshId, true);
            response == C.Response(201, C.TaskBody(record))
            && after.Keys == store.Keys + {freshId} && after[freshId] == record
            && 1 <= page <= CeilDiv(|after|, limit)
            && record in Repo.PageTasks(after, page, limit)
            && (forall q :: q >= 1 && record in Repo.PageTasks(after, q, limit) ==> q == page)
            && multiset(Lex.SortedIds(after.Keys))[freshId] == 1
  {
    var record := Task(freshId, input.title, input.description, input.dueDate);
    var after := Serve(store, [], Create(input), freshId, true).1;
    Repo.WriteKeepsWellKeyed(store, freshId, record);
    page := Repo.PageOfId(after, limit, freshId);
    Repo.CreatedListedOnce(store, record);
  }

  /** A second create that happens to reuse a stored id is refused with 500 and writes nothing. */
  lemma CreateDuplicate(store: Store, input: C.TaskInput, freshId: Id)
    requires freshId in store
    ensures Serve(store, [], Create(input), freshId, true) == (C.Response(500, C.ErrorBody(C.CreateFailed)), store)
  {
  }

  /**
   * Listing with page and limit sent as decimal text, both at least 1: 200 with
   * that page of the ascending listing, the full count, the page number, and
   * `ceil(total / limit)` pages.
   */
  lemma ListPage(store: Store, page: int, limit: int, freshId: Id)
    requires page >= 1 && limit >= 1
    ensures var query := C.ListQuery(Some(Decimal(page)), Some(Decimal(limit)));
            Serve(store, [], List(query), freshId, true).0
            == C.Response(200, C.ListBody(Repo.PageTasks(store, page, limit), |store|, page, CeilDiv(|store|, limit)))
  {
    var query := C.ListQuery(Some(Decimal(page)), Some(Decimal(limit)));
    ParamOfDecimal(page, C.DefaultPage);
    ParamOfDecimal(limit, C.DefaultLimit);
    assert Route([], List(query), freshId) == C.Invoke(C.ListCall(page, limit));
    ListCallAnswer(store, page, limit);
  }

  /** The answer to a repository page call with page and limit at least 1. */
  lemma ListCallAnswer(store: Store, page: int, limit: int)
    requires page >= 1 && limit >= 1
    ensures Execute(store, C.ListCall(page, limit), true).0
            == C.Response(200, C.ListBody(Repo.PageTasks(store, page, limit), |store|, page, CeilDiv(|store|, limit)))
  {
    var skip := PageSkip(page, limit);
    assert Repo.GetTasks(store, page, limit) == Ok(Repo.ListWindow(store, skip, limit));
  }

  /**
   * Whether a list request fails is decided by the sign of the offset alone:
   * the parsed numbers are passed on unchecked, so a page below 1 with a
   * positive limit reaches the store and is refused there with 500.
   */
  lemma ListFailsOnNegativeSkip(store: Store, query: C.ListQuery, freshId: Id)
    ensures var page := ParamOr(query.page, C.DefaultPage);
            var limit := ParamOr(query.limit, C.DefaultLimit);
            var response := Serve(store, [], List(query), freshId, true).0;
            response.status == 500 <==> (page - 1) * limit < 0
  {
  }

  /** Listing an empty store: no tasks, a total of 0 and 0 pages, for any page and limit of at least 1. */
  lemma EmptyStoreListing(query: C.ListQuery, freshId: Id)
    requires ParamOr(query.page, C.DefaultPage) >= 1 && ParamOr(query.limit, C.DefaultLimit) >= 1
    ensures Serve(map[], [], List(query), freshId, true).0
            == C.Response(200, C.ListBody([], 0, ParamOr(query.page, C.DefaultPage), 0))
  {
    var page := ParamOr(query.page, C.DefaultPage);
    var limit := ParamOr(query.limit, C.DefaultLimit);
    assert (page - 1) * limit == PageSkip(page, limit);
    CeilDivPositive(0, limit);
  }

  /**
   * POST of a task to an empty store, then GET of page 1 with limit 10: 201
   * with the record under the generated id, then a listing holding just that
   * record with a total of 1.
   */
  lemma PostThenList(input: C.TaskInput, freshId: Id, otherId: Id)
    ensures var record := Task(freshId, input.title, input.description, input.dueDate);
            var (created, after) := Serve(map[], [], Create(input), freshId, true);
            var query := C.ListQuery(Some("1"), Some("10"));
            var (listed, _) := Serve(after, [], List(query), otherId, true);
            created == C.Response(201, C.TaskBody(record))
            && listed.status == 200 && listed.body.tasks == [record] && listed.body.total == 1
  {
    var record := Task(freshId, input.title, input.description, input.dueDate);
    var after := map[freshId := record];
    assert Serve(map[], [], Create(input), freshId, true) == (C.Response(201, C.TaskBody(record)), after);
    ListPage(after, 1, 10, otherId);
    assert Decimal(1) == "1" && Decimal(10) == "10";
    SingletonPage(record);
  }

  /** The first page of a store holding one task is that task. */
  lemma SingletonPage(record: Task)
    ensures Repo.PageTasks(map[record.id := record], 1, 10) == [record]
  {
    var store := map[record.id := record];
    var ts := Repo.PageTasks(store, 1, 10);
    assert |store| == 1;
    assert PageSkip(1, 10) == 0;
    assert |ts| == 1;
    assert Lex.SortedIds(store.Keys)[0] == record.id;
  }
}
