/**
 * The single-page client (App): its view-model and the handlers that change
 * it. Each server round trip is a parameter (the reply the request got); a
 * handler returns the state afterwards, the requests it sent in order, and the
 * alerts it raised.
 */
module App {
  import opened Base
  import opened Tasks
  import opened TaskMap

  /** Every piece of component state the handlers read or write. */
  datatype ClientState = ClientState(
    tasks: seq<Task>,              // the current page as a Map, in insertion order
    newTitle: string,
    newDescription: string,
    newDueDate: Option<string>,
    editId: Option<Id>,            // the task being edited, if any
    editTitle: string,
    editDescription: string,
    editDueDate: Option<string>,
    loading: bool,
    currentPage: int,
    totalPages: int)

  /** The state before the first fetch. */
  const Initial: ClientState := ClientState([], "", "", None, None, "", "", None, false, 1, 1)

  /** Every page request asks for this many tasks. */
  const PageSize: int := 10

  /** A request the client sends; paths carry the id as text. */
  datatype HttpCall =
    | GetPage(page: int, limit: int)
    | PostTask(title: string, description: string, dueDate: string)
    | PutTask(path: string, title: string, description: string, dueDate: string)
    | DeleteById(path: string)

  /** How a page request ended: the list body, or a rejection of any kind. */
  datatype FetchReply = Got(tasks: seq<Task>, currentPage: int, totalPages: int) | FetchFailed

  /** How a write request ended: success, or a rejection with the response's status and `error` field if any. */
  datatype WriteReply = Done | Refused(status: Option<int>, error: Option<string>)

  datatype Step = Step(state: ClientState, requests: seq<HttpCall>, alerts: seq<string>)

  const FetchAlert: string := "Failed to fetch tasks."
  const TitleAlert: string := "Please enter a title."
  const DueDateAlert: string := "Please select a due date."
  const NotFoundAlert: string := "Task not found."

  /** JavaScript falsiness of a due-date value: null, or an empty string. */
  predicate Falsy(d: Option<string>) {
    d == None || d == Some("")
  }

  /** `error.response?.data?.error || fallback`. */
  function AlertText(error: Option<string>, fallback: string): (t: string)
    ensures t == fallback || Some(t) == error
    ensures error.Some? && error.value != "" ==> t == error.value
    ensures error.None? || error.value == "" ==> t == fallback
  {
    if error.Some? && error.value != "" then error.value else fallback
  }

  /** True when the first reply is an empty page past the first: the case that triggers the refetch. */
  predicate NeedsFallback(page: int, first: FetchReply) {
    first.Got? && first.tasks == [] && page > 1
  }

  /** Everything except the fetched fields is left as it was. */
  predicate SameForm(s: ClientState, t: ClientState) {
    && t.newTitle == s.newTitle && t.newDescription == s.newDescription && t.newDueDate == s.newDueDate
    && t.editId == s.editId && t.editTitle == s.editTitle
    && t.editDescription == s.editDescription && t.editDueDate == s.editDueDate
  }

  /** Installs a fetched page: the tasks replaced wholesale, the page numbers taken from the reply. */
  function Apply(s: ClientState, reply: FetchReply): ClientState
    requires reply.Got?
  {
    s.(tasks := FromEntries(reply.tasks), currentPage := reply.currentPage,
       totalPages := reply.totalPages, loading := false)
  }

  /**
   * `fetchTasks(page)`: request `page`; if that page came back empty and is
   * past the first, request `page - 1` once, with no further fallback, and
   * use that reply instead. A failure alerts and leaves the list and page
   * numbers as they were.
   */
  function Fetch(s: ClientState, page: int, first: FetchReply, second: FetchReply): (r: Step)
    ensures DistinctIds(s.tasks) ==> DistinctIds(r.state.tasks)
    ensures NeedsFallback(page, first) ==> r.requests == [GetPage(page, PageSize), GetPage(page - 1, PageSize)]
    ensures !NeedsFallback(page, first) ==> r.requests == [GetPage(page, PageSize)]
    ensures var used := if NeedsFallback(page, first) then second else first;
            (used.Got? ==> r.state == Apply(s, used) && r.alerts == [])
            && (used.FetchFailed? ==> r.state == s.(loading := false) && r.alerts == [FetchAlert])
    ensures SameForm(s, r.state) && !r.state.loading
  {
    var used := if NeedsFallback(page, first) then second else first;
    var requests := if NeedsFallback(page, first) then [GetPage(page, PageSize), GetPage(page - 1, PageSize)]
                    else [GetPage(page, PageSize)];
    match used
    case FetchFailed => Step(s.(loading := false), requests, [FetchAlert])
    case Got(_, _, _) => Step(Apply(s, used), requests, [])
  }

  /** "Next": fetch the following page only when the current one is not the last. */
  function NextPage(s: ClientState, first: FetchReply, second: FetchReply): (r: Step)
    ensures DistinctIds(s.tasks) ==> DistinctIds(r.state.tasks)
    ensures s.currentPage < s.totalPages ==> |r.requests| >= 1 && r.requests[0] == GetPage(s.currentPage + 1, PageSize)
    ensures s.currentPage < s.totalPages ==> r == Fetch(s, s.currentPage + 1, first, second)
    ensures s.currentPage >= s.totalPages ==> r == Step(s, [], [])
  {
    if s.currentPage < s.totalPages then Fetch(s, s.currentPage + 1, first, second)
    else Step(s, [], [])
  }

  /** "Previous": fetch the preceding page only when the current one is not the first. */
  function PrevPage(s: ClientState, first: FetchReply, second: FetchReply): (r: Step)
    ensures DistinctIds(s.tasks) ==> DistinctIds(r.state.tasks)
    ensures s.currentPage > 1 ==> |r.requests| >= 1 && r.requests[0] == GetPage(s.currentPage - 1, PageSize)
    ensures s.currentPage > 1 ==> r == Fetch(s, s.currentPage - 1, first, second)
    ensures s.currentPage <= 1 ==> r == Step(s, [], [])
  {
    if s.currentPage > 1 then Fetch(s, s.currentPage - 1, first, second)
    else Step(s, [], [])
  }

  /**
   * "Add Task": refuse locally without a title or a due date; otherwise POST
   * the form, and on success clear it and refetch the current page; on
   * failure alert with the server's message or a fixed one.
   */
  function AddTask(s: ClientState, post: WriteReply, first: FetchReply, second: FetchReply): (r: Step)
    ensures DistinctIds(s.tasks) ==> DistinctIds(r.state.tasks)
    ensures s.newTitle == "" ==> r == Step(s, [], [TitleAlert])
    ensures s.newTitle != "" && Falsy(s.newDueDate) ==> r == Step(s, [], [DueDateAlert])
    ensures s.newTitle != "" && !Falsy(s.newDueDate) ==>
      |r.requests| >= 1 && r.requests[0] == PostTask(s.newTitle, s.newDescription, s.newDueDate.value)
    ensures s.newTitle != "" && !Falsy(s.newDueDate) && post.Done? ==>
      r.state.newTitle == "" && r.state.newDescription == "" && r.state.newDueDate == None
      && |r.requests| >= 2 && r.requests[1] == GetPage(s.currentPage, PageSize)
    ensures s.newTitle != "" && !Falsy(s.newDueDate) && post.Done? ==>
      var f := Fetch(s.(newTitle := "", newDescription := "", newDueDate := None), s.currentPage, first, second);
      r == Step(f.state, [PostTask(s.newTitle, s.newDescription, s.newDueDate.value)] + f.requests, f.alerts)
    ensures s.newTitle != "" && !Falsy(s.newDueDate) && post.Refused? ==>
      r.state == s && |r.requests| == 1 && r.alerts == [AlertText(post.error, "Failed to add task.")]
  {
    if s.newTitle == "" then Step(s, [], [TitleAlert])
    else if Falsy(s.newDueDate) then Step(s, [], [DueDateAlert])
    else
      var request := PostTask(s.newTitle, s.newDescription, s.newDueDate.value);
      match post
      case Refused(_, error) => Step(s, [request], [AlertText(error, "Failed to add task.")])
      case Done =>
        var cleared := s.(newTitle := "", newDescription := "", newDueDate := None);
        var fetched := Fetch(cleared, cleared.currentPage, first, second);
        Step(fetched.state, [request] + fetched.requests, fetched.alerts)
  }

  /**
   * "Delete": send the DELETE; on success refetch the current page. A failed
   * delete is not caught: no refetch, no alert, no state change.
   */
  function DeleteTask(s: ClientState, id: Id, reply: WriteReply, first: FetchReply, second: FetchReply): (r: Step)
    ensures DistinctIds(s.tasks) ==> DistinctIds(r.state.tasks)
    ensures |r.requests| >= 1 && r.requests[0] == DeleteById(id)
    ensures reply.Refused? ==> r == Step(s, [DeleteById(id)], [])
    ensures reply.Done? ==> |r.requests| >= 2 && r.requests[1] == GetPage(s.currentPage, PageSize) && SameForm(s, r.state)
    ensures reply.Done? ==>
      var f := Fetch(s, s.currentPage, first, second);
      r == Step(f.state, [DeleteById(id)] + f.requests, f.alerts)
  {
    match reply
    case Refused(_, _) => Step(s, [DeleteById(id)], [])
    case Done =>
      var fetched := Fetch(s, s.currentPage, first, second);
      Step(fetched.state, [DeleteById(id)] + fetched.requests, fetched.alerts)
  }

  /** "Edit": load a task into the edit buffer; an empty `_id` counts as no id. */
  function StartEdit(s: ClientState, item: Task): (r: ClientState)
    ensures r.editId == (if item.id == "" then None else Some(item.id))
    ensures r.editTitle == item.title && r.editDescription == item.description
    ensures r.editDueDate == Some(item.dueDate)
    ensures r.tasks == s.tasks && r.currentPage == s.currentPage && r.totalPages == s.totalPages
    ensures r.newTitle == s.newTitle && r.newDescription == s.newDescription && r.newDueDate == s.newDueDate
    ensures r.loading == s.loading
  {
    s.(editId := if item.id == "" then None else Some(item.id), editTitle := item.title,
       editDescription := item.description, editDueDate := Some(item.dueDate))
  }

  /** "Cancel": empty the edit buffer; nothing else changes. */
  function CancelEdit(s: ClientState): (r: ClientState)
    ensures r.editId == None && r.editTitle == "" && r.editDescription == "" && r.editDueDate == None
    ensures r.tasks == s.tasks && r.currentPage == s.currentPage && r.totalPages == s.totalPages
    ensures r.newTitle == s.newTitle && r.newDescription == s.newDescription && r.newDueDate == s.newDueDate
    ensures r.loading == s.loading
  {
    s.(editId := None, editTitle := "", editDescription := "", editDueDate := None)
  }

  /** The path segment of a PUT: the edited id, or "null" when there is none. */
  function EditPath(editId: Option<Id>): string {
    match editId
    case Some(id) => id
    case None => "null"
  }

  /** Drops the edited task from the list, if there is an edited task. */
  function EvictEdited(tasks: seq<Task>, editId: Option<Id>): (r: seq<Task>)
    ensures DistinctIds(tasks) ==> DistinctIds(r)
  {
    match editId
    case Some(id) => EvictKeepsDistinct(tasks, id); Evict(tasks, id)
    case None => tasks
  }

  /**
   * "Update": refuse locally without a title or a due date; otherwise PUT the
   * buffer. Success leaves edit mode and refetches the current page. A 404
   * evicts the edited task from the list, alerting that it was not found;
   * any other failure only alerts.
   */
  function UpdateTask(s: ClientState, put: WriteReply, first: FetchReply, second: FetchReply): (r: Step)
    ensures DistinctIds(s.tasks) ==> DistinctIds(r.state.tasks)
    ensures s.editTitle == "" ==> r == Step(s, [], [TitleAlert])
    ensures s.editTitle != "" && Falsy(s.editDueDate) ==> r == Step(s, [], [DueDateAlert])
    ensures s.editTitle != "" && !Falsy(s.editDueDate) ==>
      |r.requests| >= 1
      && r.requests[0] == PutTask(EditPath(s.editId), s.editTitle, s.editDescription, s.editDueDate.value)
    ensures s.editTitle != "" && !Falsy(s.editDueDate) && put.Done? ==>
      r.state.editId == None && |r.requests| >= 2 && r.requests[1] == GetPage(s.currentPage, PageSize)
    ensures s.editTitle != "" && !Falsy(s.editDueDate) && put.Done? ==>
      var f := Fetch(s.(editId := None), s.currentPage, first, second);
      r == Step(f.state, [PutTask(EditPath(s.editId), s.editTitle, s.editDescription, s.editDueDate.value)] + f.requests, f.alerts)
    ensures s.editTitle != "" && !Falsy(s.editDueDate) && put.Refused? && put.status == Some(404) ==>
      r.state == s.(tasks := EvictEdited(s.tasks, s.editId)) && r.alerts == [NotFoundAlert] && |r.requests| == 1
    ensures s.editTitle != "" && !Falsy(s.editDueDate) && put.Refused? && put.status != Some(404) ==>
      r.state == s && |r.requests| == 1 && r.alerts == [AlertText(put.error, "Failed to update task.")]
  {
    if s.editTitle == "" then Step(s, [], [TitleAlert])
    else if Falsy(s.editDueDate) then Step(s, [], [DueDateAlert])
    else
      var request := PutTask(EditPath(s.editId), s.editTitle, s.editDescription, s.editDueDate.value);
      match put
      case Refused(status, error) =>
        if status == Some(404) then Step(s.(tasks := EvictEdited(s.tasks, s.editId)), [request], [NotFoundAlert])
        else Step(s, [request], [AlertText(error, "Failed to update task.")])
      case Done =>
        var left := s.(editId := None);
        var fetched := Fetch(left, left.currentPage, first, second);
        Step(fetched.state, [request] + fetched.requests, fetched.alerts)
  }

  /** The pagination bar: absent, or the two buttons with their disabled flags. */
  datatype Pager = Hidden | Shown(prevDisabled: bool, nextDisabled: bool)

  /** The pagination bar renders only when there is at least one page. */
  function Pagination(s: ClientState): (p: Pager)
    ensures p.Shown? <==> s.totalPages > 0
    ensures p.Shown? ==> (p.prevDisabled <==> s.loading || s.currentPage == 1)
    ensures p.Shown? ==> (p.nextDisabled <==> s.loading || s.currentPage == s.totalPages)
  {
    if s.totalPages > 0 then Shown(s.loading || s.currentPage == 1, s.loading || s.currentPage == s.totalPages)
    else Hidden
  }

  /**
   * A 404 on update removes exactly the edited task's entry, leaving every
   * other entry in its order.
   */
  lemma NotFoundEvictsOne(s: ClientState, error: Option<string>, first: FetchReply, second: FetchReply, i: nat)
    requires DistinctIds(s.tasks) && i < |s.tasks| && s.editId == Some(s.tasks[i].id)
    requires s.editTitle != "" && !Falsy(s.editDueDate)
    ensures UpdateTask(s, Refused(Some(404), error), first, second).state.tasks == s.tasks[..i] + s.tasks[i + 1..]
  {
    EvictOne(s.tasks, s.tasks[i].id, i);
  }

  /** A successful fetch of a page without duplicate ids shows exactly that page, in server order. */
  lemma FetchShowsPage(s: ClientState, page: int, first: FetchReply, second: FetchReply)
    requires !NeedsFallback(page, first) && first.Got? && DistinctIds(first.tasks)
    ensures var t := Fetch(s, page, first, second).state;
            t.tasks == first.tasks && t.currentPage == first.currentPage && t.totalPages == first.totalPages
  {
    FromDistinctEntries(first.tasks);
  }
}
