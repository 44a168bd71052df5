/**
 * The client and the API together: the client's page requests answered by
 * the service running over a store.
 */
module EndToEnd {
  import opened Base
  import opened Tasks
  import opened JsNum
  import Repo = TaskRepo
  import C = TaskController
  import Service
  import App
  import Lex

  /** What the client's HTTP library makes of a list response: the body on 2xx, a rejection otherwise. */
  function AsFetchReply(r: C.Response): (f: App.FetchReply)
    ensures f.Got? <==> 200 <= r.status < 300 && r.body.ListBody?
    ensures f.Got? ==> f.tasks == r.body.tasks && f.currentPage == r.body.currentPage && f.totalPages == r.body.totalPages
  {
    if 200 <= r.status < 300 && r.body.ListBody? then App.Got(r.body.tasks, r.body.currentPage, r.body.totalPages)
    else App.FetchFailed
  }

  /** The reply to the client's `GET /tasks?page=<page>&limit=10` from the service over `store`. */
  ghost function ServePage(store: Store, page: int): App.FetchReply {
    var query := C.ListQuery(Some(Decimal(page)), Some(Decimal(App.PageSize)));
    AsFetchReply(Service.Serve(store, [], Service.List(query), "", true).0)
  }

  /** What page `page` of the store looks like to the client. */
  lemma ServedPage(store: Store, page: int)
    requires page >= 1
    ensures ServePage(store, page) == App.Got(Repo.PageTasks(store, page, App.PageSize), page, CeilDiv(|store|, App.PageSize))
  {
    Service.ListPage(store, page, App.PageSize, "");
  }

  /** A page that starts at or past the end of the store is empty. */
  lemma PagePastEndIsEmpty(store: Store, page: int)
    requires page >= 1 && PageSkip(page, App.PageSize) >= |store|
    ensures Repo.PageTasks(store, page, App.PageSize) == []
  {
  }

  /** A page that starts before the end of the store is not empty. */
  lemma PageBeforeEndIsFilled(store: Store, page: int)
    requires page >= 1 && PageSkip(page, App.PageSize) < |store|
    ensures Repo.PageTasks(store, page, App.PageSize) != []
  {
  }

  /**
   * The self-healing fallback: when the client asks for a page just past the
   * last one (say, after deleting the only task on it), it sends exactly one
   * more request, for the page before, and ends up showing that page, which is
   * now the last.
   */
  lemma FallbackToLastPage(store: Store, s: App.ClientState, page: int)
    requires page >= 2
    requires (page - 2) * App.PageSize < |store| <= (page - 1) * App.PageSize
    ensures var r := App.Fetch(s, page, ServePage(store, page), ServePage(store, page - 1));
            r.requests == [App.GetPage(page, App.PageSize), App.GetPage(page - 1, App.PageSize)]
            && r.alerts == []
            && r.state.currentPage == page - 1 && r.state.totalPages == page - 1
            && r.state.tasks != []
  {
    ServedPage(store, page);
    ServedPage(store, page - 1);
    PagePastEndIsEmpty(store, page);
    PageBeforeEndIsFilled(store, page - 1);
    CeilDivUnique(|store|, App.PageSize, page - 1);
    assert App.NeedsFallback(page, ServePage(store, page));
  }

  /**
   * Eleven tasks, limit 10, the client on page 2 (which holds one task):
   * deleting that task answers 204, and the client's refetch of page 2 comes
   * back empty and falls back to page 1.
   */
  lemma DeleteOnlyTaskOfLastPage(store: Store, id: Id, s: App.ClientState)
    requires |store| == 11 && id in store && s.currentPage == 2
    ensures var (response, after) := Service.Serve(store, [], Service.Delete(id), "", true);
            var r := App.DeleteTask(s, id, App.Done, ServePage(after, 2), ServePage(after, 1));
            response == C.Response(204, C.NoBody)
            && r.requests == [App.DeleteById(id), App.GetPage(2, App.PageSize), App.GetPage(1, App.PageSize)]
            && r.state.currentPage == 1 && r.state.totalPages == 1
  {
    var after := store - {id};
    assert Service.Serve(store, [], Service.Delete(id), "", true) == (C.Response(204, C.NoBody), after);
    assert |after| == 10;
    FallbackToLastPage(after, s, 2);
    var f := App.Fetch(s, 2, ServePage(after, 2), ServePage(after, 1));
    assert App.DeleteTask(s, id, App.Done, ServePage(after, 2), ServePage(after, 1))
        == App.Step(f.state, [App.DeleteById(id)] + f.requests, f.alerts);
  }

  /** With nothing stored, the first page comes back empty with 0 pages and the pagination bar is hidden. */
  lemma EmptyStoreHidesPagination(s: App.ClientState, second: App.FetchReply)
    ensures var r := App.Fetch(s, 1, ServePage(map[], 1), second);
            r.state.tasks == [] && App.Pagination(r.state) == App.Hidden
  {
    ServedPage(map[], 1);
    CeilDivPositive(0, App.PageSize);
  }

  /**
   * The fetch on mount: from the initial state the client asks for page 1
   * once and shows exactly the first ten tasks in ascending `_id` order,
   * with the page count the server computed.
   */
  lemma MountShowsFirstPage(store: Store, second: App.FetchReply)
    requires WellKeyed(store)
    ensures var r := App.Fetch(App.Initial, 1, ServePage(store, 1), second);
            r.requests == [App.GetPage(1, App.PageSize)] && r.alerts == []
            && r.state.tasks == Repo.PageTasks(store, 1, App.PageSize)
            && r.state.currentPage == 1 && r.state.totalPages == CeilDiv(|store|, App.PageSize)
            && r.state.editId == None && !r.state.loading
  {
    ServedPage(store, 1);
    var ts := Repo.PageTasks(store, 1, App.PageSize);
    Repo.ListingAscending(store, PageSkip(1, App.PageSize), App.PageSize);
    assert DistinctIds(ts) by {
      forall i, j | 0 <= i < j < |ts|
        ensures ts[i].id != ts[j].id
      {
        assert Lex.Less(ts[i].id, ts[j].id);
      }
    }
    App.FetchShowsPage(App.Initial, 1, ServePage(store, 1), second);
  }
}
