/**
 * The Mongo-backed task repository (MemMongoTaskRepo) over an abstract
 * collection: a map from `_id` to the stored task. Each operation returns the
 * collection afterwards instead of mutating it, and a storage rejection as an
 * `Err` (a rejected promise in the source).
 */
module TaskRepo {
  import opened Base
  import opened Tasks
  import opened Lex
  import JsNum

  /**
   * The documents a cursor yields after `.skip(skip).limit(limit)`: the longest
   * run starting at `skip` of at most `limit` items. A limit of 0 means no
   * limit; a negative limit `-n` returns at most `n` documents in one batch.
   * A single batch may stop short of `n`, so for a negative limit only the
   * upper bound is promised.
   */
  function Window<T>(xs: seq<T>, skip: nat, limit: int): (w: seq<T>)
    ensures |w| <= Max(0, |xs| - skip)
    ensures limit != 0 ==> |w| <= Abs(limit)
    ensures limit >= 0 && (limit == 0 || |w| < limit) ==> skip + |w| >= |xs|
    ensures forall i :: 0 <= i < |w| ==> skip + i < |xs| && w[i] == xs[skip + i]
  {
    if skip >= |xs| then []
    else if limit == 0 then xs[skip..]
    else xs[skip .. skip + Min(Abs(limit), |xs| - skip)]
  }

  /**
   * The listing a find cursor with `.skip(skip).limit(limit).sort({_id: 1})`
   * and a match-all count produce together.
   */
  ghost function ListWindow(store: Store, skip: nat, limit: int): (l: Listing)
    ensures l.total == |store|
    ensures limit != 0 ==> |l.tasks| <= Abs(limit)
    ensures forall i :: 0 <= i < |l.tasks| ==>
      skip + i < |store| && l.tasks[i] == store[SortedIds(store.Keys)[skip + i]]
    ensures limit >= 0 && (limit == 0 || |l.tasks| < limit) ==> skip + |l.tasks| >= |store|
  {
    var sorted := SortedIds(store.Keys);
    var ids := Window(sorted, skip, limit);
    assert forall i :: 0 <= i < |ids| ==> ids[i] == sorted[skip + i] && ids[i] in store;
    Listing(TasksAt(store, ids), |store|)
  }

  /**
   * `getTasks(page, limit)`: skip `(page - 1) * limit` documents in ascending
   * `_id` order, take at most `limit`, and count every document (the query
   * matches all). The collection is not changed. A negative skip is rejected
   * by the server.
   */
  ghost function GetTasks(store: Store, page: int, limit: int): (r: Result<Listing, Fault>)
    ensures r.Err? <==> (page - 1) * limit < 0
    ensures r.Ok? ==> r.value == ListWindow(store, (page - 1) * limit, limit)
  {
    var skip := (page - 1) * limit;
    if skip < 0 then Err(NegativeSkip(skip)) else Ok(ListWindow(store, skip, limit))
  }

  /** The stored tasks under the given ids, in the same order. */
  function TasksAt(store: Store, ids: seq<Id>): (ts: seq<Task>)
    requires forall i :: 0 <= i < |ids| ==> ids[i] in store
    ensures |ts| == |ids|
    ensures forall i :: 0 <= i < |ts| ==> ts[i] == store[ids[i]]
  {
    if ids == [] then [] else [store[ids[0]]] + TasksAt(store, ids[1..])
  }

  /** `createTask(task)`: `insertOne` under the task's own `_id`; `_id` is the primary key. */
  function CreateTask(store: Store, task: Task): (r: Result<Store, Fault>)
    ensures r.Ok? <==> task.id !in store
    ensures r.Err? ==> r.error == DuplicateKey(task.id)
    ensures r.Ok? ==> r.value.Keys == store.Keys + {task.id} && r.value[task.id] == task
    ensures r.Ok? ==> forall k :: k in store ==> r.value[k] == store[k]
  {
    if task.id in store then Err(DuplicateKey(task.id)) else Ok(store[task.id := task])
  }

  /**
   * `updateTask(id, task)`: `updateOne({_id: id}, {$set: task})`, reporting
   * whether a document matched. No upsert: when nothing matches the collection
   * is untouched. Setting every field replaces the document wholesale; a
   * `task` whose `_id` differs from the matched one is rejected, `_id` being immutable.
   */
  function UpdateTask(store: Store, id: Id, task: Task): (r: Result<(bool, Store), Fault>)
    ensures r.Err? <==> id in store && task.id != id
    ensures r.Ok? ==> (r.value.0 <==> id in store)
    ensures r.Ok? && !r.value.0 ==> r.value.1 == store
    ensures r.Ok? && r.value.0 ==> r.value.1.Keys == store.Keys && r.value.1[id] == task
    ensures r.Ok? ==> forall k :: k in store && k != id ==> r.value.1[k] == store[k]
  {
    if id !in store then Ok((false, store))
    else if task.id != id then Err(ImmutableId(id))
    else Ok((true, store[id := task]))
  }

  /** `deleteTask(id)`: `deleteOne({_id: id})`, reporting whether a document was removed. */
  function DeleteTask(store: Store, id: Id): (r: (bool, Store))
    ensures r.0 <==> id in store
    ensures r.1.Keys == store.Keys - {id}
    ensures forall k :: k in r.1 ==> r.1[k] == store[k]
  {
    (id in store, store - {id})
  }

  /** A second delete of the same id finds nothing and changes nothing. */
  lemma DeleteTwice(store: Store, id: Id)
    ensures !DeleteTask(DeleteTask(store, id).1, id).0
    ensures DeleteTask(DeleteTask(store, id).1, id).1 == DeleteTask(store, id).1
  {
  }

  /** Every operation keeps each document under its own `_id`. */
  lemma WriteKeepsWellKeyed(store: Store, id: Id, task: Task)
    requires WellKeyed(store)
    ensures CreateTask(store, task).Ok? ==> WellKeyed(CreateTask(store, task).value)
    ensures UpdateTask(store, id, task).Ok? ==> WellKeyed(UpdateTask(store, id, task).value.1)
    ensures WellKeyed(DeleteTask(store, id).1)
  {
  }

  /** The tasks of one page, for page numbers and limits of at least 1. */
  ghost function PageTasks(store: Store, page: int, limit: int): (ts: seq<Task>)
    requires page >= 1 && limit >= 1
    ensures |ts| <= limit
  {
    ListWindow(store, JsNum.PageSkip(page, limit), limit).tasks
  }

  /** A listed window is in ascending `_id` order and holds only stored tasks. */
  lemma ListingAscending(store: Store, skip: nat, limit: int)
    requires WellKeyed(store)
    ensures var ts := ListWindow(store, skip, limit).tasks;
            (forall i :: 0 <= i < |ts| ==> ts[i].id in store && store[ts[i].id] == ts[i])
            && (forall i, j :: 0 <= i < j < |ts| ==> Less(ts[i].id, ts[j].id))
  {
    var ts := ListWindow(store, skip, limit).tasks;
    var ids := SortedIds(store.Keys);
    forall i, j | 0 <= i < j < |ts|
      ensures Less(ts[i].id, ts[j].id)
    {
      assert ts[i] == store[ids[skip + i]] && ts[j] == store[ids[skip + j]];
    }
  }

  /**
   * The task at ascending position `k` is listed by the window starting at
   * `skip` exactly when `k` lies in `[skip, skip + limit)`.
   */
  lemma WindowHolds(store: Store, skip: nat, limit: int, k: nat)
    requires WellKeyed(store) && limit >= 1 && k < |store|
    ensures var id := SortedIds(store.Keys)[k];
            store[id] in ListWindow(store, skip, limit).tasks <==> skip <= k < skip + limit
  {
    var ids := SortedIds(store.Keys);
    var ts := ListWindow(store, skip, limit).tasks;
    if skip <= k < skip + limit {
      assert ts[k - skip] == store[ids[k]];
    }
    if store[ids[k]] in ts {
      var j :| 0 <= j < |ts| && ts[j] == store[ids[k]];
      SortedInjective(ids, skip + j, k);
    }
  }

  /** The ascending position of a stored `_id`. */
  lemma PositionOf(store: Store, id: Id) returns (k: nat)
    requires id in store
    ensures k < |store| && SortedIds(store.Keys)[k] == id
  {
    var ids := SortedIds(store.Keys);
    k :| 0 <= k < |ids| && ids[k] == id;
  }

  /**
   * With a positive limit, every stored task is listed on exactly one page,
   * and that page is among the first `ceil(total / limit)`.
   */
  lemma PageOfId(store: Store, limit: int, id: Id) returns (p: int)
    requires WellKeyed(store) && limit >= 1 && id in store
    ensures 1 <= p <= JsNum.CeilDiv(|store|, limit)
    ensures store[id] in PageTasks(store, p, limit)
    ensures forall q :: q >= 1 && store[id] in PageTasks(store, q, limit) ==> q == p
  {
    var k := PositionOf(store, id);
    JsNum.PageCovers(k, limit);
    p := k / limit + 1;
    WindowHolds(store, JsNum.PageSkip(p, limit), limit, k);
    JsNum.PageWithinCount(k, |store|, limit);
    forall q | q >= 1 && store[id] in PageTasks(store, q, limit)
      ensures q == p
    {
      OnlyPage(store, limit, k, q);
    }
  }

  /** Position `k` is listed on page `q` only if `q` is the page covering it. */
  lemma OnlyPage(store: Store, limit: int, k: nat, q: int)
    requires WellKeyed(store) && limit >= 1 && k < |store| && q >= 1
    requires store[SortedIds(store.Keys)[k]] in PageTasks(store, q, limit)
    ensures q == k / limit + 1
  {
    WindowHolds(store, JsNum.PageSkip(q, limit), limit, k);
    JsNum.SkipCovers(k, limit, q);
  }

  lemma {:induction false} StrictlySortedOnce(xs: seq<string>, x: string)
    requires StrictlySorted(xs) && x in xs
    ensures multiset(xs)[x] == 1
    decreases |xs|
  {
    assert xs == [xs[0]] + xs[1..];
    if x == xs[0] {
      assert x !in xs[1..] by {
        forall j | 1 <= j < |xs|
          ensures xs[j] != x
        {
          assert Less(xs[0], xs[j]);
        }
      }
    } else {
      StrictlySortedOnce(xs[1..], x);
    }
  }

  /** A created task appears exactly once in the full ascending listing, and the count grows by one. */
  lemma CreatedListedOnce(store: Store, task: Task)
    requires CreateTask(store, task).Ok?
    ensures var after := CreateTask(store, task).value;
            multiset(SortedIds(after.Keys))[task.id] == 1 && |after| == |store| + 1
  {
    var after := CreateTask(store, task).value;
    StrictlySortedOnce(SortedIds(after.Keys), task.id);
  }
}
