/** The task record shared by the server and the client (common/types). */
module Tasks {

  type Id = string

  /**
   * A stored task. `id` is the `_id` primary key; `dueDate` is carried as the
   * opaque ISO-8601 text it travels as in JSON.
   */
  datatype Task = Task(id: Id, title: string, description: string, dueDate: string)

  /** What the repository's page query returns: one window of tasks plus the count of all tasks. */
  datatype Listing = Listing(tasks: seq<Task>, total: nat)

  /** The `tasks` collection, keyed by `_id`. */
  type Store = map<Id, Task>

  /** Why a repository promise rejects. */
  datatype Fault =
    | DuplicateKey(id: Id)    // insertOne of an `_id` that is already stored
    | NegativeSkip(skip: int) // find().skip(n) with n < 0
    | ImmutableId(id: Id)     // updateOne whose $set would change the matched `_id`
    | Unavailable             // the database cannot be reached

  /** Every document sits under its own `_id`. */
  ghost predicate WellKeyed(store: Store) {
    forall k :: k in store ==> store[k].id == k
  }

  /** No two tasks of the sequence share an `_id`. */
  ghost predicate DistinctIds(ts: seq<Task>) {
    forall i, j :: 0 <= i < j < |ts| ==> ts[i].id != ts[j].id
  }
}
