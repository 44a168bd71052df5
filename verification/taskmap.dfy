/**
 * The client's `Map<string, Task>`, kept as its entries in insertion order
 * (the order a JavaScript Map iterates in), each keyed by the task's `_id`.
 */
module TaskMap {
  import opened Base
  import opened Tasks

  /** `map.get(id)`. */
  function Lookup(m: seq<Task>, id: Id): (r: Option<Task>)
    ensures r.None? <==> forall i :: 0 <= i < |m| ==> m[i].id != id
    ensures r.Some? ==> r.value in m && r.value.id == id
  {
    if m == [] then None
    else if m[0].id == id then Some(m[0])
    else Lookup(m[1..], id)
  }

  /**
   * `map.set(task._id, task)`: an existing key keeps its position and takes
   * the new value; a new key goes last.
   */
  function Put(m: seq<Task>, t: Task): (r: seq<Task>)
    ensures Lookup(r, t.id) == Some(t)
    ensures forall k :: k != t.id ==> Lookup(r, k) == Lookup(m, k)
    ensures Lookup(m, t.id).None? ==> r == m + [t]
    ensures DistinctIds(m) && Lookup(m, t.id).Some? ==>
      |r| == |m| && forall i :: 0 <= i < |m| ==> r[i] == (if m[i].id == t.id then t else m[i])
  {
    if m == [] then [t]
    else if m[0].id == t.id then [t] + m[1..]
    else [m[0]] + Put(m[1..], t)
  }

  /** Setting a key never creates a second entry for it. */
  lemma {:induction false} PutKeepsDistinct(m: seq<Task>, t: Task)
    requires DistinctIds(m)
    ensures DistinctIds(Put(m, t))
  {
    if m != [] && m[0].id != t.id {
      var tail := m[1..];
      var rest := Put(tail, t);
      PutKeepsDistinct(tail, t);
      assert Lookup(tail, m[0].id).None?;
      assert Lookup(rest, m[0].id).None?;
      var r := [m[0]] + rest;
      assert Put(m, t) == r;
      forall i, j | 0 <= i < j < |r|
        ensures r[i].id != r[j].id
      {
        if i == 0 {
          assert r[j] == rest[j - 1];
        } else {
          assert r[i] == rest[i - 1] && r[j] == rest[j - 1];
        }
      }
    } else if m != [] {
      var r := [t] + m[1..];
      assert Put(m, t) == r;
      forall i, j | 0 <= i < j < |r|
        ensures r[i].id != r[j].id
      {
        if i == 0 {
          assert r[j] == m[j];
        } else {
          assert r[i] == m[i] && r[j] == m[j];
        }
      }
    }
  }

  /** The last of the entries with id `k`: the one a Map built from them keeps. */
  function LastWith(ts: seq<Task>, k: Id): (r: Option<Task>)
    ensures r.None? <==> forall i :: 0 <= i < |ts| ==> ts[i].id != k
    ensures r.Some? ==> r.value.id == k && r.value in ts
    ensures r.Some? ==>
      exists i :: 0 <= i < |ts| && ts[i] == r.value && forall j :: i < j < |ts| ==> ts[j].id != k
  {
    if ts == [] then None
    else if ts[|ts| - 1].id == k then Some(ts[|ts| - 1])
    else LastWith(ts[..|ts| - 1], k)
  }

  /**
   * `new Map(ts.map(t => [t._id, t]))`: no duplicate keys; each key maps to
   * the last entry carrying it.
   */
  function FromEntries(ts: seq<Task>): (m: seq<Task>)
    ensures DistinctIds(m)
    ensures forall k :: Lookup(m, k) == LastWith(ts, k)
  {
    if ts == [] then []
    else
      var init := FromEntries(ts[..|ts| - 1]);
      PutKeepsDistinct(init, ts[|ts| - 1]);
      Put(init, ts[|ts| - 1])
  }

  lemma InitLast(ts: seq<Task>)
    requires ts != []
    ensures ts[..|ts| - 1] + [ts[|ts| - 1]] == ts
  {
  }

  /** Entries with distinct ids become the map's entries in the same order. */
  lemma {:induction false} FromDistinctEntries(ts: seq<Task>)
    requires DistinctIds(ts)
    ensures FromEntries(ts) == ts
  {
    if ts != [] {
      var init := ts[..|ts| - 1];
      var last := ts[|ts| - 1];
      assert DistinctIds(init);
      FromDistinctEntries(init);
      assert forall i :: 0 <= i < |init| ==> init[i].id != last.id;
      assert Lookup(init, last.id).None?;
      assert FromEntries(ts) == Put(init, last) == init + [last];
      InitLast(ts);
    }
  }

  /** `map.delete(id)`: drops the entry for `id`, keeping every other in order. */
  function Evict(m: seq<Task>, id: Id): (r: seq<Task>)
    ensures Lookup(r, id).None?
    ensures forall k :: k != id ==> Lookup(r, k) == Lookup(m, k)
    ensures forall i :: 0 <= i < |r| ==> r[i] in m
    ensures Lookup(m, id).None? ==> r == m
  {
    if m == [] then []
    else if m[0].id == id then Evict(m[1..], id)
    else [m[0]] + Evict(m[1..], id)
  }

  /** Deleting a key never duplicates another. */
  lemma {:induction false} EvictKeepsDistinct(m: seq<Task>, id: Id)
    ensures DistinctIds(m) ==> DistinctIds(Evict(m, id))
  {
    if m != [] && DistinctIds(m) {
      var tail := m[1..];
      var rest := Evict(tail, id);
      EvictKeepsDistinct(tail, id);
      if m[0].id != id {
        assert Lookup(tail, m[0].id).None?;
        assert Lookup(rest, m[0].id).None?;
        assert Evict(m, id) == [m[0]] + rest;
      }
    }
  }

  lemma Reassemble(m: seq<Task>, i: nat)
    requires 0 < i < |m|
    ensures [m[0]] + (m[1..][..i - 1] + m[1..][i..]) == m[..i] + m[i + 1..]
  {
    assert m[1..][..i - 1] == m[1..i] && m[1..][i..] == m[i + 1..];
    assert m[..i] == [m[0]] + m[1..i];
  }

  /** Evicting a present id removes exactly its one entry and leaves the rest in order. */
  lemma {:induction false} EvictOne(m: seq<Task>, id: Id, i: nat)
    requires DistinctIds(m) && i < |m| && m[i].id == id
    ensures Evict(m, id) == m[..i] + m[i + 1..]
    decreases i
  {
    if i == 0 {
      assert Lookup(m[1..], id).None?;
    } else {
      var tail := m[1..];
      assert m[0].id != id;
      assert DistinctIds(tail);
      EvictOne(tail, id, i - 1);
      assert Evict(m, id) == [m[0]] + Evict(tail, id);
      Reassemble(m, i);
    }
  }
}
