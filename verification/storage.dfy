/** The task store the manager delegates to: tasks keyed by id, plus the
    order in which they were added, which is the order every listing uses.
    The store's own persistence is not modelled. */
module Storage {
  import opened Wrappers
  import opened Tasks
  import opened Environment

  datatype Store = Store(tasks: map<string, Task>, order: seq<string>)

  predicate Distinct(ids: seq<string>) {
    forall i, j :: 0 <= i < j < |ids| ==> ids[i] != ids[j]
  }

  /** The order lists every stored id exactly once and nothing else, and
      each task is filed under its own id. */
  ghost predicate Valid(s: Store) {
    && Distinct(s.order)
    && (forall id :: id in s.order <==> id in s.tasks)
    && (forall id :: id in s.tasks ==> s.tasks[id].id == id)
  }

  /** A distinct sequence has as many elements as its set of elements. */
  lemma {:induction false} DistinctCardinality(ids: seq<string>)
    requires Distinct(ids)
    ensures |set id | id in ids| == |ids|
    decreases |ids|
  {
    if ids != [] {
      var rest := ids[1..];
      assert Distinct(rest) by {
        forall i, j | 0 <= i < j < |rest| ensures rest[i] != rest[j] {
          assert rest[i] == ids[i + 1] && rest[j] == ids[j + 1];
        }
      }
      DistinctCardinality(rest);
      assert ids[0] !in rest by {
        forall k | 0 <= k < |rest| ensures rest[k] != ids[0] {
          assert rest[k] == ids[k + 1];
        }
      }
      assert (set id | id in ids) == (set id | id in rest) + {ids[0]} by {
        assert ids == [ids[0]] + rest;
      }
    }
  }

  /** In a valid store the listing order has one entry per stored task. */
  lemma OrderMatchesSize(s: Store)
    requires Valid(s)
    ensures |s.order| == |s.tasks|
  {
    DistinctCardinality(s.order);
    assert s.tasks.Keys == set id | id in s.order;
  }

  /** TaskStorage.getAllTasks: every stored task once, in insertion order. */
  function AllTasks(s: Store): (ts: seq<Task>)
    requires Valid(s)
    ensures |ts| == |s.order|
    ensures forall i :: 0 <= i < |ts| ==> ts[i].id == s.order[i] && ts[i] == s.tasks[s.order[i]]
    ensures forall t :: t in ts <==> t in s.tasks.Values
  {
    var ts := seq(|s.order|, i requires 0 <= i < |s.order| => s.tasks[s.order[i]]);
    assert forall t :: t in s.tasks.Values ==> t in ts by {
      forall t | t in s.tasks.Values ensures t in ts {
        var id :| id in s.tasks && s.tasks[id] == t;
        var k :| 0 <= k < |s.order| && s.order[k] == id;
        assert ts[k] == t;
      }
    }
    ts
  }

  /** TaskStorage.getTask: the task filed under an id, or null. */
  function Get(s: Store, id: string): (r: Option<Task>)
    requires Valid(s)
    ensures r.Some? <==> id in s.tasks
    ensures r.Some? ==> r.value.id == id && r.value in s.tasks.Values
  {
    if id in s.tasks then Some(s.tasks[id]) else None
  }

  /** TaskStorage.addTask for a task whose id is not yet in use: it is filed
      under its id and listed last. */
  function Add(s: Store, t: Task): (r: Store)
    requires Valid(s)
    requires t.id !in s.tasks
    ensures Valid(r)
    ensures r.tasks.Keys == s.tasks.Keys + {t.id}
    ensures r.order == s.order + [t.id] && r.tasks[t.id] == t
    ensures forall id :: id in s.tasks ==> r.tasks[id] == s.tasks[id]
  {
    Store(s.tasks[t.id := t], s.order + [t.id])
  }

  /** Replaces the stored task under an id that is already present, keeping
      the listing order; every mutation of a single task goes through here. */
  function Put(s: Store, t: Task): (r: Store)
    requires Valid(s)
    requires t.id in s.tasks
    ensures Valid(r)
    ensures r.order == s.order && r.tasks.Keys == s.tasks.Keys
    ensures r.tasks[t.id] == t
    ensures forall id :: id in s.tasks && id != t.id ==> r.tasks[id] == s.tasks[id]
  {
    Store(s.tasks[t.id := t], s.order)
  }

  /** The one field a partial update sets. */
  datatype Patch = SetPriority(priority: Priority) | SetDueDate(dueDate: Instant) | SetStatus(status: Status)

  function PatchedField(p: Patch): Field {
    match p
    case SetPriority(_) => PriorityField
    case SetDueDate(_) => DueDateField
    case SetStatus(_) => StatusField
  }

  /** The merge TaskStorage.updateTask is ASSUMED to perform: the one field
      the caller set in the update object overwrites the stored field, and
      nothing else changes. Neither the update object's title is copied (a
      placeholder for the priority and due-date updates, the task's own
      title in the sweep) nor its default priority and status. */
  function Merge(t: Task, p: Patch): (r: Task)
    ensures SameOutside(t, r, {PatchedField(p)})
    ensures p.SetPriority? ==> r.priority == p.priority
    ensures p.SetDueDate? ==> r.dueDate == Some(p.dueDate)
    ensures p.SetStatus? ==> r.status == p.status
  {
    match p
    case SetPriority(q) => t.(priority := q)
    case SetDueDate(d) => t.(dueDate := Some(d))
    case SetStatus(st) => t.(status := st)
  }

  /** TaskStorage.updateTask: merges the patch into the task under the id;
      false, and no change, when the id is unknown. */
  function Update(s: Store, id: string, p: Patch): (r: (bool, Store))
    requires Valid(s)
    ensures Valid(r.1)
    ensures r.0 <==> id in s.tasks
    ensures !r.0 ==> r.1 == s
    ensures r.0 ==> r.1 == Put(s, Merge(s.tasks[id], p))
  {
    if id in s.tasks then (true, Put(s, Merge(s.tasks[id], p))) else (false, s)
  }

  /** The sequence with every occurrence of one id taken out, the rest kept
      in their order. */
  function Without(ids: seq<string>, id: string): (r: seq<string>)
    ensures forall x :: x in r <==> x in ids && x != id
    ensures Distinct(ids) ==> Distinct(r)
    ensures |r| <= |ids|
    ensures id !in ids ==> r == ids
  {
    if ids == [] then []
    else if ids[0] == id then Without(ids[1..], id)
    else
      var rest := Without(ids[1..], id);
      assert Distinct(ids) ==> Distinct(ids[1..]) && ids[0] !in ids[1..] by {
        if Distinct(ids) {
          forall k | 0 <= k < |ids| - 1 ensures ids[1..][k] == ids[k + 1] { }
        }
      }
      assert ids == [ids[0]] + ids[1..];
      [ids[0]] + rest
  }

  /** In a sequence without repeats, taking out the id at position k closes
      the gap and keeps everything else in order. */
  lemma {:induction false} WithoutAt(ids: seq<string>, id: string, k: nat)
    requires Distinct(ids) && k < |ids| && ids[k] == id
    ensures Without(ids, id) == ids[..k] + ids[k + 1..]
    decreases |ids|
  {
    assert ids == [ids[0]] + ids[1..];
    assert Distinct(ids[1..]) by {
      forall i, j | 0 <= i < j < |ids| - 1 ensures ids[1..][i] != ids[1..][j] {
        assert ids[1..][i] == ids[i + 1] && ids[1..][j] == ids[j + 1];
      }
    }
    if k == 0 {
      assert id !in ids[1..] by {
        forall i | 0 <= i < |ids| - 1 ensures ids[1..][i] != id {
          assert ids[1..][i] == ids[i + 1];
        }
      }
    } else {
      assert ids[0] != id;
      WithoutAt(ids[1..], id, k - 1);
      assert ids[..k] == [ids[0]] + ids[1..][..k - 1];
      assert ids[k + 1..] == ids[1..][k..];
    }
  }

  /** TaskStorage.deleteTask: false when the id is unknown. */
  function Delete(s: Store, id: string): (r: (bool, Store))
    requires Valid(s)
    ensures Valid(r.1)
    ensures r.0 <==> id in s.tasks
    ensures !r.0 ==> r.1 == s
    ensures r.1.tasks == s.tasks - {id}
    ensures forall x :: x in r.1.order <==> x in s.order && x != id
    ensures r.1.order == Without(s.order, id)
    ensures forall k :: 0 <= k < |s.order| && s.order[k] == id ==> r.1.order == s.order[..k] + s.order[k + 1..]
  {
    assert forall k :: 0 <= k < |s.order| && s.order[k] == id ==> Without(s.order, id) == s.order[..k] + s.order[k + 1..] by {
      forall k | 0 <= k < |s.order| && s.order[k] == id
        ensures Without(s.order, id) == s.order[..k] + s.order[k + 1..]
      {
        WithoutAt(s.order, id, k);
      }
    }
    (id in s.tasks, Store(s.tasks - {id}, Without(s.order, id)))
  }

  /** Taking out the id that was appended last gives back the sequence. */
  lemma {:induction false} WithoutLast(ids: seq<string>, x: string)
    requires x !in ids
    ensures Without(ids + [x], x) == ids
    decreases |ids|
  {
    if ids != [] {
      assert (ids + [x])[1..] == ids[1..] + [x];
      WithoutLast(ids[1..], x);
      assert ids == [ids[0]] + ids[1..];
    }
  }

  /** Deleting a task just added restores the store, listing order
      included. */
  lemma AddThenDelete(s: Store, t: Task)
    requires Valid(s) && t.id !in s.tasks
    ensures Delete(Add(s, t), t.id) == (true, s)
  {
    WithoutLast(s.order, t.id);
    assert s.tasks[t.id := t] - {t.id} == s.tasks;
  }

  /** The selections the store offers (getTasksByStatus, getTasksByPriority,
      getOverdueTasks) and the two the statistics count. */
  datatype Criterion =
    | WithStatus(status: Status)
    | WithPriority(priority: Priority)
    | Overdue
    | CompletedAfter(since: Instant)

  predicate Matches(c: Criterion, t: Task, env: Env) {
    match c
    case WithStatus(st) => t.status == st
    case WithPriority(p) => t.priority == p
    case Overdue => env.isOverdue(t, env.now)
    case CompletedAfter(since) => t.completedAt.Some? && t.completedAt.value > since
  }

  /** The tasks that meet a criterion, in their original order. */
  function Filter(ts: seq<Task>, c: Criterion, env: Env): (r: seq<Task>)
    ensures |r| <= |ts|
    ensures forall t :: t in r <==> t in ts && Matches(c, t, env)
    decreases |ts|
  {
    if ts == [] then []
    else
      var last := ts[|ts| - 1];
      assert ts == ts[..|ts| - 1] + [last];
      Filter(ts[..|ts| - 1], c, env) + (if Matches(c, last, env) then [last] else [])
  }

  /** How many tasks meet a criterion. */
  function Count(ts: seq<Task>, c: Criterion, env: Env): (n: nat)
    ensures n <= |ts|
  {
    |Filter(ts, c, env)|
  }
}
