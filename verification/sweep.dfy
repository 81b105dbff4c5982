/** abandonOverdueTasks: the one policy of the system. A task that is more
    than a week overdue, not yet resolved and not HIGH priority is marked
    ABANDONED through the store's partial update; HIGH-priority tasks are
    exempt however late they are. */
module Sweep {
  import opened Tasks
  import opened Environment
  import opened Storage

  const AbandonAfterDays: int := 7

  predicate Resolved(t: Task) {
    t.status == Done || t.status == Abandoned
  }

  /** The three tests the sweep makes of each task. */
  predicate ShouldAbandon(t: Task, env: Env) {
    && env.isOverdueByMoreThanDays(t, env.now, AbandonAfterDays)
    && !Resolved(t)
    && t.priority != High
  }

  /** What the sweep leaves of one task. */
  function Swept(t: Task, env: Env): Task {
    if ShouldAbandon(t, env) then Merge(t, SetStatus(Abandoned)) else t
  }

  /** The store after the sweep, stated task by task. */
  function SweepAll(s: Store, env: Env): Store {
    Store(map id | id in s.tasks :: Swept(s.tasks[id], env), s.order)
  }

  /** The sweep as the source runs it: one pass over the listing, each task
      judged as it is stored and updated through the store. */
  method AbandonOverdueTasks(s: Store, env: Env) returns (r: Store)
    requires Valid(s)
    ensures Valid(r)
    ensures r == SweepAll(s, env)
  {
    r := s;
    var i := 0;
    while i < |s.order|
      invariant 0 <= i <= |s.order|
      invariant Valid(r)
      invariant r.order == s.order && r.tasks.Keys == s.tasks.Keys
      invariant forall k :: 0 <= k < i ==> r.tasks[s.order[k]] == Swept(s.tasks[s.order[k]], env)
      invariant forall k :: i <= k < |s.order| ==> r.tasks[s.order[k]] == s.tasks[s.order[k]]
    {
      var id := s.order[i];
      var t := r.tasks[id];
      if ShouldAbandon(t, env) {
        var (_, r') := Update(r, id, SetStatus(Abandoned));
        r := r';
      }
      i := i + 1;
    }
    forall id | id in s.tasks ensures r.tasks[id] == SweepAll(s, env).tasks[id] {
      var k :| 0 <= k < |s.order| && s.order[k] == id;
    }
  }

  /** The sweep keeps the set of ids and the listing order. */
  lemma SweepKeepsIds(s: Store, env: Env)
    requires Valid(s)
    ensures Valid(SweepAll(s, env))
    ensures SweepAll(s, env).tasks.Keys == s.tasks.Keys && SweepAll(s, env).order == s.order
  {
  }

  /** A task ends ABANDONED by the sweep exactly when it met all three tests;
      otherwise it is untouched, and even an abandoned task keeps every
      field except its status. */
  lemma SweepAbandonsExactly(s: Store, env: Env, id: string)
    requires Valid(s) && id in s.tasks
    ensures var (before, after) := (s.tasks[id], SweepAll(s, env).tasks[id]);
            && (ShouldAbandon(before, env) ==> after.status == Abandoned)
            && (!ShouldAbandon(before, env) ==> after == before)
            && SameOutside(before, after, {StatusField})
            && (after != before <==> ShouldAbandon(before, env))
  {
  }

  /** HIGH-priority tasks are never changed by the sweep. */
  lemma SweepSparesHighPriority(s: Store, env: Env, id: string)
    requires Valid(s) && id in s.tasks && s.tasks[id].priority == High
    ensures SweepAll(s, env).tasks[id] == s.tasks[id]
  {
  }

  /** Resolved tasks, and tasks not more than a week overdue, are never
      changed by the sweep. */
  lemma SweepSparesResolvedAndRecent(s: Store, env: Env, id: string)
    requires Valid(s) && id in s.tasks
    requires Resolved(s.tasks[id]) || !env.isOverdueByMoreThanDays(s.tasks[id], env.now, AbandonAfterDays)
    ensures SweepAll(s, env).tasks[id] == s.tasks[id]
  {
  }

  /** A second sweep at the same instant changes nothing: everything the
      first one touched is now resolved. */
  lemma SweepIdempotent(s: Store, env: Env)
    requires Valid(s)
    ensures SweepAll(SweepAll(s, env), env) == SweepAll(s, env)
  {
    var once := SweepAll(s, env);
    assert forall id | id in once.tasks :: Swept(once.tasks[id], env) == once.tasks[id];
  }
}
