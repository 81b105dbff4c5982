/** getStatistics: a read-only summary of the store. It takes a store and
    returns a record, so by construction it cannot modify the store. */
module Statistics {
  import opened Tasks
  import opened Environment
  import opened Storage

  /** How far back "completed recently" reaches. */
  const RecentDays: int := 7

  /** The typed form of the statistics map. Every status and every priority
      has a count, including those no task has. */
  datatype Stats = Stats(
    total: nat,
    byStatus: map<Status, nat>,
    byPriority: map<Priority, nat>,
    overdue: nat,
    completedLastWeek: nat)

  /** The count a tally holds for a key, zero where it has no entry. */
  function CountAt<K>(m: map<K, nat>, k: K): nat {
    if k in m then m[k] else 0
  }

  function StatusSum(m: map<Status, nat>): nat {
    CountAt(m, Todo) + CountAt(m, InProgress) + CountAt(m, Done) + CountAt(m, Abandoned)
  }

  function PrioritySum(m: map<Priority, nat>): nat {
    CountAt(m, Low) + CountAt(m, Medium) + CountAt(m, High)
  }

  /** Each task has exactly one status, so the per-status counts partition
      any list of tasks. */
  lemma {:induction false} StatusCountsPartition(ts: seq<Task>, env: Env)
    ensures Count(ts, WithStatus(Todo), env) + Count(ts, WithStatus(InProgress), env)
            + Count(ts, WithStatus(Done), env) + Count(ts, WithStatus(Abandoned), env) == |ts|
    decreases |ts|
  {
    if ts != [] {
      StatusCountsPartition(ts[..|ts| - 1], env);
    }
  }

  /** Each task has exactly one priority, so the per-priority counts
      partition any list of tasks. */
  lemma {:induction false} PriorityCountsPartition(ts: seq<Task>, env: Env)
    ensures Count(ts, WithPriority(Low), env) + Count(ts, WithPriority(Medium), env)
            + Count(ts, WithPriority(High), env) == |ts|
    decreases |ts|
  {
    if ts != [] {
      PriorityCountsPartition(ts[..|ts| - 1], env);
    }
  }

  /** Counting one more task adds one exactly when it meets the criterion. */
  lemma CountStep(ts: seq<Task>, i: nat, c: Criterion, env: Env)
    requires i < |ts|
    ensures Count(ts[..i + 1], c, env) == Count(ts[..i], c, env) + (if Matches(c, ts[i], env) then 1 else 0)
  {
    assert ts[..i + 1][..i] == ts[..i];
  }

  /** Tallies tasks per status over a map pre-seeded with zero for every
      status. */
  method CountByStatus(tasks: seq<Task>, env: Env) returns (counts: map<Status, nat>)
    ensures forall st: Status :: st in counts && counts[st] == Count(tasks, WithStatus(st), env)
  {
    counts := map[Todo := 0, InProgress := 0, Done := 0, Abandoned := 0];
    var i := 0;
    forall st: Status ensures st in counts && counts[st] == Count(tasks[..0], WithStatus(st), env) {
      assert tasks[..0] == [];
      match st
      case Todo => case InProgress => case Done => case Abandoned =>
    }
    while i < |tasks|
      invariant 0 <= i <= |tasks|
      invariant forall st: Status :: st in counts && counts[st] == Count(tasks[..i], WithStatus(st), env)
    {
      forall st: Status ensures Count(tasks[..i + 1], WithStatus(st), env)
                               == Count(tasks[..i], WithStatus(st), env) + (if tasks[i].status == st then 1 else 0) {
        CountStep(tasks, i, WithStatus(st), env);
      }
      var st := tasks[i].status;
      counts := counts[st := counts[st] + 1];
      i := i + 1;
    }
    assert tasks[..|tasks|] == tasks;
  }

  /** Tallies tasks per priority over a map pre-seeded with zero for every
      priority. */
  method CountByPriority(tasks: seq<Task>, env: Env) returns (counts: map<Priority, nat>)
    ensures forall p: Priority :: p in counts && counts[p] == Count(tasks, WithPriority(p), env)
  {
    counts := map[Low := 0, Medium := 0, High := 0];
    var i := 0;
    forall p: Priority ensures p in counts && counts[p] == Count(tasks[..0], WithPriority(p), env) {
      assert tasks[..0] == [];
      match p
      case Low => case Medium => case High =>
    }
    while i < |tasks|
      invariant 0 <= i <= |tasks|
      invariant forall p: Priority :: p in counts && counts[p] == Count(tasks[..i], WithPriority(p), env)
    {
      forall p: Priority ensures Count(tasks[..i + 1], WithPriority(p), env)
                                == Count(tasks[..i], WithPriority(p), env) + (if tasks[i].priority == p then 1 else 0) {
        CountStep(tasks, i, WithPriority(p), env);
      }
      var p := tasks[i].priority;
      counts := counts[p := counts[p] + 1];
      i := i + 1;
    }
    assert tasks[..|tasks|] == tasks;
  }

  /** `r` is the summary of a task listing at instant `env.now`: the number
      of tasks, a count for every status and every priority, the overdue
      tasks, and the tasks completed strictly after `now` minus seven days. */
  ghost predicate Summarises(r: Stats, tasks: seq<Task>, env: Env) {
    && r.total == |tasks|
    && (forall st: Status :: st in r.byStatus && r.byStatus[st] == Count(tasks, WithStatus(st), env))
    && (forall p: Priority :: p in r.byPriority && r.byPriority[p] == Count(tasks, WithPriority(p), env))
    && r.overdue == Count(tasks, Overdue, env)
    && r.completedLastWeek == Count(tasks, CompletedAfter(env.now - RecentDays * NanosPerDay), env)
  }

  /** getStatistics, with the clock read once as `env.now`: it summarises
      the full listing, whose length is the number of stored tasks. */
  method GetStatistics(s: Store, env: Env) returns (r: Stats)
    requires Valid(s)
    ensures Summarises(r, AllTasks(s), env)
    ensures r.total == |s.tasks|
    ensures r.overdue <= r.total && r.completedLastWeek <= r.total
  {
    var tasks := AllTasks(s);
    OrderMatchesSize(s);
    var byStatus := CountByStatus(tasks, env);
    var byPriority := CountByPriority(tasks, env);
    var sevenDaysAgo := env.now - RecentDays * NanosPerDay;
    r := Stats(|tasks|, byStatus, byPriority, Count(tasks, Overdue, env),
               Count(tasks, CompletedAfter(sevenDaysAgo), env));
  }

  /** In any summary the per-status counts sum to the total. */
  lemma StatusSummaryAddsUp(r: Stats, tasks: seq<Task>, env: Env)
    requires Summarises(r, tasks, env)
    ensures StatusSum(r.byStatus) == r.total
  {
    StatusCountsPartition(tasks, env);
  }

  /** In any summary the per-priority counts sum to the total. */
  lemma PrioritySummaryAddsUp(r: Stats, tasks: seq<Task>, env: Env)
    requires Summarises(r, tasks, env)
    ensures PrioritySum(r.byPriority) == r.total
  {
    PriorityCountsPartition(tasks, env);
  }

  /** The distinct tasks of a list that meet a criterion. */
  ghost function Matching(ts: seq<Task>, c: Criterion, env: Env): set<Task> {
    set t | t in ts && Matches(c, t, env)
  }

  /** Dropping the last task of a list without repeated ids leaves such a
      list, and that last task is not among the others. */
  lemma LastIsNew(ts: seq<Task>)
    requires ts != [] && Distinct(TaskIds(ts))
    ensures Distinct(TaskIds(ts[..|ts| - 1]))
    ensures ts[|ts| - 1] !in ts[..|ts| - 1]
  {
    var init := ts[..|ts| - 1];
    assert TaskIds(init) == TaskIds(ts)[..|ts| - 1];
    forall k | 0 <= k < |init| ensures init[k] != ts[|ts| - 1] {
      assert TaskIds(ts)[k] == init[k].id;
    }
  }

  /** The matching set of a list grows by the last task exactly when that
      task matches. */
  lemma MatchingStep(ts: seq<Task>, c: Criterion, env: Env)
    requires ts != []
    ensures var last := ts[|ts| - 1];
            Matching(ts, c, env)
              == Matching(ts[..|ts| - 1], c, env) + (if Matches(c, last, env) then {last} else {})
  {
    assert ts == ts[..|ts| - 1] + [ts[|ts| - 1]];
  }

  /** In a list without repeated ids, a count is the number of distinct
      tasks meeting the criterion: nothing is counted twice. */
  lemma {:induction false} CountMeansMatching(ts: seq<Task>, c: Criterion, env: Env)
    requires Distinct(TaskIds(ts))
    ensures Count(ts, c, env) == |Matching(ts, c, env)|
    decreases |ts|
  {
    if ts != [] {
      var init := ts[..|ts| - 1];
      LastIsNew(ts);
      CountMeansMatching(init, c, env);
      MatchingStep(ts, c, env);
      assert Count(ts, c, env) == Count(init, c, env) + (if Matches(c, ts[|ts| - 1], env) then 1 else 0);
    }
  }

  function TaskIds(ts: seq<Task>): (ids: seq<string>)
    ensures |ids| == |ts| && forall i :: 0 <= i < |ts| ==> ids[i] == ts[i].id
  {
    seq(|ts|, i requires 0 <= i < |ts| => ts[i].id)
  }

  /** The stored listing has distinct ids, so every count of the statistics
      is the size of the set of stored tasks meeting its criterion. */
  lemma StatsCountStoredTasks(s: Store, c: Criterion, env: Env)
    requires Valid(s)
    ensures Count(AllTasks(s), c, env) == |set t | t in s.tasks.Values && Matches(c, t, env)|
  {
    var ts := AllTasks(s);
    assert TaskIds(ts) == s.order;
    CountMeansMatching(ts, c, env);
    assert Matching(ts, c, env) == set t | t in s.tasks.Values && Matches(c, t, env);
  }
}
